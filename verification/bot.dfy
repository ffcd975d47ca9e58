/** The `baselink` slash command: OCR text in, exactly one reply out.
    The OCR.space call, the Discord interaction and the YouTube client are
    outside the model; their answers are inputs. */
module Bot {
  import opened Wrappers
  import opened Text
  import opened Links
  import opened Resolver

  /** The parts of the OCR.space JSON answer that `extract_text_from_image`
      reads: the `IsErroredOnProcessing` flag (`None` when the key is
      absent) and the `ParsedText` of the first parsed result. */
  datatype OcrResponse = OcrResponse(isErroredOnProcessing: Option<bool>, firstParsedText: string)

  /** The four replies the command can send. */
  datatype Reply =
    | CouldNotRead
    | FoundLink(link: string)
    | NoLinkFound
    | SearchFailed(reason: string)

  /** `extract_text_from_image`: an errored answer, or one that does not
      say it succeeded, gives the empty text. */
  function OcrText(resp: OcrResponse): (t: string)
    ensures resp.isErroredOnProcessing != Some(false) ==> t == []
    ensures resp.isErroredOnProcessing == Some(false) ==> t == resp.firstParsedText
  {
    if resp.isErroredOnProcessing.GetOr(true) then [] else resp.firstParsedText
  }

  /** The reply for the outcome of the `try` block. */
  function ReplyFor(res: Resolution): (r: Reply)
    ensures res.Found? <==> r.FoundLink?
    ensures res.Found? ==> r.link == res.link
    ensures res.NotFound? <==> r.NoLinkFound?
    ensures res.Failed? ==> r == SearchFailed(res.reason)
    ensures r.SearchFailed? ==> res.Failed?
    ensures !r.CouldNotRead?
  {
    match res
    case Found(l) => FoundLink(l)
    case NotFound => NoLinkFound
    case Failed(e) => SearchFailed(e)
  }

  /** The slash command. `search` is the YouTube search answer for a query;
      the OCR text itself, unstripped, is the query. The reply is
      could-not-read exactly when the OCR text is empty or whitespace only. */
  function Handle(ocr: OcrResponse, search: string -> SearchResponse): (r: Reply)
    ensures r == CouldNotRead <==> Blank(OcrText(ocr))
  {
    var text := OcrText(ocr);
    StripEmptyIffBlank(text);
    if Strip(text) == [] then CouldNotRead
    else ReplyFor(Resolve(search(text)))
  }

  /** Readable OCR text is used, as it is, as the search query, and the
      reply is the one for that search's outcome. */
  lemma ReadableTextIsSearched(ocr: OcrResponse, search: string -> SearchResponse)
    requires !Blank(OcrText(ocr))
    ensures Handle(ocr, search) == ReplyFor(Resolve(search(OcrText(ocr))))
  {
    StripEmptyIffBlank(OcrText(ocr));
  }

  /** On blank OCR text the search is never consulted: any two search
      answers give the same reply. */
  lemma BlankNeverSearches(ocr: OcrResponse, s1: string -> SearchResponse, s2: string -> SearchResponse)
    requires Blank(OcrText(ocr))
    ensures Handle(ocr, s1) == Handle(ocr, s2) == CouldNotRead
  {
  }

  /** An OCR answer that reports an error, or lacks the flag, ends in
      could-not-read; there is no separate extraction-error reply. */
  lemma OcrErrorCouldNotRead(ocr: OcrResponse, search: string -> SearchResponse)
    requires ocr.isErroredOnProcessing != Some(false)
    ensures Handle(ocr, search) == CouldNotRead
  {
  }

  /** A failing search call, on readable text, is reported as a search
      error carrying the exception's text, never as not-found. */
  lemma SearchErrorReported(ocr: OcrResponse, search: string -> SearchResponse)
    requires !Blank(OcrText(ocr))
    requires search(OcrText(ocr)).SearchError?
    ensures Handle(ocr, search) == SearchFailed(search(OcrText(ocr)).reason)
  {
    ReadableTextIsSearched(ocr, search);
  }

  /** The messages sent for each reply; concatenated, each is the text the
      command sends. Each literal is split where the replies first differ,
      so the characters that tell them apart sit in short literals. */
  const WarnSign: string := "\U{26A0}\U{FE0F} "
  const CouldNotReadText: string :=
    WarnSign + "Could not read" + " any text from the screenshot. Try a clearer image."
  const FoundPrefix: string := "\U{2705}" + " Found base link: "
  const NotFoundText: string :=
    "\U{274C}" + " No base link found in top YouTube results. Try another image."
  const SearchErrorPrefix: string := WarnSign + "Error" + " searching YouTube: "

  /** The text `interaction.followup.send` is given for a reply. */
  function ReplyText(r: Reply): (msg: string)
    ensures r.FoundLink? ==> |r.link| < |msg| && msg[|msg| - |r.link|..] == r.link
    ensures r.SearchFailed? ==> |r.reason| < |msg| && msg[|msg| - |r.reason|..] == r.reason
  {
    match r
    case CouldNotRead => CouldNotReadText
    case FoundLink(l) => FoundPrefix + l
    case NoLinkFound => NotFoundText
    case SearchFailed(e) => SearchErrorPrefix + e
  }

  /** Different replies are sent as different messages, so the user can
      tell every outcome apart. */
  lemma ReplyTextInjective(a: Reply, b: Reply)
    requires ReplyText(a) == ReplyText(b)
    ensures a == b
  {
    var m := ReplyText(a);
    assert |WarnSign| == 3 && WarnSign[0] == '\U{26A0}';
    assert FoundPrefix[0] == '\U{2705}' && NotFoundText[0] == '\U{274C}';
    assert CouldNotReadText[0] == '\U{26A0}' && CouldNotReadText[3] == 'C';
    assert SearchErrorPrefix[0] == '\U{26A0}' && SearchErrorPrefix[3] == 'E';
    assert m[0] == ReplyText(b)[0];
    match a
    case CouldNotRead =>
      assert ReplyText(b)[3] == 'C';
    case FoundLink(l) =>
      assert m[|FoundPrefix|..] == l;
    case NoLinkFound =>
    case SearchFailed(e) =>
      assert ReplyText(b)[3] == 'E';
      assert m[|SearchErrorPrefix|..] == e;
  }

  /** Readable OCR text; a search answer whose only video's description
      is a base link: the reply carries that link. */
  lemma ExampleLinkFound()
    ensures Handle(OcrResponse(Some(false), "TH14 base layout"),
                   q => SearchItems([SearchItem(VideoKind, Video(Prefix + "ABC123"))]))
            == FoundLink(Prefix + "ABC123")
  {
    var ocr := OcrResponse(Some(false), "TH14 base layout");
    var search := q => SearchItems([SearchItem(VideoKind, Video(Prefix + "ABC123"))]);
    assert !IsSpace(OcrText(ocr)[0]);
    ReadableTextIsSearched(ocr, search);
    LinkAtStart("ABC123", "");
    assert Prefix + "ABC123" + "" == Prefix + "ABC123";
  }

  /** The first item lets the loop pass and the second is a video whose
      description holds a link: that link is the reply, whatever the third
      item is (even one whose lookup would fail). */
  lemma SecondLinkWinsOverLaterItem(ocr: OcrResponse, search: string -> SearchResponse,
                                    a: SearchItem, b: SearchItem, c: SearchItem)
    requires !Blank(OcrText(ocr))
    requires search(OcrText(ocr)) == SearchItems([a, b, c])
    requires Passes(a) && Eligible(b) && FindLink(b.detail.description).Some?
    ensures Handle(ocr, search) == FoundLink(FindLink(b.detail.description).value)
  {
    var l := FindLink(b.detail.description).value;
    ReadableTextIsSearched(ocr, search);
    assert Step(b) == Some(Found(l));
    assert Scan([b]) == Found(l);
    FirstMatchWins([b], [c]);
    assert [b] + [c] == [b, c];
    assert [a, b, c][1..] == [b, c];
  }

  /** Search items that all have a description without a base link give
      the not-found reply, not a search error. */
  lemma NoLinkInAnyVideo(ocr: OcrResponse, search: string -> SearchResponse, items: seq<SearchItem>)
    requires !Blank(OcrText(ocr))
    requires search(OcrText(ocr)) == SearchItems(items)
    requires forall j :: 0 <= j < |items| ==>
               items[j].SearchItem? && items[j].detail.Video? && FindLink(items[j].detail.description).None?
    ensures Handle(ocr, search) == NoLinkFound
  {
    ReadableTextIsSearched(ocr, search);
    ScanIsFirstStop(items);
  }
}
