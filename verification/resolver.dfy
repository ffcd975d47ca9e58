/** The candidate loop of the `baselink` slash command: walk the YouTube
    search items in the order returned, look up each video's description,
    and keep the first base link found. The YouTube client is a remote
    API; its answers are an input here. */
module Resolver {
  import opened Wrappers
  import opened Links

  /** The kind marker of a search item that is a video. */
  const VideoKind: string := "youtube#video"

  /** The answer `youtube.videos().list(id=…)` gives for one video.
      `DetailError` stands for anything raised while making the call or
      reading `videoId`, `snippet` or `description` from the answer;
      `NoVideo` is an answer whose `items` list is empty. */
  datatype Detail = DetailError(reason: string) | NoVideo | Video(description: string)

  /** One entry of the search answer's `items`, paired with the detail
      answer its video id WOULD get. The detail is only looked at for
      items of the video kind that the loop reaches, so answers the loop
      never asks for cannot influence the result. `MalformedItem` is an
      entry without `id.kind`, whose lookup raises. */
  datatype SearchItem =
    | SearchItem(kind: string, detail: Detail)
    | MalformedItem(reason: string)

  /** The answer of `youtube.search().list(q=…)`: the call raised, or the
      list of items (a missing `items` key reads as the empty list). */
  datatype SearchResponse = SearchError(reason: string) | SearchItems(items: seq<SearchItem>)

  /** What the search part of the `try` block ends with: a base link, none,
      or the text of the exception caught by `except Exception`. (The
      replies sent afterwards are inside the same `try`; a send that raises
      is not modelled.) */
  datatype Resolution = Found(link: string) | NotFound | Failed(reason: string)

  /** The item is a video whose detail lookup returned a description. */
  predicate Eligible(it: SearchItem) {
    it.SearchItem? && it.kind == VideoKind && it.detail.Video?
  }

  /** Reading the item raises: its kind is missing, or it is a video whose
      detail lookup fails. */
  predicate Faulty(it: SearchItem) {
    it.MalformedItem? || (it.kind == VideoKind && it.detail.DetailError?)
  }

  /** How one loop iteration ends: `None` when it falls through to the next
      item, otherwise the resolution it breaks out with or raises. */
  function Step(it: SearchItem): (v: Option<Resolution>)
    ensures v.Some? && v.value.Failed? <==> Faulty(it)
    ensures v.Some? && v.value.Found? <==>
              Eligible(it) && FindLink(it.detail.description).Some?
    ensures v.Some? && v.value.Found? ==> v.value.link == FindLink(it.detail.description).value
    ensures v.Some? ==> !v.value.NotFound?
    ensures v.Some? && v.value.Failed? ==>
              v.value.reason == (if it.MalformedItem? then it.reason else it.detail.reason)
  {
    match it
    case MalformedItem(e) => Some(Failed(e))
    case SearchItem(kind, detail) =>
      if kind != VideoKind then None
      else
        match detail
        case DetailError(e) => Some(Failed(e))
        case NoVideo => None
        case Video(d) =>
          match FindLink(d)
          case Some(l) => Some(Found(l))
          case None => None
  }

  /** The item lets the loop move on to the next one. */
  predicate Passes(it: SearchItem) {
    Step(it).None?
  }

  /** The `for item in …` loop with its `break` on the first link. */
  function Scan(items: seq<SearchItem>): (r: Resolution)
    ensures r.Found? ==> exists k :: 0 <= k < |items| && Eligible(items[k])
                                     && FindLink(items[k].detail.description) == Some(r.link)
    ensures r.Failed? ==> exists k :: 0 <= k < |items| && Faulty(items[k])
  {
    if |items| == 0 then NotFound
    else
      match Step(items[0])
      case Some(v) => v
      case None => Scan(items[1..])
  }

  /** The search part of the `try` block: the search call, then the loop. */
  function Resolve(resp: SearchResponse): (r: Resolution)
    ensures resp.SearchError? ==> r == Failed(resp.reason)
  {
    match resp
    case SearchError(e) => Failed(e)
    case SearchItems(items) => Scan(items)
  }

  /** Index `k` is the first item at which the loop stops. */
  ghost predicate FirstStop(items: seq<SearchItem>, k: nat) {
    && k < |items|
    && Step(items[k]).Some?
    && forall j :: 0 <= j < k ==> Passes(items[j])
  }

  /** Reference meaning of the loop: the result is what the first stopping
      item produces, and not-found exactly when every item passes. */
  lemma {:induction false} ScanIsFirstStop(items: seq<SearchItem>)
    ensures Scan(items) == NotFound <==> forall j :: 0 <= j < |items| ==> Passes(items[j])
    ensures Scan(items) != NotFound ==>
              exists k: nat :: FirstStop(items, k) && Scan(items) == Step(items[k]).value
    decreases |items|
  {
    if |items| > 0 {
      var rest := items[1..];
      ScanIsFirstStop(rest);
      if Passes(items[0]) {
        assert forall j :: 1 <= j < |items| ==> items[j] == rest[j - 1];
        if Scan(items) != NotFound {
          var k: nat :| FirstStop(rest, k) && Scan(rest) == Step(rest[k]).value;
          assert FirstStop(items, k + 1);
        }
      } else {
        assert FirstStop(items, 0);
      }
    }
  }

  /** Search order decides: a link or an error met in `front` stands
      whatever comes after it, and a `front` that yields nothing leaves the
      decision to the rest. */
  lemma {:induction false} FirstMatchWins(front: seq<SearchItem>, back: seq<SearchItem>)
    ensures Scan(front) != NotFound ==> Scan(front + back) == Scan(front)
    ensures Scan(front) == NotFound ==> Scan(front + back) == Scan(back)
    decreases |front|
  {
    if |front| > 0 {
      assert (front + back)[0] == front[0];
      assert (front + back)[1..] == front[1..] + back;
      FirstMatchWins(front[1..], back);
    } else {
      assert front + back == back;
    }
  }

  /** An item that passes (not a video, a video with no detail, or a
      description without a link) can be removed without changing the
      result. */
  lemma SkipPassing(front: seq<SearchItem>, it: SearchItem, back: seq<SearchItem>)
    requires Passes(it)
    ensures Scan(front + [it] + back) == Scan(front + back)
  {
    FirstMatchWins(front, [it] + back);
    FirstMatchWins(front, back);
    assert front + [it] + back == front + ([it] + back);
    assert ([it] + back)[1..] == back;
  }

  /** Descriptions of the eligible items, in search order. */
  function EligibleDescriptions(items: seq<SearchItem>): (ds: seq<string>)
    ensures |ds| <= |items|
    ensures forall d :: d in ds ==>
              exists k :: 0 <= k < |items| && Eligible(items[k]) && items[k].detail.description == d
    ensures (forall k :: 0 <= k < |items| ==> !Eligible(items[k])) ==> ds == []
    ensures forall k :: 0 <= k < |items| && Eligible(items[k]) ==> items[k].detail.description in ds
  {
    if |items| == 0 then []
    else if Eligible(items[0]) then [items[0].detail.description] + EligibleDescriptions(items[1..])
    else EligibleDescriptions(items[1..])
  }

  /** A single item contributes its description exactly when it is
      eligible. */
  lemma EligibleDescriptionsOne(it: SearchItem)
    ensures EligibleDescriptions([it]) == if Eligible(it) then [it.detail.description] else []
  {
    assert [it][1..] == [];
  }

  /** The filter keeps search order: filtering a concatenation concatenates
      the filtered parts. */
  lemma {:induction false} EligibleDescriptionsAppend(a: seq<SearchItem>, b: seq<SearchItem>)
    ensures EligibleDescriptions(a + b) == EligibleDescriptions(a) + EligibleDescriptions(b)
    decreases |a|
  {
    if |a| == 0 {
      assert a + b == b;
    } else {
      assert (a + b)[0] == a[0];
      assert (a + b)[1..] == a[1..] + b;
      EligibleDescriptionsAppend(a[1..], b);
    }
  }

  /** The link of the first description that has one. */
  function FirstLink(ds: seq<string>): (r: Option<string>)
    ensures r.Some? <==> exists k :: 0 <= k < |ds| && FindLink(ds[k]).Some?
    ensures r.Some? ==> exists k :: 0 <= k < |ds| && FindLink(ds[k]) == r
                                    && forall j :: 0 <= j < k ==> FindLink(ds[j]).None?
  {
    if |ds| == 0 then None
    else if FindLink(ds[0]).Some? then FindLink(ds[0])
    else FirstLink(ds[1..])
  }

  /** With no failing lookup, the loop is a filter followed by a first
      match: only eligible items contribute, in order, and the first
      description with a link gives the result. */
  lemma {:induction false} ScanIsFilterThenFirst(items: seq<SearchItem>)
    requires forall j :: 0 <= j < |items| ==> !Faulty(items[j])
    ensures Scan(items) == match FirstLink(EligibleDescriptions(items))
                           case Some(l) => Found(l)
                           case None => NotFound
    decreases |items|
  {
    if |items| > 0 {
      assert !Faulty(items[0]);
      ScanIsFilterThenFirst(items[1..]);
    }
  }
}
