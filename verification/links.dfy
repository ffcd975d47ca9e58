/** The base link pattern `https:\/\/link\.clashofclans\.com\/[^\s]+` and
    the `re.search` the slash command applies to each video description.
    The pattern is a literal prefix followed by one or more non-whitespace
    characters, so `re.search` returns the prefix at the leftmost index
    where a non-whitespace character follows it, extended by the longest
    run of non-whitespace characters. */
module Links {
  import opened Wrappers
  import opened Text

  /** The literal part of the pattern. */
  const Prefix: string := "https://link.clashofclans.com/"

  /** `s` holds the literal prefix starting at index `i`. */
  predicate PrefixAt(s: string, i: nat) {
    i + |Prefix| <= |s| && s[i..i + |Prefix|] == Prefix
  }

  /** The pattern can start matching at index `i`: the prefix is there and
      at least one non-whitespace character follows it. */
  predicate MatchAt(s: string, i: nat) {
    PrefixAt(s, i) && i + |Prefix| < |s| && !IsSpace(s[i + |Prefix|])
  }

  /** `s[j..e]` is a longest run of non-whitespace characters starting at
      `j`: it stops at whitespace or at the end of `s`. */
  ghost predicate MaximalRun(s: string, j: nat, e: nat) {
    && j <= e <= |s|
    && (forall k :: j <= k < e ==> !IsSpace(s[k]))
    && (e == |s| || IsSpace(s[e]))
  }

  /** `s[i..e]` is the text `re.search` returns: `i` is the leftmost index
      where the pattern can match and `e` ends the greedy `[^\s]+`. */
  ghost predicate LinkAt(s: string, i: nat, e: nat) {
    && MatchAt(s, i)
    && (forall j: nat :: j < i ==> !MatchAt(s, j))
    && MaximalRun(s, i + |Prefix|, e)
  }

  /** Declarative meaning of `re.search(BASE_LINK_REGEX, s)`: no match
      exactly when the pattern can start nowhere; otherwise the
      leftmost-greedy match. */
  ghost predicate IsSearchResult(s: string, r: Option<string>) {
    match r
    case None => forall i: nat :: !MatchAt(s, i)
    case Some(m) => exists i: nat, e: nat :: LinkAt(s, i, e) && m == s[i..e]
  }

  /** End of the run of non-whitespace characters starting at `j`. */
  function RunEnd(s: string, j: nat): (e: nat)
    requires j <= |s|
    ensures MaximalRun(s, j, e)
    decreases |s| - j
  {
    if j == |s| || IsSpace(s[j]) then j else RunEnd(s, j + 1)
  }

  /** Leftmost index at or after `i` where the pattern can start. */
  function FindStart(s: string, i: nat): (r: Option<nat>)
    requires i <= |s|
    ensures r.Some? ==> i <= r.value && MatchAt(s, r.value)
    ensures r.Some? ==> forall j: nat :: i <= j < r.value ==> !MatchAt(s, j)
    ensures r.None? ==> forall j: nat :: i <= j ==> !MatchAt(s, j)
    decreases |s| - i
  {
    if i + |Prefix| >= |s| then None
    else if MatchAt(s, i) then Some(i)
    else FindStart(s, i + 1)
  }

  /** The scan standing for `re.search(BASE_LINK_REGEX, description)`
      followed by `match.group(0)`. */
  function FindLink(desc: string): (r: Option<string>)
    ensures IsSearchResult(desc, r)
  {
    match FindStart(desc, 0)
    case None => None
    case Some(i) =>
      var e := RunEnd(desc, i + |Prefix|);
      assert LinkAt(desc, i, e);
      Some(desc[i..e])
  }

  /** A search result is a link exactly when the pattern can start
      somewhere. */
  lemma SomeIffMatch(s: string, r: Option<string>)
    requires IsSearchResult(s, r)
    ensures r.Some? <==> exists i: nat :: MatchAt(s, i)
  {
    if r.Some? {
      var i: nat, e: nat :| LinkAt(s, i, e) && r.value == s[i..e];
      assert MatchAt(s, i);
    }
  }

  /** Leftmost start and greedy end are determined by the text. */
  lemma LinkAtUnique(s: string, i1: nat, e1: nat, i2: nat, e2: nat)
    requires LinkAt(s, i1, e1) && LinkAt(s, i2, e2)
    ensures i1 == i2 && e1 == e2
  {
    assert MatchAt(s, i1) && MatchAt(s, i2);
    assert e1 < |s| ==> IsSpace(s[e1]);
    assert e2 < |s| ==> IsSpace(s[e2]);
  }

  /** The leftmost-greedy meaning determines the result: `FindLink` is the
      only function that meets it. */
  lemma SearchResultUnique(s: string, r1: Option<string>, r2: Option<string>)
    requires IsSearchResult(s, r1) && IsSearchResult(s, r2)
    ensures r1 == r2
  {
    SomeIffMatch(s, r1);
    SomeIffMatch(s, r2);
    if r1.Some? && r2.Some? {
      var i1: nat, e1: nat :| LinkAt(s, i1, e1) && r1.value == s[i1..e1];
      var i2: nat, e2: nat :| LinkAt(s, i2, e2) && r2.value == s[i2..e2];
      LinkAtUnique(s, i1, e1, i2, e2);
    }
  }

  /** `m` occurs in `s` as a contiguous piece starting at index `i`. */
  predicate OccursAt(s: string, m: string, i: nat) {
    i + |m| <= |s| && s[i..i + |m|] == m
  }

  /** A returned link starts with the prefix, has at least one character
      after it, contains no whitespace after it, and is a contiguous piece
      of the description. */
  lemma LinkShape(desc: string, link: string)
    requires FindLink(desc) == Some(link)
    ensures |Prefix| < |link| && link[..|Prefix|] == Prefix
    ensures forall k :: |Prefix| <= k < |link| ==> !IsSpace(link[k])
    ensures exists i: nat :: OccursAt(desc, link, i)
  {
    var i: nat, e: nat :| LinkAt(desc, i, e) && link == desc[i..e];
    assert link[..|Prefix|] == desc[i..i + |Prefix|];
    forall k | |Prefix| <= k < |link| ensures !IsSpace(link[k]) {
      assert link[k] == desc[i + k];
    }
    assert OccursAt(desc, link, i);
  }

  /** `FindLink` finds nothing exactly when no occurrence of the prefix is
      followed by a non-whitespace character; a prefix followed by
      whitespace, or closing the description, does not count. */
  lemma NoLinkIff(desc: string)
    ensures FindLink(desc).None? <==> forall i: nat :: !MatchAt(desc, i)
  {
    SomeIffMatch(desc, FindLink(desc));
  }

  /** A description that opens with the prefix and a non-whitespace run
      `t` yields exactly the prefix plus `t`, whatever follows the
      whitespace that ends the run. */
  lemma {:induction false} LinkAtStart(t: string, rest: string)
    requires |t| > 0 && forall k :: 0 <= k < |t| ==> !IsSpace(t[k])
    requires rest == [] || IsSpace(rest[0])
    ensures FindLink(Prefix + t + rest) == Some(Prefix + t)
  {
    var s := Prefix + t + rest;
    var e := |Prefix| + |t|;
    assert s[0..|Prefix|] == Prefix;
    assert s[|Prefix|] == t[0];
    forall k | |Prefix| <= k < e ensures !IsSpace(s[k]) {
      assert s[k] == t[k - |Prefix|];
    }
    if e < |s| {
      assert s[e] == rest[0];
    }
    assert LinkAt(s, 0, e);
    assert s[0..e] == Prefix + t;
    SearchResultUnique(s, FindLink(s), Some(Prefix + t));
  }
}
