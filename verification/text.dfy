/** Whitespace as the bot's Python code sees it: the `\s` class of the base
    link pattern and `str.strip()` on the OCR text share one definition. */
module Text {

  /** The characters CPython classifies as whitespace (`str.isspace`), which
      is also the set `\s` matches in a `str` pattern: TAB, LF, VT, FF, CR,
      the four information separators U+001C..U+001F, SPACE, NEL, NBSP,
      OGHAM SPACE MARK, the spaces U+2000..U+200A, LINE SEPARATOR,
      PARAGRAPH SEPARATOR, NARROW NBSP, MEDIUM MATHEMATICAL SPACE and
      IDEOGRAPHIC SPACE. */
  predicate IsSpace(c: char) {
    var n := c as int;
    || (0x09 <= n <= 0x0D)
    || (0x1C <= n <= 0x20)
    || n == 0x85
    || n == 0xA0
    || n == 0x1680
    || (0x2000 <= n <= 0x200A)
    || n == 0x2028
    || n == 0x2029
    || n == 0x202F
    || n == 0x205F
    || n == 0x3000
  }

  /** The same whitespace set, listed code point by code point as in
      CPython's Unicode database. */
  const WhitespaceCodePoints: set<int> := {
    0x09, 0x0A, 0x0B, 0x0C, 0x0D, 0x1C, 0x1D, 0x1E, 0x1F, 0x20, 0x85, 0xA0,
    0x1680, 0x2000, 0x2001, 0x2002, 0x2003, 0x2004, 0x2005, 0x2006, 0x2007,
    0x2008, 0x2009, 0x200A, 0x2028, 0x2029, 0x202F, 0x205F, 0x3000
  }

  /** The range form of `IsSpace` and the enumerated table agree; this
      checks one encoding against the other, while the correspondence with
      CPython's table rests on the listing itself. */
  lemma IsSpaceMatchesTable(c: char)
    ensures IsSpace(c) <==> c as int in WhitespaceCodePoints
  {
  }

  /** Every character of `t` is whitespace (the empty string included). */
  predicate Blank(t: string) {
    forall i :: 0 <= i < |t| ==> IsSpace(t[i])
  }

  /** The first index at or after `i` that is not whitespace, or `|t|`. */
  function SkipSpaces(t: string, i: nat): (k: nat)
    requires i <= |t|
    ensures i <= k <= |t|
    ensures forall j :: i <= j < k ==> IsSpace(t[j])
    ensures k == |t| || !IsSpace(t[k])
    decreases |t| - i
  {
    if i == |t| || !IsSpace(t[i]) then i else SkipSpaces(t, i + 1)
  }

  /** The start of the run of whitespace that ends just before index `h`. */
  function SkipSpacesBack(t: string, h: nat): (k: nat)
    requires h <= |t|
    ensures k <= h
    ensures forall j :: k <= j < h ==> IsSpace(t[j])
    ensures k == 0 || !IsSpace(t[k - 1])
  {
    if h == 0 || !IsSpace(t[h - 1]) then h else SkipSpacesBack(t, h - 1)
  }

  /** `t[lo..hi]` is what is left of `t` once its leading and trailing
      whitespace are removed: everything outside it is whitespace, and a
      non-empty remainder starts and ends with a non-whitespace character. */
  ghost predicate StrippedBy(t: string, lo: nat, hi: nat) {
    && lo <= hi <= |t|
    && (forall j :: 0 <= j < lo ==> IsSpace(t[j]))
    && (forall j :: hi <= j < |t| ==> IsSpace(t[j]))
    && (lo < hi ==> !IsSpace(t[lo]) && !IsSpace(t[hi - 1]))
  }

  /** Python's `t.strip()` with no argument. */
  function Strip(t: string): (r: string)
    ensures exists lo: nat, hi: nat :: StrippedBy(t, lo, hi) && r == t[lo..hi]
  {
    var lo := SkipSpaces(t, 0);
    var hi := SkipSpacesBack(t, |t|);
    if hi <= lo then
      assert StrippedBy(t, 0, 0);
      []
    else
      assert StrippedBy(t, lo, hi);
      t[lo..hi]
  }

  /** `not t.strip()` holds exactly for the blank strings. */
  lemma StripEmptyIffBlank(t: string)
    ensures Strip(t) == [] <==> Blank(t)
  {
    var r := Strip(t);
    var lo: nat, hi: nat :| StrippedBy(t, lo, hi) && r == t[lo..hi];
    if r == [] {
      assert lo == hi;
      forall i | 0 <= i < |t| ensures IsSpace(t[i]) {
        if i >= lo {
          assert i >= hi;
        }
      }
    } else {
      assert t[lo] == r[0];
    }
  }
}
