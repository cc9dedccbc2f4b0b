/** The string operations of Rust's `str` that the fetcher relies on: `find`, `contains`,
    `trim`, `split` and `to_lowercase`. Strings are sequences of Unicode scalar values;
    indices count characters, not UTF-8 bytes. */
module Text {
  import opened Wrappers

  /** `pat` occurs in `s` starting at index `i`. */
  ghost predicate OccursAt(s: string, pat: string, i: int) {
    0 <= i && i + |pat| <= |s| && s[i..i + |pat|] == pat
  }

  /** `i` is the leftmost occurrence of `pat` in `s`. */
  ghost predicate FirstOccurrence(s: string, pat: string, i: int) {
    OccursAt(s, pat, i) && forall k | 0 <= k < i :: !OccursAt(s, pat, k)
  }

  /** There is only one leftmost occurrence. */
  lemma FirstOccurrenceUnique(s: string, pat: string, i: int, j: int)
    requires FirstOccurrence(s, pat, i) && FirstOccurrence(s, pat, j)
    ensures i == j
  {
  }

  /** An occurrence past index 0 is an occurrence in the tail. */
  lemma OccursAtTail(s: string, pat: string)
    requires s != []
    ensures forall k :: OccursAt(s, pat, k) <==> (k == 0 && OccursAt(s, pat, 0)) || (k >= 1 && OccursAt(s[1..], pat, k - 1))
  {
    forall k | k >= 1
      ensures OccursAt(s, pat, k) <==> OccursAt(s[1..], pat, k - 1)
    {
      if k + |pat| <= |s| {
        assert s[1..][k - 1..k - 1 + |pat|] == s[k..k + |pat|];
      }
    }
  }

  /** `str::find`: the index of the leftmost occurrence of `pat` in `s`, if there is one.
      The empty pattern is found at index 0. */
  function Find(s: string, pat: string): (r: Option<nat>)
    ensures r.Some? ==> FirstOccurrence(s, pat, r.value)
    ensures r.None? ==> forall k :: !OccursAt(s, pat, k)
    decreases |s|
  {
    if |s| < |pat| then None
    else if s[..|pat|] == pat then Some(0)
    else
      OccursAtTail(s, pat);
      match Find(s[1..], pat)
      case None => None
      case Some(j) => Some(j + 1)
  }

  /** `str::contains`. */
  predicate Contains(s: string, pat: string)
    ensures Contains(s, pat) <==> exists k :: OccursAt(s, pat, k)
  {
    Find(s, pat).Some?
  }

  /** An occurrence at a known index makes `contains` true. */
  lemma ContainsAt(s: string, pat: string, k: int)
    requires OccursAt(s, pat, k)
    ensures Contains(s, pat)
  {
  }

  lemma OccursInPrefix(s: string, pat: string, n: nat, k: int)
    requires n <= |s| && OccursAt(s[..n], pat, k)
    ensures OccursAt(s, pat, k) && k + |pat| <= n
  {
    assert s[..n][k..k + |pat|] == s[k..k + |pat|];
  }

  lemma OccursInSuffix(s: string, pat: string, n: nat, k: int)
    requires n <= |s| && OccursAt(s[n..], pat, k)
    ensures OccursAt(s, pat, n + k)
  {
    assert s[n..][k..k + |pat|] == s[n + k..n + k + |pat|];
  }

  lemma NothingBeforeFirst(s: string, pat: string, i: nat)
    requires pat != [] && FirstOccurrence(s, pat, i)
    ensures forall k :: !OccursAt(s[..i], pat, k)
  {
    forall k | OccursAt(s[..i], pat, k) ensures false {
      OccursInPrefix(s, pat, i, k);
    }
  }

  /** A pattern holding a character the text lacks does not occur in it. */
  lemma AbsentChar(s: string, pat: string, c: char)
    requires c in pat && c !in s
    ensures !Contains(s, pat)
  {
  }

  /** Rust's `char::is_whitespace`: the Unicode White_Space property. */
  predicate IsWhitespace(c: char) {
    || ('\t' <= c <= '\r')
    || c == ' '
    || c == '\U{85}'
    || c == '\U{A0}'
    || c == '\U{1680}'
    || ('\U{2000}' <= c <= '\U{200A}')
    || c == '\U{2028}'
    || c == '\U{2029}'
    || c == '\U{202F}'
    || c == '\U{205F}'
    || c == '\U{3000}'
  }

  /** Only whitespace. */
  predicate Blank(s: string) {
    forall i | 0 <= i < |s| :: IsWhitespace(s[i])
  }

  /** `str::trim_start`: drops the leading whitespace. */
  function TrimStart(s: string): (r: string)
    ensures |r| <= |s| && r == s[|s| - |r|..]
    ensures Blank(s[..|s| - |r|])
    ensures r == [] || !IsWhitespace(r[0])
  {
    if s != [] && IsWhitespace(s[0]) then
      var t := s[1..];
      var r := TrimStart(t);
      assert t[|t| - |r|..] == s[|s| - |r|..];
      assert s[..|s| - |r|] == [s[0]] + t[..|t| - |r|];
      BlankCons(s[0], t[..|t| - |r|]);
      r
    else s
  }

  /** `str::trim_end`: drops the trailing whitespace. */
  function TrimEnd(s: string): (r: string)
    ensures |r| <= |s| && r == s[..|r|]
    ensures Blank(s[|r|..])
    ensures r == [] || !IsWhitespace(r[|r| - 1])
  {
    if s != [] && IsWhitespace(s[|s| - 1]) then
      var t := s[..|s| - 1];
      var r := TrimEnd(t);
      assert t[..|r|] == s[..|r|];
      assert s[|r|..] == t[|r|..] + [s[|s| - 1]];
      BlankSnoc(t[|r|..], s[|s| - 1]);
      r
    else s
  }

  lemma BlankCons(c: char, t: string)
    requires IsWhitespace(c) && Blank(t)
    ensures Blank([c] + t)
  {
  }

  lemma BlankSnoc(t: string, c: char)
    requires IsWhitespace(c) && Blank(t)
    ensures Blank(t + [c])
  {
  }

  /** `str::trim`: drops whitespace at both ends; what is left neither starts nor ends with
      whitespace. */
  function Trim(s: string): (r: string)
    ensures |r| <= |s|
    ensures r == [] || (!IsWhitespace(r[0]) && !IsWhitespace(r[|r| - 1]))
  {
    var t := TrimStart(s);
    var r := TrimEnd(t);
    assert r != [] ==> r[0] == t[0];
    r
  }

  /** `r` sits in `s` at `a` with only whitespace before and after it. */
  ghost predicate BlankAround(s: string, r: string, a: int) {
    0 <= a <= |s| - |r| && r == s[a..a + |r|] && Blank(s[..a]) && Blank(s[a + |r|..])
  }

  /** The trimmed text is the infix of `s` with only whitespace on either side of it. */
  lemma TrimSlice(s: string)
    ensures exists a :: BlankAround(s, Trim(s), a)
  {
    var t := TrimStart(s);
    var r := TrimEnd(t);
    SliceParts(s, t, r);
    assert Trim(s) == r;
  }

  lemma SliceParts(s: string, t: string, r: string)
    requires |t| <= |s| && t == s[|s| - |t|..] && Blank(s[..|s| - |t|])
    requires |r| <= |t| && r == t[..|r|] && Blank(t[|r|..])
    ensures BlankAround(s, r, |s| - |t|)
  {
    var a := |s| - |t|;
    assert t[|r|..] == s[a + |r|..];
  }

  /** ASCII case folding of one character. */
  function AsciiLower(c: char): char {
    if 'A' <= c <= 'Z' then (c as int + 32) as char else c
  }

  /** `str::to_lowercase`, restricted to ASCII letters. */
  function ToLowercase(s: string): (r: string)
    ensures |r| == |s|
  {
    seq(|s|, i requires 0 <= i < |s| => AsciiLower(s[i]))
  }

  /** Lower-casing leaves no upper-case ASCII letter, moves each one to its lower-case letter
      and keeps every other character. */
  lemma ToLowercaseSpec(s: string)
    ensures var r := ToLowercase(s);
      && (forall i | 0 <= i < |r| :: !('A' <= r[i] <= 'Z'))
      && (forall i | 0 <= i < |s| :: 'A' <= s[i] <= 'Z' ==> r[i] as int == s[i] as int + 32)
      && (forall i | 0 <= i < |s| :: !('A' <= s[i] <= 'Z') ==> r[i] == s[i])
  {
  }

  /** `str::split` with a non-empty separator: the pieces between successive leftmost,
      non-overlapping occurrences of `sep`. No piece contains the separator. */
  function Split(s: string, sep: string): (pieces: seq<string>)
    requires sep != []
    ensures |pieces| >= 1
    ensures forall i | 0 <= i < |pieces| :: !Contains(pieces[i], sep)
    decreases |s|
  {
    match Find(s, sep)
    case None => [s]
    case Some(i) =>
      NothingBeforeFirst(s, sep, i);
      [s[..i]] + Split(s[i + |sep|..], sep)
  }

  /** `slice::join`: the pieces with `sep` between each two of them. */
  function Join(pieces: seq<string>, sep: string): string {
    if |pieces| == 0 then []
    else if |pieces| == 1 then pieces[0]
    else pieces[0] + sep + Join(pieces[1..], sep)
  }

  /** Splitting loses nothing: joining the pieces again gives back the input. */
  lemma {:induction false} JoinSplit(s: string, sep: string)
    requires sep != []
    ensures Join(Split(s, sep), sep) == s
    decreases |s|
  {
    match Find(s, sep)
    case None =>
    case Some(i) =>
      var rest := s[i + |sep|..];
      JoinSplit(rest, sep);
      SplitStep(s, sep, i);
      JoinCons(s[..i], Split(rest, sep), sep);
      Around(s, sep, i);
  }

  /** The first piece is the text before the first separator. */
  lemma SplitStep(s: string, sep: string, i: nat)
    requires sep != [] && Find(s, sep) == Some(i)
    ensures Split(s, sep) == [s[..i]] + Split(s[i + |sep|..], sep)
  {
  }

  /** Joining a piece in front of others puts the separator between them. */
  lemma JoinCons(p: string, tail: seq<string>, sep: string)
    requires tail != []
    ensures Join([p] + tail, sep) == p + sep + Join(tail, sep)
  {
    assert ([p] + tail)[1..] == tail;
  }

  /** A text is the part before an occurrence, the occurrence, and the part after it. */
  lemma Around(s: string, pat: string, i: nat)
    requires OccursAt(s, pat, i)
    ensures s == s[..i] + pat + s[i + |pat|..]
  {
    assert s == s[..i] + s[i..i + |pat|] + s[i + |pat|..];
  }
}
