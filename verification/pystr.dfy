/**
 * The parts of Python's `str` type that the upload handler relies on:
 * `startswith`, substring search, `split(sep)`, `replace(old, new)` and
 * `strip()`, each written as a recursive function over `seq<char>`.
 */
module PyStr {
  import opened Wrappers

  /** `s.startswith(p)`. */
  predicate StartsWith(s: string, p: string) {
    |p| <= |s| && s[..|p|] == p
  }

  /** `sep` occurs in `s` beginning at index `i`. */
  predicate OccursAt(s: string, sep: string, i: int) {
    0 <= i && i + |sep| <= |s| && s[i..i + |sep|] == sep
  }

  /** `sep in s`. */
  ghost predicate Contains(s: string, sep: string) {
    exists i :: OccursAt(s, sep, i)
  }

  /** Stripping the first character moves every occurrence one place left. */
  lemma OccursShift(s: string, sep: string, i: int)
    requires |s| > 0 && i >= 1
    ensures OccursAt(s, sep, i) <==> OccursAt(s[1..], sep, i - 1)
  {
    if i + |sep| <= |s| {
      assert s[1..][i - 1..i - 1 + |sep|] == s[i..i + |sep|];
    }
  }

  /** The lowest index at which `sep` occurs in `s` (`s.find(sep)`, with None for -1). */
  function Find(s: string, sep: string): (r: Option<nat>)
    ensures r.Some? ==> OccursAt(s, sep, r.value) && forall j :: 0 <= j < r.value ==> !OccursAt(s, sep, j)
    ensures r.None? ==> forall j :: !OccursAt(s, sep, j)
    decreases |s|
  {
    if |s| < |sep| then None
    else if s[..|sep|] == sep then Some(0)
    else
      var rest := Find(s[1..], sep);
      ShiftAll(s, sep);
      match rest
      case None => None
      case Some(i) => Some(i + 1)
  }

  /** Every occurrence past the first character is an occurrence in the tail. */
  lemma ShiftAll(s: string, sep: string)
    requires |s| > 0
    ensures forall j :: 1 <= j ==> (OccursAt(s, sep, j) <==> OccursAt(s[1..], sep, j - 1))
  {
    forall j | 1 <= j ensures OccursAt(s, sep, j) <==> OccursAt(s[1..], sep, j - 1) {
      OccursShift(s, sep, j);
    }
  }

  /** `Find` reports nothing exactly when `sep` does not occur. */
  lemma FindNoneIff(s: string, sep: string)
    ensures Find(s, sep).None? <==> !Contains(s, sep)
  {
  }

  /** `sep.join(parts)`. */
  function Join(parts: seq<string>, sep: string): string
    decreases |parts|
  {
    if |parts| == 0 then ""
    else if |parts| == 1 then parts[0]
    else parts[0] + sep + Join(parts[1..], sep)
  }

  /**
   * `s.split(sep)`: the pieces of `s` between the non-overlapping occurrences
   * of `sep`, scanning left to right. Python refuses an empty separator.
   */
  function Split(s: string, sep: string): (parts: seq<string>)
    requires |sep| > 0
    ensures |parts| >= 1
    decreases |s|
  {
    match Find(s, sep)
    case None => [s]
    case Some(i) => [s[..i]] + Split(s[i + |sep|..], sep)
  }

  /** `s.replace(pat, rep)` with a non-empty pattern: every non-overlapping occurrence, left to right. */
  function Replace(s: string, pat: string, rep: string): string
    requires |pat| > 0
    decreases |s|
  {
    match Find(s, pat)
    case None => s
    case Some(i) => s[..i] + rep + Replace(s[i + |pat|..], pat, rep)
  }

  /** Joining a piece in front of at least one more piece puts the separator between them. */
  lemma JoinCons(p: string, rest: seq<string>, sep: string)
    requires |rest| >= 1
    ensures Join([p] + rest, sep) == p + sep + Join(rest, sep)
  {
    assert ([p] + rest)[1..] == rest;
  }

  /** A string is what comes before an occurrence, the occurrence, and what follows it. */
  lemma AroundOccurrence(s: string, sep: string, i: int)
    requires OccursAt(s, sep, i)
    ensures s == s[..i] + sep + s[i + |sep|..]
  {
    assert s == s[..i] + s[i..i + |sep|] + s[i + |sep|..];
  }

  /** Joining the pieces of a split with the separator gives back the original string. */
  lemma {:induction false} SplitJoin(s: string, sep: string)
    requires |sep| > 0
    ensures Join(Split(s, sep), sep) == s
    decreases |s|
  {
    match Find(s, sep)
    case None =>
    case Some(i) =>
      var rest := s[i + |sep|..];
      SplitJoin(rest, sep);
      SplitAt(s, sep, i);
      JoinCons(s[..i], Split(rest, sep), sep);
      AroundOccurrence(s, sep, i);
  }

  /** A string that does not contain `sep` has no slice that contains it. */
  lemma SliceAvoids(s: string, sep: string, lo: int, hi: int)
    requires 0 <= lo <= hi <= |s|
    requires !Contains(s, sep)
    ensures !Contains(s[lo..hi], sep)
  {
    var t := s[lo..hi];
    forall j | OccursAt(t, sep, j) ensures OccursAt(s, sep, lo + j) {
      var u, v := t[j..j + |sep|], s[lo + j..lo + j + |sep|];
      assert forall m :: 0 <= m < |u| ==> u[m] == v[m];
      assert u == v;
    }
  }

  /** No piece of a split contains the separator. */
  lemma {:induction false} SplitPiecesAvoid(s: string, sep: string)
    requires |sep| > 0
    ensures forall k :: 0 <= k < |Split(s, sep)| ==> !Contains(Split(s, sep)[k], sep)
    decreases |s|
  {
    match Find(s, sep)
    case None =>
    case Some(i) =>
      var rest := s[i + |sep|..];
      SplitPiecesAvoid(rest, sep);
      assert !Contains(s[..i], sep) by {
        forall j | OccursAt(s[..i], sep, j) ensures OccursAt(s, sep, j) && j < i {
          PrefixOccurs(s, sep, i, j);
        }
      }
  }

  /** An occurrence in a prefix is an occurrence in the whole string. */
  lemma PrefixOccurs(s: string, sep: string, n: int, j: int)
    requires 0 <= n <= |s| && OccursAt(s[..n], sep, j)
    ensures OccursAt(s, sep, j) && j + |sep| <= n
  {
    var u, v := s[..n][j..j + |sep|], s[j..j + |sep|];
    assert forall m :: 0 <= m < |u| ==> u[m] == v[m];
    assert u == v;
  }

  /** A split has more than one piece exactly when the separator occurs. */
  lemma SplitMany(s: string, sep: string)
    requires |sep| > 0
    ensures |Split(s, sep)| > 1 <==> Contains(s, sep)
  {
  }

  /** The first occurrence of `sep` is the one `Find` reports. */
  lemma FindFirst(s: string, sep: string, i: int)
    requires OccursAt(s, sep, i) && forall j :: 0 <= j < i ==> !OccursAt(s, sep, j)
    ensures Find(s, sep) == Some(i)
  {
    var f := Find(s, sep);
    assert f.Some?;
    assert !(f.value < i) && !(i < f.value);
  }

  /** Occurrences in a suffix are the occurrences in the whole string, shifted. */
  lemma SuffixOccurs(s: string, sep: string, m: int, j: int)
    requires 0 <= m <= |s| && 0 <= j
    ensures OccursAt(s[m..], sep, j) <==> OccursAt(s, sep, m + j)
  {
    if m + j + |sep| <= |s| {
      assert s[m..][j..j + |sep|] == s[m + j..m + j + |sep|];
    }
  }

  /** Splitting at the first occurrence `i`: the first piece, then the split of the rest. */
  lemma SplitAt(s: string, sep: string, i: int)
    requires |sep| > 0
    requires OccursAt(s, sep, i) && forall j :: 0 <= j < i ==> !OccursAt(s, sep, j)
    ensures Split(s, sep) == [s[..i]] + Split(s[i + |sep|..], sep)
  {
    FindFirst(s, sep, i);
  }

  /** Without an occurrence, a split is the whole string. */
  lemma SplitAbsent(s: string, sep: string)
    requires |sep| > 0
    requires forall j :: 0 <= j ==> !OccursAt(s, sep, j)
    ensures Split(s, sep) == [s]
  {
    assert !Contains(s, sep);
  }

  /** The first piece of a split ends at the first occurrence, or at the end of the string. */
  lemma FirstPiece(s: string, sep: string, n: int)
    requires |sep| > 0 && 0 <= n <= |s|
    requires n == |s| || OccursAt(s, sep, n)
    requires forall j :: 0 <= j < n ==> !OccursAt(s, sep, j)
    ensures Split(s, sep)[0] == s[..n]
  {
    if n < |s| {
      SplitAt(s, sep, n);
    } else {
      assert forall j :: 0 <= j ==> !OccursAt(s, sep, j);
      SplitAbsent(s, sep);
    }
  }

  /**
   * When the first occurrence of `sep` is at `i` and the next one at or after
   * `i + |sep|` is at `k` (or there is none and `k` is the end), the first
   * piece is `s[..i]` and the second is what lies strictly between them.
   */
  lemma FirstTwoPieces(s: string, sep: string, i: int, k: int)
    requires |sep| > 0
    requires OccursAt(s, sep, i) && forall j :: 0 <= j < i ==> !OccursAt(s, sep, j)
    requires i + |sep| <= k <= |s|
    requires k == |s| || OccursAt(s, sep, k)
    requires forall j :: i + |sep| <= j < k ==> !OccursAt(s, sep, j)
    ensures |Split(s, sep)| >= 2
    ensures Split(s, sep)[0] == s[..i]
    ensures Split(s, sep)[1] == s[i + |sep|..k]
  {
    var m := i + |sep|;
    var rest := s[m..];
    SplitAt(s, sep, i);
    var tail := Split(rest, sep);
    assert Split(s, sep)[1] == tail[0];
    NextOccurrence(s, sep, m, k);
    FirstPiece(rest, sep, k - m);
    assert rest[..k - m] == s[m..k];
  }

  /** Occurrences from `m` on, seen from the suffix that starts at `m`. */
  lemma NextOccurrence(s: string, sep: string, m: int, k: int)
    requires 0 <= m <= k <= |s|
    requires k == |s| || OccursAt(s, sep, k)
    requires forall j :: m <= j < k ==> !OccursAt(s, sep, j)
    ensures k - m == |s[m..]| || OccursAt(s[m..], sep, k - m)
    ensures forall j :: 0 <= j < k - m ==> !OccursAt(s[m..], sep, j)
  {
    forall j | 0 <= j < k - m ensures !OccursAt(s[m..], sep, j) {
      SuffixOccurs(s, sep, m, j);
    }
    if k < |s| {
      SuffixOccurs(s, sep, m, k - m);
    }
  }

  /** Replacing every occurrence is the same as splitting on it and joining with the replacement. */
  lemma {:induction false} ReplaceIsSplitJoin(s: string, pat: string, rep: string)
    requires |pat| > 0
    ensures Replace(s, pat, rep) == Join(Split(s, pat), rep)
    decreases |s|
  {
    match Find(s, pat)
    case None =>
    case Some(i) =>
      var rest := s[i + |pat|..];
      ReplaceIsSplitJoin(rest, pat, rep);
      SplitAt(s, pat, i);
      JoinCons(s[..i], Split(rest, pat), rep);
  }

  /** A pattern that does not occur leaves the string unchanged. */
  lemma ReplaceAbsent(s: string, pat: string, rep: string)
    requires |pat| > 0 && !Contains(s, pat)
    ensures Replace(s, pat, rep) == s
  {
  }

  /**
   * The characters Python's `str.isspace` accepts: the ASCII controls
   * U+0009..U+000D and U+001C..U+001F, the space, U+0085, U+00A0, U+1680,
   * U+2000..U+200A, U+2028, U+2029, U+202F, U+205F and U+3000.
   */
  predicate IsSpace(c: char) {
    || c == ' '
    || ('\t' <= c <= '\r')
    || ('\U{1C}' <= c <= '\U{1F}')
    || c == '\U{85}' || c == '\U{A0}' || c == '\U{1680}'
    || ('\U{2000}' <= c <= '\U{200A}')
    || c == '\U{2028}' || c == '\U{2029}' || c == '\U{202F}' || c == '\U{205F}'
    || c == '\U{3000}'
  }

  /** Every character of `s` from index `lo` up to `hi` is white space. */
  predicate SpaceBetween(s: string, lo: int, hi: int)
    requires 0 <= lo && hi <= |s|
  {
    forall k :: lo <= k < hi ==> IsSpace(s[k])
  }

  /** Neither the first nor the last character of `s` is white space. */
  predicate Trimmed(s: string) {
    s == [] || (!IsSpace(s[0]) && !IsSpace(s[|s| - 1]))
  }

  /** `s.lstrip()`: the longest suffix of `s` that does not begin with white space. */
  function TrimStart(s: string): (r: string)
    ensures |r| <= |s| && r == s[|s| - |r|..]
    ensures SpaceBetween(s, 0, |s| - |r|)
    ensures r != [] ==> !IsSpace(r[0])
    decreases |s|
  {
    if s != [] && IsSpace(s[0]) then TrimStart(s[1..]) else s
  }

  /** `s.rstrip()`: the longest prefix of `s` that does not end with white space. */
  function TrimEnd(s: string): (r: string)
    ensures |r| <= |s| && r == s[..|r|]
    ensures SpaceBetween(s, |r|, |s|)
    ensures r != [] ==> !IsSpace(r[|r| - 1])
    decreases |s|
  {
    if s != [] && IsSpace(s[|s| - 1]) then TrimEnd(s[..|s| - 1]) else s
  }

  /** `s.strip()`: white space removed from both ends. */
  function Strip(s: string): (r: string)
    ensures Trimmed(r)
  {
    TrimEnd(TrimStart(s))
  }

  /** Leading white space up to the first other character is what `TrimStart` removes. */
  lemma {:induction false} TrimStartAt(s: string, lo: int)
    requires 0 <= lo <= |s| && SpaceBetween(s, 0, lo)
    requires lo < |s| ==> !IsSpace(s[lo])
    ensures TrimStart(s) == s[lo..]
    decreases lo
  {
    if lo > 0 {
      var u := s[1..];
      assert forall k :: 0 <= k < lo - 1 ==> u[k] == s[k + 1];
      TrimStartAt(u, lo - 1);
      assert u[lo - 1..] == s[lo..];
    }
  }

  /** Trailing white space after the last other character is what `TrimEnd` removes. */
  lemma {:induction false} TrimEndAt(s: string, hi: int)
    requires 0 <= hi <= |s| && SpaceBetween(s, hi, |s|)
    requires hi > 0 ==> !IsSpace(s[hi - 1])
    ensures TrimEnd(s) == s[..hi]
    decreases |s| - hi
  {
    if hi < |s| {
      var u := s[..|s| - 1];
      assert forall k :: hi <= k < |s| - 1 ==> u[k] == s[k];
      TrimEndAt(u, hi);
      assert u[..hi] == s[..hi];
    }
  }

  /**
   * `Strip(s)` is the one slice `s[lo..hi]` that has only white space outside
   * it and does not begin or end with white space.
   */
  lemma StripUnique(s: string, lo: int, hi: int)
    requires 0 <= lo <= hi <= |s|
    requires SpaceBetween(s, 0, lo) && SpaceBetween(s, hi, |s|)
    requires lo < hi ==> !IsSpace(s[lo]) && !IsSpace(s[hi - 1])
    ensures Strip(s) == s[lo..hi]
  {
    if lo < hi {
      StripCore(s, lo, hi);
    } else {
      assert SpaceBetween(s, 0, |s|);
      TrimStartAt(s, |s|);
    }
  }

  /** The non-empty case of `StripUnique`. */
  lemma StripCore(s: string, lo: int, hi: int)
    requires 0 <= lo < hi <= |s|
    requires SpaceBetween(s, 0, lo) && SpaceBetween(s, hi, |s|)
    requires !IsSpace(s[lo]) && !IsSpace(s[hi - 1])
    ensures Strip(s) == s[lo..hi]
  {
    TrimStartAt(s, lo);
    TrimEndOfSuffix(s, lo, hi);
  }

  /** `TrimEnd` on the suffix that starts at `lo` stops after the last other character. */
  lemma TrimEndOfSuffix(s: string, lo: int, hi: int)
    requires 0 <= lo < hi <= |s|
    requires SpaceBetween(s, hi, |s|) && !IsSpace(s[hi - 1])
    ensures TrimEnd(s[lo..]) == s[lo..hi]
  {
    var t := s[lo..];
    assert forall k :: hi - lo <= k < |t| ==> t[k] == s[lo + k];
    assert t[hi - lo - 1] == s[hi - 1];
    TrimEndAt(t, hi - lo);
    assert t[..hi - lo] == s[lo..hi];
  }

  /** Stripping twice is stripping once. */
  lemma StripIdempotent(s: string)
    ensures Strip(Strip(s)) == Strip(s)
  {
    var r := Strip(s);
    assert r[0..|r|] == r;
    StripUnique(r, 0, |r|);
  }

  /** Stripping never creates an occurrence: it only cuts characters off the ends. */
  lemma StripAvoids(s: string, sep: string)
    requires !Contains(s, sep)
    ensures !Contains(Strip(s), sep)
  {
    var t := TrimStart(s);
    SliceAvoids(s, sep, |s| - |t|, |s|);
    assert s[|s| - |t|..|s|] == t;
    SliceAvoids(t, sep, 0, |TrimEnd(t)|);
  }
}
