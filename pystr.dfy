/**
  The Python `str` operations the debugger relies on, over `string`:
  `m in s`, `s.find(m, start)`, `s.split(sep)`, `sep.join(pieces)` and
  `s.strip()`.
 */
module PyStr {
  import opened Wrappers

  /** `m` occurs in `s` starting at index `k`. */
  predicate StartsAt(s: string, m: string, k: int) {
    0 <= k && k + |m| <= |s| && s[k..k + |m|] == m
  }

  /** Python's `m in s`. */
  predicate Contains(s: string, m: string): (found: bool)
    ensures found ==> |m| <= |s|
    ensures m == [] ==> found
  {
    assert m == [] ==> StartsAt(s, m, 0);
    exists k | 0 <= k <= |s| - |m| :: StartsAt(s, m, k)
  }

  /** `k` is the first index at or after `from` where `m` occurs in `s`. */
  ghost predicate FirstFrom(s: string, m: string, from: int, k: int) {
    from <= k && StartsAt(s, m, k) && forall j :: from <= j < k ==> !StartsAt(s, m, j)
  }

  /** Python's `s.find(m, from)`, with `None` for -1. */
  function FindFrom(s: string, m: string, from: nat): (r: Option<nat>)
    requires from <= |s|
    decreases |s| - from
    ensures r.Some? ==> from <= r.value && r.value + |m| <= |s|
  {
    if from + |m| > |s| then None
    else if s[from..from + |m|] == m then Some(from)
    else FindFrom(s, m, from + 1)
  }

  /** `find` reports the first occurrence at or after `from`, and `-1` only when there is none. */
  lemma {:induction false} FindFromSpec(s: string, m: string, from: nat)
    requires from <= |s|
    decreases |s| - from
    ensures FindFrom(s, m, from).Some? ==> FirstFrom(s, m, from, FindFrom(s, m, from).value)
    ensures FindFrom(s, m, from).None? ==> forall k :: from <= k ==> !StartsAt(s, m, k)
  {
    if from + |m| > |s| {
    } else if s[from..from + |m|] == m {
      assert StartsAt(s, m, from);
    } else {
      FindFromSpec(s, m, from + 1);
      assert !StartsAt(s, m, from);
    }
  }

  /** `m in s` holds exactly when `s.find(m)` finds it. */
  lemma ContainsFound(s: string, m: string)
    ensures Contains(s, m) <==> FindFrom(s, m, 0).Some?
  {
    FindFromSpec(s, m, 0);
    if FindFrom(s, m, 0).Some? {
      assert StartsAt(s, m, FindFrom(s, m, 0).value);
    }
  }

  /** The first occurrence is unique: whatever index is first, `FindFrom` reports it. */
  lemma FindFromFirst(s: string, m: string, from: nat, k: int)
    requires from <= |s| && FirstFrom(s, m, from, k)
    ensures FindFrom(s, m, from) == Some(k)
  {
    FindFromSpec(s, m, from);
  }

  /** Python's `sep.join(pieces)`. */
  function Join(pieces: seq<string>, sep: string): string
    requires |pieces| >= 1
  {
    if |pieces| == 1 then pieces[0] else pieces[0] + sep + Join(pieces[1..], sep)
  }

  /** An occurrence in the slice `s[lo..hi]` is one in `s` that ends by `hi`, shifted by `lo`. */
  lemma StartsAtSlice(s: string, u: string, lo: int, hi: int, k: int)
    requires 0 <= lo <= hi <= |s| && 0 <= k
    ensures StartsAt(s[lo..hi], u, k) <==> StartsAt(s, u, lo + k) && lo + k + |u| <= hi
  {
    var w := s[lo..hi];
    if k + |u| <= |w| {
      assert forall q | 0 <= q < |w| :: w[q] == s[lo + q];
      assert w[k..k + |u|] == s[lo + k..lo + k + |u|];
    }
  }

  /**
    Python's `s.split(sep)` for a non-empty separator: the pieces between
    successive non-overlapping occurrences of `sep`, scanning left to right.
   */
  function Split(s: string, sep: string): (pieces: seq<string>)
    requires sep != ""
    decreases |s|
    ensures |pieces| >= 1
  {
    match FindFrom(s, sep, 0)
    case None => [s]
    case Some(i) => [s[..i]] + Split(s[i + |sep|..], sep)
  }

  /** `s.split(sep)` has a second piece exactly when `sep` occurs in `s`. */
  lemma SplitCount(s: string, sep: string)
    requires sep != ""
    ensures Contains(s, sep) <==> |Split(s, sep)| >= 2
  {
    FindFromSpec(s, sep, 0);
    match FindFrom(s, sep, 0)
    case None =>
    case Some(i) =>
      SplitFound(s, sep, i);
      assert StartsAt(s, sep, i);
  }

  /** Unfolds the split at the first occurrence `i` that `find` reports. */
  lemma SplitFound(s: string, sep: string, i: nat)
    requires sep != "" && FindFrom(s, sep, 0) == Some(i)
    ensures i + |sep| <= |s| && Split(s, sep) == [s[..i]] + Split(s[i + |sep|..], sep)
  {
  }

  /** Joining the pieces with the separator gives back the text: `sep.join(s.split(sep)) == s`. */
  lemma {:induction false} JoinSplit(s: string, sep: string)
    requires sep != ""
    decreases |s|
    ensures Join(Split(s, sep), sep) == s
  {
    FindFromSpec(s, sep, 0);
    match FindFrom(s, sep, 0)
    case None =>
    case Some(i) =>
      var rest := s[i + |sep|..];
      JoinSplit(rest, sep);
      SplitFound(s, sep, i);
      var pieces := Split(s, sep);
      assert |pieces| >= 2 && pieces[0] == s[..i] && pieces[1..] == Split(rest, sep);
      assert Join(pieces, sep) == s[..i] + sep + rest;
      assert s[i..i + |sep|] == sep;
      assert s == s[..i] + sep + rest;
  }

  /** The text before the first occurrence of `sep` does not contain it. */
  lemma BeforeFirstFree(s: string, sep: string, i: int)
    requires sep != "" && FirstFrom(s, sep, 0, i)
    ensures !Contains(s[..i], sep)
  {
    forall k | 0 <= k <= i - |sep|
      ensures !StartsAt(s[..i], sep, k)
    {
      StartsAtSlice(s, sep, 0, i, k);
    }
  }

  /** No piece of a split contains the separator. */
  lemma {:induction false} SplitPiecesFree(s: string, sep: string)
    requires sep != ""
    decreases |s|
    ensures forall j :: 0 <= j < |Split(s, sep)| ==> !Contains(Split(s, sep)[j], sep)
  {
    FindFromSpec(s, sep, 0);
    match FindFrom(s, sep, 0)
    case None =>
    case Some(i) =>
      var rest := s[i + |sep|..];
      SplitPiecesFree(rest, sep);
      BeforeFirstFree(s, sep, i);
      SplitFound(s, sep, i);
      var pieces := Split(s, sep);
      forall j | 0 <= j < |pieces|
        ensures !Contains(pieces[j], sep)
      {
        if j > 0 {
          assert pieces[j] == Split(rest, sep)[j - 1];
        }
      }
  }

  /** The first piece of a split ends at the first occurrence of `sep`, or at the end. */
  lemma SplitHeadAt(s: string, sep: string, j: int)
    requires sep != "" && 0 <= j <= |s|
    requires forall k :: 0 <= k < j ==> !StartsAt(s, sep, k)
    requires j == |s| || StartsAt(s, sep, j)
    ensures Split(s, sep)[0] == s[..j]
  {
    FindFromSpec(s, sep, 0);
    match FindFrom(s, sep, 0)
    case None =>
      assert j == |s|;
    case Some(i) =>
      assert i == j;
      SplitFound(s, sep, i);
  }

  /**
    With an occurrence of `sep` first at `i`, the second piece of the split
    is the first piece of the split of what follows that occurrence.
   */
  lemma SplitSecond(s: string, sep: string, i: int)
    requires sep != "" && FirstFrom(s, sep, 0, i)
    ensures |Split(s, sep)| >= 2
    ensures Split(s, sep)[1] == Split(s[i + |sep|..], sep)[0]
  {
    FindFromFirst(s, sep, 0, i);
    SplitFound(s, sep, i);
  }

  lemma PrefixOfSlice(s: string, a: int, e: int, j: int)
    requires 0 <= a <= e <= |s| && 0 <= j <= e - a
    ensures s[a..e][..j] == s[a..a + j]
  {
    var r := s[a..e];
    assert forall q | 0 <= q < |r| :: r[q] == s[a + q];
    assert forall q | 0 <= q < j :: r[..j][q] == s[a..a + j][q];
  }

  /** Shifting a stretch free of `m` into the slice `s[a..e]`. */
  lemma SliceFreeBefore(s: string, m: string, a: int, e: int, b: int)
    requires 0 <= a <= b <= e <= |s|
    requires forall k :: a <= k < b ==> !StartsAt(s, m, k)
    ensures forall k :: 0 <= k < b - a ==> !StartsAt(s[a..e], m, k)
  {
    forall k | 0 <= k < b - a
      ensures !StartsAt(s[a..e], m, k)
    {
      StartsAtSlice(s, m, a, e, k);
      assert !StartsAt(s, m, a + k);
    }
  }

  /** The first piece of the split of `s[a..e]` runs up to the first occurrence of `m` inside it. */
  lemma SplitSliceHead(s: string, m: string, a: int, e: int, b: int)
    requires m != "" && 0 <= a <= b <= e <= |s|
    requires forall k :: a <= k < b ==> !StartsAt(s, m, k)
    requires b == e || (StartsAt(s, m, b) && b + |m| <= e)
    ensures Split(s[a..e], m)[0] == s[a..b]
  {
    var r := s[a..e];
    var j := b - a;
    SliceFreeBefore(s, m, a, e, b);
    assert |r| == e - a;
    if b < e {
      StartsAtSlice(s, m, a, e, j);
      assert StartsAt(r, m, j);
    }
    SplitHeadAt(r, m, j);
    PrefixOfSlice(s, a, e, j);
  }

  /**
    `s.split(m)[1]` is the text between the first occurrence of `m` (at `i`)
    and the next one (at `b`), or the end of `s` when there is no second one.
   */
  lemma SplitSecondAt(s: string, m: string, i: int, b: int)
    requires m != "" && FirstFrom(s, m, 0, i) && i + |m| <= b <= |s|
    requires forall k :: i + |m| <= k < b ==> !StartsAt(s, m, k)
    requires b == |s| || StartsAt(s, m, b)
    ensures |Split(s, m)| >= 2 && Split(s, m)[1] == s[i + |m|..b]
  {
    SplitSecond(s, m, i);
    assert s[i + |m|..] == s[i + |m|..|s|];
    SplitSliceHead(s, m, i + |m|, |s|, b);
  }

  /** No occurrence of `m` overlaps the front of a later occurrence of itself. */
  predicate SelfSeparating(m: string) {
    m != "" && m[0] !in m[1..]
  }

  /**
    An occurrence of `v` keeps `u` from being found across it: `u` cannot
    start inside `v`, at the same place as `v`, or run into `v`.
   */
  predicate Separates(v: string, u: string) {
    var n := if |u| < |v| then |u| else |v|;
    v != "" && u != "" && v[0] !in u[1..] && u[0] !in v[1..] && u[..n] != v[..n]
  }

  /** An occurrence of `u` at `k` cannot run past index `p` when `s[p]` is not among `u[1..]`. */
  lemma StopsBefore(s: string, u: string, k: int, p: int)
    requires u != "" && 0 <= k < p < |s| && s[p] !in u[1..]
    ensures k + |u| <= p || !StartsAt(s, u, k)
  {
    if p < k + |u| <= |s| {
      assert s[k..k + |u|][p - k] == s[p];
      assert u[1..][p - k - 1] == u[p - k];
    }
  }

  /**
    Inside a stretch `s[a..b]` free of `u`, `u` cannot start, unless it could
    run on past `b`: the character at `b` must not be among `u[1..]`.
   */
  lemma NoStartInFreeStretch(s: string, u: string, a: int, b: int, k: int)
    requires u != "" && 0 <= a <= k < b <= |s| && !Contains(s[a..b], u)
    requires b == |s| || s[b] !in u[1..]
    ensures !StartsAt(s, u, k)
  {
    StartsAtSlice(s, u, a, b, k - a);
    if b < |s| {
      StopsBefore(s, u, k, b);
    }
  }

  /** `m` occurs after a text without it; its first occurrence is where it was placed. */
  lemma FirstAfterFree(x: string, m: string, y: string)
    requires SelfSeparating(m) && !Contains(x, m)
    ensures FirstFrom(x + m + y, m, 0, |x|)
  {
    var s := x + m + y;
    assert s[|x|..|x| + |m|] == m;
    forall k | 0 <= k < |x|
      ensures !StartsAt(s, m, k)
    {
      if k + |m| <= |x| {
        assert s[k..k + |m|] == x[k..k + |m|];
        assert !StartsAt(x, m, k);
      } else {
        assert s[|x|] == m[0];
        StopsBefore(s, m, k, |x|);
      }
    }
  }

  /** A text free of `u` on each side of a separating `v` stays free of `u`. */
  lemma ConcatFree(x: string, v: string, y: string, u: string)
    requires Separates(v, u) && !Contains(x, u) && !Contains(y, u)
    ensures !Contains(x + v + y, u)
  {
    var s := x + v + y;
    var n := if |u| < |v| then |u| else |v|;
    forall k | 0 <= k <= |s| - |u|
      ensures !StartsAt(s, u, k)
    {
      if k + |u| <= |x| {
        assert s[k..k + |u|] == x[k..k + |u|];
        assert !StartsAt(x, u, k);
      } else if k < |x| {
        assert s[|x|] == v[0];
        StopsBefore(s, u, k, |x|);
      } else if k == |x| {
        assert s[k..k + n] == v[..n];
        assert u[..n] == u[..|u|][..n];
      } else if k < |x| + |v| {
        assert s[k] == v[k - |x|];
        assert v[1..][k - |x| - 1] == v[k - |x|];
      } else {
        assert s[k..k + |u|] == y[k - |x| - |v|..k - |x| - |v| + |u|];
        assert !StartsAt(y, u, k - |x| - |v|);
      }
    }
  }

  /** A text free of `u` stays free of it behind a prefix that lacks `u`'s first character. */
  lemma PrefixFree(x: string, y: string, u: string)
    requires u != "" && u[0] !in x && !Contains(y, u)
    ensures !Contains(x + y, u)
  {
    var s := x + y;
    forall k | 0 <= k <= |s| - |u|
      ensures !StartsAt(s, u, k)
    {
      if k < |x| {
        assert s[k] == x[k];
      } else {
        assert s[k..k + |u|] == y[k - |x|..k - |x| + |u|];
        assert !StartsAt(y, u, k - |x|);
      }
    }
  }

  /** A text lacking the first character of `u` does not contain `u`. */
  lemma MissingFirstChar(s: string, u: string)
    requires u != "" && u[0] !in s
    ensures !Contains(s, u)
  {
    PrefixFree(s, "", u);
    assert s + "" == s;
  }

  /** Python's `str.isspace` for one character: the characters `strip()` removes. */
  predicate IsSpace(c: char) {
    var n := c as int;
    (0x09 <= n <= 0x0D) || (0x1C <= n <= 0x20) || n == 0x85 || n == 0xA0 || n == 0x1680
    || (0x2000 <= n <= 0x200A) || n == 0x2028 || n == 0x2029 || n == 0x202F
    || n == 0x205F || n == 0x3000
  }

  predicate AllSpace(s: string) {
    forall k | 0 <= k < |s| :: IsSpace(s[k])
  }

  /** Neither end of `s` is whitespace. */
  predicate Trimmed(s: string) {
    s == [] || (!IsSpace(s[0]) && !IsSpace(s[|s| - 1]))
  }

  /** `s[i..j]` is what is left once leading and trailing whitespace is removed. */
  ghost predicate StrippedAt(s: string, i: int, j: int) {
    0 <= i <= j <= |s| && AllSpace(s[..i]) && AllSpace(s[j..]) && Trimmed(s[i..j])
  }

  /** The first index at or after `k` that is not whitespace, or the end. */
  function SkipSpace(s: string, k: nat): (i: nat)
    requires k <= |s|
    decreases |s| - k
    ensures k <= i <= |s| && (i < |s| ==> !IsSpace(s[i]))
    ensures forall m :: k <= m < i ==> IsSpace(s[m])
  {
    if k == |s| || !IsSpace(s[k]) then k else SkipSpace(s, k + 1)
  }

  /** The end of `s[lo..j]` once its trailing whitespace is dropped. */
  function SkipSpaceBack(s: string, lo: nat, j: nat): (e: nat)
    requires lo <= j <= |s|
    decreases j - lo
    ensures lo <= e <= j && (lo < e ==> !IsSpace(s[e - 1]))
    ensures forall m :: e <= m < j ==> IsSpace(s[m])
  {
    if j == lo || !IsSpace(s[j - 1]) then j else SkipSpaceBack(s, lo, j - 1)
  }

  /** Python's `s.strip()`: leading and trailing whitespace removed. */
  function Strip(s: string): (r: string)
    ensures Trimmed(r)
    ensures exists i, j :: StrippedAt(s, i, j) && r == s[i..j]
  {
    var i := SkipSpace(s, 0);
    var j := SkipSpaceBack(s, i, |s|);
    assert StrippedAt(s, i, j);
    s[i..j]
  }

  /** Any way of cutting whitespace-only ends off `s` that leaves trimmed text gives `Strip(s)`. */
  lemma StripUnique(s: string, i: int, j: int)
    requires StrippedAt(s, i, j)
    ensures Strip(s) == s[i..j]
  {
    var r := Strip(s);
    var i2, j2 :| StrippedAt(s, i2, j2) && r == s[i2..j2];
  }

  /** Stripping twice is stripping once. */
  lemma StripIdempotent(s: string)
    ensures Strip(Strip(s)) == Strip(s)
  {
    var r := Strip(s);
    assert r[..0] == [] && r[|r|..] == [] && r[0..|r|] == r;
    StripUnique(r, 0, |r|);
  }

  /** Whitespace around trimmed text is exactly what `strip()` removes. */
  lemma StripFramed(w1: string, x: string, w2: string)
    requires AllSpace(w1) && AllSpace(w2) && Trimmed(x)
    ensures Strip(w1 + x + w2) == x
  {
    var s := w1 + x + w2;
    assert s[..|w1|] == w1 && s[|w1| + |x|..] == w2 && s[|w1|..|w1| + |x|] == x;
    StripUnique(s, |w1|, |w1| + |x|);
  }
}
