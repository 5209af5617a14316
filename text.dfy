/** The JavaScript string operations the search code relies on: `indexOf`,
    `includes`, `slice` and `trim`, over strings as sequences of Unicode scalar
    values: positions and lengths count code points, not UTF-16 code units. */
module Text {

  /** `q` occurs in `s` starting at position `k`. */
  predicate MatchesAt(s: string, q: string, k: int)
  {
    0 <= k && k + |q| <= |s| && s[k..k + |q|] == q
  }

  /** The first occurrence of `q` in `s` at or after `k`, or -1. */
  function SearchFrom(s: string, q: string, k: nat): (r: int)
    requires k <= |s|
    ensures r == -1 || (k <= r && r + |q| <= |s|)
    decreases |s| - k
  {
    if k + |q| > |s| then -1
    else if s[k..k + |q|] == q then k
    else SearchFrom(s, q, k + 1)
  }

  lemma {:induction false} SearchFromSpec(s: string, q: string, k: nat)
    requires k <= |s|
    ensures SearchFrom(s, q, k) == -1 || MatchesAt(s, q, SearchFrom(s, q, k))
    ensures forall j :: k <= j < SearchFrom(s, q, k) ==> !MatchesAt(s, q, j)
    ensures SearchFrom(s, q, k) == -1 ==> forall j :: k <= j ==> !MatchesAt(s, q, j)
    decreases |s| - k
  {
    if k + |q| <= |s| && s[k..k + |q|] != q {
      SearchFromSpec(s, q, k + 1);
    }
  }

  /** `s.indexOf(q, from)`: the start position is clamped into [0, |s|] first,
      so an empty `q` is found at `|s|` when `from` lies past the end. */
  function IndexOf(s: string, q: string, from: int): (r: int)
    ensures r == -1 || (0 <= r && r + |q| <= |s| && (from <= r || (from > |s| && r == |s|)))
  {
    var start := if from < 0 then 0 else if from > |s| then |s| else from;
    SearchFrom(s, q, start)
  }

  /** `indexOf` finds the first occurrence at or after `from`, and -1 means
      there is none. */
  lemma IndexOfSpec(s: string, q: string, from: int)
    ensures IndexOf(s, q, from) == -1 || MatchesAt(s, q, IndexOf(s, q, from))
    ensures forall j :: from <= j < IndexOf(s, q, from) ==> !MatchesAt(s, q, j)
    ensures IndexOf(s, q, from) == -1 ==> forall j :: from <= j ==> !MatchesAt(s, q, j)
  {
    var start := if from < 0 then 0 else if from > |s| then |s| else from;
    SearchFromSpec(s, q, start);
    if from > |s| {
      assert forall j :: from <= j ==> !MatchesAt(s, q, j);
    }
  }

  /** `q` occurs in `s` at some position at or after `k`. */
  function ContainsFrom(s: string, q: string, k: nat): bool
    decreases |s| - k
  {
    if k + |q| > |s| then false
    else s[k..k + |q|] == q || ContainsFrom(s, q, k + 1)
  }

  /** `s.includes(q)`. */
  function Contains(s: string, q: string): bool
  {
    ContainsFrom(s, q, 0)
  }

  /** `includes("")` always holds, and a query longer than the string is never found. */
  lemma ContainsEdgeCases(s: string, q: string)
    ensures Contains(s, "")
    ensures |q| > |s| ==> !Contains(s, q)
  {
  }

  lemma {:induction false} ContainsFromIff(s: string, q: string, k: nat)
    ensures ContainsFrom(s, q, k) <==> exists j :: k <= j && MatchesAt(s, q, j)
    decreases |s| - k
  {
    if k + |q| <= |s| {
      ContainsFromIff(s, q, k + 1);
      if ContainsFrom(s, q, k + 1) {
        var j :| k + 1 <= j && MatchesAt(s, q, j);
        assert k <= j && MatchesAt(s, q, j);
      }
      if s[k..k + |q|] == q {
        assert MatchesAt(s, q, k);
      }
      if exists j :: k <= j && MatchesAt(s, q, j) {
        var j :| k <= j && MatchesAt(s, q, j);
        if j == k {
          assert s[k..k + |q|] == q;
        } else {
          assert k + 1 <= j && MatchesAt(s, q, j);
        }
      }
    }
  }

  /** `includes` holds exactly when `q` occurs somewhere in `s`, which is
      exactly when `indexOf` finds it. */
  lemma ContainsIff(s: string, q: string)
    ensures Contains(s, q) <==> exists k :: MatchesAt(s, q, k)
    ensures Contains(s, q) <==> IndexOf(s, q, 0) != -1
  {
    ContainsFromIff(s, q, 0);
    IndexOfSpec(s, q, 0);
    assert forall k :: MatchesAt(s, q, k) ==> 0 <= k;
  }

  /** A position argument of `slice`: negative counts from the end, then clamped into [0, |s|]. */
  function SliceBound(s: string, a: int): (r: nat)
    ensures r <= |s|
    ensures 0 <= a <= |s| ==> r == a
  {
    if a < 0 then (if |s| + a < 0 then 0 else |s| + a)
    else if a > |s| then |s| else a
  }

  /** `s.slice(a, b)`. */
  function Slice(s: string, a: int, b: int): (r: string)
    ensures |r| <= |s|
  {
    var lo, hi := SliceBound(s, a), SliceBound(s, b);
    if lo < hi then s[lo..hi] else ""
  }

  /** `slice` with in-range bounds is the substring between them, an end past
      the string stops at its end, and an end at or before the start gives "". */
  lemma SliceSpec(s: string, a: int, b: int)
    ensures 0 <= a <= b <= |s| ==> Slice(s, a, b) == s[a..b]
    ensures 0 <= a <= |s| <= b ==> Slice(s, a, b) == s[a..]
    ensures b <= a && 0 <= b ==> Slice(s, a, b) == ""
  {
  }

  /** Adjacent slices with non-negative, non-decreasing bounds join up; the
      last bound may also be anything at or past the end. */
  lemma SliceConcat(s: string, a: int, b: int, c: int)
    requires 0 <= a <= b && (b <= c || |s| <= c)
    ensures Slice(s, a, b) + Slice(s, b, c) == Slice(s, a, c)
  {
    var la, lb, lc := SliceBound(s, a), SliceBound(s, b), SliceBound(s, c);
    assert la <= lb <= lc;
    if la < lb && lb < lc {
      assert s[la..lb] + s[lb..lc] == s[la..lc];
    }
  }

  /** Three adjacent slices, the last one running to the end, join up. */
  lemma SliceThree(s: string, a: int, b: int, c: int)
    requires 0 <= a <= b <= c
    ensures Slice(s, a, b) + (Slice(s, b, c) + Slice(s, c, |s|)) == Slice(s, a, |s|)
  {
    SliceConcat(s, b, c, |s|);
    SliceConcat(s, a, b, |s|);
  }

  /** A slice from 0 to the end is the whole string. */
  lemma SliceAll(s: string)
    ensures Slice(s, 0, |s|) == s
  {
  }

  /** The characters `trim` removes: ECMAScript WhiteSpace and LineTerminator. */
  predicate IsWhiteSpace(c: char)
  {
    c == '\t' || c == '\n' || c == '\U{000B}' || c == '\U{000C}' || c == '\r' || c == ' '
    || c == '\U{00A0}' || c == '\U{1680}' || ('\U{2000}' <= c <= '\U{200A}')
    || c == '\U{2028}' || c == '\U{2029}' || c == '\U{202F}' || c == '\U{205F}'
    || c == '\U{3000}' || c == '\U{FEFF}'
  }

  /** Every character of `s` is white space (true of the empty string). */
  predicate Blank(s: string)
  {
    forall i :: 0 <= i < |s| ==> IsWhiteSpace(s[i])
  }

  /** `s` without its leading white space. */
  function TrimStart(s: string): string
  {
    if |s| > 0 && IsWhiteSpace(s[0]) then TrimStart(s[1..]) else s
  }

  /** `s` without its trailing white space. */
  function TrimEnd(s: string): string
  {
    if |s| > 0 && IsWhiteSpace(s[|s| - 1]) then TrimEnd(s[..|s| - 1]) else s
  }

  /** `s.trim()`. */
  function Trim(s: string): (t: string)
    ensures |t| <= |s|
    ensures t == [] || (!IsWhiteSpace(t[0]) && !IsWhiteSpace(t[|t| - 1]))
  {
    TrimStartSpec(s);
    TrimEndSpec(TrimStart(s));
    TrimEnd(TrimStart(s))
  }

  /** `TrimStart` drops exactly the white space before the first other character. */
  lemma {:induction false} TrimStartSpec(s: string)
    ensures |TrimStart(s)| <= |s| && TrimStart(s) == s[|s| - |TrimStart(s)|..]
    ensures TrimStart(s) == [] || !IsWhiteSpace(TrimStart(s)[0])
    ensures forall i :: 0 <= i < |s| - |TrimStart(s)| ==> IsWhiteSpace(s[i])
  {
    if |s| > 0 && IsWhiteSpace(s[0]) {
      var t := TrimStart(s[1..]);
      TrimStartSpec(s[1..]);
      assert s[1..][|s| - 1 - |t|..] == s[|s| - |t|..];
      forall i | 0 < i < |s| - |t| ensures IsWhiteSpace(s[i]) {
        assert s[i] == s[1..][i - 1];
      }
    }
  }

  /** `TrimEnd` drops exactly the white space after the last other character. */
  lemma {:induction false} TrimEndSpec(s: string)
    ensures |TrimEnd(s)| <= |s| && TrimEnd(s) == s[..|TrimEnd(s)|]
    ensures TrimEnd(s) == [] || !IsWhiteSpace(TrimEnd(s)[|TrimEnd(s)| - 1])
    ensures forall i :: |TrimEnd(s)| <= i < |s| ==> IsWhiteSpace(s[i])
  {
    if |s| > 0 && IsWhiteSpace(s[|s| - 1]) {
      var t := TrimEnd(s[..|s| - 1]);
      TrimEndSpec(s[..|s| - 1]);
      assert s[..|s| - 1][..|t|] == s[..|t|];
      forall i | |t| <= i < |s| - 1 ensures IsWhiteSpace(s[i]) {
        assert s[i] == s[..|s| - 1][i];
      }
    }
  }

  /** `!s.trim()` holds exactly when `s` consists of white space only. */
  lemma TrimEmptyIffBlank(s: string)
    ensures Trim(s) == [] <==> Blank(s)
  {
    var t := TrimStart(s);
    TrimStartSpec(s);
    TrimEndSpec(t);
    if Trim(s) == [] {
      forall i | 0 <= i < |s| ensures IsWhiteSpace(s[i]) {
        if i >= |s| - |t| {
          assert s[i] == t[i - (|s| - |t|)];
        }
      }
    } else {
      var k := |s| - |t|;
      assert s[k] == t[0] && !IsWhiteSpace(s[k]);
    }
  }
}
