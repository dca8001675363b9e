/**
  The handful of Python `str` operations the clause scraper is built from,
  with Python's own edge cases: `find` answers -1 when there is no match,
  `index` fails instead, slices accept negative and out-of-range bounds,
  `strip` removes Unicode whitespace at both ends, and `replace` rewrites
  every non-overlapping occurrence from left to right.
*/
module PyStr {

  /** `str.index` raises ValueError where `str.find` answers -1: None stands for the exception. */
  datatype Option<T> = None | Some(value: T)

  /** `sub` occurs in `s` starting at position `i`. */
  predicate IsAt(s: string, sub: string, i: int)
  {
    0 <= i && i + |sub| <= |s| && s[i..i + |sub|] == sub
  }

  /** Python's reading of a start offset for `find`: negative counts from the end, then clamped at 0. */
  function FindStart(start: int, n: nat): (r: nat)
    ensures start >= 0 ==> r == start
    ensures start < 0 ==> r <= n
  {
    if start >= 0 then start else if start + n < 0 then 0 else start + n
  }

  /** First occurrence of `sub` at or after position `i`, or -1. */
  function FindFrom(s: string, sub: string, i: nat): (r: int)
    ensures r == -1 || (i <= r && IsAt(s, sub, r))
    ensures r == -1 ==> forall p :: i <= p ==> !IsAt(s, sub, p)
    ensures r != -1 ==> forall p :: i <= p < r ==> !IsAt(s, sub, p)
    decreases |s| - i
  {
    if i + |sub| > |s| then -1
    else if s[i..i + |sub|] == sub then i
    else FindFrom(s, sub, i + 1)
  }

  /** Python `s.find(sub, start)`. */
  function Find(s: string, sub: string, start: int): (r: int)
    ensures r == -1 || (start <= FindStart(start, |s|) <= r && IsAt(s, sub, r))
    ensures r == -1 ==> forall p :: FindStart(start, |s|) <= p ==> !IsAt(s, sub, p)
    ensures r != -1 ==> forall p :: FindStart(start, |s|) <= p < r ==> !IsAt(s, sub, p)
  {
    FindFrom(s, sub, FindStart(start, |s|))
  }

  /** Python `sub in s`: the empty string is in every string, and nothing longer than `s` is in it. */
  predicate Contains(s: string, sub: string)
    ensures sub == [] ==> Contains(s, sub)
    ensures Contains(s, sub) ==> |sub| <= |s|
  {
    Find(s, sub, 0) != -1
  }

  /** `sub in s` holds exactly when `sub` occurs somewhere in `s`. */
  lemma ContainsIff(s: string, sub: string)
    ensures Contains(s, sub) <==> exists p :: IsAt(s, sub, p)
  {
    if Contains(s, sub) {
      assert IsAt(s, sub, Find(s, sub, 0));
    }
  }

  /** Python `s.index(sub)`: the first occurrence, or the ValueError it raises. */
  function IndexOf(s: string, sub: string): (r: Option<nat>)
    ensures r.None? <==> !Contains(s, sub)
    ensures r.Some? ==> IsAt(s, sub, r.value) && forall p :: 0 <= p < r.value ==> !IsAt(s, sub, p)
  {
    var i := Find(s, sub, 0);
    if i == -1 then None else Some(i)
  }

  /** Python's reading of a slice bound: negative counts from the end, then clamped to [0, n]. */
  function SliceBound(i: int, n: nat): (r: nat)
    ensures r <= n
    ensures 0 <= i <= n ==> r == i
    ensures i < 0 && i + n >= 0 ==> r == i + n
  {
    if i < 0 then (if i + n < 0 then 0 else i + n)
    else if i > n then n
    else i
  }

  /** Python `s[i:j]`. */
  function Slice(s: string, i: int, j: int): (r: string)
    ensures |r| <= |s|
    ensures 0 <= i <= j <= |s| ==> r == s[i..j]
    ensures 0 <= i < |s| && j == -1 ==> r == s[i..|s| - 1]
  {
    var a, b := SliceBound(i, |s|), SliceBound(j, |s|);
    if b <= a then [] else s[a..b]
  }

  /** A slice that starts at -1 and stops at a position `find` can answer is always empty. */
  lemma SliceFromLastIsEmpty(s: string, j: int)
    requires j == -1 || 0 <= j < |s|
    ensures Slice(s, -1, j) == []
  {
  }

  /** Python `str.isspace` for one character (the characters `strip()` removes). */
  predicate IsSpace(c: char)
  {
    || c == ' '
    || '\t' <= c <= '\r'
    || '\U{1C}' <= c <= '\U{1F}'
    || c == '\U{85}' || c == '\U{A0}' || c == '\U{1680}'
    || '\U{2000}' <= c <= '\U{200A}'
    || c == '\U{2028}' || c == '\U{2029}' || c == '\U{202F}' || c == '\U{205F}' || c == '\U{3000}'
  }

  predicate AllSpace(s: string)
  {
    forall k :: 0 <= k < |s| ==> IsSpace(s[k])
  }

  /** Python `s.lstrip()`: the suffix left after every leading whitespace character is dropped. */
  function StripLeft(s: string): (r: string)
    ensures |r| <= |s| && r == s[|s| - |r|..]
    ensures forall k :: 0 <= k < |s| - |r| ==> IsSpace(s[k])
    ensures r == [] || !IsSpace(r[0])
  {
    if |s| > 0 && IsSpace(s[0]) then
      var r := StripLeft(s[1..]);
      assert s[1..][|s| - 1 - |r|..] == s[|s| - |r|..];
      r
    else
      s
  }

  /** Python `s.rstrip()`: the prefix left after every trailing whitespace character is dropped. */
  function StripRight(s: string): (r: string)
    ensures |r| <= |s| && r == s[..|r|]
    ensures forall k :: |r| <= k < |s| ==> IsSpace(s[k])
    ensures r == [] || !IsSpace(r[|r| - 1])
  {
    if |s| > 0 && IsSpace(s[|s| - 1]) then
      var r := StripRight(s[..|s| - 1]);
      assert s[..|s| - 1][..|r|] == s[..|r|];
      r
    else
      s
  }

  /** Python `s.strip()`. */
  function Strip(s: string): (r: string)
    ensures |r| <= |s|
    ensures r == [] <==> AllSpace(s)
    ensures r == [] || (!IsSpace(r[0]) && !IsSpace(r[|r| - 1]))
  {
    StripBothEnds(s);
    StripRight(StripLeft(s))
  }

  lemma StripBothEnds(s: string)
    ensures var r := StripRight(StripLeft(s));
      (r == [] <==> AllSpace(s)) && (r == [] || !IsSpace(r[0]))
  {
    var l := StripLeft(s);
    var d := |s| - |l|;
    var r := StripRight(l);
    assert r == [] ==> l == [];
    if r != [] {
      assert r[0] == l[0] == s[d];
    }
  }

  /** Stripping removes exactly the whitespace around a core that has none at its ends. */
  lemma StripPadded(w1: string, x: string, w2: string)
    requires AllSpace(w1) && AllSpace(w2)
    requires x == [] || (!IsSpace(x[0]) && !IsSpace(x[|x| - 1]))
    ensures Strip(w1 + x + w2) == x
  {
    if x == [] {
      StripOnlySpace(w1, w2);
      assert w1 + x + w2 == w1 + w2;
    } else {
      StripAroundCore(w1, x, w2);
    }
  }

  lemma StripOnlySpace(w1: string, w2: string)
    requires AllSpace(w1) && AllSpace(w2)
    ensures Strip(w1 + w2) == []
  {
    assert AllSpace(w1 + w2) by {
      forall k | 0 <= k < |w1 + w2| ensures IsSpace((w1 + w2)[k]) {
        if k >= |w1| {
          assert (w1 + w2)[k] == w2[k - |w1|];
        }
      }
    }
  }

  lemma StripAroundCore(w1: string, x: string, w2: string)
    requires AllSpace(w1) && AllSpace(w2)
    requires x != [] && !IsSpace(x[0]) && !IsSpace(x[|x| - 1])
    ensures Strip(w1 + x + w2) == x
  {
    var s := w1 + x + w2;
    assert s == w1 + (x + w2);
    StripLeftPadded(w1, x + w2);
    StripRightPadded(x, w2);
    assert Strip(s) == StripRight(StripLeft(s));
  }

  lemma {:induction false} StripLeftPadded(w: string, y: string)
    requires AllSpace(w)
    requires y == [] || !IsSpace(y[0])
    ensures StripLeft(w + y) == y
    decreases |w|
  {
    if w != [] {
      assert (w + y)[1..] == w[1..] + y;
      StripLeftPadded(w[1..], y);
    } else {
      assert w + y == y;
    }
  }

  lemma {:induction false} StripRightPadded(y: string, w: string)
    requires AllSpace(w)
    requires y == [] || !IsSpace(y[|y| - 1])
    ensures StripRight(y + w) == y
    decreases |w|
  {
    if w != [] {
      assert (y + w)[..|y + w| - 1] == y + w[..|w| - 1];
      StripRightPadded(y, w[..|w| - 1]);
    } else {
      assert y + w == y;
    }
  }

  /**
    Python `s.replace(pat, rep)` for a non-empty `pat`: scanning from the left,
    every occurrence of `pat` that does not overlap an earlier replaced one
    becomes `rep`.
  */
  function Replace(s: string, pat: string, rep: string): (r: string)
    requires pat != []
    ensures rep == pat ==> r == s
    ensures |pat| <= |rep| ==> |s| <= |r|
    decreases |s|
  {
    if |s| < |pat| then s
    else if s[..|pat|] == pat then rep + Replace(s[|pat|..], pat, rep)
    else [s[0]] + Replace(s[1..], pat, rep)
  }

  /** Text before the first occurrence of `pat` is copied unchanged. */
  lemma {:induction false} ReplaceKeepsPrefix(s: string, pat: string, rep: string, i: nat)
    requires pat != [] && i <= |s|
    requires forall p :: 0 <= p < i ==> !IsAt(s, pat, p)
    ensures Replace(s, pat, rep) == s[..i] + Replace(s[i..], pat, rep)
    decreases i
  {
    if i > 0 {
      ReplaceCopiesFirst(s, pat, rep);
      NoMatchInTail(s, pat, i);
      ReplaceKeepsPrefix(s[1..], pat, rep, i - 1);
      assert s[1..][i - 1..] == s[i..];
      assert [s[0]] + s[1..][..i - 1] == s[..i];
    } else {
      assert s[..0] + s[0..] == s;
    }
  }

  /** Where `pat` does not start at position 0, `replace` copies the first character. */
  lemma ReplaceCopiesFirst(s: string, pat: string, rep: string)
    requires pat != [] && s != [] && !IsAt(s, pat, 0)
    ensures Replace(s, pat, rep) == [s[0]] + Replace(s[1..], pat, rep)
  {
    if |s| < |pat| {
      assert |s[1..]| < |pat|;
      assert [s[0]] + s[1..] == s;
    }
  }

  lemma NoMatchInTail(s: string, pat: string, i: nat)
    requires 0 < i <= |s|
    requires forall p :: 0 <= p < i ==> !IsAt(s, pat, p)
    ensures forall p :: 0 <= p < i - 1 ==> !IsAt(s[1..], pat, p)
  {
    forall p | 0 <= p < i - 1 ensures !IsAt(s[1..], pat, p) {
      assert !IsAt(s, pat, p + 1);
      if p + |pat| <= |s| - 1 {
        assert s[1..][p..p + |pat|] == s[p + 1..p + 1 + |pat|];
      }
    }
  }

  /** Text without `pat` in it comes back unchanged. */
  lemma ReplaceAbsent(s: string, pat: string, rep: string)
    requires pat != []
    requires !Contains(s, pat)
    ensures Replace(s, pat, rep) == s
  {
    ReplaceKeepsPrefix(s, pat, rep, |s|);
    assert s[|s|..] == [];
    assert s[..|s|] == s;
  }

  /**
    `replace` agrees with `find`: up to the first occurrence the text is kept,
    that occurrence becomes `rep`, and the rest is replaced in turn.
  */
  lemma ReplaceAtFirst(s: string, pat: string, rep: string)
    requires pat != []
    requires Contains(s, pat)
    ensures var i := Find(s, pat, 0);
      Replace(s, pat, rep) == s[..i] + rep + Replace(s[i + |pat|..], pat, rep)
  {
    var i := Find(s, pat, 0);
    ReplaceKeepsPrefix(s, pat, rep, i);
    assert s[i..][..|pat|] == pat;
    assert s[i..][|pat|..] == s[i + |pat|..];
  }

  /**
    Replacing in `x + pat`, where `pat` occurs in it only at the very end,
    keeps `x` and turns the final `pat` into `rep`.
  */
  lemma ReplaceAtEnd(x: string, pat: string, rep: string)
    requires pat != []
    requires forall p :: 0 <= p < |x| ==> !IsAt(x + pat, pat, p)
    ensures Replace(x + pat, pat, rep) == x + rep
  {
    var s := x + pat;
    ReplaceKeepsPrefix(s, pat, rep, |x|);
    assert s[..|x|] == x && s[|x|..] == pat;
    assert pat[|pat|..] == [];
  }
}
