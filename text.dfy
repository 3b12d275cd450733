/** String primitives that setup.py borrows from Python's `str`:
    `strip()`, `startswith(c)`, `split(c, 1)`, `split(c)`, `upper()` and
    the substring test `pat in s`. Strings are sequences of characters. */
module Text {

  datatype Option<T> = None | Some(value: T)

  /** The characters `str.strip()` removes: the ASCII members of Python's
      whitespace class. */
  predicate IsSpace(ch: char) {
    ch == ' ' || ch == '\t' || ch == '\n' || ch == '\r' || ch == '\U{0B}' || ch == '\U{0C}'
    || ch == '\U{1C}' || ch == '\U{1D}' || ch == '\U{1E}' || ch == '\U{1F}'
  }

  predicate AllSpace(s: string) {
    forall i :: 0 <= i < |s| ==> IsSpace(s[i])
  }

  /** A string with no whitespace at either end: what `strip()` returns. */
  predicate NoEdgeSpace(s: string) {
    s == [] || (!IsSpace(s[0]) && !IsSpace(s[|s| - 1]))
  }

  /** `s.startswith(c)` for a one-character prefix: `[ch]` is a prefix
      of `s`. */
  function StartsWith(s: string, ch: char): (r: bool)
    ensures r <==> [ch] <= s
  {
    |s| > 0 && s[0] == ch
  }

  /** `s.lstrip()`: `s` without its leading whitespace. */
  function LStrip(s: string): (r: string)
    ensures |r| <= |s|
    ensures r == [] || !IsSpace(r[0])
  {
    if |s| > 0 && IsSpace(s[0]) then LStrip(s[1..]) else s
  }

  /** What `lstrip()` cuts off is whitespace, and what it keeps is a suffix. */
  lemma {:induction false} LStripSuffix(s: string)
    ensures LStrip(s) == s[|s| - |LStrip(s)|..]
    ensures AllSpace(s[..|s| - |LStrip(s)|])
  {
    if |s| > 0 && IsSpace(s[0]) {
      LStripSuffix(s[1..]);
      var n := |s| - |LStrip(s)|;
      assert s[..n] == [s[0]] + s[1..][..n - 1];
    }
  }

  /** `s.rstrip()`: `s` without its trailing whitespace. */
  function RStrip(s: string): (r: string)
    ensures |r| <= |s|
    ensures r == [] || !IsSpace(r[|r| - 1])
  {
    if |s| > 0 && IsSpace(s[|s| - 1]) then RStrip(s[..|s| - 1]) else s
  }

  /** What `rstrip()` cuts off is whitespace, and what it keeps is a prefix. */
  lemma {:induction false} RStripPrefix(s: string)
    ensures RStrip(s) == s[..|RStrip(s)|]
    ensures AllSpace(s[|RStrip(s)|..])
  {
    if |s| > 0 && IsSpace(s[|s| - 1]) {
      var t := s[..|s| - 1];
      RStripPrefix(t);
      var n := |RStrip(s)|;
      assert s[n..] == t[n..] + [s[|s| - 1]];
    }
  }

  /** `s.strip()`: `s` with the whitespace at both ends cut off. */
  function Strip(s: string): (r: string)
    ensures |r| <= |s| && NoEdgeSpace(r)
  {
    var l := LStrip(s);
    RStripPrefix(l);
    RStrip(l)
  }

  /** The strip of `s` is a middle piece of `s` with only whitespace around
      it; `lo` is where it starts. */
  lemma StripBounds(s: string) returns (lo: nat)
    ensures lo + |Strip(s)| <= |s| && Strip(s) == s[lo..lo + |Strip(s)|]
    ensures AllSpace(s[..lo]) && AllSpace(s[lo + |Strip(s)|..])
  {
    var l := LStrip(s);
    var r := RStrip(l);
    LStripSuffix(s);
    RStripPrefix(l);
    lo := |s| - |l|;
    assert r == s[lo..lo + |r|];
    assert s[lo + |r|..] == l[|r|..];
  }

  lemma {:induction false} LStripAt(s: string, lo: nat)
    requires lo <= |s| && AllSpace(s[..lo]) && (lo == |s| || !IsSpace(s[lo]))
    ensures LStrip(s) == s[lo..]
  {
    if lo > 0 {
      assert IsSpace(s[..lo][0]);
      assert s[1..][..lo - 1] == s[..lo][1..];
      LStripAt(s[1..], lo - 1);
      assert s[1..][lo - 1..] == s[lo..];
    }
  }

  lemma {:induction false} RStripAt(s: string, hi: nat)
    requires hi <= |s| && AllSpace(s[hi..]) && (hi == 0 || !IsSpace(s[hi - 1]))
    ensures RStrip(s) == s[..hi]
  {
    if hi < |s| {
      assert IsSpace(s[hi..][|s| - 1 - hi]);
      var t := s[..|s| - 1];
      assert t[hi..] == s[hi..][..|s| - 1 - hi];
      RStripAt(t, hi);
      assert t[..hi] == s[..hi];
    }
  }

  /** Uniqueness of `strip()`: any middle piece of `s` with whitespace only
      around it and none at its own ends is the strip of `s`. */
  lemma StripUnique(s: string, lo: nat, hi: nat)
    requires lo <= hi <= |s|
    requires AllSpace(s[..lo]) && AllSpace(s[hi..]) && NoEdgeSpace(s[lo..hi])
    ensures Strip(s) == s[lo..hi]
  {
    if lo == hi {
      assert s[..|s|] == s[..lo] + s[hi..];
      AllSpaceAppend(s[..lo], s[hi..]);
      LStripAt(s, |s|);
      RStripAt([], 0);
    } else {
      StripUniqueInner(s, lo, hi);
    }
  }

  lemma StripUniqueInner(s: string, lo: nat, hi: nat)
    requires lo < hi <= |s|
    requires AllSpace(s[..lo]) && AllSpace(s[hi..])
    requires !IsSpace(s[lo]) && !IsSpace(s[hi - 1])
    ensures RStrip(LStrip(s)) == s[lo..hi]
  {
    LStripAt(s, lo);
    var l := s[lo..];
    assert LStrip(s) == l;
    assert AllSpace(l[hi - lo..]) by {
      assert l[hi - lo..] == s[hi..];
    }
    assert !IsSpace(l[hi - lo - 1]);
    RStripAt(l, hi - lo);
    assert RStrip(l) == l[..hi - lo];
    assert l[..hi - lo] == s[lo..hi];
  }

  lemma AllSpaceAppend(a: string, b: string)
    requires AllSpace(a) && AllSpace(b)
    ensures AllSpace(a + b)
  {
    forall i | 0 <= i < |a + b| ensures IsSpace((a + b)[i]) {
      if i >= |a| { assert (a + b)[i] == b[i - |a|]; }
    }
  }

  /** A string that starts with a non-space keeps its first character. */
  lemma StripFirst(s: string)
    requires |s| > 0 && !IsSpace(s[0])
    ensures |Strip(s)| > 0 && Strip(s)[0] == s[0]
  {
    assert LStrip(s) == s;
    RStripPrefix(s);
    RStripKeeps(s, 0);
  }

  /** `rstrip()` keeps every non-space character. */
  lemma {:induction false} RStripKeeps(s: string, i: nat)
    requires i < |s| && !IsSpace(s[i])
    ensures i < |RStrip(s)|
  {
    if IsSpace(s[|s| - 1]) {
      RStripKeeps(s[..|s| - 1], i);
    }
  }

  /** Stripping removes whitespace only: a non-space character occurs in `s`
      exactly when it occurs in `Strip(s)`. */
  lemma StripKeeps(s: string, ch: char)
    requires !IsSpace(ch)
    ensures ch in s <==> ch in Strip(s)
  {
    var r := Strip(s);
    var lo := StripBounds(s);
    assert s == s[..lo] + r + s[lo + |r|..];
    assert ch !in s[..lo];
    assert ch !in s[lo + |r|..];
  }

  /** `s.find(c)`: the index of the first occurrence of `ch`, if any. */
  function FindFirst(s: string, ch: char): (r: Option<nat>)
    ensures r.None? <==> ch !in s
    ensures r.Some? ==> r.value < |s| && s[r.value] == ch && ch !in s[..r.value]
  {
    if s == [] then None
    else if s[0] == ch then Some(0)
    else match FindFirst(s[1..], ch)
      case None => None
      case Some(i) =>
        assert s[..i + 1] == [s[0]] + s[1..][..i];
        Some(i + 1)
  }

  /** `s.split(ch, 1)`: `None` for the one-token result (no `ch` in `s`),
      otherwise the text before the first `ch` and everything after it. */
  function SplitOnce(s: string, ch: char): (r: Option<(string, string)>)
    ensures r.None? <==> ch !in s
    ensures r.Some? ==> s == r.value.0 + [ch] + r.value.1 && ch !in r.value.0
  {
    match FindFirst(s, ch)
    case None => None
    case Some(i) =>
      assert s == s[..i] + [ch] + s[i + 1..];
      Some((s[..i], s[i + 1..]))
  }

  /** The two halves are determined: a cut at an occurrence of `ch` that has
      none before it is the cut `SplitOnce` makes. */
  lemma SplitOnceAt(a: string, ch: char, b: string)
    requires ch !in a
    ensures SplitOnce(a + [ch] + b, ch) == Some((a, b))
  {
    var s := a + [ch] + b;
    assert s[..|a|] == a && s[|a| + 1..] == b;
    FindFirstAt(s, ch, |a|);
  }

  /** The first occurrence is the only one with none before it. */
  lemma {:induction false} FindFirstAt(s: string, ch: char, k: nat)
    requires k < |s| && s[k] == ch && ch !in s[..k]
    ensures FindFirst(s, ch) == Some(k)
  {
    if k > 0 {
      assert s[0] == s[..k][0];
      assert s[1..][..k - 1] == s[..k][1..];
      FindFirstAt(s[1..], ch, k - 1);
    }
  }

  /** The pieces of a split glued back together with the separator. */
  function Join(parts: seq<string>, sep: char): string
    requires |parts| >= 1
  {
    if |parts| == 1 then parts[0] else parts[0] + [sep] + Join(parts[1..], sep)
  }

  /** `s.split(ch)`: the `ch`-free pieces between occurrences of `ch`. */
  function SplitOn(s: string, ch: char): (r: seq<string>)
    ensures |r| >= 1
    ensures forall p :: p in r ==> ch !in p
    decreases |s|
  {
    match SplitOnce(s, ch)
    case None => [s]
    case Some((a, b)) => [a] + SplitOn(b, ch)
  }

  /** There is one more piece than there are separators. */
  lemma {:induction false} SplitOnCount(s: string, ch: char)
    ensures |SplitOn(s, ch)| == multiset(s)[ch] + 1
    decreases |s|
  {
    match SplitOnce(s, ch)
    case None =>
    case Some((a, b)) =>
      assert multiset(s) == multiset(a) + multiset{ch} + multiset(b);
      SplitOnCount(b, ch);
  }

  /** Joining the pieces with the separator gives back the string. */
  lemma {:induction false} SplitOnJoin(s: string, ch: char)
    ensures Join(SplitOn(s, ch), ch) == s
    decreases |s|
  {
    match SplitOnce(s, ch)
    case None =>
    case Some((a, b)) =>
      var r := SplitOn(s, ch);
      assert r == [a] + SplitOn(b, ch);
      assert r[1..] == SplitOn(b, ch);
      SplitOnJoin(b, ch);
  }

  /** Splitting distributes over a separator placed between two strings. */
  lemma {:induction false} SplitOnAppend(a: string, ch: char, b: string)
    ensures SplitOn(a + [ch] + b, ch) == SplitOn(a, ch) + SplitOn(b, ch)
    decreases |a|
  {
    if ch !in a {
      SplitOnAppendFirst(a, ch, b);
    } else {
      var x, y := SplitOnStep(a, ch);
      var rest := y + [ch] + b;
      assert a + [ch] + b == x + [ch] + rest;
      SplitOnAppendFirst(x, ch, rest);
      SplitOnAppend(y, ch, b);
      AppendAssoc([x], SplitOn(y, ch), SplitOn(b, ch));
    }
  }

  lemma AppendAssoc<T>(a: seq<T>, b: seq<T>, c: seq<T>)
    ensures a + (b + c) == (a + b) + c
  {
  }

  /** The first piece of a split, and the split of what follows it. */
  lemma SplitOnStep(s: string, ch: char) returns (x: string, y: string)
    requires ch in s
    ensures s == x + [ch] + y && ch !in x && |y| < |s|
    ensures SplitOn(s, ch) == [x] + SplitOn(y, ch)
  {
    x, y := SplitOnce(s, ch).value.0, SplitOnce(s, ch).value.1;
  }

  /** Splitting at a first separator. */
  lemma SplitOnAppendFirst(a: string, ch: char, b: string)
    requires ch !in a
    ensures SplitOn(a + [ch] + b, ch) == [a] + SplitOn(b, ch)
    ensures SplitOn(a, ch) == [a]
  {
    SplitOnceAt(a, ch, b);
  }

  /** `c.upper()` on ASCII letters; every other character is left alone. */
  function UpperChar(ch: char): char {
    if 'a' <= ch <= 'z' then (ch as int - 32) as char else ch
  }

  /** `s.upper()`, character by character. */
  function Upper(s: string): (r: string)
    ensures |r| == |s|
    ensures forall i :: 0 <= i < |s| ==> r[i] == UpperChar(s[i])
    ensures forall i :: 0 <= i < |r| ==> !('a' <= r[i] <= 'z')
  {
    seq(|s|, i requires 0 <= i < |s| => UpperChar(s[i]))
  }

  /** `pat` occurs in `s` starting at index `i`. */
  ghost predicate OccursAt(s: string, pat: string, i: int) {
    0 <= i && i + |pat| <= |s| && s[i..i + |pat|] == pat
  }

  /** Python's substring test `pat in s`. */
  function Contains(s: string, pat: string): (r: bool)
    ensures r <==> exists i :: OccursAt(s, pat, i)
  {
    if |pat| <= |s| && s[..|pat|] == pat then
      assert OccursAt(s, pat, 0);
      true
    else if s == [] then
      false
    else
      var r := Contains(s[1..], pat);
      if r then
        assert exists i :: OccursAt(s, pat, i) by {
          var i :| OccursAt(s[1..], pat, i);
          assert s[i + 1..i + 1 + |pat|] == s[1..][i..i + |pat|];
          assert OccursAt(s, pat, i + 1);
        }
        r
      else
        assert !OccursAt(s, pat, 0);
        assert forall i :: i >= 1 && OccursAt(s, pat, i) ==> OccursAt(s[1..], pat, i - 1) by {
          forall i | i >= 1 && OccursAt(s, pat, i) ensures OccursAt(s[1..], pat, i - 1) {
            assert s[1..][i - 1..i - 1 + |pat|] == s[i..i + |pat|];
          }
        }
        r
  }
}
