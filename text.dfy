/**
 * The string primitives the environment importer relies on: Python's
 * `str.strip()` with no argument, `str.split(sep, 1)` and the substring
 * test `pattern in key`.
 */
module Text {

  datatype Option<+T> = None | Some(value: T)

  /** The characters `strip()` removes from byte strings: space and the
      five consecutive codes tab, line feed, vertical tab, form feed and
      carriage return. */
  predicate IsSpace(c: char) {
    c == ' ' || '\t' <= c <= '\r'
  }

  predicate AllSpace(s: string) {
    forall i :: 0 <= i < |s| ==> IsSpace(s[i])
  }

  /** Neither starts nor ends with whitespace: what `strip()` returns. */
  predicate IsStripped(s: string) {
    s == [] || (!IsSpace(s[0]) && !IsSpace(s[|s| - 1]))
  }

  /** Removes leading whitespace (Python's `lstrip()`). */
  function TrimLeft(s: string): (r: string)
    ensures |r| <= |s| && r == s[|s| - |r|..]
    ensures AllSpace(s[..|s| - |r|])
    ensures r == [] || !IsSpace(r[0])
  {
    if s != [] && IsSpace(s[0]) then
      var r := TrimLeft(s[1..]);
      SpaceCons(s, r);
      r
    else s
  }

  /** Removes trailing whitespace (Python's `rstrip()`). */
  function TrimRight(s: string): (r: string)
    ensures |r| <= |s| && r == s[..|r|]
    ensures AllSpace(s[|r|..])
    ensures r == [] || !IsSpace(r[|r| - 1])
  {
    if s != [] && IsSpace(s[|s| - 1]) then
      var r := TrimRight(s[..|s| - 1]);
      SpaceSnoc(s, |r|);
      r
    else s
  }

  /** A space in front of a run of spaces extends the run; what follows
      the run is a suffix of `s` as it was of `s[1..]`. */
  lemma SpaceCons(s: string, r: string)
    requires s != [] && IsSpace(s[0])
    requires |r| <= |s| - 1 && r == s[1..][|s| - 1 - |r|..]
    requires AllSpace(s[1..][..|s| - 1 - |r|])
    ensures r == s[|s| - |r|..]
    ensures AllSpace(s[..|s| - |r|])
  {
    var k := |s| - |r|;
    forall i | 0 <= i < k ensures IsSpace(s[..k][i]) {
      if i > 0 {
        assert s[..k][i] == s[1..][..k - 1][i - 1];
      }
    }
  }

  /** A space behind a run of spaces extends the run. */
  lemma SpaceSnoc(s: string, k: nat)
    requires k < |s| && IsSpace(s[|s| - 1]) && AllSpace(s[..|s| - 1][k..])
    ensures AllSpace(s[k..])
  {
    forall i | 0 <= i < |s| - k ensures IsSpace(s[k..][i]) {
      if i < |s| - 1 - k {
        assert s[k..][i] == s[..|s| - 1][k..][i];
      }
    }
  }

  /** Python's `s.strip()`: `s` without its leading and trailing
      whitespace. */
  function Strip(s: string): (r: string)
    ensures IsStripped(r)
    ensures |r| <= |s|
  {
    TrimRight(TrimLeft(s))
  }

  /** What `strip()` leaves out is whitespace on either side of its
      result. */
  lemma StripShape(s: string)
    ensures StripStart(s) + |Strip(s)| <= |s|
    ensures s == s[..StripStart(s)] + Strip(s) + s[StripStart(s) + |Strip(s)|..]
    ensures AllSpace(s[..StripStart(s)]) && AllSpace(s[StripStart(s) + |Strip(s)|..])
  {
    var l := TrimLeft(s);
    var r := TrimRight(l);
    Recompose(s, |s| - |l|, l, r);
  }

  /** Cutting a prefix `r` out of the suffix `l` of `s`. */
  lemma Recompose(s: string, i: nat, l: string, r: string)
    requires i <= |s| && l == s[i..] && |r| <= |l| && r == l[..|r|]
    ensures s == s[..i] + r + s[i + |r|..]
    ensures s[i + |r|..] == l[|r|..]
  {
    assert s == s[..i] + l;
    assert l == r + l[|r|..];
  }

  /** Where the text `strip()` keeps begins. */
  function StripStart(s: string): (i: nat)
    ensures i <= |s|
  {
    |s| - |TrimLeft(s)|
  }

  /** Leading whitespace in front of a text that starts with a non-space
      is exactly what TrimLeft removes. */
  lemma {:induction false} TrimLeftOfSpaces(p: string, t: string)
    requires AllSpace(p)
    requires t == [] || !IsSpace(t[0])
    ensures TrimLeft(p + t) == t
  {
    if p != [] {
      assert (p + t)[0] == p[0];
      assert (p + t)[1..] == p[1..] + t;
      TrimLeftOfSpaces(p[1..], t);
    } else {
      assert p + t == t;
    }
  }

  /** Trailing whitespace behind a text that ends with a non-space is
      exactly what TrimRight removes. */
  lemma {:induction false} TrimRightOfSpaces(t: string, q: string)
    requires AllSpace(q)
    requires t == [] || !IsSpace(t[|t| - 1])
    ensures TrimRight(t + q) == t
  {
    var s := t + q;
    if q != [] {
      assert s[|s| - 1] == q[|q| - 1];
      assert s[..|s| - 1] == t + q[..|q| - 1];
      TrimRightOfSpaces(t, q[..|q| - 1]);
    } else {
      assert s == t;
    }
  }

  /** `strip()` is determined by its result: whenever `s` is a stripped
      text with whitespace on both sides, that text is what comes back. */
  lemma StripUnique(p: string, r: string, q: string)
    requires AllSpace(p) && AllSpace(q) && IsStripped(r)
    ensures Strip(p + r + q) == r
  {
    if r == [] {
      assert p + r + q == (p + q) + [];
      TrimLeftOfSpaces(p + q, []);
    } else {
      assert p + r + q == p + (r + q);
      TrimLeftOfSpaces(p, r + q);
      TrimRightOfSpaces(r, q);
    }
  }

  /** `strip()` removes nothing from a string that is already stripped,
      so applying it twice is the same as applying it once. */
  lemma StripIdempotent(s: string)
    ensures Strip(s) == s <==> IsStripped(s)
    ensures Strip(Strip(s)) == Strip(s)
  {
    if IsStripped(s) {
      StripUnique([], s, []);
      assert [] + s + [] == s;
    }
    var r := Strip(s);
    StripUnique([], r, []);
    assert [] + r + [] == r;
  }

  /** A non-whitespace character splits the stripping problem in two:
      only the part before it loses leading and only the part after it
      loses trailing whitespace. */
  lemma StripAround(a: string, c: char, b: string)
    requires !IsSpace(c)
    ensures Strip(a + [c] + b) == TrimLeft(a) + [c] + TrimRight(b)
  {
    var l, r := TrimLeft(a), TrimRight(b);
    var k, m := |a| - |l|, |r|;
    Surround(a, k, l, c, b, m, r);
    StripUnique(a[..k], l + [c] + r, b[m..]);
  }

  /** The sequence bookkeeping of StripAround: the trimmed halves and the
      character between them, put back into their surroundings. */
  lemma Surround(a: string, k: nat, l: string, c: char, b: string, m: nat, r: string)
    requires k <= |a| && l == a[k..] && m <= |b| && r == b[..m]
    requires l == [] || !IsSpace(l[0])
    requires r == [] || !IsSpace(r[|r| - 1])
    requires !IsSpace(c)
    ensures a[..k] + (l + [c] + r) + b[m..] == a + [c] + b
    ensures IsStripped(l + [c] + r)
  {
    var mid := l + [c] + r;
    assert mid[0] == if l == [] then c else l[0];
    assert mid[|mid| - 1] == if r == [] then c else r[|r| - 1];
    assert a == a[..k] + l;
    assert b == r + b[m..];
  }

  /** Stripping what was left-trimmed is the same as stripping the
      original. */
  lemma StripAfterTrimLeft(s: string)
    ensures Strip(TrimLeft(s)) == Strip(s)
  {
    var l := TrimLeft(s);
    assert [] + l == l;
    TrimLeftOfSpaces([], l);
  }

  /** Trailing whitespace appended to a text does not change what
      TrimRight keeps of it. */
  lemma {:induction false} TrimRightDropsSpaces(x: string, q: string)
    requires AllSpace(q)
    ensures TrimRight(x + q) == TrimRight(x)
  {
    if q != [] {
      var s := x + q;
      assert s[|s| - 1] == q[|q| - 1];
      assert s[..|s| - 1] == x + q[..|q| - 1];
      TrimRightDropsSpaces(x, q[..|q| - 1]);
    } else {
      assert x + q == x;
    }
  }

  /** Once a text has a non-space character, appending to it does not
      change where TrimLeft stops. */
  lemma {:induction false} TrimLeftKeepsSuffix(t: string, q: string)
    requires TrimLeft(t) != []
    ensures TrimLeft(t + q) == TrimLeft(t) + q
  {
    if IsSpace(t[0]) {
      assert (t + q)[0] == t[0];
      assert (t + q)[1..] == t[1..] + q;
      TrimLeftKeepsSuffix(t[1..], q);
    } else {
      assert (t + q)[0] == t[0];
    }
  }

  /** Stripping what was right-trimmed is the same as stripping the
      original. */
  lemma StripAfterTrimRight(s: string)
    ensures Strip(TrimRight(s)) == Strip(s)
  {
    var t := TrimRight(s);
    var q := s[|t|..];
    assert s == t + q;
    if TrimLeft(t) == [] {
      assert AllSpace(t[..|t|]);
      assert t[..|t|] == t;
      assert AllSpace(s);
      StripUnique(s, [], []);
      assert s + [] + [] == s;
    } else {
      TrimLeftKeepsSuffix(t, q);
      TrimRightDropsSpaces(TrimLeft(t), q);
    }
  }

  /** A character that is not whitespace survives `strip()` exactly when
      it was there before. */
  lemma StripKeepsNonSpace(s: string, c: char)
    requires !IsSpace(c)
    ensures c in Strip(s) <==> c in s
  {
    StripShape(s);
    var r, i := Strip(s), StripStart(s);
    var pre, post := s[..i], s[i + |r|..];
    assert s == pre + r + post;
    if c in s {
      assert c !in pre && c !in post by {
        assert forall j :: 0 <= j < |pre| ==> IsSpace(pre[j]);
        assert forall j :: 0 <= j < |post| ==> IsSpace(post[j]);
      }
    }
  }

  /** Python's `s.split(sep, 1)`: `None` when `sep` does not occur (the
      one-element list), otherwise the text before the FIRST `sep` and
      everything after it. */
  function SplitFirst(s: string, sep: char): (r: Option<(string, string)>)
    ensures r.None? <==> sep !in s
    ensures r.Some? ==> s == r.value.0 + [sep] + r.value.1 && sep !in r.value.0
  {
    if s == [] then None
    else if s[0] == sep then Some(([], s[1..]))
    else
      match SplitFirst(s[1..], sep)
      case None => None
      case Some(p) =>
        assert s == [s[0]] + s[1..];
        Some(([s[0]] + p.0, p.1))
  }

  /** The split is at the first separator: every decomposition around a
      separator that the left part does not contain is the one found, so
      the right part may contain further separators. */
  lemma {:induction false} SplitFirstUnique(a: string, sep: char, b: string)
    requires sep !in a
    ensures SplitFirst(a + [sep] + b, sep) == Some((a, b))
  {
    var s := a + [sep] + b;
    if a == [] {
      assert s[0] == sep && s[1..] == b;
    } else {
      assert s[0] == a[0] && s[1..] == a[1..] + [sep] + b;
      SplitFirstUnique(a[1..], sep, b);
      assert [a[0]] + a[1..] == a;
    }
  }

  /** Python's `pattern in s` on strings: `pattern` occurs as a contiguous
      substring of `s`, anywhere in it (it is a prefix of some suffix). */
  predicate Contains(s: string, pattern: string)
    ensures Contains(s, pattern) ==> |pattern| <= |s|
    ensures pattern == [] ==> Contains(s, pattern)
  {
    assert [] <= s[0..];
    exists i :: 0 <= i <= |s| && pattern <= s[i..]
  }

  /** A substring may occur anywhere: with any text around it. */
  lemma ContainsInfix(pre: string, pattern: string, post: string)
    ensures Contains(pre + pattern + post, pattern)
  {
    var s := pre + pattern + post;
    assert s[|pre|..] == pattern + post;
  }
}
