/**
 * The Python string operations the redactors rely on, with Python's meaning:
 * clamped slicing, `s[:n]`, `s[-n:]` (where `-0` is `0`), `"".join`, `" ".join`,
 * `str.strip()` over Python's whitespace characters, `str.find` for one character,
 * and `re.finditer(re.escape(needle), text)`, which is a plain literal search.
 */
module PyText {
  import opened Wrappers

  /** A (start, end) pair of offsets into a string, as `match.start()`, `match.end()` give. */
  datatype Span = Span(start: nat, end: nat)

  function MinNat(a: nat, b: nat): nat { if a <= b then a else b }

  function MaxNat(a: nat, b: nat): nat { if a <= b then b else a }

  /** `s[a:b]` for non-negative `a` and `b`: both ends are clamped to the string. */
  function Slice(s: string, a: nat, b: nat): (r: string)
    ensures MinNat(a, |s|) + |r| <= |s|
    ensures r == s[MinNat(a, |s|)..MinNat(a, |s|) + |r|]
    ensures a <= b <= |s| ==> r == s[a..b]
  {
    var lo, hi := MinNat(a, |s|), MinNat(b, |s|);
    if hi <= lo then "" else s[lo..hi]
  }

  /** `s[:n]`: the first `n` characters, or all of them when there are fewer. */
  function Head(s: string, n: nat): (r: string)
    ensures |r| == MinNat(n, |s|)
    ensures r == s[..|r|]
  {
    s[..MinNat(n, |s|)]
  }

  /** `s[-n:]`: the last `n` characters; `s[-0:]` is `s[0:]`, the whole string. */
  function Tail(s: string, n: nat): (r: string)
    ensures |r| == if n == 0 then |s| else MinNat(n, |s|)
    ensures r == s[|s| - |r|..]
  {
    if n == 0 || |s| <= n then s else s[|s| - n..]
  }

  /** `s[n:]` for non-negative `n`. */
  function Drop(s: string, n: nat): (r: string)
    ensures |r| == |s| - MinNat(n, |s|)
    ensures r == s[MinNat(n, |s|)..]
  {
    s[MinNat(n, |s|)..]
  }

  /** `"".join(xs)` for strings; for other sequences, their concatenation in order. */
  function Concat<T>(xs: seq<seq<T>>): seq<T>
  {
    if |xs| == 0 then [] else Concat(xs[..|xs| - 1]) + xs[|xs| - 1]
  }

  /** An element of the concatenation is an element of one of the pieces. */
  lemma {:induction false} ConcatMember<T>(xs: seq<seq<T>>, x: T)
    ensures x in Concat(xs) <==> exists i :: 0 <= i < |xs| && x in xs[i]
  {
    if |xs| > 0 {
      var n := |xs| - 1;
      ConcatMember(xs[..n], x);
      if x in Concat(xs[..n]) {
        var i :| 0 <= i < n && x in xs[..n][i];
        assert xs[..n][i] == xs[i];
      }
      if exists i :: 0 <= i < |xs| && x in xs[i] {
        var i :| 0 <= i < |xs| && x in xs[i];
        if i < n {
          assert xs[..n][i] == xs[i];
        }
      }
    }
  }

  /** The concatenation of `f(x)` over the elements `x` of `xs`, in order. */
  function ConcatMap<A, B>(xs: seq<A>, f: A -> seq<B>): seq<B>
  {
    if xs == [] then [] else ConcatMap(xs[..|xs| - 1], f) + f(xs[|xs| - 1])
  }

  /** An element of the concatenation comes from the image of some element. */
  lemma {:induction false} ConcatMapMember<A, B>(xs: seq<A>, f: A -> seq<B>, y: B)
    ensures y in ConcatMap(xs, f) <==> exists i :: 0 <= i < |xs| && y in f(xs[i])
  {
    if xs != [] {
      var n := |xs| - 1;
      ConcatMapMember(xs[..n], f, y);
      if y in ConcatMap(xs[..n], f) {
        var i :| 0 <= i < n && y in f(xs[..n][i]);
        assert xs[..n][i] == xs[i];
      }
      if exists i :: 0 <= i < |xs| && y in f(xs[i]) {
        var i :| 0 <= i < |xs| && y in f(xs[i]);
        if i < n {
          assert xs[..n][i] == xs[i];
        }
      }
    }
  }

  lemma ConcatMapSnoc<A, B>(xs: seq<A>, f: A -> seq<B>, x: A)
    ensures ConcatMap(xs + [x], f) == ConcatMap(xs, f) + f(x)
  {
    assert (xs + [x])[..|xs|] == xs;
  }

  /** Concatenating over two pieces is concatenating over each in turn. */
  lemma {:induction false} ConcatMapAppend<A, B>(xs: seq<A>, ys: seq<A>, f: A -> seq<B>)
    ensures ConcatMap(xs + ys, f) == ConcatMap(xs, f) + ConcatMap(ys, f)
    decreases |ys|
  {
    if ys == [] {
      assert xs + ys == xs;
    } else {
      var n := |ys| - 1;
      ConcatMapAppend(xs, ys[..n], f);
      assert xs + ys == (xs + ys[..n]) + [ys[n]] && ys == ys[..n] + [ys[n]];
      ConcatMapSnoc(xs + ys[..n], f, ys[n]);
      ConcatMapSnoc(ys[..n], f, ys[n]);
      AppendAssoc(ConcatMap(xs, f), ConcatMap(ys[..n], f), f(ys[n]));
    }
  }

  /** The union of `f(x)` over the elements `x` of `xs`, accumulated in order. */
  function UnionMap<A, B>(xs: seq<A>, f: A -> set<B>): set<B>
  {
    if xs == [] then {} else UnionMap(xs[..|xs| - 1], f) + f(xs[|xs| - 1])
  }

  /** An element of the union is in the image of some element. */
  lemma {:induction false} UnionMapMember<A, B>(xs: seq<A>, f: A -> set<B>, y: B)
    ensures y in UnionMap(xs, f) <==> exists i :: 0 <= i < |xs| && y in f(xs[i])
  {
    if xs != [] {
      var n := |xs| - 1;
      UnionMapMember(xs[..n], f, y);
      if y in UnionMap(xs[..n], f) {
        var i :| 0 <= i < n && y in f(xs[..n][i]);
        assert xs[..n][i] == xs[i];
      }
      if exists i :: 0 <= i < |xs| && y in f(xs[i]) {
        var i :| 0 <= i < |xs| && y in f(xs[i]);
        if i < n {
          assert xs[..n][i] == xs[i];
        }
      }
    }
  }

  /**
   * The union of the sets `f(x)` over the elements `x` of `xs`, accumulated in
   * order, or None as soon as one of them is None.
   */
  function UnionOfMap<A, B>(xs: seq<A>, f: A -> Option<set<B>>): Option<set<B>>
  {
    if xs == [] then Some({})
    else
      var init := UnionOfMap(xs[..|xs| - 1], f);
      var last := f(xs[|xs| - 1]);
      if init.Some? && last.Some? then Some(init.value + last.value) else None
  }

  /** The union fails exactly when one of the sets is missing. */
  lemma {:induction false} UnionOfMapNoneIff<A, B>(xs: seq<A>, f: A -> Option<set<B>>)
    ensures UnionOfMap(xs, f).None? <==> exists i :: 0 <= i < |xs| && f(xs[i]).None?
  {
    if xs != [] {
      var n := |xs| - 1;
      UnionOfMapNoneIff(xs[..n], f);
      if UnionOfMap(xs[..n], f).None? {
        var i :| 0 <= i < n && f(xs[..n][i]).None?;
        assert xs[..n][i] == xs[i];
      }
      if exists i :: 0 <= i < |xs| && f(xs[i]).None? {
        var i :| 0 <= i < |xs| && f(xs[i]).None?;
        if i < n {
          assert xs[..n][i] == xs[i];
        }
      }
    }
  }

  /** Otherwise every set is present and the union holds exactly their elements. */
  lemma {:induction false} UnionOfMapMember<A, B>(xs: seq<A>, f: A -> Option<set<B>>, y: B)
    requires UnionOfMap(xs, f).Some?
    ensures forall i :: 0 <= i < |xs| ==> f(xs[i]).Some?
    ensures y in UnionOfMap(xs, f).value <==> exists i :: 0 <= i < |xs| && y in f(xs[i]).value
  {
    if xs != [] {
      var n := |xs| - 1;
      UnionOfMapMember(xs[..n], f, y);
      forall i | 0 <= i < |xs| ensures f(xs[i]).Some? {
        if i < n {
          assert xs[..n][i] == xs[i];
        }
      }
      if y in UnionOfMap(xs, f).value {
        var i: nat := n;
        if y in UnionOfMap(xs[..n], f).value {
          i :| 0 <= i < n && y in f(xs[..n][i]).value;
          assert xs[..n][i] == xs[i];
        }
        assert 0 <= i < |xs| && y in f(xs[i]).value;
      }
      if exists i :: 0 <= i < |xs| && y in f(xs[i]).value {
        var i :| 0 <= i < |xs| && y in f(xs[i]).value;
        if i < n {
          assert xs[..n][i] == xs[i];
          assert y in UnionOfMap(xs[..n], f).value;
        }
      }
    }
  }

  /** One more element: its set joins the union. */
  lemma UnionOfMapSnoc<A, B>(xs: seq<A>, f: A -> Option<set<B>>, x: A)
    ensures UnionOfMap(xs + [x], f) ==
      var init := UnionOfMap(xs, f);
      if init.Some? && f(x).Some? then Some(init.value + f(x).value) else None
  {
    assert (xs + [x])[..|xs|] == xs;
  }

  /** Sequence algebra: concatenation is associative (an explicit step for the solver). */
  lemma AppendAssoc<T>(a: seq<T>, b: seq<T>, c: seq<T>)
    ensures a + b + c == a + (b + c)
  {
  }

  /** `" ".join(xs)` */
  function JoinSpace(xs: seq<string>): string
  {
    if |xs| == 0 then ""
    else if |xs| == 1 then xs[0]
    else JoinSpace(xs[..|xs| - 1]) + " " + xs[|xs| - 1]
  }

  /** The characters Python's `str.isspace` (and so `str.strip()`) treats as whitespace. */
  predicate IsSpace(c: char)
  {
    || ('\U{9}' <= c <= '\U{D}')
    || ('\U{1C}' <= c <= '\U{20}')
    || c == '\U{85}' || c == '\U{A0}' || c == '\U{1680}'
    || ('\U{2000}' <= c <= '\U{200A}')
    || c == '\U{2028}' || c == '\U{2029}' || c == '\U{202F}' || c == '\U{205F}'
    || c == '\U{3000}'
  }

  /** `s.lstrip()` */
  function StripStart(s: string): (r: string)
    ensures |r| <= |s|
  {
    if |s| > 0 && IsSpace(s[0]) then StripStart(s[1..]) else s
  }

  /** `s.rstrip()` */
  function StripEnd(s: string): (r: string)
    ensures |r| <= |s|
  {
    if |s| > 0 && IsSpace(s[|s| - 1]) then StripEnd(s[..|s| - 1]) else s
  }

  /** `s.strip()` */
  function Strip(s: string): (r: string)
    ensures |r| <= |s|
  {
    StripEnd(StripStart(s))
  }

  /** `lstrip` removes exactly the leading whitespace. */
  lemma {:induction false} StripStartSpec(s: string)
    ensures var r := StripStart(s);
      && r == s[|s| - |r|..]
      && (r == "" || !IsSpace(r[0]))
      && forall i :: 0 <= i < |s| - |r| ==> IsSpace(s[i])
  {
    if |s| > 0 && IsSpace(s[0]) {
      StripStartSpec(s[1..]);
    }
  }

  /** `rstrip` removes exactly the trailing whitespace. */
  lemma {:induction false} StripEndSpec(s: string)
    ensures var r := StripEnd(s);
      && r == s[..|r|]
      && (r == "" || !IsSpace(r[|r| - 1]))
      && forall i :: |r| <= i < |s| ==> IsSpace(s[i])
  {
    if |s| > 0 && IsSpace(s[|s| - 1]) {
      StripEndSpec(s[..|s| - 1]);
    }
  }

  /**
   * `strip` keeps a middle piece of `s` that neither starts nor ends with
   * whitespace, and everything around it is whitespace.
   */
  lemma StripSpec(s: string) returns (a: nat)
    ensures var r := Strip(s);
      && a + |r| <= |s| && r == s[a..a + |r|]
      && (r == "" || (!IsSpace(r[0]) && !IsSpace(r[|r| - 1])))
      && (forall i :: 0 <= i < a ==> IsSpace(s[i]))
      && (forall i :: a + |r| <= i < |s| ==> IsSpace(s[i]))
  {
    var t := StripStart(s);
    StripStartSpec(s);
    StripEndSpec(t);
    a := |s| - |t|;
    var r := Strip(s);
    if r != "" && t != "" {
      assert r[0] == t[0];
    }
    forall i | a + |r| <= i < |s| ensures IsSpace(s[i]) {
      assert s[i] == t[i - a];
    }
  }

  /**
   * `s.find(c, lo, hi)` for `0 <= lo <= hi <= len(s)`: the first index in
   * `[lo, hi)` holding `c`, or None where Python returns -1.
   */
  function Find(s: string, c: char, lo: nat, hi: nat): (r: Option<nat>)
    requires lo <= hi <= |s|
    ensures r.Some? <==> c in s[lo..hi]
    ensures r.Some? ==> lo <= r.value < hi && s[r.value] == c && c !in s[lo..r.value]
    decreases hi - lo
  {
    if lo == hi then None
    else if s[lo] == c then Some(lo)
    else
      var r := Find(s, c, lo + 1, hi);
      assert s[lo..hi] == [s[lo]] + s[lo + 1..hi];
      assert r.Some? ==> s[lo..r.value] == [s[lo]] + s[lo + 1..r.value];
      r
  }

  /** `needle` occurs in `text` starting at offset `i`. */
  predicate OccursAt(needle: string, text: string, i: nat)
  {
    i + |needle| <= |text| && text[i..i + |needle|] == needle
  }

  /**
   * `re.finditer(re.escape(needle), text)` from offset `from`, as (start, end)
   * pairs: leftmost match first, the scan resuming at the end of each match;
   * the empty needle matches (empty) at every offset up to `len(text)`.
   */
  function OccurrencesFrom(needle: string, text: string, from: nat): (r: seq<Span>)
    ensures forall k :: 0 <= k < |r| ==>
      from <= r[k].start && r[k].end == r[k].start + |needle| && OccursAt(needle, text, r[k].start)
    ensures forall k :: 0 < k < |r| ==> r[k - 1].start + MaxNat(|needle|, 1) <= r[k].start
    decreases |text| + 1 - from
  {
    if from > |text| then []
    else if OccursAt(needle, text, from) then
      [Span(from, from + |needle|)] + OccurrencesFrom(needle, text, from + MaxNat(|needle|, 1))
    else OccurrencesFrom(needle, text, from + 1)
  }

  function Occurrences(needle: string, text: string): seq<Span>
  {
    OccurrencesFrom(needle, text, 0)
  }

  /**
   * The scan misses nothing: every place the needle occurs at or after `from`
   * lies inside one of the reported matches (it may be skipped only because an
   * earlier, overlapping occurrence was reported).
   */
  lemma {:induction false} OccurrencesFromCover(needle: string, text: string, from: nat, j: nat)
    returns (k: nat)
    requires from <= j && OccursAt(needle, text, j)
    ensures var r := OccurrencesFrom(needle, text, from);
      k < |r| && r[k].start <= j < r[k].start + MaxNat(|needle|, 1)
    decreases |text| + 1 - from
  {
    var step := MaxNat(|needle|, 1);
    assert from <= |text|;
    if OccursAt(needle, text, from) {
      if j >= from + step {
        var i := OccurrencesFromCover(needle, text, from + step, j);
        k := i + 1;
      } else {
        k := 0;
      }
    } else {
      assert j != from;
      k := OccurrencesFromCover(needle, text, from + 1, j);
    }
  }

  /** No match is reported exactly when the needle occurs nowhere in the text. */
  lemma OccurrencesEmptyIff(needle: string, text: string)
    ensures Occurrences(needle, text) == [] <==> forall j: nat :: !OccursAt(needle, text, j)
  {
    if Occurrences(needle, text) == [] {
      forall j: nat | OccursAt(needle, text, j) ensures false {
        var _ := OccurrencesFromCover(needle, text, 0, j);
      }
    } else {
      assert OccursAt(needle, text, Occurrences(needle, text)[0].start);
    }
  }

  /**
   * `list(s)` for a set: every element once, in an order the model leaves
   * open (CPython's hash order).
   */
  method ListOf<T>(s: set<T>) returns (xs: seq<T>)
    ensures forall x :: x in xs <==> x in s
    ensures |xs| == |s|
    ensures forall i, j :: 0 <= i < j < |xs| ==> xs[i] != xs[j]
  {
    xs := [];
    var rest := s;
    while rest != {}
      invariant rest <= s
      invariant forall x :: x in s <==> x in xs || x in rest
      invariant forall x :: x in xs ==> x !in rest
      invariant |xs| + |rest| == |s|
      invariant forall i, j :: 0 <= i < j < |xs| ==> xs[i] != xs[j]
      decreases |rest|
    {
      var x :| x in rest;
      xs := xs + [x];
      rest := rest - {x};
    }
  }
}
