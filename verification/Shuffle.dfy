/** The in-place shuffle of gtest-internal-inl.h, and the index vectors it works on. */
module Shuffle {

  // ---- Fisher-Yates ----

  /** What the random source returns while a range of n elements is shuffled. */
  predicate Choices(c: seq<nat>, n: nat) {
    |c| == (if n < 2 then 0 else n - 1) && forall i :: 0 <= i < |c| ==> c[i] < n - i
  }

  function Swapped<E>(s: seq<E>, i: nat, j: nat): (r: seq<E>)
    requires i < |s| && j < |s|
    ensures |r| == |s| && multiset(r) == multiset(s)
  {
    s[i := s[j]][j := s[i]]
  }

  /** The last place is drawn from all elements, the one before it from the rest, and so on. */
  function Shuffled<E>(s: seq<E>, c: seq<nat>): (r: seq<E>)
    requires Choices(c, |s|)
    ensures |r| == |s|
    decreases |s|
  {
    if |s| < 2 then s
    else
      var t := Swapped(s, c[0], |s| - 1);
      Shuffled(t[..|s| - 1], c[1..]) + [t[|s| - 1]]
  }

  lemma FirstChoice(c: seq<nat>, n: nat)
    requires Choices(c, n) && n >= 2
    ensures |c| > 0 && c[0] < n && Choices(c[1..], n - 1)
  {
  }

  lemma Drawn<E>(s: seq<E>, c: seq<nat>)
    requires Choices(c, |s|) && |s| >= 2
    ensures |c| > 0 && c[0] < |s| && Choices(c[1..], |s| - 1)
    ensures var t := Swapped(s, c[0], |s| - 1);
            Shuffled(s, c) == Shuffled(t[..|s| - 1], c[1..]) + [t[|s| - 1]] && t[|s| - 1] == s[c[0]]
  {
  }

  /**
   * The first choice selects the element for the last place; the element that was there fills
   * the gap, and the other choices shuffle what is left.
   */
  lemma LastPlace<E>(s: seq<E>, c: seq<nat>)
    requires Choices(c, |s|) && |s| >= 2
    ensures |c| == |s| - 1 && c[0] < |s| && Choices(c[1..], |s| - 1)
    ensures var n := |s| - 1; Shuffled(s, c) == Shuffled(s[c[0] := s[n]][..n], c[1..]) + [s[c[0]]]
  {
    hide Shuffled;
    Drawn(s, c);
    var n := |s| - 1;
    assert Swapped(s, c[0], n)[..n] == s[c[0] := s[n]][..n];
  }

  lemma {:induction false} ShuffledPermutes<E>(s: seq<E>, c: seq<nat>)
    requires Choices(c, |s|)
    ensures multiset(Shuffled(s, c)) == multiset(s)
    decreases |s|
  {
    if |s| >= 2 {
      var t := Swapped(s, c[0], |s| - 1);
      ShuffledPermutes(t[..|s| - 1], c[1..]);
      assert t == t[..|s| - 1] + [t[|s| - 1]];
    }
  }

  lemma SameSize<E>(s: seq<E>, t: seq<E>)
    requires multiset(s) == multiset(t)
    ensures |s| == |t|
  {
    assert |s| == |multiset(s)| == |multiset(t)| == |t|;
  }

  lemma SameFront<E>(s: seq<E>, t: seq<E>, n: nat)
    requires multiset(s) == multiset(t) && |s| == |t| == n + 1 && s[n] == t[n]
    ensures multiset(s[..n]) == multiset(t[..n])
  {
    assert s == s[..n] + [s[n]] && t == t[..n] + [t[n]];
    assert multiset(s[..n]) == multiset(s) - multiset{s[n]};
    assert multiset(t[..n]) == multiset(t) - multiset{t[n]};
  }

  lemma Found<E>(x: E, s: seq<E>) returns (j: nat)
    requires x in multiset(s)
    ensures j < |s| && s[j] == x
  {
    j :| 0 <= j < |s| && s[j] == x;
  }

  /** Every order of the elements comes out for some choices. */
  lemma {:induction false} EveryOrder<E>(s: seq<E>, t: seq<E>) returns (c: seq<nat>)
    requires multiset(s) == multiset(t)
    ensures Choices(c, |s|) && Shuffled(s, c) == t
    decreases |s|
  {
    hide Shuffled;
    hide Swapped;
    SameSize(s, t);
    var n := |s| - 1;
    if n < 1 {
      c := [];
      FewShuffled(s, t);
    } else {
      assert t[n] in multiset(t);
      var j := Found(t[n], s);
      var u := Swapped(s, j, n);
      SwappedLast(s, j);
      SameFront(u, t, n);
      var rest := EveryOrder(u[..n], t[..n]);
      c := [j] + rest;
      assert c[1..] == rest;
      Drawn(s, c);
      assert t == t[..n] + [t[n]];
    }
  }

  lemma FewShuffled<E>(s: seq<E>, t: seq<E>)
    requires multiset(s) == multiset(t) && |s| == |t| < 2
    ensures Choices([], |s|) && Shuffled(s, []) == t
  {
    if |s| == 1 {
      assert t[0] in multiset(s);
    }
  }

  lemma SwappedLast<E>(s: seq<E>, j: nat)
    requires j < |s|
    ensures Swapped(s, j, |s| - 1)[|s| - 1] == s[j]
    ensures Distinct(s) ==> Distinct(Swapped(s, j, |s| - 1)[..|s| - 1])
  {
  }

  ghost predicate Distinct<E>(s: seq<E>) {
    forall i, j :: 0 <= i < j < |s| ==> s[i] != s[j]
  }

  /** Different choices give different orders, so uniform choices give a uniform order. */
  lemma {:induction false} OneWayEach<E>(s: seq<E>, c: seq<nat>, d: seq<nat>)
    requires Distinct(s) && Choices(c, |s|) && Choices(d, |s|) && Shuffled(s, c) == Shuffled(s, d)
    ensures c == d
    decreases |s|
  {
    hide Shuffled;
    hide Swapped;
    if |s| >= 2 {
      var n := |s| - 1;
      Drawn(s, c);
      Drawn(s, d);
      var t, u := Swapped(s, c[0], n), Swapped(s, d[0], n);
      assert t[n] == Shuffled(s, c)[n] && u[n] == Shuffled(s, d)[n];
      assert c[0] == d[0];
      assert Shuffled(t[..n], c[1..]) == Shuffled(s, c)[..n];
      assert Shuffled(t[..n], d[1..]) == Shuffled(s, d)[..n];
      SwappedLast(s, c[0]);
      OneWayEach(t[..n], c[1..], d[1..]);
      assert c == [c[0]] + c[1..] && d == [d[0]] + d[1..];
    } else {
      assert c == [] && d == [];
    }
  }

  /** ShuffleRange shuffles [begin, end) and leaves the rest alone. */
  method ShuffleRange<E>(choices: seq<nat>, begin: nat, end: nat, v: seq<E>) returns (r: seq<E>)
    requires begin <= end <= |v| && Choices(choices, end - begin)
    ensures r == v[..begin] + Shuffled(v[begin..end], choices) + v[end..]
  {
    hide Choices;
    r := v;
    var width, k := end - begin, 0;
    assert choices[0..] == choices;
    ghost var goal := v[..begin] + Shuffled(v[begin..end], choices) + v[end..];
    while width >= 2
      invariant 0 <= width <= end - begin && |r| == |v| && k <= |choices| && Choices(choices[k..], width)
      invariant goal == r[..begin] + Shuffled(r[begin..begin + width], choices[k..]) + r[begin + width..]
    {
      hide Shuffled;
      FirstChoice(choices[k..], width);
      var last := begin + width - 1;
      var selected := begin + choices[k];
      ghost var was := r;
      r := r[selected := r[last]][last := r[selected]];
      Shrunk(was, begin, width, choices[k..], r);
      assert choices[k..][1..] == choices[k + 1..];
      width, k := width - 1, k + 1;
    }
    assert r == r[..begin] + r[begin..begin + width] + r[begin + width..];
  }

  method ShuffleAll<E>(choices: seq<nat>, v: seq<E>) returns (r: seq<E>)
    requires Choices(choices, |v|)
    ensures r == Shuffled(v, choices)
  {
    hide Shuffled;
    hide Choices;
    r := ShuffleRange(choices, 0, |v|, v);
    assert v[0..|v|] == v;
    assert v[..0] + Shuffled(v, choices) + v[|v|..] == Shuffled(v, choices);
  }

  lemma Shrunk<E>(s: seq<E>, begin: nat, width: nat, c: seq<nat>, r: seq<E>)
    requires begin + width <= |s| && width >= 2 && Choices(c, width)
    requires r == Swapped(s, begin + c[0], begin + width - 1)
    ensures s[..begin] + Shuffled(s[begin..begin + width], c) + s[begin + width..]
         == r[..begin] + Shuffled(r[begin..begin + width - 1], c[1..]) + r[begin + width - 1..]
  {
    hide Shuffled;
    var u := s[begin..begin + width];
    var t := Swapped(u, c[0], width - 1);
    Drawn(u, c);
    assert t == r[begin..begin + width];
    hide Swapped;
    hide Choices;
    assert t[..width - 1] == r[begin..begin + width - 1];
    assert r[begin + width - 1..] == [t[width - 1]] + r[begin + width..];
    assert r[begin + width..] == s[begin + width..] && r[..begin] == s[..begin];
  }

  // ---- Index vectors ----

  function Range(lo: nat, hi: nat): (r: seq<nat>)
    requires lo <= hi
    ensures |r| == hi - lo && forall i :: 0 <= i < |r| ==> r[i] == lo + i
    decreases hi - lo
  {
    if lo == hi then [] else [lo] + Range(lo + 1, hi)
  }

  predicate Indexes(order: seq<nat>, n: nat) {
    forall i :: 0 <= i < |order| ==> order[i] < n
  }

  /** The elements of s that an index vector names, in its order. */
  function Picked<E>(s: seq<E>, order: seq<nat>): (r: seq<E>)
    requires Indexes(order, |s|)
    ensures |r| == |order| && forall i :: 0 <= i < |r| ==> r[i] == s[order[i]]
  {
    seq(|order|, i requires 0 <= i < |order| => s[order[i]])
  }

  ghost predicate Permutes(order: seq<nat>, lo: nat, hi: nat)
    requires lo <= hi
  {
    multiset(order) == multiset(Range(lo, hi))
  }

  lemma PermutesInside(order: seq<nat>, lo: nat, hi: nat)
    requires lo <= hi && Permutes(order, lo, hi)
    ensures |order| == hi - lo && forall i :: 0 <= i < |order| ==> lo <= order[i] < hi
  {
    assert |order| == |multiset(order)| == |Range(lo, hi)|;
    forall i | 0 <= i < |order|
      ensures lo <= order[i] < hi
    {
      assert order[i] in multiset(Range(lo, hi));
    }
  }

  lemma Without<E>(s: seq<E>, j: nat)
    requires j < |s|
    ensures s == s[..j] + [s[j]] + s[j + 1..]
    ensures multiset(s) == multiset(s[..j] + s[j + 1..]) + multiset{s[j]}
  {
    assert s == s[..j] + [s[j]] + s[j + 1..];
  }

  lemma PickedWithout<E>(s: seq<E>, b: seq<nat>, j: nat)
    requires Indexes(b, |s|) && j < |b|
    ensures Indexes(b[..j] + b[j + 1..], |s|)
    ensures multiset(Picked(s, b)) == multiset(Picked(s, b[..j] + b[j + 1..])) + multiset{s[b[j]]}
  {
    var p, rest := Picked(s, b), b[..j] + b[j + 1..];
    Without(p, j);
    assert Indexes(rest, |s|) && Picked(s, rest) == p[..j] + p[j + 1..];
  }

  lemma {:induction false} PickedPermutes<E>(s: seq<E>, a: seq<nat>, b: seq<nat>)
    requires multiset(a) == multiset(b) && Indexes(a, |s|) && Indexes(b, |s|)
    ensures multiset(Picked(s, a)) == multiset(Picked(s, b))
    decreases |a|
  {
    hide Picked;
    hide Indexes;
    SameSize(a, b);
    if a != [] {
      assert a[0] in multiset(a);
      var j := Found(a[0], b);
      var x, y := a[..0] + a[1..], b[..j] + b[j + 1..];
      Without(a, 0);
      Without(b, j);
      PickedWithout(s, a, 0);
      PickedWithout(s, b, j);
      Cancelled(multiset(a), multiset(x), multiset(y), a[0]);
      PickedPermutes(s, x, y);
    } else {
      assert b == a;
    }
  }

  lemma Cancelled<E>(m: multiset<E>, x: multiset<E>, y: multiset<E>, e: E)
    requires m == x + multiset{e} && m == y + multiset{e}
    ensures x == y
  {
    assert x == m - multiset{e} && y == m - multiset{e};
  }

  lemma PickedConcat<E>(s: seq<E>, a: seq<nat>, b: seq<nat>)
    requires Indexes(a, |s|) && Indexes(b, |s|)
    ensures Indexes(a + b, |s|) && Picked(s, a + b) == Picked(s, a) + Picked(s, b)
  {
  }

  lemma SwappedPicked<E>(s: seq<E>, order: seq<nat>, i: nat, j: nat)
    requires Indexes(order, |s|) && i < |order| && j < |order|
    ensures Indexes(Swapped(order, i, j), |s|)
    ensures Picked(s, Swapped(order, i, j)) == Swapped(Picked(s, order), i, j)
  {
  }

  /** Shuffling the indexes of some elements shuffles the elements. */
  lemma {:induction false} ShuffledPicked<E>(s: seq<E>, order: seq<nat>, c: seq<nat>)
    requires Indexes(order, |s|) && Choices(c, |order|)
    ensures Indexes(Shuffled(order, c), |s|) && Picked(s, Shuffled(order, c)) == Shuffled(Picked(s, order), c)
    decreases |order|
  {
    hide Shuffled;
    hide Swapped;
    hide Choices;
    if |order| < 2 {
      FewChoices(order, c);
      FewChoices(Picked(s, order), c);
    } else {
      var n := |order| - 1;
      FirstChoice(c, |order|);
      var t := Swapped(order, c[0], n);
      SwappedPicked(s, order, c[0], n);
      ShuffledPicked(s, t[..n], c[1..]);
      Drawn(order, c);
      Drawn(Picked(s, order), c);
      FrontPicked(s, t, n);
      PickedConcat(s, Shuffled(t[..n], c[1..]), [t[n]]);
    }
  }

  lemma FewChoices<E>(s: seq<E>, c: seq<nat>)
    requires |s| < 2 && Choices(c, |s|)
    ensures Shuffled(s, c) == s
  {
  }

  lemma FrontPicked<E>(s: seq<E>, t: seq<nat>, n: nat)
    requires |t| == n + 1 && Indexes(t, |s|)
    ensures Indexes(t[..n], |s|) && Indexes([t[n]], |s|)
    ensures Picked(s, t)[..n] == Picked(s, t[..n]) && Picked(s, [t[n]]) == [Picked(s, t)[n]]
  {
  }
}
