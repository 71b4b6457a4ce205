/** Linear probing in a table whose size is a power of two, for any kind of key cell. */
module Probing {
  import opened Bytes

  // ---- Masking ----

  function Pow2(k: nat): (p: int)
    ensures p >= 1
  {
    if k == 0 then 1 else 2 * Pow2(k - 1)
  }

  /** Bitwise and of a two's complement number with a mask. */
  function BitAnd(a: int, m: nat): nat
    decreases m
  {
    if m == 0 then 0 else (a % 2) * (m % 2) + 2 * BitAnd(a / 2, m / 2)
  }

  /** Masking with 2^k - 1 is reduction modulo 2^k, for negative numbers too. */
  lemma {:induction false} MaskIsMod(a: int, k: nat)
    ensures BitAnd(a, Pow2(k) - 1) == a % Pow2(k)
    decreases k
  {
    if k > 0 {
      var p := Pow2(k - 1);
      MaskIsMod(a / 2, k - 1);
      assert (2 * p - 1) / 2 == p - 1 && (2 * p - 1) % 2 == 1;
      HalveMod(a, p);
    }
  }

  lemma HalveMod(a: int, p: int)
    requires p > 0
    ensures a % 2 + 2 * ((a / 2) % p) == a % (2 * p)
  {
    var q, h := (a / 2) / p, (a / 2) % p;
    assert a / 2 == p * q + h && a == 2 * (a / 2) + a % 2;
    Doubled(p, q, h, a % 2);
    ModUnique(a, 2 * p, q, a % 2 + 2 * h);
  }

  lemma Doubled(p: int, q: int, h: int, bit: int)
    ensures 2 * (p * q + h) + bit == (2 * p) * q + (bit + 2 * h)
  {
  }

  /** The home slot and the step of every probe loop. */
  lemma {:induction false} MaskedIndex(a: int, k: nat)
    ensures 0 <= BitAnd(a, Pow2(k) - 1) < Pow2(k)
    ensures 0 <= a < Pow2(k) ==> BitAnd(a + 1, Pow2(k) - 1) == Next(a, Pow2(k))
  {
    hide BitAnd;
    hide Pow2;
    MaskIsMod(a, k);
    MaskIsMod(a + 1, k);
    if 0 <= a < Pow2(k) {
      StepMod(a, Pow2(k));
    }
  }

  lemma StepMod(a: nat, m: nat)
    requires a < m
    ensures (a + 1) % m == Next(a, m)
  {
  }

  function Next(i: int, n: int): int {
    if i + 1 == n then 0 else i + 1
  }

  /** Powers of two are at least a factor of two apart. */
  lemma {:induction false} Pow2Apart(a: nat, b: nat)
    requires Pow2(a) <= Pow2(b) < 2 * Pow2(a)
    ensures a == b
  {
    if a > 0 && b > 0 {
      Pow2Apart(a - 1, b - 1);
    }
  }

  /** Double from a power of two until n is reached. */
  method GrowTo(from: int, n: int, ghost fromLg: nat) returns (pow: int, ghost lg: nat)
    requires from == Pow2(fromLg)
    ensures pow == Pow2(lg) && pow >= n && pow >= from
    ensures pow == from || pow < 2 * n
    ensures n == 2 * from ==> pow == n
  {
    pow, lg := from, fromLg;
    while pow < n
      invariant pow == Pow2(lg) && pow >= from
      invariant pow == from || pow < 2 * n
      invariant n == 2 * from ==> pow == from || pow == n
      decreases n - pow
    {
      pow, lg := pow * 2, lg + 1;
    }
  }

  // ---- Cells and paths ----

  /** What a table cell holds, however the table spells it. */
  datatype Cell<+K> = Empty | Tomb | Key(key: K)

  ghost function View<T, K>(s: seq<T>, cell: T -> Cell<K>): (v: seq<Cell<K>>)
    ensures |v| == |s| && forall i :: 0 <= i < |s| ==> v[i] == cell(s[i])
  {
    seq(|s|, i requires 0 <= i < |s| => cell(s[i]))
  }

  lemma ViewUpdate<T, K>(s: seq<T>, cell: T -> Cell<K>, i: nat, x: T)
    requires i < |s|
    ensures View(s[i := x], cell) == View(s, cell)[i := cell(x)]
  {
  }

  /** p is met by a probe that starts at h, before it reaches j. */
  predicate Between(h: int, p: int, j: int) {
    if h <= j then h <= p < j else p >= h || p < j
  }

  /** A probe from h gets to j without meeting an empty cell. */
  ghost predicate Reaches<K>(cells: seq<Cell<K>>, h: int, j: int) {
    forall p :: 0 <= p < |cells| && Between(h, p, j) ==> !cells[p].Empty?
  }

  function Distance(i: int, e: int, n: int): int {
    if i <= e then e - i else n - i + e
  }

  /** A probe from h to i met neither an empty cell nor the key k. */
  ghost predicate Probed<K>(cells: seq<Cell<K>>, k: K, h: int, i: int) {
    && 0 <= h < |cells| && 0 <= i < |cells|
    && Reaches(cells, h, i)
    && forall p :: 0 <= p < |cells| && Between(h, p, i) ==> cells[p] != Key(k)
  }

  lemma ProbedStart<K>(cells: seq<Cell<K>>, k: K, h: int)
    requires 0 <= h < |cells|
    ensures Probed(cells, k, h, h)
  {
  }

  /** One more step cannot close the circle, and comes nearer to the empty cell e. */
  lemma ProbedStep<K>(cells: seq<Cell<K>>, k: K, h: int, i: int, e: int)
    requires Probed(cells, k, h, i) && !cells[i].Empty? && cells[i] != Key(k)
    requires 0 <= e < |cells| && cells[e].Empty?
    ensures Probed(cells, k, h, Next(i, |cells|))
    ensures 0 <= Distance(Next(i, |cells|), e, |cells|) < Distance(i, e, |cells|)
  {
    assert !Between(h, e, i);
  }

  // ---- Tables ----

  ghost predicate Placed<K>(cells: seq<Cell<K>>, home: K -> int, k: K, j: nat) {
    j < |cells| && cells[j] == Key(k) && 0 <= home(k) < |cells| && Reaches(cells, home(k), j)
  }

  /** Each key of `at` sits in that one cell, where a probe from its home finds it. */
  ghost predicate Table<K>(cells: seq<Cell<K>>, home: K -> int, at: map<K, nat>) {
    && (forall k :: k in at ==> Placed(cells, home, k, at[k]))
    && (forall i :: 0 <= i < |cells| && cells[i].Key? ==> cells[i].key in at && at[cells[i].key] == i)
  }

  /** A probe that ends at an empty cell without meeting the key proves its absence. */
  lemma AbsentAtEmpty<K>(cells: seq<Cell<K>>, home: K -> int, at: map<K, nat>, k: K, i: nat)
    requires Table(cells, home, at)
    requires Probed(cells, k, home(k), i) && cells[i].Empty?
    ensures k !in at
  {
    forall x | x in at
      ensures x != k
    {
      assert Placed(cells, home, x, at[x]);
    }
  }

  lemma PresentAtMatch<K>(cells: seq<Cell<K>>, home: K -> int, at: map<K, nat>, i: nat)
    requires Table(cells, home, at) && i < |cells| && cells[i].Key?
    ensures cells[i].key in at && at[cells[i].key] == i
    ensures forall k :: k in at && at[k] == i ==> k == cells[i].key
  {
    forall k | k in at
      ensures Placed(cells, home, k, at[k])
    {
    }
  }

  lemma CellOfEachKey<K>(cells: seq<Cell<K>>, home: K -> int, at: map<K, nat>)
    requires Table(cells, home, at)
    ensures forall k :: k in at ==> at[k] < |cells| && cells[at[k]] == Key(k)
  {
    forall k | k in at
      ensures Placed(cells, home, k, at[k])
    {
    }
  }

  /** A new key in an empty cell or a tombstone that its probe passes. */
  lemma InsertKey<K>(cells: seq<Cell<K>>, home: K -> int, at: map<K, nat>, k: K, i: nat)
    requires Table(cells, home, at) && k !in at
    requires i < |cells| && !cells[i].Key? && 0 <= home(k) < |cells| && Reaches(cells, home(k), i)
    ensures Table(cells[i := Key(k)], home, at[k := i])
  {
    var cells', at' := cells[i := Key(k)], at[k := i];
    forall x | x in at'
      ensures Placed(cells', home, x, at'[x])
    {
      if x != k {
        assert Placed(cells, home, x, at[x]);
      }
    }
  }

  /** A tombstone keeps every other path open. */
  lemma RemoveKey<K>(cells: seq<Cell<K>>, home: K -> int, at: map<K, nat>, k: K)
    requires Table(cells, home, at) && k in at
    ensures at[k] < |cells|
    ensures Table(cells[at[k] := Tomb], home, at - {k})
  {
    assert Placed(cells, home, k, at[k]);
    var cells', at' := cells[at[k] := Tomb], at - {k};
    forall x | x in at'
      ensures Placed(cells', home, x, at'[x])
    {
      assert Placed(cells, home, x, at[x]);
    }
  }

  // ---- Counting ----

  ghost function Occupied<K>(cells: seq<Cell<K>>): (n: nat)
    ensures n <= |cells|
  {
    if cells == [] then 0
    else Occupied(cells[..|cells| - 1]) + if cells[|cells| - 1].Empty? then 0 else 1
  }

  lemma {:induction false} OccupiedUpdate<K>(cells: seq<Cell<K>>, i: nat, c: Cell<K>)
    requires i < |cells|
    ensures Occupied(cells[i := c]) ==
            Occupied(cells) - (if cells[i].Empty? then 0 else 1) + if c.Empty? then 0 else 1
    decreases |cells|
  {
    var n := |cells| - 1;
    if i < n {
      assert cells[i := c][..n] == cells[..n][i := c];
      OccupiedUpdate(cells[..n], i, c);
    } else {
      assert cells[i := c][..n] == cells[..n];
    }
  }

  lemma {:induction false} OccupiedNone<K>(cells: seq<Cell<K>>)
    requires forall i :: 0 <= i < |cells| ==> cells[i].Empty?
    ensures Occupied(cells) == 0
    decreases |cells|
  {
    if cells != [] {
      OccupiedNone(cells[..|cells| - 1]);
    }
  }

  lemma {:induction false} FreeCell<K>(cells: seq<Cell<K>>) returns (e: nat)
    requires Occupied(cells) < |cells|
    ensures e < |cells| && cells[e].Empty?
    decreases |cells|
  {
    var n := |cells| - 1;
    if cells[n].Empty? {
      e := n;
    } else {
      e := FreeCell(cells[..n]);
    }
  }

  // ---- Rehashing ----

  /** The copy loop of a rehash has moved the keys that sit in the first i cells. */
  ghost predicate Moved<K(!new)>(to: set<K>, at: map<K, nat>, i: int) {
    forall k :: k in to <==> k in at && at[k] < i
  }

  lemma MovedStep<K(!new)>(to: set<K>, at: map<K, nat>, i: int, k: K)
    requires Moved(to, at, i)
    requires k in at && at[k] == i && forall x :: x in at && at[x] == i ==> x == k
    ensures Moved(to + {k}, at, i + 1) && |to| < |at.Keys|
  {
    SubsetSize(to + {k}, at.Keys);
  }

  lemma {:induction false} SubsetSize<T>(a: set<T>, b: set<T>)
    requires a <= b
    ensures |a| <= |b|
    decreases a
  {
    if a != {} {
      var x :| x in a;
      SubsetSize(a - {x}, b - {x});
    }
  }

  lemma MinusSize<K, V>(m: map<K, V>, k: K)
    requires k in m
    ensures |m - {k}| == |m| - 1
  {
    assert (m - {k}).Keys == m.Keys - {k};
  }
}
