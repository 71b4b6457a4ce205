/** The int64 map of int-hm-seq.c, proved against a plain map. */
module IntHashMap {
  import opened Bytes
  import opened Probing
  import opened IntKeys

  const REMOVED: int64 := 0x7FFF_FFFF_FFFF_FFFF

  type Contents = map<int64, int64>

  /** The table cannot hold the two sentinels as keys. */
  predicate IsKey(k: int64) {
    k != EMPTY && k != REMOVED
  }

  lemma Sentinels(k: int64)
    ensures IsKey(k) <==> k != -0x8000_0000_0000_0000 && k != 0x7FFF_FFFF_FFFF_FFFF
  {
  }

  function AsCell(k: int64): Cell<int64> {
    if k == EMPTY then Empty else if k == REMOVED then Tomb else Key(k)
  }

  /** The cells hold exactly the bindings m; the value of a cell without a key is EMPTY. */
  ghost predicate Coherent(mix: Mix, lg: nat, keys: seq<int64>, vals: seq<int64>, m: Contents, at: map<int64, nat>) {
    && |keys| == |vals| == Pow2(lg)
    && at.Keys == m.Keys
    && Table(View(keys, AsCell), Homes(mix, lg), at)
    && (forall k :: k in m ==> at[k] < |vals| && vals[at[k]] == m[k])
    && (forall i :: 0 <= i < |keys| && !IsKey(keys[i]) ==> vals[i] == EMPTY)
  }

  ghost predicate Searched(mix: Mix, lg: nat, keys: seq<int64>, k: int64, i: int) {
    Probed(View(keys, AsCell), k, Home(mix, k, lg), i)
  }

  ghost function Used(keys: seq<int64>): nat {
    Occupied(View(keys, AsCell))
  }

  lemma SearchStart(mix: Mix, lg: nat, keys: seq<int64>, k: int64)
    requires |keys| == Pow2(lg)
    ensures 0 <= Home(mix, k, lg) < |keys| && Searched(mix, lg, keys, k, Home(mix, k, lg))
  {
    hide Pow2;
    hide BitAnd;
    MaskedIndex(mix(k), lg);
    ProbedStart(View(keys, AsCell), k, Home(mix, k, lg));
  }

  lemma SearchStep(mix: Mix, lg: nat, keys: seq<int64>, k: int64, i: int, e: int)
    requires |keys| == Pow2(lg) && 0 <= i < |keys| && Searched(mix, lg, keys, k, i)
    requires keys[i] != EMPTY && keys[i] != k
    requires 0 <= e < |keys| && keys[e] == EMPTY
    ensures var i' := BitAnd(i + 1, |keys| - 1);
            && 0 <= i' < |keys|
            && Searched(mix, lg, keys, k, i')
            && 0 <= Distance(i', e, |keys|) < Distance(i, e, |keys|)
  {
    hide Pow2;
    hide BitAnd;
    hide Probed;
    MaskedIndex(i, lg);
    ProbedStep(View(keys, AsCell), k, Home(mix, k, lg), i, e);
  }

  lemma SearchEnd(mix: Mix, lg: nat, keys: seq<int64>, vals: seq<int64>, m: Contents, at: map<int64, nat>, k: int64,
                  i: int)
    requires Coherent(mix, lg, keys, vals, m, at) && IsKey(k)
    requires 0 <= i < |keys| && Searched(mix, lg, keys, k, i)
    requires keys[i] == EMPTY || keys[i] == k
    ensures at.Keys == m.Keys
    ensures keys[i] == EMPTY <==> k !in m
    ensures k in m ==> i == at[k] && vals[i] == m[k]
  {
    hide Pow2;
    hide BitAnd;
    hide Probed;
    hide Table;
    if keys[i] == EMPTY {
      AbsentAtEmpty(View(keys, AsCell), Homes(mix, lg), at, k, i);
    } else {
      PresentAtMatch(View(keys, AsCell), Homes(mix, lg), at, i);
    }
  }

  lemma LiveCell(mix: Mix, lg: nat, keys: seq<int64>, vals: seq<int64>, m: Contents, at: map<int64, nat>, i: nat)
    requires Coherent(mix, lg, keys, vals, m, at) && i < |keys| == |vals| && IsKey(keys[i])
    ensures keys[i] in m && keys[i] in at && at[keys[i]] == i && vals[i] == m[keys[i]]
    ensures forall k :: k in at && at[k] == i ==> k == keys[i]
  {
    hide Table;
    PresentAtMatch(View(keys, AsCell), Homes(mix, lg), at, i);
  }

  lemma CellsOfKeys(mix: Mix, lg: nat, keys: seq<int64>, vals: seq<int64>, m: Contents, at: map<int64, nat>)
    requires Coherent(mix, lg, keys, vals, m, at)
    ensures at.Keys == m.Keys
    ensures forall k :: k in at ==> IsKey(k) && at[k] < |keys| && keys[at[k]] == k
  {
    hide Table;
    CellOfEachKey(View(keys, AsCell), Homes(mix, lg), at);
  }

  lemma InsertCoherent(mix: Mix, lg: nat, keys: seq<int64>, vals: seq<int64>, m: Contents, at: map<int64, nat>,
                       k: int64, v: int64, i: nat)
    requires Coherent(mix, lg, keys, vals, m, at) && IsKey(k) && k !in m
    requires i < |keys| && keys[i] == EMPTY && Searched(mix, lg, keys, k, i)
    ensures Coherent(mix, lg, keys[i := k], vals[i := v], m[k := v], at[k := i])
    ensures Used(keys[i := k]) == Used(keys) + 1
  {
    hide Pow2;
    hide BitAnd;
    hide Table;
    hide Reaches;
    hide Occupied;
    var cells := View(keys, AsCell);
    CellOfEachKey(cells, Homes(mix, lg), at);
    InsertKey(cells, Homes(mix, lg), at, k, i);
    OccupiedUpdate(cells, i, Key(k));
    ViewUpdate(keys, AsCell, i, k);
  }

  lemma OverwriteCoherent(mix: Mix, lg: nat, keys: seq<int64>, vals: seq<int64>, m: Contents, at: map<int64, nat>,
                          k: int64, v: int64)
    requires Coherent(mix, lg, keys, vals, m, at) && k in m
    ensures at[k] < |vals| && Coherent(mix, lg, keys, vals[at[k] := v], m[k := v], at)
  {
    hide Table;
    CellOfEachKey(View(keys, AsCell), Homes(mix, lg), at);
  }

  lemma RemoveCoherent(mix: Mix, lg: nat, keys: seq<int64>, vals: seq<int64>, m: Contents, at: map<int64, nat>,
                       k: int64)
    requires Coherent(mix, lg, keys, vals, m, at) && k in m
    ensures at[k] < |keys|
    ensures Coherent(mix, lg, keys[at[k] := REMOVED], vals[at[k] := EMPTY], m - {k}, at - {k})
    ensures Used(keys[at[k] := REMOVED]) == Used(keys)
  {
    hide Table;
    hide Occupied;
    var cells := View(keys, AsCell);
    CellOfEachKey(cells, Homes(mix, lg), at);
    RemoveKey(cells, Homes(mix, lg), at, k);
    OccupiedUpdate(cells, at[k], Tomb);
    ViewUpdate(keys, AsCell, at[k], REMOVED);
  }

  lemma EmptyValue(mix: Mix, lg: nat, keys: seq<int64>, vals: seq<int64>, m: Contents, at: map<int64, nat>, i: nat)
    requires Coherent(mix, lg, keys, vals, m, at) && i < |keys| == |vals| && !IsKey(keys[i])
    ensures vals[i] == EMPTY
  {
  }

  /** The key in cell i, where the table has one. */
  function KeyAt(keys: array<int64>, i: int): int64
    reads keys
  {
    if 0 <= i < keys.Length then keys[i] else EMPTY
  }

  /** Which bindings a rehash keeps: all of them, or those whose value is v. */
  datatype Keep = All | Only(v: int64) {
    predicate Keeps(x: int64) { All? || x == v }
  }

  ghost function Kept(m: Contents, keep: Keep): Contents {
    map k | k in m && keep.Keeps(m[k]) :: m[k]
  }

  /** The copy loop has moved the kept bindings found in the first i cells. */
  ghost predicate Copied(tm: Contents, m: Contents, at: map<int64, nat>, i: int, keep: Keep) {
    && at.Keys == m.Keys
    && (forall k :: k in tm <==> k in m && at[k] < i && keep.Keeps(m[k]))
    && (forall k :: k in tm ==> tm[k] == m[k])
  }

  lemma CopiedKept(m: Contents, at: map<int64, nat>, keep: Keep, tm: Contents, i: nat, k: int64)
    requires Copied(tm, m, at, i, keep) && k in m && at[k] == i && keep.Keeps(m[k])
    requires forall x :: x in at && at[x] == i ==> x == k
    ensures Copied(tm[k := m[k]], m, at, i + 1, keep)
  {
  }

  lemma CopiedFewer(m: Contents, at: map<int64, nat>, keep: Keep, tm: Contents, i: nat, k: int64)
    requires Copied(tm, m, at, i, keep) && k in m && at[k] == i
    ensures k !in tm && |tm| < |m|
  {
    SubsetSize(tm.Keys + {k}, m.Keys);
  }

  lemma CopiedLive(mix: Mix, lg: nat, keys: seq<int64>, vals: seq<int64>, m: Contents, at: map<int64, nat>,
                   keep: Keep, tm: Contents, i: nat)
    requires Coherent(mix, lg, keys, vals, m, at) && Copied(tm, m, at, i, keep)
    requires i < |keys| == |vals| && IsKey(keys[i])
    ensures keep.Keeps(vals[i]) ==> Copied(tm[keys[i] := vals[i]], m, at, i + 1, keep) && keys[i] !in tm && |tm| < |m|
    ensures !keep.Keeps(vals[i]) ==> Copied(tm, m, at, i + 1, keep)
  {
    hide Coherent;
    LiveCell(mix, lg, keys, vals, m, at, i);
    if keep.Keeps(vals[i]) {
      CopiedKept(m, at, keep, tm, i, keys[i]);
      CopiedFewer(m, at, keep, tm, i, keys[i]);
      hide Copied;
    }
  }

  lemma CopiedDead(mix: Mix, lg: nat, keys: seq<int64>, vals: seq<int64>, m: Contents, at: map<int64, nat>,
                   keep: Keep, tm: Contents, i: nat)
    requires Coherent(mix, lg, keys, vals, m, at) && Copied(tm, m, at, i, keep)
    requires i < |keys| && !IsKey(keys[i])
    ensures Copied(tm, m, at, i + 1, keep)
  {
    hide Coherent;
    CellsOfKeys(mix, lg, keys, vals, m, at);
  }

  lemma CopiedEnd(mix: Mix, lg: nat, keys: seq<int64>, vals: seq<int64>, m: Contents, at: map<int64, nat>,
                  keep: Keep, tm: Contents)
    requires Coherent(mix, lg, keys, vals, m, at) && Copied(tm, m, at, |keys|, keep)
    ensures tm == Kept(m, keep) && |tm| <= |m|
    ensures keep.All? ==> tm == m
  {
    hide Table;
    CellsOfKeys(mix, lg, keys, vals, m, at);
    SubsetSize(tm.Keys, m.Keys);
  }

  class IntMap {
    const mix: Mix
    var size: int
    var mask: int
    var elements: int
    var removed: int
    var keys: array<int64>
    var vals: array<int64>
    ghost var lg: nat               // size is 2^lg
    ghost var m: Contents           // the bindings
    ghost var at: map<int64, nat>   // the cell of each key

    /** elements counts insertions, not keys, so it only bounds the number of bindings. */
    ghost predicate Valid()
      reads this, keys, vals
    {
      && keys != vals && keys.Length == vals.Length == size == Pow2(lg) && mask == size - 1 && size >= 16
      && elements >= |m| && removed >= 0
      && Used(keys[..]) <= elements + removed
      && 0x100_0000 * (elements + removed - 1) <= 11744051 * size
      && Coherent(mix, lg, keys[..], vals[..], m, at)
    }

    /** elements + removed > 0.7f * size; the float 0.7 is 11744051 / 2^24. */
    predicate Crowded()
      reads `elements, `removed, `size
    {
      0x100_0000 * (elements + removed) > 11744051 * size
    }

    constructor Sized(mix: Mix, n: int, ghost lg: nat)
      requires n == Pow2(lg) >= 16
      ensures Valid() && m == map[] && this.mix == mix && this.lg == lg && elements == 0 && removed == 0
      ensures fresh(keys) && fresh(vals)
    {
      this.mix := mix;
      size, mask, elements, removed := n, n - 1, 0, 0;
      keys := new int64[n](_ => EMPTY);
      vals := new int64[n](_ => EMPTY);
      this.lg, m, at := lg, map[], map[];
      new;
      OccupiedNone(View(keys[..], AsCell));
    }

    lemma FreeCellExists() returns (e: nat)
      requires Valid()
      ensures e < keys.Length && keys[e] == EMPTY
    {
      hide Pow2;
      hide Occupied;
      hide Coherent;
      e := FreeCell(View(keys[..], AsCell));
    }

    /** The probe loop of get and remove; for a sentinel it stops at the first cell without a key. */
    method Probe(k: int64) returns (i: nat)
      requires Valid()
      ensures i < keys.Length && i < vals.Length && Searched(mix, lg, keys[..], k, i)
      ensures IsKey(k) ==> if k in m then k in at && i == at[k] && keys[i] == k && vals[i] == m[k] else keys[i] == EMPTY
      ensures !IsKey(k) ==> k !in m && !IsKey(keys[i]) && vals[i] == EMPTY
    {
      hide Pow2;
      hide BitAnd;
      hide Used;
      hide Coherent;
      hide Searched;
      ghost var e := FreeCellExists();
      i := BitAnd(mix(k), mask);
      SearchStart(mix, lg, keys[..], k);
      while keys[i] != EMPTY && keys[i] != k
        invariant 0 <= i < keys.Length && Searched(mix, lg, keys[..], k, i)
        decreases Distance(i, e, keys.Length)
      {
        SearchStep(mix, lg, keys[..], k, i, e);
        i := BitAnd(i + 1, mask);
      }
      ProbeEnd(k, i);
    }

    lemma ProbeEnd(k: int64, i: nat)
      requires Valid() && i < keys.Length && Searched(mix, lg, keys[..], k, i) && (keys[i] == EMPTY || keys[i] == k)
      ensures i < vals.Length
      ensures IsKey(k) ==> if k in m then k in at && i == at[k] && keys[i] == k && vals[i] == m[k] else keys[i] == EMPTY
      ensures !IsKey(k) ==> k !in m && !IsKey(keys[i]) && vals[i] == EMPTY
    {
      hide Pow2;
      hide Used;
      hide Coherent;
      hide Searched;
      CellsOfKeys(mix, lg, keys[..], vals[..], m, at);
      if IsKey(k) {
        SearchEnd(mix, lg, keys[..], vals[..], m, at, k, i);
      } else {
        EmptyValue(mix, lg, keys[..], vals[..], m, at, i);
      }
    }

    /**
     * The probe loop of insert and get_location. It is meant to note a tombstone for reuse,
     * but only where the masked index is -1; freed is what is then taken off removed.
     */
    method ProbeForInsert(k: int64) returns (i: int, freed: int)
      requires Valid() && IsKey(k)
      ensures 0 <= i < keys.Length && i < vals.Length && Searched(mix, lg, keys[..], k, i)
      ensures if k in m then k in at && i == at[k] && keys[i] == k && vals[i] == m[k] else keys[i] == EMPTY
      ensures freed == 0
    {
      hide Pow2;
      hide BitAnd;
      hide Used;
      hide Coherent;
      hide Searched;
      ghost var e := FreeCellExists();
      var removedIndex := -1;
      i := BitAnd(mix(k), mask);
      SearchStart(mix, lg, keys[..], k);
      while keys[i] != EMPTY && keys[i] != k
        invariant 0 <= i < keys.Length && Searched(mix, lg, keys[..], k, i)
        invariant removedIndex == -1
        decreases Distance(i, e, keys.Length)
      {
        SearchStep(mix, lg, keys[..], k, i, e);
        i := BitAnd(i + 1, mask);
        if i == -1 && KeyAt(keys, i) == REMOVED {
          removedIndex := i;
        }
      }
      freed := 0;
      if removedIndex != -1 {
        i, freed := removedIndex, 1;
      }
      ProbeEnd(k, i);
    }

    /** The value of k, or EMPTY; the sentinels are never bound. */
    method Get(k: int64) returns (v: int64)
      requires Valid()
      ensures v == if k in m then m[k] else -0x8000_0000_0000_0000
    {
      hide IntMap.Valid;
      hide Searched;
      var i := Probe(k);
      if keys[i] == k {
        return vals[i];
      } else {
        return EMPTY;
      }
    }

    method Insert(k: int64, v: int64)
      requires Valid() && IsKey(k)
      modifies this, keys, vals
      ensures Valid() && m == old(m)[k := v]
      ensures !old(Crowded()) ==> unchanged(`keys, `vals, `size, `lg, `removed) && elements == old(elements) + 1
      ensures old(Crowded()) ==> fresh(keys) && fresh(vals)
      ensures if old(0x100_0000 * (elements + removed) > 11744051 * size)
              then size == 2 * old(size) && elements == |old(m)| + 1 && removed == 0
              else size == old(size)
      decreases if Crowded() then 2 else 0, 0
    {
      hide Used;
      hide Coherent;
      if Crowded() {
        Expand(size * 2);
      }
      InsertUncrowded(k, v);
    }

    method InsertUncrowded(k: int64, v: int64)
      requires Valid() && IsKey(k) && !Crowded()
      modifies `m, `at, `elements, `removed, keys, vals
      ensures Valid() && m == old(m)[k := v] && elements == old(elements) + 1 && removed == old(removed)
    {
      hide Pow2;
      hide Used;
      hide Coherent;
      hide Searched;
      var i, freed := ProbeForInsert(k);
      removed := removed - freed;
      if k in m {
        OverwriteCoherent(mix, lg, keys[..], vals[..], m, at, k, v);
        assert m[k := v].Keys == m.Keys && |m[k := v]| == |m[k := v].Keys|;
        assert keys[..][i := k] == keys[..];
      } else {
        InsertCoherent(mix, lg, keys[..], vals[..], m, at, k, v, i);
        at := at[k := i];
      }
      m := m[k := v];
      keys[i] := k;
      vals[i] := v;
      elements := elements + 1;
      assert keys[..] == old(keys[..])[i := k] && vals[..] == old(vals[..])[i := v];
    }

    method Remove(k: int64)
      requires Valid() && IsKey(k)
      modifies `m, `at, `elements, `removed, keys, vals
      ensures Valid() && m == old(m) - {k}
      ensures elements == old(elements) - (if k in old(m) then 1 else 0)
      ensures removed == old(removed) + (if k in old(m) then 1 else 0)
    {
      hide IntMap.Valid;
      hide Searched;
      var i := Probe(k);
      if keys[i] == k {
        Erase(k, i);
      } else {
        assert m - {k} == m;
      }
    }

    method Erase(k: int64, i: nat)
      requires Valid() && k in m && k in at && i < keys.Length && i == at[k]
      modifies `m, `at, `elements, `removed, keys, vals
      ensures Valid() && m == old(m) - {k} && elements == old(elements) - 1 && removed == old(removed) + 1
    {
      hide Pow2;
      hide Used;
      hide Coherent;
      RemoveCoherent(mix, lg, keys[..], vals[..], m, at, k);
      MinusSize(m, k);
      elements := elements - 1;
      keys[i] := REMOVED;
      vals[i] := EMPTY;
      removed := removed + 1;
      m, at := m - {k}, at - {k};
      assert keys[..] == old(keys[..])[i := REMOVED] && vals[..] == old(vals[..])[i := EMPTY];
    }

    /** The cell of k's value; a key that was absent is added, bound to EMPTY. */
    method GetLocation(k: int64) returns (i: nat)
      requires Valid() && IsKey(k)
      modifies this, keys, vals
      ensures Valid() && m == if k in old(m) then old(m) else old(m)[k := EMPTY]
      ensures i < vals.Length && i < keys.Length && keys[i] == k && k in m && k in at && at[k] == i && vals[i] == m[k]
      ensures !old(Crowded()) ==> unchanged(`keys, `vals)
      ensures old(Crowded()) ==> fresh(keys) && fresh(vals)
      ensures size == if old(0x100_0000 * (elements + removed) > 11744051 * size) then 2 * old(size) else old(size)
    {
      hide Used;
      hide Coherent;
      if Crowded() {
        Expand(size * 2);
      }
      i := Locate(k);
    }

    method Locate(k: int64) returns (i: nat)
      requires Valid() && IsKey(k) && !Crowded()
      modifies `m, `at, `elements, `removed, keys
      ensures Valid() && m == if k in old(m) then old(m) else old(m)[k := EMPTY]
      ensures i < vals.Length && i < keys.Length && keys[i] == k && k in m && k in at && at[k] == i && vals[i] == m[k]
    {
      hide Pow2;
      hide Used;
      hide Searched;
      hide Coherent;
      var j, freed := ProbeForInsert(k);
      removed := removed - freed;
      i := j;
      if keys[i] != k {
        EmptyValue(mix, lg, keys[..], vals[..], m, at, i);
        InsertCoherent(mix, lg, keys[..], vals[..], m, at, k, EMPTY, i);
        elements := elements + 1;
        keys[i] := k;
        m, at := m[k := EMPTY], at[k := i];
        assert keys[..] == old(keys[..])[i := k] && vals[..] == old(vals[..])[i := EMPTY];
      }
    }

    /** An assignment through the pointer that GetLocation returned. */
    method StoreThrough(k: int64, i: nat, v: int64)
      requires Valid() && k in m && k in at && at[k] == i && i < vals.Length
      modifies `m, vals
      ensures Valid() && m == old(m)[k := v]
    {
      hide Pow2;
      hide Used;
      hide Coherent;
      OverwriteCoherent(mix, lg, keys[..], vals[..], m, at, k, v);
      vals[i] := v;
      m := m[k := v];
      assert m.Keys == old(m).Keys && |m| == |m.Keys|;
      assert keys[..] == old(keys[..]) && vals[..] == old(vals[..])[i := v];
    }

    ghost predicate Apart(tmp: IntMap)
      reads `keys, `vals, tmp`keys, tmp`vals
    {
      tmp != this && keys != tmp.keys && keys != tmp.vals && vals != tmp.keys && vals != tmp.vals
    }

    /** One round of the copy loop; tmp is never crowded, so its insert does not expand. */
    method CopyCell(tmp: IntMap, i: nat, keep: Keep)
      requires Valid() && tmp.Valid() && Apart(tmp)
      requires tmp.size >= size && tmp.removed == 0 && tmp.elements == |tmp.m|
      requires i < size && Copied(tmp.m, m, at, i, keep)
      modifies tmp, tmp.keys, tmp.vals
      ensures tmp.Valid() && tmp.removed == 0 && tmp.elements == |tmp.m|
      ensures Copied(tmp.m, m, at, i + 1, keep)
      ensures unchanged(tmp`size, tmp`lg, tmp`keys, tmp`vals)
      decreases 1, 0
    {
      hide Used;
      hide Coherent;
      hide Pow2;
      hide Copied;
      if IsKey(keys[i]) {
        CopiedLive(mix, lg, keys[..], vals[..], m, at, keep, tmp.m, i);
      } else {
        CopiedDead(mix, lg, keys[..], vals[..], m, at, keep, tmp.m, i);
      }
      if keys[i] != EMPTY && keys[i] != REMOVED && keep.Keeps(vals[i]) {
        tmp.Insert(keys[i], vals[i]);
      }
    }

    lemma CopyStart(keep: Keep)
      requires Valid()
      ensures size > 0 && Copied(map[], m, at, 0, keep)
    {
    }

    lemma CopyEnd(keep: Keep, tm: Contents)
      requires Valid() && Copied(tm, m, at, size, keep)
      ensures tm == Kept(m, keep) && |tm| <= |m| && (keep.All? ==> tm == m)
    {
      hide Coherent;
      hide Copied;
      hide Pow2;
      CopiedEnd(mix, lg, keys[..], vals[..], m, at, keep, tm);
    }

    method CopyInto(tmp: IntMap, keep: Keep)
      requires Valid() && tmp.Valid() && Apart(tmp)
      requires tmp.size >= size && tmp.removed == 0 && tmp.elements == 0 && tmp.m == map[]
      modifies tmp, tmp.keys, tmp.vals
      ensures tmp.Valid() && tmp.removed == 0 && tmp.elements == |tmp.m| <= |m|
      ensures tmp.m == Kept(m, keep) && (keep.All? ==> tmp.m == m)
      ensures unchanged(tmp`size, tmp`lg, tmp`keys, tmp`vals)
      decreases 1, 1
    {
      hide IntMap.Valid;
      hide Copied;
      CopyStart(keep);
      var i := 0;
      while i < size
        invariant 0 <= i <= size && tmp.Valid() && tmp.removed == 0 && tmp.elements == |tmp.m|
        invariant unchanged(this, keys, vals, tmp`size, tmp`lg, tmp`keys, tmp`vals)
        invariant Copied(tmp.m, m, at, i, keep)
      {
        CopyCell(tmp, i, keep);
        i := i + 1;
      }
      CopyEnd(keep, tmp.m);
    }

    method Assign(tmp: IntMap)
      requires tmp != this && tmp.Valid() && tmp.mix == mix
      modifies this
      ensures Valid() && m == tmp.m && size == tmp.size && removed == tmp.removed && elements == tmp.elements
      ensures keys == tmp.keys && vals == tmp.vals
    {
      hide Used;
      hide Coherent;
      hide Pow2;
      size, mask, elements, removed := tmp.size, tmp.mask, tmp.elements, tmp.removed;
      keys, vals := tmp.keys, tmp.vals;
      lg, m, at := tmp.lg, tmp.m, tmp.at;
    }

    /** int_hm_seq_expand and int_hm_seq_expand_versioned. */
    method Rehash(newSize: int, keep: Keep)
      requires Valid()
      modifies this
      ensures Valid() && m == Kept(old(m), keep) && (keep.All? ==> m == old(m))
      ensures elements == |m| && removed == 0 && size >= newSize && size >= old(size)
      ensures newSize == 2 * old(size) ==> size == newSize
      ensures fresh(keys) && fresh(vals)
      decreases 1, 2
    {
      hide Used;
      hide Coherent;
      var pow, newLg := GrowTo(size, newSize, lg);
      hide Pow2;
      var tmp := new IntMap.Sized(mix, pow, newLg);
      CopyInto(tmp, keep);
      Assign(tmp);
    }

    method Expand(newSize: int)
      requires Valid()
      modifies this
      ensures Valid() && m == old(m) && elements == |m| && removed == 0
      ensures size >= newSize && size >= old(size)
      ensures newSize >= 2 * old(size) ==> !Crowded()
      ensures newSize == 2 * old(size) ==> size == newSize
      ensures fresh(keys) && fresh(vals)
      decreases 1, 3
    {
      hide Used;
      hide Coherent;
      hide Pow2;
      Rehash(newSize, All);
    }

    /** After this the map holds exactly the bindings whose value is v. */
    method ExpandVersioned(newSize: int, v: int64)
      requires Valid()
      modifies this
      ensures Valid() && elements == |m| && removed == 0
      ensures forall k :: k in m <==> k in old(m) && old(m)[k] == v
      ensures forall k :: k in m ==> m[k] == v
      ensures fresh(keys) && fresh(vals)
    {
      hide Used;
      hide Coherent;
      hide Pow2;
      Rehash(newSize, Only(v));
    }
  }

  /** int_hm_seq_new: at least 16 cells and at least twice as many as asked for. */
  method New(mix: Mix, n: int) returns (ht: IntMap)
    ensures fresh(ht) && fresh(ht.keys) && fresh(ht.vals) && ht.Valid() && ht.m == map[] && ht.mix == mix
    ensures ht.size >= 16 && ht.size >= 2 * n
    ensures ht.size == 16 || ht.size < 4 * n
  {
    assert Pow2(4) == 16 by { assert Pow2(2) == 4; }
    var pow, lg := GrowTo(16, 2 * n, 4);
    ht := new IntMap.Sized(mix, pow, lg);
  }

  // ---- Whole runs ----

  /** DoLocate takes a value's location and stores v there. */
  datatype Op = DoInsert(k: int64, v: int64) | DoRemove(k: int64) | DoGet(k: int64) | DoLocate(k: int64, v: int64)

  /** Only what changes the table must not be given a sentinel. */
  predicate OpOk(op: Op) {
    op.DoGet? || IsKey(op.k)
  }

  function MapStep(m: Contents, op: Op): Contents {
    match op
    case DoInsert(k, v) => m[k := v]
    case DoRemove(k) => m - {k}
    case DoGet(_) => m
    case DoLocate(k, v) => m[k := v]
  }

  function MapRun(ops: seq<Op>): Contents {
    if ops == [] then map[] else MapStep(MapRun(ops[..|ops| - 1]), ops[|ops| - 1])
  }

  /** What the plain map answers: the value a get finds, or EMPTY. */
  function Answer(m: Contents, op: Op): int64 {
    if op.DoGet? && op.k in m then m[op.k] else EMPTY
  }

  method Step(t: IntMap, op: Op) returns (answer: int64)
    requires t.Valid() && OpOk(op)
    modifies t, t.keys, t.vals
    ensures t.Valid() && t.m == MapStep(old(t.m), op) && answer == Answer(old(t.m), op)
    ensures t.keys == old(t.keys) || fresh(t.keys)
    ensures t.vals == old(t.vals) || fresh(t.vals)
  {
    hide IntMap.Valid;
    answer := EMPTY;
    match op
    case DoInsert(k, v) => t.Insert(k, v);
    case DoRemove(k) => t.Remove(k);
    case DoGet(k) => answer := t.Get(k);
    case DoLocate(k, v) =>
      var i := t.GetLocation(k);
      t.StoreThrough(k, i, v);
  }

  /** Over every run from an empty map, every get answers as the plain map would. */
  method Run(mix: Mix, n: int, ops: seq<Op>) returns (answers: seq<int64>)
    requires forall i :: 0 <= i < |ops| ==> OpOk(ops[i])
    ensures |answers| == |ops| && forall i :: 0 <= i < |ops| ==> answers[i] == Answer(MapRun(ops[..i]), ops[i])
  {
    hide IntMap.Valid;
    hide MapStep;
    hide Answer;
    var t := New(mix, n);
    answers := [];
    for i := 0 to |ops|
      invariant fresh(t) && fresh(t.keys) && fresh(t.vals) && t.Valid() && t.m == MapRun(ops[..i])
      invariant |answers| == i && forall j :: 0 <= j < i ==> answers[j] == Answer(MapRun(ops[..j]), ops[j])
    {
      assert ops[..i + 1][..i] == ops[..i];
      var answer := Step(t, ops[i]);
      answers := answers + [answer];
    }
  }
}
