/** The int64 set of int-ht-seq.c, proved against a plain set. */
module IntHashSet {
  import opened Bytes
  import opened Probing
  import opened IntKeys

  function AsCell(k: int64): Cell<int64> {
    if k == EMPTY then Empty else Key(k)
  }

  ghost function Cells(keys: seq<int64>): seq<Cell<int64>> {
    View(keys, AsCell)
  }

  /** The cells hold exactly the members of s, and nothing else is occupied. */
  ghost predicate Coherent(mix: Mix, lg: nat, keys: seq<int64>, s: set<int64>, at: map<int64, nat>) {
    && |keys| == Pow2(lg)
    && at.Keys == s
    && Table(Cells(keys), Homes(mix, lg), at)
    && Occupied(Cells(keys)) == |s|
  }

  lemma HomeInside(mix: Mix, lg: nat, k: int64)
    ensures 0 <= Home(mix, k, lg) < Pow2(lg)
  {
    hide Pow2;
    hide BitAnd;
    MaskedIndex(mix(k), lg);
  }

  lemma Stepped(mix: Mix, lg: nat, keys: seq<int64>, k: int64, i: int, e: int)
    requires |keys| == Pow2(lg) && 0 <= i < |keys| && Probed(Cells(keys), k, Home(mix, k, lg), i)
    requires keys[i] != EMPTY && keys[i] != k && 0 <= e < |keys| && keys[e] == EMPTY
    ensures var i' := BitAnd(i + 1, |keys| - 1);
            && 0 <= i' < |keys|
            && Probed(Cells(keys), k, Home(mix, k, lg), i')
            && 0 <= Distance(i', e, |keys|) < Distance(i, e, |keys|)
  {
    hide Pow2;
    hide BitAnd;
    hide Probed;
    MaskedIndex(i, lg);
    ProbedStep(Cells(keys), k, Home(mix, k, lg), i, e);
  }

  lemma Met(mix: Mix, lg: nat, keys: seq<int64>, s: set<int64>, at: map<int64, nat>, k: int64, i: int)
    requires Coherent(mix, lg, keys, s, at) && k != EMPTY
    requires 0 <= i < |keys| && Probed(Cells(keys), k, Home(mix, k, lg), i)
    requires keys[i] == EMPTY || keys[i] == k
    ensures keys[i] == k <==> k in s
  {
    hide Pow2;
    hide BitAnd;
    hide Probed;
    hide Table;
    if keys[i] == EMPTY {
      AbsentAtEmpty(Cells(keys), Homes(mix, lg), at, k, i);
    } else {
      PresentAtMatch(Cells(keys), Homes(mix, lg), at, i);
    }
  }

  lemma Inserted(mix: Mix, lg: nat, keys: seq<int64>, s: set<int64>, at: map<int64, nat>, k: int64, i: nat)
    requires Coherent(mix, lg, keys, s, at) && k != EMPTY && k !in s
    requires i < |keys| && keys[i] == EMPTY && Probed(Cells(keys), k, Home(mix, k, lg), i)
    ensures Coherent(mix, lg, keys[i := k], s + {k}, at[k := i])
  {
    hide Pow2;
    hide BitAnd;
    hide Table;
    hide Reaches;
    hide Occupied;
    InsertKey(Cells(keys), Homes(mix, lg), at, k, i);
    OccupiedUpdate(Cells(keys), i, Key(k));
    ViewUpdate(keys, AsCell, i, k);
  }

  lemma AllEmpty(mix: Mix, lg: nat, keys: seq<int64>)
    requires |keys| == Pow2(lg) && forall i :: 0 <= i < |keys| ==> keys[i] == EMPTY
    ensures Coherent(mix, lg, keys, {}, map[])
  {
    OccupiedNone(Cells(keys));
  }

  /** One round of the copy loop: what cell i adds to the keys moved so far. */
  lemma MovedCell(mix: Mix, lg: nat, keys: seq<int64>, s: set<int64>, at: map<int64, nat>, to: set<int64>, i: nat)
    requires Coherent(mix, lg, keys, s, at) && i < |keys| && Moved(to, at, i)
    ensures keys[i] == EMPTY ==> Moved(to, at, i + 1)
    ensures keys[i] != EMPTY ==> keys[i] !in to && Moved(to + {keys[i]}, at, i + 1) && |to| < |s|
  {
    hide Table;
    hide Pow2;
    if keys[i] == EMPTY {
      CellOfEachKey(Cells(keys), Homes(mix, lg), at);
    } else {
      PresentAtMatch(Cells(keys), Homes(mix, lg), at, i);
      MovedStep(to, at, i, keys[i]);
    }
  }

  lemma MovedAll(mix: Mix, lg: nat, keys: seq<int64>, s: set<int64>, at: map<int64, nat>, to: set<int64>)
    requires Coherent(mix, lg, keys, s, at) && Moved(to, at, |keys|)
    ensures to == s
  {
    hide Table;
    CellOfEachKey(Cells(keys), Homes(mix, lg), at);
  }

  class IntSet {
    const mix: Mix
    var size: int
    var mask: int
    var elements: int
    var keys: array<int64>
    ghost var lg: nat
    ghost var s: set<int64>
    ghost var at: map<int64, nat>

    /** The last clause leaves a free cell: at most one more than 0.7f * size are in use. */
    ghost predicate Valid()
      reads this, keys
    {
      && keys.Length == size == Pow2(lg) && mask == size - 1 && size >= 16
      && elements == |s| && EMPTY !in s
      && Coherent(mix, lg, keys[..], s, at)
      && 0x100_0000 * (elements - 1) <= 11744051 * size
    }

    /** elements > 0.7f * size; the float 0.7 is 11744051 / 2^24. */
    predicate Crowded()
      reads `elements, `size
    {
      0x100_0000 * elements > 11744051 * size
    }

    /** int_ht_seq_init: a power of two, at least 16 and at least twice what was asked for. */
    constructor (mix: Mix, n: int)
      ensures Valid() && s == {} && this.mix == mix && fresh(keys)
      ensures size >= 2 * n && (size == 16 || size < 4 * n)
    {
      assert Pow2(4) == 16 by { assert Pow2(2) == 4; }
      var pow, newLg := GrowTo(16, 2 * n, 4);
      hide Pow2;
      this.mix := mix;
      size, mask, elements := pow, pow - 1, 0;
      keys := new int64[pow](_ => EMPTY);
      lg, s, at := newLg, {}, map[];
      new;
      AllEmpty(mix, lg, keys[..]);
      hide Coherent;
    }

    /** int_ht_seq_empty keeps the cells and forgets the members. */
    method Clear()
      requires Valid()
      modifies `elements, `s, `at, keys
      ensures Valid() && s == {}
    {
      hide Pow2;
      hide Coherent;
      var i := 0;
      while i < size
        invariant 0 <= i <= size && keys.Length == size
        invariant forall j :: 0 <= j < i ==> keys[j] == EMPTY
      {
        keys[i] := EMPTY;
        i := i + 1;
      }
      elements := 0;
      s, at := {}, map[];
      AllEmpty(mix, lg, keys[..]);
    }

    lemma FreeCellExists() returns (e: nat)
      requires Valid()
      ensures e < keys.Length && keys[e] == EMPTY
    {
      hide Pow2;
      hide Occupied;
      hide Table;
      e := FreeCell(Cells(keys[..]));
    }

    /** The probe loop ends, at k or at an empty cell. */
    method Probe(k: int64) returns (i: nat)
      requires Valid()
      ensures i < keys.Length && Probed(Cells(keys[..]), k, Home(mix, k, lg), i)
      ensures keys[i] == EMPTY || keys[i] == k
      ensures k != EMPTY ==> (keys[i] == k <==> k in s)
    {
      hide Pow2;
      hide BitAnd;
      hide Table;
      hide Occupied;
      hide Probed;
      ghost var e := FreeCellExists();
      i := BitAnd(mix(k), mask);
      HomeInside(mix, lg, k);
      ProbedStart(Cells(keys[..]), k, i);
      while keys[i] != EMPTY && keys[i] != k
        invariant 0 <= i < keys.Length && Probed(Cells(keys[..]), k, Home(mix, k, lg), i)
        decreases Distance(i, e, keys.Length)
      {
        Stepped(mix, lg, keys[..], k, i, e);
        i := BitAnd(i + 1, mask);
      }
      if k != EMPTY {
        Met(mix, lg, keys[..], s, at, k, i);
      }
    }

    /** Membership, except that the sentinel is always reported present. */
    method Exists(k: int64) returns (r: bool)
      requires Valid()
      ensures r <==> k in s || k == -0x8000_0000_0000_0000
    {
      hide IntSet.Valid;
      hide Probed;
      var i := Probe(k);
      r := keys[i] == k;
    }

    method Insert(k: int64)
      requires Valid() && k != EMPTY
      modifies this, keys
      ensures Valid() && s == old(s) + {k}
      ensures size == if old(0x100_0000 * elements > 11744051 * size) then 2 * old(size) else old(size)
      ensures !old(Crowded()) ==> unchanged(`keys, `size)
      ensures old(Crowded()) ==> fresh(keys)
      decreases if Crowded() then 2 else 0, 0
    {
      hide Coherent;
      if Crowded() {
        Expand(size);
      }
      InsertUncrowded(k);
    }

    method InsertUncrowded(k: int64)
      requires Valid() && k != EMPTY && !Crowded()
      modifies `s, `at, `elements, keys
      ensures Valid() && s == old(s) + {k}
    {
      hide Pow2;
      hide Coherent;
      hide Probed;
      var i := Probe(k);
      if keys[i] == EMPTY {
        Inserted(mix, lg, keys[..], s, at, k, i);
        keys[i] := k;
        elements := elements + 1;
        s, at := s + {k}, at[k := i];
        assert keys[..] == old(keys[..])[i := k];
      } else {
        assert s + {k} == s;
      }
    }

    /** One round of the copy loop; a tmp of twice the size is never crowded, so its insert does not expand. */
    method CopyCell(tmp: IntSet, i: nat)
      requires Valid() && tmp.Valid() && tmp != this && keys != tmp.keys
      requires i < size && Moved(tmp.s, at, i)
      modifies tmp, tmp.keys
      ensures tmp.Valid() && Moved(tmp.s, at, i + 1) && tmp.size >= old(tmp.size)
      ensures tmp.keys == old(tmp.keys) || fresh(tmp.keys)
      ensures old(tmp.size) >= 2 * size ==> unchanged(tmp`keys, tmp`size)
      decreases if tmp.size >= 2 * size then 1 else 3, 0
    {
      hide Pow2;
      hide Coherent;
      hide Moved;
      MovedCell(mix, lg, keys[..], s, at, tmp.s, i);
      if keys[i] != EMPTY {
        tmp.Insert(keys[i]);
      }
    }

    /** int_ht_seq_expand: the same members, in a table of at least twice n cells. */
    method Expand(n: int)
      requires Valid()
      modifies this
      ensures Valid() && s == old(s) && size >= 2 * n && fresh(keys)
      ensures n >= old(size) ==> !Crowded()
      ensures n == old(size) ==> size == 2 * n
      decreases if n >= size then 1 else 3, 1
    {
      hide Pow2;
      hide Coherent;
      hide Moved;
      var tmp := new IntSet(mix, n);
      if n == size {
        TwiceAsMany(lg, tmp.lg);
      }
      ghost var newSize := tmp.size;
      MovedNone(at);
      var i := 0;
      while i < size
        invariant 0 <= i <= size && unchanged(this, old(keys)) && Valid()
        invariant tmp.Valid() && fresh(tmp) && fresh(tmp.keys) && tmp.size >= 2 * n && tmp.mix == mix
        invariant Moved(tmp.s, at, i) && (n >= size ==> tmp.size == newSize)
      {
        CopyCell(tmp, i);
        i := i + 1;
      }
      MovedAll(mix, lg, keys[..], s, at, tmp.s);
      size, mask, elements, keys := tmp.size, tmp.mask, tmp.elements, tmp.keys;
      lg, s, at := tmp.lg, tmp.s, tmp.at;
    }
  }

  lemma TwiceAsMany(lg: nat, newLg: nat)
    requires 2 * Pow2(lg) <= Pow2(newLg) < 4 * Pow2(lg)
    ensures Pow2(newLg) == 2 * Pow2(lg)
  {
    Pow2Apart(lg + 1, newLg);
  }

  lemma MovedNone(at: map<int64, nat>)
    ensures Moved({}, at, 0)
  {
  }

  // ---- Whole runs ----

  datatype Op = DoInsert(k: int64) | DoEmpty | DoExists(k: int64)

  function SetStep(s: set<int64>, op: Op): set<int64> {
    match op
    case DoInsert(k) => s + {k}
    case DoEmpty => {}
    case DoExists(_) => s
  }

  function SetRun(s: set<int64>, ops: seq<Op>): set<int64> {
    if ops == [] then s else SetStep(SetRun(s, ops[..|ops| - 1]), ops[|ops| - 1])
  }

  /** Only what changes the table must not be given the sentinel. */
  predicate OpOk(op: Op) {
    op.DoInsert? ==> op.k != EMPTY
  }

  /** What the plain set answers, but for the sentinel. */
  predicate Member(s: set<int64>, k: int64) {
    k in s || k == EMPTY
  }

  /** Every answer over every run, from any initial size, is the plain set's, the sentinel always being present. */
  method Run(mix: Mix, n: int, ops: seq<Op>) returns (answers: seq<bool>)
    requires forall i :: 0 <= i < |ops| ==> OpOk(ops[i])
    ensures |answers| == |ops|
    ensures forall i :: 0 <= i < |ops| && ops[i].DoExists? ==> answers[i] == Member(SetRun({}, ops[..i]), ops[i].k)
  {
    hide IntSet.Valid;
    var t := new IntSet(mix, n);
    answers := [];
    for i := 0 to |ops|
      invariant fresh(t) && fresh(t.keys) && t.Valid() && t.s == SetRun({}, ops[..i])
      invariant |answers| == i
      invariant forall j :: 0 <= j < i && ops[j].DoExists? ==> answers[j] == Member(SetRun({}, ops[..j]), ops[j].k)
    {
      assert ops[..i + 1][..i] == ops[..i];
      var answer := true;
      match ops[i] {
        case DoInsert(k) => t.Insert(k);
        case DoEmpty => t.Clear();
        case DoExists(k) => answer := t.Exists(k);
      }
      answers := answers + [answer];
    }
  }
}
