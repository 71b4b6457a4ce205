/** Scalar kv_store elements: their equality and hash (kv_store.c). */
module KvElement {
  import opened Bytes

  /** kv_element_t without the container and double variants. */
  datatype Element =
    | NoneValue(bits: int64)
    | I64(i: int64)
    | Ptr(p: int64)
    | Str(s: string)
    | StrStatic(s: string)

  /** kv_return_t. */
  datatype Return = SUCCESS | EQUAL | NOT_EQUAL | DOES_NOT_EXIST

  predicate IsString(e: Element) {
    e.Str? || e.StrStatic?
  }

  /** kv_element_equal: equal types, or two strings of either kind, and equal contents. */
  predicate Equal(a: Element, b: Element) {
    match a
    case NoneValue(x) => b.NoneValue? && x == b.bits
    case I64(x) => b.I64? && x == b.i
    case Ptr(x) => b.Ptr? && x == b.p
    case Str(x) => IsString(b) && x == b.s
    case StrStatic(x) => IsString(b) && x == b.s
  }

  /** One representative of each class of equal elements. */
  function Canon(e: Element): Element {
    if e.StrStatic? then Str(e.s) else e
  }

  /** Contents decide; the two kinds of string count as one type, other types never mix. */
  lemma EqualExactly(x: int64, y: int64, s: string, t: string)
    ensures Equal(NoneValue(x), NoneValue(y)) <==> x == y
    ensures Equal(I64(x), I64(y)) <==> x == y
    ensures Equal(Ptr(x), Ptr(y)) <==> x == y
    ensures Equal(Str(s), Str(t)) <==> s == t
    ensures Equal(StrStatic(s), StrStatic(t)) <==> s == t
    ensures Equal(Str(s), StrStatic(t)) <==> s == t
    ensures Equal(StrStatic(s), Str(t)) <==> s == t
  {
  }

  lemma TypesApart(a: Element, b: Element)
    requires Equal(a, b)
    ensures a.NoneValue? == b.NoneValue? && a.I64? == b.I64? && a.Ptr? == b.Ptr?
  {
  }

  /** Which of the two hash functions is folded in. */
  lemma HashExactly(hs: Hashing, x: int64, s: string)
    ensures HashOf(hs, NoneValue(x)) == hs.mix(x) && HashOf(hs, I64(x)) == hs.mix(x) && HashOf(hs, Ptr(x)) == hs.mix(x)
    ensures HashOf(hs, Str(s)) == hs.text(s) && HashOf(hs, StrStatic(s)) == hs.text(s)
  {
  }

  lemma EqualIsCanon(a: Element, b: Element)
    ensures Equal(a, b) <==> Canon(a) == Canon(b)
  {
  }

  /** The two hash functions, left arbitrary. */
  datatype Hashing = Hashing(mix: int64 -> bv64, text: string -> bv64)

  /** What kv_element_hash folds into the running hash. */
  function HashOf(hs: Hashing, e: Element): bv64 {
    match e
    case NoneValue(x) => hs.mix(x)
    case I64(x) => hs.mix(x)
    case Ptr(x) => hs.mix(x)
    case Str(x) => hs.text(x)
    case StrStatic(x) => hs.text(x)
  }

  lemma EqualElementsHashAlike(hs: Hashing, a: Element, b: Element)
    requires Equal(a, b)
    ensures HashOf(hs, a) == HashOf(hs, b)
  {
  }
}

/** The open-addressing map of kv_store.c, proved against a plain map. */
module KvStore {
  import opened KvElement
  import opened Probing

  /** A key or value cell: KV_NONE_PTR, KV_DELETED_PTR or an element. */
  datatype Pointer = NonePtr | DeletedPtr | Elem(e: Element)

  type Contents = map<Element, Element>

  function AsCell(p: Pointer): Cell<Element> {
    match p
    case NonePtr => Empty
    case DeletedPtr => Tomb
    case Elem(e) => Key(Canon(e))
  }

  function Home(hs: Hashing, key: Element, lg: nat): int {
    BitAnd(HashOf(hs, key) as int, Pow2(lg) - 1)
  }

  ghost function Homes(hs: Hashing, lg: nat): Element -> int {
    key => Home(hs, key, lg)
  }

  lemma HomeInside(hs: Hashing, key: Element, lg: nat)
    ensures 0 <= Home(hs, key, lg) < Pow2(lg)
    ensures Homes(hs, lg)(Canon(key)) == Home(hs, key, lg)
  {
    hide BitAnd;
    hide Pow2;
    MaskedIndex(HashOf(hs, key) as int, lg);
  }

  /** The cells hold exactly the bindings m, the key k in cell at[k]. */
  ghost predicate Coherent(hs: Hashing, lg: nat, keys: seq<Pointer>, vals: seq<Pointer>, m: Contents,
                           at: map<Element, nat>) {
    && |keys| == |vals| == Pow2(lg)
    && at.Keys == m.Keys
    && Table(View(keys, AsCell), Homes(hs, lg), at)
    && forall k :: k in m ==> at[k] < |vals| && vals[at[k]] == Elem(m[k])
  }

  /** A probe from the key's home to i, past nothing empty and not past the key. */
  ghost predicate Searched(hs: Hashing, lg: nat, keys: seq<Pointer>, key: Element, i: int) {
    Probed(View(keys, AsCell), Canon(key), Home(hs, key, lg), i)
  }

  ghost function Used(keys: seq<Pointer>): nat {
    Occupied(View(keys, AsCell))
  }

  lemma SearchStart(hs: Hashing, lg: nat, keys: seq<Pointer>, key: Element)
    requires |keys| == Pow2(lg)
    ensures 0 <= Home(hs, key, lg) < |keys| && Searched(hs, lg, keys, key, Home(hs, key, lg))
  {
    hide Pow2;
    hide BitAnd;
    HomeInside(hs, key, lg);
    ProbedStart(View(keys, AsCell), Canon(key), Home(hs, key, lg));
  }

  lemma SearchStep(hs: Hashing, lg: nat, keys: seq<Pointer>, key: Element, i: int, e: int)
    requires |keys| == Pow2(lg) && 0 <= i < |keys| && Searched(hs, lg, keys, key, i)
    requires keys[i] != NonePtr && !(keys[i].Elem? && KvElement.Equal(key, keys[i].e))
    requires 0 <= e < |keys| && keys[e] == NonePtr
    ensures var i' := BitAnd(i + 1, |keys| - 1);
            && 0 <= i' < |keys|
            && Searched(hs, lg, keys, key, i')
            && 0 <= Distance(i', e, |keys|) < Distance(i, e, |keys|)
  {
    hide Pow2;
    hide BitAnd;
    hide Probed;
    if keys[i].Elem? {
      EqualIsCanon(key, keys[i].e);
    }
    MaskedIndex(i, lg);
    ProbedStep(View(keys, AsCell), Canon(key), Home(hs, key, lg), i, e);
  }

  /** What the cell a search stops at says about the map. */
  lemma SearchEnd(hs: Hashing, lg: nat, keys: seq<Pointer>, vals: seq<Pointer>, m: Contents, at: map<Element, nat>,
                  key: Element, i: int)
    requires Coherent(hs, lg, keys, vals, m, at)
    requires 0 <= i < |keys| && Searched(hs, lg, keys, key, i)
    requires keys[i] == NonePtr || (keys[i].Elem? && KvElement.Equal(key, keys[i].e))
    ensures at.Keys == m.Keys
    ensures keys[i] == NonePtr <==> Canon(key) !in m
    ensures Canon(key) in m ==> i == at[Canon(key)] && vals[i] == Elem(m[Canon(key)])
  {
    hide Pow2;
    hide BitAnd;
    hide Probed;
    hide Table;
    HomeInside(hs, key, lg);
    if keys[i] == NonePtr {
      AbsentAtEmpty(View(keys, AsCell), Homes(hs, lg), at, Canon(key), i);
    } else {
      EqualIsCanon(key, keys[i].e);
      PresentAtMatch(View(keys, AsCell), Homes(hs, lg), at, i);
    }
  }

  lemma LiveCell(hs: Hashing, lg: nat, keys: seq<Pointer>, vals: seq<Pointer>, m: Contents, at: map<Element, nat>,
                 i: nat)
    requires Coherent(hs, lg, keys, vals, m, at) && i < |keys| && keys[i].Elem?
    ensures var c := Canon(keys[i].e); c in m && at[c] == i && vals[i] == Elem(m[c])
    ensures forall k :: k in at && at[k] == i ==> k == Canon(keys[i].e)
  {
    hide Table;
    PresentAtMatch(View(keys, AsCell), Homes(hs, lg), at, i);
  }

  lemma CellsOfKeys(hs: Hashing, lg: nat, keys: seq<Pointer>, vals: seq<Pointer>, m: Contents, at: map<Element, nat>)
    requires Coherent(hs, lg, keys, vals, m, at)
    ensures at.Keys == m.Keys
    ensures forall k :: k in at ==> at[k] < |keys| && keys[at[k]].Elem?
  {
    hide Table;
    CellOfEachKey(View(keys, AsCell), Homes(hs, lg), at);
  }

  lemma InsertCoherent(hs: Hashing, lg: nat, keys: seq<Pointer>, vals: seq<Pointer>, m: Contents,
                       at: map<Element, nat>, key: Element, val: Element, i: nat)
    requires Coherent(hs, lg, keys, vals, m, at) && Canon(key) !in m
    requires i < |keys| && !keys[i].Elem? && Searched(hs, lg, keys, key, i)
    ensures Coherent(hs, lg, keys[i := Elem(key)], vals[i := Elem(val)], m[Canon(key) := val], at[Canon(key) := i])
    ensures Used(keys[i := Elem(key)]) == Used(keys) + if keys[i] == NonePtr then 1 else 0
  {
    hide Pow2;
    hide BitAnd;
    hide Table;
    hide Reaches;
    hide Occupied;
    var cells := View(keys, AsCell);
    HomeInside(hs, key, lg);
    CellOfEachKey(cells, Homes(hs, lg), at);
    InsertKey(cells, Homes(hs, lg), at, Canon(key), i);
    OccupiedUpdate(cells, i, Key(Canon(key)));
    ViewUpdate(keys, AsCell, i, Elem(key));
  }

  lemma OverwriteCoherent(hs: Hashing, lg: nat, keys: seq<Pointer>, vals: seq<Pointer>, m: Contents,
                          at: map<Element, nat>, c: Element, val: Element)
    requires Coherent(hs, lg, keys, vals, m, at) && c in m
    ensures at[c] < |vals| && Coherent(hs, lg, keys, vals[at[c] := Elem(val)], m[c := val], at)
  {
    hide Table;
    CellOfEachKey(View(keys, AsCell), Homes(hs, lg), at);
  }

  lemma RemoveCoherent(hs: Hashing, lg: nat, keys: seq<Pointer>, vals: seq<Pointer>, m: Contents,
                       at: map<Element, nat>, c: Element)
    requires Coherent(hs, lg, keys, vals, m, at) && c in m
    ensures at[c] < |keys|
    ensures Coherent(hs, lg, keys[at[c] := DeletedPtr], vals[at[c] := DeletedPtr], m - {c}, at - {c})
    ensures Used(keys[at[c] := DeletedPtr]) == Used(keys)
  {
    hide Table;
    hide Occupied;
    var cells := View(keys, AsCell);
    CellOfEachKey(cells, Homes(hs, lg), at);
    RemoveKey(cells, Homes(hs, lg), at, c);
    OccupiedUpdate(cells, at[c], Tomb);
    ViewUpdate(keys, AsCell, at[c], DeletedPtr);
  }

  /** The copy loop of expand has moved the bindings found in the first i cells. */
  ghost predicate Copied(tm: Contents, m: Contents, at: map<Element, nat>, i: int) {
    Moved(tm.Keys, at, i) && at.Keys == m.Keys && forall k :: k in tm ==> tm[k] == m[k]
  }

  lemma CopiedLive(hs: Hashing, lg: nat, keys: seq<Pointer>, vals: seq<Pointer>, m: Contents, at: map<Element, nat>,
                   tm: Contents, i: nat)
    requires Coherent(hs, lg, keys, vals, m, at) && Copied(tm, m, at, i)
    requires i < |keys| == |vals| && keys[i].Elem?
    ensures vals[i].Elem? && Copied(tm[Canon(keys[i].e) := vals[i].e], m, at, i + 1)
    ensures |tm| < |m| && Canon(keys[i].e) !in tm
  {
    hide Coherent;
    hide Canon;
    var c := Canon(keys[i].e);
    LiveCell(hs, lg, keys, vals, m, at, i);
    MovedStep(tm.Keys, at, i, c);
    assert tm[c := vals[i].e].Keys == tm.Keys + {c};
    assert |tm.Keys| == |tm| && |at.Keys| == |m.Keys| == |m|;
  }

  lemma CopiedDead(hs: Hashing, lg: nat, keys: seq<Pointer>, vals: seq<Pointer>, m: Contents, at: map<Element, nat>,
                   tm: Contents, i: nat)
    requires Coherent(hs, lg, keys, vals, m, at) && Copied(tm, m, at, i)
    requires i < |keys| && !keys[i].Elem?
    ensures Copied(tm, m, at, i + 1)
  {
    hide Coherent;
    CellsOfKeys(hs, lg, keys, vals, m, at);
  }

  lemma CopiedAll(hs: Hashing, lg: nat, keys: seq<Pointer>, vals: seq<Pointer>, m: Contents, at: map<Element, nat>,
                  tm: Contents)
    requires Coherent(hs, lg, keys, vals, m, at) && Copied(tm, m, at, |keys|)
    ensures tm == m
  {
    hide Coherent;
    CellsOfKeys(hs, lg, keys, vals, m, at);
  }

  lemma CopiedNone(hs: Hashing, lg: nat, keys: seq<Pointer>, vals: seq<Pointer>, m: Contents, at: map<Element, nat>)
    requires Coherent(hs, lg, keys, vals, m, at)
    ensures Copied(map[], m, at, 0)
  {
  }

  class Store {
    const hs: Hashing
    var size: int
    var mask: int
    var elements: int
    var removed: int
    var keys: array<Pointer>
    var vals: array<Pointer>
    ghost var lg: nat                    // size is 2^lg
    ghost var m: Contents                // the bindings, keys in canonical form
    ghost var at: map<Element, nat>      // the cell of each key

    /** Every counter and every cell, in every reachable state. */
    ghost predicate Valid()
      reads this, keys, vals
    {
      && keys != vals && keys.Length == vals.Length == size == Pow2(lg) && mask == size - 1 && size >= 32
      && elements == |m| && removed >= 0
      && Used(keys[..]) <= elements + removed
      && 4 * (elements + removed) <= 3 * size + 4
      && Coherent(hs, lg, keys[..], vals[..], m, at)
    }

    /** elements + removed > 0.75 * size */
    predicate Crowded()
      reads `elements, `removed, `size
    {
      4 * (elements + removed) > 3 * size
    }

    constructor Sized(hs: Hashing, n: int, ghost lg: nat)
      requires n == Pow2(lg) >= 32
      ensures Valid() && m == map[] && this.hs == hs && this.lg == lg && elements == 0 && removed == 0
      ensures fresh(keys) && fresh(vals)
    {
      this.hs := hs;
      size, mask, elements, removed := n, n - 1, 0, 0;
      keys := new Pointer[n](_ => NonePtr);
      vals := new Pointer[n](_ => NonePtr);
      this.lg, m, at := lg, map[], map[];
      new;
      OccupiedNone(View(keys[..], AsCell));
    }

    constructor (hs: Hashing)
      ensures Valid() && m == map[] && this.hs == hs && fresh(keys) && fresh(vals)
      ensures size == 32 && elements == 0 && removed == 0
    {
      this.hs := hs;
      size, mask, elements, removed := 32, 31, 0, 0;
      keys := new Pointer[32](_ => NonePtr);
      vals := new Pointer[32](_ => NonePtr);
      lg, m, at := 5, map[], map[];
      new;
      OccupiedNone(View(keys[..], AsCell));
      assert Pow2(5) == 32 by { assert Pow2(3) == 8; }
    }

    /** Some cell is empty, so that no probe runs forever. */
    lemma FreeCellExists() returns (e: nat)
      requires Valid()
      ensures e < keys.Length && keys[e] == NonePtr
    {
      hide Pow2;
      hide Occupied;
      hide Coherent;
      e := FreeCell(View(keys[..], AsCell));
    }

    /** The probe loop of get, contains and remove. */
    method Probe(key: Element) returns (i: nat)
      requires Valid()
      ensures i < keys.Length
      ensures Canon(key) in m ==> Canon(key) in at && i == at[Canon(key)] && keys[i].Elem?
      ensures Canon(key) in m ==> i < vals.Length && vals[i] == Elem(m[Canon(key)])
      ensures Canon(key) !in m ==> keys[i] == NonePtr
    {
      hide Pow2;
      hide BitAnd;
      hide HashOf;
      hide Used;
      hide Coherent;
      hide Searched;
      hide KvElement.Equal;
      ghost var e := FreeCellExists();
      i := BitAnd(HashOf(hs, key) as int, mask);
      SearchStart(hs, lg, keys[..], key);
      while keys[i] != NonePtr && (keys[i] == DeletedPtr || !KvElement.Equal(key, keys[i].e))
        invariant 0 <= i < keys.Length && Searched(hs, lg, keys[..], key, i)
        decreases Distance(i, e, keys.Length)
      {
        SearchStep(hs, lg, keys[..], key, i, e);
        i := BitAnd(i + 1, mask);
      }
      SearchEnd(hs, lg, keys[..], vals[..], m, at, key, i);
    }

    /** The caller's variable holds was before; it is set only if the key is found. */
    method Get(key: Element, was: Pointer) returns (r: Return, val: Pointer)
      requires Valid()
      ensures r == if Canon(key) in m then SUCCESS else DOES_NOT_EXIST
      ensures val == if Canon(key) in m then Elem(m[Canon(key)]) else was
    {
      var i := Probe(key);
      if keys[i] != NonePtr {
        return SUCCESS, vals[i];
      } else {
        return DOES_NOT_EXIST, was;
      }
    }

    method Contains(key: Element) returns (r: Return)
      requires Valid()
      ensures r == if Canon(key) in m then SUCCESS else DOES_NOT_EXIST
    {
      var i := Probe(key);
      return if keys[i] != NonePtr && keys[i] != DeletedPtr then SUCCESS else DOES_NOT_EXIST;
    }

    /** The probe loop of set, which also remembers the last tombstone on the way. */
    method ProbeForSet(key: Element) returns (i: nat, deleted: int)
      requires Valid()
      ensures i < keys.Length && Searched(hs, lg, keys[..], key, i)
      ensures if Canon(key) in m then i == at[Canon(key)] && keys[i].Elem? else keys[i] == NonePtr
      ensures deleted == -1 || (0 <= deleted < keys.Length && keys[deleted] == DeletedPtr &&
                                Searched(hs, lg, keys[..], key, deleted))
    {
      hide Pow2;
      hide BitAnd;
      hide HashOf;
      hide Used;
      hide Coherent;
      hide Searched;
      hide KvElement.Equal;
      ghost var e := FreeCellExists();
      i := BitAnd(HashOf(hs, key) as int, mask);
      deleted := -1;
      SearchStart(hs, lg, keys[..], key);
      while keys[i] != NonePtr
        invariant 0 <= i < keys.Length && Searched(hs, lg, keys[..], key, i)
        invariant deleted == -1 || (0 <= deleted < keys.Length && keys[deleted] == DeletedPtr &&
                                    Searched(hs, lg, keys[..], key, deleted))
        decreases Distance(i, e, keys.Length)
      {
        if keys[i] == DeletedPtr {
          deleted := i;
        } else if KvElement.Equal(key, keys[i].e) {
          break;
        }
        SearchStep(hs, lg, keys[..], key, i, e);
        i := BitAnd(i + 1, mask);
      }
      SearchEnd(hs, lg, keys[..], vals[..], m, at, key, i);
    }

    /** Bind key, rehashing first when the table is crowded; a reused tombstone stays counted. */
    method Set(key: Element, val: Element)
      requires Valid()
      modifies this, keys, vals
      ensures Valid() && m == old(m)[Canon(key) := val]
      ensures !old(Crowded()) ==> unchanged(`keys, `vals, `size, `lg, `removed)
      ensures old(Crowded()) ==> fresh(keys) && fresh(vals)
      ensures size == if old(4 * (elements + removed) > 3 * size && removed <= elements) then 2 * old(size)
                      else old(size)
      ensures removed == if old(4 * (elements + removed) > 3 * size) then 0 else old(removed)
      decreases if Crowded() then 2 else 0, 0
    {
      hide Used;
      hide Coherent;
      if Crowded() {
        Expand();
      }
      SetUncrowded(key, val);
    }

    /** Put a new key and its value into cell i. */
    method Place(i: nat, key: Element, val: Element)
      requires Valid() && !Crowded() && Canon(key) !in m
      requires i < keys.Length && !keys[i].Elem? && Searched(hs, lg, keys[..], key, i)
      modifies `m, `at, `elements, keys, vals
      ensures Valid() && m == old(m)[Canon(key) := val]
    {
      hide Pow2;
      hide Used;
      hide Coherent;
      hide Searched;
      InsertCoherent(hs, lg, keys[..], vals[..], m, at, key, val, i);
      keys[i] := Elem(key);
      vals[i] := Elem(val);
      elements := elements + 1;
      m, at := m[Canon(key) := val], at[Canon(key) := i];
      assert keys[..] == old(keys[..])[i := Elem(key)] && vals[..] == old(vals[..])[i := Elem(val)];
    }

    method SetUncrowded(key: Element, val: Element)
      requires Valid() && !Crowded()
      modifies `m, `at, `elements, keys, vals
      ensures Valid() && m == old(m)[Canon(key) := val]
    {
      hide Pow2;
      hide Used;
      hide Coherent;
      hide Searched;
      var i, deleted := ProbeForSet(key);
      if keys[i] == NonePtr {
        if deleted != -1 {
          Place(deleted, key, val);
        } else {
          Place(i, key, val);
        }
      } else {
        OverwriteCoherent(hs, lg, keys[..], vals[..], m, at, Canon(key), val);
        vals[i] := Elem(val);
        m := m[Canon(key) := val];
        assert m.Keys == old(m).Keys && |m| == |m.Keys|;
        assert keys[..] == old(keys[..]) && vals[..] == old(vals[..])[i := Elem(val)];
      }
    }

    method Remove(key: Element) returns (r: Return)
      requires Valid()
      modifies this, keys, vals
      ensures Valid() && m == old(m) - {Canon(key)}
      ensures r == if Canon(key) in old(m) then SUCCESS else DOES_NOT_EXIST
      ensures !old(Crowded()) ==> unchanged(`keys, `vals)
      ensures old(Crowded()) ==> fresh(keys) && fresh(vals)
      ensures size == if old(4 * (elements + removed) > 3 * size && removed <= elements) then 2 * old(size)
                      else old(size)
      ensures removed == (if old(4 * (elements + removed) > 3 * size) then 0 else old(removed)) +
                         (if r == SUCCESS then 1 else 0)
    {
      hide Used;
      hide Coherent;
      if Crowded() {
        Expand();
      }
      r := RemoveUncrowded(key);
    }

    method RemoveUncrowded(key: Element) returns (r: Return)
      requires Valid()
      modifies `m, `at, `elements, `removed, keys, vals
      ensures Valid() && m == old(m) - {Canon(key)}
      ensures r == if Canon(key) in old(m) then SUCCESS else DOES_NOT_EXIST
      ensures removed == old(removed) + (if r == SUCCESS then 1 else 0)
    {
      hide Store.Valid;
      hide Canon;
      var i := Probe(key);
      if keys[i] != NonePtr && keys[i] != DeletedPtr {
        Erase(Canon(key), i);
        r := SUCCESS;
      } else {
        assert m - {Canon(key)} == m;
        r := DOES_NOT_EXIST;
      }
    }

    method Erase(ghost c: Element, i: nat)
      requires Valid() && c in m && c in at && i < keys.Length && i == at[c]
      modifies `m, `at, `elements, `removed, keys, vals
      ensures Valid() && m == old(m) - {c} && removed == old(removed) + 1
    {
      hide Pow2;
      hide Used;
      hide Coherent;
      RemoveCoherent(hs, lg, keys[..], vals[..], m, at, c);
      MinusSize(m, c);
      elements := elements - 1;
      removed := removed + 1;
      keys[i] := DeletedPtr;
      vals[i] := DeletedPtr;
      m, at := m - {c}, at - {c};
      assert keys[..] == old(keys[..])[i := DeletedPtr] && vals[..] == old(vals[..])[i := DeletedPtr];
    }

    ghost predicate Apart(tmp: Store)
      reads `keys, `vals, tmp`keys, tmp`vals
    {
      tmp != this && keys != tmp.keys && keys != tmp.vals && vals != tmp.keys && vals != tmp.vals
    }

    /** One round of the copy loop; tmp has room for every binding, so its set does not expand. */
    method CopyCell(tmp: Store, i: nat)
      requires Valid() && tmp.Valid() && Apart(tmp)
      requires tmp.removed == 0 && 4 * elements <= 3 * tmp.size + 4
      requires i < size && Copied(tmp.m, m, at, i)
      modifies tmp, tmp.keys, tmp.vals
      ensures tmp.Valid() && tmp.removed == 0 && Copied(tmp.m, m, at, i + 1)
      ensures unchanged(tmp`size, tmp`lg, tmp`keys, tmp`vals)
      decreases 1, 0
    {
      hide Used;
      hide Coherent;
      hide Pow2;
      hide Canon;
      hide Copied;
      if keys[i] != DeletedPtr && keys[i] != NonePtr {
        CopiedLive(hs, lg, keys[..], vals[..], m, at, tmp.m, i);
        tmp.Set(keys[i].e, vals[i].e);
      } else {
        CopiedDead(hs, lg, keys[..], vals[..], m, at, tmp.m, i);
      }
    }

    lemma CopyStart()
      requires Valid()
      ensures size > 0 && Copied(map[], m, at, 0)
    {
    }

    lemma CopyEnd(tm: Contents)
      requires Valid() && Copied(tm, m, at, size)
      ensures tm == m
    {
      hide Coherent;
      hide Copied;
      hide Pow2;
      CopiedAll(hs, lg, keys[..], vals[..], m, at, tm);
    }

    /** Set every binding in tmp, a table that they cannot make crowded. */
    method CopyInto(tmp: Store)
      requires Valid() && tmp.Valid() && Apart(tmp)
      requires tmp.m == map[] && tmp.removed == 0 && 4 * elements <= 3 * tmp.size + 4
      modifies tmp, tmp.keys, tmp.vals
      ensures tmp.Valid() && tmp.m == m && tmp.removed == 0
      ensures tmp.size == old(tmp.size) && tmp.lg == old(tmp.lg)
      ensures tmp.keys == old(tmp.keys) && tmp.vals == old(tmp.vals)
      decreases 1, 1
    {
      hide Store.Valid;
      hide Copied;
      CopyStart();
      var i := 0;
      while i < size
        invariant 0 <= i <= size && tmp.Valid() && tmp.removed == 0
        invariant unchanged(this, keys, vals, tmp`size, tmp`lg, tmp`keys, tmp`vals)
        invariant Copied(tmp.m, m, at, i)
      {
        CopyCell(tmp, i);
        i := i + 1;
      }
      CopyEnd(tmp.m);
    }

    /** Structure assignment. */
    method Assign(tmp: Store)
      requires tmp != this && tmp.Valid() && tmp.hs == hs
      modifies this
      ensures Valid() && m == tmp.m && size == tmp.size && removed == tmp.removed && elements == tmp.elements
      ensures keys == tmp.keys && vals == tmp.vals
    {
      hide Used;
      hide Coherent;
      hide Pow2;
      size, mask, elements, removed := tmp.size, tmp.mask, tmp.elements, tmp.removed;
      keys, vals := tmp.keys, tmp.vals;
      lg, m, at := tmp.lg, tmp.m, tmp.at;
    }

    /**
     * Rehash into a table twice as large, or as large when tombstones outnumber the
     * bindings. The copies never make the new table crowded, so set does not come back here.
     */
    method Expand()
      requires Valid()
      modifies this
      ensures Valid() && m == old(m) && removed == 0 && !Crowded()
      ensures size == if old(removed > elements) then old(size) else 2 * old(size)
      ensures fresh(keys) && fresh(vals)
      decreases 1, 2
    {
      hide Used;
      hide Coherent;
      ghost var newLg := if removed > elements then lg else lg + 1;
      var newSize := if removed > elements then size else size * 2;
      assert newSize == Pow2(newLg);
      hide Pow2;
      var tmp := new Store.Sized(hs, newSize, newLg);
      CopyInto(tmp);
      Assign(tmp);
    }
  }

  // ---- Whole runs ----

  datatype Op =
    | SetOp(key: Element, val: Element)
    | RemoveOp(key: Element)
    | GetOp(key: Element)
    | ContainsOp(key: Element)

  datatype Answer = Answer(r: Return, val: Pointer)

  /** What a plain map does. */
  function MapStep(m: Contents, op: Op): (Contents, Answer) {
    var c := Canon(op.key);
    var here := if c in m then SUCCESS else DOES_NOT_EXIST;
    match op
    case SetOp(_, v) => (m[c := v], Answer(SUCCESS, NonePtr))
    case RemoveOp(_) => (m - {c}, Answer(here, NonePtr))
    case GetOp(_) => (m, Answer(here, if c in m then Elem(m[c]) else NonePtr))
    case ContainsOp(_) => (m, Answer(here, NonePtr))
  }

  function MapRun(m: Contents, ops: seq<Op>): (Contents, seq<Answer>) {
    if ops == [] then (m, [])
    else
      var (before, answers) := MapRun(m, ops[..|ops| - 1]);
      var (after, answer) := MapStep(before, ops[|ops| - 1]);
      (after, answers + [answer])
  }

  /** Any run of operations, through any number of rehashes, answers as a plain map would. */
  method Run(s: Store, ops: seq<Op>) returns (answers: seq<Answer>)
    requires s.Valid()
    modifies s, s.keys, s.vals
    ensures s.Valid() && (s.m, answers) == MapRun(old(s.m), ops)
  {
    hide Canon;
    hide Coherent;
    hide Used;
    answers := [];
    for i := 0 to |ops|
      invariant s.Valid()
      invariant (s.keys == old(s.keys) && s.vals == old(s.vals)) || (fresh(s.keys) && fresh(s.vals))
      invariant (s.m, answers) == MapRun(old(s.m), ops[..i])
    {
      assert ops[..i + 1][..i] == ops[..i];
      var answer := Step(s, ops[i]);
      answers := answers + [answer];
    }
    assert ops[..|ops|] == ops;
  }

  method Step(s: Store, op: Op) returns (answer: Answer)
    requires s.Valid()
    modifies s, s.keys, s.vals
    ensures s.Valid() && (s.m, answer) == MapStep(old(s.m), op)
    ensures (s.keys == old(s.keys) && s.vals == old(s.vals)) || (fresh(s.keys) && fresh(s.vals))
  {
    hide Canon;
    hide Coherent;
    hide Used;
    match op
    case SetOp(k, v) =>
      s.Set(k, v);
      answer := Answer(SUCCESS, NonePtr);
    case RemoveOp(k) =>
      var r := s.Remove(k);
      answer := Answer(r, NonePtr);
    case GetOp(k) =>
      var r, v := s.Get(k, NonePtr);
      answer := Answer(r, v);
    case ContainsOp(k) =>
      var r := s.Contains(k);
      answer := Answer(r, NonePtr);
  }

  // ---- Equality and hash of whole stores ----

  /** Equal keys bound to equal values. */
  ghost predicate SameBindings(a: Contents, b: Contents) {
    a.Keys == b.Keys && forall k :: k in a ==> KvElement.Equal(a[k], b[k])
  }

  lemma SubsetOfSameSize<T>(a: set<T>, b: set<T>)
    requires a <= b && |a| == |b|
    ensures a == b
  {
    if x :| x in b && x !in a {
      SubsetSize(a + {x}, b);
    }
  }

  /** kv_store_equal: equal counts, and every binding of a found in b. */
  method StoresEqual(a: Store, b: Store) returns (r: Return)
    requires a.Valid() && b.Valid()
    ensures r == if SameBindings(a.m, b.m) then EQUAL else NOT_EQUAL
  {
    hide Coherent;
    hide Used;
    hide Pow2;
    hide Canon;
    if a.elements != b.elements {
      return NOT_EQUAL;
    }
    CellsOfKeys(a.hs, a.lg, a.keys[..], a.vals[..], a.m, a.at);
    var i := 0;
    while i < a.size
      invariant 0 <= i <= a.size
      invariant forall k :: k in a.m && a.at[k] < i ==> k in b.m && KvElement.Equal(a.m[k], b.m[k])
    {
      if a.keys[i] != DeletedPtr && a.keys[i] != NonePtr {
        ghost var c := Canon(a.keys[i].e);
        LiveCell(a.hs, a.lg, a.keys[..], a.vals[..], a.m, a.at, i);
        var found, bv := b.Get(a.keys[i].e, NonePtr);
        if found == DOES_NOT_EXIST {
          return NOT_EQUAL;
        }
        if !KvElement.Equal(a.vals[i].e, bv.e) {
          return NOT_EQUAL;
        }
      }
      i := i + 1;
    }
    SubsetOfSameSize(a.m.Keys, b.m.Keys);
    return EQUAL;
  }

  function PairHash(hs: Hashing, k: Element, v: Element): bv64 {
    Xor(HashOf(hs, k), HashOf(hs, v))
  }

  function Xor(a: bv64, b: bv64): bv64 {
    a ^ b
  }

  /** Exclusive or over all bindings, in whatever order they are taken. */
  ghost function XorAll(hs: Hashing, m: Contents): bv64
    decreases |m|
  {
    if m == map[] then 0
    else var k :| k in m; Xor(PairHash(hs, k, m[k]), XorAll(hs, m - {k}))
  }

  lemma {:induction false} XorAllPick(hs: Hashing, m: Contents) returns (k: Element)
    requires m != map[]
    ensures k in m && XorAll(hs, m) == Xor(PairHash(hs, k, m[k]), XorAll(hs, m - {k}))
  {
    hide Xor;
    hide PairHash;
    k :| k in m && XorAll(hs, m) == Xor(PairHash(hs, k, m[k]), XorAll(hs, m - {k}));
  }

  lemma {:induction false} XorAllRemove(hs: Hashing, m: Contents, k: Element)
    requires k in m
    ensures XorAll(hs, m) == Xor(PairHash(hs, k, m[k]), XorAll(hs, m - {k}))
    decreases |m|
  {
    hide Xor;
    hide PairHash;
    hide XorAll;
    var first := XorAllPick(hs, m);
    if first != k {
      var rest := m - {first} - {k};
      assert (m - {first})[k] == m[k] && (m - {k})[first] == m[first];
      assert m - {k} - {first} == rest;
      XorAllRemove(hs, m - {first}, k);
      XorAllRemove(hs, m - {k}, first);
      XorSwap(PairHash(hs, first, m[first]), PairHash(hs, k, m[k]), XorAll(hs, rest));
    }
  }

  /** A new binding adds the hash of its key and the hash of its value. */
  lemma XorAllAdd(hs: Hashing, m: Contents, k: Element, v: Element)
    requires k !in m
    ensures XorAll(hs, m[k := v]) == Xor(Xor(HashOf(hs, k), HashOf(hs, v)), XorAll(hs, m))
    ensures XorAll(hs, map[]) == 0
  {
    hide Xor;
    hide XorAll;
    XorAllRemove(hs, m[k := v], k);
    assert m[k := v] - {k} == m;
    EmptyXor(hs);
  }

  lemma XorComm(a: bv64, b: bv64)
    ensures Xor(a, b) == Xor(b, a)
  {
  }

  lemma XorAssoc(a: bv64, b: bv64, c: bv64)
    ensures Xor(Xor(a, b), c) == Xor(a, Xor(b, c))
  {
  }

  lemma XorSwap(a: bv64, b: bv64, c: bv64)
    ensures Xor(a, Xor(b, c)) == Xor(b, Xor(a, c))
  {
    hide Xor;
    XorAssoc(a, b, c);
    XorAssoc(b, a, c);
    XorComm(a, b);
  }

  /** kv_store_hash depends on nothing but the bindings. */
  method StoreHash(s: Store, seed: bv64) returns (hash: bv64)
    requires s.Valid()
    ensures hash == Xor(seed, XorAll(s.hs, s.m))
  {
    hide Coherent;
    hide Used;
    hide Pow2;
    hide HashOf;
    hide Canon;
    hide XorAll;
    hide Xor;
    hide Copied;
    EmptyXor(s.hs);
    CopiedNone(s.hs, s.lg, s.keys[..], s.vals[..], s.m, s.at);
    hash := seed;
    ghost var done: Contents := map[];
    var i := 0;
    while i < s.size
      invariant 0 <= i <= s.size
      invariant Copied(done, s.m, s.at, i)
      invariant hash == Xor(seed, XorAll(s.hs, done))
    {
      if s.keys[i] != DeletedPtr && s.keys[i] != NonePtr {
        CopiedLive(s.hs, s.lg, s.keys[..], s.vals[..], s.m, s.at, done, i);
        var k, v := s.keys[i].e, s.vals[i].e;
        ghost var c := Canon(k);
        hash := Xor(hash, HashOf(s.hs, k));
        hash := Xor(hash, HashOf(s.hs, v));
        CanonHash(s.hs, k);
        ghost var more := done[c := v];
        XorAllRemove(s.hs, more, c);
        assert more - {c} == done;
        FoldStep(seed, XorAll(s.hs, done), HashOf(s.hs, k), HashOf(s.hs, v));
        done := more;
      } else {
        CopiedDead(s.hs, s.lg, s.keys[..], s.vals[..], s.m, s.at, done, i);
      }
      i := i + 1;
    }
    CopiedAll(s.hs, s.lg, s.keys[..], s.vals[..], s.m, s.at, done);
  }

  lemma EmptyXor(hs: Hashing)
    ensures XorAll(hs, map[]) == 0
    ensures forall seed :: Xor(seed, 0) == seed
  {
  }

  lemma FoldStep(seed: bv64, x: bv64, k: bv64, v: bv64)
    ensures Xor(Xor(Xor(seed, x), k), v) == Xor(seed, Xor(Xor(k, v), x))
  {
    hide Xor;
    XorAssoc(Xor(seed, x), k, v);
    XorAssoc(seed, x, Xor(k, v));
    XorComm(x, Xor(k, v));
  }

  lemma CanonHash(hs: Hashing, e: Element)
    ensures HashOf(hs, Canon(e)) == HashOf(hs, e)
  {
  }

  /** Equal stores hash alike, whatever their sizes, layouts, tombstones and history. */
  lemma {:induction false} SameBindingsHashAlike(hs: Hashing, a: Contents, b: Contents)
    requires SameBindings(a, b)
    ensures XorAll(hs, a) == XorAll(hs, b)
    decreases |a|
  {
    hide XorAll;
    hide HashOf;
    hide Xor;
    if a == map[] {
      assert b == map[];
    } else {
      var k :| k in a;
      XorAllRemove(hs, a, k);
      XorAllRemove(hs, b, k);
      EqualElementsHashAlike(hs, a[k], b[k]);
      SameBindingsHashAlike(hs, a - {k}, b - {k});
    }
  }
}
