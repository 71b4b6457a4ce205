/** The doubly linked list of kv_store.c, proved against a sequence. */
module KvList {
  import opened Wrappers
  import opened KvElement

  class Node {
    var data: Element
    var next: Node?
    var prev: Node?

    constructor (data: Element, next: Node?, prev: Node?)
      ensures this.data == data && this.next == next && this.prev == prev
    {
      this.data, this.next, this.prev := data, next, prev;
    }
  }

  ghost function At(nodes: seq<Node>, i: int): Node? {
    if 0 <= i < |nodes| then nodes[i] else null
  }

  ghost predicate Distinct(nodes: seq<Node>) {
    forall i, j :: 0 <= i < j < |nodes| ==> nodes[i] != nodes[j]
  }

  /** next and prev walk the sequence in both directions, and it has no cycle. */
  ghost predicate Linked(nodes: seq<Node>)
    reads nodes
  {
    && Distinct(nodes)
    && (forall i {:trigger nodes[i].next} :: 0 <= i < |nodes| ==> nodes[i].next == At(nodes, i + 1))
    && (forall i {:trigger nodes[i].prev} :: 0 <= i < |nodes| ==> nodes[i].prev == At(nodes, i - 1))
  }

  ghost function Data(nodes: seq<Node>): (s: seq<Element>)
    reads nodes
    ensures |s| == |nodes| && forall i :: 0 <= i < |s| ==> s[i] == nodes[i].data
  {
    if nodes == [] then [] else [nodes[0].data] + Data(nodes[1..])
  }

  /** The position of a member. */
  ghost function IndexOf(nodes: seq<Node>, n: Node): (k: nat)
    requires n in nodes
    ensures k < |nodes| && nodes[k] == n
  {
    var k :| 0 <= k < |nodes| && nodes[k] == n; k
  }

  function Inserted<T>(s: seq<T>, k: nat, x: T): (r: seq<T>)
    requires k <= |s|
    ensures |r| == |s| + 1
    ensures forall i {:trigger r[i]} :: 0 <= i < |r| ==> r[i] == if i < k then s[i] else if i == k then x else s[i - 1]
  {
    s[..k] + [x] + s[k..]
  }

  function Without<T>(s: seq<T>, k: nat): (r: seq<T>)
    requires k < |s|
    ensures |r| == |s| - 1
    ensures forall i {:trigger r[i]} :: 0 <= i < |r| ==> r[i] == if i < k then s[i] else s[i + 1]
  {
    s[..k] + s[k + 1..]
  }

  twostate lemma DataInserted(was: seq<Node>, new k: nat, new n: Node)
    requires k <= |was| && forall i :: 0 <= i < |was| ==> was[i].data == old(was[i].data)
    ensures Data(Inserted(was, k, n)) == Inserted(old(Data(was)), k, n.data)
  {
    hide Data;
    hide Inserted;
  }

  twostate lemma DataWithout(was: seq<Node>, new k: nat)
    requires k < |was| && forall i :: 0 <= i < |was| && i != k ==> was[i].data == old(was[i].data)
    ensures Data(Without(was, k)) == Without(old(Data(was)), k)
  {
    hide Data;
    hide Without;
  }

  class List {
    var length: int
    var head: Node?
    var tail: Node?
    ghost var nodes: seq<Node>

    ghost predicate Valid()
      reads this, nodes
    {
      Linked(nodes) && head == At(nodes, 0) && tail == At(nodes, |nodes| - 1) && length == |nodes|
    }

    ghost function Contents(): seq<Element>
      reads this, nodes
    {
      Data(nodes)
    }

    constructor ()
      ensures Valid() && nodes == [] && Contents() == []
    {
      head, tail, length, nodes := null, null, 0, [];
    }

    /** A node has been put in at position k of the old sequence. */
    twostate predicate Grown(k: nat, val: Element)
      requires k <= |old(nodes)|
      reads this, nodes
    {
      && Valid()
      && |nodes| == |old(nodes)| + 1 && fresh(nodes[k])
      && nodes == Inserted(old(nodes), k, nodes[k])
      && Contents() == Inserted(old(Contents()), k, val)
    }

    /** The neighbours, and only they, point at the new node. */
    twostate lemma Spliced(k: nat, new n: Node)
      requires old(Valid()) && k <= |old(nodes)|
      requires fresh(n) && nodes == Inserted(old(nodes), k, n)
      requires n.next == At(old(nodes), k) && n.prev == At(old(nodes), k - 1)
      requires forall i :: 0 <= i < |old(nodes)| ==> old(nodes)[i].data == old(nodes[i].data)
      requires forall i {:trigger old(nodes)[i].next} :: 0 <= i < |old(nodes)| ==>
                 old(nodes)[i].next == if i == k - 1 then n else old(nodes[i].next)
      requires forall i {:trigger old(nodes)[i].prev} :: 0 <= i < |old(nodes)| ==>
                 old(nodes)[i].prev == if i == k then n else old(nodes[i].prev)
      requires head == if k == 0 then n else old(head)
      requires tail == if k == |old(nodes)| then n else old(tail)
      requires length == old(length) + 1
      ensures Grown(k, n.data)
    {
      hide Data;
      hide Inserted;
      assert nodes[k] == n;
      assert Linked(nodes) by {
        assert Distinct(nodes);
        forall i | 0 <= i < |nodes|
          ensures nodes[i].next == At(nodes, i + 1) && nodes[i].prev == At(nodes, i - 1)
        {
        }
      }
      DataInserted(old(nodes), k, n);
    }

    method InsertBefore(val: Element, found: Node)
      requires Valid() && found in nodes
      modifies this, nodes
      ensures Grown(IndexOf(old(nodes), found), val)
    {
      hide Data;
      hide Inserted;
      hide Without;
      ghost var k := IndexOf(nodes, found);
      var before := found.prev;
      var n := new Node(val, found, before);
      found.prev := n;
      if before != null {
        before.next := n;
      } else {
        head := n;
      }
      length := length + 1;
      nodes := Inserted(nodes, k, n);
      Spliced(k, n);
    }

    method InsertAfter(val: Element, found: Node)
      requires Valid() && found in nodes
      modifies this, nodes
      ensures Grown(IndexOf(old(nodes), found) + 1, val)
    {
      hide Data;
      hide Inserted;
      hide Without;
      ghost var k := IndexOf(nodes, found) + 1;
      var after := found.next;
      var n := new Node(val, after, found);
      found.next := n;
      if after != null {
        after.prev := n;
      } else {
        tail := n;
      }
      length := length + 1;
      nodes := Inserted(nodes, k, n);
      Spliced(k, n);
    }

    method InsertFirst(val: Element)
      requires Valid()
      modifies this, nodes
      ensures Grown(0, val)
    {
      var n := new Node(val, head, null);
      head := n;
      if n.next != null {
        n.next.prev := n;
      } else {
        tail := n;
      }
      length := length + 1;
      nodes := Inserted(nodes, 0, n);
      Spliced(0, n);
    }

    method InsertLast(val: Element)
      requires Valid()
      modifies this, nodes
      ensures Grown(|old(nodes)|, val)
    {
      var n := new Node(val, null, tail);
      tail := n;
      if n.prev != null {
        n.prev.next := n;
      } else {
        head := n;
      }
      length := length + 1;
      nodes := Inserted(nodes, |nodes|, n);
      Spliced(|old(nodes)|, n);
    }

    /** The node at position k has been taken out. */
    twostate predicate Shrunk(k: nat)
      requires k < |old(nodes)|
      reads this, nodes
    {
      Valid() && nodes == Without(old(nodes), k) && Contents() == Without(old(Contents()), k)
    }

    /** The neighbours, and only they, have been joined. */
    twostate lemma Unlinked(k: nat)
      requires old(Valid()) && k < |old(nodes)| && nodes == Without(old(nodes), k)
      requires forall i :: 0 <= i < |old(nodes)| && i != k ==> old(nodes)[i].data == old(nodes[i].data)
      requires forall i {:trigger old(nodes)[i].next} :: 0 <= i < |old(nodes)| && i != k ==>
                 old(nodes)[i].next == if i == k - 1 then At(old(nodes), k + 1) else old(nodes[i].next)
      requires forall i {:trigger old(nodes)[i].prev} :: 0 <= i < |old(nodes)| && i != k ==>
                 old(nodes)[i].prev == if i == k + 1 then At(old(nodes), k - 1) else old(nodes[i].prev)
      requires head == if k == 0 then At(old(nodes), 1) else old(head)
      requires tail == if k == |old(nodes)| - 1 then At(old(nodes), k - 1) else old(tail)
      requires length == old(length) - 1
      ensures Shrunk(k)
    {
      hide Data;
      hide Without;
      assert Linked(nodes) by {
        assert Distinct(nodes);
        forall i | 0 <= i < |nodes|
          ensures nodes[i].next == At(nodes, i + 1) && nodes[i].prev == At(nodes, i - 1)
        {
        }
      }
      DataWithout(old(nodes), k);
    }

    method PopFirst() returns (r: Return, out: Element)
      requires Valid()
      modifies this, nodes
      ensures r == if old(nodes) == [] then DOES_NOT_EXIST else SUCCESS
      ensures r == SUCCESS ==> out == old(Contents())[0] && Shrunk(0)
      ensures r == DOES_NOT_EXIST ==> Valid() && nodes == []
    {
      if length <= 0 {
        return DOES_NOT_EXIST, NoneValue(0);
      }
      var rem := head;
      out := rem.data;
      if rem.next != null {
        rem.next.prev := null;
      } else {
        tail := null;
      }
      head := rem.next;
      length := length - 1;
      nodes := Without(nodes, 0);
      Unlinked(0);
      r := SUCCESS;
    }

    method PopLast() returns (r: Return, out: Element)
      requires Valid()
      modifies this, nodes
      ensures r == if old(nodes) == [] then DOES_NOT_EXIST else SUCCESS
      ensures r == SUCCESS ==> out == old(Contents())[|old(nodes)| - 1] && Shrunk(|old(nodes)| - 1)
      ensures r == DOES_NOT_EXIST ==> Valid() && nodes == []
    {
      if length <= 0 {
        return DOES_NOT_EXIST, NoneValue(0);
      }
      var rem := tail;
      out := rem.data;
      if rem.prev != null {
        rem.prev.next := null;
      } else {
        head := null;
      }
      tail := rem.prev;
      length := length - 1;
      nodes := Without(nodes, |nodes| - 1);
      Unlinked(|old(nodes)| - 1);
      r := SUCCESS;
    }

    method Remove(found: Node)
      requires Valid() && found in nodes
      modifies this, nodes
      ensures Shrunk(IndexOf(old(nodes), found))
    {
      hide Data;
      hide Inserted;
      hide Without;
      ghost var k := IndexOf(nodes, found);
      var before, after := found.prev, found.next;
      if before != null {
        before.next := after;
      } else {
        head := after;
      }
      if after != null {
        after.prev := before;
      } else {
        tail := before;
      }
      length := length - 1;
      nodes := Without(nodes, k);
      Unlinked(k);
    }

    /** The first node whose element equals val. */
    method Find(val: Element) returns (r: Return, found: Node?)
      requires Valid()
      ensures r == SUCCESS ==> found != null && found in nodes && Equal(found.data, val)
      ensures r == SUCCESS ==> forall i :: 0 <= i < IndexOf(nodes, found) ==> !Equal(Contents()[i], val)
      ensures r != SUCCESS ==> r == DOES_NOT_EXIST && forall i :: 0 <= i < |nodes| ==> !Equal(Contents()[i], val)
    {
      ghost var i := 0;
      var cur := head;
      while cur != null
        invariant 0 <= i <= |nodes| && cur == At(nodes, i)
        invariant forall j :: 0 <= j < i ==> !Equal(Contents()[j], val)
        decreases |nodes| - i
      {
        if Equal(cur.data, val) {
          return SUCCESS, cur;
        }
        cur := cur.next;
        i := i + 1;
      }
      return DOES_NOT_EXIST, null;
    }
  }

  // ---- Equality ----

  ghost predicate AgreeUpTo(a: seq<Element>, b: seq<Element>, n: nat)
    requires n <= |a| && n <= |b|
  {
    forall i :: 0 <= i < n ==> Equal(a[i], b[i])
  }

  function Shorter(a: seq<Element>, b: seq<Element>): (n: nat)
    ensures n <= |a| && n <= |b|
  {
    if |a| <= |b| then |a| else |b|
  }

  /** What equality of two lists should mean. */
  ghost predicate SameContents(a: seq<Element>, b: seq<Element>) {
    |a| == |b| && AgreeUpTo(a, b, |a|)
  }

  /**
   * kv_list_equal stops at the end of the shorter list, so a prefix counts as equal. Its answer is
   * right exactly for lists of equal length and for lists that differ before the shorter one ends.
   */
  method ListsEqual(a: List, b: List) returns (r: Return)
    requires a.Valid() && b.Valid()
    ensures r == EQUAL || r == NOT_EQUAL
    ensures r == EQUAL <==> AgreeUpTo(a.Contents(), b.Contents(), Shorter(a.Contents(), b.Contents()))
    ensures (r == EQUAL <==> SameContents(a.Contents(), b.Contents())) <==>
            (a.length == b.length || !AgreeUpTo(a.Contents(), b.Contents(), Shorter(a.Contents(), b.Contents())))
  {
    ghost var i := 0;
    var ac, bc := a.head, b.head;
    while ac != null && bc != null
      invariant 0 <= i <= |a.nodes| && i <= |b.nodes| && ac == At(a.nodes, i) && bc == At(b.nodes, i)
      invariant AgreeUpTo(a.Contents(), b.Contents(), i)
      decreases |a.nodes| - i
    {
      if !Equal(ac.data, bc.data) {
        return NOT_EQUAL;
      }
      ac, bc := ac.next, bc.next;
      i := i + 1;
    }
    return EQUAL;
  }

  /** The wrong answer: an empty list is reported equal to a list of one element. */
  method EmptyListEqualsAny(val: Element) returns (a: List, b: List, r: Return)
    ensures a.Valid() && a.Contents() == [] && b.Valid() && b.Contents() == [val]
    ensures r == EQUAL && !SameContents(a.Contents(), b.Contents())
  {
    a := new List();
    b := new List();
    b.InsertLast(val);
    r := ListsEqual(a, b);
  }

  // ---- Whole runs ----

  /** An operation; a node is named by its position. */
  datatype Op =
    | DoInsertBefore(i: nat, val: Element)
    | DoInsertAfter(i: nat, val: Element)
    | DoInsertFirst(val: Element)
    | DoInsertLast(val: Element)
    | DoPopFirst
    | DoPopLast
    | DoRemove(i: nat)
    | DoFind(val: Element)

  datatype Answer = Answer(r: Return, val: Option<Element>)

  function FirstEqual(s: seq<Element>, val: Element): Option<Element> {
    if s == [] then None else if Equal(s[0], val) then Some(s[0]) else FirstEqual(s[1..], val)
  }

  /** What a plain sequence does; a position outside it names no node, and nothing is done. */
  function SeqStep(s: seq<Element>, op: Op): (seq<Element>, Answer) {
    var nothing, done := Answer(DOES_NOT_EXIST, None), Answer(SUCCESS, None);
    match op
    case DoInsertBefore(i, val) => if i < |s| then (Inserted(s, i, val), done) else (s, nothing)
    case DoInsertAfter(i, val) => if i < |s| then (Inserted(s, i + 1, val), done) else (s, nothing)
    case DoInsertFirst(val) => ([val] + s, done)
    case DoInsertLast(val) => (s + [val], done)
    case DoPopFirst => if s == [] then (s, nothing) else (s[1..], Answer(SUCCESS, Some(s[0])))
    case DoPopLast =>
      if s == [] then (s, nothing) else (s[..|s| - 1], Answer(SUCCESS, Some(s[|s| - 1])))
    case DoRemove(i) => if i < |s| then (Without(s, i), done) else (s, nothing)
    case DoFind(val) =>
      var found := FirstEqual(s, val);
      (s, if found.None? then nothing else Answer(SUCCESS, found))
  }

  function SeqRun(s: seq<Element>, ops: seq<Op>): (seq<Element>, seq<Answer>) {
    if ops == [] then (s, [])
    else
      var (before, answers) := SeqRun(s, ops[..|ops| - 1]);
      var (after, answer) := SeqStep(before, ops[|ops| - 1]);
      (after, answers + [answer])
  }

  lemma {:induction false} FirstEqualAt(s: seq<Element>, val: Element, k: nat)
    requires k <= |s| && forall i :: 0 <= i < k ==> !Equal(s[i], val)
    requires k < |s| ==> Equal(s[k], val)
    ensures FirstEqual(s, val) == if k < |s| then Some(s[k]) else None
  {
    if k > 0 {
      FirstEqualAt(s[1..], val, k - 1);
    }
  }

  lemma AtTheEnds(s: seq<Element>, val: Element)
    ensures Inserted(s, 0, val) == [val] + s && Inserted(s, |s|, val) == s + [val]
    ensures s != [] ==> Without(s, 0) == s[1..] && Without(s, |s| - 1) == s[..|s| - 1]
  {
  }

  /** Any run of operations answers, and leaves the list, as a plain sequence would. */
  method Run(list: List, ops: seq<Op>) returns (answers: seq<Answer>)
    requires list.Valid()
    modifies list, list.nodes
    ensures list.Valid() && (list.Contents(), answers) == SeqRun(old(list.Contents()), ops)
  {
    hide List.Valid;
    answers := [];
    for i := 0 to |ops|
      invariant list.Valid() && (list.Contents(), answers) == SeqRun(old(list.Contents()), ops[..i])
      invariant forall j :: 0 <= j < |list.nodes| ==> list.nodes[j] in old(list.nodes) || fresh(list.nodes[j])
    {
      assert ops[..i + 1][..i] == ops[..i];
      ghost var was := list.nodes;
      var answer := Step(list, ops[i]);
      answers := answers + [answer];
      forall j | 0 <= j < |list.nodes|
        ensures list.nodes[j] in old(list.nodes) || fresh(list.nodes[j])
      {
        var n := list.nodes[j];
        if n in was {
          var k :| 0 <= k < |was| && was[k] == n;
        }
      }
    }
    assert ops[..|ops|] == ops;
  }

  /** The node at position i, reached from the head. */
  method NodeAt(list: List, i: nat) returns (n: Node?)
    requires list.Valid()
    ensures n == At(list.nodes, i)
  {
    n := list.head;
    var k := 0;
    while k < i && n != null
      invariant k <= i && n == At(list.nodes, k)
      invariant n == null ==> k >= |list.nodes|
    {
      n := n.next;
      k := k + 1;
    }
  }

  method Step(list: List, op: Op) returns (answer: Answer)
    requires list.Valid()
    modifies list, list.nodes
    ensures list.Valid() && (list.Contents(), answer) == SeqStep(old(list.Contents()), op)
    ensures forall n :: n in list.nodes ==> n in old(list.nodes) || fresh(n)
  {
    hide Data;
    hide Linked;
    hide Inserted;
    hide Without;
    AtTheEnds(list.Contents(), if op.DoInsertFirst? || op.DoInsertLast? then op.val else NoneValue(0));
    match op
    case DoInsertBefore(_, _) => answer := StepAt(list, op);
    case DoInsertAfter(_, _) => answer := StepAt(list, op);
    case DoRemove(_) => answer := StepAt(list, op);
    case DoInsertFirst(val) =>
      list.InsertFirst(val);
      answer := Answer(SUCCESS, None);
    case DoInsertLast(val) =>
      list.InsertLast(val);
      answer := Answer(SUCCESS, None);
    case DoPopFirst =>
      var r, out := list.PopFirst();
      answer := Answer(r, if r == SUCCESS then Some(out) else None);
    case DoPopLast =>
      var r, out := list.PopLast();
      answer := Answer(r, if r == SUCCESS then Some(out) else None);
    case DoFind(val) =>
      var r, found := list.Find(val);
      if r == SUCCESS {
        FirstEqualAt(list.Contents(), val, IndexOf(list.nodes, found));
        answer := Answer(r, Some(found.data));
      } else {
        FirstEqualAt(list.Contents(), val, |list.Contents()|);
        answer := Answer(r, None);
      }
  }

  /** The operations that are given a node. */
  method StepAt(list: List, op: Op) returns (answer: Answer)
    requires list.Valid() && (op.DoInsertBefore? || op.DoInsertAfter? || op.DoRemove?)
    modifies list, list.nodes
    ensures list.Valid() && (list.Contents(), answer) == SeqStep(old(list.Contents()), op)
    ensures forall n :: n in list.nodes ==> n in old(list.nodes) || fresh(n)
  {
    hide Data;
    hide Linked;
    hide Inserted;
    hide Without;
    hide IndexOf;
    var found := NodeAt(list, op.i);
    if found == null {
      answer := Answer(DOES_NOT_EXIST, None);
    } else {
      PositionOf(list, op.i);
      match op {
        case DoInsertBefore(_, val) => list.InsertBefore(val, found);
        case DoInsertAfter(_, val) => list.InsertAfter(val, found);
        case DoRemove(_) => list.Remove(found);
      }
      answer := Answer(SUCCESS, None);
    }
  }

  lemma PositionOf(list: List, i: nat)
    requires list.Valid() && i < |list.nodes|
    ensures IndexOf(list.nodes, list.nodes[i]) == i
  {
  }
}
