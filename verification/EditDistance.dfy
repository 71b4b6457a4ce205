/** The edit script of googletest's edit_distance namespace (gtest.cc). */
module EditDistance {

  datatype Edit = Match | Add | Remove | Replace

  // ---- What a script means ----

  /** Elements of the left input that the edits consume. */
  function LeftUsed(edits: seq<Edit>): (n: nat)
    ensures n <= |edits|
  {
    if edits == [] then 0
    else LeftUsed(edits[..|edits| - 1]) + if edits[|edits| - 1] == Add then 0 else 1
  }

  /** Elements of the right input that the edits consume. */
  function RightUsed(edits: seq<Edit>): (n: nat)
    ensures n <= |edits|
  {
    if edits == [] then 0
    else RightUsed(edits[..|edits| - 1]) + if edits[|edits| - 1] == Remove then 0 else 1
  }

  /** The script consumes exactly both inputs and calls a match only what is equal. */
  ghost predicate Sound<T>(edits: seq<Edit>, left: seq<T>, right: seq<T>) {
    && LeftUsed(edits) == |left| && RightUsed(edits) == |right|
    && forall i :: 0 <= i < |edits| && edits[i] == Match ==>
         var l, r := LeftUsed(edits[..i]), RightUsed(edits[..i]);
         l < |left| && r < |right| && left[l] == right[r]
  }

  lemma {:induction false} UsedMonotone(edits: seq<Edit>, i: nat)
    requires i <= |edits|
    ensures LeftUsed(edits[..i]) <= LeftUsed(edits) && RightUsed(edits[..i]) <= RightUsed(edits)
    decreases |edits|
  {
    if i < |edits| {
      assert edits[..|edits| - 1][..i] == edits[..i];
      UsedMonotone(edits[..|edits| - 1], i);
    } else {
      assert edits[..i] == edits;
    }
  }

  /** Edit i consumes the element at the position its predecessors leave. */
  lemma UsedStep(edits: seq<Edit>, i: nat)
    requires i < |edits|
    ensures LeftUsed(edits[..i + 1]) == LeftUsed(edits[..i]) + (if edits[i] == Add then 0 else 1)
    ensures RightUsed(edits[..i + 1]) == RightUsed(edits[..i]) + (if edits[i] == Remove then 0 else 1)
    ensures LeftUsed(edits[..i + 1]) <= LeftUsed(edits) && RightUsed(edits[..i + 1]) <= RightUsed(edits)
  {
    assert edits[..i + 1][..i] == edits[..i];
    UsedMonotone(edits, i + 1);
  }

  /** Carry the script out: keep matches from left, take added and replacing elements from right. */
  ghost function Performed<T>(edits: seq<Edit>, left: seq<T>, right: seq<T>): seq<T>
    requires Sound(edits, left, right)
  {
    PerformedFirst(edits, left, right, |edits|)
  }

  ghost function PerformedFirst<T>(edits: seq<Edit>, left: seq<T>, right: seq<T>, n: nat): seq<T>
    requires Sound(edits, left, right) && n <= |edits|
  {
    if n == 0 then []
    else
      var done := PerformedFirst(edits, left, right, n - 1);
      UsedStep(edits, n - 1);
      match edits[n - 1]
      case Match => done + [left[LeftUsed(edits[..n - 1])]]
      case Remove => done
      case Add => done + [right[RightUsed(edits[..n - 1])]]
      case Replace => done + [right[RightUsed(edits[..n - 1])]]
  }

  /** A sound script turns left into right. */
  lemma {:induction false} SoundTransforms<T>(edits: seq<Edit>, left: seq<T>, right: seq<T>)
    requires Sound(edits, left, right)
    ensures Performed(edits, left, right) == right
  {
    PerformedPrefix(edits, left, right, |edits|);
    assert edits[..|edits|] == edits;
    assert right[..|right|] == right;
  }

  lemma {:induction false} PerformedPrefix<T>(edits: seq<Edit>, left: seq<T>, right: seq<T>, n: nat)
    requires Sound(edits, left, right) && n <= |edits|
    ensures RightUsed(edits[..n]) <= |right|
    ensures PerformedFirst(edits, left, right, n) == right[..RightUsed(edits[..n])]
    decreases n
  {
    hide LeftUsed;
    UsedMonotone(edits, n);
    if n == 0 {
      assert edits[..0] == [];
    } else {
      PerformedPrefix(edits, left, right, n - 1);
      UsedStep(edits, n - 1);
      hide RightUsed;
      var r := RightUsed(edits[..n - 1]);
      if edits[n - 1] != Remove {
        assert right[..r + 1] == right[..r] + [right[r]];
      }
    }
  }

  // ---- Tracing a move table back ----

  /** The last edit of a script for the first l and r elements. */
  type Moves = (nat, nat) -> Edit

  /** All that tracing back needs of a table: edges lead home, and matches are where the elements are equal. */
  ghost predicate Shaped(mv: Moves, left: seq<nat>, right: seq<nat>) {
    forall l: nat, r: nat :: l <= |left| && r <= |right| ==> ShapedAt(mv(l, r), left, right, l, r)
  }

  predicate ShapedAt(move: Edit, left: seq<nat>, right: seq<nat>, l: nat, r: nat)
    requires l <= |left| && r <= |right|
  {
    if r == 0 then move == Remove
    else if l == 0 then move == Add
    else move == Match <==> left[l - 1] == right[r - 1]
  }

  /** The cell a move into (l, r) comes from. */
  function PrevLeft(move: Edit, l: nat): int {
    if move == Add then l else l - 1
  }

  function PrevRight(move: Edit, r: nat): int {
    if move == Remove then r else r - 1
  }

  /** The moves from (0, 0) to (l, r). */
  ghost function Script(mv: Moves, left: seq<nat>, right: seq<nat>, l: nat, r: nat): seq<Edit>
    requires Shaped(mv, left, right) && l <= |left| && r <= |right|
    decreases l + r
  {
    if l == 0 && r == 0 then []
    else
      var move := mv(l, r);
      assert ShapedAt(move, left, right, l, r);
      Script(mv, left, right, PrevLeft(move, l), PrevRight(move, r)) + [move]
  }

  /** Whatever chose between adding, removing and replacing, the script is sound. */
  lemma {:induction false} ScriptSound(mv: Moves, left: seq<nat>, right: seq<nat>, l: nat, r: nat)
    requires Shaped(mv, left, right) && l <= |left| && r <= |right|
    ensures Sound(Script(mv, left, right, l, r), left[..l], right[..r])
    decreases l + r
  {
    hide LeftUsed;
    hide RightUsed;
    hide Sound;
    if l == 0 && r == 0 {
      EmptySound(left[..l], right[..r]);
    } else {
      var move := mv(l, r);
      assert ShapedAt(move, left, right, l, r);
      var l', r' := PrevLeft(move, l), PrevRight(move, r);
      ScriptSound(mv, left, right, l', r');
      assert left[..l][..l'] == left[..l'] && right[..r][..r'] == right[..r'];
      SoundSnoc(Script(mv, left, right, l', r'), left[..l], right[..r], l', r', move);
    }
  }

  lemma EmptySound<T>(left: seq<T>, right: seq<T>)
    requires left == [] && right == []
    ensures Sound([], left, right)
  {
  }

  lemma SoundSnoc<T>(edits: seq<Edit>, left: seq<T>, right: seq<T>, l: nat, r: nat, move: Edit)
    requires l == (if move == Add then |left| else |left| - 1) && r == (if move == Remove then |right| else |right| - 1)
    requires Sound(edits, left[..l], right[..r]) && (move == Match ==> left[l] == right[r])
    ensures Sound(edits + [move], left, right)
  {
    var more := edits + [move];
    assert more[..|edits|] == edits;
    forall i | 0 <= i < |more| && more[i] == Match
      ensures var p, q := LeftUsed(more[..i]), RightUsed(more[..i]); p < |left| && q < |right| && left[p] == right[q]
    {
      if i < |edits| {
        assert more[..i] == edits[..i];
      }
    }
  }

  // ---- The tables ----

  /**
   * The arithmetic of the cost table: a count as a cost, a cost plus 1, a cost plus 1.00001,
   * and the comparison. It is left arbitrary, so that doubles with their rounding are one case.
   */
  datatype Arithmetic<!C> = Arithmetic(count: nat -> C, plusEdit: C -> C, plusReplace: C -> C, less: (C, C) -> bool)

  function Cost<C>(ar: Arithmetic<C>, left: seq<nat>, right: seq<nat>, l: nat, r: nat): C
    requires l <= |left| && r <= |right|
    decreases l + r
  {
    if r == 0 then ar.count(l)
    else if l == 0 then ar.count(r)
    else if left[l - 1] == right[r - 1] then Cost(ar, left, right, l - 1, r - 1)
    else
      var add, remove, replace :=
        Cost(ar, left, right, l, r - 1), Cost(ar, left, right, l - 1, r), Cost(ar, left, right, l - 1, r - 1);
      if ar.less(add, remove) && ar.less(add, replace) then ar.plusEdit(add)
      else if ar.less(remove, add) && ar.less(remove, replace) then ar.plusEdit(remove)
      else ar.plusReplace(replace)
  }

  function Move<C>(ar: Arithmetic<C>, left: seq<nat>, right: seq<nat>, l: nat, r: nat): Edit
    requires l <= |left| && r <= |right|
  {
    if r == 0 then Remove
    else if l == 0 then Add
    else if left[l - 1] == right[r - 1] then Match
    else
      var add, remove, replace :=
        Cost(ar, left, right, l, r - 1), Cost(ar, left, right, l - 1, r), Cost(ar, left, right, l - 1, r - 1);
      if ar.less(add, remove) && ar.less(add, replace) then Add
      else if ar.less(remove, add) && ar.less(remove, replace) then Remove
      else Replace
  }

  ghost function MoveTable<C>(ar: Arithmetic<C>, left: seq<nat>, right: seq<nat>): (mv: Moves)
    ensures Shaped(mv, left, right)
    ensures forall l: nat, r: nat :: l <= |left| && r <= |right| ==> mv(l, r) == Move(ar, left, right, l, r)
  {
    (l: nat, r: nat) => if l <= |left| && r <= |right| then Move(ar, left, right, l, r) else Match
  }

  /** Fill one inner cell from its three neighbours. */
  method FillCell<C>(ar: Arithmetic<C>, left: seq<nat>, right: seq<nat>,
                     costs: array2<C>, bestMove: array2<Edit>, l: nat, r: nat)
    requires l < |left| && r < |right| && (costs as object) != bestMove
    requires costs.Length0 == |left| + 1 && costs.Length1 == |right| + 1
    requires bestMove.Length0 == |left| + 1 && bestMove.Length1 == |right| + 1
    requires costs[l, r] == Cost(ar, left, right, l, r)
    requires costs[l + 1, r] == Cost(ar, left, right, l + 1, r)
    requires costs[l, r + 1] == Cost(ar, left, right, l, r + 1)
    modifies costs, bestMove
    ensures costs[l + 1, r + 1] == Cost(ar, left, right, l + 1, r + 1)
    ensures bestMove[l + 1, r + 1] == Move(ar, left, right, l + 1, r + 1)
    ensures forall i, j :: 0 <= i <= |left| && 0 <= j <= |right| && !(i == l + 1 && j == r + 1) ==>
              costs[i, j] == old(costs[i, j])
    ensures forall i, j :: 0 <= i <= |left| && 0 <= j <= |right| && !(i == l + 1 && j == r + 1) ==>
              bestMove[i, j] == old(bestMove[i, j])
  {
    if left[l] == right[r] {
      costs[l + 1, r + 1] := costs[l, r];
      bestMove[l + 1, r + 1] := Match;
    } else {
      var add, remove, replace := costs[l + 1, r], costs[l, r + 1], costs[l, r];
      if ar.less(add, remove) && ar.less(add, replace) {
        costs[l + 1, r + 1] := ar.plusEdit(add);
        bestMove[l + 1, r + 1] := Add;
      } else if ar.less(remove, add) && ar.less(remove, replace) {
        costs[l + 1, r + 1] := ar.plusEdit(remove);
        bestMove[l + 1, r + 1] := Remove;
      } else {
        costs[l + 1, r + 1] := ar.plusReplace(replace);
        bestMove[l + 1, r + 1] := Replace;
      }
    }
  }

  method FillTables<C>(ar: Arithmetic<C>, left: seq<nat>, right: seq<nat>) returns (bestMove: array2<Edit>)
    ensures fresh(bestMove)
    ensures bestMove.Length0 == |left| + 1 && bestMove.Length1 == |right| + 1
    ensures forall i, j :: 0 <= i <= |left| && 0 <= j <= |right| ==> bestMove[i, j] == Move(ar, left, right, i, j)
  {
    hide Cost;
    hide Move;
    var zero := ar.count(0);
    var costs := new C[|left| + 1, |right| + 1]((_, _) => zero);
    bestMove := new Edit[|left| + 1, |right| + 1];
    FillEdges(ar, left, right, costs, bestMove);
    FillInside(ar, left, right, costs, bestMove);
  }

  /** An empty right is reached by removing, an empty left by adding. */
  method FillEdges<C>(ar: Arithmetic<C>, left: seq<nat>, right: seq<nat>, costs: array2<C>, bestMove: array2<Edit>)
    requires (costs as object) != bestMove
    requires costs.Length0 == |left| + 1 && costs.Length1 == |right| + 1
    requires bestMove.Length0 == |left| + 1 && bestMove.Length1 == |right| + 1
    modifies costs, bestMove
    ensures forall i :: 0 <= i <= |left| ==> costs[i, 0] == Cost(ar, left, right, i, 0)
    ensures forall i :: 0 <= i <= |left| ==> bestMove[i, 0] == Move(ar, left, right, i, 0)
    ensures forall j :: 0 <= j <= |right| ==> costs[0, j] == Cost(ar, left, right, 0, j)
    ensures forall j :: 0 <= j <= |right| ==> bestMove[0, j] == Move(ar, left, right, 0, j)
  {
    hide Cost;
    hide Move;
    for l := 0 to |left| + 1
      invariant forall i :: 0 <= i < l ==> costs[i, 0] == Cost(ar, left, right, i, 0)
      invariant forall i :: 0 <= i < l ==> bestMove[i, 0] == Move(ar, left, right, i, 0)
    {
      EdgeCells(ar, left, right, l, 0);
      costs[l, 0] := ar.count(l);
      bestMove[l, 0] := Remove;
    }
    for r := 1 to |right| + 1
      invariant forall i :: 0 <= i <= |left| ==> costs[i, 0] == Cost(ar, left, right, i, 0)
      invariant forall i :: 0 <= i <= |left| ==> bestMove[i, 0] == Move(ar, left, right, i, 0)
      invariant forall j :: 0 <= j < r ==> costs[0, j] == Cost(ar, left, right, 0, j)
      invariant forall j :: 0 <= j < r ==> bestMove[0, j] == Move(ar, left, right, 0, j)
    {
      EdgeCells(ar, left, right, 0, r);
      costs[0, r] := ar.count(r);
      bestMove[0, r] := Add;
    }
  }

  lemma EdgeCells<C>(ar: Arithmetic<C>, left: seq<nat>, right: seq<nat>, l: nat, r: nat)
    requires l <= |left| && r <= |right| && (l == 0 || r == 0)
    ensures Cost(ar, left, right, l, r) == ar.count(if r == 0 then l else r)
    ensures Move(ar, left, right, l, r) == if r == 0 then Remove else Add
  {
  }

  /** Row after row, each cell from the one above, the one before and the one diagonally before. */
  method FillInside<C>(ar: Arithmetic<C>, left: seq<nat>, right: seq<nat>, costs: array2<C>, bestMove: array2<Edit>)
    requires (costs as object) != bestMove
    requires costs.Length0 == |left| + 1 && costs.Length1 == |right| + 1
    requires bestMove.Length0 == |left| + 1 && bestMove.Length1 == |right| + 1
    requires forall i :: 0 <= i <= |left| ==> costs[i, 0] == Cost(ar, left, right, i, 0)
    requires forall i :: 0 <= i <= |left| ==> bestMove[i, 0] == Move(ar, left, right, i, 0)
    requires forall j :: 0 <= j <= |right| ==> costs[0, j] == Cost(ar, left, right, 0, j)
    requires forall j :: 0 <= j <= |right| ==> bestMove[0, j] == Move(ar, left, right, 0, j)
    modifies costs, bestMove
    ensures forall i, j :: 0 <= i <= |left| && 0 <= j <= |right| ==> bestMove[i, j] == Move(ar, left, right, i, j)
  {
    hide Cost;
    hide Move;
    for l := 0 to |left|
      invariant forall i :: 0 <= i <= |left| ==> costs[i, 0] == Cost(ar, left, right, i, 0)
      invariant forall i :: 0 <= i <= |left| ==> bestMove[i, 0] == Move(ar, left, right, i, 0)
      invariant forall i, j :: 0 <= i <= l && 0 <= j <= |right| ==> costs[i, j] == Cost(ar, left, right, i, j)
      invariant forall i, j :: 0 <= i <= l && 0 <= j <= |right| ==> bestMove[i, j] == Move(ar, left, right, i, j)
    {
      ghost var row := l + 1;
      for r := 0 to |right|
        invariant forall i :: 0 <= i <= |left| ==> costs[i, 0] == Cost(ar, left, right, i, 0)
        invariant forall i :: 0 <= i <= |left| ==> bestMove[i, 0] == Move(ar, left, right, i, 0)
        invariant forall i, j :: 0 <= i <= l && 0 <= j <= |right| ==> costs[i, j] == Cost(ar, left, right, i, j)
        invariant forall i, j :: 0 <= i <= l && 0 <= j <= |right| ==> bestMove[i, j] == Move(ar, left, right, i, j)
        invariant forall j :: 0 <= j <= r ==> costs[row, j] == Cost(ar, left, right, row, j)
        invariant forall j :: 0 <= j <= r ==> bestMove[row, j] == Move(ar, left, right, row, j)
      {
        FillCell(ar, left, right, costs, bestMove, l, r);
      }
    }
  }

  function Reversed(s: seq<Edit>): seq<Edit> {
    if s == [] then [] else Reversed(s[1..]) + [s[0]]
  }

  lemma {:induction false} ReversedSnoc(s: seq<Edit>, e: Edit)
    ensures Reversed(s + [e]) == [e] + Reversed(s)
  {
    if s == [] {
      assert [] + [e] == [e];
      assert Reversed([e]) == Reversed([]) + [e];
    } else {
      assert (s + [e])[1..] == s[1..] + [e];
      ReversedSnoc(s[1..], e);
    }
  }

  /** Fill the tables, walk the moves back from the far corner, and reverse the walk. */
  method CalculateOptimalEdits<C>(ar: Arithmetic<C>, left: seq<nat>, right: seq<nat>) returns (edits: seq<Edit>)
    ensures edits == Script(MoveTable(ar, left, right), left, right, |left|, |right|)
    ensures Sound(edits, left, right)
  {
    hide Sound;
    hide Move;
    var bestMove := FillTables(ar, left, right);
    ghost var mv := MoveTable(ar, left, right);
    var l, r := |left|, |right|;
    var path: seq<Edit> := [];
    while l > 0 || r > 0
      invariant 0 <= l <= |left| && 0 <= r <= |right|
      invariant forall i, j :: 0 <= i <= |left| && 0 <= j <= |right| ==> bestMove[i, j] == mv(i, j)
      invariant Script(mv, left, right, l, r) + Reversed(path) == Script(mv, left, right, |left|, |right|)
      decreases l + r
    {
      var move := bestMove[l, r];
      assert ShapedAt(mv(l, r), left, right, l, r);
      ReversedSnoc(path, move);
      path := path + [move];
      l := if move == Add then l else l - 1;
      r := if move == Remove then r else r - 1;
    }
    edits := Reversed(path);
    ScriptSound(mv, left, right, |left|, |right|);
    assert left[..|left|] == left && right[..|right|] == right;
  }

  // ---- Small scripts ----

  /** What is equal is kept: a to ab adds, ab to a removes, in any arithmetic that counts up. */
  lemma MatchesKept<C>(ar: Arithmetic<C>, one: seq<nat>, two: seq<nat>)
    requires one == [0] && two == [0, 1]
    requires ar.less(ar.count(0), ar.count(1)) && ar.less(ar.count(0), ar.count(2))
    ensures Script(MoveTable(ar, one, two), one, two, 1, 2) == [Match, Add]
    ensures !ar.less(ar.count(2), ar.count(0)) ==> Script(MoveTable(ar, two, one), two, one, 2, 1) == [Match, Remove]
  {
    var mv, vm := MoveTable(ar, one, two), MoveTable(ar, two, one);
    assert Cost(ar, one, two, 1, 1) == ar.count(0) && Cost(ar, two, one, 1, 1) == ar.count(0);
    assert mv(1, 2) == Add && mv(1, 1) == Match && vm(1, 1) == Match;
    assert !ar.less(ar.count(2), ar.count(0)) ==> vm(2, 1) == Remove;
    hide MoveTable;
    hide Move;
    assert Script(mv, one, two, 1, 1) == [Match] && Script(vm, two, one, 1, 1) == [Match];
  }


  /**
   * Not minimal, in any arithmetic where nothing is less than itself: the tie between add and
   * remove falls to replace, three edits for aba to bab where two do.
   */
  lemma NotMinimal<C(!new)>(ar: Arithmetic<C>) returns (l: seq<nat>, r: seq<nat>)
    requires forall x :: !ar.less(x, x)
    ensures l == [0, 1, 0] && r == [1, 0, 1]
    ensures Script(MoveTable(ar, l, r), l, r, 3, 3) == [Replace, Replace, Replace]
    ensures Sound([Add, Match, Match, Remove], l, r)
  {
    l, r := [0, 1, 0], [1, 0, 1];
    ThreeReplaces(ar, l, r);
    TwoEditsDo(l, r);
  }

  lemma ThreeReplaces<C(!new)>(ar: Arithmetic<C>, l: seq<nat>, r: seq<nat>)
    requires l == [0, 1, 0] && r == [1, 0, 1] && forall x :: !ar.less(x, x)
    ensures Script(MoveTable(ar, l, r), l, r, 3, 3) == [Replace, Replace, Replace]
  {
    assert Cost(ar, l, r, 1, 2) == ar.count(1) && Cost(ar, l, r, 2, 1) == ar.count(1);
    assert Cost(ar, l, r, 2, 3) == ar.count(1) && Cost(ar, l, r, 3, 2) == ar.count(1);
    var mv := MoveTable(ar, l, r);
    assert mv(3, 3) == Replace && mv(2, 2) == Replace && mv(1, 1) == Replace;
    hide Cost;
    hide Move;
    hide MoveTable;
    assert Script(mv, l, r, 1, 1) == [Replace];
    assert Script(mv, l, r, 2, 2) == [Replace, Replace];
  }

  lemma TwoEditsDo(l: seq<nat>, r: seq<nat>)
    requires l == [0, 1, 0] && r == [1, 0, 1]
    ensures Sound([Add, Match, Match, Remove], l, r)
  {
    var s := [Add, Match, Match, Remove];
    UsedStep(s, 0);
    UsedStep(s, 1);
    UsedStep(s, 2);
    UsedStep(s, 3);
    assert s[..4] == s && s[..0] == [];
  }
}
