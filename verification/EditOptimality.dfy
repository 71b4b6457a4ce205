/** When the edit script of gtest.cc is the cheapest one, and what keeps it from being so. */
module EditOptimality {
  import opened EditDistance

  /** Replacing is a little more expensive than adding or removing. */
  function Price(e: Edit): real {
    match e
    case Match => 0.0
    case Add => 1.0
    case Remove => 1.0
    case Replace => 1.00001
  }

  function Weight(edits: seq<Edit>): real {
    if edits == [] then 0.0 else Weight(edits[..|edits| - 1]) + Price(edits[|edits| - 1])
  }

  lemma WeightSnoc(edits: seq<Edit>, e: Edit)
    ensures Weight(edits + [e]) == Weight(edits) + Price(e)
  {
    assert (edits + [e])[..|edits|] == edits;
  }

  function Min(a: real, b: real): real {
    if a <= b then a else b
  }

  /** The least weight of a script for the first l and r elements. */
  function Best(left: seq<nat>, right: seq<nat>, l: nat, r: nat): real
    requires l <= |left| && r <= |right|
    decreases l + r
  {
    if r == 0 then l as real
    else if l == 0 then r as real
    else
      var diagonal := Best(left, right, l - 1, r - 1);
      Min(Min(Best(left, right, l, r - 1), Best(left, right, l - 1, r)) + 1.0,
          diagonal + if left[l - 1] == right[r - 1] then 0.0 else 1.00001)
  }

  // ---- No script is cheaper than Best ----

  /** Without its last edit a sound script is sound for what is left to consume. */
  lemma SoundFront<T>(edits: seq<Edit>, left: seq<T>, right: seq<T>, l: nat, r: nat)
    requires edits != [] && Sound(edits, left, right)
    requires l == LeftUsed(edits[..|edits| - 1]) && r == RightUsed(edits[..|edits| - 1])
    ensures l <= |left| && r <= |right| && Sound(edits[..|edits| - 1], left[..l], right[..r])
    ensures edits[|edits| - 1] == Match ==> left[|left| - 1] == right[|right| - 1]
  {
    hide LeftUsed;
    hide RightUsed;
    var n := |edits| - 1;
    var front := edits[..n];
    UsedMonotone(edits, n);
    UsedStep(edits, n);
    assert edits[..n + 1] == edits;
    forall i | 0 <= i < n && front[i] == Match
      ensures var p, q := LeftUsed(front[..i]), RightUsed(front[..i]); p < l && q < r && left[p] == right[q]
    {
      assert front[..i] == edits[..i] && edits[i] == Match;
      UsedStep(front, i);
    }
  }

  lemma {:induction false} NoScriptCheaper(edits: seq<Edit>, left: seq<nat>, right: seq<nat>, l: nat, r: nat)
    requires l <= |left| && r <= |right| && Sound(edits, left[..l], right[..r])
    ensures Weight(edits) >= Best(left, right, l, r)
    decreases |edits|
  {
    if edits != [] {
      var n := |edits| - 1;
      var l', r' := LeftUsed(edits[..n]), RightUsed(edits[..n]);
      SoundFront(edits, left[..l], right[..r], l', r');
      assert left[..l][..l'] == left[..l'] && right[..r][..r'] == right[..r'];
      NoScriptCheaper(edits[..n], left, right, l', r');
    }
  }

  /** And some script costs just that. */
  lemma {:induction false} BestAttained(left: seq<nat>, right: seq<nat>, l: nat, r: nat) returns (edits: seq<Edit>)
    requires l <= |left| && r <= |right|
    ensures Sound(edits, left[..l], right[..r]) && Weight(edits) == Best(left, right, l, r)
    decreases l + r
  {
    hide Sound;
    if l == 0 && r == 0 {
      edits := [];
      EmptySound(left[..l], right[..r]);
    } else {
      var move := CheapestMove(left, right, l, r);
      var l', r' := PrevLeft(move, l), PrevRight(move, r);
      var front := BestAttained(left, right, l', r');
      assert left[..l][..l'] == left[..l'] && right[..r][..r'] == right[..r'];
      SoundSnoc(front, left[..l], right[..r], l', r', move);
      WeightSnoc(front, move);
      edits := front + [move];
    }
  }

  lemma CheapestMove(left: seq<nat>, right: seq<nat>, l: nat, r: nat) returns (move: Edit)
    requires l <= |left| && r <= |right| && (l > 0 || r > 0)
    ensures (l == 0 ==> move == Add) && (r == 0 ==> move == Remove)
    ensures move == Match ==> left[l - 1] == right[r - 1]
    ensures Best(left, right, l, r) == Best(left, right, PrevLeft(move, l), PrevRight(move, r)) + Price(move)
  {
    if r == 0 {
      move := Remove;
    } else if l == 0 {
      move := Add;
    } else if Best(left, right, l, r) == Best(left, right, l, r - 1) + 1.0 {
      move := Add;
    } else if Best(left, right, l, r) == Best(left, right, l - 1, r) + 1.0 {
      move := Remove;
    } else {
      move := if left[l - 1] == right[r - 1] then Match else Replace;
    }
  }

  // ---- The exact condition, for every move table ----

  /** One element fewer on either side saves at most the price of an edit. */
  lemma {:induction false} NeighboursClose(left: seq<nat>, right: seq<nat>, l: nat, r: nat)
    requires l <= |left| && r <= |right|
    ensures l > 0 ==> Best(left, right, l - 1, r) <= Best(left, right, l, r) + 1.0
    ensures r > 0 ==> Best(left, right, l, r - 1) <= Best(left, right, l, r) + 1.0
    decreases l + r
  {
    if l > 0 && r > 0 {
      NeighboursClose(left, right, l - 1, r);
      NeighboursClose(left, right, l, r - 1);
    }
  }

  /** No other last edit would reach (l, r) for less than this one. */
  predicate Tight(move: Edit, left: seq<nat>, right: seq<nat>, l: nat, r: nat)
    requires l <= |left| && r <= |right| && (l > 0 || r > 0) && ShapedAt(move, left, right, l, r)
  {
    Best(left, right, l, r) == Best(left, right, PrevLeft(move, l), PrevRight(move, r)) + Price(move)
  }

  /** Every step of the path traced back from (l, r) is tight. */
  ghost predicate TightPath(mv: Moves, left: seq<nat>, right: seq<nat>, l: nat, r: nat)
    requires Shaped(mv, left, right) && l <= |left| && r <= |right|
    decreases l + r
  {
    (l == 0 && r == 0) || (
      && ShapedAt(mv(l, r), left, right, l, r)
      && Tight(mv(l, r), left, right, l, r)
      && TightPath(mv, left, right, PrevLeft(mv(l, r), l), PrevRight(mv(l, r), r)))
  }

  /**
   * Edges and matches are always tight. Elsewhere a step is loose exactly if one of the
   * other two edits comes from a cell that makes it cheaper.
   */
  lemma LooseSteps(move: Edit, left: seq<nat>, right: seq<nat>, l: nat, r: nat)
    requires l <= |left| && r <= |right| && (l > 0 || r > 0) && ShapedAt(move, left, right, l, r)
    ensures l == 0 || r == 0 || move == Match ==> Tight(move, left, right, l, r)
    ensures l > 0 && r > 0 && move != Match ==>
              var add := Best(left, right, l, r - 1) + 1.0;
              var remove := Best(left, right, l - 1, r) + 1.0;
              var replace := Best(left, right, l - 1, r - 1) + 1.00001;
              Tight(move, left, right, l, r) <==>
                (if move == Add then add <= remove && add <= replace
                 else if move == Remove then remove <= add && remove <= replace
                 else replace <= add && replace <= remove)
  {
    if l > 0 && r > 0 {
      NeighboursClose(left, right, l, r - 1);
      NeighboursClose(left, right, l - 1, r);
    }
  }

  lemma StepBound(move: Edit, left: seq<nat>, right: seq<nat>, l: nat, r: nat)
    requires l <= |left| && r <= |right| && (l > 0 || r > 0) && ShapedAt(move, left, right, l, r)
    ensures Best(left, right, l, r) <= Best(left, right, PrevLeft(move, l), PrevRight(move, r)) + Price(move)
  {
  }

  lemma WeightAtLeastBest(mv: Moves, left: seq<nat>, right: seq<nat>, l: nat, r: nat)
    requires Shaped(mv, left, right) && l <= |left| && r <= |right|
    ensures Weight(Script(mv, left, right, l, r)) >= Best(left, right, l, r)
  {
    hide Best;
    hide Sound;
    hide Shaped;
    ScriptSound(mv, left, right, l, r);
    NoScriptCheaper(Script(mv, left, right, l, r), left, right, l, r);
  }

  /** Tracing back from a cell gives a cheapest script exactly if every step of the trace is tight. */
  lemma {:induction false} ExactPath(mv: Moves, left: seq<nat>, right: seq<nat>, l: nat, r: nat)
    requires Shaped(mv, left, right) && l <= |left| && r <= |right|
    ensures Weight(Script(mv, left, right, l, r)) == Best(left, right, l, r) <==> TightPath(mv, left, right, l, r)
    decreases l + r
  {
    if l > 0 || r > 0 {
      hide Best;
      var move := mv(l, r);
      assert ShapedAt(move, left, right, l, r);
      var p, q := PrevLeft(move, l), PrevRight(move, r);
      StepBound(move, left, right, l, r);
      WeightAtLeastBest(mv, left, right, p, q);
      WeightSnoc(Script(mv, left, right, p, q), move);
      ExactPath(mv, left, right, p, q);
    }
  }

  /** No sound script for the whole inputs weighs less. */
  ghost predicate Cheapest(script: seq<Edit>, left: seq<nat>, right: seq<nat>) {
    forall edits :: Sound(edits, left, right) ==> Weight(script) <= Weight(edits)
  }

  lemma CheapestIsBest(script: seq<Edit>, left: seq<nat>, right: seq<nat>)
    requires Sound(script, left, right)
    ensures Cheapest(script, left, right) <==> Weight(script) == Best(left, right, |left|, |right|)
  {
    hide Sound;
    hide Best;
    hide Weight;
    assert left[..|left|] == left && right[..|right|] == right;
    NoScriptCheaper(script, left, right, |left|, |right|);
    var best := BestAttained(left, right, |left|, |right|);
    forall edits | Sound(edits, left, right)
      ensures Weight(edits) >= Best(left, right, |left|, |right|)
    {
      NoScriptCheaper(edits, left, right, |left|, |right|);
    }
  }

  /**
   * For all inputs and every move table, whatever rounding filled it: the script that is traced
   * back is the cheapest of all sound ones exactly if every step of its path is tight.
   */
  lemma CheapestExactly(mv: Moves, left: seq<nat>, right: seq<nat>)
    requires Shaped(mv, left, right)
    ensures Cheapest(Script(mv, left, right, |left|, |right|), left, right)
       <==> TightPath(mv, left, right, |left|, |right|)
  {
    hide Cheapest;
    hide TightPath;
    hide Sound;
    hide Best;
    hide Weight;
    assert left[..|left|] == left && right[..|right|] == right;
    ScriptSound(mv, left, right, |left|, |right|);
    CheapestIsBest(Script(mv, left, right, |left|, |right|), left, right);
    ExactPath(mv, left, right, |left|, |right|);
  }

  /** The path traced back from (l, r) goes through (i, j). */
  ghost predicate OnPath(mv: Moves, left: seq<nat>, right: seq<nat>, l: nat, r: nat, i: nat, j: nat)
    requires Shaped(mv, left, right) && l <= |left| && r <= |right|
    decreases l + r
  {
    (l == i && r == j) || (
      && (l > 0 || r > 0)
      && ShapedAt(mv(l, r), left, right, l, r)
      && OnPath(mv, left, right, PrevLeft(mv(l, r), l), PrevRight(mv(l, r), r), i, j))
  }

  lemma {:induction false} TightBelow(mv: Moves, left: seq<nat>, right: seq<nat>, l: nat, r: nat, i: nat, j: nat)
    requires Shaped(mv, left, right) && l <= |left| && r <= |right|
    requires TightPath(mv, left, right, l, r) && OnPath(mv, left, right, l, r, i, j)
    ensures i <= l && j <= r && TightPath(mv, left, right, i, j)
    decreases l + r
  {
    hide Tight;
    if !(l == i && r == j) {
      TightBelow(mv, left, right, PrevLeft(mv(l, r), l), PrevRight(mv(l, r), r), i, j);
    }
  }

  // ---- Exact arithmetic: the guards of the replace branch ----

  /** The costs without rounding. */
  const Exact: Arithmetic<real> :=
    Arithmetic((n: nat) => n as real, (x: real) => x + 1.0, (x: real) => x + 1.00001, (x: real, y: real) => x < y)

  /** Without rounding, the cost table holds the weights of the scripts. */
  lemma {:induction false} ScriptWeight(left: seq<nat>, right: seq<nat>, l: nat, r: nat)
    requires l <= |left| && r <= |right|
    ensures Weight(Script(MoveTable(Exact, left, right), left, right, l, r)) == Cost(Exact, left, right, l, r)
    decreases l + r
  {
    if l > 0 || r > 0 {
      var mv := MoveTable(Exact, left, right);
      var move := mv(l, r);
      var l', r' := PrevLeft(move, l), PrevRight(move, r);
      ScriptWeight(left, right, l', r');
      WeightSnoc(Script(mv, left, right, l', r'), move);
    }
  }

  lemma CostAtLeastBest(left: seq<nat>, right: seq<nat>, l: nat, r: nat)
    requires l <= |left| && r <= |right|
    ensures Cost(Exact, left, right, l, r) >= Best(left, right, l, r)
  {
    hide Cost;
    hide Best;
    ScriptWeight(left, right, l, r);
    WeightAtLeastBest(MoveTable(Exact, left, right), left, right, l, r);
  }

  /**
   * The replace branch is taken although adding or removing is cheaper, by a tie between
   * the two or by a tie of one of them with replacing.
   */
  predicate Missed(left: seq<nat>, right: seq<nat>, l: nat, r: nat)
    requires 0 < l <= |left| && 0 < r <= |right|
  {
    && Move(Exact, left, right, l, r) == Replace
    && Min(Cost(Exact, left, right, l, r - 1), Cost(Exact, left, right, l - 1, r))
       < Cost(Exact, left, right, l - 1, r - 1) + 0.00001
  }

  /** A cell whose three neighbours are right is right itself exactly unless its move is missed. */
  lemma ExactCell(left: seq<nat>, right: seq<nat>, l: nat, r: nat)
    requires 0 < l <= |left| && 0 < r <= |right|
    requires Cost(Exact, left, right, l, r - 1) == Best(left, right, l, r - 1)
    requires Cost(Exact, left, right, l - 1, r) == Best(left, right, l - 1, r)
    requires Cost(Exact, left, right, l - 1, r - 1) == Best(left, right, l - 1, r - 1)
    ensures Cost(Exact, left, right, l, r) == Best(left, right, l, r) <==> !Missed(left, right, l, r)
  {
    NeighboursClose(left, right, l, r - 1);
    NeighboursClose(left, right, l - 1, r);
  }

  predicate NeverMissed(left: seq<nat>, right: seq<nat>, l: nat, r: nat)
    requires l <= |left| && r <= |right|
  {
    forall i, j :: 0 < i <= l && 0 < j <= r ==> !Missed(left, right, i, j)
  }

  lemma {:induction false} ExactTable(left: seq<nat>, right: seq<nat>, l: nat, r: nat)
    requires l <= |left| && r <= |right| && NeverMissed(left, right, l, r)
    ensures Cost(Exact, left, right, l, r) == Best(left, right, l, r)
    decreases l + r
  {
    if l > 0 && r > 0 {
      hide Missed;
      ExactTable(left, right, l - 1, r);
      ExactTable(left, right, l, r - 1);
      ExactTable(left, right, l - 1, r - 1);
      ExactCell(left, right, l, r);
    }
  }

  /** The script without rounding. */
  ghost function ExactScript(left: seq<nat>, right: seq<nat>): (script: seq<Edit>) {
    Script(MoveTable(Exact, left, right), left, right, |left|, |right|)
  }

  lemma ExactCheapest(left: seq<nat>, right: seq<nat>)
    ensures Cheapest(ExactScript(left, right), left, right)
       <==> Cost(Exact, left, right, |left|, |right|) == Best(left, right, |left|, |right|)
  {
    hide Cheapest;
    hide Sound;
    hide Best;
    hide Cost;
    hide Weight;
    assert left[..|left|] == left && right[..|right|] == right;
    ScriptSound(MoveTable(Exact, left, right), left, right, |left|, |right|);
    ScriptWeight(left, right, |left|, |right|);
    CheapestIsBest(ExactScript(left, right), left, right);
  }

  /** Where no cell of the table is missed, the script is the cheapest. */
  lemma CheapestUnlessMissed(left: seq<nat>, right: seq<nat>)
    requires NeverMissed(left, right, |left|, |right|)
    ensures Cheapest(ExactScript(left, right), left, right)
  {
    hide Cheapest;
    hide Cost;
    hide Best;
    ExactTable(left, right, |left|, |right|);
    ExactCheapest(left, right);
  }

  /**
   * The same without naming the code's tables. A cell is untied when the elements are equal, when
   * replacing is the cheapest, or when adding or removing is cheaper than the other two by itself.
   */
  predicate Untied(left: seq<nat>, right: seq<nat>, l: nat, r: nat)
    requires 0 < l <= |left| && 0 < r <= |right|
  {
    var add, remove := Best(left, right, l, r - 1), Best(left, right, l - 1, r);
    var replace := Best(left, right, l - 1, r - 1);
    || left[l - 1] == right[r - 1]
    || (add >= replace + 0.00001 && remove >= replace + 0.00001)
    || (add < remove && add < replace)
    || (remove < add && remove < replace)
  }

  /** A cell whose three neighbours are right is right itself exactly if it is untied. */
  lemma UntiedIsExact(left: seq<nat>, right: seq<nat>, l: nat, r: nat)
    requires 0 < l <= |left| && 0 < r <= |right|
    requires Cost(Exact, left, right, l, r - 1) == Best(left, right, l, r - 1)
    requires Cost(Exact, left, right, l - 1, r) == Best(left, right, l - 1, r)
    requires Cost(Exact, left, right, l - 1, r - 1) == Best(left, right, l - 1, r - 1)
    ensures Cost(Exact, left, right, l, r) == Best(left, right, l, r) <==> Untied(left, right, l, r)
  {
    NeighboursClose(left, right, l, r - 1);
    NeighboursClose(left, right, l - 1, r);
  }

  predicate NeverTied(left: seq<nat>, right: seq<nat>, l: nat, r: nat)
    requires l <= |left| && r <= |right|
  {
    forall i, j :: 0 < i <= l && 0 < j <= r ==> Untied(left, right, i, j)
  }

  lemma {:induction false} UntiedTable(left: seq<nat>, right: seq<nat>, l: nat, r: nat)
    requires l <= |left| && r <= |right| && NeverTied(left, right, l, r)
    ensures Cost(Exact, left, right, l, r) == Best(left, right, l, r)
    decreases l + r
  {
    if l > 0 && r > 0 {
      hide Untied;
      hide Best;
      hide Cost;
      UntiedTable(left, right, l - 1, r);
      UntiedTable(left, right, l, r - 1);
      UntiedTable(left, right, l - 1, r - 1);
      UntiedIsExact(left, right, l, r);
    } else {
      CostEdges(left, right, l, r);
    }
  }

  lemma CostEdges(left: seq<nat>, right: seq<nat>, l: nat, r: nat)
    requires l <= |left| && r <= |right| && (l == 0 || r == 0)
    ensures Cost(Exact, left, right, l, r) == Best(left, right, l, r)
  {
  }

  /** Inputs without a tied cell get a cheapest script. */
  lemma CheapestUnlessTied(left: seq<nat>, right: seq<nat>)
    requires NeverTied(left, right, |left|, |right|)
    ensures Cheapest(ExactScript(left, right), left, right)
  {
    hide Cheapest;
    hide Cost;
    hide Best;
    hide NeverTied;
    UntiedTable(left, right, |left|, |right|);
    ExactCheapest(left, right);
  }

  lemma MissedIsLoose(left: seq<nat>, right: seq<nat>, l: nat, r: nat)
    requires 0 < l <= |left| && 0 < r <= |right| && Missed(left, right, l, r)
    ensures !TightPath(MoveTable(Exact, left, right), left, right, l, r)
  {
    hide TightPath;
    CostAtLeastBest(left, right, l, r - 1);
    CostAtLeastBest(left, right, l - 1, r);
    ScriptWeight(left, right, l, r);
    ExactPath(MoveTable(Exact, left, right), left, right, l, r);
  }

  /** A missed cell anywhere on the path keeps the script from being the cheapest. */
  lemma MissedOnPath(left: seq<nat>, right: seq<nat>, i: nat, j: nat)
    requires 0 < i <= |left| && 0 < j <= |right| && Missed(left, right, i, j)
    requires OnPath(MoveTable(Exact, left, right), left, right, |left|, |right|, i, j)
    ensures !Cheapest(ExactScript(left, right), left, right)
  {
    hide Cheapest;
    hide TightPath;
    hide OnPath;
    hide Missed;
    var mv := MoveTable(Exact, left, right);
    CheapestExactly(mv, left, right);
    MissedIsLoose(left, right, i, j);
    if TightPath(mv, left, right, |left|, |right|) {
      TightBelow(mv, left, right, |left|, |right|, i, j);
    }
  }

  /** Off the path a missed cell does no harm: 01 to 100. */
  lemma MissedOffPath() returns (a: seq<nat>, b: seq<nat>)
    ensures a == [0, 1] && b == [1, 0, 0]
    ensures Missed(a, b, 2, 2) && Cheapest(ExactScript(a, b), a, b)
  {
    hide Cheapest;
    a, b := [0, 1], [1, 0, 0];
    assert Cost(Exact, a, b, 1, 1) == 1.00001 && Cost(Exact, a, b, 1, 2) == 1.0 && Cost(Exact, a, b, 1, 3) == 2.0;
    assert Cost(Exact, a, b, 2, 1) == 1.0 && Cost(Exact, a, b, 2, 2) == 2.00002 && Cost(Exact, a, b, 2, 3) == 2.00001;
    assert Best(a, b, 1, 1) == 1.00001 && Best(a, b, 1, 2) == 1.0 && Best(a, b, 1, 3) == 2.0;
    assert Best(a, b, 2, 1) == 1.0 && Best(a, b, 2, 2) == 2.0 && Best(a, b, 2, 3) == 2.00001;
    ExactCheapest(a, b);
  }

  /** And the path can be loose without passing a missed cell: 0100 to 10001. */
  lemma LooseWithoutMissed() returns (a: seq<nat>, b: seq<nat>)
    ensures a == [0, 1, 0, 0] && b == [1, 0, 0, 0, 1]
    ensures !Cheapest(ExactScript(a, b), a, b)
    ensures forall i, j :: 0 < i <= 4 && 0 < j <= 5 && OnPath(MoveTable(Exact, a, b), a, b, 4, 5, i, j) ==>
              !Missed(a, b, i, j)
  {
    hide Cheapest;
    hide Cost;
    hide Move;
    hide Best;
    hide OnPath;
    a, b := [0, 1, 0, 0], [1, 0, 0, 0, 1];
    CellsOfExample(a, b);
    LastCellLoose(a, b);
    ExactCheapest(a, b);
    forall i, j | 0 < i <= 4 && 0 < j <= 5 && OnPath(MoveTable(Exact, a, b), a, b, 4, 5, i, j)
      ensures !Missed(a, b, i, j)
    {
      PathOfExample(MoveTable(Exact, a, b), a, b, i, j);
    }
  }

  lemma PathOfExample(mv: Moves, a: seq<nat>, b: seq<nat>, i: nat, j: nat)
    requires Shaped(mv, a, b) && |a| == 4 && |b| == 5 && i > 0 && OnPath(mv, a, b, 4, 5, i, j)
    requires mv(4, 5) == Replace && mv(3, 4) == Match && mv(2, 3) == Replace && mv(1, 2) == Match
    ensures (i, j) in {(4, 5), (3, 4), (2, 3), (1, 2)}
  {
    if i < 4 {
      assert OnPath(mv, a, b, 3, 4, i, j);
      if i < 3 {
        assert OnPath(mv, a, b, 2, 3, i, j);
        if i < 2 {
          assert OnPath(mv, a, b, 1, 2, i, j);
        }
      }
    }
  }

  lemma CellsOfExample(a: seq<nat>, b: seq<nat>)
    requires a == [0, 1, 0, 0] && b == [1, 0, 0, 0, 1]
    ensures Move(Exact, a, b, 4, 5) == Replace && Move(Exact, a, b, 3, 4) == Match && Move(Exact, a, b, 2, 3) == Replace
    ensures Move(Exact, a, b, 1, 2) == Match && Move(Exact, a, b, 0, 1) == Add
    ensures Cost(Exact, a, b, 4, 5) == 3.00002 && !Missed(a, b, 4, 5) && !Missed(a, b, 2, 3)
  {
    assert Cost(Exact, a, b, 1, 1) == 1.00001 && Cost(Exact, a, b, 1, 2) == 1.0 && Cost(Exact, a, b, 1, 3) == 2.0;
    assert Cost(Exact, a, b, 1, 4) == 3.0 && Cost(Exact, a, b, 1, 5) == 4.0;
    assert Cost(Exact, a, b, 2, 1) == 1.0 && Cost(Exact, a, b, 2, 2) == 2.00002 && Cost(Exact, a, b, 2, 3) == 2.00001;
    assert Cost(Exact, a, b, 2, 4) == 3.00001 && Cost(Exact, a, b, 2, 5) == 3.0;
    assert Cost(Exact, a, b, 3, 1) == 2.0 && Cost(Exact, a, b, 3, 2) == 1.0 && Cost(Exact, a, b, 3, 3) == 2.00002;
    assert Cost(Exact, a, b, 3, 4) == 2.00001 && Cost(Exact, a, b, 3, 5) == 3.00001;
    assert Cost(Exact, a, b, 4, 1) == 3.0 && Cost(Exact, a, b, 4, 2) == 2.0 && Cost(Exact, a, b, 4, 3) == 1.0;
    assert Cost(Exact, a, b, 4, 4) == 2.00002 && Cost(Exact, a, b, 4, 5) == 3.00002;
  }

  lemma LastCellLoose(a: seq<nat>, b: seq<nat>)
    requires a == [0, 1, 0, 0] && b == [1, 0, 0, 0, 1]
    ensures Best(a, b, 4, 5) == 3.0
  {
    assert Best(a, b, 1, 1) == 1.00001 && Best(a, b, 1, 2) == 1.0 && Best(a, b, 1, 3) == 2.0;
    assert Best(a, b, 1, 4) == 3.0 && Best(a, b, 1, 5) == 4.0;
    assert Best(a, b, 2, 1) == 1.0 && Best(a, b, 2, 2) == 2.0 && Best(a, b, 2, 3) == 2.00001;
    assert Best(a, b, 2, 4) == 3.00001 && Best(a, b, 2, 5) == 3.0;
    assert Best(a, b, 3, 1) == 2.0 && Best(a, b, 3, 2) == 1.0 && Best(a, b, 3, 3) == 2.0;
    assert Best(a, b, 3, 4) == 2.00001 && Best(a, b, 3, 5) == 3.00001;
    assert Best(a, b, 4, 1) == 3.0 && Best(a, b, 4, 2) == 2.0 && Best(a, b, 4, 3) == 1.0;
    assert Best(a, b, 4, 4) == 2.0 && Best(a, b, 4, 5) == 3.0;
  }
}
