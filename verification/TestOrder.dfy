/** The order in which gtest.cc runs test cases: death tests first, shuffled and restored. */
module TestOrder {
  import opened Wrappers
  import opened TestFilter
  import opened Shuffle

  /** UnshuffleTests' loop: every index is reset to its position. */
  method Reset(order: seq<nat>) returns (r: seq<nat>)
    ensures r == Range(0, |order|)
  {
    r := order;
    for i := 0 to |order|
      invariant |r| == |order| && forall j :: 0 <= j < i ==> r[j] == j
    {
      r := r[i := i];
    }
  }

  class TestCase {
    const name: string
    var tests: seq<string>
    var order: seq<nat>

    ghost predicate Valid()
      reads this
    {
      Permutes(order, 0, |tests|)
    }

    /** The tests in the order they run. */
    ghost function RunOrder(): (r: seq<string>)
      requires Valid()
      reads this
      ensures |r| == |tests|
    {
      PermutesInside(order, 0, |tests|);
      Picked(tests, order)
    }

    constructor (name: string)
      ensures Valid() && this.name == name && tests == [] && order == []
    {
      this.name := name;
      tests, order := [], [];
    }

    method AddTestInfo(test: string)
      requires Valid()
      modifies this
      ensures Valid() && tests == old(tests) + [test]
      ensures RunOrder() == old(RunOrder()) + [test]
      ensures old(order) == Range(0, |old(tests)|) ==> order == Range(0, |tests|)
    {
      PermutesInside(order, 0, |tests|);
      tests := tests + [test];
      order := order + [|order|];
      assert Range(0, |tests|) == Range(0, |old(tests)|) + [|old(tests)|];
      PermutesInside(order, 0, |tests|);
    }

    method ShuffleTests(choices: seq<nat>)
      requires Valid() && Choices(choices, |tests|)
      modifies `order
      ensures |old(order)| == |tests| && Valid() && order == Shuffled(old(order), choices)
    {
      PermutesInside(order, 0, |tests|);
      hide Shuffled;
      hide Choices;
      ShuffledPermutes(order, choices);
      order := ShuffleAll(choices, order);
    }

    method UnshuffleTests()
      requires Valid()
      modifies `order
      ensures Valid() && order == Range(0, |tests|) && RunOrder() == tests
    {
      PermutesInside(order, 0, |tests|);
      order := Reset(order);
    }

    /** The test that runs i-th. */
    method GetMutableTestInfo(i: int) returns (r: Option<string>)
      requires Valid()
      ensures r == if 0 <= i < |tests| then Some(RunOrder()[i]) else None
    {
      PermutesInside(order, 0, |tests|);
      r := if i < 0 || i >= |order| then None else Some(tests[order[i]]);
    }
  }

  // ---- The two blocks ----

  /** The first d places hold the indexes below d and the others the rest. */
  ghost predicate Blocks(order: seq<nat>, d: nat, n: nat) {
    d <= n && |order| == n && Permutes(order[..d], 0, d) && Permutes(order[d..], d, n)
  }

  lemma BlocksIdentity(d: nat, n: nat)
    requires d <= n
    ensures Blocks(Range(0, n), d, n)
  {
    assert Range(0, n)[..d] == Range(0, d) && Range(0, n)[d..] == Range(d, n);
  }

  lemma BlocksInside(order: seq<nat>, d: nat, n: nat)
    requires Blocks(order, d, n)
    ensures d <= n && |order| == n && Indexes(order, n) && forall i :: 0 <= i < n ==> (order[i] < d <==> i < d)
  {
    hide Permutes;
    PermutesInside(order[..d], 0, d);
    PermutesInside(order[d..], d, n);
    assert forall i :: d <= i < n ==> order[i] == order[d..][i - d];
  }

  lemma BlocksShuffled(order: seq<nat>, d: nat, n: nat, a: seq<nat>, b: seq<nat>)
    requires Blocks(order, d, n) && Choices(a, d) && Choices(b, n - d)
    ensures Blocks(Shuffled(order[..d], a) + Shuffled(order[d..], b), d, n)
  {
    hide Shuffled;
    ShuffledPermutes(order[..d], a);
    ShuffledPermutes(order[d..], b);
    var r := Shuffled(order[..d], a) + Shuffled(order[d..], b);
    assert r[..d] == Shuffled(order[..d], a) && r[d..] == Shuffled(order[d..], b);
  }

  lemma BlocksJoined(order: seq<nat>, d: nat, a: seq<nat>, half: seq<nat>)
    requires d <= |order| && |a| == d && half == order[..0] + a + order[d..]
    ensures order[0..d] == order[..d]
    ensures half[d..|order|] == order[d..] && half[..d] == a && half[|order|..] == []
  {
  }

  lemma BlocksAll(order: seq<nat>, d: nat, n: nat)
    requires Blocks(order, d, n)
    ensures multiset(order) == multiset(Range(0, n))
  {
    assert order == order[..d] + order[d..];
    assert Range(0, n) == Range(0, d) + Range(d, n);
  }

  lemma BlocksPermute<E>(s: seq<E>, order: seq<nat>, d: nat)
    requires Blocks(order, d, |s|)
    ensures Indexes(order, |s|) && multiset(Picked(s, order)) == multiset(s)
  {
    hide Picked;
    hide Blocks;
    BlocksInside(order, d, |s|);
    BlocksAll(order, d, |s|);
    PickedPermutes(s, order, Range(0, |s|));
    PickedIdentity(s);
  }

  lemma PickedIdentity<E>(s: seq<E>)
    ensures Picked(s, Range(0, |s|)) == s
  {
  }

  // ---- Registration ----

  /** The death test cases among ts, or the others, in order. */
  function Kind(ts: seq<TestCase>, death: bool): seq<TestCase> {
    if ts == [] then []
    else
      var last := ts[|ts| - 1];
      Kind(ts[..|ts| - 1], death) + if IsDeathTestCase(last.name) == death then [last] else []
  }

  lemma {:induction false} KindOnly(ts: seq<TestCase>, death: bool)
    ensures forall i :: 0 <= i < |Kind(ts, death)| ==> IsDeathTestCase(Kind(ts, death)[i].name) == death
    decreases |ts|
  {
    hide IsDeathTestCase;
    if ts != [] {
      KindOnly(ts[..|ts| - 1], death);
    }
  }

  lemma NoCases()
    ensures Kind([], true) == [] && Kind([], false) == []
  {
  }

  lemma KindSnoc(ts: seq<TestCase>, t: TestCase, death: bool)
    ensures Kind(ts + [t], death) == if IsDeathTestCase(t.name) == death then Kind(ts, death) + [t] else Kind(ts, death)
  {
    hide IsDeathTestCase;
    assert (ts + [t])[..|ts|] == ts;
  }

  lemma KindsApart(ts: seq<TestCase>, sorted: seq<TestCase>)
    requires sorted == Kind(ts, true) + Kind(ts, false)
    ensures forall i :: 0 <= i < |sorted| ==> (IsDeathTestCase(sorted[i].name) <==> i < |Kind(ts, true)|)
  {
    hide IsDeathTestCase;
    hide Kind;
    KindOnly(ts, true);
    KindOnly(ts, false);
  }

  lemma PickedApart(ts: seq<TestCase>, order: seq<nat>, d: nat)
    requires forall i :: 0 <= i < |ts| ==> (IsDeathTestCase(ts[i].name) <==> i < d)
    requires |order| == |ts| && Indexes(order, |ts|)
    requires forall i :: 0 <= i < |ts| ==> (order[i] < d <==> i < d)
    ensures DeathsFirst(Picked(ts, order))
  {
    hide IsDeathTestCase;
  }

  ghost predicate NamesDiffer(ts: seq<TestCase>) {
    forall i, j :: 0 <= i < j < |ts| ==> ts[i].name != ts[j].name
  }

  lemma InsertedNames(ts: seq<TestCase>, t: TestCase, k: nat)
    requires NamesDiffer(ts) && k <= |ts| && forall u :: u in ts ==> u.name != t.name
    ensures NamesDiffer(ts[..k] + [t] + ts[k..])
  {
  }

  lemma RangeSnoc(n: nat)
    requires n > 0
    ensures Range(0, n - 1) + [n - 1] == Range(0, n)
  {
  }

  /** No death test case runs after one that is not. */
  ghost predicate DeathsFirst(run: seq<TestCase>) {
    forall i, j :: 0 <= i < j < |run| && IsDeathTestCase(run[j].name) ==> IsDeathTestCase(run[i].name)
  }

  /** One repetition of the tests: whether they are shuffled, and what the random source then returns. */
  datatype Round = Plain | Shuffling(deaths: seq<nat>, others: seq<nat>, inner: seq<seq<nat>>)

  class UnitTestImpl {
    var testCases: seq<TestCase>
    var order: seq<nat>
    var lastDeathTestCase: int
    ghost var registered: seq<TestCase>   // in the order they were created

    ghost predicate Valid()
      reads this, testCases
    {
      Registered() && Blocks(order, lastDeathTestCase + 1, |testCases|)
    }

    /** The death test cases come first, and within each kind the order is that of registration. */
    ghost predicate Registered()
      reads this, testCases
    {
      && testCases == Kind(registered, true) + Kind(registered, false)
      && lastDeathTestCase + 1 == |Kind(registered, true)|
      && NamesDiffer(testCases)
      && forall t :: t in testCases ==> t.Valid()
    }

    ghost predicate Unshuffled()
      reads `order, `testCases
    {
      order == Range(0, |testCases|)
    }

    ghost predicate CasesUnshuffled()
      reads this, testCases
    {
      forall t :: t in testCases ==> t.order == Range(0, |t.tests|)
    }

    /** The test cases in the order they run. */
    ghost function RunOrder(): (run: seq<TestCase>)
      requires Valid()
      reads this, testCases
      ensures |run| == |testCases|
    {
      BlocksInside(order, lastDeathTestCase + 1, |testCases|);
      Picked(testCases, order)
    }

    constructor ()
      ensures Valid() && Unshuffled() && CasesUnshuffled() && testCases == [] && registered == []
    {
      testCases, order, lastDeathTestCase, registered := [], [], -1, [];
      new;
      hide Blocks;
      hide Kind;
      hide IsDeathTestCase;
      BlocksIdentity(0, 0);
      NoCases();
    }

    /** Whatever the state, every test case runs once and the death tests run first. */
    lemma RunsDeathsFirst()
      requires Valid()
      ensures multiset(RunOrder()) == multiset(testCases) && DeathsFirst(RunOrder())
      ensures Unshuffled() ==> RunOrder() == testCases
    {
      hide IsDeathTestCase;
      hide Blocks;
      hide Kind;
      hide NamesDiffer;
      hide DeathsFirst;
      var d := lastDeathTestCase + 1;
      BlocksPermute(testCases, order, d);
      BlocksInside(order, d, |testCases|);
      KindsApart(registered, testCases);
      PickedApart(testCases, order, d);
      PickedIdentity(testCases);
    }

    method FindTestCase(name: string) returns (i: nat)
      ensures i <= |testCases| && (i < |testCases| ==> testCases[i].name == name)
      ensures i == |testCases| ==> forall t :: t in testCases ==> t.name != name
    {
      i := 0;
      while i < |testCases| && testCases[i].name != name
        invariant i <= |testCases| && forall j :: 0 <= j < i ==> testCases[j].name != name
      {
        i := i + 1;
      }
    }

    /** After the last death test case, or at the end. */
    method AddTestCase(t: TestCase)
      requires Registered() && t.Valid() && forall u :: u in testCases ==> u.name != t.name
      modifies `testCases, `lastDeathTestCase, `registered
      ensures Registered() && registered == old(registered) + [t]
      ensures |testCases| == |old(testCases)| + 1
      ensures forall u :: u in testCases <==> u in old(testCases) || u == t
    {
      hide IsDeathTestCase;
      hide Kind;
      hide Permutes;
      KindSnoc(registered, t, true);
      KindSnoc(registered, t, false);
      registered := registered + [t];
      var death := MatchesDeathTestFilter(t.name);
      if death {
        lastDeathTestCase := lastDeathTestCase + 1;
        InsertedNames(testCases, t, lastDeathTestCase);
        testCases := testCases[..lastDeathTestCase] + [t] + testCases[lastDeathTestCase..];
      } else {
        testCases := testCases + [t];
      }
    }

    /** Find the test case of that name, or create it; only while nothing is shuffled. */
    method GetTestCase(name: string) returns (t: TestCase)
      requires Valid() && Unshuffled()
      modifies this
      ensures Valid() && Unshuffled()
      ensures t in testCases && t.name == name
      ensures if exists u :: u in old(testCases) && u.name == name then unchanged(this)
              else fresh(t) && t.tests == [] && t.order == [] && registered == old(registered) + [t]
      ensures forall u :: u in testCases <==> u in old(testCases) || u == t
      ensures old(CasesUnshuffled()) ==> CasesUnshuffled()
    {
      hide IsDeathTestCase;
      hide Blocks;
      hide Kind;
      hide NamesDiffer;
      hide Permutes;
      var i := FindTestCase(name);
      if i < |testCases| {
        return testCases[i];
      }
      t := new TestCase(name);
      AddTestCase(t);
      order := order + [|order|];
      RangeSnoc(|order|);
      BlocksIdentity(lastDeathTestCase + 1, |testCases|);
    }

    /** The death tests and the others are shuffled apart. */
    method ShuffleOrder(deaths: seq<nat>, others: seq<nat>)
      requires Valid() && Choices(deaths, lastDeathTestCase + 1)
      requires Choices(others, |testCases| - (lastDeathTestCase + 1))
      modifies `order
      ensures Valid()
      ensures var d := lastDeathTestCase + 1;
              order == Shuffled(old(order)[..d], deaths) + Shuffled(old(order)[d..], others)
    {
      hide IsDeathTestCase;
      hide Kind;
      hide Shuffled;
      hide Choices;
      hide Blocks;
      BlocksInside(order, lastDeathTestCase + 1, |testCases|);
      BlocksShuffled(order, lastDeathTestCase + 1, |testCases|, deaths, others);
      var half := ShuffleRange(deaths, 0, lastDeathTestCase + 1, order);
      var whole := ShuffleRange(others, lastDeathTestCase + 1, |testCases|, half);
      BlocksJoined(order, lastDeathTestCase + 1, Shuffled(order[..lastDeathTestCase + 1], deaths), half);
      order := whole;
      assert order == Shuffled(old(order)[..lastDeathTestCase + 1], deaths) +
                      Shuffled(old(order)[lastDeathTestCase + 1..], others);
      assert Blocks(order, lastDeathTestCase + 1, |testCases|);
    }

    /** Both blocks, and the tests inside each case. */
    method ShuffleTests(deaths: seq<nat>, others: seq<nat>, inner: seq<seq<nat>>)
      requires Valid() && RoundOk(Shuffling(deaths, others, inner))
      modifies `order, testCases
      ensures Valid()
      ensures var d := lastDeathTestCase + 1;
              order == Shuffled(old(order)[..d], deaths) + Shuffled(old(order)[d..], others)
      ensures Suites(testCases) == old(Suites(testCases))
      ensures forall i :: 0 <= i < |testCases| ==>
                |old(testCases[i].order)| == |testCases[i].tests| &&
                testCases[i].order == Shuffled(old(testCases[i].order), inner[i])
    {
      hide Suites;
      hide IsDeathTestCase;
      hide Kind;
      hide Shuffled;
      hide Choices;
      hide Blocks;
      hide Permutes;
      ShuffleOrder(deaths, others);
      ghost var shuffled := order;
      for i := 0 to |testCases|
        invariant Registered() && order == shuffled
        invariant forall j :: 0 <= j < |testCases| ==> testCases[j].tests == old(testCases[j].tests)
        invariant forall j :: i <= j < |testCases| ==> testCases[j].order == old(testCases[j].order)
        invariant forall j :: 0 <= j < i ==>
          |old(testCases[j].order)| == |testCases[j].tests| &&
          testCases[j].order == Shuffled(old(testCases[j].order), inner[j])
      {
        testCases[i].ShuffleTests(inner[i]);
      }
    }

    ghost predicate RoundOk(round: Round)
      reads this, testCases
    {
      RoundFits(round, lastDeathTestCase + 1, Suites(testCases))
    }

    method UnshuffleTests()
      requires Valid()
      modifies `order, testCases
      ensures Valid() && Unshuffled() && CasesUnshuffled()
      ensures Suites(testCases) == old(Suites(testCases))
    {
      hide IsDeathTestCase;
      hide Kind;
      hide Blocks;
      hide Permutes;
      hide Suites;
      BlocksInside(order, lastDeathTestCase + 1, |testCases|);
      for i := 0 to |testCases|
        invariant Registered()
        invariant |order| == |testCases| && forall j :: 0 <= j < i ==> order[j] == j
        invariant forall j :: 0 <= j < i ==> testCases[j].order == Range(0, |testCases[j].tests|)
        invariant forall j :: 0 <= j < |testCases| ==> testCases[j].tests == old(testCases[j].tests)
      {
        testCases[i].UnshuffleTests();
        order := order[i := i];
      }
      assert order == Range(0, |testCases|);
      BlocksIdentity(lastDeathTestCase + 1, |testCases|);
    }

    /** The test case that runs i-th. */
    method GetMutableTestCase(i: int) returns (r: Option<TestCase>)
      requires Valid()
      ensures r == if 0 <= i < |testCases| then Some(RunOrder()[i]) else None
    {
      hide IsDeathTestCase;
      hide Kind;
      hide Blocks;
      hide Permutes;
      BlocksInside(order, lastDeathTestCase + 1, |testCases|);
      r := if i < 0 || i >= |order| then None else Some(testCases[order[i]]);
    }

    /** The read-only accessor checks the index vector but does not go through it. */
    method GetTestCaseAt(i: int) returns (r: Option<TestCase>)
      requires Valid()
      ensures r == if 0 <= i < |testCases| then Some(testCases[i]) else None
    {
      hide IsDeathTestCase;
      hide Kind;
      hide Blocks;
      hide Permutes;
      BlocksInside(order, lastDeathTestCase + 1, |testCases|);
      r := if i < 0 || i >= |order| then None else Some(testCases[i]);
    }

    /** So the two accessors agree exactly while nothing is shuffled. */
    lemma AccessorsAgree()
      requires Valid()
      ensures testCases == RunOrder() <==> Unshuffled()
    {
      hide IsDeathTestCase;
      hide Kind;
      hide Blocks;
      hide Permutes;
      BlocksInside(order, lastDeathTestCase + 1, |testCases|);
      if testCases == RunOrder() {
        forall i | 0 <= i < |order|
          ensures order[i] == i
        {
          assert testCases[order[i]] == RunOrder()[i] == testCases[i];
        }
        assert order == Range(0, |testCases|);
      }
    }

    method RunOnce() returns (run: seq<Ran>)
      requires Valid()
      ensures |run| == |testCases|
      ensures forall i :: 0 <= i < |run| ==> run[i].testCase == RunOrder()[i] && run[i].testCase in testCases
      ensures forall i :: 0 <= i < |run| ==> multiset(run[i].tests) == multiset(run[i].testCase.tests)
      ensures forall i :: 0 <= i < |run| ==> run[i].testCase.Valid() && run[i].tests == run[i].testCase.RunOrder()
    {
      hide IsDeathTestCase;
      hide Kind;
      hide Blocks;
      hide Permutes;
      run := [];
      for i := 0 to |testCases|
        invariant |run| == i
        invariant forall j :: 0 <= j < i ==> run[j].testCase == RunOrder()[j] && run[j].testCase in testCases
        invariant forall j :: 0 <= j < i ==> multiset(run[j].tests) == multiset(run[j].testCase.tests)
        invariant forall j :: 0 <= j < i ==> run[j].testCase.Valid() && run[j].tests == run[j].testCase.RunOrder()
      {
        var found := GetMutableTestCase(i);
        BlocksInside(order, lastDeathTestCase + 1, |testCases|);
        assert found.value in testCases;
        var tests := RunTests(found.value);
        run := run + [Ran(found.value, tests)];
      }
    }

    /** The shuffled index vector gives the shuffled blocks. */
    lemma OrderDrawn(was: seq<nat>, deaths: seq<nat>, others: seq<nat>)
      requires Valid() && was == Range(0, |testCases|)
      requires Choices(deaths, lastDeathTestCase + 1) && Choices(others, |testCases| - (lastDeathTestCase + 1))
      requires var d := lastDeathTestCase + 1;
               order == Shuffled(was[..d], deaths) + Shuffled(was[d..], others)
      ensures var d := lastDeathTestCase + 1;
              RunOrder() == Shuffled(testCases[..d], deaths) + Shuffled(testCases[d..], others)
    {
      hide IsDeathTestCase;
      hide Kind;
      hide Blocks;
      hide Shuffled;
      hide Choices;
      hide Permutes;
      hide NamesDiffer;
      BlocksInside(order, lastDeathTestCase + 1, |testCases|);
      var d := lastDeathTestCase + 1;
      assert Picked(testCases, was[..d]) == testCases[..d] && Picked(testCases, was[d..]) == testCases[d..];
      ShuffledPicked(testCases, was[..d], deaths);
      ShuffledPicked(testCases, was[d..], others);
      PickedConcat(testCases, Shuffled(was[..d], deaths), Shuffled(was[d..], others));
    }

    /** The index vectors are what the round makes of unshuffled ones. */
    ghost predicate Prepared(round: Round)
      requires Valid()
      reads this, testCases
    {
      && RoundOk(round)
      && RunOrder() == CasesDrawn(round, testCases, lastDeathTestCase + 1)
      && forall j :: 0 <= j < |testCases| ==> OrderFits(testCases[j], round, j)
    }

    lemma RunIsDrawn(round: Round, run: seq<Ran>)
      requires Valid() && Prepared(round) && |run| == |testCases| && CasesOf(run) == RunOrder()
      requires forall i :: 0 <= i < |run| ==> run[i].testCase.Valid() && run[i].tests == run[i].testCase.RunOrder()
      ensures AsDrawn(round, run, testCases, Suites(testCases), lastDeathTestCase + 1)
    {
      hide UnitTestImpl.Valid;
      hide RoundFits;
      hide CasesDrawn;
      hide OrderFits;
      hide Suites;
      hide TestsDrawn;
      hide TestCase.Valid;
      forall i, j | 0 <= i < |run| && 0 <= j < |testCases| && run[i].testCase == testCases[j]
        ensures run[i].tests == TestsDrawn(round, Suites(testCases), j, lastDeathTestCase + 1)
      {
        TestOrderDrawn(testCases[j], round, Suites(testCases), j, lastDeathTestCase + 1);
      }
    }

    lemma RunIsComplete(run: seq<Ran>)
      requires Valid() && |run| == |testCases| && CasesOf(run) == RunOrder()
      requires forall i :: 0 <= i < |run| ==> multiset(run[i].tests) == multiset(run[i].testCase.tests)
      ensures Complete(run, testCases, Suites(testCases)) && DeathsFirst(CasesOf(run))
    {
      hide UnitTestImpl.Valid;
      hide DeathsFirst;
      hide Suites;
      RunsDeathsFirst();
    }

    /** One run, in a state that the round has shuffled. */
    method RunShuffled(round: Round) returns (run: seq<Ran>)
      requires Valid() && Prepared(round)
      ensures AsDrawn(round, run, testCases, Suites(testCases), lastDeathTestCase + 1)
      ensures Complete(run, testCases, Suites(testCases)) && DeathsFirst(CasesOf(run))
    {
      hide UnitTestImpl.Valid;
      hide UnitTestImpl.Prepared;
      hide TestCase.Valid;
      hide DeathsFirst;
      hide AsDrawn;
      hide Complete;
      hide Suites;
      run := RunOnce();
      assert CasesOf(run) == RunOrder();
      RunIsDrawn(round, run);
      RunIsComplete(run);
    }

    /** Shuffle if the round does. */
    method Prepare(round: Round)
      requires Valid() && Unshuffled() && CasesUnshuffled() && RoundOk(round)
      modifies `order, testCases
      ensures Valid() && Suites(testCases) == old(Suites(testCases)) && Prepared(round)
    {
      hide IsDeathTestCase;
      hide Registered;
      hide Blocks;
      hide Shuffled;
      hide Choices;
      hide Suites;
      hide Permutes;
      if round.Shuffling? {
        ShuffleTests(round.deaths, round.others, round.inner);
        OrderDrawn(old(order), round.deaths, round.others);
      } else {
        hide DeathsFirst;
        RunsDeathsFirst();
      }
    }

    method RunRound(round: Round) returns (run: seq<Ran>)
      requires Valid() && Unshuffled() && CasesUnshuffled() && RoundOk(round)
      modifies `order, testCases
      ensures Valid() && Unshuffled() && CasesUnshuffled()
      ensures Suites(testCases) == old(Suites(testCases))
      ensures RoundOk(round) && AsDrawn(round, run, testCases, Suites(testCases), lastDeathTestCase + 1)
      ensures Complete(run, testCases, Suites(testCases)) && DeathsFirst(CasesOf(run))
    {
      hide UnitTestImpl.Valid;
      hide RoundFits;
      hide DeathsFirst;
      hide AsDrawn;
      hide Complete;
      hide CasesOf;
      hide UnitTestImpl.Prepared;
      hide Suites;
      Prepare(round);
      run := RunShuffled(round);
      UnshuffleTests();
    }

    /**
     * The repetitions of RunAllTests. Each runs every test case and every test in it once,
     * death tests first, and leaves the order of registration behind.
     */
    method RunAllTests(rounds: seq<Round>) returns (runs: seq<seq<Ran>>)
      requires Valid() && Unshuffled() && CasesUnshuffled()
      requires forall r :: r in rounds ==> RoundOk(r)
      modifies `order, testCases
      ensures Valid() && Unshuffled() && CasesUnshuffled()
      ensures Suites(testCases) == old(Suites(testCases)) && |runs| == |rounds|
      ensures forall k :: 0 <= k < |runs| ==>
                DeathsFirst(CasesOf(runs[k])) && Complete(runs[k], testCases, Suites(testCases))
      ensures forall k :: 0 <= k < |runs| ==>
                RoundOk(rounds[k]) && AsDrawn(rounds[k], runs[k], testCases, Suites(testCases), lastDeathTestCase + 1)
    {
      hide UnitTestImpl.Valid;
      hide RoundFits;
      hide DeathsFirst;
      hide CasesOf;
      hide Complete;
      hide AsDrawn;
      hide Suites;
      runs := [];
      ghost var suites, d := Suites(testCases), lastDeathTestCase + 1;
      for k := 0 to |rounds|
        invariant Valid() && Unshuffled() && CasesUnshuffled() && |runs| == k && Suites(testCases) == suites
        invariant forall j :: 0 <= j < k ==> DeathsFirst(CasesOf(runs[j])) && Complete(runs[j], testCases, suites)
        invariant forall j :: 0 <= j < k ==> RoundFits(rounds[j], d, suites)
        invariant forall j :: 0 <= j < k ==> AsDrawn(rounds[j], runs[j], testCases, suites, d)
      {
        assert old(RoundOk(rounds[k]));
        var run := RunRound(rounds[k]);
        runs := runs + [run];
      }
    }
  }

  // ---- What a round draws ----

  /** The tests of each case. */
  ghost function Suites(ts: seq<TestCase>): (suites: seq<seq<string>>)
    reads ts
    ensures |suites| == |ts| && forall i :: 0 <= i < |ts| ==> suites[i] == ts[i].tests
  {
    if ts == [] then [] else [ts[0].tests] + Suites(ts[1..])
  }

  /** The choices are as many as d death test cases, the others and their tests need. */
  predicate RoundFits(round: Round, d: int, suites: seq<seq<string>>) {
    round.Plain? || (
      && 0 <= d <= |suites|
      && Choices(round.deaths, d)
      && Choices(round.others, |suites| - d)
      && |round.inner| == |suites|
      && forall i :: 0 <= i < |suites| ==> Choices(round.inner[i], |suites[i]|))
  }

  /** The order of the cases: that of registration, or each block shuffled by the random choices. */
  function CasesDrawn(round: Round, ts: seq<TestCase>, d: int): seq<TestCase>
    requires round.Plain? || (0 <= d <= |ts| && Choices(round.deaths, d) && Choices(round.others, |ts| - d))
  {
    if round.Plain? then ts else Shuffled(ts[..d], round.deaths) + Shuffled(ts[d..], round.others)
  }

  function TestsDrawn(round: Round, suites: seq<seq<string>>, j: nat, d: int): seq<string>
    requires RoundFits(round, d, suites) && j < |suites|
  {
    if round.Plain? then suites[j] else Shuffled(suites[j], round.inner[j])
  }

  /** A run is exactly what its round draws. */
  ghost predicate AsDrawn(round: Round, run: seq<Ran>, ts: seq<TestCase>, suites: seq<seq<string>>, d: int)
  {
    && |ts| == |suites| && RoundFits(round, d, suites)
    && CasesOf(run) == CasesDrawn(round, ts, d)
    && forall i, j :: 0 <= i < |run| && 0 <= j < |ts| && run[i].testCase == ts[j] ==>
         run[i].tests == TestsDrawn(round, suites, j, d)
  }

  /** The index vector of case j is what the round makes of an unshuffled one. */
  ghost predicate OrderFits(t: TestCase, round: Round, j: nat)
    reads t
  {
    if round.Plain? then t.order == Range(0, |t.tests|)
    else
      && j < |round.inner| && Choices(round.inner[j], |t.tests|)
      && t.order == Shuffled(Range(0, |t.tests|), round.inner[j])
  }

  lemma TestOrderDrawn(t: TestCase, round: Round, suites: seq<seq<string>>, j: nat, d: int)
    requires t.Valid() && OrderFits(t, round, j) && RoundFits(round, d, suites) && j < |suites| && suites[j] == t.tests
    ensures t.RunOrder() == TestsDrawn(round, suites, j, d)
  {
    hide Shuffled;
    hide Choices;
    hide Permutes;
    PermutesInside(t.order, 0, |t.tests|);
    PickedIdentity(t.tests);
    if round.Shuffling? {
      ShuffledPicked(t.tests, Range(0, |t.tests|), round.inner[j]);
    }
  }

  /** A test case that ran, and its tests in the order they did. */
  datatype Ran = Ran(testCase: TestCase, tests: seq<string>)

  function CasesOf(run: seq<Ran>): seq<TestCase> {
    seq(|run|, i requires 0 <= i < |run| => run[i].testCase)
  }

  /** Each of the test cases ran once, and each of its tests. */
  ghost predicate Complete(run: seq<Ran>, ts: seq<TestCase>, suites: seq<seq<string>>)
  {
    && |ts| == |suites| && multiset(CasesOf(run)) == multiset(ts)
    && forall i, j :: 0 <= i < |run| && 0 <= j < |ts| && run[i].testCase == ts[j] ==>
         multiset(run[i].tests) == multiset(suites[j])
  }

  method RunTests(t: TestCase) returns (run: seq<string>)
    requires t.Valid()
    ensures run == t.RunOrder() && multiset(run) == multiset(t.tests)
  {
    hide Permutes;
    run := [];
    PermutesInside(t.order, 0, |t.tests|);
    for i := 0 to |t.tests|
      invariant |run| == i && forall j :: 0 <= j < i ==> run[j] == t.RunOrder()[j]
    {
      var found := t.GetMutableTestInfo(i);
      run := run + [found.value];
    }
    AllTestsRun(t);
  }

  lemma AllTestsRun(t: TestCase)
    requires t.Valid()
    ensures multiset(t.RunOrder()) == multiset(t.tests)
  {
    PermutesInside(t.order, 0, |t.tests|);
    PickedPermutes(t.tests, t.order, Range(0, |t.tests|));
    PickedIdentity(t.tests);
  }

  /**
   * Registering a death test case while the tests are shuffled puts it at index d of n test
   * cases and its own index last. It still runs before the others exactly if there are no
   * others or the first of them is the first to run.
   */
  lemma RegisteredWhileShuffled(ts: seq<TestCase>, order: seq<nat>, d: nat, t: TestCase)
    requires forall i :: 0 <= i < |ts| ==> (IsDeathTestCase(ts[i].name) <==> i < d)
    requires Blocks(order, d, |ts|) && IsDeathTestCase(t.name)
    ensures Indexes(order + [|ts|], |ts| + 1)
    ensures DeathsFirst(Picked(ts[..d] + [t] + ts[d..], order + [|ts|])) <==> d == |ts| || order[d] == d
  {
    hide IsDeathTestCase;
    hide Blocks;
    var n := |ts|;
    BlocksInside(order, d, n);
    var ts', order' := ts[..d] + [t] + ts[d..], order + [n];
    assert forall i :: 0 <= i <= n ==> (IsDeathTestCase(ts'[i].name) <==> i <= d);
    var run := Picked(ts', order');
    if d == n {
    } else if order[d] == d {
      IndexOnce(order, d, n);
    } else {
      var j := IndexSomewhere(order, d, n);
      assert IsDeathTestCase(run[j].name) && !IsDeathTestCase(run[d].name) && d < j;
    }
  }

  lemma IndexSomewhere(order: seq<nat>, d: nat, n: nat) returns (j: nat)
    requires Blocks(order, d, n) && d < n
    ensures d <= j < n && order[j] == d
  {
    assert Range(d, n)[0] == d;
    assert d in multiset(Range(d, n));
    var k := Found(d, order[d..]);
    j := d + k;
  }

  lemma FirstFirst(s: seq<nat>, lo: nat, hi: nat)
    requires lo < hi && Permutes(s, lo, hi) && s != [] && s[0] == lo
    ensures Permutes(s[1..], lo + 1, hi)
  {
    var r := Range(lo, hi);
    Without(s, 0);
    Without(r, 0);
    assert s[..0] + s[1..] == s[1..] && r[..0] + r[1..] == Range(lo + 1, hi);
    Cancelled(multiset(s), multiset(s[1..]), multiset(Range(lo + 1, hi)), lo);
  }

  lemma IndexOnce(order: seq<nat>, d: nat, n: nat)
    requires Blocks(order, d, n) && d < n && order[d] == d
    ensures forall i :: d < i < n ==> order[i] > d
  {
    hide Permutes;
    var s := order[d..];
    FirstFirst(s, d, n);
    PermutesInside(s[1..], d + 1, n);
    assert forall i :: d < i < n ==> order[i] == s[1..][i - d - 1];
  }
}
