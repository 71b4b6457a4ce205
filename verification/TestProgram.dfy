/** A whole test program of gtest.cc: tests are registered, then run in any number of rounds. */
module TestProgram {
  import opened TestFilter
  import opened Shuffle
  import opened TestOrder

  /** One TEST: the name of its case and its own. */
  datatype Test = Test(caseName: string, name: string)

  // ---- What registration should leave behind ----

  /** The names of the cases, in the order in which they first appear. */
  function CaseNames(tests: seq<Test>): seq<string> {
    if tests == [] then []
    else
      var names, last := CaseNames(tests[..|tests| - 1]), tests[|tests| - 1].caseName;
      if last in names then names else names + [last]
  }

  /** The tests of one case, in order. */
  function TestsOf(tests: seq<Test>, caseName: string): seq<string> {
    if tests == [] then []
    else
      var last := tests[|tests| - 1];
      TestsOf(tests[..|tests| - 1], caseName) + if last.caseName == caseName then [last.name] else []
  }

  /** Of some names, those of death test cases or the others. */
  function KindNames(names: seq<string>, death: bool): seq<string> {
    if names == [] then []
    else
      var last := names[|names| - 1];
      KindNames(names[..|names| - 1], death) + if IsDeathTestCase(last) == death then [last] else []
  }

  function NamesOf(ts: seq<TestCase>): (names: seq<string>)
    ensures |names| == |ts| && forall i :: 0 <= i < |ts| ==> names[i] == ts[i].name
  {
    seq(|ts|, i requires 0 <= i < |ts| => ts[i].name)
  }

  lemma {:induction false} NamesOfKind(ts: seq<TestCase>, death: bool)
    ensures NamesOf(Kind(ts, death)) == KindNames(NamesOf(ts), death)
    decreases |ts|
  {
    hide IsDeathTestCase;
    if ts != [] {
      var n := |ts| - 1;
      NamesOfKind(ts[..n], death);
      assert NamesOf(ts)[..n] == NamesOf(ts[..n]);
    }
  }

  lemma {:induction false} KindMembers(ts: seq<TestCase>, t: TestCase)
    ensures t in ts <==> t in Kind(ts, true) || t in Kind(ts, false)
    decreases |ts|
  {
    hide IsDeathTestCase;
    if ts != [] {
      KindMembers(ts[..|ts| - 1], t);
      assert ts == ts[..|ts| - 1] + [ts[|ts| - 1]];
    }
  }

  // ---- Registration ----

  ghost predicate Registers(impl: UnitTestImpl, tests: seq<Test>)
    reads impl, impl.testCases
  {
    && impl.Valid() && impl.Unshuffled() && impl.CasesUnshuffled()
    && NamesOf(impl.registered) == CaseNames(tests)
    && forall t :: t in impl.testCases ==> t.tests == TestsOf(tests, t.name)
  }

  /** A name has been seen exactly if there is a case of that name. */
  lemma SeenNames(impl: UnitTestImpl, name: string)
    requires impl.Valid()
    ensures name in NamesOf(impl.registered) <==> exists u :: u in impl.testCases && u.name == name
  {
    hide IsDeathTestCase;
    hide Kind;
    hide Blocks;
    hide NamesDiffer;
    forall u
      ensures u in impl.registered <==> u in impl.testCases
    {
      KindMembers(impl.registered, u);
    }
    if name in NamesOf(impl.registered) {
      var i :| 0 <= i < |impl.registered| && NamesOf(impl.registered)[i] == name;
      assert impl.registered[i] in impl.testCases;
    }
    if u :| u in impl.testCases && u.name == name {
      var i :| 0 <= i < |impl.registered| && impl.registered[i] == u;
      assert NamesOf(impl.registered)[i] == name;
    }
  }

  lemma {:induction false} NoTestsUnseen(tests: seq<Test>, name: string)
    requires name !in CaseNames(tests)
    ensures TestsOf(tests, name) == []
  {
    if tests != [] {
      NoTestsUnseen(tests[..|tests| - 1], name);
    }
  }

  lemma Snoc(tests: seq<Test>, test: Test, name: string)
    ensures TestsOf(tests + [test], name) == TestsOf(tests, name) + if test.caseName == name then [test.name] else []
    ensures CaseNames(tests + [test]) ==
            if test.caseName in CaseNames(tests) then CaseNames(tests) else CaseNames(tests) + [test.caseName]
  {
    assert (tests + [test])[..|tests|] == tests;
  }

  lemma OwnName(impl: UnitTestImpl, t: TestCase, u: TestCase)
    requires impl.Valid() && t in impl.testCases && u in impl.testCases && t.name == u.name
    ensures t == u
  {
    hide Kind;
    hide Blocks;
  }

  /** One test more, in a new case or an old one. */
  method RegisterTest(impl: UnitTestImpl, ghost tests: seq<Test>, test: Test)
    requires Registers(impl, tests)
    modifies impl, impl.testCases
    ensures Registers(impl, tests + [test])
    ensures forall t :: t in impl.testCases ==> t in old(impl.testCases) || fresh(t)
  {
    hide UnitTestImpl.Valid;
    hide CaseNames;
    hide TestsOf;
    SeenNames(impl, test.caseName);
    if test.caseName !in CaseNames(tests) {
      NoTestsUnseen(tests, test.caseName);
    }
    Snoc(tests, test, test.caseName);
    var t := impl.GetTestCase(test.caseName);
    assert t.tests == TestsOf(tests, t.name);
    assert NamesOf(impl.registered) == CaseNames(tests + [test]);
    forall u | u in impl.testCases
      ensures u != t ==> u.tests == TestsOf(tests + [test], u.name)
    {
      Snoc(tests, test, u.name);
      if u.name == t.name {
        OwnName(impl, t, u);
      }
    }
    AddTest(impl, t, test.name);
  }

  /** A test added to one of the cases leaves the rest alone. */
  method AddTest(impl: UnitTestImpl, t: TestCase, name: string)
    requires impl.Valid() && impl.Unshuffled() && impl.CasesUnshuffled() && t in impl.testCases
    modifies t
    ensures impl.Valid() && impl.Unshuffled() && impl.CasesUnshuffled()
    ensures t.tests == old(t.tests) + [name]
  {
    hide IsDeathTestCase;
    hide Kind;
    hide Blocks;
    hide Permutes;
    t.AddTestInfo(name);
  }

  method Register(tests: seq<Test>) returns (impl: UnitTestImpl)
    ensures fresh(impl) && (forall j :: 0 <= j < |impl.testCases| ==> fresh(impl.testCases[j]))
    ensures Registers(impl, tests)
  {
    hide Registers;
    impl := new UnitTestImpl();
    NothingRegistered(impl, tests);
    for k := 0 to |tests|
      invariant fresh(impl) && Registers(impl, tests[..k])
      invariant forall j :: 0 <= j < |impl.testCases| ==> fresh(impl.testCases[j])
    {
      ghost var was := impl.testCases;
      RegisterTest(impl, tests[..k], tests[k]);
      assert tests[..k] + [tests[k]] == tests[..k + 1];
      forall j | 0 <= j < |impl.testCases|
        ensures fresh(impl.testCases[j])
      {
        if impl.testCases[j] in was {
          var i :| 0 <= i < |was| && was[i] == impl.testCases[j];
        }
      }
    }
    assert tests[..|tests|] == tests;
  }

  lemma NothingRegistered(impl: UnitTestImpl, tests: seq<Test>)
    requires impl.Valid() && impl.Unshuffled() && impl.CasesUnshuffled()
    requires impl.registered == [] && impl.testCases == []
    ensures Registers(impl, tests[..0])
  {
    hide UnitTestImpl.Valid;
  }

  // ---- Rounds ----

  /** Random::Generate reduces what the source yields to the range asked for. */
  function Draw(random: nat -> nat, n: nat): (c: seq<nat>)
    ensures Choices(c, n) && forall i :: 0 <= i < |c| ==> c[i] == random(i) % (n - i)
  {
    seq(if n < 2 then 0 else n - 1, i requires 0 <= i < (if n < 2 then 0 else n - 1) => random(i) % (n - i))
  }

  /** The choices of a round for d death test cases and these tests; each vector has a random stream of its own. */
  function RoundDrawn(shuffle: bool, random: (nat, nat) -> nat, d: nat, suites: seq<seq<string>>): (round: Round)
    requires d <= |suites|
    ensures RoundFits(round, d, suites)
  {
    if !shuffle then Plain
    else Shuffling(Draw((i: nat) => random(0, i), d), Draw((i: nat) => random(1, i), |suites| - d),
                   seq(|suites|, j requires 0 <= j < |suites| => Draw((i: nat) => random(j + 2, i), |suites[j]|)))
  }

  method DrawRound(impl: UnitTestImpl, shuffle: bool, random: (nat, nat) -> nat) returns (round: Round)
    requires impl.Valid()
    ensures 0 <= impl.lastDeathTestCase + 1 <= |impl.testCases|
    ensures round == RoundDrawn(shuffle, random, impl.lastDeathTestCase + 1, Suites(impl.testCases))
  {
    hide IsDeathTestCase;
    hide Kind;
    hide Permutes;
    hide Suites;
    if !shuffle {
      return Plain;
    }
    var n, d := |impl.testCases|, impl.lastDeathTestCase + 1;
    var inner: seq<seq<nat>> := [];
    for j := 0 to n
      invariant |inner| == j
      invariant forall i :: 0 <= i < j ==> inner[i] == Draw((k: nat) => random(i + 2, k), |impl.testCases[i].tests|)
    {
      var c := Draw((i: nat) => random(j + 2, i), |impl.testCases[j].tests|);
      inner := inner + [c];
    }
    round := Shuffling(Draw((i: nat) => random(0, i), d), Draw((i: nat) => random(1, i), n - d), inner);
  }

  lemma DeathsInside(impl: UnitTestImpl)
    requires impl.Valid()
    ensures 0 <= impl.lastDeathTestCase + 1 <= |impl.testCases|
  {
    hide Kind;
    hide Blocks;
  }

  /** The random numbers of round k. */
  function InRound(random: (nat, nat, nat) -> nat, k: nat): (nat, nat) -> nat {
    (j: nat, i: nat) => random(k, j, i)
  }

  method DrawRounds(impl: UnitTestImpl, shuffles: seq<bool>, random: (nat, nat, nat) -> nat)
    returns (rounds: seq<Round>)
    requires impl.Valid()
    ensures |rounds| == |shuffles| && 0 <= impl.lastDeathTestCase + 1 <= |impl.testCases|
    ensures forall k :: 0 <= k < |rounds| ==>
              rounds[k] ==
              RoundDrawn(shuffles[k], InRound(random, k), impl.lastDeathTestCase + 1, Suites(impl.testCases))
  {
    hide UnitTestImpl.Valid;
    hide RoundDrawn;
    hide InRound;
    hide Suites;
    DeathsInside(impl);
    rounds := [];
    for k := 0 to |shuffles|
      invariant |rounds| == k
      invariant forall j :: 0 <= j < k ==>
        rounds[j] == RoundDrawn(shuffles[j], InRound(random, j), impl.lastDeathTestCase + 1, Suites(impl.testCases))
    {
      var round := DrawRound(impl, shuffles[k], InRound(random, k));
      rounds := rounds + [round];
    }
  }

  /** Running the rounds leaves the registrations as they were. */
  method RunRegistered(impl: UnitTestImpl, ghost tests: seq<Test>, rounds: seq<Round>) returns (runs: seq<seq<Ran>>)
    requires Registers(impl, tests)
    requires forall k :: 0 <= k < |rounds| ==> impl.RoundOk(rounds[k])
    modifies impl`order, impl.testCases
    ensures Registers(impl, tests) && |runs| == |rounds| && Suites(impl.testCases) == old(Suites(impl.testCases))
    ensures forall k :: 0 <= k < |runs| ==>
              DeathsFirst(CasesOf(runs[k])) && Complete(runs[k], impl.testCases, Suites(impl.testCases))
    ensures forall k :: 0 <= k < |runs| ==>
              && impl.RoundOk(rounds[k])
              && AsDrawn(rounds[k], runs[k], impl.testCases, Suites(impl.testCases), impl.lastDeathTestCase + 1)
  {
    hide UnitTestImpl.Valid;
    hide RoundFits;
    hide DeathsFirst;
    hide Complete;
    hide CasesOf;
    hide AsDrawn;
    hide Suites;
    ghost var ts, suites := impl.testCases, Suites(impl.testCases);
    runs := impl.RunAllTests(rounds);
    forall t | t in impl.testCases
      ensures t.tests == TestsOf(tests, t.name)
    {
      var j :| 0 <= j < |ts| && ts[j] == t;
      assert suites[j] == t.tests;
    }
  }

  /**
   * Any tests, registered in any order, then run in any rounds with any random source: the cases
   * are in order of first registration, death tests first; every round runs every case and every
   * test once, death tests first, exactly as the random source draws it; and a round that is not
   * shuffled runs them in that order.
   */
  method RunProgram(tests: seq<Test>, shuffles: seq<bool>, random: (nat, nat, nat) -> nat)
    returns (impl: UnitTestImpl, runs: seq<seq<Ran>>)
    ensures Registers(impl, tests) && |runs| == |shuffles|
    ensures NamesOf(impl.testCases) == KindNames(CaseNames(tests), true) + KindNames(CaseNames(tests), false)
    ensures forall k :: 0 <= k < |runs| ==>
              DeathsFirst(CasesOf(runs[k])) && Complete(runs[k], impl.testCases, Suites(impl.testCases))
    ensures 0 <= impl.lastDeathTestCase + 1 <= |impl.testCases|
    ensures forall k :: 0 <= k < |runs| ==>
              AsDrawn(RoundDrawn(shuffles[k], InRound(random, k), impl.lastDeathTestCase + 1, Suites(impl.testCases)),
                      runs[k], impl.testCases, Suites(impl.testCases), impl.lastDeathTestCase + 1)
    ensures forall k :: 0 <= k < |runs| && !shuffles[k] ==> CasesOf(runs[k]) == impl.testCases
  {
    hide UnitTestImpl.Valid;
    hide RoundFits;
    hide DeathsFirst;
    hide Complete;
    hide Suites;
    hide CasesOf;
    hide Registers;
    hide AsDrawn;
    hide RoundDrawn;
    hide InRound;
    impl := Register(tests);
    RegisteredValid(impl, tests);
    var rounds := DrawRounds(impl, shuffles, random);
    runs := RunRegistered(impl, tests, rounds);
    NamesInOrder(impl, tests);
    ghost var suites, d := Suites(impl.testCases), impl.lastDeathTestCase + 1;
    forall k | 0 <= k < |runs| && !shuffles[k]
      ensures CasesOf(runs[k]) == impl.testCases
    {
      PlainRound(rounds[k], InRound(random, k), runs[k], impl.testCases, suites, d);
    }
  }

  lemma RegisteredValid(impl: UnitTestImpl, tests: seq<Test>)
    requires Registers(impl, tests)
    ensures impl.Valid()
  {
  }

  lemma PlainRound(round: Round, random: (nat, nat) -> nat, run: seq<Ran>,
                   ts: seq<TestCase>, suites: seq<seq<string>>, d: nat)
    requires d <= |suites| && round == RoundDrawn(false, random, d, suites) && AsDrawn(round, run, ts, suites, d)
    ensures CasesOf(run) == ts
  {
  }

  lemma NamesInOrder(impl: UnitTestImpl, tests: seq<Test>)
    requires Registers(impl, tests)
    ensures NamesOf(impl.testCases) == KindNames(CaseNames(tests), true) + KindNames(CaseNames(tests), false)
  {
    hide IsDeathTestCase;
    hide Kind;
    hide Blocks;
    NamesOfKind(impl.registered, true);
    NamesOfKind(impl.registered, false);
  }
}
