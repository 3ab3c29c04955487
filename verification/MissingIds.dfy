/** Why a node without an ID matters, although the check only warns about it: nodes that lint
    without any error and whose entry point does nothing. */
module MissingIds {
  import opened Wrappers
  import opened Tables
  import opened Expansion
  import opened Substitution
  import opened Evaluation
  import opened Execution
  import opened Linting
  import opened Activity
  import opened Soundness

  function Row(id: seq<string>): Table {
    map[KEY_FNAME := ["f"], KEY_LINE := ["1"], KEY_ID := id, KEY_MESSAGE := ["m"]]
  }

  // It emits a signal that only the last node handles, whose ID is an empty list. Its ID reads as
  // the empty string, which is the ID of the node in between.
  function Emitter(): Def { Def(EntrypointType, Row(["a"])[KEY_EMITS := ["s"]]) }

  function Empty(): Def { Def(JobType, Row([""])[KEY_EXEC := ["x"]]) }

  function Missing(): Def { Def(JobType, Row([])[KEY_EXEC := ["x"]][KEY_HANDLES := ["s"]]) }

  function Child(): Tree { Tree(JobType, Empty().tab, [], [], true) }

  function Root(): Tree { Tree(EntrypointType, Emitter().tab, [], [Child()], true) }

  function All(): seq<Def> { [Emitter(), Empty(), Missing()] }

  lemma EmitterHas()
    ensures var tab := Emitter().tab;
            && IdOf(tab) == "a" && Emitter().kind == EntrypointType && HasSrcDef(tab)
            && GetAll(tab, KEY_EMITS) == ["s"] && GetAll(tab, KEY_EXEC) == []
            && GetAll(tab, KEY_JOBS) == [] && GetAll(tab, KEY_HANDLES) == []
  {
  }

  lemma EmptyHas()
    ensures var tab := Empty().tab;
            && IdOf(tab) == "" && Empty().kind == JobType && HasSrcDef(tab)
            && GetAll(tab, KEY_EMITS) == [] && GetAll(tab, KEY_EXEC) == ["x"]
            && GetAll(tab, KEY_JOBS) == [] && GetAll(tab, KEY_HANDLES) == []
  {
  }

  lemma MissingHas()
    ensures IdOf(Missing().tab) == "" && GetAll(Missing().tab, KEY_HANDLES) == ["s"]
  {
  }

  lemma Dependencies()
    ensures Deps(All(), Emitter().tab) == Some([Dep("", HandlerChild)]) && FindById(All(), "") == Some(Empty())
    ensures Deps(All(), Empty().tab) == Some([])
  {
    EmitterHas();
    EmptyHas();
    MissingHas();
    hide Emitter, Empty, Missing, IdOf, GetAll, HasSrcDef;
    var a, b, c := Emitter(), Empty(), Missing();
    assert All()[1..] == [b, c] && [b, c][1..] == [c];
    assert !Handles(a.tab, "s") && !Handles(b.tab, "s") && Handles(c.tab, "s");
    assert [c][1..] == [] && HandlersOf([c], "s") == [c] + [];
    assert HandlersOf([b, c], "s") == [] + [c];
    assert HandlersOf(All(), "s") == [] + ([] + [c]) == [c];
    assert ["s"][1..] == [] && SignalDeps(All(), []) == Some([]) && |[c]| == 1;
    assert SignalDeps(All(), ["s"]) == Some(DepsOn([c]) + []);
    assert JobDeps([]) + (DepsOn([c]) + []) == [Dep("", HandlerChild)];
    assert JobDeps([]) + [] == [];
  }

  lemma WrongHandler()
    ensures Instantiate(All(), Emitter(), []).tree == Some(Root()) && Instantiate(All(), Emitter(), []).log.errors == 0
  {
    Dependencies();
    EmitterHas();
    EmptyHas();
    hide Deps, FindById, Emitter, Empty, All, IdOf, HasSrcDef;
    var deps, anc := [Dep("", HandlerChild)], [] + [IdOf(Emitter().tab)];
    assert Instantiate(All(), Empty(), anc).tree == Some(Child());
    LoopStep(All(), Emitter(), [], deps);
    assert deps[1..] == [] && InstantiateAll(All(), Emitter(), [], []).ok;
    assert [Child()] + [] == [Child()];
  }

  lemma PlainTable(tab: Table)
    requires forall k, v :: k in tab && v in tab[k] ==> !HasOpen(v)
    ensures TableResolved(tab)
  {
    forall k, i | k in tab && 0 <= i < |tab[k]| ensures !HasOpen(tab[k][i]) {
      assert tab[k][i] in tab[k];
    }
  }

  lemma PlainValues()
    ensures Resolved(Root())
  {
    EmitterHas();
    EmptyHas();
    PlainTable(Emitter().tab);
    PlainTable(Empty().tab);
    hide Emitter, Empty, TableResolved, HasSrcDef;
    assert Resolved(Child());
  }

  lemma Accepted(parsers: Parsers)
    ensures NoDuplicates(All()) && AllAcceptable(All(), parsers) && PlainSignals(All())
  {
    DifferentIds();
    LiteralSignals();
  }

  lemma DifferentIds()
    ensures NoDuplicates(All())
  {
  }

  lemma LiteralSignals()
    ensures PlainSignals(All())
  {
  }

  lemma NothingToDo()
    ensures !Active(Root()) && Occupied(Root())
  {
    EmitterHas();
    EmptyHas();
    hide Emitter, Empty, HasSrcDef;
    assert Occupied(Child());
  }

  /** These nodes lint without any error, only with the warning about a missing ID; no action list is
      empty; and yet, as the lookup of the handler does not answer, a run falls through. */
  lemma WarningsMatter(parsers: Parsers)
    ensures LintedTree(All(), parsers, Emitter(), Root(), Root()) && PlainSignals(All()) && Occupied(Root())
    ensures exists d :: d in All() && !HasSrcDef(d.tab)
    ensures !Answered(All(), Emitter()) && exists codes :: !AllDoOneThing(RunNode(Root(), [], codes, 0).trace)
  {
    assert Missing() in All() && !HasSrcDef(Missing().tab);
    WrongHandler();
    PlainValues();
    Accepted(parsers);
    NothingToDo();
    hide Instantiate, RunNode, Resolved, PlainSignals, NoDuplicates, Acceptable, Evaluates, Active, Occupied, Answered,
      AllDoOneThing, HasSrcDef;
    ResolvedEvaluates(Root(), []);
    LintIsSound(All(), parsers, Emitter(), Root(), Root());
  }
}
