/** Lint soundness: nodes that pass the checks, expand and evaluate without errors run without
    errors, and exactly when each node that acts does exactly one kind of thing. */
module Soundness {
  import opened Wrappers
  import opened Tables
  import opened Expansion
  import opened Evaluation
  import opened Execution
  import opened Runs
  import opened Compensation
  import opened Linting
  import opened Activity

  // ---------- What a node has to do ----------

  // The list of the node's one action is not empty; a command list starts with a command.
  predicate HasAction(tab: Table) {
    || GetAll(tab, KEY_EMITS) != []
    || GetAll(tab, KEY_JOBS) != []
    || (GetAll(tab, KEY_EXEC) != [] && GetAll(tab, KEY_EXEC)[0] != "")
  }

  ghost predicate Occupied(t: Tree)
    decreases t
  {
    HasAction(t.tab) && (forall c :: c in t.jobs ==> Occupied(c)) && (forall c :: c in t.handlers ==> Occupied(c))
  }

  // The run-time filter keeps every handler child, in order.
  ghost predicate KeepsHandlers(t: Tree) {
    |RunnableOf(t)| == |t.handlers| && forall i :: 0 <= i < |t.handlers| ==> RunnableOf(t)[i] == i
  }

  // Every node of the tree can do exactly one of three things.
  ghost predicate Disciplined(t: Tree)
    decreases t
  {
    && KeepsHandlers(t) && OnlyOne(t.handlers != [], CommandsOf(t) != [], t.jobs != [])
    && (forall c :: c in t.jobs ==> Disciplined(c)) && (forall c :: c in t.handlers ==> Disciplined(c))
  }

  // The signals that nodes emit and handle are literal text.
  ghost predicate PlainSignals(all: seq<Def>) {
    forall d :: d in all ==> NoRefs(GetAll(d.tab, KEY_EMITS)) && NoRefs(GetAll(d.tab, KEY_HANDLES))
  }

  lemma {:induction false} AllRunnable(handlers: seq<Tree>, signals: seq<string>, i: nat)
    requires i <= |handlers| && forall h :: i <= h < |handlers| ==> HandlesAny(handlers[h].tab, signals)
    ensures var hs := Runnable(handlers, signals, i);
            |hs| == |handlers| - i && forall j :: 0 <= j < |hs| ==> hs[j] == i + j
    decreases |handlers| - i
  {
    hide HandlesAny;
    if i < |handlers| {
      AllRunnable(handlers, signals, i + 1);
      var rest := Runnable(handlers, signals, i + 1);
      assert Runnable(handlers, signals, i) == [i] + rest;
    }
  }

  lemma AllKept(t: Tree)
    ensures KeepsHandlers(t) <==> forall c :: c in t.handlers ==> HandlesAny(c.tab, GetAll(t.tab, KEY_EMITS))
  {
    hide HandlesAny;
    var signals := GetAll(t.tab, KEY_EMITS);
    if forall c :: c in t.handlers ==> HandlesAny(c.tab, signals) {
      AllRunnable(t.handlers, signals, 0);
    }
    if KeepsHandlers(t) {
      forall c | c in t.handlers ensures HandlesAny(c.tab, signals) {
        var i :| 0 <= i < |t.handlers| && t.handlers[i] == c;
        assert RunnableOf(t)[i] == i;
      }
    }
  }

  // ---------- Which node a handler child is made from ----------

  // Looking up the ID of each node that handles a signal of d gives a node that handles one.
  ghost predicate AnsweredAt(all: seq<Def>, d: Def) {
    var signals := GetAll(d.tab, KEY_EMITS);
    forall h :: h in HandlersOfAll(all, signals) ==>
      FindById(all, IdOf(h.tab)).Some? && HandlesAny(FindById(all, IdOf(h.tab)).value.tab, signals)
  }

  // At every node that src can reach.
  ghost predicate Answered(all: seq<Def>, src: Def) {
    forall p :: IsPath(all, p) && p[0] == src ==> AnsweredAt(all, p[|p| - 1])
  }

  lemma AnsweredStep(all: seq<Def>, src: Def)
    ensures Answered(all, src) <==> AnsweredAt(all, src) && forall ref :: Calls(all, src, ref) ==> Answered(all, ref)
  {
    hide AnsweredAt, Calls;
    if Answered(all, src) {
      assert IsPath(all, [src]) && AnsweredAt(all, [src][0]);
      forall ref | Calls(all, src, ref) ensures Answered(all, ref) {
        AnsweredBelow(all, src, ref);
      }
    }
    if AnsweredAt(all, src) && forall ref :: Calls(all, src, ref) ==> Answered(all, ref) {
      forall p | IsPath(all, p) && p[0] == src ensures AnsweredAt(all, p[|p| - 1]) {
        if |p| > 1 {
          var q := p[1..];
          assert Calls(all, p[0], p[1]);
          assert IsPath(all, q) by {
            forall i | 0 <= i < |q| - 1 ensures Calls(all, q[i], q[i + 1]) {
              assert Calls(all, p[i + 1], p[i + 2]);
            }
          }
        }
      }
    }
  }

  lemma AnsweredBelow(all: seq<Def>, src: Def, ref: Def)
    requires Answered(all, src) && Calls(all, src, ref)
    ensures Answered(all, ref)
  {
    hide AnsweredAt, Calls;
    forall p | IsPath(all, p) && p[0] == ref ensures AnsweredAt(all, p[|p| - 1]) {
      var q := [src] + p;
      assert forall i :: 0 <= i < |q| - 1 ==> q[i + 1] == p[i];
      assert IsPath(all, q);
      assert q[|q| - 1] == p[|p| - 1];
    }
  }

  /** When every node has an ID of its own, every lookup answers. */
  lemma UniqueIdsAnswer(all: seq<Def>, src: Def)
    requires UniqueIds(all)
    ensures Answered(all, src)
  {
    hide HandlesAny;
    forall d ensures AnsweredAt(all, d) {
      HandlersHandle(all, GetAll(d.tab, KEY_EMITS));
      HandlersAreKnown(all, GetAll(d.tab, KEY_EMITS));
    }
  }

  lemma DepsOfUnfolding(all: seq<Def>, src: Def, t: Tree)
    requires UnfoldsById(all, src, t)
    ensures Deps(all, src.tab) ==
            Some(JobDeps(GetAll(src.tab, KEY_JOBS)) + DepsOn(HandlersOfAll(all, GetAll(src.tab, KEY_EMITS))))
  {
    hide FindById, HandlersOf;
    AllSignalsHandled(all, GetAll(src.tab, KEY_EMITS));
    SignalDepsAre(all, GetAll(src.tab, KEY_EMITS));
  }

  lemma {:induction false} AllSignalsHandled(all: seq<Def>, signals: seq<string>)
    requires forall i :: 0 <= i < |signals| ==> HandlersOf(all, signals[i]) != []
    ensures SignalDeps(all, signals).Some?
  {
    if signals != [] {
      AllSignalsHandled(all, signals[1..]);
    }
  }

  // The children of an unfolding are the nodes that src calls.
  lemma ChildDef(all: seq<Def>, src: Def, t: Tree, c: Tree) returns (ref: Def)
    requires UnfoldsById(all, src, t) && (c in t.jobs || c in t.handlers)
    ensures Calls(all, src, ref) && UnfoldsById(all, ref, c)
  {
    hide FindById, HandlersOf, HandlersOfAll, Deps, IdOf, GetAll;
    DepsOfUnfolding(all, src, t);
    var jobs, handlers := GetAll(src.tab, KEY_JOBS), HandlersOfAll(all, GetAll(src.tab, KEY_EMITS));
    var deps := Deps(all, src.tab).value;
    if c in t.jobs {
      var i :| 0 <= i < |t.jobs| && t.jobs[i] == c;
      ref := FindById(all, jobs[i]).value;
      assert deps[i] == Dep(jobs[i], JobChild) && deps[i] in deps;
    } else {
      var i :| 0 <= i < |t.handlers| && t.handlers[i] == c;
      ref := FindById(all, IdOf(handlers[i].tab)).value;
      assert deps[|jobs| + i] == Dep(IdOf(handlers[i].tab), HandlerChild) && deps[|jobs| + i] in deps;
    }
  }

  lemma CalledChild(all: seq<Def>, src: Def, t: Tree, ref: Def) returns (c: Tree)
    requires UnfoldsById(all, src, t) && Calls(all, src, ref)
    ensures (c in t.jobs || c in t.handlers) && UnfoldsById(all, ref, c)
  {
    hide FindById, HandlersOf, HandlersOfAll;
    DepsOfUnfolding(all, src, t);
    var jobs, handlers := GetAll(src.tab, KEY_JOBS), HandlersOfAll(all, GetAll(src.tab, KEY_EMITS));
    var deps := Deps(all, src.tab).value;
    var i :| 0 <= i < |deps| && FindById(all, deps[i].id) == Some(ref);
    c := if i < |jobs| then t.jobs[i] else t.handlers[i - |jobs|];
  }

  // ---------- Linted trees ----------

  lemma SomeHandler(all: seq<Def>, signals: seq<string>)
    requires signals != [] ==> HandlersOf(all, signals[0]) != []
    ensures HandlersOfAll(all, signals) == [] <==> signals == []
  {
  }

  // A node with one of the three keys can do at most that, and does it if the list is not empty.
  lemma OneAction(all: seq<Def>, src: Def, t: Tree, t': Tree)
    requires UnfoldsById(all, src, t) && OnlyOne(KEY_EXEC in src.tab, KEY_EMITS in src.tab, KEY_JOBS in src.tab)
    requires Follows(t, t')
    ensures OnlyOne(t'.handlers != [], CommandsOf(t') != [], t'.jobs != []) <==> HasAction(t'.tab)
    ensures (t'.handlers != [] ==> GetAll(t'.tab, KEY_EMITS) != [])
            && (t'.jobs != [] ==> GetAll(t'.tab, KEY_JOBS) != [])
  {
    hide FindById, HandlersOf, HandlersOfAll, NoRefs;
    SomeHandler(all, GetAll(src.tab, KEY_EMITS));
  }

  // Expansion, then evaluation: the run-time filter keeps every handler child exactly when the
  // lookup of each handler's ID gave a node that handles a signal.
  lemma HandlersAreKept(all: seq<Def>, src: Def, t: Tree, t': Tree)
    requires UnfoldsById(all, src, t) && PlainSignals(all) && src in all && Follows(t, t')
    ensures KeepsHandlers(t') <==> AnsweredAt(all, src)
  {
    hide NoRefs, HandlersOf, FindById, KeepsHandlers, HandlesAny, HandlersOfAll;
    var signals := GetAll(src.tab, KEY_EMITS);
    var handlers := HandlersOfAll(all, signals);
    PlainListStays(all, src, t, t');
    AllKept(t');
    forall i | 0 <= i < |handlers|
      ensures HandlesAny(t'.handlers[i].tab, signals) <==>
              HandlesAny(FindById(all, IdOf(handlers[i].tab)).value.tab, signals)
    {
      var ref := FindById(all, IdOf(handlers[i].tab)).value;
      PlainListStays(all, ref, t.handlers[i], t'.handlers[i]);
      SameHandles(ref.tab, t'.handlers[i].tab, signals);
    }
    assert forall i :: 0 <= i < |t'.handlers| ==> t'.handlers[i] in t'.handlers;
    assert forall i :: 0 <= i < |handlers| ==> handlers[i] in handlers;
  }

  lemma PlainListStays(all: seq<Def>, d: Def, t: Tree, t': Tree)
    requires PlainSignals(all) && d in all && UnfoldsById(all, d, t) && Follows(t, t')
    ensures GetAll(t'.tab, KEY_EMITS) == GetAll(d.tab, KEY_EMITS)
            && GetAll(t'.tab, KEY_HANDLES) == GetAll(d.tab, KEY_HANDLES)
  {
    hide NoRefs;
  }

  lemma SameHandles(tab: Table, tab': Table, signals: seq<string>)
    requires GetAll(tab', KEY_HANDLES) == GetAll(tab, KEY_HANDLES)
    ensures HandlesAny(tab', signals) <==> HandlesAny(tab, signals)
  {
    forall s ensures Handles(tab', s) <==> Handles(tab, s) {
    }
  }

  // The check on keys, for every node of the list.
  ghost predicate AllAcceptable(all: seq<Def>, parsers: Parsers) {
    forall d :: d in all ==> Acceptable(d, parsers)
  }

  /** Every node of the tree can do exactly one thing and keeps all its handlers exactly when no action
      list is empty after evaluation and every lookup of a handler answers. */
  lemma {:induction false} DisciplinedIff(all: seq<Def>, parsers: Parsers, src: Def, t: Tree, t': Tree)
    requires AllAcceptable(all, parsers) && PlainSignals(all) && src in all && UnfoldsById(all, src, t)
             && Follows(t, t')
    ensures Disciplined(t') <==> Occupied(t') && Answered(all, src)
    decreases t, 2
  {
    hide PlainSignals, KeepsHandlers, HasAction, CommandsOf, UnfoldsById, Keeps, AnsweredAt, Answered, FindById,
      Acceptable;
    HandlersAreKept(all, src, t, t');
    NodeIsAcceptable(all, parsers, src);
    OneAction(all, src, t, t');
    AnsweredStep(all, src);
    ChildrenDisciplined(all, parsers, src, t, t');
    assert forall c :: IsChild(t', c) <==> c in t'.jobs || c in t'.handlers;
  }

  lemma NodeIsAcceptable(all: seq<Def>, parsers: Parsers, src: Def)
    requires AllAcceptable(all, parsers) && src in all
    ensures OnlyOne(KEY_EXEC in src.tab, KEY_EMITS in src.tab, KEY_JOBS in src.tab)
  {
  }

  // c' is what became of the child c of t.
  ghost predicate Pairs(t: Tree, t': Tree, c: Tree, c': Tree) {
    || (exists i :: 0 <= i < |t.jobs| && i < |t'.jobs| && t.jobs[i] == c && t'.jobs[i] == c')
    || (exists i :: 0 <= i < |t.handlers| && i < |t'.handlers| && t.handlers[i] == c && t'.handlers[i] == c')
  }

  predicate IsChild(t: Tree, c: Tree) {
    c in t.jobs || c in t.handlers
  }

  lemma PairOf(t: Tree, t': Tree, c': Tree) returns (c: Tree)
    requires Follows(t, t') && IsChild(t', c')
    ensures Pairs(t, t', c, c')
  {
    if c' in t'.jobs {
      var i :| 0 <= i < |t'.jobs| && t'.jobs[i] == c';
      c := t.jobs[i];
    } else {
      var i :| 0 <= i < |t'.handlers| && t'.handlers[i] == c';
      c := t.handlers[i];
    }
  }

  lemma PairFor(t: Tree, t': Tree, c: Tree) returns (c': Tree)
    requires Follows(t, t') && IsChild(t, c)
    ensures Pairs(t, t', c, c')
  {
    if c in t.jobs {
      var i :| 0 <= i < |t.jobs| && t.jobs[i] == c;
      c' := t'.jobs[i];
    } else {
      var i :| 0 <= i < |t.handlers| && t.handlers[i] == c;
      c' := t'.handlers[i];
    }
  }

  lemma PairParts(t: Tree, t': Tree, c: Tree, c': Tree)
    requires Follows(t, t') && Pairs(t, t', c, c')
    ensures IsChild(t, c) && IsChild(t', c') && Follows(c, c') && c < t
  {
  }

  lemma {:induction false} ChildDisciplined(
    all: seq<Def>, parsers: Parsers, ref: Def, t: Tree, t': Tree, c: Tree, c': Tree)
    requires AllAcceptable(all, parsers) && PlainSignals(all) && ref in all && UnfoldsById(all, ref, c)
    requires Follows(t, t') && Pairs(t, t', c, c')
    ensures Disciplined(c') <==> Occupied(c') && Answered(all, ref)
    decreases t, 0
  {
    PairParts(t, t', c, c');
    DisciplinedIff(all, parsers, ref, c, c');
  }

  lemma {:induction false} ChildrenDisciplined(all: seq<Def>, parsers: Parsers, src: Def, t: Tree, t': Tree)
    requires AllAcceptable(all, parsers) && PlainSignals(all) && src in all && UnfoldsById(all, src, t)
             && Follows(t, t')
    ensures (forall c' :: IsChild(t', c') ==> Disciplined(c')) <==>
            (forall c' :: IsChild(t', c') ==> Occupied(c'))
              && (forall ref :: Calls(all, src, ref) ==> Answered(all, ref))
    decreases t, 1
  {
    hide AllAcceptable, PlainSignals, UnfoldsById, Follows, Answered, Disciplined, Occupied, Calls, Pairs, IsChild;
    forall c' | IsChild(t', c')
      ensures Disciplined(c') ==> Occupied(c')
      ensures Occupied(c') && (forall ref :: Calls(all, src, ref) ==> Answered(all, ref)) ==> Disciplined(c')
    {
      var c := PairOf(t, t', c');
      PairParts(t, t', c, c');
      var ref := ChildDefHere(all, src, t, c);
      ChildDisciplined(all, parsers, ref, t, t', c, c');
    }
    forall ref | Calls(all, src, ref) && forall c' :: IsChild(t', c') ==> Disciplined(c') ensures Answered(all, ref) {
      var c := CalledChildHere(all, src, t, ref);
      var c' := PairFor(t, t', c);
      PairParts(t, t', c, c');
      ChildDisciplined(all, parsers, ref, t, t', c, c');
    }
  }

  lemma ChildDefHere(all: seq<Def>, src: Def, t: Tree, c: Tree) returns (ref: Def)
    requires UnfoldsById(all, src, t) && IsChild(t, c)
    ensures Calls(all, src, ref) && ref in all && UnfoldsById(all, ref, c)
  {
    ref := ChildDef(all, src, t, c);
  }

  lemma CalledChildHere(all: seq<Def>, src: Def, t: Tree, ref: Def) returns (c: Tree)
    requires UnfoldsById(all, src, t) && Calls(all, src, ref)
    ensures ref in all && IsChild(t, c) && UnfoldsById(all, ref, c)
  {
    c := CalledChild(all, src, t, ref);
  }

  // ---------- The promise of a clean lint ----------

  lemma {:induction false} DisciplinedIsActive(t: Tree)
    requires Disciplined(t)
    ensures Active(t)
    decreases t
  {
    forall c | c in t.jobs || c in t.handlers ensures Active(c) {
      DisciplinedIsActive(c);
    }
  }

  // Where all handlers are kept, a node that can act has an action, and so have the nodes below.
  lemma {:induction false} ActiveIsOccupied(all: seq<Def>, parsers: Parsers, src: Def, t: Tree, t': Tree)
    requires AllAcceptable(all, parsers) && PlainSignals(all) && src in all && UnfoldsById(all, src, t)
             && Follows(t, t')
    requires Answered(all, src) && Active(t')
    ensures Occupied(t')
    decreases t
  {
    hide AllAcceptable, PlainSignals, UnfoldsById, Follows, Answered, Calls, Pairs, AnsweredAt, HasAction;
    HandlersAreKept(all, src, t, t');
    NodeIsAcceptable(all, parsers, src);
    OneAction(all, src, t, t');
    AnsweredStep(all, src);
    ActionOfActive(t');
    forall c' | IsChild(t', c') ensures Occupied(c') {
      var c := PairOf(t, t', c');
      PairParts(t, t', c, c');
      var ref := ChildDefHere(all, src, t, c);
      ActiveIsOccupied(all, parsers, ref, c, c');
    }
  }

  lemma ActionOfActive(t: Tree)
    requires Active(t) && KeepsHandlers(t)
    requires (t.handlers != [] ==> GetAll(t.tab, KEY_EMITS) != []) && (t.jobs != [] ==> GetAll(t.tab, KEY_JOBS) != [])
    requires HasAction(t.tab) ==> OnlyOne(t.handlers != [], CommandsOf(t) != [], t.jobs != [])
    ensures HasAction(t.tab) && forall c :: IsChild(t, c) ==> Active(c)
  {
    if t.handlers != [] {
      assert RunnableOf(t)[0] == 0;
      forall c | c in t.handlers ensures Active(c) {
        var i :| 0 <= i < |t.handlers| && t.handlers[i] == c;
        assert RunnableOf(t)[i] == i;
      }
    }
  }

  lemma {:induction false} ResolvedIsLocated(t: Tree)
    requires Resolved(t)
    ensures Located(t)
    decreases t
  {
    forall c | c in t.jobs || c in t.handlers ensures Located(c) {
      ResolvedIsLocated(c);
    }
  }

  // The nodes have no duplicates and pass their checks, src expands to t and t evaluates to t', and no
  // error is reported; warnings may be.
  ghost predicate LintedTree(nodes: seq<Def>, parsers: Parsers, src: Def, t: Tree, t': Tree) {
    && NoDuplicates(nodes) && AllAcceptable(nodes, parsers) && src in nodes
    && Instantiate(nodes, src, []).log.errors == 0 && Instantiate(nodes, src, []).tree == Some(t)
    && Evaluates(t, [], t', 0)
  }

  /** After a lint without errors no run counts an error; and in every run each node that acts executes
      commands, or starts handlers, or starts jobs, never two of these and never none, exactly when
      every node that a run without failures reaches has something to do. When signals are literal,
      every node can do exactly one thing and keeps all its handlers exactly when no action list is
      empty and looking up the ID of each handler on the way gives a node that handles a signal. */
  lemma LintIsSound(nodes: seq<Def>, parsers: Parsers, src: Def, t: Tree, t': Tree)
    requires LintedTree(nodes, parsers, src, t, t')
    ensures forall codes :: RunNode(t', [], codes, 0).errors == 0
    ensures (forall codes :: AllDoOneThing(RunNode(t', [], codes, 0).trace)) <==> Active(t')
    ensures PlainSignals(nodes) ==> (Disciplined(t') <==> Occupied(t') && Answered(nodes, src))
    ensures PlainSignals(nodes) && Answered(nodes, src) ==> (Active(t') <==> Occupied(t'))
  {
    hide RunNode, AllDoOneThing, Active, PlainSignals, Disciplined, Occupied, Answered, Evaluates, UnfoldsById,
      Resolved, Located;
    NoErrorsUnfold(nodes, src, []);
    NoErrorsIffResolved(t, [], t', 0);
    ResolvedIsLocated(t');
    OneThingIffActive(t');
    forall codes ensures RunNode(t', [], codes, 0).errors == 0 {
      WarningsAreConserved(t', codes);
    }
    if PlainSignals(nodes) {
      DisciplinedIff(nodes, parsers, src, t, t');
      if Answered(nodes, src) && Occupied(t') {
        DisciplinedIsActive(t');
      }
      if Answered(nodes, src) && Active(t') {
        ActiveIsOccupied(nodes, parsers, src, t, t');
      }
    }
  }

  /** Without the warning about missing IDs every lookup answers: then, after a clean lint, all nodes
      that act do exactly one thing in every run exactly when no action list is empty. */
  lemma CleanLintIsSound(nodes: seq<Def>, parsers: Parsers, src: Def, t: Tree, t': Tree)
    requires LintedTree(nodes, parsers, src, t, t') && PlainSignals(nodes)
             && forall d :: d in nodes ==> HasSrcDef(d.tab)
    ensures (forall codes :: AllDoOneThing(RunNode(t', [], codes, 0).trace)) <==> Occupied(t')
  {
    hide RunNode, AllDoOneThing, Active, PlainSignals, Occupied, Answered, Evaluates;
    LintIsSound(nodes, parsers, src, t, t');
    CleanIdsAreUnique(nodes, parsers);
    UniqueIdsAnswer(nodes, src);
  }
}
