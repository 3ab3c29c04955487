/** Expansion of the flat node list into a call tree (`node_find_dependent_jobs`,
    `node_instantiate`), as functions on values, and what it computes for every graph. */
module Expansion {
  import opened Wrappers
  import opened Tables

  // A node as it was read from a file.
  datatype Def = Def(kind: NodeType, tab: Table)

  // An instantiated node with its children.
  datatype Tree = Tree(kind: NodeType, tab: Table, jobs: seq<Tree>, handlers: seq<Tree>, instantiated: bool)

  datatype ChildType = JobChild | HandlerChild

  datatype Dep = Dep(id: string, ct: ChildType)

  // ---------- Dependencies of one node ----------

  // node_findbyid: the first node with that ID.
  function FindById(all: seq<Def>, id: string): (r: Option<Def>)
    ensures r.Some? ==> r.value in all && IdOf(r.value.tab) == id
    ensures r.None? ==> forall d :: d in all ==> IdOf(d.tab) != id
  {
    if all == [] then None
    else if IdOf(all[0].tab) == id then Some(all[0])
    else FindById(all[1..], id)
  }

  // What is found is the first node with the ID, and nothing only if there is none.
  lemma {:induction false} FindsTheFirst(all: seq<Def>, id: string, i: nat)
    requires i < |all|
    ensures GetFirst(all[i].tab, KEY_ID) == id && (forall j :: 0 <= j < i ==> GetFirst(all[j].tab, KEY_ID) != id) ==>
              FindById(all, id) == Some(all[i])
    ensures FindById(all, id) == None ==> GetFirst(all[i].tab, KEY_ID) != id
  {
    if i > 0 {
      assert forall j :: 0 <= j < i - 1 ==> all[1..][j] == all[j + 1];
      FindsTheFirst(all[1..], id, i - 1);
    }
  }

  predicate Handles(tab: Table, sig: string) {
    sig in GetAll(tab, KEY_HANDLES)
  }

  // kbnode_filter_handlers (all, { sig })
  function HandlersOf(all: seq<Def>, sig: string): seq<Def> {
    if all == [] then []
    else (if Handles(all[0].tab, sig) then [all[0]] else []) + HandlersOf(all[1..], sig)
  }

  function DepsOn(nodes: seq<Def>): seq<Dep> {
    seq(|nodes|, i requires 0 <= i < |nodes| => Dep(IdOf(nodes[i].tab), HandlerChild))
  }

  function SignalDeps(all: seq<Def>, signals: seq<string>): Option<seq<Dep>> {
    if signals == [] then Some([])
    else
      var hs := HandlersOf(all, signals[0]);
      var rest := SignalDeps(all, signals[1..]);
      if hs == [] || rest == None then None else Some(DepsOn(hs) + rest.value)
  }

  function JobDeps(jobs: seq<string>): seq<Dep> {
    seq(|jobs|, i requires 0 <= i < |jobs| => Dep(jobs[i], JobChild))
  }

  // node_find_dependent_jobs; None where it returns NULL, after counting one error.
  function Deps(all: seq<Def>, tab: Table): Option<seq<Dep>> {
    if !HasSrcDef(tab) then None
    else
      match SignalDeps(all, GetAll(tab, KEY_EMITS))
      case None => None
      case Some(hs) => Some(JobDeps(GetAll(tab, KEY_JOBS)) + hs)
  }

  // ---------- Expansion ----------

  // What an attempt reports: the error counter; the dangling references and the nodes without
  // dependencies it met; the chain of IDs at which it gave up; the longest chain it built.
  datatype Log = Log(errors: nat, missing: nat, undetermined: nat, cycle: seq<string>, longest: nat)
  {
    function Plus(that: Log): Log {
      Log(errors + that.errors, missing + that.missing, undetermined + that.undetermined,
          if cycle == [] then that.cycle else cycle, if longest < that.longest then that.longest else longest)
    }
  }

  datatype Attempt = Attempt(tree: Option<Tree>, log: Log)

  datatype Children = Children(ok: bool, jobs: seq<Tree>, handlers: seq<Tree>, log: Log)

  function Ids(all: seq<Def>): set<string> {
    set d | d in all :: IdOf(d.tab)
  }

  ghost function Unused(all: seq<Def>, src: Def, anc: seq<string>): set<string> {
    Ids(all) + {IdOf(src.tab)} - Elements(anc)
  }

  function Elements<T(==)>(s: seq<T>): set<T> {
    set x | x in s
  }

  lemma UnusedShrinks(all: seq<Def>, src: Def, anc: seq<string>, child: Def)
    requires child in all && IdOf(child.tab) !in anc
    ensures var anc' := anc + [IdOf(src.tab)];
            if IdOf(src.tab) in anc
            then |Unused(all, child, anc')| <= |Unused(all, src, anc)| && IdOf(child.tab) !in anc'
            else |Unused(all, child, anc')| < |Unused(all, src, anc)|
  {
    var anc' := anc + [IdOf(src.tab)];
    var a, b := Unused(all, src, anc), Unused(all, child, anc');
    assert b <= a;
    if IdOf(src.tab) in anc {
      SubsetSize(b, a);
    } else {
      assert IdOf(src.tab) in a && IdOf(src.tab) !in b;
      SubsetSize(b, a - {IdOf(src.tab)});
    }
  }

  lemma SubsetSize<T>(a: set<T>, b: set<T>)
    requires a <= b
    ensures |a| <= |b|
  {
    assert b == a + (b - a);
  }

  // A child joins the children that the rest of the loop adds.
  function Join(ct: ChildType, a: Attempt, rest: Children): Children
    requires a.tree.Some?
  {
    var log := a.log.Plus(rest.log);
    if !rest.ok then Children(false, [], [], log)
    else if ct == JobChild then Children(true, [a.tree.value] + rest.jobs, rest.handlers, log)
    else Children(true, rest.jobs, [a.tree.value] + rest.handlers, log)
  }

  // node_instantiate, for the node src under a parent whose chain of IDs, from the root down, is anc.
  function Instantiate(all: seq<Def>, src: Def, anc: seq<string>): Attempt
    decreases |Unused(all, src, anc)|, if IdOf(src.tab) in anc then 1 else 0
  {
    match Deps(all, src.tab)
    case None => Attempt(Some(Tree(src.kind, src.tab, [], [], false)), Log(1, 0, 1, [], |anc| + 1))
    case Some(deps) =>
      var c := InstantiateAll(all, src, anc, deps);
      Attempt(if c.ok then Some(Tree(src.kind, src.tab, c.jobs, c.handlers, true)) else None, c.log)
  }

  // The loop over the dependencies of src.
  function InstantiateAll(all: seq<Def>, src: Def, anc: seq<string>, deps: seq<Dep>): Children
    decreases |Unused(all, src, anc)|, if IdOf(src.tab) in anc then 1 else 0, |deps|
  {
    if deps == [] then Children(true, [], [], Log(0, 0, 0, [], |anc| + 1))
    else
      match FindById(all, deps[0].id)
      case None =>
        var rest := InstantiateAll(all, src, anc, deps[1..]);
        rest.(log := Log(1, 1, 0, [], |anc| + 1).Plus(rest.log))
      case Some(ref) =>
        if deps[0].id in anc then
          Children(false, [], [], Log(1, 0, 0, anc + [IdOf(src.tab)], |anc| + 1))
        else
          UnusedShrinks(all, src, anc, ref);
          var a := Instantiate(all, ref, anc + [IdOf(src.tab)]);
          if a.tree == None then Children(false, [], [], a.log.(errors := a.log.errors + 1))
          else Join(deps[0].ct, a, InstantiateAll(all, src, anc, deps[1..]))
  }

  // One round of the loop that meets neither a dangling reference nor a cycle.
  lemma LoopStep(all: seq<Def>, src: Def, anc: seq<string>, deps: seq<Dep>)
    requires deps != [] && FindById(all, deps[0].id).Some? && deps[0].id !in anc
    ensures var a := Instantiate(all, FindById(all, deps[0].id).value, anc + [IdOf(src.tab)]);
            InstantiateAll(all, src, anc, deps) ==
            if a.tree == None then Children(false, [], [], a.log.(errors := a.log.errors + 1))
            else Join(deps[0].ct, a, InstantiateAll(all, src, anc, deps[1..]))
  {
  }

  // ---------- The dependency graph ----------

  ghost predicate UniqueIds(all: seq<Def>) {
    forall i, j :: 0 <= i < j < |all| ==> IdOf(all[i].tab) != IdOf(all[j].tab)
  }

  // src depends on ref.
  ghost predicate Calls(all: seq<Def>, src: Def, ref: Def) {
    Deps(all, src.tab).Some? && exists d :: d in Deps(all, src.tab).value && FindById(all, d.id) == Some(ref)
  }

  ghost predicate IsPath(all: seq<Def>, p: seq<Def>) {
    p != [] && forall i :: 0 <= i < |p| - 1 ==> Calls(all, p[i], p[i + 1])
  }

  function IdSeq(p: seq<Def>): seq<string> {
    seq(|p|, i requires 0 <= i < |p| => IdOf(p[i].tab))
  }

  ghost predicate NoRepeat<T(!new)>(s: seq<T>) {
    forall i, j :: 0 <= i < j < |s| ==> s[i] != s[j]
  }

  // Every job that the node names exists and every signal that it emits is handled.
  ghost predicate Sound(all: seq<Def>, src: Def) {
    && Deps(all, src.tab).Some?
    && forall d :: d in Deps(all, src.tab).value ==> FindById(all, d.id).Some?
  }

  ghost predicate Known(all: seq<Def>, src: Def) {
    FindById(all, IdOf(src.tab)) == Some(src)
  }

  lemma {:induction false} MembersAreKnown(all: seq<Def>, src: Def)
    requires UniqueIds(all) && src in all
    ensures Known(all, src)
  {
  }

  // ---------- A returned tree: no cycle was there to be found ----------

  lemma {:induction false} LoopOk(all: seq<Def>, src: Def, anc: seq<string>, deps: seq<Dep>, d: Dep)
    requires InstantiateAll(all, src, anc, deps).ok && d in deps && FindById(all, d.id).Some?
    ensures d.id !in anc
    ensures Instantiate(all, FindById(all, d.id).value, anc + [IdOf(src.tab)]).tree.Some?
    decreases |deps|
  {
    if d != deps[0] {
      LoopOk(all, src, anc, deps[1..], d);
    }
  }

  lemma CalleeOk(all: seq<Def>, src: Def, anc: seq<string>, ref: Def)
    requires Instantiate(all, src, anc).tree.Some? && Calls(all, src, ref)
    ensures IdOf(ref.tab) !in anc
    ensures Instantiate(all, ref, anc + [IdOf(src.tab)]).tree.Some?
  {
    var deps := Deps(all, src.tab).value;
    var d :| d in deps && FindById(all, d.id) == Some(ref);
    LoopOk(all, src, anc, deps, d);
  }

  // The ancestor check looks one level too high, yet a self-call never survives it.
  lemma NoSelfCall(all: seq<Def>, src: Def, anc: seq<string>, ref: Def)
    requires Known(all, src) && Instantiate(all, src, anc).tree.Some? && Calls(all, src, ref)
    ensures IdOf(ref.tab) != IdOf(src.tab)
  {
    if IdOf(ref.tab) == IdOf(src.tab) {
      CalleeOk(all, src, anc, ref);
      CalleeOk(all, ref, anc + [IdOf(src.tab)], ref);
      assert false;
    }
  }

  lemma {:induction false} PathAvoids(all: seq<Def>, anc: seq<string>, p: seq<Def>, i: nat)
    requires IsPath(all, p) && Instantiate(all, p[0], anc).tree.Some? && 1 <= i < |p|
    ensures IdOf(p[i].tab) !in anc
    decreases i
  {
    assert Calls(all, p[0], p[1]);
    CalleeOk(all, p[0], anc, p[1]);
    if i > 1 {
      assert IsPath(all, p[1..]);
      PathAvoids(all, anc + [IdOf(p[0].tab)], p[1..], i - 1);
    }
  }

  lemma CalleeIsKnown(all: seq<Def>, src: Def, ref: Def)
    requires Calls(all, src, ref)
    ensures Known(all, ref)
  {
  }

  lemma {:induction false} TreeMeansNoCycle(all: seq<Def>, anc: seq<string>, p: seq<Def>)
    requires IsPath(all, p) && Known(all, p[0]) && Instantiate(all, p[0], anc).tree.Some?
    ensures NoRepeat(IdSeq(p))
    decreases |p|
  {
    hide Instantiate, Calls, FindById, IdOf;
    if |p| > 1 {
      assert Calls(all, p[0], p[1]) && IsPath(all, p[1..]);
      CalleeOk(all, p[0], anc, p[1]);
      CalleeIsKnown(all, p[0], p[1]);
      TreeMeansNoCycle(all, anc + [IdOf(p[0].tab)], p[1..]);
      NoSelfCall(all, p[0], anc, p[1]);
      forall i, j | 0 <= i < j < |p| ensures IdSeq(p)[i] != IdSeq(p)[j] {
        if i > 0 {
          assert IdSeq(p[1..])[i - 1] != IdSeq(p[1..])[j - 1];
        } else if j > 1 {
          PathAvoids(all, anc + [IdOf(p[0].tab)], p[1..], j - 1);
        }
      }
    }
  }

  // ---------- NULL: there is a cycle ----------

  ghost predicate Chain(all: seq<Def>, c: seq<Def>, anc: seq<string>, src: Def) {
    IsPath(all, c) && c[|c| - 1] == src && anc == IdSeq(c[..|c| - 1])
  }

  lemma ChainGrows(all: seq<Def>, c: seq<Def>, anc: seq<string>, src: Def, ref: Def)
    requires Chain(all, c, anc, src) && Calls(all, src, ref)
    ensures Chain(all, c + [ref], anc + [IdOf(src.tab)], ref)
  {
  }

  lemma {:induction false} NullMeansCycle(all: seq<Def>, c: seq<Def>, anc: seq<string>, src: Def) returns (p: seq<Def>)
    requires Chain(all, c, anc, src) && Instantiate(all, src, anc).tree == None
    ensures IsPath(all, p) && p[0] == c[0] && !NoRepeat(IdSeq(p))
    decreases |Unused(all, src, anc)|, if IdOf(src.tab) in anc then 1 else 0
  {
    p := LoopMeansCycle(all, c, anc, src, Deps(all, src.tab).value);
  }

  lemma {:induction false} LoopMeansCycle(
    all: seq<Def>, c: seq<Def>, anc: seq<string>, src: Def, deps: seq<Dep>) returns (p: seq<Def>)
    requires Chain(all, c, anc, src) && Deps(all, src.tab).Some?
    requires forall d :: d in deps ==> d in Deps(all, src.tab).value
    requires !InstantiateAll(all, src, anc, deps).ok
    ensures IsPath(all, p) && p[0] == c[0] && !NoRepeat(IdSeq(p))
    decreases |Unused(all, src, anc)|, if IdOf(src.tab) in anc then 1 else 0, |deps|
  {
    assert deps[0] in deps;
    match FindById(all, deps[0].id)
    case None => p := LoopMeansCycle(all, c, anc, src, deps[1..]);
    case Some(ref) =>
      assert Calls(all, src, ref);
      ChainGrows(all, c, anc, src, ref);
      var anc' := anc + [IdOf(src.tab)];
      if deps[0].id in anc {
        p := c + [ref];
        var i :| 0 <= i < |anc| && anc[i] == deps[0].id;
        assert IdSeq(p)[i] == IdSeq(p)[|p| - 1];
      } else {
        UnusedShrinks(all, src, anc, ref);
        if Instantiate(all, ref, anc').tree == None {
          p := NullMeansCycle(all, c + [ref], anc', ref);
        } else {
          p := LoopMeansCycle(all, c, anc, src, deps[1..]);
        }
      }
  }

  ghost predicate Cyclic(all: seq<Def>, src: Def) {
    exists p :: IsPath(all, p) && p[0] == src && !NoRepeat(IdSeq(p))
  }

  /** Expansion gives up exactly when a cycle can be reached, although each node's check
      looks at the ancestors of its parent only. */
  lemma NullIffCyclic(all: seq<Def>, src: Def)
    requires UniqueIds(all) && src in all
    ensures Instantiate(all, src, []).tree == None <==> Cyclic(all, src)
  {
    MembersAreKnown(all, src);
    if Instantiate(all, src, []).tree == None {
      assert Chain(all, [src], [], src);
      var p := NullMeansCycle(all, [src], [], src);
    } else {
      forall p | IsPath(all, p) && p[0] == src ensures NoRepeat(IdSeq(p)) {
        TreeMeansNoCycle(all, [], p);
      }
    }
  }

  // ---------- No errors: the graph is clean and the tree is its unfolding ----------

  // Every node that src can reach, itself included, is sound.
  ghost predicate Healthy(all: seq<Def>, src: Def) {
    forall p :: IsPath(all, p) && p[0] == src ==> Sound(all, p[|p| - 1])
  }

  lemma HealthyCallee(all: seq<Def>, src: Def, ref: Def)
    requires Healthy(all, src) && Calls(all, src, ref)
    ensures Healthy(all, ref)
  {
    forall p | IsPath(all, p) && p[0] == ref ensures Sound(all, p[|p| - 1]) {
      var q := [src] + p;
      assert forall i :: 0 <= i < |q| - 1 ==> q[i + 1] == p[i];
      assert IsPath(all, q);
      assert q[|q| - 1] == p[|p| - 1];
    }
  }

  lemma {:induction false} LoopWithoutErrors(all: seq<Def>, src: Def, anc: seq<string>, deps: seq<Dep>, d: Dep)
    requires InstantiateAll(all, src, anc, deps).log.errors == 0 && d in deps
    ensures InstantiateAll(all, src, anc, deps).ok && FindById(all, d.id).Some? && d.id !in anc
    ensures Instantiate(all, FindById(all, d.id).value, anc + [IdOf(src.tab)]).log.errors == 0
    decreases |deps|
  {
    if |deps| > 1 {
      LoopWithoutErrors(all, src, anc, deps[1..], if d in deps[1..] then d else deps[1]);
    }
  }

  lemma {:induction false} NoErrorsMeansSound(all: seq<Def>, anc: seq<string>, p: seq<Def>)
    requires IsPath(all, p) && Instantiate(all, p[0], anc).log.errors == 0
    ensures Sound(all, p[|p| - 1])
    decreases |p|
  {
    var deps := Deps(all, p[0].tab).value;
    if |p| == 1 {
      forall d | d in deps ensures FindById(all, d.id).Some? {
        LoopWithoutErrors(all, p[0], anc, deps, d);
      }
    } else {
      assert Calls(all, p[0], p[1]) && IsPath(all, p[1..]);
      var d :| d in deps && FindById(all, d.id) == Some(p[1]);
      LoopWithoutErrors(all, p[0], anc, deps, d);
      NoErrorsMeansSound(all, anc + [IdOf(p[0].tab)], p[1..]);
    }
  }

  lemma {:induction false} HealthyTreeHasNoErrors(all: seq<Def>, src: Def, anc: seq<string>)
    requires Healthy(all, src) && Instantiate(all, src, anc).tree.Some?
    ensures Instantiate(all, src, anc).log.errors == 0
    decreases |Unused(all, src, anc)|, if IdOf(src.tab) in anc then 1 else 0
  {
    assert IsPath(all, [src]) && Sound(all, [src][0]);
    HealthyLoopHasNoErrors(all, src, anc, Deps(all, src.tab).value);
  }

  lemma {:induction false} HealthyLoopHasNoErrors(all: seq<Def>, src: Def, anc: seq<string>, deps: seq<Dep>)
    requires Healthy(all, src) && InstantiateAll(all, src, anc, deps).ok
    requires Sound(all, src) && forall d :: d in deps ==> d in Deps(all, src.tab).value
    ensures InstantiateAll(all, src, anc, deps).log.errors == 0
    decreases |Unused(all, src, anc)|, if IdOf(src.tab) in anc then 1 else 0, |deps|
  {
    if deps != [] {
      assert deps[0] in deps;
      var ref := FindById(all, deps[0].id).value;
      assert Calls(all, src, ref);
      HealthyCallee(all, src, ref);
      UnusedShrinks(all, src, anc, ref);
      HealthyTreeHasNoErrors(all, ref, anc + [IdOf(src.tab)]);
      HealthyLoopHasNoErrors(all, src, anc, deps[1..]);
    }
  }

  // The nodes that handle the signals, signal by signal.
  function HandlersOfAll(all: seq<Def>, signals: seq<string>): seq<Def> {
    if signals == [] then [] else HandlersOf(all, signals[0]) + HandlersOfAll(all, signals[1..])
  }

  // t is the dependency graph below src written out as a tree: first the jobs that src names,
  // in order, then the handlers of its signals, in signal order.
  ghost predicate IsUnfolding(all: seq<Def>, src: Def, t: Tree)
    decreases t
  {
    var jobs, handlers := GetAll(src.tab, KEY_JOBS), HandlersOfAll(all, GetAll(src.tab, KEY_EMITS));
    && t.kind == src.kind && t.tab == src.tab && t.instantiated && HasSrcDef(src.tab)
    && |t.jobs| == |jobs| && |t.handlers| == |handlers|
    && (forall i :: 0 <= i < |GetAll(src.tab, KEY_EMITS)| ==> HandlersOf(all, GetAll(src.tab, KEY_EMITS)[i]) != [])
    && (forall i :: 0 <= i < |jobs| ==>
          FindById(all, jobs[i]).Some? && IsUnfolding(all, FindById(all, jobs[i]).value, t.jobs[i]))
    && (forall i :: 0 <= i < |handlers| ==> IsUnfolding(all, handlers[i], t.handlers[i]))
  }

  // t is the graph below src written out by IDs: a handler child is made from the first node that
  // has the ID of the handler, as the lookup finds it.
  ghost predicate UnfoldsById(all: seq<Def>, src: Def, t: Tree)
    decreases t
  {
    var jobs, handlers := GetAll(src.tab, KEY_JOBS), HandlersOfAll(all, GetAll(src.tab, KEY_EMITS));
    && t.kind == src.kind && t.tab == src.tab && t.instantiated && HasSrcDef(src.tab)
    && |t.jobs| == |jobs| && |t.handlers| == |handlers|
    && (forall i :: 0 <= i < |GetAll(src.tab, KEY_EMITS)| ==> HandlersOf(all, GetAll(src.tab, KEY_EMITS)[i]) != [])
    && (forall i :: 0 <= i < |jobs| ==>
          FindById(all, jobs[i]).Some? && UnfoldsById(all, FindById(all, jobs[i]).value, t.jobs[i]))
    && (forall i :: 0 <= i < |handlers| ==>
          var ref := FindById(all, IdOf(handlers[i].tab));
          ref.Some? && UnfoldsById(all, ref.value, t.handlers[i]))
  }

  predicate HandlesAny(tab: Table, signals: seq<string>) {
    exists i :: 0 <= i < |signals| && Handles(tab, signals[i])
  }

  lemma {:induction false} HandlersHandle(all: seq<Def>, signals: seq<string>)
    ensures forall d :: d in HandlersOfAll(all, signals) <==> d in all && HandlesAny(d.tab, signals)
  {
    hide HandlersOf, Handles;
    if signals != [] {
      HandlersAreNodes(all, signals[0]);
      HandlersHandle(all, signals[1..]);
      forall d: Def
        ensures HandlesAny(d.tab, signals) <==> Handles(d.tab, signals[0]) || HandlesAny(d.tab, signals[1..]) {
        assert forall i :: 0 <= i < |signals[1..]| ==> signals[1..][i] == signals[i + 1];
        assert forall i :: 1 <= i < |signals| ==> signals[i] == signals[1..][i - 1];
      }
    }
  }

  lemma {:induction false} HandlersAreNodes(all: seq<Def>, sig: string)
    ensures forall d :: d in HandlersOf(all, sig) <==> d in all && Handles(d.tab, sig)
    ensures forall d :: d in HandlersOf(all, sig) <==>
              d in all && exists j :: 0 <= j < |GetAll(d.tab, "HANDLES")| && GetAll(d.tab, "HANDLES")[j] == sig
  {
    if all != [] {
      HandlersAreNodes(all[1..], sig);
    }
  }

  // ... in the order of the list.
  lemma {:induction false} HandlersInOrder(a: seq<Def>, b: seq<Def>, sig: string)
    ensures HandlersOf(a + b, sig) == HandlersOf(a, sig) + HandlersOf(b, sig)
  {
    if a == [] {
      assert a + b == b;
    } else {
      assert (a + b)[1..] == a[1..] + b;
      HandlersInOrder(a[1..], b, sig);
    }
  }

  // ... and signal by signal.
  lemma {:induction false} SignalsInOrder(all: seq<Def>, a: seq<string>, b: seq<string>)
    ensures HandlersOfAll(all, a + b) == HandlersOfAll(all, a) + HandlersOfAll(all, b)
    ensures |a| == 1 ==> HandlersOfAll(all, a) == HandlersOf(all, a[0])
  {
    if a == [] {
      assert a + b == b;
    } else {
      assert (a + b)[1..] == a[1..] + b;
      SignalsInOrder(all, a[1..], b);
    }
  }

  lemma {:induction false} SignalDepsAre(all: seq<Def>, signals: seq<string>)
    requires SignalDeps(all, signals).Some?
    ensures SignalDeps(all, signals).value == DepsOn(HandlersOfAll(all, signals))
    ensures forall d :: d in HandlersOfAll(all, signals) ==> d in all
    ensures forall i :: 0 <= i < |signals| ==> HandlersOf(all, signals[i]) != []
  {
    if signals != [] {
      SignalDepsAre(all, signals[1..]);
      HandlersAreNodes(all, signals[0]);
      assert DepsOn(HandlersOfAll(all, signals)) ==
             DepsOn(HandlersOf(all, signals[0])) + DepsOn(HandlersOfAll(all, signals[1..]));
    }
  }

  /** A node has dependencies exactly when it knows its origin and each of its signals has a handler:
      its jobs in order, and then the handlers. */
  lemma DependenciesAre(all: seq<Def>, tab: Table)
    ensures var emits, jobs := GetAll(tab, "EMITS"), GetAll(tab, "JOBS");
            && (Deps(all, tab).Some? <==>
                  HasSrcDef(tab) && forall i :: 0 <= i < |emits| ==>
                    exists d :: d in all && emits[i] in GetAll(d.tab, "HANDLES"))
            && (Deps(all, tab).Some? ==>
                  var deps, hs := Deps(all, tab).value, HandlersOfAll(all, emits);
                  && |deps| == |jobs| + |hs|
                  && (forall i :: 0 <= i < |jobs| ==> deps[i] == Dep(jobs[i], JobChild))
                  && forall i :: 0 <= i < |hs| ==> deps[|jobs| + i] == Dep(GetFirst(hs[i].tab, "ID"), HandlerChild))
  {
    hide HasSrcDef, HandlersOf, HandlersOfAll;
    var emits := GetAll(tab, KEY_EMITS);
    SignalsHandled(all, emits);
    if SignalDeps(all, emits).Some? {
      SignalDepsAre(all, emits);
    }
  }

  lemma {:induction false} SignalsHandled(all: seq<Def>, signals: seq<string>)
    ensures SignalDeps(all, signals).Some? <==>
              forall i :: 0 <= i < |signals| ==> exists d :: d in all && signals[i] in GetAll(d.tab, KEY_HANDLES)
  {
    hide HandlersOf, GetAll;
    if signals != [] {
      SignalsHandled(all, signals[1..]);
      HandlersAreNodes(all, signals[0]);
      assert HandlersOf(all, signals[0]) != [] <==>
             exists d :: d in all && signals[0] in GetAll(d.tab, KEY_HANDLES) by {
        if HandlersOf(all, signals[0]) != [] {
          assert HandlersOf(all, signals[0])[0] in HandlersOf(all, signals[0]);
        }
      }
      assert forall i :: 0 < i < |signals| ==> signals[i] == signals[1..][i - 1];
      assert forall i :: 0 <= i < |signals| - 1 ==> signals[1..][i] == signals[i + 1];
    }
  }

  // refs are the nodes that deps stand for, and ts their unfoldings.
  ghost predicate Unfoldings(all: seq<Def>, ids: seq<string>, ts: seq<Tree>) {
    |ts| == |ids| && forall i :: 0 <= i < |ids| ==>
                       FindById(all, ids[i]).Some? && UnfoldsById(all, FindById(all, ids[i]).value, ts[i])
  }

  function DepIds(deps: seq<Dep>): seq<string> {
    seq(|deps|, i requires 0 <= i < |deps| => deps[i].id)
  }

  // The call for the dependency d succeeds with the unfolding of its node.
  ghost predicate CallUnfolds(all: seq<Def>, src: Def, anc: seq<string>, d: Dep) {
    && FindById(all, d.id).Some? && d.id !in anc
    && var ref := FindById(all, d.id).value;
       var a := Instantiate(all, ref, anc + [IdOf(src.tab)]);
       a.tree.Some? && UnfoldsById(all, ref, a.tree.value)
  }

  lemma NothingUnfolds(all: seq<Def>)
    ensures Unfoldings(all, DepIds([]), [])
  {
  }

  lemma {:induction false} LoopUnfolds(all: seq<Def>, src: Def, anc: seq<string>, jobs: seq<Dep>, handlers: seq<Dep>)
    requires forall d :: d in jobs ==> d.ct == JobChild && CallUnfolds(all, src, anc, d)
    requires forall d :: d in handlers ==> d.ct == HandlerChild && CallUnfolds(all, src, anc, d)
    ensures var c := InstantiateAll(all, src, anc, jobs + handlers);
            c.ok && Unfoldings(all, DepIds(jobs), c.jobs) && Unfoldings(all, DepIds(handlers), c.handlers)
    decreases |jobs| + |handlers|
  {
    hide FindById, IdOf, Instantiate, UnfoldsById, Unfoldings;
    var deps := jobs + handlers;
    if deps == [] {
      NothingUnfolds(all);
    } else {
      assert deps[0] in (if jobs != [] then jobs else handlers);
      LoopStep(all, src, anc, deps);
      var a := Instantiate(all, FindById(all, deps[0].id).value, anc + [IdOf(src.tab)]);
      var rest := InstantiateAll(all, src, anc, deps[1..]);
      if jobs != [] {
        assert deps[1..] == jobs[1..] + handlers;
        LoopUnfolds(all, src, anc, jobs[1..], handlers);
        JoinUnfolds(all, jobs, jobs[1..], handlers, handlers, a, rest);
      } else {
        assert deps[1..] == jobs + handlers[1..];
        LoopUnfolds(all, src, anc, jobs, handlers[1..]);
        JoinUnfolds(all, jobs, jobs, handlers, handlers[1..], a, rest);
      }
    }
  }

  // The child of the first of deps, a job or else a handler, joins the children of the others.
  lemma JoinUnfolds(
    all: seq<Def>, jobs: seq<Dep>, jobs': seq<Dep>, handlers: seq<Dep>, handlers': seq<Dep>, a: Attempt, rest: Children)
    requires if jobs != [] then jobs' == jobs[1..] && handlers' == handlers && jobs[0].ct == JobChild
             else handlers != [] && jobs' == [] && handlers' == handlers[1..] && handlers[0].ct == HandlerChild
    requires var id := (if jobs != [] then jobs else handlers)[0].id;
             a.tree.Some? && FindById(all, id).Some? && UnfoldsById(all, FindById(all, id).value, a.tree.value)
    requires rest.ok && Unfoldings(all, DepIds(jobs'), rest.jobs) && Unfoldings(all, DepIds(handlers'), rest.handlers)
    ensures var c := Join(if jobs != [] then JobChild else HandlerChild, a, rest);
            c.ok && Unfoldings(all, DepIds(jobs), c.jobs) && Unfoldings(all, DepIds(handlers), c.handlers)
  {
    if jobs != [] {
      UnfoldingsGrow(all, jobs, a.tree.value, rest.jobs);
    } else {
      UnfoldingsGrow(all, handlers, a.tree.value, rest.handlers);
    }
  }

  lemma UnfoldingsGrow(all: seq<Def>, deps: seq<Dep>, t: Tree, rest: seq<Tree>)
    requires deps != [] && Unfoldings(all, DepIds(deps[1..]), rest)
    requires FindById(all, deps[0].id).Some? && UnfoldsById(all, FindById(all, deps[0].id).value, t)
    ensures Unfoldings(all, DepIds(deps), [t] + rest)
  {
    hide UnfoldsById, FindById;
    forall i | 1 <= i < |deps| ensures DepIds(deps)[i] == DepIds(deps[1..])[i - 1] {
    }
  }

  // Whether IDs are unique or not.
  lemma {:induction false} NoErrorsUnfold(all: seq<Def>, src: Def, anc: seq<string>)
    requires Instantiate(all, src, anc).log.errors == 0
    ensures Instantiate(all, src, anc).tree.Some?
    ensures UnfoldsById(all, src, Instantiate(all, src, anc).tree.value)
    decreases |Unused(all, src, anc)|, if IdOf(src.tab) in anc then 1 else 0
  {
    var ids, signals := GetAll(src.tab, KEY_JOBS), GetAll(src.tab, KEY_EMITS);
    var jobs, handlers := JobDeps(ids), SignalDeps(all, signals).value;
    SignalDepsAre(all, signals);
    forall d | d in jobs || d in handlers ensures CallUnfolds(all, src, anc, d) {
      assert d in jobs + handlers;
      LoopWithoutErrors(all, src, anc, jobs + handlers, d);
      var ref := FindById(all, d.id).value;
      UnusedShrinks(all, src, anc, ref);
      NoErrorsUnfold(all, ref, anc + [IdOf(src.tab)]);
    }
    LoopUnfolds(all, src, anc, jobs, handlers);
    var c, hs := InstantiateAll(all, src, anc, jobs + handlers), HandlersOfAll(all, signals);
    assert DepIds(jobs) == ids;
    forall i | 0 <= i < |hs|
      ensures FindById(all, IdOf(hs[i].tab)).Some?
              && UnfoldsById(all, FindById(all, IdOf(hs[i].tab)).value, c.handlers[i])
    {
      assert DepIds(handlers)[i] == IdOf(hs[i].tab);
    }
  }

  lemma {:induction false} UniqueUnfolds(all: seq<Def>, src: Def, t: Tree)
    requires UniqueIds(all) && UnfoldsById(all, src, t)
    ensures IsUnfolding(all, src, t)
    decreases t
  {
    var jobs, handlers := GetAll(src.tab, KEY_JOBS), HandlersOfAll(all, GetAll(src.tab, KEY_EMITS));
    HandlersAreKnown(all, GetAll(src.tab, KEY_EMITS));
    forall i | 0 <= i < |jobs| ensures IsUnfolding(all, FindById(all, jobs[i]).value, t.jobs[i]) {
      UniqueUnfolds(all, FindById(all, jobs[i]).value, t.jobs[i]);
    }
    forall i | 0 <= i < |handlers| ensures IsUnfolding(all, handlers[i], t.handlers[i]) {
      assert handlers[i] in handlers;
      UniqueUnfolds(all, handlers[i], t.handlers[i]);
    }
  }

  lemma HandlersAreKnown(all: seq<Def>, signals: seq<string>)
    requires UniqueIds(all)
    ensures forall d :: d in HandlersOfAll(all, signals) ==> Known(all, d)
  {
    HandlersHandle(all, signals);
    forall d | d in HandlersOfAll(all, signals) ensures Known(all, d) {
      MembersAreKnown(all, d);
    }
  }

  // No ID occurs twice on the way from the root to any node of t.
  ghost predicate NoIdRepeats(t: Tree, above: set<string>) {
    && IdOf(t.tab) !in above
    && (forall c :: c in t.jobs ==> NoIdRepeats(c, above + {IdOf(t.tab)}))
    && (forall c :: c in t.handlers ==> NoIdRepeats(c, above + {IdOf(t.tab)}))
  }

  lemma {:induction false} TreeHasNoRepeats(all: seq<Def>, src: Def, anc: seq<string>)
    requires Known(all, src) && Instantiate(all, src, anc).tree.Some? && IdOf(src.tab) !in anc
    ensures NoIdRepeats(Instantiate(all, src, anc).tree.value, Elements(anc))
    decreases |Unused(all, src, anc)|
  {
    if Deps(all, src.tab).Some? {
      var deps, anc' := Deps(all, src.tab).value, anc + [IdOf(src.tab)];
      assert Elements(anc') == Elements(anc) + {IdOf(src.tab)};
      var c := InstantiateAll(all, src, anc, deps);
      forall t | t in c.jobs || t in c.handlers ensures NoIdRepeats(t, Elements(anc')) {
        var ref := TreeComesFrom(all, src, anc, deps, t);
        assert Calls(all, src, ref);
        NoSelfCall(all, src, anc, ref);
        UnusedShrinks(all, src, anc, ref);
        TreeHasNoRepeats(all, ref, anc');
      }
    }
  }

  lemma {:induction false} TreeComesFrom(all: seq<Def>, src: Def, anc: seq<string>, deps: seq<Dep>, t: Tree)
    returns (ref: Def)
    requires var c := InstantiateAll(all, src, anc, deps); c.ok && (t in c.jobs || t in c.handlers)
    ensures Known(all, ref) && IdOf(ref.tab) !in anc && exists d :: d in deps && FindById(all, d.id) == Some(ref)
    ensures Instantiate(all, ref, anc + [IdOf(src.tab)]).tree == Some(t)
    decreases |deps|
  {
    var found := FindById(all, deps[0].id);
    if found.Some? && Instantiate(all, found.value, anc + [IdOf(src.tab)]).tree == Some(t) {
      ref := found.value;
      assert deps[0] in deps;
    } else {
      ref := TreeComesFrom(all, src, anc, deps[1..], t);
      var d :| d in deps[1..] && FindById(all, d.id) == Some(ref);
      assert d in deps;
    }
  }

  /** Expansion adds no error exactly when nothing reachable is unsound and no cycle is
      reachable; the tree is then the unfolding of the graph, and no ID repeats on a branch. */
  lemma ExpansionIsExact(all: seq<Def>, src: Def)
    requires UniqueIds(all) && src in all
    ensures var a := Instantiate(all, src, []);
            && (a.log.errors == 0 <==> Healthy(all, src) && !Cyclic(all, src))
            && (a.log.errors == 0 ==>
                  a.tree.Some? && IsUnfolding(all, src, a.tree.value) && NoIdRepeats(a.tree.value, {}))
  {
    NullIffCyclic(all, src);
    MembersAreKnown(all, src);
    if Instantiate(all, src, []).log.errors == 0 {
      NoErrorsUnfold(all, src, []);
      UniqueUnfolds(all, src, Instantiate(all, src, []).tree.value);
      TreeHasNoRepeats(all, src, []);
      assert Elements<string>([]) == {};
      forall p | IsPath(all, p) && p[0] == src ensures Sound(all, p[|p| - 1]) {
        NoErrorsMeansSound(all, [], p);
      }
    } else if Healthy(all, src) && !Cyclic(all, src) {
      HealthyTreeHasNoErrors(all, src, []);
    }
  }

  lemma {:induction false} UnfoldingIsUnique(all: seq<Def>, src: Def, t: Tree, t': Tree)
    requires IsUnfolding(all, src, t) && IsUnfolding(all, src, t')
    ensures t == t'
    decreases t
  {
    var jobs, handlers := GetAll(src.tab, KEY_JOBS), HandlersOfAll(all, GetAll(src.tab, KEY_EMITS));
    forall i | 0 <= i < |jobs| ensures t.jobs[i] == t'.jobs[i] {
      UnfoldingIsUnique(all, FindById(all, jobs[i]).value, t.jobs[i], t'.jobs[i]);
    }
    forall i | 0 <= i < |handlers| ensures t.handlers[i] == t'.handlers[i] {
      UnfoldingIsUnique(all, handlers[i], t.handlers[i], t'.handlers[i]);
    }
    assert t.jobs == t'.jobs && t.handlers == t'.handlers;
  }

  // ---------- How often a handler appears ----------

  function Occurrences(ds: seq<Def>, d: Def): nat {
    if ds == [] then 0 else (if ds[0] == d then 1 else 0) + Occurrences(ds[1..], d)
  }

  function HandledCount(signals: seq<string>, tab: Table): nat {
    if signals == [] then 0 else (if Handles(tab, signals[0]) then 1 else 0) + HandledCount(signals[1..], tab)
  }

  lemma {:induction false} OccurrencesConcat(a: seq<Def>, b: seq<Def>, d: Def)
    ensures Occurrences(a + b, d) == Occurrences(a, d) + Occurrences(b, d)
  {
    if a == [] {
      assert a + b == b;
    } else {
      assert (a + b)[1..] == a[1..] + b;
      OccurrencesConcat(a[1..], b, d);
    }
  }

  lemma {:induction false} OccursInHandlers(all: seq<Def>, sig: string, d: Def)
    ensures Occurrences(HandlersOf(all, sig), d) == if Handles(d.tab, sig) then Occurrences(all, d) else 0
  {
    if all != [] {
      OccursInHandlers(all[1..], sig, d);
      OccurrencesConcat(if Handles(all[0].tab, sig) then [all[0]] else [], HandlersOf(all[1..], sig), d);
    }
  }

  lemma {:induction false} OccursOnce(all: seq<Def>, d: Def)
    requires UniqueIds(all)
    ensures Occurrences(all, d) == if d in all then 1 else 0
  {
    if all != [] {
      assert UniqueIds(all[1..]) by {
        forall j, k | 0 <= j < k < |all[1..]| ensures IdOf(all[1..][j].tab) != IdOf(all[1..][k].tab) {
          assert IdOf(all[j + 1].tab) != IdOf(all[k + 1].tab);
        }
      }
      OccursOnce(all[1..], d);
    }
  }

  /** A node that handles k of the emitted signals is among the handler children k times. */
  lemma {:induction false} HandlerMultiplicity(all: seq<Def>, signals: seq<string>, d: Def)
    requires UniqueIds(all) && d in all
    ensures Occurrences(HandlersOfAll(all, signals), d) == HandledCount(signals, d.tab)
  {
    if signals != [] {
      HandlerMultiplicity(all, signals[1..], d);
      OccurrencesConcat(HandlersOf(all, signals[0]), HandlersOfAll(all, signals[1..]), d);
      OccursInHandlers(all, signals[0], d);
      OccursOnce(all, d);
    }
  }

  // ---------- The error counter ----------

  function Unresolved(all: seq<Def>, deps: seq<Dep>): nat {
    if deps == [] then 0
    else (if FindById(all, deps[0].id) == None then 1 else 0) + Unresolved(all, deps[1..])
  }

  // Dangling references of all nodes of a tree.
  ghost function Dangling(all: seq<Def>, t: Tree): nat {
    (match Deps(all, t.tab) case None => 0 case Some(deps) => Unresolved(all, deps)) +
    DanglingIn(all, t.jobs) + DanglingIn(all, t.handlers)
  }

  ghost function DanglingIn(all: seq<Def>, ts: seq<Tree>): nat {
    if ts == [] then 0 else Dangling(all, ts[0]) + DanglingIn(all, ts[1..])
  }

  // Nodes of a tree whose dependencies could not be found.
  ghost function Bare(t: Tree): nat {
    (if t.instantiated then 0 else 1) + BareIn(t.jobs) + BareIn(t.handlers)
  }

  ghost function BareIn(ts: seq<Tree>): nat {
    if ts == [] then 0 else Bare(ts[0]) + BareIn(ts[1..])
  }

  // What an attempt's counters say, for a chain of ancestors of the given length.
  ghost predicate Accounted(log: Log, ok: bool, above: seq<string>, depth: nat) {
    if ok then log.cycle == [] && log.errors == log.missing + log.undetermined
    else above <= log.cycle && depth < |log.cycle|
         && log.errors == log.missing + log.undetermined + |log.cycle| - depth
  }

  lemma {:induction false} CountersOf(all: seq<Def>, src: Def, anc: seq<string>)
    ensures var a := Instantiate(all, src, anc);
            && Accounted(a.log, a.tree.Some?, anc + [IdOf(src.tab)], |anc|)
            && (a.tree.Some? ==>
                  a.log.missing == Dangling(all, a.tree.value) && a.log.undetermined == Bare(a.tree.value))
    decreases |Unused(all, src, anc)|, if IdOf(src.tab) in anc then 1 else 0
  {
    if Deps(all, src.tab).Some? {
      LoopCountersOf(all, src, anc, Deps(all, src.tab).value);
    }
  }

  ghost predicate CountersFit(all: seq<Def>, c: Children, above: seq<string>, deps: seq<Dep>) {
    && above != [] && Accounted(c.log, c.ok, above, |above| - 1)
    && (c.ok ==> c.log.missing == Unresolved(all, deps) + DanglingIn(all, c.jobs) + DanglingIn(all, c.handlers))
    && (c.ok ==> c.log.undetermined == BareIn(c.jobs) + BareIn(c.handlers))
  }

  lemma JoinCounters(all: seq<Def>, a: Attempt, rest: Children, above: seq<string>, id: string, deps: seq<Dep>)
    requires deps != [] && FindById(all, deps[0].id).Some? && a.tree.Some?
    requires Accounted(a.log, true, above + [id], |above|)
    requires a.log.missing == Dangling(all, a.tree.value) && a.log.undetermined == Bare(a.tree.value)
    requires CountersFit(all, rest, above, deps[1..])
    ensures CountersFit(all, Join(deps[0].ct, a, rest), above, deps)
  {
  }

  lemma {:induction false} LoopCountersOf(all: seq<Def>, src: Def, anc: seq<string>, deps: seq<Dep>)
    ensures CountersFit(all, InstantiateAll(all, src, anc, deps), anc + [IdOf(src.tab)], deps)
    decreases |Unused(all, src, anc)|, if IdOf(src.tab) in anc then 1 else 0, |deps|
  {
    hide FindById, IdOf, Unused, Instantiate;
    if deps != [] {
      var found := FindById(all, deps[0].id);
      if found == None {
        LoopCountersOf(all, src, anc, deps[1..]);
      } else if deps[0].id !in anc {
        UnusedShrinks(all, src, anc, found.value);
        CountersOf(all, found.value, anc + [IdOf(src.tab)]);
        LoopCountersOf(all, src, anc, deps[1..]);
        var a := Instantiate(all, found.value, anc + [IdOf(src.tab)]);
        if a.tree.Some? {
          JoinCounters(all, a, InstantiateAll(all, src, anc, deps[1..]), anc + [IdOf(src.tab)], IdOf(found.value.tab),
            deps);
        }
      }
    }
  }

  /** The errors of an expansion are the dangling references and the nodes without
      dependencies that were met, plus, when it gives up on a cycle, the length of the chain
      from the root to the node whose check found it; a returned tree shows each of them. */
  lemma ErrorAccounting(all: seq<Def>, src: Def)
    ensures var a := Instantiate(all, src, []);
            match a.tree
            case None => a.log.cycle != [] && a.log.cycle[0] == IdOf(src.tab)
                         && a.log.errors == a.log.missing + a.log.undetermined + |a.log.cycle|
            case Some(t) => a.log.errors == Dangling(all, t) + Bare(t)
  {
    CountersOf(all, src, []);
  }

  // ---------- The longest chain ----------

  function Height(t: Tree): nat {
    1 + HeightOf(t.jobs, HeightOf(t.handlers, 0))
  }

  // The greatest height of ts, at least least.
  function HeightOf(ts: seq<Tree>, least: nat): nat {
    if ts == [] then least
    else
      var h, rest := Height(ts[0]), HeightOf(ts[1..], least);
      if h < rest then rest else h
  }

  lemma {:induction false} HeightAtLeast(ts: seq<Tree>, least: nat, h: nat)
    ensures HeightOf(ts, if h < least then least else h) ==
            if HeightOf(ts, least) < h then h else HeightOf(ts, least)
  {
    if ts != [] {
      HeightAtLeast(ts[1..], least, h);
    }
  }

  // A returned tree is as high as the longest chain of the attempt; a cycle is no longer than it.
  ghost predicate Measures(log: Log, ok: bool, depth: nat) {
    if ok then log.cycle == [] && log.longest == depth else |log.cycle| <= log.longest
  }

  lemma JoinHeight(ct: ChildType, a: Attempt, rest: Children, depth: nat)
    requires a.tree.Some? && Measures(a.log, true, depth + 1 + Height(a.tree.value))
    requires Measures(rest.log, rest.ok, depth + 1 + HeightOf(rest.jobs, HeightOf(rest.handlers, 0)))
    ensures var c := Join(ct, a, rest); Measures(c.log, c.ok, depth + 1 + HeightOf(c.jobs, HeightOf(c.handlers, 0)))
  {
    HeightAtLeast(rest.jobs, HeightOf(rest.handlers, 0), Height(a.tree.value));
  }

  lemma {:induction false} LongestIsMet(all: seq<Def>, src: Def, anc: seq<string>)
    ensures var a := Instantiate(all, src, anc);
            Measures(a.log, a.tree.Some?, if a.tree.Some? then |anc| + Height(a.tree.value) else 0)
    decreases |Unused(all, src, anc)|, if IdOf(src.tab) in anc then 1 else 0
  {
    if Deps(all, src.tab).Some? {
      LongestIsMetInLoop(all, src, anc, Deps(all, src.tab).value);
    }
  }

  lemma {:induction false} LongestIsMetInLoop(all: seq<Def>, src: Def, anc: seq<string>, deps: seq<Dep>)
    ensures var c := InstantiateAll(all, src, anc, deps);
            Measures(c.log, c.ok, |anc| + 1 + HeightOf(c.jobs, HeightOf(c.handlers, 0)))
    decreases |Unused(all, src, anc)|, if IdOf(src.tab) in anc then 1 else 0, |deps|
  {
    hide FindById, IdOf, Unused, Instantiate, Height;
    if deps != [] {
      var found, anc' := FindById(all, deps[0].id), anc + [IdOf(src.tab)];
      LongestIsMetInLoop(all, src, anc, deps[1..]);
      if found.Some? && deps[0].id !in anc {
        UnusedShrinks(all, src, anc, found.value);
        LongestIsMet(all, found.value, anc');
        LoopStep(all, src, anc, deps);
        var a, rest := Instantiate(all, found.value, anc'), InstantiateAll(all, src, anc, deps[1..]);
        if a.tree.Some? {
          JoinHeight(deps[0].ct, a, rest, |anc|);
        }
      }
    }
  }

  // Only which IDs are above matters, and each extra ancestor lengthens the chains by one.
  lemma {:induction false} OnlyElementsMatter(all: seq<Def>, src: Def, anc: seq<string>, anc': seq<string>)
    requires Elements(anc) == Elements(anc')
    ensures Instantiate(all, src, anc').tree == Instantiate(all, src, anc).tree
    ensures Instantiate(all, src, anc').log.longest - |anc'| == Instantiate(all, src, anc).log.longest - |anc|
    decreases |Unused(all, src, anc)|, if IdOf(src.tab) in anc then 1 else 0
  {
    if Deps(all, src.tab).Some? {
      OnlyElementsMatterInLoop(all, src, anc, anc', Deps(all, src.tab).value);
    }
  }

  ghost predicate SameBut(c: Children, c': Children, more: int) {
    c'.ok == c.ok && c'.jobs == c.jobs && c'.handlers == c.handlers && c'.log.longest == c.log.longest + more
  }

  lemma JoinSame(ct: ChildType, a: Attempt, a': Attempt, rest: Children, rest': Children, more: int)
    requires a.tree.Some? && a'.tree == a.tree && a'.log.longest == a.log.longest + more && SameBut(rest, rest', more)
    ensures SameBut(Join(ct, a, rest), Join(ct, a', rest'), more)
  {
  }

  lemma {:induction false} OnlyElementsMatterInLoop(
    all: seq<Def>, src: Def, anc: seq<string>, anc': seq<string>, deps: seq<Dep>)
    requires Elements(anc) == Elements(anc')
    ensures SameBut(InstantiateAll(all, src, anc, deps), InstantiateAll(all, src, anc', deps), |anc'| - |anc|)
    decreases |Unused(all, src, anc)|, if IdOf(src.tab) in anc then 1 else 0, |deps|
  {
    hide FindById, IdOf, Unused, Instantiate;
    if deps != [] {
      var found, id := FindById(all, deps[0].id), IdOf(src.tab);
      assert deps[0].id in anc <==> deps[0].id in Elements(anc');
      OnlyElementsMatterInLoop(all, src, anc, anc', deps[1..]);
      if found.Some? && deps[0].id !in anc {
        assert Elements(anc + [id]) == Elements(anc) + {id} == Elements(anc' + [id]);
        UnusedShrinks(all, src, anc, found.value);
        OnlyElementsMatter(all, found.value, anc + [id], anc' + [id]);
        LoopStep(all, src, anc, deps);
        LoopStep(all, src, anc', deps);
        var a, a' := Instantiate(all, found.value, anc + [id]), Instantiate(all, found.value, anc' + [id]);
        if a.tree.Some? {
          var rest, rest' := InstantiateAll(all, src, anc, deps[1..]), InstantiateAll(all, src, anc', deps[1..]);
          JoinSame(deps[0].ct, a, a', rest, rest', |anc'| - |anc|);
        }
      }
    }
  }

  lemma DistinctFit(s: seq<string>, ids: set<string>)
    requires NoRepeat(s) && Elements(s) <= ids
    ensures |s| <= |ids|
    decreases |s|
  {
    if s != [] {
      var l := s[|s| - 1];
      assert Elements(s[..|s| - 1]) <= ids - {l};
      DistinctFit(s[..|s| - 1], ids - {l});
    }
  }

  // The chain of a call whose own ID is new: no repeats, all of them known IDs.
  ghost predicate Fresh(all: seq<Def>, src: Def, anc: seq<string>) {
    NoRepeat(anc + [IdOf(src.tab)]) && Elements(anc + [IdOf(src.tab)]) <= Ids(all) && Known(all, src)
  }

  lemma FreshIsNew(all: seq<Def>, src: Def, anc: seq<string>)
    requires Fresh(all, src, anc)
    ensures IdOf(src.tab) !in anc && |anc| < |Ids(all)|
  {
    var c := anc + [IdOf(src.tab)];
    assert forall i :: 0 <= i < |anc| ==> anc[i] == c[i] != c[|anc|];
    DistinctFit(c, Ids(all));
  }

  lemma FreshCallee(all: seq<Def>, src: Def, anc: seq<string>, ref: Def)
    requires Fresh(all, src, anc) && Known(all, ref) && IdOf(ref.tab) !in anc + [IdOf(src.tab)]
    ensures Fresh(all, ref, anc + [IdOf(src.tab)])
  {
  }

  // The chains of a loop are those of its calls.
  lemma {:induction false} LoopLongest(all: seq<Def>, src: Def, anc: seq<string>, deps: seq<Dep>, bound: nat)
    requires |anc| < bound
    requires forall d :: d in deps && FindById(all, d.id).Some? && d.id !in anc ==>
               Instantiate(all, FindById(all, d.id).value, anc + [IdOf(src.tab)]).log.longest <= bound
    ensures InstantiateAll(all, src, anc, deps).log.longest <= bound
    decreases |deps|
  {
    if deps != [] {
      LoopLongest(all, src, anc, deps[1..], bound);
    }
  }

  // A successful call builds no chain longer than the number of known IDs.
  lemma {:induction false} SuccessfulChains(all: seq<Def>, src: Def, anc: seq<string>)
    requires Fresh(all, src, anc) && Instantiate(all, src, anc).tree.Some?
    ensures Instantiate(all, src, anc).log.longest <= |Ids(all)|
    decreases |Unused(all, src, anc)|
  {
    FreshIsNew(all, src, anc);
    if Deps(all, src.tab).Some? {
      var deps, anc' := Deps(all, src.tab).value, anc + [IdOf(src.tab)];
      forall d | d in deps && FindById(all, d.id).Some? && d.id !in anc
        ensures Instantiate(all, FindById(all, d.id).value, anc').log.longest <= |Ids(all)|
      {
        var ref := FindById(all, d.id).value;
        assert Calls(all, src, ref);
        CalleeOk(all, src, anc, ref);
        NoSelfCall(all, src, anc, ref);
        FreshCallee(all, src, anc, ref);
        UnusedShrinks(all, src, anc, ref);
        SuccessfulChains(all, ref, anc');
      }
      LoopLongest(all, src, anc, deps, |Ids(all)|);
    }
  }

  // The loop stops at a dependency that is already above: later ones do not matter.
  lemma {:induction false} LoopStopsAt(all: seq<Def>, src: Def, anc: seq<string>, done: seq<Dep>, todo: seq<Dep>,
    bound: nat)
    requires |anc| < bound && todo != [] && todo[0].id in anc && FindById(all, todo[0].id).Some?
    requires forall d :: d in done && FindById(all, d.id).Some? && d.id !in anc ==>
               Instantiate(all, FindById(all, d.id).value, anc + [IdOf(src.tab)]).log.longest <= bound
    ensures InstantiateAll(all, src, anc, done + todo).log.longest <= bound
    decreases |done|
  {
    hide FindById, IdOf, Instantiate;
    if done == [] {
      assert done + todo == todo;
    } else {
      assert (done + todo)[1..] == done[1..] + todo && done[0] in done;
      LoopStopsAt(all, src, anc, done[1..], todo, bound);
    }
  }

  ghost predicate Succeeded(all: seq<Def>, src: Def, anc: seq<string>, done: seq<Dep>) {
    forall d :: d in done && FindById(all, d.id).Some? ==>
      d.id !in anc && Instantiate(all, FindById(all, d.id).value, anc + [IdOf(src.tab)]).tree.Some?
  }

  // A self-call repeats its caller's ID once; what its loop starts before it meets itself again
  // has already succeeded under the caller.
  lemma SelfCallChains(all: seq<Def>, src: Def, anc: seq<string>, done: seq<Dep>, todo: seq<Dep>)
    requires Fresh(all, src, anc) && Deps(all, src.tab) == Some(done + todo)
    requires todo != [] && todo[0].id == IdOf(src.tab) && Succeeded(all, src, anc, done)
    ensures Instantiate(all, src, anc + [IdOf(src.tab)]).log.longest <= |Ids(all)| + 1
  {
    var id := IdOf(src.tab);
    var anc' := anc + [id];
    DistinctFit(anc', Ids(all));
    forall d | d in done && FindById(all, d.id).Some? && d.id !in anc'
      ensures Instantiate(all, FindById(all, d.id).value, anc' + [id]).log.longest <= |Ids(all)| + 1
    {
      var ref := FindById(all, d.id).value;
      FreshCalleeFound(all, src, anc, d.id);
      SuccessfulChains(all, ref, anc');
      assert Elements(anc' + [id]) == Elements(anc');
      OnlyElementsMatter(all, ref, anc', anc' + [id]);
    }
    LoopStopsAt(all, src, anc', done, todo, |Ids(all)| + 1);
  }

  lemma FreshCalleeFound(all: seq<Def>, src: Def, anc: seq<string>, id: string)
    requires Fresh(all, src, anc) && FindById(all, id).Some? && id !in anc + [IdOf(src.tab)]
    ensures Fresh(all, FindById(all, id).value, anc + [IdOf(src.tab)])
  {
  }

  lemma {:induction false} FreshCallChains(all: seq<Def>, src: Def, anc: seq<string>)
    requires Fresh(all, src, anc)
    ensures Instantiate(all, src, anc).log.longest <= |Ids(all)| + 1
    decreases |Unused(all, src, anc)|, 1
  {
    FreshIsNew(all, src, anc);
    if Deps(all, src.tab).Some? {
      assert [] + Deps(all, src.tab).value == Deps(all, src.tab).value;
      FreshLoopChains(all, src, anc, [], Deps(all, src.tab).value);
    }
  }

  lemma {:induction false} FreshLoopChains(all: seq<Def>, src: Def, anc: seq<string>, done: seq<Dep>, todo: seq<Dep>)
    requires Fresh(all, src, anc) && Deps(all, src.tab) == Some(done + todo) && Succeeded(all, src, anc, done)
    ensures InstantiateAll(all, src, anc, todo).log.longest <= |Ids(all)| + 1
    decreases |Unused(all, src, anc)|, 0, |todo|
  {
    hide FindById, IdOf, Unused, Instantiate, NoRepeat;
    FreshIsNew(all, src, anc);
    if todo != [] {
      var found, anc' := FindById(all, todo[0].id), anc + [IdOf(src.tab)];
      assert (done + [todo[0]]) + todo[1..] == done + todo;
      if found == None {
        FreshLoopChains(all, src, anc, done + [todo[0]], todo[1..]);
      } else if todo[0].id !in anc {
        if todo[0].id == IdOf(src.tab) {
          SelfCallChains(all, src, anc, done, todo);
        } else {
          FreshCalleeFound(all, src, anc, todo[0].id);
          UnusedShrinks(all, src, anc, found.value);
          FreshCallChains(all, found.value, anc');
        }
        LoopStep(all, src, anc, todo);
        if Instantiate(all, found.value, anc').tree.Some? {
          FreshLoopChains(all, src, anc, done + [todo[0]], todo[1..]);
        }
      }
    }
  }

  /** No chain that an expansion ever builds, even one that fails, is longer than the number of
      known nodes plus one; nor is a returned tree higher. */
  lemma ChainsAreBounded(all: seq<Def>, src: Def)
    requires UniqueIds(all) && src in all
    ensures var a := Instantiate(all, src, []);
            && a.log.longest <= |all| + 1 && |a.log.cycle| <= |all| + 1
            && (a.tree.Some? ==> Height(a.tree.value) == a.log.longest)
  {
    LongestIsMet(all, src, []);
    MembersAreKnown(all, src);
    FreshCallChains(all, src, []);
    IdsFit(all);
  }

  lemma {:induction false} IdsFit(all: seq<Def>)
    ensures |Ids(all)| <= |all|
  {
    if all != [] {
      IdsFit(all[1..]);
      assert Ids(all) == {IdOf(all[0].tab)} + Ids(all[1..]);
    }
  }
}
