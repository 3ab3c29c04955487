/** Nodes as objects that own their memory (`kbnode.c`): instantiation builds a tree of fresh
    nodes, linked both ways, that stands for the tree `Expansion.Instantiate` computes. */
module Nodes {
  import opened Wrappers
  import opened Tables
  import opened Expansion
  import opened SymbolTable

  class Node {
    const kind: NodeType
    const symtab: SymTab
    var parent: Node?
    var jobs: seq<Node>
    var handlers: seq<Node>
    var instantiated: bool

    constructor (kind: NodeType, symtab: SymTab, parent: Node?)
      ensures this.kind == kind && this.symtab == symtab && this.parent == parent
      ensures jobs == handlers == [] && !instantiated
    {
      this.kind, this.symtab, this.parent := kind, symtab, parent;
      jobs, handlers, instantiated := [], [], false;
    }
  }

  // ---------- The memory of a node and of a tree ----------

  // The objects of a tree: each node with the arrays of its table, and its children.
  datatype Shape = Shape(node: Node, table: map<string, array<string>>, jobs: seq<Shape>, handlers: seq<Shape>)

  ghost function OwnArrays(table: map<string, array<string>>): set<object> {
    set k | k in table :: table[k] as object
  }

  ghost function Memory(st: SymTab, table: map<string, array<string>>): set<object> {
    {st} + OwnArrays(table)
  }

  ghost function Own(s: Shape): set<object> {
    {s.node} + Memory(s.node.symtab, s.table)
  }

  ghost function Footprint(s: Shape): set<object>
    decreases s
  {
    Own(s) + FootprintOf(s.jobs) + FootprintOf(s.handlers)
  }

  ghost function FootprintOf(ss: seq<Shape>): set<object>
    decreases ss
  {
    set i, o | 0 <= i < |ss| && o in Footprint(ss[i]) :: o
  }

  // The symbol table object has these arrays, one for each key, and they hold tab.
  ghost predicate Holds(st: SymTab, table: map<string, array<string>>, tab: Table)
    reads st, table.Values
  {
    && st.table == table && table.Keys == tab.Keys
    && (forall j, k :: j in table && k in table && j != k ==> table[j] != table[k])
    && forall k :: k in table ==> table[k][..] == tab[k]
  }

  // The objects of s are a tree of nodes under parent that stands for t; no object is shared
  // between a node and its children.
  ghost predicate Represents(s: Shape, parent: Node?, t: Tree)
    reads Footprint(s)
    decreases s
  {
    && Own(s) !! FootprintOf(s.jobs) && Own(s) !! FootprintOf(s.handlers)
    && FootprintOf(s.jobs) !! FootprintOf(s.handlers)
    && s.node.parent == parent && s.node.kind == t.kind && s.node.instantiated == t.instantiated
    && Holds(s.node.symtab, s.table, t.tab)
    && Forest(s.node, s.node.jobs, s.jobs, t.jobs) && Forest(s.node, s.node.handlers, s.handlers, t.handlers)
  }

  // The nodes are the roots of the trees ss under node (of trees without a parent, if it is null),
  // which stand for ts and share no object.
  ghost predicate Forest(node: Node?, nodes: seq<Node>, ss: seq<Shape>, ts: seq<Tree>)
    reads FootprintOf(ss)
    decreases ss
  {
    && |nodes| == |ss| == |ts|
    && (forall i, j :: 0 <= i < |ss| && 0 <= j < |ss| && i != j ==> Footprint(ss[i]) !! Footprint(ss[j]))
    && (forall i :: 0 <= i < |ss| ==> nodes[i] == ss[i].node && Represents(ss[i], node, ts[i]))
  }

  // The table and its arrays are among the objects of world.
  ghost predicate Within(st: SymTab, world: set<object>)
    reads world
  {
    st in world && forall k :: k in st.table ==> st.table[k] in world
  }

  // The nodes as they were read: each has the symbols of its definition.
  ghost predicate Reflects(all: seq<Node>, defs: seq<Def>, world: set<object>)
    reads world
    decreases |all|
  {
    && |all| == |defs|
    && (all != [] ==> ReflectsOne(all[0], defs[0], world) && Reflects(all[1..], defs[1..], world))
  }

  ghost predicate ReflectsOne(node: Node, def: Def, world: set<object>)
    reads world
  {
    && Within(node.symtab, world) && node.kind == def.kind
    && node.symtab.Valid() && node.symtab.View() == def.tab && def.tab != map[]
  }

  lemma {:induction false} ReflectsAt(all: seq<Node>, defs: seq<Def>, world: set<object>, i: nat)
    requires Reflects(all, defs, world) && i < |all|
    ensures ReflectsOne(all[i], defs[i], world)
    decreases i
  {
    if i > 0 {
      ReflectsAt(all[1..], defs[1..], world, i - 1);
    }
  }

  lemma SameLength(all: seq<Node>, defs: seq<Def>, world: set<object>)
    requires Reflects(all, defs, world)
    ensures |all| == |defs|
  {
  }

  // ---------- Dependencies ----------

  method NodeFindById(all: seq<Node>, id: string, ghost defs: seq<Def>, ghost world: set<object>)
    returns (found: Node?, ghost index: nat)
    requires Reflects(all, defs, world)
    ensures found == null ==> FindById(defs, id) == None
    ensures found != null ==> index < |all| == |defs| && all[index] == found && FindById(defs, id) == Some(defs[index])
  {
    index := 0;
    assert defs[0..] == defs;
    for i := 0 to |all|
      invariant FindById(defs[i..], id) == FindById(defs, id)
    {
      ReflectsAt(all, defs, world, i);
      assert defs[i..][1..] == defs[i + 1..];
      if all[i].symtab.GetString(KEY_ID) == id {
        return all[i], i;
      }
    }
    return null, 0;
  }

  lemma DepsOnGrows(nodes: seq<Def>, d: Def)
    ensures DepsOn(nodes + [d]) == DepsOn(nodes) + [Dep(IdOf(d.tab), HandlerChild)]
  {
  }

  // kbnode_filter_handlers for one signal
  method FilterHandlers(all: seq<Node>, sig: string, ghost defs: seq<Def>, ghost world: set<object>)
    returns (ids: seq<Dep>)
    requires Reflects(all, defs, world)
    ensures ids == DepsOn(HandlersOf(defs, sig))
  {
    hide Reflects, SymTab.View, SymTab.Valid, Within;
    SameLength(all, defs, world);
    ids := [];
    ghost var found: seq<Def> := [];
    assert defs[0..] == defs;
    for i := 0 to |all|
      invariant ids == DepsOn(found) && found + HandlersOf(defs[i..], sig) == HandlersOf(defs, sig)
    {
      ReflectsAt(all, defs, world, i);
      assert defs[i..][1..] == defs[i + 1..];
      if sig in all[i].symtab.GetStrings(KEY_HANDLES) {
        ids := ids + [Dep(all[i].symtab.GetString(KEY_ID), HandlerChild)];
        DepsOnGrows(found, defs[i]);
        found := found + [defs[i]];
      }
    }
    assert found + [] == found;
  }

  // node_find_dependent_jobs. The result has room for every job and every handler.
  method FindDependentJobs(src: Node, all: seq<Node>, ghost defs: seq<Def>, ghost world: set<object>)
    returns (deps: Option<seq<Dep>>)
    requires Reflects(all, defs, world)
    ensures deps == Deps(defs, src.symtab.View())
  {
    if !src.symtab.KnowsSource() {
      return None;
    }
    var jobs := src.symtab.GetStrings(KEY_JOBS);
    var ret: seq<Dep> := [];
    for i := 0 to |jobs|
      invariant ret == JobDeps(jobs[..i])
    {
      ret := ret + [Dep(jobs[i], JobChild)];
    }
    assert jobs[..|jobs|] == jobs;
    var handlers := FindHandlers(src.symtab.GetStrings(KEY_EMITS), all, defs, world);
    if handlers == None {
      return None;
    }
    return Some(ret + handlers.value);
  }

  // Each emitted signal needs a handler; the handlers are collected signal by signal.
  method FindHandlers(signals: seq<string>, all: seq<Node>, ghost defs: seq<Def>, ghost world: set<object>)
    returns (handlers: Option<seq<Dep>>)
    requires Reflects(all, defs, world)
    ensures handlers == SignalDeps(defs, signals)
  {
    hide Reflects, HandlersOf;
    var ret: seq<Dep> := [];
    assert signals[0..] == signals;
    ghost var total := SignalDeps(defs, signals);
    for i := 0 to |signals|
      invariant var rest := SignalDeps(defs, signals[i..]);
                total.Some? == rest.Some? && (total.Some? ==> total.value == ret + rest.value)
    {
      assert signals[i..][1..] == signals[i + 1..];
      var found := FilterHandlers(all, signals[i], defs, world);
      if |found| == 0 {
        return None;
      }
      ret := ret + found;
    }
    assert ret + [] == ret;
    return Some(ret);
  }

  // ---------- Ancestors ----------

  // chain is the path of nodes from a root down to node (none, if node is null), ids are their
  // IDs, and their tables are among the objects of world.
  ghost predicate IsChain(node: Node?, chain: seq<Node>, ids: seq<string>, world: set<object>)
    reads chain`parent, world
    decreases |chain|
  {
    && |chain| == |ids|
    && if chain == [] then node == null
       else
         var n := |chain| - 1;
         && node == chain[n] && Within(node.symtab, world) && IdOf(node.symtab.View()) == ids[n]
         && IsChain(node.parent, chain[..n], ids[..n], world)
  }

  lemma {:induction false} ChainInLargerWorld(node: Node?, chain: seq<Node>, ids: seq<string>, world: set<object>,
    world': set<object>)
    requires IsChain(node, chain, ids, world) && world <= world'
    ensures IsChain(node, chain, ids, world')
    decreases |chain|
  {
    if chain != [] {
      var n := |chain| - 1;
      ChainInLargerWorld(node.parent, chain[..n], ids[..n], world, world');
    }
  }

  lemma LongerChain(
    node: Node, table: map<string, array<string>>, tab: Table, chain: seq<Node>, ids: seq<string>, world: set<object>,
    mem: set<object>)
    requires IsChain(node.parent, chain, ids, world) && Holds(node.symtab, table, tab)
             && mem == Memory(node.symtab, table)
    ensures IsChain(node, chain + [node], ids + [IdOf(tab)], world + mem)
  {
    var world' := world + mem;
    ChainInLargerWorld(node.parent, chain, ids, world, world');
    assert (chain + [node])[..|chain|] == chain && (ids + [IdOf(tab)])[..|ids|] == ids;
    assert node.symtab.View() == tab;
  }

  // node_findparent: the recursion up the parents.
  method NodeFindParent(node: Node?, id: string, ghost chain: seq<Node>, ghost ids: seq<string>,
    ghost world: set<object>)
    returns (found: Node?)
    requires IsChain(node, chain, ids, world)
    ensures found == null <==> id !in ids
    ensures found != null ==>
              exists i :: 0 <= i < |chain| == |ids| && chain[i] == found && ids[i] == id && id !in ids[i + 1..]
    decreases |chain|
  {
    if node == null {
      return null;
    }
    var nodeId := node.symtab.GetString(KEY_ID);
    ghost var n := |chain| - 1;
    assert ids == ids[..n] + [nodeId];
    if nodeId == id {
      assert chain[n] == node && ids[n] == id && ids[n + 1..] == [];
      return node;
    }
    found := NodeFindParent(node.parent, id, chain[..n], ids[..n], world);
    if found != null {
      ghost var i :| 0 <= i < n && chain[..n][i] == found && ids[..n][i] == id && id !in ids[..n][i + 1..];
      assert ids[i + 1..] == ids[..n][i + 1..] + [nodeId];
      assert chain[i] == found && ids[i] == id;
    }
  }

  // ---------- Instantiation ----------

  // A node's place in the lists of its parent, as node_new adds it and node_del removes it.
  method Attach(node: Node, parent: Node?, ct: ChildType)
    modifies (if parent == null then {} else {parent})`jobs, (if parent == null then {} else {parent})`handlers
    ensures parent != null ==>
              parent.jobs == (if ct == JobChild then old(parent.jobs) + [node] else old(parent.jobs)) &&
              parent.handlers == (if ct == HandlerChild then old(parent.handlers) + [node] else old(parent.handlers))
  {
    if parent != null {
      match ct {
        case JobChild => parent.jobs := parent.jobs + [node];
        case HandlerChild => parent.handlers := parent.handlers + [node];
      }
    }
  }

  function WithoutFirst(nodes: seq<Node>, node: Node): seq<Node> {
    if nodes == [] then []
    else if nodes[0] == node then nodes[1..]
    else [nodes[0]] + WithoutFirst(nodes[1..], node)
  }

  lemma {:induction false} WithoutLast(nodes: seq<Node>, node: Node)
    requires node !in nodes
    ensures WithoutFirst(nodes + [node], node) == nodes && WithoutFirst(nodes, node) == nodes
  {
    if nodes != [] {
      assert (nodes + [node])[1..] == nodes[1..] + [node];
      WithoutLast(nodes[1..], node);
    }
  }

  lemma WithoutSkipped(nodes: seq<Node>, node: Node, i: nat)
    requires i <= |nodes|
    ensures nodes[..0] + WithoutFirst(nodes[0..], node) == WithoutFirst(nodes, node)
    ensures nodes[..i] + WithoutFirst(nodes[i..], node) ==
            if i == |nodes| then nodes
            else if nodes[i] == node then nodes[..i] + nodes[i + 1..]
            else nodes[..i + 1] + WithoutFirst(nodes[i + 1..], node)
  {
  }

  // find_node
  method FindNode(nodes: seq<Node>, node: Node) returns (i: nat)
    ensures i <= |nodes|
    ensures i < |nodes| ==> nodes[i] == node && WithoutFirst(nodes, node) == nodes[..i] + nodes[i + 1..]
    ensures i == |nodes| ==> WithoutFirst(nodes, node) == nodes
  {
    hide WithoutFirst;
    i := 0;
    WithoutSkipped(nodes, node, 0);
    while i < |nodes| && nodes[i] != node
      invariant i <= |nodes|
      invariant WithoutFirst(nodes, node) == nodes[..i] + WithoutFirst(nodes[i..], node)
    {
      WithoutSkipped(nodes, node, i);
      i := i + 1;
    }
    WithoutSkipped(nodes, node, i);
  }

  method Detach(node: Node)
    modifies (if node.parent == null then {} else {node.parent})`jobs,
      (if node.parent == null then {} else {node.parent})`handlers
    ensures node.parent != null ==>
              node.parent.jobs == WithoutFirst(old(node.parent.jobs), node) &&
              node.parent.handlers == WithoutFirst(old(node.parent.handlers), node)
  {
    if node.parent != null {
      var p := node.parent;
      var i := FindNode(p.jobs, node);
      if i < |p.jobs| {
        p.jobs := p.jobs[..i] + p.jobs[i + 1..];
      }
      i := FindNode(p.handlers, node);
      if i < |p.handlers| {
        p.handlers := p.handlers[..i] + p.handlers[i + 1..];
      }
    }
  }

  // A tree under parent that stands for t and lives in foot.
  ghost predicate Built(s: Shape, parent: Node?, t: Tree, foot: set<object>)
    reads foot
  {
    Footprint(s) <= foot && Represents(s, parent, t)
  }

  // The children that node has so far, in separate parts of used.
  ghost predicate Kids(node: Node?, nodes: seq<Node>, kids: seq<Shape>, ts: seq<Tree>, used: set<object>)
    reads used
    decreases |kids|
  {
    && |kids| == |ts| == |nodes|
    && (kids != [] ==>
          var n := |kids| - 1;
          && nodes[n] == kids[n].node && Built(kids[n], node, ts[n], used)
          && Kids(node, nodes[..n], kids[..n], ts[..n], used - Footprint(kids[n])))
  }

  lemma KidsGrow(node: Node?, nodes: seq<Node>, kids: seq<Shape>, ts: seq<Tree>, used: set<object>, kid: Shape, t: Tree)
    requires Kids(node, nodes, kids, ts, used) && Represents(kid, node, t) && Footprint(kid) !! used
    ensures Kids(node, nodes + [kid.node], kids + [kid], ts + [t], used + Footprint(kid))
  {
  }

  lemma {:induction false} KidsAreForest(node: Node?, nodes: seq<Node>, kids: seq<Shape>, ts: seq<Tree>,
    used: set<object>)
    requires Kids(node, nodes, kids, ts, used)
    ensures FootprintOf(kids) <= used && Forest(node, nodes, kids, ts)
    decreases |kids|
  {
    hide Footprint, Represents;
    if kids != [] {
      var n := |kids| - 1;
      KidsAreForest(node, nodes[..n], kids[..n], ts[..n], used - Footprint(kids[n]));
      forall i | 0 <= i < n
        ensures Footprint(kids[i]) <= used - Footprint(kids[n]) && nodes[i] == kids[i].node
                && Represents(kids[i], node, ts[i])
      {
        assert kids[..n][i] == kids[i] && nodes[..n][i] == nodes[i] && ts[..n][i] == ts[i];
      }
      forall i, j | 0 <= i < n && 0 <= j < n && i != j ensures Footprint(kids[i]) !! Footprint(kids[j]) {
        assert kids[..n][i] == kids[i] && kids[..n][j] == kids[j];
      }
    }
  }

  lemma Assemble(s: Shape, t: Tree, parent: Node?, usedJobs: set<object>, usedHandlers: set<object>)
    requires Kids(s.node, s.node.jobs, s.jobs, t.jobs, usedJobs)
    requires Kids(s.node, s.node.handlers, s.handlers, t.handlers, usedHandlers)
    requires usedJobs !! usedHandlers && Own(s) !! usedJobs && Own(s) !! usedHandlers
    requires s.node.parent == parent && s.node.kind == t.kind && s.node.instantiated == t.instantiated
    requires Holds(s.node.symtab, s.table, t.tab)
    ensures Built(s, parent, t, Own(s) + usedJobs + usedHandlers)
  {
    hide Forest, Kids, Holds, FootprintOf, Own;
    KidsAreForest(s.node, s.node.jobs, s.jobs, t.jobs, usedJobs);
    KidsAreForest(s.node, s.node.handlers, s.handlers, t.handlers, usedHandlers);
  }

  // The children of node so far: their objects, what they stand for, and the memory they use.
  datatype Growth = Growth(
    jobs: seq<Shape>, handlers: seq<Shape>, tj: seq<Tree>, th: seq<Tree>, usedJobs: set<object>,
    usedHandlers: set<object>)

  ghost predicate Grown(node: Node, jobs: seq<Node>, handlers: seq<Node>, g: Growth)
    reads g.usedJobs, g.usedHandlers
  {
    && g.usedJobs !! g.usedHandlers
    && Kids(node, jobs, g.jobs, g.tj, g.usedJobs) && Kids(node, handlers, g.handlers, g.th, g.usedHandlers)
  }

  // At most rank calls are nested below the call for src.
  ghost predicate Enough(defs: seq<Def>, src: Def, anc: seq<string>, rank: nat)
    decreases rank
  {
    forall ref :: ref in defs && IdOf(ref.tab) !in anc ==>
      rank > 0 && Enough(defs, ref, anc + [IdOf(src.tab)], rank - 1)
  }

  ghost function Rank(defs: seq<Def>, src: Def, anc: seq<string>): nat {
    2 * |Unused(defs, src, anc)| + if IdOf(src.tab) in anc then 1 else 0
  }

  lemma {:induction false} RankIsEnough(defs: seq<Def>, src: Def, anc: seq<string>, rank: nat)
    requires Rank(defs, src, anc) <= rank
    ensures Enough(defs, src, anc, rank)
    decreases rank
  {
    hide Unused, IdOf;
    forall ref | ref in defs && IdOf(ref.tab) !in anc
      ensures rank > 0 && Enough(defs, ref, anc + [IdOf(src.tab)], rank - 1)
    {
      UnusedShrinks(defs, src, anc, ref);
      RankIsEnough(defs, ref, anc + [IdOf(src.tab)], rank - 1);
    }
  }

  // What one round of the loop over the dependencies does.
  datatype Round = Round(ok: bool, tree: Option<Tree>, errors: nat)

  ghost function RoundOf(defs: seq<Def>, def: Def, anc: seq<string>, dep: Dep): Round {
    match FindById(defs, dep.id)
    case None => Round(true, None, 1)
    case Some(ref) =>
      if dep.id in anc then Round(false, None, 1)
      else
        var a := Instantiate(defs, ref, anc + [IdOf(def.tab)]);
        if a.tree == None then Round(false, None, a.log.errors + 1) else Round(true, a.tree, a.log.errors)
  }

  function With(ts: seq<Tree>, ct: ChildType, r: Round, want: ChildType): seq<Tree> {
    if r.tree.Some? && ct == want then ts + [r.tree.value] else ts
  }

  // What remains of the loop adds to the children and errors so far.
  ghost predicate Continues(c: Children, jobs: seq<Tree>, handlers: seq<Tree>, errors: nat, rest: Children) {
    && c.ok == rest.ok && c.log.errors == errors + rest.log.errors
    && (c.ok ==> c.jobs == jobs + rest.jobs && c.handlers == handlers + rest.handlers)
  }

  lemma RoundContinues(
    defs: seq<Def>, def: Def, anc: seq<string>, deps: seq<Dep>, c: Children, jobs: seq<Tree>, handlers: seq<Tree>,
    errors: nat)
    requires deps != [] && Continues(c, jobs, handlers, errors, InstantiateAll(defs, def, anc, deps))
    ensures var r := RoundOf(defs, def, anc, deps[0]);
            if !r.ok then !c.ok && c.log.errors == errors + r.errors
            else Continues(c, With(jobs, deps[0].ct, r, JobChild), With(handlers, deps[0].ct, r, HandlerChild),
                           errors + r.errors, InstantiateAll(defs, def, anc, deps[1..]))
  {
    hide Instantiate, FindById, IdOf, Deps, Unused;
    var r, rest := RoundOf(defs, def, anc, deps[0]), InstantiateAll(defs, def, anc, deps[1..]);
    if r.tree.Some? {
      var t := r.tree.value;
      LoopStep(defs, def, anc, deps);
      assert jobs + ([t] + rest.jobs) == (jobs + [t]) + rest.jobs;
      assert handlers + ([t] + rest.handlers) == (handlers + [t]) + rest.handlers;
    }
  }

  function WithNode(nodes: seq<Node>, ct: ChildType, r: Round, node: Node, want: ChildType): seq<Node> {
    if r.tree.Some? && ct == want then nodes + [node] else nodes
  }

  ghost function FieldOf(node: Node?): set<Node> {
    if node == null then {} else {node}
  }

  // One round: look the dependency up, refuse it if it is an ancestor of node's parent, or else
  // instantiate it under node.
  method InstantiateOne(
    node: Node, dep: Dep, all: seq<Node>, ghost defs: seq<Def>, ghost world: set<object>,
    ghost def: Def, ghost chain: seq<Node>, ghost anc: seq<string>, ghost above: set<object>, ghost rank: nat,
    ghost r: Round)
    returns (ok: bool, errors: nat, ghost kid: Shape, ghost foot: set<object>)
    requires r == RoundOf(defs, def, anc, dep)
    requires Reflects(all, defs, world) && Enough(defs, def, anc, rank)
    requires IsChain(node, chain + [node], anc + [IdOf(def.tab)], above) && node !in world && node !in above
    modifies node`jobs, node`handlers
    ensures ok == r.ok && errors == r.errors && fresh(foot)
    ensures r.tree.Some? ==> Built(kid, node, r.tree.value, foot)
    ensures node.jobs == WithNode(old(node.jobs), dep.ct, r, kid.node, JobChild)
    ensures node.handlers == WithNode(old(node.handlers), dep.ct, r, kid.node, HandlerChild)
    decreases rank, 0, 0
  {
    hide Instantiate, InstantiateAll, Deps, Reflects, Built, Kids, Footprint, FindById, SymTab.View, Within, IdOf;
    kid, foot := Shape(node, map[], [], []), {};
    var ref; ghost var index;
    ref, index := NodeFindById(all, dep.id, defs, world);
    if ref == null {
      return true, 1, kid, {};
    }
    assert (chain + [node])[..|chain|] == chain && (anc + [IdOf(def.tab)])[..|anc|] == anc;
    var ancestor := NodeFindParent(node.parent, dep.id, chain, anc, above);
    if ancestor != null {
      return false, 1, kid, {};
    }
    assert defs[index] in defs && IdOf(defs[index].tab) == dep.id;
    ghost var a := Instantiate(defs, defs[index], anc + [IdOf(def.tab)]);
    var child, e; ghost var s;
    child, e, s, foot := NodeInstantiate(
      ref, node, dep.ct, all, defs, world, index, chain + [node], anc + [IdOf(def.tab)], above, rank - 1, a);
    if child == null {
      return false, e + 1, kid, {};
    }
    return true, e, s, foot;
  }

  // A new node with a copy of the symbols of src, in the lists of its parent.
  method NewNode(src: Node, parent: Node?, ct: ChildType, ghost tab: Table)
    returns (node: Node, ghost table: map<string, array<string>>, ghost mem: set<object>)
    requires src.symtab.Valid() && src.symtab.View() == tab && tab != map[]
    modifies FieldOf(parent)`jobs, FieldOf(parent)`handlers
    ensures fresh(node) && fresh(mem) && mem == Memory(node.symtab, table) && node !in mem
            && Holds(node.symtab, table, tab)
    ensures node.kind == src.kind && node.parent == parent && node.jobs == node.handlers == [] && !node.instantiated
    ensures parent != null ==> Listed(node, parent, ct, old(parent.jobs), old(parent.handlers))
  {
    hide Memory, Holds, SymTab.View, SymTab.Valid;
    var symtab;
    symtab, table, mem := CopySymbols(src.symtab, tab);
    node := new Node(src.kind, symtab, parent);
    Attach(node, parent, ct);
  }

  method CopySymbols(st: SymTab, ghost tab: Table)
    returns (symtab: SymTab, ghost table: map<string, array<string>>, ghost mem: set<object>)
    requires st.Valid() && st.View() == tab && tab != map[]
    ensures fresh(mem) && mem == Memory(symtab, table) && Holds(symtab, table, tab)
  {
    hide Memory, Holds, SymTab.View, SymTab.Valid;
    symtab := st.Copy();
    table := symtab.table;
    assert forall k :: k in table ==> table[k] in symtab.table.Values;
    ViewHolds(symtab);
    MemoryIs(symtab, table);
    mem := Memory(symtab, table);
  }

  lemma MemoryIs(st: SymTab, table: map<string, array<string>>)
    ensures forall o :: o in Memory(st, table) ==> o == st || exists k :: k in table && o == table[k]
  {
  }

  lemma ViewHolds(st: SymTab)
    requires st.Valid()
    ensures Holds(st, st.table, st.View())
  {
  }

  // The lists of parent are jobs and handlers with node added to one of them.
  ghost predicate Listed(node: Node, parent: Node, ct: ChildType, jobs: seq<Node>, handlers: seq<Node>)
    reads parent`jobs, parent`handlers
  {
    && parent.jobs == (if ct == JobChild then jobs + [node] else jobs)
    && parent.handlers == (if ct == HandlerChild then handlers + [node] else handlers)
  }

  // node_del, as far as the parent sees it.
  method GiveUp(node: Node, parent: Node?, ct: ChildType, ghost jobs: seq<Node>, ghost handlers: seq<Node>)
    requires node.parent == parent && node !in jobs && node !in handlers
    requires parent != null ==> Listed(node, parent, ct, jobs, handlers)
    modifies FieldOf(parent)`jobs, FieldOf(parent)`handlers
    ensures parent != null ==> parent.jobs == jobs && parent.handlers == handlers
  {
    WithoutLast(jobs, node);
    WithoutLast(handlers, node);
    Detach(node);
  }

  ghost function Grow(g: Growth, ct: ChildType, r: Round, kid: Shape): Growth {
    if r.tree == None then g
    else if ct == JobChild then
      g.(jobs := g.jobs + [kid], tj := g.tj + [r.tree.value], usedJobs := g.usedJobs + Footprint(kid))
    else
      g.(handlers := g.handlers + [kid], th := g.th + [r.tree.value], usedHandlers := g.usedHandlers + Footprint(kid))
  }

  lemma GrownMore(node: Node, jobs: seq<Node>, handlers: seq<Node>, g: Growth, ct: ChildType, r: Round, kid: Shape,
    foot: set<object>)
    requires Grown(node, jobs, handlers, g) && foot !! g.usedJobs && foot !! g.usedHandlers
    requires r.tree.Some? ==> Built(kid, node, r.tree.value, foot)
    ensures Grown(node, WithNode(jobs, ct, r, kid.node, JobChild), WithNode(handlers, ct, r, kid.node, HandlerChild),
            Grow(g, ct, r, kid))
    ensures var g' := Grow(g, ct, r, kid);
            && g'.tj == With(g.tj, ct, r, JobChild) && g'.th == With(g.th, ct, r, HandlerChild)
            && g'.usedJobs + g'.usedHandlers <= g.usedJobs + g.usedHandlers + foot
  {
    if r.tree.Some? {
      match ct {
        case JobChild => KidsGrow(node, jobs, g.jobs, g.tj, g.usedJobs, kid, r.tree.value);
        case HandlerChild => KidsGrow(node, handlers, g.handlers, g.th, g.usedHandlers, kid, r.tree.value);
      }
    }
  }

  lemma AssembleGrown(node: Node, table: map<string, array<string>>, mem: set<object>, def: Def, g: Growth)
    requires Grown(node, node.jobs, node.handlers, g) && Holds(node.symtab, table, def.tab)
    requires node.kind == def.kind && node.instantiated && mem == Memory(node.symtab, table)
    requires {node} + mem !! g.usedJobs + g.usedHandlers
    ensures var s := Shape(node, table, g.jobs, g.handlers);
            Built(s, node.parent, Tree(def.kind, def.tab, g.tj, g.th, true), {node} + mem + g.usedJobs + g.usedHandlers)
  {
    var s := Shape(node, table, g.jobs, g.handlers);
    Assemble(s, Tree(def.kind, def.tab, g.tj, g.th, true), node.parent, g.usedJobs, g.usedHandlers);
  }

  lemma AssembleBare(node: Node, table: map<string, array<string>>, mem: set<object>, def: Def)
    requires Holds(node.symtab, table, def.tab) && mem == Memory(node.symtab, table)
    requires node.kind == def.kind && !node.instantiated && node.jobs == node.handlers == []
    ensures Built(Shape(node, table, [], []), node.parent, Tree(def.kind, def.tab, [], [], false), {node} + mem)
  {
  }

  // The loop over the dependencies.
  method InstantiateChildren(
    node: Node, deps: seq<Dep>, all: seq<Node>, ghost defs: seq<Def>, ghost world: set<object>, ghost def: Def,
    ghost chain: seq<Node>, ghost anc: seq<string>, ghost above: set<object>, ghost rank: nat, ghost c: Children)
    returns (ok: bool, errors: nat, ghost g: Growth)
    requires c == InstantiateAll(defs, def, anc, deps)
    requires Reflects(all, defs, world) && Enough(defs, def, anc, rank)
    requires IsChain(node, chain + [node], anc + [IdOf(def.tab)], above) && node !in world && node !in above
    requires node.jobs == node.handlers == []
    modifies node`jobs, node`handlers
    ensures ok == c.ok && errors == c.log.errors && fresh(g.usedJobs + g.usedHandlers)
    ensures ok ==> Grown(node, node.jobs, node.handlers, g) && g.tj == c.jobs && g.th == c.handlers
    decreases rank, 0, 1
  {
    hide Instantiate, Deps, IsChain, Reflects, Represents, Footprint, Enough, FindById, IdOf, Own, RoundOf;
    errors, g := 0, Growth([], [], [], [], {}, {});
    assert deps[0..] == deps;
    for i := 0 to |deps|
      invariant fresh(g.usedJobs + g.usedHandlers) && Grown(node, node.jobs, node.handlers, g)
      invariant Reflects(all, defs, world) && IsChain(node, chain + [node], anc + [IdOf(def.tab)], above)
      invariant Continues(c, g.tj, g.th, errors, InstantiateAll(defs, def, anc, deps[i..]))
    {
      assert deps[i..][1..] == deps[i + 1..] && deps[i..][0] == deps[i];
      RoundContinues(defs, def, anc, deps[i..], c, g.tj, g.th, errors);
      ghost var jobs, handlers, r := node.jobs, node.handlers, RoundOf(defs, def, anc, deps[i]);
      var e; ghost var kid, foot;
      ok, e, kid, foot := InstantiateOne(node, deps[i], all, defs, world, def, chain, anc, above, rank, r);
      errors := errors + e;
      if !ok {
        return false, errors, Growth([], [], [], [], {}, {});
      }
      GrownMore(node, jobs, handlers, g, deps[i].ct, r, kid, foot);
      g := Grow(g, deps[i].ct, r, kid);
    }
    ok := true;
  }

  // What node_instantiate returns, given what the loop over the dependencies returns.
  ghost predicate Results(a: Attempt, def: Def, c: Children) {
    && a.log.errors == c.log.errors
    && a.tree == if c.ok then Some(Tree(def.kind, def.tab, c.jobs, c.handlers, true)) else None
  }

  lemma ResultOf(defs: seq<Def>, def: Def, anc: seq<string>)
    ensures var a := Instantiate(defs, def, anc);
            match Deps(defs, def.tab)
            case None => a.log.errors == 1 && a.tree == Some(Tree(def.kind, def.tab, [], [], false))
            case Some(deps) => Results(a, def, InstantiateAll(defs, def, anc, deps))
  {
  }

  // The children of a new node.
  method Populate(
    node: Node, deps: Option<seq<Dep>>, all: seq<Node>, ghost defs: seq<Def>, ghost world: set<object>, ghost def: Def,
    ghost table: map<string, array<string>>, ghost mem: set<object>, ghost chain: seq<Node>, ghost anc: seq<string>,
    ghost above: set<object>, ghost rank: nat, ghost a: Attempt, ghost c: Children)
    returns (ok: bool, errors: nat, ghost shape: Shape, ghost used: set<object>)
    requires Reflects(all, defs, world) && Enough(defs, def, anc, rank) && node !in world && node !in above
             && node !in mem
    requires match deps
             case None => a.log.errors == 1 && a.tree == Some(Tree(def.kind, def.tab, [], [], false))
             case Some(list) => Results(a, def, c) && c == InstantiateAll(defs, def, anc, list)
    requires IsChain(node.parent, chain, anc, above)
    requires Holds(node.symtab, table, def.tab) && mem == Memory(node.symtab, table)
    requires node.kind == def.kind && node.jobs == node.handlers == [] && !node.instantiated
    modifies node`jobs, node`handlers, node`instantiated
    ensures ok == a.tree.Some? && errors == a.log.errors && fresh(used) && shape.node == node
    ensures ok ==> Built(shape, node.parent, a.tree.value, {node} + mem + used)
    decreases rank, 0, 2
  {
    hide Instantiate, InstantiateAll, Deps, IsChain, Reflects, Represents, Kids, Footprint, Enough, FindById, IdOf, Own,
      OwnArrays;
    if deps == None {
      AssembleBare(node, table, mem, def);
      assert {node} + mem + {} == {node} + mem;
      return true, 1, Shape(node, table, [], []), {};
    }
    LongerChain(node, table, def.tab, chain, anc, above, mem);
    ghost var g;
    ok, errors, g := InstantiateChildren(node, deps.value, all, defs, world, def, chain, anc, above + mem, rank, c);
    node.instantiated := true;
    shape, used := Shape(node, table, g.jobs, g.handlers), g.usedJobs + g.usedHandlers;
    if ok {
      AssembleGrown(node, table, mem, def, g);
      assert {node} + mem + g.usedJobs + g.usedHandlers == {node} + mem + used;
    }
  }

  method NodeInstantiate(
    src: Node, parent: Node?, ct: ChildType, all: seq<Node>, ghost defs: seq<Def>, ghost world: set<object>,
    ghost index: nat,
    ghost chain: seq<Node>, ghost anc: seq<string>, ghost above: set<object>, ghost rank: nat, ghost a: Attempt)
    returns (ret: Node?, errors: nat, ghost shape: Shape, ghost foot: set<object>)
    requires Reflects(all, defs, world) && index < |all| == |defs| && all[index] == src
             && Enough(defs, defs[index], anc, rank)
    requires a == Instantiate(defs, defs[index], anc)
    requires IsChain(parent, chain, anc, above) && parent !in world && parent !in above
    modifies FieldOf(parent)`jobs, FieldOf(parent)`handlers
    ensures errors == a.log.errors && fresh(foot) && (ret == null <==> a.tree == None)
    ensures ret != null ==> shape.node == ret && Built(shape, parent, a.tree.value, foot)
    ensures parent != null && ret != null ==> Listed(ret, parent, ct, old(parent.jobs), old(parent.handlers))
    ensures parent != null && ret == null ==> parent.jobs == old(parent.jobs) && parent.handlers == old(parent.handlers)
    decreases rank, 1
  {
    hide Instantiate, InstantiateAll, Deps, IsChain, Reflects, Built, Kids, Footprint, Enough, Holds, Memory, Results,
      SymTab.View, SymTab.Valid, Within;
    ghost var def := defs[index];
    ReflectsAt(all, defs, world, index);
    ResultOf(defs, def, anc);
    ghost var jobs, handlers := [], [];
    if parent != null {
      jobs, handlers := parent.jobs, parent.handlers;
    }
    var node; ghost var table, mem;
    node, table, mem := NewNode(src, parent, ct, def.tab);
    var deps := FindDependentJobs(src, all, defs, world);
    ghost var c := InstantiateAll(defs, def, anc, if deps == None then [] else deps.value);
    var ok; ghost var used;
    ok, errors, shape, used := Populate(node, deps, all, defs, world, def, table, mem, chain, anc, above, rank, a, c);
    if !ok {
      GiveUp(node, parent, ct, jobs, handlers);
      return null, errors, shape, {};
    }
    return node, errors, shape, {node} + mem + used;
  }
}
