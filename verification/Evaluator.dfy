/** Evaluation in place (`kbtree_eval`, `resolve`, `kbnode_resolve`): the tree of objects that
    stood for a tree of values stands for its evaluation afterwards, and nothing else changes. */
module Evaluator {
  import opened Wrappers
  import opened Tables
  import opened Text
  import opened Expansion
  import opened SymbolTable
  import opened Nodes
  import opened Substitution
  import opened Evaluation

  // ---------- Looking symbols up ----------

  // chain is the path of nodes from node (none, if it is null) up to its root, and scope their
  // tables, which are among the objects of world.
  ghost predicate ScopeOf(node: Node?, chain: seq<Node>, scope: Scope, world: set<object>)
    reads chain`parent, world
    decreases |chain|
  {
    && |chain| == |scope|
    && if chain == [] then node == null
       else
         && node == chain[0] && Within(node.symtab, world) && node.symtab.View() == scope[0]
         && ScopeOf(node.parent, chain[1..], scope[1..], world)
  }

  lemma {:induction false} ScopeInLargerWorld(node: Node?, chain: seq<Node>, scope: Scope, world: set<object>,
    world': set<object>)
    requires ScopeOf(node, chain, scope, world) && world <= world'
    ensures ScopeOf(node, chain, scope, world')
    decreases |chain|
  {
    if chain != [] {
      ScopeInLargerWorld(node.parent, chain[1..], scope[1..], world, world');
    }
  }

  lemma ScopeGrows(node: Node, table: map<string, array<string>>, tab: Table, chain: seq<Node>, above: Scope,
    world: set<object>)
    requires ScopeOf(node.parent, chain, above, world) && Holds(node.symtab, table, tab)
    ensures ScopeOf(node, [node] + chain, [tab] + above, world + Memory(node.symtab, table))
  {
    ScopeInLargerWorld(node.parent, chain, above, world, world + Memory(node.symtab, table));
    assert ([node] + chain)[1..] == chain && ([tab] + above)[1..] == above;
    assert node.symtab.View() == tab;
  }

  // kbnode_resolve: the node's own table, or else its parent's, and so on.
  method Resolve(node: Node?, symbol: string, ghost chain: seq<Node>, ghost scope: Scope, ghost world: set<object>)
    returns (values: Option<seq<string>>)
    requires ScopeOf(node, chain, scope, world)
    ensures values == Lookup(scope, symbol)
    ensures forall i :: 0 <= i < |scope| && symbol in scope[i] && (forall j :: 0 <= j < i ==> symbol !in scope[j]) ==>
              values == Some(scope[i][symbol])
    ensures values == None <==> forall i :: 0 <= i < |scope| ==> symbol !in scope[i]
    decreases |chain|
  {
    LookupIsNearest(scope, symbol, 0);
    forall i | 0 <= i < |scope| && symbol in scope[i] && forall j :: 0 <= j < i ==> symbol !in scope[j]
      ensures Lookup(scope, symbol) == Some(scope[i][symbol])
    {
      LookupIsNearest(scope, symbol, i);
    }
    if node == null {
      return None;
    }
    if symbol in node.symtab.table {
      return Some(node.symtab.table[symbol][..]);
    }
    values := Resolve(node.parent, symbol, chain[1..], scope[1..], world);
  }

  // find_next_ref: the name between "$<" and the next '>', copied character by character.
  method FindNextRef(src: string) returns (ref: RefSearch)
    ensures ref == NextRef(src)
  {
    var start := FindOpen(src);
    if start == |src| {
      return NoRef;
    }
    var tail := src[start + 2..];
    var end := FindChar(tail, '>');
    if end == |tail| {
      return Unterminated;
    }
    var name := "";
    for i := 0 to end
      invariant name == tail[..i]
    {
      name := name + [tail[i]];
    }
    return Found(name);
  }

  // One pass of the rewrite loop.
  method EvalPass(node: Node, value: string, ghost chain: seq<Node>, ghost scope: Scope, ghost world: set<object>)
    returns (p: Progress)
    requires ScopeOf(node, chain, scope, world) && Step(scope, value) != Done(Unsettled)
    ensures p == Step(scope, value)
  {
    hide NextRef, StrSubst, Format, ScopeOf, Lookup;
    var ref := FindNextRef(value);
    match ref {
      case NoRef => return Done(Outcome.Text(value));
      case Unterminated => return Done(Failed);
      case Found(name) =>
        var values := Resolve(node, name, chain, scope, world);
        if values == None {
          return Done(Failed);
        }
        var resolved := FormatArray(values.value);
        return Next(StrSubst(value, RefText(name), resolved));
    }
  }

  // The rewrite loop for one value, when it ends after at most n passes.
  method EvalValue(
    node: Node, value: string, ghost chain: seq<Node>, ghost scope: Scope, ghost world: set<object>, ghost n: nat)
    returns (r: Outcome)
    requires ScopeOf(node, chain, scope, world) && Iterate(scope, value, n) != Unsettled
    ensures r == Iterate(scope, value, n)
  {
    hide Step, ScopeOf;
    var newvalue := value;
    ghost var left := n;
    while true
      invariant Iterate(scope, newvalue, left) == Iterate(scope, value, n)
      decreases left
    {
      var p := EvalPass(node, newvalue, chain, scope, world);
      match p {
        case Done(result) => return result;
        case Next(s) => newvalue, left := s, left - 1;
      }
    }
  }

  // ---------- One key ----------

  lemma HoldsView(st: SymTab, table: map<string, array<string>>, tab: Table)
    requires Holds(st, table, tab)
    ensures st.Valid() && st.View() == tab && st.table == table
  {
  }

  lemma HoldsKey(st: SymTab, table: map<string, array<string>>, tab: Table, key: string)
    requires Holds(st, table, tab) && key in tab
    ensures st.table == table && key in table && table[key].Length == |tab[key]| && table[key][..] == tab[key]
  {
  }

  // kbnode_set_single on a value that exists.
  method WriteValue(node: Node, key: string, j: nat, s: string, ghost table: map<string, array<string>>,
    ghost tab: Table)
    requires Holds(node.symtab, table, tab) && key in table && key in tab && j < |tab[key]|
    modifies table[key]
    ensures Holds(node.symtab, table, tab[key := tab[key][j := s]])
  {
    HoldsView(node.symtab, table, tab);
    var ok := node.symtab.SetSingle(key, j, s);
    ViewHolds(node.symtab);
  }

  // The loop on the next value ends, if evaluation gets past the value at all.
  lemma SlotEnds(cur: Table, above: Scope, key: string, j: nat) returns (n: nat)
    requires key in cur && j < |cur[key]| && EvalSlots(cur, above, key, j).ends
    ensures var r := Result([cur] + above, cur[key][j]); r != Unsettled && Iterate([cur] + above, cur[key][j], n) == r
  {
    n :| Iterate([cur] + above, cur[key][j], n) == Result([cur] + above, cur[key][j]);
  }

  lemma SlotStep(cur: Table, above: Scope, key: string, j: nat)
    requires key in cur && j <= |cur[key]|
    ensures j == |cur[key]| ==> EvalSlots(cur, above, key, j) == Pass(cur, 0, true)
    ensures j < |cur[key]| ==>
              var r := Result([cur] + above, cur[key][j]);
              && (r == Failed ==> EvalSlots(cur, above, key, j) == Pass(cur, 1, true))
              && (r.Text? ==>
                 EvalSlots(cur, above, key, j) == EvalSlots(cur[key := cur[key][j := r.s]], above, key, j + 1))
  {
  }

  // The values of one key, one after the other, up to the first that cannot be resolved.
  method EvalKey(
    node: Node, key: string, ghost table: map<string, array<string>>, ghost was: Table, ghost above: Scope,
    ghost chain: seq<Node>, ghost world: set<object>)
    returns (errors: nat, ghost cur: Table)
    requires Holds(node.symtab, table, was) && key in table && key in was && EvalSlots(was, above, key, 0).ends
    requires ScopeOf(node.parent, chain, above, world) && table[key] !in world
    modifies table[key]
    ensures Holds(node.symtab, table, cur) && Pass(cur, errors, true) == EvalSlots(was, above, key, 0)
  {
    hide EvalSlots, Iterate, Result, ScopeOf, Holds, Memory;
    cur, errors := was, 0;
    var j := 0;
    HoldsKey(node.symtab, table, cur, key);
    while j < node.symtab.table[key].Length
      invariant node.symtab.table == table && key in cur && j <= table[key].Length == |cur[key]|
      invariant Holds(node.symtab, table, cur) && EvalSlots(cur, above, key, j) == EvalSlots(was, above, key, 0)
      invariant ScopeOf(node.parent, chain, above, world)
    {
      HoldsKey(node.symtab, table, cur, key);
      ghost var n := SlotEnds(cur, above, key, j);
      SlotStep(cur, above, key, j);
      ScopeGrows(node, table, cur, chain, above, world);
      var r := EvalValue(
        node, node.symtab.table[key][j], [node] + chain, [cur] + above, world + Memory(node.symtab, table), n);
      if r == Failed {
        return 1, cur;
      }
      WriteValue(node, key, j, r.s, table, cur);
      cur := cur[key := cur[key][j := r.s]];
      HoldsKey(node.symtab, table, cur, key);
      j := j + 1;
    }
    SlotStep(cur, above, key, j);
  }

  // ---------- One node ----------

  lemma {:induction false} OneMoreKey(tab: Table, above: Scope, keys: seq<string>, key: string)
    requires key in tab && (forall k :: k in keys ==> k in tab) && EvalKeys(tab, above, keys).ends
    ensures var p := EvalKeys(tab, above, keys);
            && p.tab.Keys == tab.Keys
            && var q := EvalSlots(p.tab, above, key, 0);
               EvalKeys(tab, above, keys + [key]) == Pass(q.tab, p.errors + q.errors, q.ends)
    decreases |keys|
  {
    hide EvalSlots;
    if keys == [] {
      assert [key][1..] == [];
      SlotsKeepKeys(tab, above, key, 0);
    } else {
      assert (keys + [key])[1..] == keys[1..] + [key];
      SlotsKeepKeys(tab, above, keys[0], 0);
      OneMoreKey(EvalSlots(tab, above, keys[0], 0).tab, above, keys[1..], key);
    }
  }

  lemma LongerOrderEnds(tab: Table, above: Scope, keys: seq<string>, key: string)
    requires KeysEnd(tab, above) && NoRepeat(keys) && (forall k :: k in keys ==> k in tab) && key in tab && key !in keys
    ensures NoRepeat(keys + [key]) && EvalKeys(tab, above, keys).ends && EvalKeys(tab, above, keys + [key]).ends
  {
  }

  // The keys of a node, in any order.
  method EvalOwn(
    node: Node, ghost table: map<string, array<string>>, ghost tab: Table, ghost above: Scope, ghost chain: seq<Node>,
    ghost world: set<object>)
    returns (errors: nat, ghost keys: seq<string>, ghost cur: Table)
    requires KeysEnd(tab, above) && Holds(node.symtab, table, tab) && ScopeOf(node.parent, chain, above, world)
    requires forall k :: k in table ==> table[k] !in world
    modifies table.Values
    ensures IsOrder(keys, tab) && Holds(node.symtab, table, cur)
            && Pass(cur, errors, true) == EvalKeys(tab, above, keys)
  {
    hide KeysEnd, EvalKeys, EvalSlots, ScopeOf, Holds;
    errors, keys, cur := 0, [], tab;
    HoldsView(node.symtab, table, cur);
    var todo := node.symtab.table.Keys;
    NoKeys(tab, above);
    while todo != {}
      invariant todo <= table.Keys == tab.Keys == cur.Keys && NoRepeat(keys)
      invariant forall k :: k in keys <==> k in tab && k !in todo
      invariant Holds(node.symtab, table, cur) && Pass(cur, errors, true) == EvalKeys(tab, above, keys)
      invariant ScopeOf(node.parent, chain, above, world)
      decreases todo
    {
      var k :| k in todo;
      LongerOrderEnds(tab, above, keys, k);
      OneMoreKey(tab, above, keys, k);
      SlotsKeepKeys(cur, above, k, 0);
      var e;
      e, cur := EvalKey(node, k, table, cur, above, chain, world);
      errors, todo, keys := errors + e, todo - {k}, keys + [k];
    }
  }

  lemma NoKeys(tab: Table, above: Scope)
    ensures EvalKeys(tab, above, []) == Pass(tab, 0, true)
  {
  }

  // ---------- Trees ----------

  ghost function Arrays(s: Shape): set<array<string>>
    decreases s
  {
    s.table.Values + ArraysIn(s.jobs) + ArraysIn(s.handlers)
  }

  ghost function ArraysIn(ss: seq<Shape>): set<array<string>>
    decreases ss
  {
    set i, a | 0 <= i < |ss| && a in Arrays(ss[i]) :: a
  }

  lemma {:induction false} ArraysAreOwned(s: Shape)
    ensures forall a :: a in Arrays(s) ==> a in Footprint(s)
    decreases s
  {
    hide Own;
    ArraysInAreOwned(s.jobs);
    ArraysInAreOwned(s.handlers);
    TableIsOwned(s);
  }

  lemma TableIsOwned(s: Shape)
    ensures forall a :: a in s.table.Values ==> a in Own(s)
    ensures Memory(s.node.symtab, s.table) <= Own(s)
  {
  }

  lemma {:induction false} ArraysInAreOwned(ss: seq<Shape>)
    ensures forall a :: a in ArraysIn(ss) ==> a in FootprintOf(ss)
    decreases ss
  {
    hide Arrays, Footprint;
    forall i | 0 <= i < |ss| ensures forall a :: a in Arrays(ss[i]) ==> a in Footprint(ss[i]) {
      ArraysAreOwned(ss[i]);
    }
  }

  // One child is evaluated; its siblings stay as they are.
  method EvalChild(
    node: Node?, nodes: seq<Node>, i: nat, ghost ss: seq<Shape>, ghost ts: seq<Tree>, ghost foot: set<object>,
    ghost chain: seq<Node>, ghost scope: Scope, ghost world: set<object>)
    returns (errors: nat, ghost t': Tree)
    requires Forest(node, nodes, ss, ts) && i < |ts| && ScopeOf(node, chain, scope, world)
    requires foot == FootprintOf(ss) && world !! foot && Ending(ts[i], scope)
    modifies Arrays(ss[i])
    ensures Forest(node, nodes, ss, ts[i := t']) && Evaluates(ts[i], scope, t', errors)
    decreases ts[i], 2
  {
    hide ScopeOf, Footprint, Represents, Arrays, Ending, Evaluates;
    ghost var mine, others := Footprint(ss[i]), FootprintOf(ss) - Footprint(ss[i]);
    ArraysAreOwned(ss[i]);
    assert forall j :: 0 <= j < |ss| && j != i ==> Footprint(ss[j]) <= others;
    errors, t' := EvalNode(nodes[i], ss[i], node, ts[i], mine, chain, scope, world);
  }

  lemma OneMoreChild(ts: seq<Tree>, above: Scope, cur: seq<Tree>, es: seq<nat>, i: nat, t': Tree, e: nat)
    requires |cur| == |ts| && i < |ts| && EvaluateAll(ts[..i], above, cur[..i], es) && Evaluates(ts[i], above, t', e)
    ensures EvaluateAll(ts[..i + 1], above, cur[i := t'][..i + 1], es + [e]) && Sum(es + [e]) == Sum(es) + e
  {
    hide Evaluates;
    var cur', es' := cur[i := t'], es + [e];
    forall j | 0 <= j < i + 1 ensures Evaluates(ts[..i + 1][j], above, cur'[..i + 1][j], es'[j]) {
      if j < i {
        assert ts[..i][j] == ts[j] && cur[..i][j] == cur[j];
      }
    }
    assert es'[..|es|] == es;
  }

  // Children are evaluated one after the other, each in the scope of the unevaluated tables above.
  method EvalChildren(
    node: Node?, nodes: seq<Node>, ghost whole: Tree, ghost ss: seq<Shape>, ghost ts: seq<Tree>,
    ghost foot: set<object>,
    ghost chain: seq<Node>, ghost scope: Scope, ghost world: set<object>)
    returns (errors: nat, ghost ts': seq<Tree>, ghost es: seq<nat>)
    requires Forest(node, nodes, ss, ts) && ScopeOf(node, chain, scope, world) && foot == FootprintOf(ss)
             && world !! foot
    requires forall i :: 0 <= i < |ts| ==> ts[i] < whole && Ending(ts[i], scope)
    modifies ArraysIn(ss)
    ensures Forest(node, nodes, ss, ts') && EvaluateAll(ts, scope, ts', es) && errors == Sum(es)
    decreases whole, 0
  {
    hide ScopeOf, Forest, FootprintOf, Arrays, Ending, Evaluates;
    errors, ts', es := 0, ts, [];
    ForestLengths(node, nodes, ss, ts);
    ArraysInAreOwned(ss);
    for i := 0 to |nodes|
      invariant |ts'| == |ts| && ts'[i..] == ts[i..] && EvaluateAll(ts[..i], scope, ts'[..i], es)
      invariant Forest(node, nodes, ss, ts') && ScopeOf(node, chain, scope, world) && errors == Sum(es)
    {
      assert ts'[i] == ts'[i..][0] == ts[i];
      assert forall a :: a in Arrays(ss[i]) ==> a in ArraysIn(ss);
      var e; ghost var t';
      e, t' := EvalChild(node, nodes, i, ss, ts', foot, chain, scope, world);
      OneMoreChild(ts, scope, ts', es, i, t', e);
      errors, ts', es := errors + e, ts'[i := t'], es + [e];
      assert ts'[i + 1..] == ts[i..][1..];
    }
    assert ts[..|ts|] == ts && ts'[..|ts|] == ts';
  }

  lemma ForestLengths(node: Node?, nodes: seq<Node>, ss: seq<Shape>, ts: seq<Tree>)
    requires Forest(node, nodes, ss, ts)
    ensures |nodes| == |ss| == |ts|
  {
  }

  // kbtree_eval
  method EvalNode(
    node: Node, ghost s: Shape, ghost parent: Node?, ghost t: Tree, ghost foot: set<object>,
    ghost chain: seq<Node>, ghost above: Scope, ghost world: set<object>)
    returns (errors: nat, ghost t': Tree)
    requires s.node == node && Represents(s, parent, t) && Ending(t, above)
    requires ScopeOf(parent, chain, above, world) && foot == Footprint(s) && world !! foot
    modifies Arrays(s)
    ensures Represents(s, parent, t') && Evaluates(t, above, t', errors)
    decreases t, 1
  {
    hide ScopeOf, Ending, KeysEnd, EvalKeys, EvaluateAll, HasSrcDef, Holds, Own, Memory, Forest, FootprintOf, ArraysIn,
      IsOrder;
    HoldsView(node.symtab, s.table, t.tab);
    if !node.symtab.KnowsSource() {
      return 1, t;
    }
    ghost var scope := [t.tab] + above;
    ghost var own, mem := Own(s), Memory(node.symtab, s.table);
    ghost var jobsFoot, handlersFoot := FootprintOf(s.jobs), FootprintOf(s.handlers);
    EndingParts(t, above);
    ArraysInAreOwned(s.jobs);
    ArraysInAreOwned(s.handlers);
    TableIsOwned(s);
    ScopeGrows(node, s.table, t.tab, chain, above, world);
    ghost var hs, js, eh, ej, keys, tab;
    errors, hs, eh := EvalChildren(
      node, node.handlers, t, s.handlers, t.handlers, handlersFoot, [node] + chain, scope, world + mem);
    var e;
    e, js, ej := EvalChildren(node, node.jobs, t, s.jobs, t.jobs, jobsFoot, [node] + chain, scope, world + mem);
    errors := errors + e;
    assert forall k :: k in s.table ==> s.table[k] in s.table.Values;
    e, keys, tab := EvalOwn(node, s.table, t.tab, above, chain, world);
    errors := errors + e;
    t' := Tree(t.kind, tab, js, hs, t.instantiated);
    IsEvaluated(t, above, t', errors, Work(keys, eh, ej));
  }

  lemma EndingParts(t: Tree, above: Scope)
    requires Ending(t, above) && HasSrcDef(t.tab)
    ensures var scope := [t.tab] + above;
            && KeysEnd(t.tab, above)
            && (forall i :: 0 <= i < |t.jobs| ==> t.jobs[i] < t && Ending(t.jobs[i], scope))
            && (forall i :: 0 <= i < |t.handlers| ==> t.handlers[i] < t && Ending(t.handlers[i], scope))
  {
  }
}
