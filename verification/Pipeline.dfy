/** From the nodes as they were read to the evaluated trees of all entry points (the main program's
    steps 6 and 7): cloning keeps the nodes and the trees apart. */
module Pipeline {
  import opened Wrappers
  import opened Tables
  import opened Expansion
  import opened SymbolTable
  import opened Nodes
  import opened Evaluation
  import opened Evaluator
  import opened Linting
  import opened Soundness

  // The trees of the entry points among rest that could be instantiated, in order.
  function TreesOf(all: seq<Def>, rest: seq<Def>): seq<Tree> {
    if rest == [] then []
    else
      var a := Instantiate(all, rest[0], []);
      (if rest[0].kind != JobType && a.tree.Some? then [a.tree.value] else []) + TreesOf(all, rest[1..])
  }

  function ErrorsOf(all: seq<Def>, rest: seq<Def>): nat {
    if rest == [] then 0
    else (if rest[0].kind != JobType then Instantiate(all, rest[0], []).log.errors else 0) + ErrorsOf(all, rest[1..])
  }

  /** Only periodic and entrypoint nodes are expanded, each to its tree unless it fails ... */
  lemma OnlyEntryPoints(all: seq<Def>, d: Def)
    ensures var a := Instantiate(all, d, []);
            var chosen := d.kind in {PeriodicType, EntrypointType};
            && TreesOf(all, [d]) == (if chosen && a.tree.Some? then [a.tree.value] else [])
            && ErrorsOf(all, [d]) == (if chosen then a.log.errors else 0)
  {
    hide Instantiate;
    assert [d][1..] == [];
  }

  /** ... in the order of the list. */
  lemma {:induction false} TreesInOrder(all: seq<Def>, a: seq<Def>, b: seq<Def>)
    ensures TreesOf(all, a + b) == TreesOf(all, a) + TreesOf(all, b)
    ensures ErrorsOf(all, a + b) == ErrorsOf(all, a) + ErrorsOf(all, b)
  {
    hide Instantiate;
    if a == [] {
      assert a + b == b;
    } else {
      assert (a + b)[1..] == a[1..] + b;
      TreesInOrder(all, a[1..], b);
    }
  }

  lemma NextTree(all: seq<Def>, i: nat)
    requires i < |all|
    ensures var a, rest := Instantiate(all, all[i], []), all[i + 1..];
            && TreesOf(all, all[i..])
               == (if all[i].kind != JobType && a.tree.Some? then [a.tree.value] else []) + TreesOf(all, rest)
            && ErrorsOf(all, all[i..]) == (if all[i].kind != JobType then a.log.errors else 0) + ErrorsOf(all, rest)
  {
  }

  // The trees built so far, in separate parts of used.
  method InstantiateEntryPoints(all: seq<Node>, ghost defs: seq<Def>, ghost world: set<object>)
    returns (trees: seq<Node>, errors: nat, ghost shapes: seq<Shape>, ghost used: set<object>)
    requires Reflects(all, defs, world)
    ensures Kids(null, trees, shapes, TreesOf(defs, defs), used) && fresh(used) && errors == ErrorsOf(defs, defs)
  {
    hide Instantiate, TreesOf, ErrorsOf, Reflects, Built, Footprint, Unused, SymTab.View, SymTab.Valid, Within;
    trees, errors, shapes, used := [], 0, [], {};
    ghost var ts: seq<Tree> := [];
    SameLength(all, defs, world);
    assert defs[0..] == defs;
    for i := 0 to |all|
      invariant Kids(null, trees, shapes, ts, used) && fresh(used)
      invariant ts + TreesOf(defs, defs[i..]) == TreesOf(defs, defs)
                && errors + ErrorsOf(defs, defs[i..]) == ErrorsOf(defs, defs)
    {
      ReflectsAt(all, defs, world, i);
      NextTree(defs, i);
      if all[i].kind != JobType {
        ghost var rank := Rank(defs, defs[i], []);
        RankIsEnough(defs, defs[i], [], rank);
        ghost var a := Instantiate(defs, defs[i], []);
        var root, e; ghost var s, foot;
        root, e, s, foot := NodeInstantiate(all[i], null, JobChild, all, defs, world, i, [], [], {}, rank, a);
        errors := errors + e;
        if root != null {
          AddRoot(trees, shapes, ts, used, s, a.tree.value, foot);
          trees, shapes, ts, used := trees + [root], shapes + [s], ts + [a.tree.value], used + Footprint(s);
        }
      }
    }
    NothingLeft(defs);
    assert ts + [] == ts;
  }

  lemma NothingLeft(all: seq<Def>)
    ensures TreesOf(all, all[|all|..]) == [] && ErrorsOf(all, all[|all|..]) == 0
  {
  }

  lemma AddRoot(trees: seq<Node>, shapes: seq<Shape>, ts: seq<Tree>, used: set<object>, s: Shape, t: Tree,
    foot: set<object>)
    requires Kids(null, trees, shapes, ts, used) && Built(s, null, t, foot) && foot !! used
    ensures Kids(null, trees + [s.node], shapes + [s], ts + [t], used + Footprint(s)) && Footprint(s) <= foot
  {
  }

  /** Every entry point is instantiated and every tree evaluated. The nodes that were read keep all
      their symbols, and the trees stand for the evaluated expansions and share no object. */
  method Prepare(all: seq<Node>, ghost defs: seq<Def>, ghost world: set<object>)
    returns (trees: seq<Node>, errors: nat, ghost shapes: seq<Shape>, ghost ts': seq<Tree>, ghost es: seq<nat>)
    requires Reflects(all, defs, world)
    requires forall t :: t in TreesOf(defs, defs) ==> Ending(t, [])
    ensures Reflects(all, defs, world)
    ensures Forest(null, trees, shapes, ts') && fresh(FootprintOf(shapes))
    ensures EvaluateAll(TreesOf(defs, defs), [], ts', es) && errors == ErrorsOf(defs, defs) + Sum(es)
  {
    hide Reflects, TreesOf, ErrorsOf, Kids, Forest, Ending, FootprintOf, EvaluateAll;
    ghost var used;
    trees, errors, shapes, used := InstantiateEntryPoints(all, defs, world);
    ghost var ts := TreesOf(defs, defs);
    KidsAreForest(null, trees, shapes, ts, used);
    ArraysInAreOwned(shapes);
    ghost var whole := Tree(EntrypointType, map[], ts, [], true);
    assert forall i :: 0 <= i < |ts| ==> whole.jobs[i] < whole;
    var e;
    e, ts', es := EvalChildren(null, trees, whole, shapes, ts, FootprintOf(shapes), [], [], {});
    errors := errors + e;
  }

  // ---------- A clean lint ----------

  lemma {:induction false} EntryPointTree(all: seq<Def>, rest: seq<Def>, d: Def) returns (i: nat)
    requires d in rest && d.kind != JobType && ErrorsOf(all, rest) == 0
    ensures i < |TreesOf(all, rest)|
    ensures Instantiate(all, d, []).log.errors == 0 && Instantiate(all, d, []).tree == Some(TreesOf(all, rest)[i])
    decreases |rest|
  {
    hide Instantiate;
    if rest[0] == d {
      i := 0;
      NoErrorsUnfold(all, d, []);
    } else {
      i := EntryPointTree(all, rest[1..], d);
      if rest[0].kind != JobType && Instantiate(all, rest[0], []).tree.Some? {
        i := i + 1;
      }
    }
  }

  /** When neither the checks nor the preparation report an error, every entry point has its tree among
      those prepared, and lint soundness speaks of that tree. */
  lemma EveryEntryPointIsLinted(defs: seq<Def>, parsers: Parsers, ts': seq<Tree>, es: seq<nat>, d: Def) returns (i: nat)
    requires NoDuplicates(defs) && forall d :: d in defs ==> Acceptable(d, parsers)
    requires EvaluateAll(TreesOf(defs, defs), [], ts', es) && ErrorsOf(defs, defs) + Sum(es) == 0
    requires d in defs && d.kind != JobType
    ensures i < |ts'| == |TreesOf(defs, defs)| && LintedTree(defs, parsers, d, TreesOf(defs, defs)[i], ts'[i])
  {
    hide NoDuplicates, Acceptable, Evaluates, Instantiate, ErrorsOf, TreesOf;
    i := EntryPointTree(defs, defs, d);
    SumIsZero(es);
  }

  // ---------- No two nodes share anything ----------

  // The nodes of the trees, each before its children.
  ghost function Flat(s: Shape): seq<Shape>
    decreases s, 1
  {
    [s] + FlatAll(s.jobs) + FlatAll(s.handlers)
  }

  ghost function FlatAll(ss: seq<Shape>): seq<Shape>
    decreases ss, 0
  {
    if ss == [] then [] else Flat(ss[0]) + FlatAll(ss[1..])
  }

  ghost predicate Apart(flat: seq<Shape>) {
    forall i, j :: 0 <= i < j < |flat| ==> Own(flat[i]) !! Own(flat[j])
  }

  ghost predicate WithinFoot(flat: seq<Shape>, foot: set<object>) {
    forall i :: 0 <= i < |flat| ==> Own(flat[i]) <= foot
  }

  lemma ApartConcat(a: seq<Shape>, b: seq<Shape>, foot: set<object>, foot': set<object>)
    requires Apart(a) && WithinFoot(a, foot) && Apart(b) && WithinFoot(b, foot') && foot !! foot'
    ensures Apart(a + b) && WithinFoot(a + b, foot + foot')
  {
  }

  lemma {:induction false} TreeApart(s: Shape, parent: Node?, t: Tree)
    requires Represents(s, parent, t)
    ensures Apart(Flat(s)) && WithinFoot(Flat(s), Footprint(s))
    decreases s, 1
  {
    hide Apart, WithinFoot, Own, FootprintOf, Forest, FlatAll;
    ForestApart(s.node, s.node.jobs, s.jobs, t.jobs);
    ForestApart(s.node, s.node.handlers, s.handlers, t.handlers);
    OneApart(s);
    ApartConcat([s], FlatAll(s.jobs), Own(s), FootprintOf(s.jobs));
    ApartConcat([s] + FlatAll(s.jobs), FlatAll(s.handlers), Own(s) + FootprintOf(s.jobs), FootprintOf(s.handlers));
  }

  lemma OneApart(s: Shape)
    ensures Apart([s]) && WithinFoot([s], Own(s))
  {
  }

  /** No two nodes of a forest, of the same tree or not, share a node, a symbol table or an array. */
  lemma {:induction false} ForestApart(node: Node?, nodes: seq<Node>, ss: seq<Shape>, ts: seq<Tree>)
    requires Forest(node, nodes, ss, ts)
    ensures Apart(FlatAll(ss)) && WithinFoot(FlatAll(ss), FootprintOf(ss))
    decreases ss, 0
  {
    hide Own, Footprint, Represents, Flat;
    if ss != [] {
      hide Apart, WithinFoot;
      TreeApart(ss[0], node, ts[0]);
      assert Forest(node, nodes[1..], ss[1..], ts[1..]);
      ForestApart(node, nodes[1..], ss[1..], ts[1..]);
      FootprintSplits(ss);
      ApartConcat(Flat(ss[0]), FlatAll(ss[1..]), Footprint(ss[0]), FootprintOf(ss[1..]));
    }
  }

  lemma FootprintSplits(ss: seq<Shape>)
    requires ss != []
    ensures FootprintOf(ss) == Footprint(ss[0]) + FootprintOf(ss[1..])
  {
  }
}
