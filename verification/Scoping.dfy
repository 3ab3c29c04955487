/** Dynamic scoping over a whole tree: what a value of any node is after evaluation, in terms of the
    nodes on the way from the root to it. */
module Scoping {
  import opened Wrappers
  import opened Tables
  import opened Expansion
  import opened Substitution
  import opened Evaluation
  import opened Execution
  import opened Compensation

  // The tables visible from the node at a path: its own, its parent's, and so on up to the root's.
  function TablesTo(t: Tree, path: Path): (scope: Scope)
    requires NodeAt(t, path).Some?
    ensures |scope| == |path| + 1
    decreases |path|
  {
    if path == [] then [t.tab] else TablesTo(ChildOf(t, path[0]).value, path[1..]) + [t.tab]
  }

  lemma {:induction false} NodesOnTheWay(t: Tree, path: Path, n: nat)
    requires NodeAt(t, path).Some? && n <= |path|
    ensures NodeAt(t, path[..n]).Some? && TablesTo(t, path)[|path| - n] == NodeAt(t, path[..n]).value.tab
    decreases |path|
  {
    if n > 0 {
      assert path[..n][0] == path[0] && path[..n][1..] == path[1..][..n - 1];
      NodesOnTheWay(ChildOf(t, path[0]).value, path[1..], n - 1);
    }
  }

  /** From the node at a path, a symbol has the values that it has at the lowest node on the way from
      the root that defines it; it has none exactly when no node on the way does. */
  lemma LowestDefinition(t: Tree, path: Path, name: string, n: nat)
    requires NodeAt(t, path).Some? && n <= |path|
    ensures forall m :: 0 <= m <= |path| ==> NodeAt(t, path[..m]).Some?
    ensures name in NodeAt(t, path[..n]).value.tab
            && (forall m :: n < m <= |path| ==> name !in NodeAt(t, path[..m]).value.tab) ==>
              Lookup(TablesTo(t, path), name) == Some(NodeAt(t, path[..n]).value.tab[name])
    ensures Lookup(TablesTo(t, path), name) == None <==>
              forall m :: 0 <= m <= |path| ==> name !in NodeAt(t, path[..m]).value.tab
  {
    hide NodeAt, TablesTo;
    var scope := TablesTo(t, path);
    forall m | 0 <= m <= |path|
      ensures NodeAt(t, path[..m]).Some? && scope[|path| - m] == NodeAt(t, path[..m]).value.tab
    {
      NodesOnTheWay(t, path, m);
    }
    LookupIsNearest(scope, name, |path| - n);
    assert forall j :: 0 <= j < |scope| ==> scope[j] == NodeAt(t, path[..|path| - j]).value.tab;
  }

  lemma {:induction false} ExpansionAt(t: Tree, t': Tree, above: Scope, path: Path)
    requires IsExpansion(t, t', above) && NodeAt(t, path).Some?
    ensures NodeAt(t', path).Some? && TableExpansion(TablesTo(t, path) + above, NodeAt(t', path).value.tab)
    decreases |path|
  {
    hide TableExpansion;
    var scope := [t.tab] + above;
    if path != [] {
      var c, c' := ChildOf(t, path[0]).value, ChildOf(t', path[0]).value;
      assert IsExpansion(c, c', scope);
      ExpansionAt(c, c', scope, path[1..]);
      assert TablesTo(t, path) + above == TablesTo(c, path[1..]) + scope;
    }
  }

  /** After an evaluation of a whole tree without errors, the node at every path is still there with
      its keys, and each of its values is the expansion of the raw one, in which a reference stands for
      the lowest definition on the way from the root to the node. */
  lemma ValuesSeeTheirAncestors(t: Tree, t': Tree, path: Path)
    requires Evaluable(t, []) && Evaluates(t, [], t', 0) && NodeAt(t, path).Some?
    ensures NodeAt(t', path).Some?
    ensures var n, n' := NodeAt(t, path).value, NodeAt(t', path).value;
            && n'.tab.Keys == n.tab.Keys
            && (forall k :: k in n.tab ==> |n'.tab[k]| == |n.tab[k]|)
            && forall k, i :: k in n.tab && 0 <= i < |n.tab[k]| ==>
                 Means(TablesTo(t, path), n.tab[k][i], Text(n'.tab[k][i]))
  {
    hide Evaluates, Means, NodeAt, IsExpansion, Evaluable, Lookup;
    EvaluationIsExpansion(t, [], t', 0);
    ExpansionAt(t, t', [], path);
    NodesOnTheWay(t, path, |path|);
    assert path[..|path|] == path && TablesTo(t, path) + [] == TablesTo(t, path);
  }
}
