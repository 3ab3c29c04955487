/** What is checked before anything is expanded (`kbtree_coalesce`, `kbnode_check`): no two nodes
    with one ID, and every node complete. */
module Linting {
  import opened Wrappers
  import opened Tables
  import opened Expansion

  // ---------- Duplicates ----------

  // kbnode_cmp says 0: both nodes have an ID, the same one.
  predicate SameId(a: Def, b: Def) {
    |GetAll(a.tab, KEY_ID)| > 0 && |GetAll(b.tab, KEY_ID)| > 0 && IdOf(a.tab) == IdOf(b.tab)
  }

  ghost predicate NoDuplicates(nodes: seq<Def>) {
    forall i, j :: 0 <= i < j < |nodes| ==> !SameId(nodes[i], nodes[j])
  }

  // The nodes that no earlier node shadows.
  function FirstOfEach(nodes: seq<Def>): seq<Def> {
    if nodes == [] then []
    else
      var n := |nodes| - 1;
      var before := FirstOfEach(nodes[..n]);
      if exists d :: d in before && SameId(d, nodes[n]) then before else before + [nodes[n]]
  }

  // kbtree_coalesce; a set keeps the first of equal elements.
  method Coalesce(nodes: seq<Def>) returns (ret: seq<Def>, nduplicates: nat)
    ensures ret == FirstOfEach(nodes) && nduplicates == |nodes| - |ret|
  {
    hide SameId, FirstOfEach;
    ret, nduplicates := [], 0;
    NoneKept();
    for i := 0 to |nodes|
      invariant ret == FirstOfEach(nodes[..i]) && nduplicates == i - |ret|
    {
      assert nodes[..i + 1][..i] == nodes[..i];
      FirstOfEachStep(nodes[..i + 1]);
      var existing := FindSame(ret, nodes[i]);
      if existing {
        nduplicates := nduplicates + 1;
      } else {
        ret := ret + [nodes[i]];
      }
    }
    assert nodes[..|nodes|] == nodes;
  }

  // ds_set_find
  method FindSame(kept: seq<Def>, d: Def) returns (found: bool)
    ensures found == exists e :: e in kept && SameId(e, d)
  {
    for i := 0 to |kept|
      invariant forall e :: e in kept[..i] ==> !SameId(e, d)
    {
      if SameId(kept[i], d) {
        return true;
      }
    }
    return false;
  }

  lemma NoneKept()
    ensures FirstOfEach([]) == []
  {
  }

  lemma FirstOfEachStep(nodes: seq<Def>)
    requires nodes != []
    ensures var n := |nodes| - 1; var before := FirstOfEach(nodes[..n]);
            FirstOfEach(nodes) == if exists d :: d in before && SameId(d, nodes[n]) then before else before + [nodes[n]]
  {
  }

  lemma {:induction false} KeptAreRead(nodes: seq<Def>)
    ensures |FirstOfEach(nodes)| <= |nodes| && forall d :: d in FirstOfEach(nodes) ==> d in nodes
    decreases |nodes|
  {
    hide SameId;
    if nodes != [] {
      var n := |nodes| - 1;
      KeptAreRead(nodes[..n]);
      assert nodes == nodes[..n] + [nodes[n]];
    }
  }

  // Whether a node's ID was already taken by one of those kept.
  ghost predicate Taken(kept: seq<Def>, d: Def) {
    exists e :: e in kept && SameId(e, d)
  }

  lemma {:induction false} KeptHaveNoDuplicates(nodes: seq<Def>)
    ensures NoDuplicates(FirstOfEach(nodes))
    decreases |nodes|
  {
    if nodes != [] {
      var n := |nodes| - 1;
      KeptHaveNoDuplicates(nodes[..n]);
      hide FirstOfEach, SameId;
      FirstOfEachStep(nodes);
      var before := FirstOfEach(nodes[..n]);
      assert forall i :: 0 <= i < |before| ==> before[i] in before;
    }
  }

  lemma {:induction false} EveryIdIsKept(nodes: seq<Def>, d: Def)
    requires d in nodes && |GetAll(d.tab, KEY_ID)| > 0
    ensures Taken(FirstOfEach(nodes), d)
    decreases |nodes|
  {
    hide FirstOfEach;
    var n := |nodes| - 1;
    FirstOfEachStep(nodes);
    if d in nodes[..n] {
      EveryIdIsKept(nodes[..n], d);
      var e :| e in FirstOfEach(nodes[..n]) && SameId(e, d);
      assert e in FirstOfEach(nodes);
    } else {
      assert nodes == nodes[..n] + [nodes[n]];
      if !(exists e :: e in FirstOfEach(nodes[..n]) && SameId(e, d)) {
        assert d in FirstOfEach(nodes) && SameId(d, d);
      }
    }
  }

  lemma {:induction false} NothingDropped(nodes: seq<Def>)
    ensures |FirstOfEach(nodes)| == |nodes| <==> NoDuplicates(nodes)
    ensures |FirstOfEach(nodes)| == |nodes| ==> FirstOfEach(nodes) == nodes
    decreases |nodes|
  {
    hide FirstOfEach, SameId;
    KeptHaveNoDuplicates(nodes);
    KeptAreRead(nodes);
    if nodes != [] {
      var n := |nodes| - 1;
      FirstOfEachStep(nodes);
      NothingDropped(nodes[..n]);
      KeptAreRead(nodes[..n]);
      assert nodes == nodes[..n] + [nodes[n]];
      if NoDuplicates(nodes) {
        assert NoDuplicates(nodes[..n]);
        forall d | d in nodes[..n] ensures !SameId(d, nodes[n]) {
        }
      }
    }
  }

  // Nodes whose ID is an empty list are never duplicates.
  lemma DuplicatesAre(nodes: seq<Def>)
    ensures NoDuplicates(nodes) <==>
              forall i, j :: 0 <= i < j < |nodes| ==>
                var a, b := GetAll(nodes[i].tab, KEY_ID), GetAll(nodes[j].tab, KEY_ID);
                a == [] || b == [] || a[0] != b[0]
  {
  }

  /** What is kept was read and has no two nodes with one ID; every node with an ID has a kept node
      with that ID; and nothing is dropped exactly when there were no duplicates. */
  lemma CoalesceKeepsFirst(nodes: seq<Def>)
    ensures NoDuplicates(FirstOfEach(nodes)) && forall d :: d in FirstOfEach(nodes) ==> d in nodes
    ensures forall d :: d in nodes && |GetAll(d.tab, KEY_ID)| > 0 ==> Taken(FirstOfEach(nodes), d)
    ensures |FirstOfEach(nodes)| == |nodes| <==> NoDuplicates(nodes)
    ensures |FirstOfEach(nodes)| == |nodes| ==> FirstOfEach(nodes) == nodes
    ensures NoDuplicates(nodes) <==>
              forall i, j :: 0 <= i < j < |nodes| ==>
                var a, b := GetAll(nodes[i].tab, KEY_ID), GetAll(nodes[j].tab, KEY_ID);
                a == [] || b == [] || a[0] != b[0]
  {
    hide FirstOfEach, SameId;
    KeptHaveNoDuplicates(nodes);
    KeptAreRead(nodes);
    NothingDropped(nodes);
    DuplicatesAre(nodes);
    forall d | d in nodes && |GetAll(d.tab, KEY_ID)| > 0 ensures Taken(FirstOfEach(nodes), d) {
      EveryIdIsKept(nodes, d);
    }
  }

  lemma {:induction false} FindAtEnd(nodes: seq<Def>, d: Def, id: string)
    ensures FindById(nodes + [d], id) ==
            if FindById(nodes, id).Some? then FindById(nodes, id) else if IdOf(d.tab) == id then Some(d) else None
  {
    if nodes == [] {
      assert nodes + [d] == [d];
    } else {
      assert (nodes + [d])[1..] == nodes[1..] + [d];
      FindAtEnd(nodes[1..], d, id);
    }
  }

  /** Looking a node up by its ID gives the same node before and after. */
  lemma {:induction false} CoalesceKeepsLookups(nodes: seq<Def>, id: string)
    ensures FindById(FirstOfEach(nodes), id) == FindById(nodes, id)
    decreases |nodes|
  {
    if nodes != [] {
      hide FirstOfEach, FindById, IdOf;
      var n := |nodes| - 1;
      var before, d := FirstOfEach(nodes[..n]), nodes[n];
      CoalesceKeepsLookups(nodes[..n], id);
      FirstOfEachStep(nodes);
      assert nodes == nodes[..n] + [d];
      FindAtEnd(nodes[..n], d, id);
      if e :| e in before && SameId(e, d) {
        if IdOf(d.tab) == id {
          FoundWhenThere(before, e, id);
        }
      } else {
        FindAtEnd(before, d, id);
      }
    }
  }

  lemma FoundWhenThere(nodes: seq<Def>, d: Def, id: string)
    requires d in nodes && IdOf(d.tab) == id
    ensures FindById(nodes, id).Some?
  {
  }

  // ---------- One node ----------

  // What the check asks of the values of PERIOD and COUNTER: kbperiod_parse and sscanf ("%zu").
  datatype Parsers = Parsers(period: string -> bool, counter: string -> Option<nat>)

  const REQUIRED := [KEY_ID, KEY_MESSAGE]

  predicate OnlyOne(a: bool, b: bool, c: bool) {
    (a && !b && !c) || (!a && b && !c) || (!a && !b && c)
  }

  // The node says what it is and does, and a periodic one when and how often.
  predicate Acceptable(d: Def, parsers: Parsers) {
    && KEY_ID in d.tab && KEY_MESSAGE in d.tab
    && OnlyOne(KEY_EXEC in d.tab, KEY_EMITS in d.tab, KEY_JOBS in d.tab)
    && (d.kind == PeriodicType ==> Timed(d.tab, parsers))
  }

  // Exactly one valid period, and at most one counter, which is a number.
  predicate Timed(tab: Table, parsers: Parsers) {
    var periods, counters := GetAll(tab, KEY_PERIOD), GetAll(tab, KEY_COUNTER);
    && |periods| == 1 && parsers.period(periods[0])
    && (counters == [] || (|counters| == 1 && parsers.counter(counters[0]).Some?))
  }

  // nc_periodic
  method CheckPeriodic(tab: Table, parsers: Parsers) returns (errors: nat)
    ensures errors == 0 <==> Timed(tab, parsers)
    ensures var periods, counters := GetAll(tab, KEY_PERIOD), GetAll(tab, KEY_COUNTER);
            errors == 0 <==> |periods| == 1 && parsers.period(periods[0])
                             && |counters| <= 1 && forall c :: c in counters ==> parsers.counter(c).Some?
  {
    errors := 0;
    var periods := GetAll(tab, KEY_PERIOD);
    if |periods| == 0 {
      return 1;
    }
    if |periods| > 1 {
      errors := errors + 1;
    }
    if !parsers.period(periods[0]) {
      errors := errors + 1;
    }
    var counters := GetAll(tab, KEY_COUNTER);
    if |counters| == 0 {
      return;
    }
    if |counters| > 1 {
      errors := errors + 1;
    }
    if parsers.counter(counters[0]) == None {
      errors := errors + 1;
    }
  }

  lemma OneOfThree(s: set<string>, a: string, b: string, c: string)
    requires a != b && b != c && a != c
    ensures OnlyOne(a in s, b in s, c in s) <==> |s * {a, b, c}| == 1
  {
    var few := s * {a, b, c};
    var x, y, z := {a} * s, {b} * s, {c} * s;
    assert few == x + y + z && x !! y && (x + y) !! z;
    assert |few| == |x| + |y| + |z|;
    assert x == if a in s then {a} else {};
    assert y == if b in s then {b} else {};
    assert z == if c in s then {c} else {};
  }

  // kbnode_check
  method Check(d: Def, parsers: Parsers) returns (errors: nat, warnings: nat)
    ensures errors == 0 <==> Acceptable(d, parsers)
    ensures errors == 0 <==>
              && {"ID", "MESSAGE"} <= d.tab.Keys && |d.tab.Keys * {"EXEC", "EMITS", "JOBS"}| == 1
              && (d.kind == PeriodicType ==> Timed(d.tab, parsers))
    ensures warnings == if HasSrcDef(d.tab) then 0 else 1
  {
    OneOfThree(d.tab.Keys, KEY_EXEC, KEY_EMITS, KEY_JOBS);
    errors, warnings := 0, 0;
    if !HasSrcDef(d.tab) {
      warnings := 1;
    }
    if d.kind == PeriodicType {
      errors := CheckPeriodic(d.tab, parsers);
    }
    for i := 0 to |REQUIRED|
      invariant errors == 0 <==>
                (d.kind == PeriodicType ==> Timed(d.tab, parsers))
                && forall j :: 0 <= j < i ==> REQUIRED[j] in d.tab
    {
      if REQUIRED[i] !in d.tab {
        errors := errors + 1;
      }
    }
    assert REQUIRED[0] == KEY_ID && REQUIRED[1] == KEY_MESSAGE;
    var exec := if KEY_EXEC in d.tab then 1 else 0;
    var emit := if KEY_EMITS in d.tab then 1 else 0;
    var jobs := if KEY_JOBS in d.tab then 1 else 0;
    if exec + emit + jobs != 1 {
      errors := errors + 1;
    }
  }

  // ---------- All nodes ----------

  // Nothing to report about the nodes as they were read.
  ghost predicate CleanNodes(nodes: seq<Def>, parsers: Parsers) {
    NoDuplicates(nodes) && forall d :: d in nodes ==> Acceptable(d, parsers) && HasSrcDef(d.tab)
  }

  // The checks of the main program; a duplicate counts as two errors and a warning.
  method CheckNodes(nodes: seq<Def>, parsers: Parsers) returns (kept: seq<Def>, errors: nat, warnings: nat)
    ensures kept == FirstOfEach(nodes)
    ensures errors == 0 && warnings == 0 <==> CleanNodes(nodes, parsers)
    ensures errors == 0 <==> NoDuplicates(nodes) && forall d :: d in nodes ==> Acceptable(d, parsers)
    ensures errors == 0 ==> kept == nodes
  {
    hide FirstOfEach, NoDuplicates, Acceptable, HasSrcDef;
    var duplicates;
    kept, duplicates := Coalesce(nodes);
    CoalesceKeepsFirst(nodes);
    errors, warnings := 2 * duplicates, duplicates;
    for i := 0 to |kept|
      invariant errors == 0 <==> duplicates == 0 && forall d :: d in kept[..i] ==> Acceptable(d, parsers)
      invariant warnings == 0 <==> duplicates == 0 && forall d :: d in kept[..i] ==> HasSrcDef(d.tab)
    {
      assert kept[..i + 1] == kept[..i] + [kept[i]];
      var e, w := Check(kept[i], parsers);
      errors, warnings := errors + e, warnings + w;
    }
    assert kept[..|kept|] == kept;
  }

  lemma CleanIdsAreUnique(nodes: seq<Def>, parsers: Parsers)
    requires CleanNodes(nodes, parsers)
    ensures UniqueIds(nodes)
  {
  }
}
