/** Evaluation of a call tree (`kbtree_eval`) on values: what its loops do in place, for any order of
    the keys and any values; and what each value then is, in terms of recursive expansion. */
module Evaluation {
  import opened Tables
  import opened Expansion
  import opened Substitution
  import opened Cycles

  // ---------- Evaluating in place ----------

  // The result of the rewrite loop on a value; Unsettled if it never ends.
  ghost function Result(scope: Scope, v: string): Outcome {
    if exists r :: Yields(scope, v, r) then
      var r :| Yields(scope, v, r); r
    else Unsettled
  }

  // What the table is afterwards, the errors counted, and whether every loop ended.
  datatype Pass = Pass(tab: Table, errors: nat, ends: bool)

  // Values j, j + 1, ... of a key are evaluated one after the other, each in the table as it is by
  // then, and overwritten, up to the first that fails.
  ghost function EvalSlots(cur: Table, above: Scope, key: string, j: nat): Pass
    requires key in cur && j <= |cur[key]|
    decreases |cur[key]| - j
  {
    if j == |cur[key]| then Pass(cur, 0, true)
    else
      match Result([cur] + above, cur[key][j])
      case Text(s) => EvalSlots(cur[key := cur[key][j := s]], above, key, j + 1)
      case Failed => Pass(cur, 1, true)
      case Unsettled => Pass(cur, 0, false)
  }

  // The keys in some order.
  ghost function EvalKeys(cur: Table, above: Scope, keys: seq<string>): Pass
    requires forall k :: k in keys ==> k in cur
    decreases |keys|
  {
    if keys == [] then Pass(cur, 0, true)
    else
      var p := EvalSlots(cur, above, keys[0], 0);
      SlotsKeepKeys(cur, above, keys[0], 0);
      if !p.ends then p
      else
        var rest := EvalKeys(p.tab, above, keys[1..]);
        rest.(errors := p.errors + rest.errors)
  }

  lemma {:induction false} SlotsKeepKeys(cur: Table, above: Scope, key: string, j: nat)
    requires key in cur && j <= |cur[key]|
    ensures EvalSlots(cur, above, key, j).tab.Keys == cur.Keys
    decreases |cur[key]| - j
  {
    if j < |cur[key]| && Result([cur] + above, cur[key][j]).Text? {
      SlotsKeepKeys(cur[key := cur[key][j := Result([cur] + above, cur[key][j]).s]], above, key, j + 1);
    }
  }

  ghost predicate IsOrder(keys: seq<string>, tab: Table) {
    NoRepeat(keys) && forall k :: k in keys <==> k in tab
  }

  function Sum(s: seq<nat>): nat {
    if s == [] then 0 else Sum(s[..|s| - 1]) + s[|s| - 1]
  }

  // The order in which the keys of a node come, and the errors of each of its children.
  datatype Work = Work(keys: seq<string>, handlers: seq<nat>, jobs: seq<nat>)

  /** The evaluation of t below the tables above ends with t', having counted these errors. */
  ghost predicate Evaluates(t: Tree, above: Scope, t': Tree, errors: nat)
    decreases t, 1
  {
    if !HasSrcDef(t.tab) then t' == t && errors == 1
    else exists w :: EvaluatesBy(t, above, t', errors, w)
  }

  // Handlers and jobs are evaluated first, so they still see the raw table of t.
  ghost predicate EvaluatesBy(t: Tree, above: Scope, t': Tree, errors: nat, w: Work)
    decreases t, 0
  {
    && t'.kind == t.kind && t'.instantiated == t.instantiated && IsOrder(w.keys, t.tab)
    && (var p := EvalKeys(t.tab, above, w.keys);
        p.ends && t'.tab == p.tab && errors == Sum(w.handlers) + Sum(w.jobs) + p.errors)
    && EvaluateAll(t.handlers, [t.tab] + above, t'.handlers, w.handlers)
    && EvaluateAll(t.jobs, [t.tab] + above, t'.jobs, w.jobs)
  }

  ghost predicate EvaluateAll(ts: seq<Tree>, above: Scope, ts': seq<Tree>, es: seq<nat>)
    decreases ts
  {
    |ts'| == |ts| == |es| && forall i :: 0 <= i < |ts| ==> Evaluates(ts[i], above, ts'[i], es[i])
  }

  // However the keys come, every loop ends.
  ghost predicate Ending(t: Tree, above: Scope)
    decreases t
  {
    HasSrcDef(t.tab) ==>
      var scope := [t.tab] + above;
      && KeysEnd(t.tab, above)
      && (forall c :: c in t.jobs ==> Ending(c, scope)) && (forall c :: c in t.handlers ==> Ending(c, scope))
  }

  ghost predicate KeysEnd(tab: Table, above: Scope) {
    forall keys :: NoRepeat(keys) && (forall k :: k in keys ==> k in tab) ==> EvalKeys(tab, above, keys).ends
  }

  // ---------- What is left afterwards, for any values ----------

  ghost predicate NoRefs(vals: seq<string>) {
    forall i :: 0 <= i < |vals| ==> !HasOpen(vals[i])
  }

  ghost predicate TableResolved(tab: Table) {
    forall k :: k in tab ==> NoRefs(tab[k])
  }

  // No "$<" is left in any value of any node, and every node knows its origin.
  ghost predicate Resolved(t: Tree)
    decreases t
  {
    && HasSrcDef(t.tab) && TableResolved(t.tab)
    && (forall c :: c in t.jobs ==> Resolved(c)) && (forall c :: c in t.handlers ==> Resolved(c))
  }

  // Keys and array lengths stay, and so do values without references.
  ghost predicate Keeps(tab: Table, tab': Table) {
    && tab'.Keys == tab.Keys
    && forall k :: k in tab ==> |tab'[k]| == |tab[k]| && (NoRefs(tab[k]) ==> tab'[k] == tab[k])
  }

  // t' has the nodes of t.
  ghost predicate Follows(t: Tree, t': Tree)
    decreases t
  {
    && t'.kind == t.kind && t'.instantiated == t.instantiated && Keeps(t.tab, t'.tab)
    && |t'.jobs| == |t.jobs| && (forall i :: 0 <= i < |t.jobs| ==> Follows(t.jobs[i], t'.jobs[i]))
    && |t'.handlers| == |t.handlers| && (forall i :: 0 <= i < |t.handlers| ==> Follows(t.handlers[i], t'.handlers[i]))
  }

  lemma ResultIs(scope: Scope, v: string, r: Outcome)
    requires Yields(scope, v, r)
    ensures Result(scope, v) == r
  {
    ResultIsUnique(scope, v, r, Result(scope, v));
  }

  lemma ResultText(scope: Scope, v: string)
    ensures Result(scope, v).Text? ==> !HasOpen(Result(scope, v).s)
    ensures !HasOpen(v) ==> Result(scope, v) == Text(v)
  {
    hide Iterate, HasOpen;
    if Result(scope, v).Text? {
      var n: nat :| Iterate(scope, v, n) == Result(scope, v);
      TextHasNoRef(scope, v, n);
    }
    if !HasOpen(v) {
      TextHasNoRef(scope, v, 0);
      ResultIs(scope, v, Text(v));
    }
  }

  lemma {:induction false} SlotsLeave(cur: Table, above: Scope, key: string, j: nat)
    requires key in cur && j <= |cur[key]| && forall i :: 0 <= i < j ==> !HasOpen(cur[key][i])
    ensures var p := EvalSlots(cur, above, key, j);
            && Keeps(cur, p.tab) && (forall k :: k in cur && k != key ==> p.tab[k] == cur[k])
            && (p.ends ==> (p.errors == 0 <==> NoRefs(p.tab[key])))
    decreases |cur[key]| - j
  {
    hide HasOpen, Result;
    if j < |cur[key]| {
      var r := Result([cur] + above, cur[key][j]);
      ResultText([cur] + above, cur[key][j]);
      if r.Text? {
        var next := cur[key := cur[key][j := r.s]];
        assert NoRefs(cur[key]) ==> cur[key][j := r.s] == cur[key];
        SlotsLeave(next, above, key, j + 1);
      }
    }
  }

  lemma {:induction false} KeysLeave(cur: Table, above: Scope, keys: seq<string>)
    requires NoRepeat(keys) && forall k :: k in keys ==> k in cur
    ensures var p := EvalKeys(cur, above, keys);
            && Keeps(cur, p.tab) && (forall k :: k in cur && k !in keys ==> p.tab[k] == cur[k])
            && (p.ends ==> (p.errors == 0 <==> forall k :: k in keys ==> NoRefs(p.tab[k])))
    decreases |keys|
  {
    hide NoRefs, EvalSlots;
    if keys != [] {
      var p := EvalSlots(cur, above, keys[0], 0);
      SlotsLeave(cur, above, keys[0], 0);
      if p.ends {
        assert keys[0] !in keys[1..] && forall k :: k in keys <==> k == keys[0] || k in keys[1..];
        KeysLeave(p.tab, above, keys[1..]);
      }
    }
  }

  lemma {:induction false} SumIsZero(s: seq<nat>)
    ensures Sum(s) == 0 <==> forall i :: 0 <= i < |s| ==> s[i] == 0
  {
    if s != [] {
      SumIsZero(s[..|s| - 1]);
    }
  }

  /** Whatever the values are: an evaluation that ends has counted no error exactly when every node
      knows its origin and no "$<" is left anywhere. The nodes, keys and array lengths stay, and so
      do values without references. */
  lemma {:induction false} NoErrorsIffResolved(t: Tree, above: Scope, t': Tree, errors: nat)
    requires Evaluates(t, above, t', errors)
    ensures Follows(t, t') && (errors == 0 <==> Resolved(t'))
    decreases t, 1
  {
    hide NoRefs;
    if HasSrcDef(t.tab) {
      var w :| EvaluatesBy(t, above, t', errors, w);
      KeysLeave(t.tab, above, w.keys);
      SumIsZero(w.handlers);
      SumIsZero(w.jobs);
      ChildrenResolved(t.handlers, [t.tab] + above, t'.handlers, w.handlers);
      ChildrenResolved(t.jobs, [t.tab] + above, t'.jobs, w.jobs);
    } else {
      FollowsItself(t);
    }
  }

  lemma {:induction false} ChildrenResolved(ts: seq<Tree>, above: Scope, ts': seq<Tree>, es: seq<nat>)
    requires EvaluateAll(ts, above, ts', es)
    ensures forall i :: 0 <= i < |ts| ==> Follows(ts[i], ts'[i])
    ensures (forall i :: 0 <= i < |ts| ==> es[i] == 0) <==> forall c :: c in ts' ==> Resolved(c)
    decreases ts, 0
  {
    hide Follows, Resolved, Evaluates;
    forall i | 0 <= i < |ts| ensures Follows(ts[i], ts'[i]) && (es[i] == 0 <==> Resolved(ts'[i])) {
      NoErrorsIffResolved(ts[i], above, ts'[i], es[i]);
    }
    assert forall i :: 0 <= i < |ts'| ==> ts'[i] in ts';
  }

  lemma {:induction false} FollowsItself(t: Tree)
    ensures Follows(t, t)
    decreases t
  {
    forall c | c in t.jobs || c in t.handlers ensures Follows(c, c) {
      FollowsItself(c);
    }
  }

  lemma {:induction false} ResolvedKeysStay(tab: Table, above: Scope, keys: seq<string>)
    requires TableResolved(tab) && forall k :: k in keys ==> k in tab
    ensures EvalKeys(tab, above, keys) == Pass(tab, 0, true)
    decreases |keys|
  {
    if keys != [] {
      ResolvedSlotsStay(tab, above, keys[0], 0);
      ResolvedKeysStay(tab, above, keys[1..]);
    }
  }

  lemma {:induction false} ResolvedSlotsStay(tab: Table, above: Scope, key: string, j: nat)
    requires key in tab && NoRefs(tab[key]) && j <= |tab[key]|
    ensures EvalSlots(tab, above, key, j) == Pass(tab, 0, true)
    decreases |tab[key]| - j
  {
    if j < |tab[key]| {
      ResultText([tab] + above, tab[key][j]);
      assert tab[key][j := tab[key][j]] == tab[key] && tab[key := tab[key]] == tab;
      ResolvedSlotsStay(tab, above, key, j + 1);
    }
  }

  /** Evaluating a tree without references again, anywhere, changes nothing. */
  lemma {:induction false} EvaluationIsIdempotent(t: Tree, above: Scope, t': Tree, errors: nat)
    requires Resolved(t) && Evaluates(t, above, t', errors)
    ensures t' == t && errors == 0
    decreases t, 1
  {
    hide TableResolved;
    var w :| EvaluatesBy(t, above, t', errors, w);
    ResolvedKeysStay(t.tab, above, w.keys);
    ChildrenStay(t.handlers, [t.tab] + above, t'.handlers, w.handlers);
    ChildrenStay(t.jobs, [t.tab] + above, t'.jobs, w.jobs);
  }

  lemma {:induction false} ChildrenStay(ts: seq<Tree>, above: Scope, ts': seq<Tree>, es: seq<nat>)
    requires (forall c :: c in ts ==> Resolved(c)) && EvaluateAll(ts, above, ts', es)
    ensures ts' == ts && Sum(es) == 0
    decreases ts, 0
  {
    hide Resolved, Evaluates;
    forall i | 0 <= i < |ts| ensures ts'[i] == ts[i] && es[i] == 0 {
      EvaluationIsIdempotent(ts[i], above, ts'[i], es[i]);
    }
    SumIsZero(es);
  }

  lemma {:induction false} OrderOf(names: set<string>) returns (keys: seq<string>)
    ensures NoRepeat(keys) && forall k :: k in keys <==> k in names
    decreases names
  {
    keys := [];
    if names != {} {
      var k :| k in names;
      keys := OrderOf(names - {k});
      keys := keys + [k];
    }
  }

  // And there is such an evaluation.
  lemma {:induction false} ResolvedEvaluates(t: Tree, above: Scope)
    requires Resolved(t)
    ensures Evaluates(t, above, t, 0)
    decreases t
  {
    hide TableResolved, EvalKeys, Evaluates;
    var keys := OrderOf(t.tab.Keys);
    ResolvedKeysStay(t.tab, above, keys);
    var scope, eh, ej: seq<nat> := [t.tab] + above, seq(|t.handlers|, _ => 0), seq(|t.jobs|, _ => 0);
    SumIsZero(eh);
    SumIsZero(ej);
    forall c | c in t.jobs || c in t.handlers ensures Evaluates(c, scope, c, 0) {
      ResolvedEvaluates(c, scope);
    }
    assert forall i :: 0 <= i < |t.handlers| ==> t.handlers[i] in t.handlers;
    assert forall i :: 0 <= i < |t.jobs| ==> t.jobs[i] in t.jobs;
    assert EvaluateAll(t.handlers, scope, t.handlers, eh) && EvaluateAll(t.jobs, scope, t.jobs, ej);
    IsEvaluated(t, above, t, 0, Work(keys, eh, ej));
  }

  lemma IsEvaluated(t: Tree, above: Scope, t': Tree, errors: nat, w: Work)
    requires HasSrcDef(t.tab) && EvaluatesBy(t, above, t', errors, w)
    ensures Evaluates(t, above, t', errors)
  {
  }

  // ---------- What each value means ----------

  // The expansion of a raw value seen from a node; Unsettled if it is infinite.
  ghost function Meaning(scope: Scope, v: string): Outcome {
    if exists r :: Means(scope, v, r) then
      var r :| Means(scope, v, r); r
    else Unsettled
  }

  // How many of the values, from the first on, have a text as their meaning.
  ghost function Good(scope: Scope, vals: seq<string>): (n: nat)
    ensures n <= |vals|
    ensures forall i :: 0 <= i < n ==> Meaning(scope, vals[i]).Text?
    ensures n < |vals| ==> !Meaning(scope, vals[n]).Text?
  {
    if vals == [] || !Meaning(scope, vals[0]).Text? then 0 else 1 + Good(scope, vals[1..])
  }

  // The values of one key: expanded up to the first that fails, raw from there on.
  ghost function EvalValues(scope: Scope, vals: seq<string>): (r: seq<string>)
    ensures |r| == |vals|
  {
    seq(|vals|, i requires 0 <= i < |vals| => if i < Good(scope, vals) then Meaning(scope, vals[i]).s else vals[i])
  }

  ghost predicate Broken(scope: Scope, vals: seq<string>) {
    Good(scope, vals) < |vals|
  }

  // The expansion is finite for each value that is reached.
  ghost predicate Ends(scope: Scope, vals: seq<string>) {
    Broken(scope, vals) ==> Meaning(scope, vals[Good(scope, vals)]) == Failed
  }

  // The table of a node, whose scope starts with it.
  ghost function EvalTable(scope: Scope): Table
    requires scope != []
  {
    map k | k in scope[0] :: EvalValues(scope, scope[0][k])
  }

  ghost function BrokenKeys(scope: Scope): set<string>
    requires scope != []
  {
    set k | k in scope[0] && Broken(scope, scope[0][k])
  }

  ghost function EvalTree(t: Tree, above: Scope): Tree
    decreases t
  {
    if !HasSrcDef(t.tab) then t
    else
      var scope := [t.tab] + above;
      Tree(t.kind, EvalTable(scope), EvalTrees(t.jobs, scope), EvalTrees(t.handlers, scope), t.instantiated)
  }

  ghost function EvalTrees(ts: seq<Tree>, above: Scope): (r: seq<Tree>)
    ensures |r| == |ts| && forall i :: 0 <= i < |ts| ==> r[i] == EvalTree(ts[i], above)
    decreases ts
  {
    if ts == [] then [] else [EvalTree(ts[0], above)] + EvalTrees(ts[1..], above)
  }

  // One error for each key that breaks, and for each node that does not know its origin.
  ghost function EvalErrors(t: Tree, above: Scope): nat
    decreases t
  {
    if !HasSrcDef(t.tab) then 1
    else
      var scope := [t.tab] + above;
      EvalErrorsIn(t.handlers, scope) + EvalErrorsIn(t.jobs, scope) + |BrokenKeys(scope)|
  }

  ghost function EvalErrorsIn(ts: seq<Tree>, above: Scope): nat
    decreases ts
  {
    if ts == [] then 0 else EvalErrors(ts[0], above) + EvalErrorsIn(ts[1..], above)
  }

  // The values of the table are well formed, and so are the symbols that they refer to.
  ghost predicate TableEvaluable(scope: Scope)
    requires scope != []
  {
    && WellFormedScope(scope)
    && (forall k, i :: k in scope[0] && 0 <= i < |scope[0][k]| ==> WellFormed(scope[0][k][i]))
    && forall k :: k in scope[0] ==> Ends(scope, scope[0][k])
  }

  ghost predicate Evaluable(t: Tree, above: Scope)
    decreases t
  {
    HasSrcDef(t.tab) ==>
      var scope := [t.tab] + above;
      && TableEvaluable(scope)
      && (forall c :: c in t.jobs ==> Evaluable(c, scope)) && (forall c :: c in t.handlers ==> Evaluable(c, scope))
  }

  lemma MeaningMeans(scope: Scope, v: string)
    requires Meaning(scope, v) != Unsettled
    ensures Means(scope, v, Meaning(scope, v))
  {
  }

  lemma {:induction false} RefsInBlank(ts: seq<Token>, m: string)
    requires Ref(m) in ts
    ensures Ref(m) in Blank(ts)
    decreases |ts|
  {
    if |ts| > 1 && ts[0] != Ref(m) {
      RefsInBlank(ts[1..], m);
    }
  }

  lemma {:induction false} RefsInItems(vals: seq<string>, i: nat, j: nat, m: string)
    requires i <= j < |vals| && Ref(m) in Tokenize(vals[j] + " ")
    ensures Ref(m) in ItemTokens(vals, i)
    decreases j - i
  {
    hide Tokenize;
    if i < j {
      RefsInItems(vals, i + 1, j, m);
    }
  }

  // What a value refers to, its symbol refers to.
  lemma RefsInFormat(vals: seq<string>, j: nat, m: string)
    requires j < |vals| && Ref(m) in Tokenize(vals[j])
    ensures Ref(m) in FormatTokens(vals)
  {
    hide Tokenize, ItemTokens;
    if |vals| > 1 {
      BlankTokens(vals[j]);
      RefsInBlank(Tokenize(vals[j]), m);
      RefsInItems(vals, 0, j, m);
    }
  }

  lemma ValueIsSubstitutable(scope: Scope, key: string, j: nat)
    requires scope != [] && TableEvaluable(scope) && key in scope[0] && j < |scope[0][key]|
    ensures Substitutable(scope, Tokenize(scope[0][key][j]))
  {
    hide TokensOk, ValueOk, Tokenize, FormatTokens;
    var vals := scope[0][key];
    assert Lookup(scope, key).Some? && Lookup(scope, key).value == vals && WellFormed(vals[j]);
    forall m | Ref(m) in Tokenize(vals[j]) ensures Ref(m) in FormatTokens(vals) {
      RefsInFormat(vals, j, m);
    }
  }

  // ---------- Overwriting keeps what values mean ----------

  // The table of scope with the keys of done evaluated, and the first j values of one more.
  ghost predicate Underway(scope: Scope, cur: Table, done: set<string>, key: string, j: nat)
    requires scope != []
  {
    && cur.Keys == scope[0].Keys
    && (forall k :: k in done && k in scope[0] ==> cur[k] == EvalValues(scope, scope[0][k]))
    && (forall k :: k in scope[0] && k !in done && k != key ==> cur[k] == scope[0][k])
    && (key in scope[0] && key !in done ==>
          && j <= Good(scope, scope[0][key])
          && cur[key] == EvalValues(scope, scope[0][key])[..j] + scope[0][key][j..])
  }

  lemma EvaluatedAdvance(scope: Scope, key: string, j: nat)
    requires scope != [] && TableEvaluable(scope) && key in scope[0] && j <= Good(scope, scope[0][key])
    ensures var vals := scope[0][key];
            && ValuesAdvance(scope, vals, EvalValues(scope, vals)[..j] + vals[j..])
            && ValuesAdvance(scope, vals, EvalValues(scope, vals))
  {
    hide TableEvaluable, HasOpen;
    var vals := scope[0][key];
    forall i | 0 <= i < Good(scope, vals) ensures ValueAdvances(scope, vals[i], EvalValues(scope, vals)[i]) {
      TextExpansion(scope, key, i);
    }
  }

  lemma TextExpansion(scope: Scope, key: string, i: nat)
    requires scope != [] && TableEvaluable(scope) && key in scope[0] && i < |scope[0][key]|
    requires Meaning(scope, scope[0][key][i]).Text?
    ensures var v := scope[0][key][i]; Means(scope, v, Meaning(scope, v)) && !HasOpen(Meaning(scope, v).s)
  {
    hide TableEvaluable, HasOpen, Substitutable, Expand;
    var v := scope[0][key][i];
    MeaningMeans(scope, v);
    var fuel: nat :| Expand(scope, Tokenize(v), fuel) == Meaning(scope, v);
    ValueIsSubstitutable(scope, key, i);
    ExpansionHasNoRef(scope, Tokenize(v), fuel);
  }

  lemma UnderwayAdvances(scope: Scope, cur: Table, done: set<string>, key: string, j: nat)
    requires scope != [] && TableEvaluable(scope) && Underway(scope, cur, done, key, j)
    ensures Advances(scope, [cur] + scope[1..])
  {
    hide TableEvaluable, ValuesAdvance, EvalValues;
    forall k | k in scope[0] ensures ValuesAdvance(scope, scope[0][k], cur[k]) {
      if k in done {
        EvaluatedAdvance(scope, k, 0);
      } else if k == key {
        EvaluatedAdvance(scope, k, j);
      } else {
        NothingAdvances(scope, scope[0][k]);
      }
    }
    assert TableAdvances(scope, scope[0], cur);
    forall t ensures TableAdvances(scope, t, t) {
      forall k | k in t ensures ValuesAdvance(scope, t[k], t[k]) {
        NothingAdvances(scope, t[k]);
      }
    }
  }

  lemma NothingAdvances(scope: Scope, vals: seq<string>)
    ensures ValuesAdvance(scope, vals, vals)
  {
  }

  // A raw value still has its meaning in the table as it is by then, and the loop finds it.
  lemma MeaningStays(scope: Scope, cur: Table, done: set<string>, key: string, j: nat, k: string, i: nat)
    requires scope != [] && Underway(scope, cur, done, key, j) && TableEvaluable(scope)
    requires k in scope[0] && i < |scope[0][k]| && Meaning(scope, scope[0][k][i]) != Unsettled
    ensures Result([cur] + scope[1..], scope[0][k][i]) == Meaning(scope, scope[0][k][i])
  {
    hide TableEvaluable, Underway, Substitutable, Expand, Advances, Supports, ValueOk;
    var v, scope' := scope[0][k][i], [cur] + scope[1..];
    MeaningMeans(scope, v);
    UnderwayAdvances(scope, cur, done, key, j);
    ValueIsSubstitutable(scope, k, i);
    var fuel: nat :| Expand(scope, Tokenize(v), fuel) == Meaning(scope, v);
    UnchangedAdvances(scope, v);
    ValueKeepsMeaning(scope, scope', v, v, fuel);
    AdvancedIsSubstitutable(scope, scope', Tokenize(v));
    TokenizeRenders(v);
    RewritingIsExpansionOfTokens(scope', Tokenize(v), Meaning(scope, v));
    ResultIs(scope', v, Meaning(scope, v));
  }

  lemma UnchangedAdvances(scope: Scope, v: string)
    ensures ValueAdvances(scope, v, v)
  {
  }

  lemma WriteNext(r: seq<string>, vals: seq<string>, j: nat)
    requires |r| == |vals| && j < |r|
    ensures (r[..j] + vals[j..])[j] == vals[j] && (r[..j] + vals[j..])[j := r[j]] == r[..j + 1] + vals[j + 1..]
  {
  }

  lemma SlotWritten(scope: Scope, cur: Table, done: set<string>, key: string, j: nat)
    requires scope != [] && Underway(scope, cur, done, key, j) && key in scope[0] && key !in done
    requires j < Good(scope, scope[0][key])
    ensures cur[key][j] == scope[0][key][j]
    ensures Underway(scope, cur[key := cur[key][j := Meaning(scope, scope[0][key][j]).s]], done, key, j + 1)
  {
    hide Meaning;
    var vals := scope[0][key];
    WriteNext(EvalValues(scope, vals), vals, j);
  }

  lemma KeyDone(scope: Scope, cur: Table, done: set<string>, key: string)
    requires scope != [] && key in scope[0] && key !in done
    requires Underway(scope, cur, done, key, Good(scope, scope[0][key]))
    ensures Between(scope, cur, done + {key})
  {
  }

  lemma {:induction false} SlotsUnderway(scope: Scope, cur: Table, done: set<string>, key: string, j: nat)
    requires scope != [] && TableEvaluable(scope) && key in scope[0] && key !in done
    requires Underway(scope, cur, done, key, j) && key in cur && j <= |cur[key]|
    ensures var p := EvalSlots(cur, scope[1..], key, j);
            p.ends && Between(scope, p.tab, done + {key}) && p.errors == if Broken(scope, scope[0][key]) then 1 else 0
    decreases |scope[0][key]| - j
  {
    hide TableEvaluable, Between, Result, Meaning;
    var vals, n := scope[0][key], Good(scope, scope[0][key]);
    KeyEnds(scope, key);
    if j < |vals| {
      assert cur[key][j] == vals[j];
      MeaningStays(scope, cur, done, key, j, key, j);
    }
    if j < n {
      SlotWritten(scope, cur, done, key, j);
      SlotsUnderway(scope, cur[key := cur[key][j := Meaning(scope, vals[j]).s]], done, key, j + 1);
    } else {
      KeyDone(scope, cur, done, key);
    }
  }

  lemma KeyEnds(scope: Scope, key: string)
    requires scope != [] && TableEvaluable(scope) && key in scope[0]
    ensures Broken(scope, scope[0][key]) ==> Meaning(scope, scope[0][key][Good(scope, scope[0][key])]) == Failed
  {
  }

  // The keys of done are evaluated, and no other key is touched.
  ghost predicate Between(scope: Scope, cur: Table, done: set<string>)
    requires scope != []
  {
    forall key :: Underway(scope, cur, done, key, 0)
  }

  lemma BetweenKeys(scope: Scope, cur: Table, done: set<string>)
    requires scope != [] && Between(scope, cur, done)
    ensures cur.Keys == scope[0].Keys
    ensures done == scope[0].Keys ==> cur == EvalTable(scope)
  {
    assert Underway(scope, cur, done, "", 0);
  }

  lemma NothingDone(scope: Scope)
    requires scope != []
    ensures Between(scope, scope[0], {})
  {
  }

  ghost function BrokenAmong(scope: Scope, keys: set<string>): nat
    requires scope != []
  {
    |BrokenKeys(scope) * keys|
  }

  lemma BrokenCount(scope: Scope, done: set<string>, key: string)
    requires scope != [] && key in scope[0] && key !in done
    ensures BrokenAmong(scope, done + {key}) == BrokenAmong(scope, done) + if Broken(scope, scope[0][key]) then 1 else 0
  {
    var b := BrokenKeys(scope);
    if key in b {
      assert b * (done + {key}) == b * done + {key};
    } else {
      assert b * (done + {key}) == b * done;
    }
  }

  lemma {:induction false} KeysUnderway(scope: Scope, cur: Table, done: set<string>, keys: seq<string>)
    requires scope != [] && TableEvaluable(scope) && Between(scope, cur, done) && cur.Keys == scope[0].Keys
    requires (forall k :: k in keys ==> k in scope[0] && k !in done) && NoRepeat(keys)
    ensures var p := EvalKeys(cur, scope[1..], keys);
            && p.ends && Between(scope, p.tab, done + Elements(keys)) && p.tab.Keys == scope[0].Keys
            && p.errors + BrokenAmong(scope, done) == BrokenAmong(scope, done + Elements(keys))
    decreases |keys|
  {
    hide Underway, TableEvaluable, EvalSlots, EvalValues, Broken, BrokenAmong;
    if keys == [] {
      assert done + Elements(keys) == done;
    } else {
      assert keys[0] in keys && Underway(scope, cur, done, keys[0], 0);
      SlotsUnderway(scope, cur, done, keys[0], 0);
      var next := EvalSlots(cur, scope[1..], keys[0], 0).tab;
      BetweenKeys(scope, next, done + {keys[0]});
      BrokenCount(scope, done, keys[0]);
      KeysUnderway(scope, next, done + {keys[0]}, keys[1..]);
      assert done + {keys[0]} + Elements(keys[1..]) == done + Elements(keys);
    }
  }

  /** Earlier keys are overwritten before later ones are read, and yet in whatever order the hash
      map yields the keys, every value ends up as the expansion of what was there at the start. */
  lemma KeyOrderDoesNotMatter(scope: Scope, keys: seq<string>)
    requires scope != [] && TableEvaluable(scope) && IsOrder(keys, scope[0])
    ensures EvalKeys(scope[0], scope[1..], keys) == Pass(EvalTable(scope), |BrokenKeys(scope)|, true)
  {
    hide Underway, TableEvaluable, EvalKeys, Between, EvalTable, BrokenKeys;
    assert Elements(keys) == scope[0].Keys;
    NothingDone(scope);
    KeysUnderway(scope, scope[0], {}, keys);
    assert {} + Elements(keys) == scope[0].Keys;
    BetweenKeys(scope, EvalKeys(scope[0], scope[1..], keys).tab, scope[0].Keys);
    BrokenEnds(scope);
  }

  lemma BrokenEnds(scope: Scope)
    requires scope != []
    ensures BrokenAmong(scope, {}) == 0 && BrokenAmong(scope, scope[0].Keys) == |BrokenKeys(scope)|
  {
    assert BrokenKeys(scope) * {} == {};
    assert BrokenKeys(scope) * scope[0].Keys == BrokenKeys(scope);
  }

  lemma SomeKeysEnd(scope: Scope)
    requires scope != [] && TableEvaluable(scope)
    ensures KeysEnd(scope[0], scope[1..])
  {
    hide Underway, TableEvaluable, EvalKeys, Between;
    forall keys | NoRepeat(keys) && forall k :: k in keys ==> k in scope[0]
      ensures EvalKeys(scope[0], scope[1..], keys).ends
    {
      NothingDone(scope);
      KeysUnderway(scope, scope[0], {}, keys);
    }
  }

  // ---------- Evaluated trees ----------

  // t' has the nodes, keys and array lengths of t, and each of its values is the expansion of
  // t's value from the scope of its node.
  ghost predicate IsExpansion(t: Tree, t': Tree, above: Scope)
    decreases t
  {
    var scope := [t.tab] + above;
    && t'.kind == t.kind && t'.instantiated == t.instantiated && TableExpansion(scope, t'.tab)
    && |t'.jobs| == |t.jobs| && |t'.handlers| == |t.handlers|
    && (forall i :: 0 <= i < |t.jobs| ==> IsExpansion(t.jobs[i], t'.jobs[i], scope))
    && (forall i :: 0 <= i < |t.handlers| ==> IsExpansion(t.handlers[i], t'.handlers[i], scope))
  }

  ghost predicate TableExpansion(scope: Scope, tab': Table)
    requires scope != []
  {
    && tab'.Keys == scope[0].Keys && (forall k :: k in tab' ==> |tab'[k]| == |scope[0][k]|)
    && forall k, i :: k in tab' && 0 <= i < |tab'[k]| ==> Means(scope, scope[0][k][i], Text(tab'[k][i]))
  }

  /** A value is replaced by its expansion exactly when it and all values before it have one; a key
      breaks exactly when one of its values has none. */
  lemma ValuesUpToAFailure(scope: Scope, k: string, i: nat)
    requires scope != [] && k in scope[0] && i < |scope[0][k]|
    ensures EvalTable(scope).Keys == scope[0].Keys && |EvalTable(scope)[k]| == |scope[0][k]|
    ensures EvalTable(scope)[k][i] ==
            if forall j :: 0 <= j <= i ==> Meaning(scope, scope[0][k][j]).Text? then Meaning(scope, scope[0][k][i]).s
            else scope[0][k][i]
    ensures k in BrokenKeys(scope) <==>
              exists j :: 0 <= j < |scope[0][k]| && !Meaning(scope, scope[0][k][j]).Text?
  {
    hide Meaning;
    var vals := scope[0][k];
    var n := Good(scope, vals);
    assert i < n <==> forall j :: 0 <= j <= i ==> Meaning(scope, vals[j]).Text?;
  }

  lemma EvaluatedTable(scope: Scope)
    requires scope != [] && TableEvaluable(scope) && BrokenKeys(scope) == {}
    ensures TableExpansion(scope, EvalTable(scope))
  {
    hide TableEvaluable, Meaning, HasOpen;
    forall k, i | k in scope[0] && 0 <= i < |scope[0][k]|
      ensures Means(scope, scope[0][k][i], Text(EvalTable(scope)[k][i]))
    {
      assert k !in BrokenKeys(scope);
      TextExpansion(scope, k, i);
    }
  }

  /** A tree of well-formed values: there is only one result of its evaluation. Each value is the
      expansion of the raw one from its own node, up to the first of its key that fails, and each
      such key counts one error. */
  lemma {:induction false} EvaluationIsExpansion(t: Tree, above: Scope, t': Tree, errors: nat)
    requires Evaluable(t, above) && Evaluates(t, above, t', errors)
    ensures t' == EvalTree(t, above) && errors == EvalErrors(t, above)
    ensures errors == 0 ==> IsExpansion(t, t', above)
    decreases t, 1
  {
    hide TableEvaluable, EvalKeys, BrokenKeys, EvalTable, TableExpansion, HasSrcDef, EvaluateAll, EvalTrees,
      EvalErrorsIn, IsOrder, Sum;
    if HasSrcDef(t.tab) {
      var w :| EvaluatesBy(t, above, t', errors, w);
      var scope := [t.tab] + above;
      assert scope[1..] == above;
      KeyOrderDoesNotMatter(scope, w.keys);
      ChildrenExpand(t.handlers, scope, t'.handlers, w.handlers);
      ChildrenExpand(t.jobs, scope, t'.jobs, w.jobs);
      if errors == 0 {
        assert BrokenKeys(scope) == {};
        EvaluatedTable(scope);
      }
    }
  }

  lemma {:induction false} ChildrenExpand(ts: seq<Tree>, above: Scope, ts': seq<Tree>, es: seq<nat>)
    requires (forall c :: c in ts ==> Evaluable(c, above)) && EvaluateAll(ts, above, ts', es)
    ensures ts' == EvalTrees(ts, above) && Sum(es) == EvalErrorsIn(ts, above)
    ensures Sum(es) == 0 ==> forall i :: 0 <= i < |ts| ==> IsExpansion(ts[i], ts'[i], above)
    decreases ts, 0
  {
    hide Evaluable, Evaluates, EvalTree, EvalErrors, IsExpansion;
    forall i | 0 <= i < |ts|
      ensures ts'[i] == EvalTree(ts[i], above) && es[i] == EvalErrors(ts[i], above)
      ensures es[i] == 0 ==> IsExpansion(ts[i], ts'[i], above)
    {
      EvaluationIsExpansion(ts[i], above, ts'[i], es[i]);
    }
    SumOfErrors(ts, above, es);
    SumIsZero(es);
  }

  lemma {:induction false} SumOfErrors(ts: seq<Tree>, above: Scope, es: seq<nat>)
    requires |es| == |ts| && forall i :: 0 <= i < |ts| ==> es[i] == EvalErrors(ts[i], above)
    ensures Sum(es) == EvalErrorsIn(ts, above)
    decreases |ts|
  {
    hide EvalErrors;
    if ts != [] {
      SumOfErrors(ts[1..], above, es[1..]);
      SumFirst(es);
    }
  }

  lemma {:induction false} SumFirst(es: seq<nat>)
    requires es != []
    ensures Sum(es) == es[0] + Sum(es[1..])
  {
    if |es| > 1 {
      var n := |es| - 1;
      SumFirst(es[..n]);
      assert es[..n][1..] == es[1..][..n - 1];
    }
  }

  lemma {:induction false} EvaluableEnds(t: Tree, above: Scope)
    requires Evaluable(t, above)
    ensures Ending(t, above)
    decreases t
  {
    hide TableEvaluable, KeysEnd;
    if HasSrcDef(t.tab) {
      var scope := [t.tab] + above;
      assert scope[1..] == above;
      SomeKeysEnd(scope);
      forall c | c in t.jobs || c in t.handlers ensures Ending(c, scope) {
        EvaluableEnds(c, scope);
      }
    }
  }

  // ---------- Symbols without cycles ----------

  // From every node, the values are well formed and no visible symbol refers to itself.
  ghost predicate AcyclicTree(t: Tree, above: Scope)
    decreases t
  {
    HasSrcDef(t.tab) ==>
      var scope := [t.tab] + above;
      && WellFormedScope(scope) && Acyclic(scope)
      && (forall k, i :: k in t.tab && 0 <= i < |t.tab[k]| ==> WellFormed(t.tab[k][i]))
      && (forall c :: c in t.jobs ==> AcyclicTree(c, scope)) && (forall c :: c in t.handlers ==> AcyclicTree(c, scope))
  }

  lemma AcyclicMeaning(scope: Scope, v: string)
    requires Acyclic(scope)
    ensures Meaning(scope, v) != Unsettled
  {
    AcyclicHasNoWayBack(scope);
    AcyclicExpands(scope, Tokenize(v));
    assert Means(scope, v, Expand(scope, Tokenize(v), |Visible(scope)|));
  }

  /** Without cyclic symbols the evaluation of every value of every node ends. */
  lemma {:induction false} AcyclicIsEvaluable(t: Tree, above: Scope)
    requires AcyclicTree(t, above)
    ensures Evaluable(t, above)
    decreases t
  {
    hide Meaning, Acyclic, WellFormedScope, WellFormed;
    if HasSrcDef(t.tab) {
      var scope := [t.tab] + above;
      forall k | k in t.tab ensures Ends(scope, t.tab[k]) {
        if Broken(scope, t.tab[k]) {
          AcyclicMeaning(scope, t.tab[k][Good(scope, t.tab[k])]);
        }
      }
      forall c | c in t.jobs || c in t.handlers ensures Evaluable(c, scope) {
        AcyclicIsEvaluable(c, scope);
      }
    }
  }
}
