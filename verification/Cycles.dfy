/** When the rewrite loop ends: exactly when no symbol leads back to itself. */
module Cycles {
  import opened Tables
  import opened Text
  import opened Expansion
  import opened Substitution

  function TokensOf(scope: Scope, name: string): seq<Token> {
    match Lookup(scope, name) case None => [] case Some(vals) => FormatTokens(vals)
  }

  // The value of name refers to m, and both are visible.
  ghost predicate Refers(scope: Scope, name: string, m: string) {
    Lookup(scope, m).Some? && Ref(m) in TokensOf(scope, name)
  }

  ghost predicate IsRefPath(scope: Scope, p: seq<string>) {
    p != [] && Lookup(scope, p[0]).Some? && forall i :: 0 <= i < |p| - 1 ==> Refers(scope, p[i], p[i + 1])
  }

  // No visible symbol refers to itself, directly or through others.
  ghost predicate Acyclic(scope: Scope) {
    forall p :: IsRefPath(scope, p) ==> NoRepeat(p)
  }

  // No visible value has a reference that dangles or is not closed.
  ghost predicate Complete(scope: Scope) {
    forall name, t :: t in TokensOf(scope, name) ==> !t.Unclosed? && (t.Ref? ==> Lookup(scope, t.name).Some?)
  }

  // The loop ends on the text that a reference to name is replaced by.
  ghost predicate Settles(scope: Scope, name: string) {
    Lookup(scope, name).Some? ==> exists r :: Yields(scope, Format(Lookup(scope, name).value), r)
  }

  ghost predicate WellFormedSymbols(scope: Scope) {
    WellFormedScope(scope) && forall name :: Lookup(scope, name).Some? ==> ValueOk(TokensOf(scope, name))
  }

  ghost function Visible(scope: Scope): (names: set<string>)
    ensures forall k :: k in names <==> Lookup(scope, k).Some?
  {
    if scope == [] then {} else scope[0].Keys + Visible(scope[1..])
  }

  // ---------- Ways that the expansion takes ----------

  // The expansion of name gets as far as the reference to m: what stands before it has a text.
  ghost predicate ReachesAt(scope: Scope, name: string, m: string, i: nat, fuel: nat) {
    var ts := TokensOf(scope, name);
    Lookup(scope, m).Some? && i < |ts| && ts[i] == Ref(m) && Expand(scope, ts[..i], fuel).Text?
  }

  ghost predicate Reaches(scope: Scope, name: string, m: string) {
    exists i: nat, fuel: nat :: ReachesAt(scope, name, m, i, fuel)
  }

  ghost predicate IsWay(scope: Scope, p: seq<string>) {
    p != [] && Lookup(scope, p[0]).Some? && forall i :: 0 <= i < |p| - 1 ==> Reaches(scope, p[i], p[i + 1])
  }

  ghost predicate NoWayBack(scope: Scope) {
    forall p :: IsWay(scope, p) ==> NoRepeat(p)
  }

  lemma WayVisible(scope: Scope, p: seq<string>)
    requires IsWay(scope, p)
    ensures Elements(p) <= Visible(scope)
  {
    forall i | 0 <= i < |p| ensures Lookup(scope, p[i]).Some? {
      if i > 0 {
        assert Reaches(scope, p[i - 1], p[i]);
      }
    }
  }

  lemma LongerWay(scope: Scope, p: seq<string>, m: string)
    requires NoWayBack(scope) && IsWay(scope, p) && Reaches(scope, p[|p| - 1], m)
    ensures IsWay(scope, p + [m]) && |p| < |Visible(scope)|
  {
    hide Reaches, Visible;
    var p' := p + [m];
    assert IsWay(scope, p');
    WayVisible(scope, p');
    DistinctFit(p', Visible(scope));
  }

  lemma PrefixExpands(scope: Scope, ts: seq<Token>, i: nat, fuel: nat)
    requires i < |ts|
    ensures Expand(scope, ts[..i + 1], fuel) == Then(Expand(scope, ts[..i], fuel), ExpandToken(scope, ts[i], fuel))
  {
    assert ts[..i + 1] == ts[..i] + [ts[i]];
    ExpandConcat(scope, ts[..i], [ts[i]], fuel);
    ExpandOne(scope, ts[i], fuel);
  }

  lemma GetsTo(scope: Scope, name: string, m: string, i: nat, fuel: nat)
    requires var ts := TokensOf(scope, name);
             Lookup(scope, m).Some? && i < |ts| && ts[i] == Ref(m) && Expand(scope, ts[..i], fuel).Text?
    ensures Reaches(scope, name, m)
  {
    assert ReachesAt(scope, name, m, i, fuel);
  }

  lemma ExpandRef(scope: Scope, m: string, fuel: nat)
    requires Lookup(scope, m).Some? && fuel > 0
    ensures var ts := TokensOf(scope, m); ExpandToken(scope, Ref(m), fuel) == Expand(scope, ts[..|ts|], fuel - 1)
  {
    var ts := TokensOf(scope, m);
    assert ts[..|ts|] == ts;
  }

  // Without a way back, the nesting below a way is as deep as there are symbols left.
  lemma {:induction false} WaySettles(scope: Scope, p: seq<string>, i: nat, fuel: nat)
    requires NoWayBack(scope) && p != [] && IsWay(scope, p) && |p| + fuel >= |Visible(scope)|
    requires i <= |TokensOf(scope, p[|p| - 1])|
    ensures Expand(scope, TokensOf(scope, p[|p| - 1])[..i], fuel) != Unsettled
    decreases fuel, i
  {
    hide NoWayBack, IsWay, Visible, TokensOf, Reaches, ReachesAt;
    var name := p[|p| - 1];
    var ts := TokensOf(scope, name);
    if i > 0 {
      WaySettles(scope, p, i - 1, fuel);
      PrefixExpands(scope, ts, i - 1, fuel);
      if ts[i - 1].Ref? && Lookup(scope, ts[i - 1].name).Some? && Expand(scope, ts[..i - 1], fuel).Text? {
        var m := ts[i - 1].name;
        GetsTo(scope, name, m, i - 1, fuel);
        LongerWay(scope, p, m);
        WaySettles(scope, p + [m], |TokensOf(scope, m)|, fuel - 1);
        ExpandRef(scope, m, fuel);
      }
    }
  }

  lemma NoWayBackSettles(scope: Scope, name: string)
    requires WellFormedSymbols(scope) && NoWayBack(scope)
    ensures Settles(scope, name)
  {
    if Lookup(scope, name).Some? {
      var ts, n := TokensOf(scope, name), |Visible(scope)|;
      assert IsWay(scope, [name]);
      WaySettles(scope, [name], |ts|, n);
      assert ts[..|ts|] == ts;
      FormatTokensRender(Lookup(scope, name).value);
      RewritingIsExpansionOfTokens(scope, ts, Expand(scope, ts, n));
    }
  }

  // ---------- Ways get shallower ----------

  // The least fuel that settles a symbol, if fuel settles it at all.
  ghost function LeastFuel(scope: Scope, name: string, fuel: nat): (least: nat)
    requires ExpandToken(scope, Ref(name), fuel) != Unsettled
    ensures ExpandToken(scope, Ref(name), least) != Unsettled
    ensures forall f: nat :: ExpandToken(scope, Ref(name), f) != Unsettled ==> least <= f
  {
    if exists f: nat :: f < fuel && ExpandToken(scope, Ref(name), f) != Unsettled then
      var f: nat :| f < fuel && ExpandToken(scope, Ref(name), f) != Unsettled;
      LeastFuel(scope, name, f)
    else fuel
  }

  lemma SettledFuel(scope: Scope, name: string) returns (fuel: nat)
    requires WellFormedSymbols(scope) && Lookup(scope, name).Some? && Settles(scope, name)
    ensures ExpandToken(scope, Ref(name), fuel) != Unsettled
  {
    var vals := Lookup(scope, name).value;
    var r :| Yields(scope, Format(vals), r);
    FormatTokensRender(vals);
    RewritingIsExpansionOfTokens(scope, TokensOf(scope, name), r);
    var f: nat :| Expand(scope, FormatTokens(vals), f) == r;
    fuel := f + 1;
  }

  lemma ReachedSettles(scope: Scope, name: string, m: string, fuel: nat)
    requires Reaches(scope, name, m) && ExpandToken(scope, Ref(name), fuel) != Unsettled
    ensures fuel > 0 && ExpandToken(scope, Ref(m), fuel - 1) != Unsettled
  {
    hide Expand, FormatTokens;
    var ts := TokensOf(scope, name);
    var i: nat, f: nat :| ReachesAt(scope, name, m, i, f);
    assert Lookup(scope, name).Some?;
    var g := fuel - 1;
    assert ts == ts[..i + 1] + ts[i + 1..];
    ExpandConcat(scope, ts[..i + 1], ts[i + 1..], g);
    PrefixExpands(scope, ts, i, g);
    ExpandMore(scope, ts[..i], f, f + g);
    ExpandMore(scope, ts[..i], g, f + g);
  }

  // Each step of a way leads to a symbol that is settled with less fuel.
  lemma {:induction false} WayDescends(scope: Scope, p: seq<string>, i: nat, fuel: nat)
    requires IsWay(scope, p) && i < |p| && ExpandToken(scope, Ref(p[0]), fuel) != Unsettled
    ensures i <= fuel && ExpandToken(scope, Ref(p[i]), fuel - i) != Unsettled
    decreases i
  {
    hide Reaches, ExpandToken;
    if i > 0 {
      WayDescends(scope, p, i - 1, fuel);
      ReachedSettles(scope, p[i - 1], p[i], fuel - (i - 1));
    }
  }

  lemma WayDoesNotRepeat(scope: Scope, p: seq<string>)
    requires WellFormedSymbols(scope) && IsWay(scope, p) && forall name :: Settles(scope, name)
    ensures NoRepeat(p)
  {
    hide Settles, Reaches, WellFormedSymbols, ExpandToken;
    WayVisible(scope, p);
    forall i, j | 0 <= i < j < |p| ensures p[i] != p[j] {
      assert p[i] in Elements(p);
      var q := p[i..j + 1];
      var fuel := SettledFuel(scope, p[i]);
      var least := LeastFuel(scope, p[i], fuel);
      assert IsWay(scope, q) by {
        forall k | 0 <= k < |q| - 1 ensures Reaches(scope, q[k], q[k + 1]) {
          assert q[k] == p[i + k] && q[k + 1] == p[i + k + 1];
        }
      }
      WayDescends(scope, q, j - i, least);
    }
  }

  /** For every scope, with dangling references or not: the loop ends on every symbol exactly when no
      symbol leads back to itself through references that the expansion gets to. */
  lemma LoopEndsIffNoWayBack(scope: Scope)
    requires WellFormedSymbols(scope)
    ensures (forall name :: Settles(scope, name)) <==> NoWayBack(scope)
  {
    hide Settles, WellFormedSymbols;
    if forall name :: Settles(scope, name) {
      forall p | IsWay(scope, p) ensures NoRepeat(p) {
        WayDoesNotRepeat(scope, p);
      }
    }
    if NoWayBack(scope) {
      forall name ensures Settles(scope, name) {
        NoWayBackSettles(scope, name);
      }
    }
  }

  // ---------- Cycles of references ----------

  lemma AcyclicHasNoWayBack(scope: Scope)
    requires Acyclic(scope)
    ensures NoWayBack(scope)
  {
    forall p | IsWay(scope, p) ensures NoRepeat(p) {
      forall i | 0 <= i < |p| - 1 ensures Refers(scope, p[i], p[i + 1]) {
        assert Reaches(scope, p[i], p[i + 1]);
      }
      assert IsRefPath(scope, p);
    }
  }

  lemma {:induction false} CompleteNeverFails(scope: Scope, ts: seq<Token>, fuel: nat)
    requires Complete(scope)
    requires forall t :: t in ts ==> !t.Unclosed? && (t.Ref? ==> Lookup(scope, t.name).Some?)
    ensures Expand(scope, ts, fuel) != Failed
    decreases fuel, |ts|
  {
    if ts != [] {
      if ts[0].Ref? && fuel > 0 {
        CompleteNeverFails(scope, TokensOf(scope, ts[0].name), fuel - 1);
      }
      CompleteNeverFails(scope, ts[1..], fuel);
    }
  }

  lemma CompleteReaches(scope: Scope, name: string, m: string)
    requires WellFormedSymbols(scope) && Complete(scope) && Settles(scope, name) && Refers(scope, name, m)
    ensures Reaches(scope, name, m)
  {
    hide WellFormedSymbols, Settles, Complete, Expand, Reaches;
    var ts := TokensOf(scope, name);
    var fuel := SettledFuel(scope, name);
    CompleteParts(scope, name);
    CompleteNeverFails(scope, ts, fuel - 1);
    var i :| 0 <= i < |ts| && ts[i] == Ref(m);
    assert ts == ts[..i] + ts[i..];
    ExpandConcat(scope, ts[..i], ts[i..], fuel - 1);
    GetsTo(scope, name, m, i, fuel - 1);
  }

  lemma CompleteParts(scope: Scope, name: string)
    requires Complete(scope)
    ensures forall t :: t in TokensOf(scope, name) ==> !t.Unclosed? && (t.Ref? ==> Lookup(scope, t.name).Some?)
  {
    hide TokensOf, Lookup;
  }

  /** In a scope without dangling or unclosed references the loop ends on every symbol exactly when
      no symbol refers to itself, directly or through others. */
  lemma LoopEndsIffAcyclic(scope: Scope)
    requires WellFormedSymbols(scope) && Complete(scope)
    ensures (forall name :: Settles(scope, name)) <==> Acyclic(scope)
  {
    hide Settles, WellFormedSymbols, Complete, Reaches;
    LoopEndsIffNoWayBack(scope);
    if forall name :: Settles(scope, name) {
      forall p | IsRefPath(scope, p) ensures NoRepeat(p) {
        forall i | 0 <= i < |p| - 1 ensures Reaches(scope, p[i], p[i + 1]) {
          CompleteReaches(scope, p[i], p[i + 1]);
        }
        assert IsWay(scope, p);
      }
    }
    if Acyclic(scope) {
      AcyclicHasNoWayBack(scope);
    }
  }

  // Without cycles every token list has an expansion, of at most as many levels as there are symbols.
  lemma {:induction false} AcyclicExpands(scope: Scope, ts: seq<Token>)
    requires NoWayBack(scope)
    ensures Expand(scope, ts, |Visible(scope)|) != Unsettled
    decreases |ts|
  {
    if ts != [] {
      AcyclicExpands(scope, ts[1..]);
      if ts[0].Ref? && Lookup(scope, ts[0].name).Some? {
        var name := ts[0].name;
        var next := TokensOf(scope, name);
        assert name in Visible(scope) && IsWay(scope, [name]);
        assert |Visible(scope)| == |Visible(scope) - {name}| + 1;
        WaySettles(scope, [name], |next|, |Visible(scope)| - 1);
        assert next[..|next|] == next;
      }
    }
  }

  /** A symbol that refers to itself keeps the loop going for ever. */
  lemma {:induction false} CircularNeverEnds(n: nat)
    ensures Iterate([map["a" := ["$<a>"]]], "$<a>", n) == Unsettled
  {
    var scope: Scope := [map["a" := ["$<a>"]]];
    NextRefHere("a", "");
    SubstHere("a", "", "$<a>");
    assert RefText("a") + "" == "$<a>" && "$<a>" + "" == "$<a>";
    assert Step(scope, "$<a>") == Next("$<a>");
    if n > 0 {
      CircularNeverEnds(n - 1);
    }
  }
}
