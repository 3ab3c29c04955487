/** Symbol substitution in one value (`find_next_ref`, `resolve` and the rewrite loop of
    `kbtree_eval`): rewriting the text equals a recursive expansion under dynamic scoping. */
module Substitution {
  import opened Wrappers
  import opened Tables
  import opened Text

  // ---------- The rewrite loop, on text ----------

  datatype RefSearch = NoRef | Unterminated | Found(name: string)

  function RefText(name: string): string {
    "$<" + name + ">"
  }

  // find_next_ref: the leftmost "$<" up to the first '>' after it.
  function NextRef(src: string): RefSearch {
    var start := FindOpen(src);
    if start == |src| then NoRef
    else
      var tail := src[start + 2..];
      var end := FindChar(tail, '>');
      if end == |tail| then Unterminated else Found(tail[..end])
  }

  // The result of evaluating a value. Unsettled: no result within the bound that was given.
  datatype Outcome = Unsettled | Failed | Text(s: string)

  datatype Progress = Done(r: Outcome) | Next(s: string)

  // One pass of the loop. A name with a blank calls a builtin, which this model leaves out.
  function Step(scope: Scope, s: string): Progress {
    match NextRef(s)
    case NoRef => Done(Text(s))
    case Unterminated => Done(Failed)
    case Found(name) =>
      if ' ' in name then Done(Unsettled)
      else
        match Lookup(scope, name)
        case None => Done(Failed)
        case Some(vals) => Next(StrSubst(s, RefText(name), Format(vals)))
  }

  // At most n rewrites of s.
  function Iterate(scope: Scope, s: string, n: nat): Outcome
    decreases n
  {
    match Step(scope, s)
    case Done(r) => r
    case Next(s') => if n == 0 then Unsettled else Iterate(scope, s', n - 1)
  }

  // The loop ends on s, with this result.
  ghost predicate Yields(scope: Scope, s: string, r: Outcome) {
    r != Unsettled && exists n: nat :: Iterate(scope, s, n) == r
  }

  // ---------- Recursive expansion, on tokens ----------

  // A literal, a reference, or text whose first "$<" is never closed.
  datatype Token = Lit(text: string) | Ref(name: string) | Unclosed(text: string)

  function RenderToken(t: Token): string {
    match t case Lit(l) => l case Ref(name) => RefText(name) case Unclosed(text) => text
  }

  function Render(ts: seq<Token>): string {
    if ts == [] then "" else RenderToken(ts[0]) + Render(ts[1..])
  }

  function Tokenize(s: string): seq<Token>
    decreases |s|
  {
    var start := FindOpen(s);
    if start == |s| then [Lit(s)]
    else
      var tail := s[start + 2..];
      var end := FindChar(tail, '>');
      if end == |tail| then [Unclosed(s)]
      else [Lit(s[..start]), Ref(tail[..end])] + Tokenize(tail[end + 1..])
  }

  function ItemTokens(vals: seq<string>, i: nat): seq<Token>
    requires i <= |vals|
    decreases |vals| - i
  {
    if i == |vals| then []
    else [Lit(if i == 0 then "" else ",")] + Tokenize(vals[i] + " ") + ItemTokens(vals, i + 1)
  }

  // The tokens of Format(vals).
  function FormatTokens(vals: seq<string>): seq<Token> {
    if |vals| == 0 then []
    else if |vals| == 1 then Tokenize(vals[0])
    else [Lit("[ ")] + ItemTokens(vals, 0) + [Lit("]")]
  }

  function Then(a: Outcome, b: Outcome): Outcome {
    if a.Text? && b.Text? then Text(a.s + b.s) else if a.Text? then b else a
  }

  // The meaning of a value: each reference stands for the nearest raw definition of its
  // name, itself expanded from the same scope, nesting at most fuel deep.
  function Expand(scope: Scope, ts: seq<Token>, fuel: nat): Outcome
    decreases fuel, |ts|
  {
    if ts == [] then Text("")
    else Then(ExpandToken(scope, ts[0], fuel), Expand(scope, ts[1..], fuel))
  }

  function ExpandToken(scope: Scope, t: Token, fuel: nat): Outcome
    decreases fuel, 0
  {
    match t
    case Lit(l) => Text(l)
    case Unclosed(_) => Failed
    case Ref(name) =>
      match Lookup(scope, name)
      case None => Failed
      case Some(vals) => if fuel == 0 then Unsettled else Expand(scope, FormatTokens(vals), fuel - 1)
  }

  ghost predicate Expands(scope: Scope, ts: seq<Token>, r: Outcome) {
    r != Unsettled && exists fuel: nat :: Expand(scope, ts, fuel) == r
  }

  ghost predicate Means(scope: Scope, s: string, r: Outcome) {
    Expands(scope, Tokenize(s), r)
  }

  // ---------- Well-formed values ----------

  ghost predicate HasOpen(s: string) {
    exists i :: OpenAt(s, i)
  }

  // Text that neither contains a reference nor can become part of one at its right end.
  ghost predicate LitOk(l: string) {
    !HasOpen(l) && (l == "" || l[|l| - 1] != '$')
  }

  ghost predicate NameOk(name: string) {
    '>' !in name && ' ' !in name && !HasOpen(name)
  }

  ghost predicate TokenOk(t: Token) {
    match t case Lit(l) => LitOk(l) case Ref(name) => NameOk(name) case Unclosed(_) => false
  }

  ghost predicate TokensOk(ts: seq<Token>) {
    forall t :: t in ts ==> TokenOk(t)
  }

  // At the end of a value any text may stand that holds no closed reference.
  ghost predicate LastOk(t: Token) {
    match t
    case Lit(l) => !HasOpen(l)
    case Ref(name) => NameOk(name)
    case Unclosed(text) => NextRef(text) == Unterminated
  }

  ghost predicate ValueOk(ts: seq<Token>) {
    ts == [] || if |ts| == 1 then LastOk(ts[0]) else TokenOk(ts[0]) && ValueOk(ts[1..])
  }

  // Every closed reference of the value names a symbol, and no '$' stands directly before one.
  ghost predicate WellFormed(s: string) {
    ValueOk(Tokenize(s))
  }

  // The symbols among ts can be substituted in the middle of a text.
  ghost predicate Supports(scope: Scope, ts: seq<Token>) {
    forall m :: Ref(m) in ts && Lookup(scope, m).Some? ==> TokensOk(FormatTokens(Lookup(scope, m).value))
  }

  // That holds of every symbol that a visible value refers to. Other values may be any text.
  ghost predicate WellFormedScope(scope: Scope) {
    forall k :: Lookup(scope, k).Some? ==> Supports(scope, FormatTokens(Lookup(scope, k).value))
  }

  // ---------- Text and tokens agree ----------

  // A "$<" across the seam of l and r.
  predicate RunsTogether(l: string, r: string) {
    l != "" && r != "" && l[|l| - 1] == '$' && r[0] == '<'
  }

  lemma OpenAppend(l: string, r: string, i: int)
    requires !HasOpen(l) && !RunsTogether(l, r)
    ensures OpenAt(l + r, i) <==> OpenAt(r, i - |l|)
  {
    if 0 <= i < |l| - 1 {
      assert !OpenAt(l, i);
    }
  }

  lemma FindOpenSkips(l: string, r: string)
    requires !HasOpen(l) && !RunsTogether(l, r)
    ensures FindOpen(l + r) == |l| + FindOpen(r)
  {
    var a, b := FindOpen(l + r), FindOpen(r);
    OpenAppend(l, r, a);
    OpenAppend(l, r, |l| + b);
  }

  lemma NoOpenSuffix(l: string, k: nat)
    requires !HasOpen(l) && k <= |l|
    ensures !HasOpen(l[k..])
  {
    if HasOpen(l[k..]) {
      var i :| OpenAt(l[k..], i);
      assert OpenAt(l, i + k);
    }
  }

  lemma NoOpenConcat(a: string, b: string)
    requires !HasOpen(a) && !HasOpen(b) && !RunsTogether(a, b)
    ensures !HasOpen(a + b)
  {
    if HasOpen(a + b) {
      var i :| OpenAt(a + b, i);
      OpenAppend(a, b, i);
    }
  }

  lemma SubstAdvances(l: string, r: string, name: string, rep: string)
    requires !HasOpen(l) && l != "" && !RunsTogether(l, r)
    ensures StrSubst(l + r, RefText(name), rep) == [l[0]] + StrSubst(l[1..] + r, RefText(name), rep)
  {
    OpenAppend(l, r, 0);
    var pat := RefText(name);
    assert pat[0] == '$' && pat[1] == '<';
    assert !(pat <= l + r);
    assert (l + r)[1..] == l[1..] + r;
  }

  lemma {:induction false} SubstSkips(l: string, r: string, name: string, rep: string)
    requires !HasOpen(l) && !RunsTogether(l, r)
    ensures StrSubst(l + r, RefText(name), rep) == l + StrSubst(r, RefText(name), rep)
  {
    hide HasOpen;
    if l == "" {
      assert l + r == r;
    } else {
      SubstAdvances(l, r, name, rep);
      NoOpenSuffix(l, 1);
      SubstSkips(l[1..], r, name, rep);
      assert [l[0]] + (l[1..] + StrSubst(r, RefText(name), rep)) == l + StrSubst(r, RefText(name), rep);
    }
  }

  lemma SubstHere(name: string, r: string, rep: string)
    ensures StrSubst(RefText(name) + r, RefText(name), rep) == rep + StrSubst(r, RefText(name), rep)
  {
    assert (RefText(name) + r)[|RefText(name)|..] == r;
  }

  lemma RefTextPrefix(m: string, name: string, r: string)
    requires NameOk(m) && NameOk(name) && RefText(name) <= RefText(m) + r
    ensures m == name
  {
    var pat, s := RefText(name), RefText(m) + r;
    assert forall i :: 0 <= i < |pat| ==> pat[i] == s[i];
    assert forall i :: 0 <= i < |m| ==> m[i] != '>' && m[i] == s[i + 2];
    assert forall i :: 0 <= i < |name| ==> name[i] != '>' && name[i] == pat[i + 2];
    assert s[|m| + 2] == '>' && pat[|name| + 2] == '>';
  }

  lemma SubstOther(m: string, name: string, r: string, rep: string)
    requires NameOk(m) && NameOk(name) && m != name
    ensures StrSubst(RefText(m) + r, RefText(name), rep) == RefText(m) + StrSubst(r, RefText(name), rep)
  {
    var pat, s := RefText(name), RefText(m) + r;
    if pat <= s {
      RefTextPrefix(m, name, r);
    }
    var l := "<" + m + ">";
    if HasOpen(l) {
      var i :| OpenAt(l, i);
      assert OpenAt(m, i - 1);
    }
    assert s[1..] == l + r;
    SubstSkips(l, r, name, rep);
    assert StrSubst(s, pat, rep) == ['$'] + (l + StrSubst(r, pat, rep));
  }

  // Text without '>' holds no closed reference.
  lemma {:induction false} SubstNothing(s: string, name: string, rep: string)
    requires '>' !in s
    ensures StrSubst(s, RefText(name), rep) == s
  {
    if s != "" {
      var pat := RefText(name);
      assert pat[|pat| - 1] == '>';
      SubstNothing(s[1..], name, rep);
    }
  }

  lemma SubstUnclosed(s: string, name: string, rep: string)
    requires NextRef(s) == Unterminated
    ensures StrSubst(s, RefText(name), rep) == s
  {
    var start := FindOpen(s);
    var l, r := s[..start], s[start..];
    assert s == l + r;
    if HasOpen(l) {
      var i :| OpenAt(l, i);
      assert OpenAt(s, i);
    }
    var tail := s[start + 2..];
    assert r == "$<" + tail && '>' !in tail[..|tail|];
    SubstNothing(r, name, rep);
    SubstSkips(l, r, name, rep);
  }

  function SubstTokens(ts: seq<Token>, name: string, vs: seq<Token>): seq<Token> {
    if ts == [] then []
    else (if ts[0] == Ref(name) then vs else [ts[0]]) + SubstTokens(ts[1..], name, vs)
  }

  lemma {:induction false} RenderConcat(a: seq<Token>, b: seq<Token>)
    ensures Render(a + b) == Render(a) + Render(b)
  {
    if a == [] {
      assert a + b == b;
    } else {
      assert (a + b)[1..] == a[1..] + b;
      RenderConcat(a[1..], b);
    }
  }

  // The references of the text are those among the tokens.
  ghost predicate Fits(ts: seq<Token>) {
    ts == [] ||
    (&& Fits(ts[1..])
     && match ts[0]
        case Lit(l) => !HasOpen(l) && !RunsTogether(l, Render(ts[1..]))
        case Ref(name) => NameOk(name)
        case Unclosed(text) => NextRef(text) == Unterminated && |ts| == 1)
  }

  lemma {:induction false} ValueFits(ts: seq<Token>)
    requires ValueOk(ts)
    ensures Fits(ts)
  {
    if |ts| > 1 {
      ValueFits(ts[1..]);
    }
  }

  lemma {:induction false} RenderSubst(ts: seq<Token>, name: string, vs: seq<Token>)
    requires Fits(ts) && NameOk(name)
    ensures Render(SubstTokens(ts, name, vs)) == StrSubst(Render(ts), RefText(name), Render(vs))
  {
    if ts != [] {
      RenderSubst(ts[1..], name, vs);
      var h, rest := (if ts[0] == Ref(name) then vs else [ts[0]]), Render(ts[1..]);
      RenderConcat(h, SubstTokens(ts[1..], name, vs));
      match ts[0] {
        case Lit(l) => SubstSkips(l, rest, name, Render(vs));
        case Unclosed(text) =>
          SubstUnclosed(text, name, Render(vs));
          assert rest == "" && text + rest == text;
        case Ref(m) =>
          if m == name {
            SubstHere(name, rest, Render(vs));
          } else {
            SubstOther(m, name, rest, Render(vs));
          }
      }
    }
  }

  lemma {:induction false} SubstTokensOk(ts: seq<Token>, name: string, vs: seq<Token>)
    requires ValueOk(ts) && TokensOk(vs)
    ensures ValueOk(SubstTokens(ts, name, vs))
  {
    hide LastOk, TokenOk;
    if ts != [] {
      SubstTokensOk(ts[1..], name, vs);
      var rest := SubstTokens(ts[1..], name, vs);
      if ts[0] == Ref(name) {
        OkBefore(vs, rest);
      } else if |ts| == 1 {
        assert [ts[0]] + rest == [ts[0]];
      } else {
        assert forall t :: t in [ts[0]] ==> t == ts[0];
        OkBefore([ts[0]], rest);
      }
    }
  }

  lemma OkIsLastOk(t: Token)
    requires TokenOk(t)
    ensures LastOk(t)
  {
  }

  lemma {:induction false} OkBefore(a: seq<Token>, b: seq<Token>)
    requires TokensOk(a) && ValueOk(b)
    ensures ValueOk(a + b)
  {
    hide LastOk, TokenOk;
    if a == [] {
      assert a + b == b;
    } else {
      assert (a + b)[1..] == a[1..] + b && TokenOk(a[0]);
      OkIsLastOk(a[0]);
      OkBefore(a[1..], b);
    }
  }

  // What the search for a reference finds in a token list.
  function FirstRef(ts: seq<Token>): RefSearch {
    if ts == [] then NoRef
    else
      match ts[0]
      case Lit(_) => FirstRef(ts[1..])
      case Ref(name) => Found(name)
      case Unclosed(_) => Unterminated
  }

  lemma NextRefSkips(l: string, r: string)
    requires !HasOpen(l) && !RunsTogether(l, r)
    ensures NextRef(l + r) == NextRef(r)
  {
    FindOpenSkips(l, r);
    var i := FindOpen(r);
    if i < |r| {
      assert (l + r)[|l| + i + 2..] == r[i + 2..];
    }
  }

  lemma NextRefHere(name: string, r: string)
    requires NameOk(name)
    ensures NextRef(RefText(name) + r) == Found(name)
  {
    var s := RefText(name) + r;
    assert OpenAt(s, 0);
    var tail := s[2..];
    assert tail[..|name|] == name;
    FindCharIs(tail, '>', |name|);
  }

  lemma {:induction false} NextRefIsFirst(ts: seq<Token>)
    requires Fits(ts)
    ensures NextRef(Render(ts)) == FirstRef(ts)
  {
    if ts != [] {
      match ts[0] {
        case Lit(l) =>
          NextRefIsFirst(ts[1..]);
          NextRefSkips(l, Render(ts[1..]));
        case Ref(name) => NextRefHere(name, Render(ts[1..]));
        case Unclosed(text) => assert text + Render(ts[1..]) == text;
      }
    }
  }

  lemma RenderOne(t: Token)
    ensures Render([t]) == RenderToken(t)
  {
    assert Render([t]) == RenderToken(t) + "";
  }

  lemma RefSplit(s: string, start: nat, end: nat)
    requires OpenAt(s, start) && start + 2 + end < |s| && s[start + 2 + end] == '>'
    ensures var tail := s[start + 2..];
            s == s[..start] + (RefText(tail[..end]) + tail[end + 1..])
  {
    var tail := s[start + 2..];
    assert s[start..] == RefText(tail[..end]) + tail[end + 1..];
  }

  lemma RenderPair(l: Token, r: Token, rest: seq<Token>)
    ensures Render([l, r] + rest) == RenderToken(l) + (RenderToken(r) + Render(rest))
  {
    assert ([l, r] + rest)[1..] == [r] + rest && ([r] + rest)[1..] == rest;
  }

  lemma TokensAt(s: string, start: nat, tail: string, end: nat)
    requires start == FindOpen(s) < |s| && tail == s[start + 2..] && end == FindChar(tail, '>')
    ensures Tokenize(s) == if end == |tail| then [Unclosed(s)]
                           else [Lit(s[..start]), Ref(tail[..end])] + Tokenize(tail[end + 1..])
  {
    hide FindOpen, FindChar;
  }

  lemma OneToken(s: string, t: Token)
    requires FindOpen(s) == |s| && t == Lit(s)
    ensures Tokenize(s) == [t]
  {
  }

  lemma {:induction false} TokenizeRenders(s: string)
    ensures Render(Tokenize(s)) == s
    decreases |s|
  {
    hide Tokenize, FindOpen, FindChar, Render;
    var start := FindOpen(s);
    if start == |s| {
      OneToken(s, Lit(s));
      RenderOne(Lit(s));
    } else {
      var tail := s[start + 2..];
      var end := FindChar(tail, '>');
      TokensAt(s, start, tail, end);
      if end == |tail| {
        RenderOne(Unclosed(s));
      } else {
        TokenizeRenders(tail[end + 1..]);
        RenderPair(Lit(s[..start]), Ref(tail[..end]), Tokenize(tail[end + 1..]));
        RefSplit(s, start, end);
      }
    }
  }

  lemma LitsOk()
    ensures LitOk("") && LitOk(",") && LitOk(" ") && LitOk("[ ") && LitOk("]")
  {
  }

  lemma {:induction false} ItemTokensRender(vals: seq<string>, i: nat)
    requires i <= |vals|
    ensures Render(ItemTokens(vals, i)) == Items(vals, i)
    decreases |vals| - i
  {
    hide Tokenize;
    if i < |vals| {
      ItemTokensRender(vals, i + 1);
      var delim, v := (if i == 0 then "" else ","), vals[i] + " ";
      TokenizeRenders(v);
      RenderConcat([Lit(delim)] + Tokenize(v), ItemTokens(vals, i + 1));
      RenderConcat([Lit(delim)], Tokenize(v));
      RenderOne(Lit(delim));
      ConcatAssoc(delim, vals[i], " ");
    }
  }

  // The text of a symbol is that of its tokens, whatever its values are.
  lemma FormatTokensRender(vals: seq<string>)
    ensures Render(FormatTokens(vals)) == Format(vals)
  {
    if |vals| == 1 {
      TokenizeRenders(vals[0]);
    } else if |vals| > 1 {
      ItemTokensRender(vals, 0);
      var a, b, c := [Lit("[ ")], ItemTokens(vals, 0), [Lit("]")];
      RenderConcat(a + b, c);
      RenderConcat(a, b);
      RenderOne(Lit("[ "));
      RenderOne(Lit("]"));
    }
  }

  lemma {:induction false} LookupIn(scope: Scope, name: string)
    requires Lookup(scope, name).Some?
    ensures exists t :: t in scope && name in t && Lookup(scope, name).value == t[name]
    decreases |scope|
  {
    if name in scope[0] {
      assert scope[0] in scope;
    } else {
      LookupIn(scope[1..], name);
    }
  }

  // ---------- Rewriting equals expansion ----------

  // The rewrites a token list needs before its outcome is known.
  ghost function Cost(scope: Scope, ts: seq<Token>, fuel: nat): nat
    decreases fuel, |ts|
  {
    if ts == [] then 0
    else
      TokenCost(scope, ts[0], fuel) +
      if ExpandToken(scope, ts[0], fuel).Text? then Cost(scope, ts[1..], fuel) else 0
  }

  ghost function TokenCost(scope: Scope, t: Token, fuel: nat): nat
    decreases fuel, 0
  {
    if !t.Ref? || fuel == 0 then 0
    else
      match Lookup(scope, t.name)
      case None => 0
      case Some(vals) => 1 + Cost(scope, FormatTokens(vals), fuel - 1)
  }

  lemma {:induction false} ExpandConcat(scope: Scope, a: seq<Token>, b: seq<Token>, fuel: nat)
    ensures Expand(scope, a + b, fuel) == Then(Expand(scope, a, fuel), Expand(scope, b, fuel))
    ensures Cost(scope, a + b, fuel) ==
            Cost(scope, a, fuel) + if Expand(scope, a, fuel).Text? then Cost(scope, b, fuel) else 0
  {
    if a == [] {
      assert a + b == b;
    } else {
      assert (a + b)[1..] == a[1..] + b;
      ExpandConcat(scope, a[1..], b, fuel);
      var x, y, z := ExpandToken(scope, a[0], fuel), Expand(scope, a[1..], fuel), Expand(scope, b, fuel);
      if x.Text? && y.Text? && z.Text? {
        ConcatAssoc(x.s, y.s, z.s);
      }
    }
  }

  // More fuel changes neither a settled outcome nor its cost.
  lemma {:induction false} ExpandMore(scope: Scope, ts: seq<Token>, fuel: nat, more: nat)
    requires Expand(scope, ts, fuel) != Unsettled && fuel <= more
    ensures Expand(scope, ts, more) == Expand(scope, ts, fuel)
    ensures Cost(scope, ts, more) == Cost(scope, ts, fuel)
    decreases fuel, |ts|
  {
    if ts != [] {
      if ts[0].Ref? && Lookup(scope, ts[0].name).Some? {
        ExpandMore(scope, FormatTokens(Lookup(scope, ts[0].name).value), fuel - 1, more - 1);
      }
      if ExpandToken(scope, ts[0], fuel).Text? {
        ExpandMore(scope, ts[1..], fuel, more);
      }
    }
  }

  // Replacing a reference everywhere by its value keeps the meaning and adds no cost.
  lemma {:induction false} SubstKeepsMeaning(scope: Scope, ts: seq<Token>, name: string, fuel: nat)
    requires Lookup(scope, name).Some? && Expand(scope, ts, fuel) != Unsettled
    ensures var ts' := SubstTokens(ts, name, FormatTokens(Lookup(scope, name).value));
            && Expand(scope, ts', fuel) == Expand(scope, ts, fuel)
            && Cost(scope, ts', fuel) <= Cost(scope, ts, fuel)
            && (FirstRef(ts) == Found(name) ==> Cost(scope, ts', fuel) < Cost(scope, ts, fuel))
    decreases |ts|
  {
    if ts != [] {
      var vs := FormatTokens(Lookup(scope, name).value);
      var h := if ts[0] == Ref(name) then vs else [ts[0]];
      ExpandConcat(scope, h, SubstTokens(ts[1..], name, vs), fuel);
      if ts[0] == Ref(name) {
        ExpandMore(scope, vs, fuel - 1, fuel);
      } else {
        ExpandOne(scope, ts[0], fuel);
      }
      if ExpandToken(scope, ts[0], fuel).Text? {
        SubstKeepsMeaning(scope, ts[1..], name, fuel);
      }
    }
  }

  lemma ExpandOne(scope: Scope, t: Token, fuel: nat)
    ensures Expand(scope, [t], fuel) == ExpandToken(scope, t, fuel)
    ensures Cost(scope, [t], fuel) == TokenCost(scope, t, fuel)
  {
  }

  // And the other way round: what has a meaning after the replacement had it before.
  lemma {:induction false} SubstReflectsMeaning(scope: Scope, ts: seq<Token>, name: string, fuel: nat)
    requires Lookup(scope, name).Some?
    requires Expand(scope, SubstTokens(ts, name, FormatTokens(Lookup(scope, name).value)), fuel) != Unsettled
    ensures Expand(scope, ts, fuel + 1) ==
            Expand(scope, SubstTokens(ts, name, FormatTokens(Lookup(scope, name).value)), fuel)
    decreases |ts|
  {
    if ts != [] {
      var vs := FormatTokens(Lookup(scope, name).value);
      var h := if ts[0] == Ref(name) then vs else [ts[0]];
      ExpandConcat(scope, h, SubstTokens(ts[1..], name, vs), fuel);
      if ts[0] != Ref(name) {
        ExpandMore(scope, h, fuel, fuel + 1);
        ExpandOne(scope, ts[0], fuel);
        ExpandOne(scope, ts[0], fuel + 1);
      }
      if Expand(scope, h, fuel).Text? {
        SubstReflectsMeaning(scope, ts[1..], name, fuel);
      }
    }
  }

  lemma {:induction false} NoRefExpands(scope: Scope, ts: seq<Token>, fuel: nat)
    requires FirstRef(ts) == NoRef
    ensures Expand(scope, ts, fuel) == Text(Render(ts))
  {
    if ts != [] {
      NoRefExpands(scope, ts[1..], fuel);
    }
  }

  lemma {:induction false} FirstRefDecides(scope: Scope, ts: seq<Token>, fuel: nat)
    requires FirstRef(ts) != NoRef
    requires FirstRef(ts).Found? ==> fuel == 0 || Lookup(scope, FirstRef(ts).name) == None
    ensures Expand(scope, ts, fuel) ==
            if FirstRef(ts).Found? && Lookup(scope, FirstRef(ts).name).Some? then Unsettled else Failed
  {
    if ts[0].Lit? {
      FirstRefDecides(scope, ts[1..], fuel);
    }
  }

  lemma {:induction false} FirstRefOk(ts: seq<Token>)
    requires ValueOk(ts) && FirstRef(ts).Found?
    ensures NameOk(FirstRef(ts).name) && Ref(FirstRef(ts).name) in ts
  {
    if !ts[0].Ref? {
      FirstRefOk(ts[1..]);
    }
  }

  function Replaced(scope: Scope, ts: seq<Token>, name: string): seq<Token>
    requires Lookup(scope, name).Some?
  {
    SubstTokens(ts, name, FormatTokens(Lookup(scope, name).value))
  }

  // What the theorems about a token list ask of it and of the symbols it refers to.
  ghost predicate Substitutable(scope: Scope, ts: seq<Token>) {
    ValueOk(ts) && Supports(scope, ts) && WellFormedScope(scope)
  }

  lemma {:induction false} SubstTokensIn(ts: seq<Token>, name: string, vs: seq<Token>)
    ensures forall t :: t in SubstTokens(ts, name, vs) ==> t in ts || t in vs
  {
    if ts != [] {
      SubstTokensIn(ts[1..], name, vs);
    }
  }

  lemma ReplacedIsSubstitutable(scope: Scope, ts: seq<Token>, name: string)
    requires Substitutable(scope, ts) && Ref(name) in ts && Lookup(scope, name).Some?
    ensures Substitutable(scope, Replaced(scope, ts, name))
  {
    hide TokensOk, ValueOk;
    var vs := FormatTokens(Lookup(scope, name).value);
    SubstTokensIn(ts, name, vs);
    SubstTokensOk(ts, name, vs);
  }

  // One pass over the text of a token list is one replacement in the list.
  lemma StepOnTokens(scope: Scope, ts: seq<Token>)
    requires Substitutable(scope, ts)
    ensures Step(scope, Render(ts)) ==
            match FirstRef(ts)
            case NoRef => Done(Text(Render(ts)))
            case Unterminated => Done(Failed)
            case Found(name) =>
              if Lookup(scope, name) == None then Done(Failed) else Next(Render(Replaced(scope, ts, name)))
    ensures FirstRef(ts).Found? && Lookup(scope, FirstRef(ts).name).Some? ==>
              Substitutable(scope, Replaced(scope, ts, FirstRef(ts).name))
  {
    hide Substitutable, Fits, Render, SubstTokens, FormatTokens, StrSubst, RefText, NextRef;
    SubstitutableParts(scope, ts);
    ValueFits(ts);
    NextRefIsFirst(ts);
    if FirstRef(ts).Found? {
      var name := FirstRef(ts).name;
      FirstRefOk(ts);
      if Lookup(scope, name).Some? {
        FormatTokensRender(Lookup(scope, name).value);
        RenderSubst(ts, name, FormatTokens(Lookup(scope, name).value));
        ReplacedIsSubstitutable(scope, ts, name);
      }
    }
  }

  lemma SubstitutableParts(scope: Scope, ts: seq<Token>)
    requires Substitutable(scope, ts)
    ensures ValueOk(ts) && Supports(scope, ts) && WellFormedScope(scope)
  {
  }

  // The rewrite loop on tokens.
  function Rewrite(scope: Scope, ts: seq<Token>, n: nat): Outcome
    decreases n
  {
    match FirstRef(ts)
    case NoRef => Text(Render(ts))
    case Unterminated => Failed
    case Found(name) =>
      if Lookup(scope, name) == None then Failed
      else if n == 0 then Unsettled
      else Rewrite(scope, Replaced(scope, ts, name), n - 1)
  }

  lemma {:induction false} IterateIsRewrite(scope: Scope, ts: seq<Token>, n: nat)
    requires Substitutable(scope, ts)
    ensures Iterate(scope, Render(ts), n) == Rewrite(scope, ts, n)
    decreases n
  {
    hide Substitutable, Render, Replaced, FirstRef, Step;
    StepOnTokens(scope, ts);
    if n > 0 && FirstRef(ts).Found? && Lookup(scope, FirstRef(ts).name).Some? {
      IterateIsRewrite(scope, Replaced(scope, ts, FirstRef(ts).name), n - 1);
    }
  }

  lemma {:induction false} ExpansionIsReached(scope: Scope, ts: seq<Token>, fuel: nat, n: nat)
    requires Expand(scope, ts, fuel) != Unsettled && Cost(scope, ts, fuel) <= n
    ensures Rewrite(scope, ts, n) == Expand(scope, ts, fuel)
    decreases n
  {
    hide Expand, Lookup, FirstRef, SubstTokens;
    match FirstRef(ts)
    case NoRef => NoRefExpands(scope, ts, fuel);
    case Unterminated => FirstRefDecides(scope, ts, fuel);
    case Found(name) =>
      if Lookup(scope, name) == None {
        FirstRefDecides(scope, ts, fuel);
      } else {
        SubstKeepsMeaning(scope, ts, name, fuel);
        ExpansionIsReached(scope, Replaced(scope, ts, name), fuel, n - 1);
      }
  }

  lemma {:induction false} ReachedIsExpansion(scope: Scope, ts: seq<Token>, n: nat) returns (fuel: nat)
    requires Rewrite(scope, ts, n) != Unsettled
    ensures Expand(scope, ts, fuel) == Rewrite(scope, ts, n)
    decreases n
  {
    fuel := 0;
    match FirstRef(ts)
    case NoRef => NoRefExpands(scope, ts, fuel);
    case Unterminated => FirstRefDecides(scope, ts, fuel);
    case Found(name) =>
      if Lookup(scope, name) == None {
        FirstRefDecides(scope, ts, fuel);
      } else {
        var f := ReachedIsExpansion(scope, Replaced(scope, ts, name), n - 1);
        SubstReflectsMeaning(scope, ts, name, f);
        fuel := f + 1;
      }
  }

  lemma RewritingIsExpansionOfTokens(scope: Scope, ts: seq<Token>, r: Outcome)
    requires Substitutable(scope, ts)
    ensures Yields(scope, Render(ts), r) <==> Expands(scope, ts, r)
  {
    if Yields(scope, Render(ts), r) {
      var n: nat :| Iterate(scope, Render(ts), n) == r;
      IterateIsRewrite(scope, ts, n);
      var fuel := ReachedIsExpansion(scope, ts, n);
    }
    if Expands(scope, ts, r) {
      var fuel: nat :| Expand(scope, ts, fuel) == r;
      ExpansionIsReached(scope, ts, fuel, Cost(scope, ts, fuel));
      IterateIsRewrite(scope, ts, Cost(scope, ts, fuel));
    }
  }

  /** The rewrite loop ends with a result exactly when recursive expansion has that result;
      so the loop diverges exactly when the expansion is infinite. */
  lemma RewritingIsExpansion(scope: Scope, s: string, r: Outcome)
    requires WellFormed(s) && Supports(scope, Tokenize(s)) && WellFormedScope(scope)
    ensures Yields(scope, s, r) <==> Means(scope, s, r)
  {
    TokenizeRenders(s);
    RewritingIsExpansionOfTokens(scope, Tokenize(s), r);
  }

  lemma MeaningIsUnique(scope: Scope, s: string, r1: Outcome, r2: Outcome)
    requires Means(scope, s, r1) && Means(scope, s, r2)
    ensures r1 == r2
  {
    hide Expand, Tokenize;
    var f1: nat :| Expand(scope, Tokenize(s), f1) == r1;
    var f2: nat :| Expand(scope, Tokenize(s), f2) == r2;
    ExpandMore(scope, Tokenize(s), f1, f1 + f2);
    ExpandMore(scope, Tokenize(s), f2, f1 + f2);
  }

  lemma {:induction false} IterateMore(scope: Scope, s: string, n: nat, more: nat)
    requires Iterate(scope, s, n) != Unsettled && n <= more
    ensures Iterate(scope, s, more) == Iterate(scope, s, n)
    decreases n
  {
    hide Step;
    var p := Step(scope, s);
    if p.Next? {
      IterateMore(scope, p.s, n - 1, more - 1);
    }
  }

  lemma ResultIsUnique(scope: Scope, s: string, r1: Outcome, r2: Outcome)
    requires Yields(scope, s, r1) && Yields(scope, s, r2)
    ensures r1 == r2
  {
    hide Iterate;
    var n1: nat :| Iterate(scope, s, n1) == r1;
    var n2: nat :| Iterate(scope, s, n2) == r2;
    IterateMore(scope, s, n1, n1 + n2);
    IterateMore(scope, s, n2, n1 + n2);
  }

  /** Whatever the value and the scope are, the loop ends with a text only when no "$<" is left in it,
      and it fails only on a value that has one. */
  lemma LastStep(scope: Scope, s: string)
    ensures Step(scope, s).Done? && Step(scope, s).r.Text? ==> Step(scope, s) == Done(Text(s)) && !HasOpen(s)
    ensures !HasOpen(s) ==> Step(scope, s) == Done(Text(s))
  {
    hide FindChar, Lookup, StrSubst, Format;
  }

  lemma {:induction false} TextHasNoRef(scope: Scope, s: string, n: nat)
    ensures Iterate(scope, s, n).Text? ==> !HasOpen(Iterate(scope, s, n).s)
    ensures !HasOpen(s) ==> Iterate(scope, s, n) == Text(s)
    decreases n
  {
    hide Step, HasOpen;
    LastStep(scope, s);
    if Step(scope, s).Next? && n > 0 {
      TextHasNoRef(scope, Step(scope, s).s, n - 1);
    }
  }

  // ---------- Overwriting values by their expansions ----------

  lemma {:induction false} ExpansionIsLiteral(scope: Scope, ts: seq<Token>, fuel: nat)
    requires WellFormedScope(scope) && TokensOk(ts) && Supports(scope, ts) && Expand(scope, ts, fuel).Text?
    ensures LitOk(Expand(scope, ts, fuel).s)
    decreases fuel, |ts|
  {
    hide LitOk, NameOk, FormatTokens;
    if ts == [] {
      LitsOk();
    } else {
      assert TokenOk(ts[0]);
      TokenIsLiteral(scope, ts, fuel);
      ExpansionIsLiteral(scope, ts[1..], fuel);
      LitOkConcat(ExpandToken(scope, ts[0], fuel).s, Expand(scope, ts[1..], fuel).s);
    }
  }

  lemma LitOkConcat(a: string, b: string)
    requires LitOk(a) && LitOk(b)
    ensures LitOk(a + b)
  {
    NoOpenConcat(a, b);
  }

  lemma {:induction false} TokenIsLiteral(scope: Scope, ts: seq<Token>, fuel: nat)
    requires WellFormedScope(scope) && ts != [] && TokenOk(ts[0]) && Supports(scope, ts)
             && ExpandToken(scope, ts[0], fuel).Text?
    ensures LitOk(ExpandToken(scope, ts[0], fuel).s)
    decreases fuel, 0
  {
    if ts[0].Ref? {
      assert Ref(ts[0].name) in ts;
      ExpansionIsLiteral(scope, FormatTokens(Lookup(scope, ts[0].name).value), fuel - 1);
    }
  }

  lemma {:induction false} ExpansionHasNoRef(scope: Scope, ts: seq<Token>, fuel: nat)
    requires Substitutable(scope, ts) && Expand(scope, ts, fuel).Text?
    ensures !HasOpen(Expand(scope, ts, fuel).s)
    decreases |ts|
  {
    hide HasOpen;
    if ts == [] {
      LitsOk();
    } else if |ts| > 1 || ts[0].Ref? {
      TokenIsLiteral(scope, ts, fuel);
      ExpansionHasNoRef(scope, ts[1..], fuel);
      NoOpenConcat(ExpandToken(scope, ts[0], fuel).s, Expand(scope, ts[1..], fuel).s);
    } else {
      ExpandOne(scope, ts[0], fuel);
      assert ts == [ts[0]];
    }
  }

  lemma LiteralTokens(l: string)
    requires !HasOpen(l)
    ensures Tokenize(l) == [Lit(l)] && WellFormed(l)
    ensures forall scope, fuel: nat {:trigger Expand(scope, Tokenize(l), fuel)} ::
              Expand(scope, Tokenize(l), fuel) == Text(l)
  {
    forall scope, fuel: nat ensures Expand(scope, [Lit(l)], fuel) == Text(l) {
      ExpandOne(scope, Lit(l), fuel);
    }
  }

  // The tokens of a value with a blank after it: its last one grows.
  function Blank(ts: seq<Token>): seq<Token> {
    if ts == [] then []
    else if |ts| > 1 then [ts[0]] + Blank(ts[1..])
    else match ts[0] case Lit(l) => [Lit(l + " ")] case Unclosed(text) => [Unclosed(text + " ")] case Ref(_) => ts
  }

  ghost predicate EndsInText(ts: seq<Token>) {
    ts != [] && if |ts| == 1 then !ts[0].Ref? else EndsInText(ts[1..])
  }

  lemma BlankSearch(v: string)
    ensures var i := FindOpen(v); FindOpen(v + " ") == if i == |v| then |v| + 1 else i
  {
    var w := v + " ";
    forall i ensures OpenAt(w, i) <==> OpenAt(v, i) {
    }
    assert FindOpen(w) < |w| ==> OpenAt(v, FindOpen(w));
    assert FindOpen(v) < |v| ==> OpenAt(w, FindOpen(v));
  }

  lemma OneMore(a: Token, ts: seq<Token>)
    requires EndsInText(ts)
    ensures EndsInText([a] + ts) && Blank([a] + ts) == [a] + Blank(ts)
  {
    assert ([a] + ts)[1..] == ts;
  }

  lemma TwoMore(a: Token, b: Token, ts: seq<Token>)
    requires EndsInText(ts)
    ensures EndsInText([a, b] + ts) && Blank([a, b] + ts) == [a, b] + Blank(ts)
  {
    hide EndsInText, Blank;
    OneMore(b, ts);
    OneMore(a, [b] + ts);
    assert [a] + ([b] + ts) == [a, b] + ts && [a] + ([b] + Blank(ts)) == [a, b] + Blank(ts);
  }

  lemma OneBlank(t: Token)
    requires !t.Ref?
    ensures EndsInText([t]) && Blank([t]) == [t.(text := t.text + " ")]
  {
  }

  lemma BlankTail(tail: string)
    ensures var end, end' := FindChar(tail, '>'), FindChar(tail + " ", '>');
            && (end == |tail| <==> end' == |tail + " "|)
            && (end < |tail| ==>
                  end' == end && (tail + " ")[end + 1..] == tail[end + 1..] + " "
                  && (tail + " ")[..end] == tail[..end])
  {
    var end := FindChar(tail, '>');
    if end == |tail| {
      assert tail[..end] == tail;
      FindCharIs(tail + " ", '>', |tail| + 1);
    } else {
      assert (tail + " ")[..end] == tail[..end];
      FindCharIs(tail + " ", '>', end);
    }
  }

  lemma {:induction false} BlankTokens(v: string)
    ensures EndsInText(Tokenize(v)) && Tokenize(v + " ") == Blank(Tokenize(v))
    decreases |v|
  {
    hide Tokenize, FindOpen, FindChar, Blank, EndsInText;
    var start, w := FindOpen(v), v + " ";
    BlankSearch(v);
    if start == |v| {
      OneToken(v, Lit(v));
      OneToken(w, Lit(w));
      OneBlank(Lit(v));
    } else {
      var tail := v[start + 2..];
      var end := FindChar(tail, '>');
      assert w[start + 2..] == tail + " " && w[..start] == v[..start];
      BlankTail(tail);
      TokensAt(v, start, tail, end);
      TokensAt(w, start, tail + " ", FindChar(tail + " ", '>'));
      if end == |tail| {
        OneBlank(Unclosed(v));
      } else {
        BlankTokens(tail[end + 1..]);
        TwoMore(Lit(v[..start]), Ref(tail[..end]), Tokenize(tail[end + 1..]));
      }
    }
  }

  lemma {:induction false} BlankExpandsTokens(scope: Scope, ts: seq<Token>, fuel: nat)
    requires EndsInText(ts)
    ensures Expand(scope, Blank(ts), fuel) == Then(Expand(scope, ts, fuel), Text(" "))
    decreases |ts|
  {
    if |ts| == 1 {
      assert ts == [ts[0]] && Blank(ts) == [Blank(ts)[0]];
      ExpandOne(scope, ts[0], fuel);
      ExpandOne(scope, Blank(ts)[0], fuel);
    } else {
      BlankExpandsTokens(scope, ts[1..], fuel);
      var x, y := ExpandToken(scope, ts[0], fuel), Expand(scope, ts[1..], fuel);
      if x.Text? && y.Text? {
        ConcatAssoc(x.s, y.s, " ");
      }
    }
  }

  lemma BlankExpands(scope: Scope, v: string, fuel: nat)
    ensures Expand(scope, Tokenize(v + " "), fuel) == Then(Expand(scope, Tokenize(v), fuel), Text(" "))
  {
    BlankTokens(v);
    BlankExpandsTokens(scope, Tokenize(v), fuel);
  }

  lemma {:induction false} BlankIsOk(ts: seq<Token>)
    requires EndsInText(ts) && TokensOk(Blank(ts))
    ensures ValueOk(ts) && forall m :: Ref(m) in ts ==> Ref(m) in Blank(ts)
    decreases |ts|
  {
    assert Blank(ts)[0] in Blank(ts);
    if |ts| == 1 {
      if ts[0].Lit? {
        assert forall i :: OpenAt(ts[0].text, i) ==> OpenAt(ts[0].text + " ", i);
      }
    } else {
      hide TokenOk;
      assert forall t :: t in Blank(ts[1..]) ==> t in Blank(ts);
      BlankIsOk(ts[1..]);
    }
  }

  // A value that may stand before a blank is well formed.
  lemma BlankIsSubstitutable(scope: Scope, v: string)
    requires TokensOk(Tokenize(v + " ")) && Supports(scope, Tokenize(v + " ")) && WellFormedScope(scope)
    ensures Substitutable(scope, Tokenize(v))
  {
    hide WellFormedScope, TokensOk;
    BlankTokens(v);
    BlankIsOk(Tokenize(v));
  }

  ghost predicate ValueAdvances(scope: Scope, v: string, v': string) {
    v' == v || (Means(scope, v, Text(v')) && !HasOpen(v'))
  }

  // Some values of scope have been overwritten in scope' by their expansions in scope.
  ghost predicate Advances(scope: Scope, scope': Scope) {
    && |scope'| == |scope|
    && forall d :: 0 <= d < |scope| ==> TableAdvances(scope, scope[d], scope'[d])
  }

  ghost predicate TableAdvances(scope: Scope, t: Table, t': Table) {
    && t'.Keys == t.Keys
    && forall k :: k in t ==> ValuesAdvance(scope, t[k], t'[k])
  }

  ghost predicate ValuesAdvance(scope: Scope, vals: seq<string>, vals': seq<string>) {
    |vals'| == |vals| && forall i :: 0 <= i < |vals| ==> ValueAdvances(scope, vals[i], vals'[i])
  }

  lemma {:induction false} LookupAdvances(all: Scope, scope: Scope, scope': Scope, name: string)
    requires |scope'| == |scope|
    requires forall d :: 0 <= d < |scope| ==> TableAdvances(all, scope[d], scope'[d])
    ensures Lookup(scope, name) == None ==> Lookup(scope', name) == None
    ensures Lookup(scope, name).Some? ==>
              && Lookup(scope', name).Some?
              && ValuesAdvance(all, Lookup(scope, name).value, Lookup(scope', name).value)
    decreases |scope|
  {
    if scope != [] {
      assert TableAdvances(all, scope[0], scope'[0]);
      if name !in scope[0] {
        LookupAdvances(all, scope[1..], scope'[1..], name);
      }
    }
  }

  lemma {:induction false} ValueKeepsMeaning(scope: Scope, scope': Scope, v: string, v': string, fuel: nat)
    requires Substitutable(scope, Tokenize(v)) && Advances(scope, scope') && ValueAdvances(scope, v, v')
    requires Expand(scope, Tokenize(v), fuel) != Unsettled
    ensures Expand(scope', Tokenize(v'), fuel) == Expand(scope, Tokenize(v), fuel)
    decreases fuel, 1
  {
    hide Tokenize, Advances;
    if v' == v {
      TokensKeepMeaning(scope, scope', Tokenize(v), fuel);
    } else {
      MeaningIsUnique(scope, v, Text(v'), Expand(scope, Tokenize(v), fuel));
      LiteralTokens(v');
    }
  }

  lemma {:induction false} ItemsKeepMeaning(
    scope: Scope, scope': Scope, vals: seq<string>, vals': seq<string>, i: nat, fuel: nat)
    requires WellFormedScope(scope) && Advances(scope, scope') && ValuesAdvance(scope, vals, vals') && i <= |vals|
    requires TokensOk(ItemTokens(vals, i)) && Supports(scope, ItemTokens(vals, i))
    requires Expand(scope, ItemTokens(vals, i), fuel) != Unsettled
    ensures Expand(scope', ItemTokens(vals', i), fuel) == Expand(scope, ItemTokens(vals, i), fuel)
    decreases fuel, 2, |vals| - i
  {
    hide WellFormedScope, Advances, ValueAdvances, Tokenize, Substitutable, TokenOk;
    if i < |vals| {
      var delim, v, v' := (if i == 0 then "" else ","), vals[i] + " ", vals'[i] + " ";
      ThreeExpand(scope, delim, Tokenize(v), ItemTokens(vals, i + 1), fuel);
      ThreeExpand(scope', delim, Tokenize(v'), ItemTokens(vals', i + 1), fuel);
      BlankIsSubstitutable(scope, vals[i]);
      BlankExpands(scope, vals[i], fuel);
      BlankExpands(scope', vals'[i], fuel);
      ValueKeepsMeaning(scope, scope', vals[i], vals'[i], fuel);
      if Expand(scope, Tokenize(vals[i]), fuel).Text? {
        ItemsKeepMeaning(scope, scope', vals, vals', i + 1, fuel);
      }
    }
  }

  lemma ThreeExpand(scope: Scope, open: string, b: seq<Token>, rest: seq<Token>, fuel: nat)
    ensures Expand(scope, [Lit(open)] + b + rest, fuel) ==
            Then(Then(Text(open), Expand(scope, b, fuel)), Expand(scope, rest, fuel))
  {
    ExpandConcat(scope, [Lit(open)] + b, rest, fuel);
    ExpandConcat(scope, [Lit(open)], b, fuel);
    ExpandOne(scope, Lit(open), fuel);
  }

  lemma {:induction false} FormatKeepsMeaning(
    scope: Scope, scope': Scope, vals: seq<string>, vals': seq<string>, fuel: nat)
    requires WellFormedScope(scope) && Advances(scope, scope') && ValuesAdvance(scope, vals, vals')
    requires TokensOk(FormatTokens(vals)) && Supports(scope, FormatTokens(vals))
    requires Expand(scope, FormatTokens(vals), fuel) != Unsettled
    ensures Expand(scope', FormatTokens(vals'), fuel) == Expand(scope, FormatTokens(vals), fuel)
    decreases fuel, 3
  {
    hide WellFormedScope, Advances, ValueAdvances, Tokenize, TokenOk, ItemTokens;
    if |vals| == 1 {
      OkIsValue(FormatTokens(vals));
      ValueKeepsMeaning(scope, scope', vals[0], vals'[0], fuel);
    } else if |vals| > 1 {
      ThreeExpand(scope, "[ ", ItemTokens(vals, 0), [Lit("]")], fuel);
      ThreeExpand(scope', "[ ", ItemTokens(vals', 0), [Lit("]")], fuel);
      ExpandOne(scope, Lit("]"), fuel);
      ExpandOne(scope', Lit("]"), fuel);
      ItemsKeepMeaning(scope, scope', vals, vals', 0, fuel);
    }
  }

  lemma OkIsValue(ts: seq<Token>)
    requires TokensOk(ts)
    ensures ValueOk(ts)
  {
    OkBefore(ts, []);
    assert ts + [] == ts;
  }

  // A reference means the same whether or not values it leads to have been overwritten.
  lemma {:induction false} TokensKeepMeaning(scope: Scope, scope': Scope, ts: seq<Token>, fuel: nat)
    requires WellFormedScope(scope) && Supports(scope, ts) && Advances(scope, scope')
    requires Expand(scope, ts, fuel) != Unsettled
    ensures Expand(scope', ts, fuel) == Expand(scope, ts, fuel)
    decreases fuel, 0, |ts|
  {
    hide TokensOk, FormatTokens, ValuesAdvance, TableAdvances;
    if ts != [] {
      if ts[0].Ref? {
        var name := ts[0].name;
        assert Ref(name) in ts;
        LookupAdvances(scope, scope, scope', name);
        if Lookup(scope, name).Some? {
          FormatKeepsMeaning(scope, scope', Lookup(scope, name).value, Lookup(scope', name).value, fuel - 1);
        }
      }
      if ExpandToken(scope, ts[0], fuel).Text? {
        TokensKeepMeaning(scope, scope', ts[1..], fuel);
      }
    }
  }

  // What may stand in the middle of a text still may when it has been overwritten.
  lemma AdvancedElement(scope: Scope, v: string, v': string)
    requires WellFormedScope(scope) && ValueAdvances(scope, v, v')
    requires TokensOk(Tokenize(v)) && Supports(scope, Tokenize(v))
    ensures TokensOk(Tokenize(v'))
  {
    hide WellFormedScope, Supports, Tokenize, TokenOk;
    if v' != v {
      var fuel: nat :| Expand(scope, Tokenize(v), fuel) == Text(v');
      ExpansionIsLiteral(scope, Tokenize(v), fuel);
      LiteralTokens(v');
      LitIsOk(v');
    }
  }

  lemma LitIsOk(l: string)
    requires LitOk(l)
    ensures TokensOk([Lit(l)])
  {
  }

  // With a blank after it.
  lemma AdvancedItem(scope: Scope, v: string, v': string)
    requires WellFormedScope(scope) && ValueAdvances(scope, v, v')
    requires TokensOk(Tokenize(v + " ")) && Supports(scope, Tokenize(v + " "))
    ensures TokensOk(Tokenize(v' + " "))
  {
    hide WellFormedScope, Supports, Tokenize, TokenOk;
    if v' != v {
      var fuel: nat :| Expand(scope, Tokenize(v), fuel) == Text(v');
      BlankExpands(scope, v, fuel);
      ExpansionIsLiteral(scope, Tokenize(v + " "), fuel);
      LiteralTokens(v' + " ");
      LitIsOk(v' + " ");
    }
  }

  lemma {:induction false} AdvancedItems(scope: Scope, vals: seq<string>, vals': seq<string>, i: nat)
    requires WellFormedScope(scope) && ValuesAdvance(scope, vals, vals') && i <= |vals|
    requires TokensOk(ItemTokens(vals, i)) && Supports(scope, ItemTokens(vals, i))
    ensures TokensOk(ItemTokens(vals', i))
    decreases |vals| - i
  {
    hide WellFormedScope, ValueAdvances, Tokenize, TokenOk;
    if i < |vals| {
      AdvancedItem(scope, vals[i], vals'[i]);
      AdvancedItems(scope, vals, vals', i + 1);
      LitsOk();
      LitIsOk(if i == 0 then "" else ",");
    }
  }

  lemma AdvancedFormat(scope: Scope, vals: seq<string>, vals': seq<string>)
    requires WellFormedScope(scope) && ValuesAdvance(scope, vals, vals')
    requires TokensOk(FormatTokens(vals)) && Supports(scope, FormatTokens(vals))
    ensures TokensOk(FormatTokens(vals'))
  {
    hide WellFormedScope, ValueAdvances, Tokenize, TokenOk, ItemTokens;
    if |vals| == 1 {
      AdvancedElement(scope, vals[0], vals'[0]);
    } else if |vals| > 1 {
      AdvancedItems(scope, vals, vals', 0);
      LitsOk();
      LitIsOk("[ ");
      LitIsOk("]");
    }
  }

  // No reference is new after overwriting.
  lemma {:induction false} AdvancedItemRefs(scope: Scope, vals: seq<string>, vals': seq<string>, i: nat, m: string)
    requires ValuesAdvance(scope, vals, vals') && i <= |vals| && Ref(m) in ItemTokens(vals', i)
    ensures Ref(m) in ItemTokens(vals, i)
    decreases |vals| - i
  {
    hide Tokenize, Means;
    if i < |vals| {
      if Ref(m) in ItemTokens(vals', i + 1) {
        AdvancedItemRefs(scope, vals, vals', i + 1, m);
      } else if vals'[i] != vals[i] {
        NoOpenConcat(vals'[i], " ");
        LitsOk();
        LiteralTokens(vals'[i] + " ");
      }
    }
  }

  lemma AdvancedRefs(scope: Scope, vals: seq<string>, vals': seq<string>, m: string)
    requires ValuesAdvance(scope, vals, vals') && Ref(m) in FormatTokens(vals')
    ensures Ref(m) in FormatTokens(vals)
  {
    hide Tokenize, Means, ItemTokens;
    if |vals| == 1 {
      if vals'[0] != vals[0] {
        LiteralTokens(vals'[0]);
      }
    } else {
      AdvancedItemRefs(scope, vals, vals', 0, m);
    }
  }

  lemma AdvancedSupports(scope: Scope, scope': Scope, ts: seq<Token>)
    requires WellFormedScope(scope) && Supports(scope, ts) && Advances(scope, scope')
    ensures Supports(scope', ts)
  {
    hide TokensOk, FormatTokens, ValuesAdvance, TableAdvances;
    forall m | Ref(m) in ts && Lookup(scope', m).Some? ensures TokensOk(FormatTokens(Lookup(scope', m).value)) {
      LookupAdvances(scope, scope, scope', m);
      AdvancedFormat(scope, Lookup(scope, m).value, Lookup(scope', m).value);
    }
  }

  lemma AdvancedIsSubstitutable(scope: Scope, scope': Scope, ts: seq<Token>)
    requires Substitutable(scope, ts) && Advances(scope, scope')
    ensures Substitutable(scope', ts)
  {
    hide TokensOk, ValueOk, FormatTokens, ValuesAdvance, TableAdvances;
    AdvancedSupports(scope, scope', ts);
    forall k | Lookup(scope', k).Some? ensures Supports(scope', FormatTokens(Lookup(scope', k).value)) {
      LookupAdvances(scope, scope, scope', k);
      var vals, vals' := Lookup(scope, k).value, Lookup(scope', k).value;
      forall m | Ref(m) in FormatTokens(vals') ensures Ref(m) in FormatTokens(vals) {
        AdvancedRefs(scope, vals, vals', m);
      }
      AdvancedSupports(scope, scope', FormatTokens(vals));
    }
  }
}
