/** For which values the loop and the recursive expansion agree whatever the symbols are: exactly
    those in which no '$' stands directly before a reference. */
module Agreement {
  import opened Wrappers
  import opened Tables
  import opened Text
  import opened Substitution

  // Closed references have names without blanks and without "$<".
  ghost predicate ProperNames(s: string) {
    forall t :: t in Tokenize(s) && t.Ref? ==> NameOk(t.name)
  }

  // The symbols that the value and other values refer to can be substituted in the middle of a text.
  ghost predicate Suits(scope: Scope, s: string) {
    WellFormedScope(scope) && Supports(scope, Tokenize(s))
  }

  ghost predicate Agrees(scope: Scope, s: string) {
    forall r :: Yields(scope, s, r) <==> Means(scope, s, r)
  }

  // ---------- A text as literals and references in turn ----------

  datatype Chain = End(text: string) | Link(lit: string, name: string, rest: Chain)

  function TextOf(c: Chain): string {
    match c case End(text) => text case Link(l, n, rest) => l + (RefText(n) + TextOf(rest))
  }

  function Names(c: Chain): set<string> {
    match c case End(_) => {} case Link(_, n, rest) => {n} + Names(rest)
  }

  function Parse(s: string): Chain
    decreases |s|
  {
    var start := FindOpen(s);
    if start == |s| then End(s)
    else
      var tail := s[start + 2..];
      var end := FindChar(tail, '>');
      if end == |tail| then End(s) else Link(s[..start], tail[..end], Parse(tail[end + 1..]))
  }

  ghost predicate ChainOk(c: Chain) {
    match c
    case End(text) => !NextRef(text).Found?
    case Link(l, n, rest) => !HasOpen(l) && NameOk(n) && ChainOk(rest)
  }

  predicate EndsInDollar(l: string) {
    l != "" && l[|l| - 1] == '$'
  }

  // A '$' stands before a reference, or q is referred to.
  predicate Hot(c: Chain, q: string) {
    c.Link? && (EndsInDollar(c.lit) || c.name == q || Hot(c.rest, q))
  }

  lemma {:induction false} ParseMatches(s: string, q: string)
    requires ProperNames(s)
    ensures TextOf(Parse(s)) == s && ChainOk(Parse(s)) && forall n :: n in Names(Parse(s)) ==> |n| < |s|
    ensures forall n :: Ref(n) in Tokenize(s) ==> n in Names(Parse(s))
    ensures WellFormed(s) || Hot(Parse(s), q)
    decreases |s|
  {
    var start := FindOpen(s);
    hide Tokenize, WellFormed, NextRef, Hot, ChainOk, TextOf;
    if start == |s| {
      NoneOpen(s);
    } else {
      var tail := s[start + 2..];
      var end := FindChar(tail, '>');
      TokensAt(s, start, tail, end);
      if end == |tail| {
        OpenTail(s, start, tail, end);
      } else {
        ParseLink(s, s[..start], tail[..end], tail[end + 1..], q);
        RefSplit(s, start, end);
        LinkText(s[..start], tail[..end], Parse(tail[end + 1..]));
      }
    }
  }

  lemma OpenTail(s: string, start: nat, tail: string, end: nat)
    requires start == FindOpen(s) < |s| && tail == s[start + 2..] && end == FindChar(tail, '>') == |tail|
    ensures ChainOk(End(s)) && TextOf(End(s)) == s && WellFormed(s)
  {
  }

  lemma NoneOpen(s: string)
    requires FindOpen(s) == |s|
    ensures ChainOk(End(s)) && TextOf(End(s)) == s && WellFormed(s) && Tokenize(s) == [Lit(s)]
  {
  }

  lemma LinkText(l: string, n: string, rest: Chain)
    ensures TextOf(Link(l, n, rest)) == l + (RefText(n) + TextOf(rest))
  {
  }

  lemma {:induction false} ParseLink(s: string, l: string, n: string, s': string, q: string)
    requires |l| + |n| + |s'| < |s| && l <= s && FindOpen(s) == |l| < |s|
    requires ProperNames(s) && Tokenize(s) == [Lit(l), Ref(n)] + Tokenize(s')
    ensures TextOf(Parse(s')) == s' && ChainOk(Link(l, n, Parse(s')))
    ensures forall m :: m in Names(Parse(s')) ==> |m| < |s|
    ensures forall m :: Ref(m) in Tokenize(s) ==> m == n || m in Names(Parse(s'))
    ensures WellFormed(s) || Hot(Link(l, n, Parse(s')), q)
    decreases |s|, 0
  {
    RestIsProper(s, l, n, s');
    ParseMatches(s', q);
    BlankTokens(s');
    forall i ensures !OpenAt(l, i) {
      assert 0 <= i < |l| - 1 ==> l[i] == s[i] && l[i + 1] == s[i + 1] && !OpenAt(s, i);
    }
    TwoBefore(l, n, Tokenize(s'));
  }

  lemma RestIsProper(s: string, l: string, n: string, s': string)
    requires ProperNames(s) && Tokenize(s) == [Lit(l), Ref(n)] + Tokenize(s')
    ensures ProperNames(s') && NameOk(n)
  {
    assert Tokenize(s)[1] == Ref(n);
    assert forall t :: t in Tokenize(s') ==> t in Tokenize(s);
  }

  lemma TwoBefore(l: string, n: string, ts: seq<Token>)
    requires !HasOpen(l) && NameOk(n) && ts != []
    ensures ValueOk(ts) && !EndsInDollar(l) ==> ValueOk([Lit(l), Ref(n)] + ts)
  {
    var all := [Lit(l), Ref(n)] + ts;
    assert all[1..] == [Ref(n)] + ts && all[1..][1..] == ts;
  }

  // ---------- Replacing a reference by "<q>" ----------

  function Quote(q: string): string {
    "<" + q + ">"
  }

  function Prepend(x: string, c: Chain): Chain {
    match c case End(text) => End(x + text) case Link(l, n, rest) => Link(x + l, n, rest)
  }

  // The chain after m is replaced by "<q>", which completes a reference where a '$' stands before m.
  function Join(c: Chain, m: string, q: string): Chain {
    match c
    case End(_) => c
    case Link(l, n, rest) =>
      var r := Join(rest, m, q);
      if n != m then Link(l, n, r)
      else if EndsInDollar(l) then Link(l[..|l| - 1], q, r)
      else Prepend(l + Quote(q), r)
  }

  lemma QuoteOk(l: string, q: string)
    requires !HasOpen(l) && !EndsInDollar(l) && NameOk(q)
    ensures LitOk(l + Quote(q))
  {
    if HasOpen(Quote(q)) {
      var i :| OpenAt(Quote(q), i);
      assert OpenAt(q, i - 1);
    }
    NoOpenConcat(l, Quote(q));
  }

  lemma PrependText(x: string, c: Chain)
    requires LitOk(x) && ChainOk(c)
    ensures TextOf(Prepend(x, c)) == x + TextOf(c) && ChainOk(Prepend(x, c))
  {
    match c
    case End(text) => NextRefSkips(x, text);
    case Link(l, n, rest) =>
      NoOpenConcat(x, l);
      ConcatAssoc(x, l, RefText(n) + TextOf(rest));
  }

  lemma DollarText(l: string, q: string, t: string)
    requires EndsInDollar(l)
    ensures l + (Quote(q) + t) == l[..|l| - 1] + (RefText(q) + t)
  {
    assert l == l[..|l| - 1] + ['$'];
    assert RefText(q) == ['$'] + Quote(q);
  }

  lemma {:induction false} JoinOk(c: Chain, m: string, q: string)
    requires ChainOk(c) && NameOk(q)
    ensures ChainOk(Join(c, m, q)) && Names(Join(c, m, q)) <= Names(c) + {q}
    decreases c
  {
    if c.Link? {
      JoinOk(c.rest, m, q);
      if c.name == m && EndsInDollar(c.lit) {
        NoOpenPrefix(c.lit, |c.lit| - 1);
      } else if c.name == m {
        QuoteOk(c.lit, q);
        PrependText(c.lit + Quote(q), Join(c.rest, m, q));
      }
    }
  }

  lemma NoOpenPrefix(l: string, k: nat)
    requires !HasOpen(l) && k <= |l|
    ensures !HasOpen(l[..k])
  {
    if HasOpen(l[..k]) {
      var i :| OpenAt(l[..k], i);
      assert OpenAt(l, i);
    }
  }

  lemma EndStays(text: string, m: string, rep: string)
    requires !NextRef(text).Found?
    ensures StrSubst(text, RefText(m), rep) == text
  {
    if NextRef(text) == NoRef {
      SubstSkips(text, "", m, rep);
      assert text + "" == text;
    } else {
      SubstUnclosed(text, m, rep);
    }
  }

  lemma {:induction false} JoinText(c: Chain, m: string, q: string)
    requires ChainOk(c) && NameOk(m) && NameOk(q)
    ensures TextOf(Join(c, m, q)) == StrSubst(TextOf(c), RefText(m), Quote(q))
    decreases c
  {
    match c
    case End(text) => EndStays(text, m, Quote(q));
    case Link(l, n, rest) =>
      JoinText(rest, m, q);
      JoinOk(rest, m, q);
      var t := TextOf(rest);
      SubstSkips(l, RefText(n) + t, m, Quote(q));
      if n != m {
        SubstOther(n, m, t, Quote(q));
      } else {
        SubstHere(m, t, Quote(q));
        if EndsInDollar(l) {
          DollarText(l, q, TextOf(Join(rest, m, q)));
        } else {
          QuoteOk(l, q);
          PrependText(l + Quote(q), Join(rest, m, q));
          ConcatAssoc(l, Quote(q), TextOf(Join(rest, m, q)));
        }
      }
  }

  lemma {:induction false} JoinHot(c: Chain, m: string, q: string)
    requires Hot(c, q) && m != q
    ensures Hot(Join(c, m, q), q)
    decreases c
  {
    if Hot(c.rest, q) {
      JoinHot(c.rest, m, q);
    }
  }

  // ---------- Symbols that keep the loop going ----------

  // Every name stands for "<q>", and q for a reference to itself.
  function Tester(names: set<string>, q: string): Scope {
    [map n | n in names + {q} :: if n == q then [RefText(q)] else [Quote(q)]]
  }

  lemma {:induction false} SubstSame(s: string, pat: string)
    requires pat != ""
    ensures StrSubst(s, pat, pat) == s
    decreases |s|
  {
    if s != "" {
      if pat <= s {
        SubstSame(s[|pat|..], pat);
        assert s == pat + s[|pat|..];
      } else {
        SubstSame(s[1..], pat);
        assert s == [s[0]] + s[1..];
      }
    }
  }

  lemma TesterStep(names: set<string>, c: Chain, q: string)
    requires c.Link? && ChainOk(c) && c.name in names + {q} && NameOk(q)
    ensures Step(Tester(names, q), TextOf(c)) == Next(if c.name == q then TextOf(c) else TextOf(Join(c, c.name, q)))
  {
    hide StrSubst, RefText, Quote;
    var t := TextOf(c.rest);
    RefTextStarts(c.name);
    NextRefSkips(c.lit, RefText(c.name) + t);
    NextRefHere(c.name, t);
    if c.name == q {
      SubstSame(TextOf(c), RefText(q));
    } else {
      JoinText(c, c.name, q);
    }
  }

  lemma RefTextStarts(name: string)
    ensures |RefText(name)| > 0 && RefText(name)[0] == '$'
  {
  }

  lemma {:induction false} NeverEnds(names: set<string>, c: Chain, q: string, n: nat)
    requires ChainOk(c) && Hot(c, q) && NameOk(q) && Names(c) <= names + {q}
    ensures Iterate(Tester(names, q), TextOf(c), n) == Unsettled
    decreases n
  {
    hide Tester, Step, Join;
    TesterStep(names, c, q);
    if n > 0 && c.name == q {
      NeverEnds(names, c, q, n - 1);
    } else if n > 0 {
      JoinOk(c, c.name, q);
      JoinHot(c, c.name, q);
      NeverEnds(names, Join(c, c.name, q), q, n - 1);
    }
  }

  lemma QuoteTokens(q: string)
    requires NameOk(q)
    ensures FormatTokens([Quote(q)]) == [Lit(Quote(q))] && TokensOk([Lit(Quote(q))])
  {
    QuoteOk("", q);
    assert "" + Quote(q) == Quote(q);
    LiteralTokens(Quote(q));
  }

  lemma SelfTokens(q: string)
    requires NameOk(q)
    ensures FormatTokens([RefText(q)]) == [Lit(""), Ref(q)] + [Lit("")] && TokensOk([Lit(""), Ref(q)] + [Lit("")])
  {
    var s := RefText(q);
    LitsOk();
    assert OpenAt(s, 0) && s[2..] == q + ">" && (q + ">")[..|q|] == q && (q + ">")[|q| + 1..] == "";
    FindCharIs(q + ">", '>', |q|);
    LiteralTokens("");
    TokensAt(s, 0, q + ">", |q|);
    assert s[..0] == "";
  }

  lemma TesterLookup(names: set<string>, q: string, n: string)
    ensures Lookup(Tester(names, q), n) ==
            if n == q then Some([RefText(q)]) else if n in names then Some([Quote(q)]) else None
  {
    assert Lookup(Tester(names, q)[1..], n) == None;
  }

  lemma TesterSuits(names: set<string>, q: string, s: string)
    requires NameOk(q) && q !in names && forall n :: Ref(n) in Tokenize(s) ==> n in names
    ensures Suits(Tester(names, q), s)
  {
    hide TokensOk, FormatTokens, Tokenize, Quote, RefText, Tester;
    QuoteTokens(q);
    SelfTokens(q);
    forall n ensures Lookup(Tester(names, q), n) ==
                     if n == q then Some([RefText(q)]) else if n in names then Some([Quote(q)]) else None
    {
      TesterLookup(names, q, n);
    }
  }

  lemma {:induction false} TesterExpands(names: set<string>, q: string, ts: seq<Token>)
    requires NameOk(q) && q !in names && forall n :: Ref(n) in ts ==> n in names
    ensures Expand(Tester(names, q), ts, 1) != Unsettled
    decreases |ts|
  {
    hide FormatTokens, Quote, RefText;
    if ts != [] {
      assert ts[0] in ts;
      TesterExpands(names, q, ts[1..]);
      QuoteTokens(q);
      ExpandOne(Tester(names, q), Lit(Quote(q)), 0);
    }
  }

  // A value with a '$' before a reference, and a scope in which the loop never ends on it although
  // its expansion does.
  lemma Disagreement(s: string) returns (scope: Scope)
    requires ProperNames(s) && !WellFormed(s)
    ensures Suits(scope, s) && !Agrees(scope, s)
  {
    var q: string := seq(|s|, _ => 'q');
    assert NameOk(q);
    ParseMatches(s, q);
    var c := Parse(s);
    var names := Names(c);
    scope := Tester(names, q);
    assert q !in names;
    hide Tester, Hot, ChainOk;
    TesterSuits(names, q, s);
    TesterExpands(names, q, Tokenize(s));
    var r := Expand(scope, Tokenize(s), 1);
    assert Means(scope, s, r);
    forall n: nat ensures Iterate(scope, s, n) != r {
      NeverEnds(names, c, q, n);
    }
    assert !Yields(scope, s, r);
  }

  /** A value whose references are properly named: the loop and the recursive expansion agree in every
      suitable scope exactly when no '$' stands directly before one of its references. */
  lemma AgreesIffWellFormed(s: string)
    requires ProperNames(s)
    ensures (forall scope :: Suits(scope, s) ==> Agrees(scope, s)) <==> WellFormed(s)
  {
    if WellFormed(s) {
      forall scope, r | Suits(scope, s) ensures Yields(scope, s, r) <==> Means(scope, s, r) {
        RewritingIsExpansion(scope, s, r);
      }
    } else {
      var scope := Disagreement(s);
    }
  }

  lemma DollarTokens()
    ensures Tokenize("$$<a>") == [Lit("$"), Ref("a")] + [Lit("")]
  {
    var s := "$$<a>";
    assert OpenAt(s, 1) && !OpenAt(s, 0) && s[1 + 2..] == "a>" && s[..1] == "$";
    assert "a>"[..1] == "a" && "a>"[1 + 1..] == "";
    FindCharIs("a>", '>', 1);
    TokensAt(s, 1, "a>", 1);
    LiteralTokens("");
  }

  lemma DollarValues()
    ensures ProperNames("$$<a>") && !WellFormed("$$<a>")
  {
    DollarTokens();
    hide Tokenize, ValueOk;
    NotOk("$", [Ref("a")] + [Lit("")]);
    assert [Lit("$")] + ([Ref("a")] + [Lit("")]) == [Lit("$"), Ref("a")] + [Lit("")];
    LitsOk();
  }

  lemma NotOk(l: string, rest: seq<Token>)
    requires EndsInDollar(l) && rest != []
    ensures !ValueOk([Lit(l)] + rest)
  {
  }

  lemma OpenDollar()
    ensures WellFormed("$$<a")
  {
    var s := "$$<a";
    assert OpenAt(s, 1) && !OpenAt(s, 0) && s[1 + 2..] == "a";
    FindCharIs("a", '>', 1);
    TokensAt(s, 1, "a", 1);
  }

  /** At a concrete value; one with '$' at its end, or with a reference left open, is no problem. */
  lemma DollarJoins()
    ensures exists scope :: Suits(scope, "$$<a>") && !Agrees(scope, "$$<a>")
    ensures WellFormed("kill $$") && WellFormed("$$<a")
  {
    DollarValues();
    OpenDollar();
    LiteralTokens("kill $$");
    hide WellFormed, Suits, Agrees;
    var scope := Disagreement("$$<a>");
  }
}
