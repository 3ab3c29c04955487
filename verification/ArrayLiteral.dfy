/** The array literal `[ a, b ]`: its parser (`_parse_value`), a two-pass tokenizer, against the
    formatter, and the array helpers of `kbutil.c`. */
module ArrayLiteral {
  import opened Wrappers
  import opened Text

  // ---------- Trimming ----------

  predicate IsSpace(c: char): (b: bool)
    ensures b <==> c as int == 32 || 9 <= c as int <= 13
  {
    c == ' ' || c == '\t' || c == '\n' || c == '\U{B}' || c == '\U{C}' || c == '\r'
  }

  // ds_str_trim
  function Trim(s: string): (r: string)
    ensures |r| <= |s|
    ensures r != "" ==> !IsSpace(r[0]) && !IsSpace(r[|r| - 1])
    ensures forall c :: c in r ==> c in s
    decreases |s|
  {
    if s == "" then ""
    else if IsSpace(s[0]) then Trim(s[1..])
    else if IsSpace(s[|s| - 1]) then Trim(s[..|s| - 1])
    else s
  }

  lemma {:induction false} TrimOnce(s: string)
    ensures Trim(Trim(s)) == Trim(s)
  {
  }

  ghost predicate Blank(s: string) {
    forall c :: c in s ==> IsSpace(c)
  }

  // Only white space is taken away, and only at the ends.
  lemma {:induction false} TrimIsMiddle(s: string) returns (l: string, r: string)
    ensures s == l + Trim(s) + r && Blank(l) && Blank(r)
    decreases |s|
  {
    l, r := "", "";
    if s != "" && IsSpace(s[0]) {
      l, r := TrimIsMiddle(s[1..]);
      l := [s[0]] + l;
    } else if s != "" && IsSpace(s[|s| - 1]) {
      l, r := TrimIsMiddle(s[..|s| - 1]);
      r := r + [s[|s| - 1]];
    }
  }

  lemma TrimPadded(x: string)
    requires Trim(x) == x
    ensures Trim(x + " ") == x && Trim(" " + x + " ") == x
  {
    var y := x + " ";
    if x == "" {
      assert y[1..] == "";
    } else {
      assert y[..|y| - 1] == x;
    }
    assert (" " + x + " ")[1..] == y;
  }

  // ---------- Tokens ----------

  // strtok_r with the delimiter ",": the maximal comma-free pieces, empty ones dropped.
  function Tokens(s: string): seq<string>
    decreases |s|
  {
    if s == "" then []
    else if s[0] == ',' then Tokens(s[1..])
    else [s[..FindChar(s, ',')]] + Tokens(s[FindChar(s, ',')..])
  }

  function TrimAll(ts: seq<string>): seq<string> {
    seq(|ts|, i requires 0 <= i < |ts| => Trim(ts[i]))
  }

  // _parse_value; None where it returns NULL.
  function Parse(value: string): Option<seq<string>> {
    if value == "" || value[0] != '[' then Some([value])
    else
      var v := value[1..];
      var n := FindChar(v, ']');
      if n == |v| then None else Some(TrimAll(Tokens(v[..n])))
  }

  /** The tokens are the pieces between commas, without the empty ones. */
  lemma {:induction false} TokensArePieces(a: string, b: string)
    ensures Tokens(a + "," + b) == Tokens(a) + Tokens(b)
    ensures ',' !in a ==> Tokens(a) == if a == "" then [] else [a]
    decreases |a|
  {
    var s := a + "," + b;
    if a == "" {
      assert s[1..] == b;
    } else if a[0] == ',' {
      assert s[1..] == a[1..] + "," + b;
      TokensArePieces(a[1..], b);
    } else {
      var n := FindChar(a, ',');
      assert s[..n] == a[..n] && s[n..] == a[n..] + "," + b;
      FindCharIs(s, ',', n);
      TokensArePieces(a[n..], b);
      if n == |a| {
        assert a[n..] == "" && a[..n] == a;
      } else {
        assert a[n] in a;
      }
    }
  }

  /** A value that opens a bracket is the trimmed pieces up to the first `]`, and an error without
      one; any other value is itself. */
  lemma ParseIs(value: string, inside: string, rest: string)
    ensures value == "" || value[0] != '[' ==> Parse(value) == Some([value])
    ensures ']' !in inside ==> Parse("[" + inside) == None
    ensures ']' !in inside ==>
              var r, pieces := Parse("[" + inside + "]" + rest), Tokens(inside);
              r.Some? && |r.value| == |pieces| && forall i :: 0 <= i < |pieces| ==> r.value[i] == Trim(pieces[i])
  {
    hide Tokens, Trim;
    if ']' !in inside {
      var v, w := ("[" + inside)[1..], ("[" + inside + "]" + rest)[1..];
      assert v == inside && v[..|v|] == v;
      FindCharIs(v, ']', |v|);
      assert w[..|inside|] == inside && w[|inside|] == ']';
      FindCharIs(w, ']', |inside|);
    }
  }

  // One call of strtok_r, from the saved position.
  method StrTok(s: string, pos: nat) returns (tok: Option<string>, next: nat)
    requires pos <= |s|
    ensures pos <= next <= |s|
    ensures match tok
            case None => Tokens(s[pos..]) == []
            case Some(t) => pos < next && Tokens(s[pos..]) == [t] + Tokens(s[next..])
  {
    var start := pos;
    while start < |s| && s[start] == ','
      invariant pos <= start <= |s|
      invariant Tokens(s[pos..]) == Tokens(s[start..])
    {
      assert s[start..][1..] == s[start + 1..];
      start := start + 1;
    }
    if start == |s| {
      return None, start;
    }
    var n := FindChar(s[start..], ',');
    assert s[start..][n..] == s[start + n..];
    return Some(s[start..][..n]), start + n;
  }

  // The first pass.
  method CountTokens(s: string) returns (count: nat)
    ensures count == |Tokens(s)|
  {
    hide Tokens;
    count := 0;
    var pos, more := 0, true;
    assert s[0..] == s;
    while more
      invariant pos <= |s| && count + |Tokens(s[pos..])| == |Tokens(s)|
      invariant !more ==> Tokens(s[pos..]) == []
      decreases |s| - pos, more
    {
      var tok, next := StrTok(s, pos);
      if tok == None {
        more := false;
      } else {
        count, pos := count + 1, next;
      }
    }
  }

  lemma OneTrimmed(t: string, ts: seq<string>)
    ensures TrimAll([t] + ts) == [Trim(t)] + TrimAll(ts)
  {
  }

  // The second pass.
  method FillTokens(s: string, a: array<string>)
    requires a.Length == |Tokens(s)|
    modifies a
    ensures a[..] == TrimAll(Tokens(s))
  {
    hide Tokens, Trim;
    var i, pos, more := 0, 0, true;
    assert s[0..] == s;
    while more
      invariant pos <= |s| && i + |Tokens(s[pos..])| == a.Length
      invariant a[..i] + TrimAll(Tokens(s[pos..])) == TrimAll(Tokens(s))
      invariant !more ==> i == a.Length
      decreases |s| - pos, more
    {
      var tok, next := StrTok(s, pos);
      if tok == None {
        more := false;
      } else {
        OneTrimmed(tok.value, Tokens(s[next..]));
        ghost var before := a[..i];
        a[i] := Trim(tok.value);
        assert a[..i + 1] == before + [Trim(tok.value)];
        i, pos := i + 1, next;
      }
    }
    assert a[..] == a[..i];
  }

  // The second pass fills exactly the array that the first pass sized.
  method ParseValue(value: string) returns (ret: Option<array<string>>)
    ensures match Parse(value)
            case None => ret == None
            case Some(vals) => ret.Some? && fresh(ret.value) && ret.value[..] == vals
  {
    hide Tokens, Trim;
    if value == "" || value[0] != '[' {
      var one := new string[1][value];
      return Some(one);
    }
    var v := value[1..];
    var end := FindChar(v, ']');
    if end == |v| {
      return None;
    }
    var count := CountTokens(v[..end]);
    var a := new string[count](_ => "");
    FillTokens(v[..end], a);
    return Some(a);
  }

  // kbutil_strarray_copy
  method CopyArray(src: array<string>) returns (dst: array<string>)
    ensures fresh(dst) && dst[..] == src[..]
  {
    dst := new string[src.Length](_ => "");
    for i := 0 to src.Length
      invariant dst[..i] == src[..i]
    {
      dst[i] := src[i];
    }
  }

  // kbutil_strarray_append: reallocation moves the strings to a longer array.
  method AppendArray(src: array<string>, s: string) returns (dst: array<string>)
    ensures fresh(dst) && dst[..] == src[..] + [s]
  {
    dst := new string[src.Length + 1](_ => "");
    for i := 0 to src.Length
      invariant dst[..i] == src[..i]
    {
      dst[i] := src[i];
    }
    dst[src.Length] := s;
  }

  // ---------- Round trip ----------

  // An element that survives formatting and parsing among others.
  ghost predicate CleanElement(x: string) {
    Trim(x) == x && ',' !in x && ']' !in x
  }

  lemma TokenThen(x: string, r: string)
    requires x != "" && ',' !in x && (r != "" ==> r[0] == ',')
    ensures Tokens(x + r) == [x] + Tokens(r)
  {
    var s := x + r;
    assert s[..|x|] == x && s[|x|..] == r;
    FindCharIs(s, ',', |x|);
    assert s[0] in x;
  }

  lemma TokenTrimmed(t: string, x: string, rest: string)
    requires t != "" && ',' !in t && Trim(t) == x && (rest != "" ==> rest[0] == ',')
    ensures TrimAll(Tokens(t + rest)) == [x] + TrimAll(Tokens(rest))
  {
    TokenThen(t, rest);
  }

  lemma CommaItem(x: string, rest: string)
    requires CleanElement(x) && (rest != "" ==> rest[0] == ',')
    ensures TrimAll(Tokens(Item(",", x) + rest)) == [x] + TrimAll(Tokens(rest))
  {
    var s, t := Item(",", x) + rest, x + " ";
    assert s[1..] == t + rest;
    TrimPadded(x);
    TokenTrimmed(t, x, rest);
  }

  lemma {:induction false} TokensOfItems(xs: seq<string>, i: nat)
    requires 1 <= i <= |xs| && forall x :: x in xs ==> CleanElement(x)
    ensures TrimAll(Tokens(Items(xs, i))) == xs[i..]
    ensures ']' !in Items(xs, i) && (i < |xs| ==> Items(xs, i)[0] == ',')
    decreases |xs| - i
  {
    if i < |xs| {
      TokensOfItems(xs, i + 1);
      assert xs[i] in xs;
      CommaItem(xs[i], Items(xs, i + 1));
    }
  }

  lemma {:induction false} TokensAreClean(s: string, t: string)
    requires t in Tokens(s)
    ensures ',' !in t && |t| <= |s| && forall c :: c in t ==> c in s
    decreases |s|
  {
    if s[0] == ',' {
      TokensAreClean(s[1..], t);
    } else if t != s[..FindChar(s, ',')] {
      TokensAreClean(s[FindChar(s, ',')..], t);
    }
  }

  // What a literal in brackets parses to: clean elements, each shorter than the literal.
  lemma ParsedIsClean(value: string)
    requires value != "" && value[0] == '[' && Parse(value).Some?
    ensures forall x :: x in Parse(value).value ==> CleanElement(x) && |x| < |value|
  {
    var v := value[1..];
    var s := v[..FindChar(v, ']')];
    forall x | x in Parse(value).value ensures CleanElement(x) && |x| < |value| {
      var i :| 0 <= i < |Tokens(s)| && TrimAll(Tokens(s))[i] == x;
      TokensAreClean(s, Tokens(s)[i]);
      TrimOnce(Tokens(s)[i]);
    }
  }

  lemma ManyRoundTrip(xs: seq<string>)
    requires |xs| >= 2 && forall x :: x in xs ==> CleanElement(x)
    ensures Parse(Format(xs)) == Some(xs)
  {
    TokensOfItems(xs, 1);
    assert xs[0] in xs;
    FirstItem(xs[0], Items(xs, 1));
    assert xs == [xs[0]] + xs[1..];
  }

  lemma ParseBracketed(s: string)
    requires ']' !in s
    ensures Parse("[" + s + "]") == Some(TrimAll(Tokens(s)))
  {
    var v := ("[" + s + "]")[1..];
    assert v[..|s|] == s;
    FindCharIs(v, ']', |s|);
  }

  lemma FirstItem(x: string, rest: string)
    requires CleanElement(x) && ']' !in rest && (rest != "" ==> rest[0] == ',')
    ensures Parse("[ " + (Item("", x) + rest) + "]") == Some([x] + TrimAll(Tokens(rest)))
  {
    var t := " " + x + " ";
    TrimPadded(x);
    TokenTrimmed(t, x, rest);
    ParseBracketed(t + rest);
    FirstItemText(x, rest);
  }

  lemma FirstItemText(x: string, rest: string)
    ensures "[ " + (Item("", x) + rest) + "]" == "[" + ((" " + x + " ") + rest) + "]"
  {
  }

  /** Parsing the formatted form of a list returns the list exactly when it has one element that
      does not open a bracket, or several that are trimmed and free of `,` and `]`. */
  lemma FormatParsesBack(xs: seq<string>)
    ensures Parse(Format(xs)) == Some(xs) <==>
            if |xs| == 1 then xs[0] == "" || xs[0][0] != '['
            else |xs| >= 2 && forall x :: x in xs ==> CleanElement(x)
  {
    var f := Format(xs);
    if |xs| >= 2 && forall x :: x in xs ==> CleanElement(x) {
      ManyRoundTrip(xs);
    } else if |xs| >= 2 {
      assert f[0] == '[';
      if Parse(f) == Some(xs) {
        ParsedIsClean(f);
      }
    } else if |xs| == 1 {
      assert xs == [f];
      if f != "" && f[0] == '[' && Parse(f).Some? {
        ParsedIsClean(f);
        assert f in xs;
      }
    }
  }
}
