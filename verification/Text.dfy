/** The C string calls the engine makes (`strstr`, `strchr`, replace-all) and the text of an
    array of values, `kbutil_strarray_format`. */
module Text {

  predicate OpenAt(s: string, i: int) {
    0 <= i && i + 1 < |s| && s[i] == '$' && s[i + 1] == '<'
  }

  // strstr (s, "$<"): the first index where a reference opens, or |s| when there is none.
  function FindOpen(s: string): (r: nat)
    ensures r <= |s|
    ensures forall i :: 0 <= i < r ==> !OpenAt(s, i)
    ensures r < |s| ==> OpenAt(s, r)
  {
    if |s| < 2 then |s|
    else if OpenAt(s, 0) then 0
    else
      assert forall i :: 0 < i ==> OpenAt(s, i) == OpenAt(s[1..], i - 1);
      1 + FindOpen(s[1..])
  }

  // strchr (s, c): the first index of c, or |s| when there is none.
  function FindChar(s: string, c: char): (r: nat)
    ensures r <= |s|
    ensures c !in s[..r]
    ensures r < |s| ==> s[r] == c
  {
    if s == "" then 0
    else if s[0] == c then 0
    else
      assert s[..1 + FindChar(s[1..], c)] == [s[0]] + s[1..][..FindChar(s[1..], c)];
      1 + FindChar(s[1..], c)
  }

  lemma FindCharIs(s: string, c: char, i: nat)
    requires i <= |s| && c !in s[..i] && (i < |s| ==> s[i] == c)
    ensures FindChar(s, c) == i
  {
    var r := FindChar(s, c);
    assert forall k :: 0 <= k < i ==> s[..i][k] != c;
    assert forall k :: 0 <= k < r ==> s[..r][k] != c;
  }

  // ds_str_strsubst: every occurrence of pat, left to right, in the original text.
  function StrSubst(s: string, pat: string, rep: string): string
    requires pat != ""
  {
    if s == "" then ""
    else if pat <= s then rep + StrSubst(s[|pat|..], pat, rep)
    else [s[0]] + StrSubst(s[1..], pat, rep)
  }

  // One element as the formatting loop writes it.
  function Item(delim: string, value: string): string {
    delim + value + " "
  }

  // The elements from index i on, as the formatting loop writes them.
  function Items(vals: seq<string>, i: nat): string
    requires i <= |vals|
    decreases |vals| - i
  {
    if i == |vals| then "" else Item(if i == 0 then "" else ",", vals[i]) + Items(vals, i + 1)
  }

  lemma ConcatAssoc<T>(a: seq<T>, b: seq<T>, c: seq<T>)
    ensures (a + b) + c == a + (b + c)
  {
  }

  // What a reference to an array of values is replaced by.
  function Format(vals: seq<string>): string {
    if |vals| == 0 then ""
    else if |vals| == 1 then vals[0]
    else "[ " + Items(vals, 0) + "]"
  }

  lemma {:induction false} ItemsGrow(vals: seq<string>, v: string, i: nat)
    requires 0 < |vals| && i <= |vals|
    ensures Items(vals + [v], i) == Items(vals, i) + ("," + v + " ")
    decreases |vals| - i
  {
    if i < |vals| {
      ItemsGrow(vals, v, i + 1);
      ConcatAssoc(Item(if i == 0 then "" else ",", vals[i]), Items(vals, i + 1), "," + v + " ");
    } else {
      assert Items(vals + [v], i + 1) == "" && Items(vals, i) == "";
    }
  }

  /** The text of an array, one more value at a time: `[ a ,b ,c ]`. */
  lemma FormatIs(vals: seq<string>, v: string)
    ensures Format([]) == "" && Format([v]) == v
    ensures |vals| == 1 ==> Format(vals + [v]) == "[ " + (vals[0] + " " + ("," + v + " ")) + "]"
    ensures |vals| >= 2 ==>
              var f := Format(vals); f != "" && Format(vals + [v]) == f[..|f| - 1] + ("," + v + " ") + "]"
  {
    if |vals| > 0 {
      ItemsGrow(vals, v, 0);
      OneMore(Items(vals, 0), "," + v + " ");
    }
    if |vals| == 1 {
      assert Items(vals, 1) == "" && Items(vals, 0) == vals[0] + " ";
    }
  }

  lemma OneMore(items: string, item: string)
    ensures var f := "[ " + items + "]"; "[ " + (items + item) + "]" == f[..|f| - 1] + item + "]"
  {
  }

  method FormatArray(vals: seq<string>) returns (ret: string)
    ensures ret == Format(vals)
  {
    if |vals| == 0 {
      return "";
    }
    if |vals| == 1 {
      return vals[0];
    }
    ret := "[ ";
    var delim := "";
    for i := 0 to |vals|
      invariant delim == if i == 0 then "" else ","
      invariant ret + Items(vals, i) == "[ " + Items(vals, 0)
    {
      ConcatAssoc(ret, Item(delim, vals[i]), Items(vals, i + 1));
      ret := ret + Item(delim, vals[i]);
      delim := ",";
    }
    assert ret + Items(vals, |vals|) == ret;
    ret := ret + "]";
  }
}
