/** The symbol table of a node (`kbsym.c`): keys map to arrays of strings that are updated in
    place, and the table refines a fold over plain maps. */
module SymbolTable {
  import opened Wrappers
  import opened Tables
  import opened Text
  import opened ArrayLiteral

  // ---------- Keys ----------

  datatype KeyType = BadKey | IndexKey(i: nat) | ArrayKey | CountKey | ConcatKey | FormatKey

  predicate IsDigit(c: char) {
    '0' <= c <= '9'
  }

  // sscanf (s, "%zu"), where s starts with a digit.
  function LeadingNumber(s: string, value: nat): nat {
    if s == "" || !IsDigit(s[0]) then value
    else LeadingNumber(s[1..], 10 * value + (s[0] as int - '0' as int))
  }

  function DetectKeyType(key: string): KeyType {
    var start := FindChar(key, '[');
    if start == |key| then IndexKey(0)
    else
      var rest := key[start + 1..];
      var end := FindChar(rest, ']');
      if end == |rest| then BadKey
      else if rest[0] == ']' then ArrayKey
      else if rest[0] == '#' then CountKey
      else if rest[0] == '*' then ConcatKey
      else if rest[0] == '@' then FormatKey
      else if IsDigit(rest[0]) then IndexKey(LeadingNumber(rest[..end], 0))
      else BadKey
  }

  // The key without its brackets.
  function NameOf(key: string): (name: string)
    ensures '[' !in name
  {
    key[..FindChar(key, '[')]
  }

  // detect_keyclass says keyclass_RO.
  predicate ReadOnly(name: string) {
    name != "" && name[0] == '_'
  }

  // ---------- What the operations do to a plain map; None when they refuse ----------

  function SetIn(t: Table, force: bool, key: string, value: string): Option<Table> {
    var name := NameOf(key);
    if !force && ReadOnly(name) then None
    else
      match Parse(value)
      case None => None
      case Some(vals) =>
        if key !in t then Some(t[name := vals])
        else if |t[key]| == 0 || |vals| > 1 then None
        else Some(t[key := t[key][0 := if vals == [] then "" else vals[0]]])
  }

  function AppendIn(t: Table, force: bool, key: string, value: string): Option<Table>
    requires AppendDefined(t, key)
  {
    var name, kt := NameOf(key), DetectKeyType(key);
    var existing := GetAll(t, name);
    if !force && ReadOnly(name) then None
    else
      match kt
      case ArrayKey => Some(t[name := existing + [value]])
      case IndexKey(i) =>
        if existing == [] then Some(t[name := ["" + " " + value]])
        else if i >= |existing| then None
        else Some(t[name := existing[i := existing[i] + " " + value]])
      case _ => None
  }

  // Appending at an index above 0 to a symbol without values reads past its new array.
  predicate AppendDefined(t: Table, key: string) {
    var kt := DetectKeyType(key);
    kt.IndexKey? && GetAll(t, NameOf(key)) == [] ==> kt.i == 0
  }

  datatype Op = SetOp(key: string, value: string) | AppendOp(key: string, value: string)

  // An unforced operation, refused or not.
  function Apply(t: Table, op: Op): Table
    requires op.AppendOp? ==> AppendDefined(t, op.key)
  {
    var r := match op case SetOp(k, v) => SetIn(t, false, k, v) case AppendOp(k, v) => AppendIn(t, false, k, v);
    if r == None then t else r.value
  }

  predicate Defined(t: Table, ops: seq<Op>)
    decreases |ops|
  {
    ops != [] ==> (ops[0].AppendOp? ==> AppendDefined(t, ops[0].key)) && Defined(Apply(t, ops[0]), ops[1..])
  }

  function ApplyAll(t: Table, ops: seq<Op>): Table
    requires Defined(t, ops)
    decreases |ops|
  {
    if ops == [] then t else ApplyAll(Apply(t, ops[0]), ops[1..])
  }

  // ---------- The table itself ----------

  class SymTab {
    var table: map<string, array<string>>

    // Each key has an array of its own.
    ghost predicate Valid()
      reads this
    {
      forall j, k :: j in table && k in table && j != k ==> table[j] != table[k]
    }

    ghost function View(): Table
      reads this, table.Values
    {
      map k | k in table :: table[k][..]
    }

    // kbsymtab_get
    function GetStrings(key: string): (s: seq<string>)
      reads this, table.Values
      ensures s == GetAll(View(), key)
      ensures s == if key in View() then View()[key] else []
    {
      if key in table then table[key][..] else []
    }

    // kbsymtab_get_string
    function GetString(key: string): (s: string)
      reads this, table.Values
      ensures s == GetFirst(View(), key)
      ensures s == if key in View() && View()[key] != [] then View()[key][0] else ""
    {
      if key in table && table[key].Length > 0 then table[key][0] else ""
    }

    // kbnode_get_srcdef: whether file, line and ID are there.
    predicate KnowsSource(): (b: bool)
      reads this, table.Values
      ensures b == HasSrcDef(View())
      ensures b <==> forall k :: k in ["_FILENAME", "_LINE", "ID"] ==> k in View() && View()[k] != []
    {
      GetStrings(KEY_FNAME) != [] && GetStrings(KEY_LINE) != [] && GetStrings(KEY_ID) != []
    }

    constructor ()
      ensures Valid() && table == map[] && View() == map[]
    {
      table := map[];
    }

    // ds_hmap_set_str_ptr
    method Put(name: string, values: array<string>)
      requires Valid() && values !in table.Values
      modifies this
      ensures Valid() && table == old(table)[name := values]
      ensures table.Values <= old(table.Values) + {values}
      ensures View() == old(View())[name := values[..]]
    {
      assert forall k :: k in table ==> table[k] in table.Values;
      table := table[name := values];
    }

    // The string at an index is replaced in place.
    method Poke(name: string, i: nat, s: string)
      requires Valid() && name in table && i < table[name].Length
      modifies table[name]
      ensures View() == old(View())[name := old(View())[name][i := s]]
    {
      table[name][i] := s;
      assert table[name][..] == old(table[name][..])[i := s];
    }

    // kbsymtab_set
    method Set(force: bool, key: string, value: string) returns (ok: bool)
      requires Valid()
      modifies this, table.Values
      ensures Valid() && fresh(table.Values - old(table.Values))
      ensures ok == SetIn(old(View()), force, key, value).Some?
      ensures View() == if ok then SetIn(old(View()), force, key, value).value else old(View())
    {
      var name := NameOf(key);
      if !force && ReadOnly(name) {
        return false;
      }
      FindCharIs(name, '[', |name|);
      assert DetectKeyType(name) == IndexKey(0);
      var varray := ParseValue(value);
      if varray == None {
        return false;
      }
      if key !in table {
        Put(name, varray.value);
        return true;
      }
      var existing := table[key];
      if existing.Length == 0 || varray.value.Length > 1 {
        return false;
      }
      Poke(key, 0, if varray.value.Length == 0 then "" else varray.value[0]);
      return true;
    }

    lemma ViewOf(name: string)
      ensures name in table <==> name in View()
      ensures name in table ==> View()[name] == table[name][..]
    {
    }

    // Text is added to the string at an index; a symbol without values first gets an empty one.
    method AppendAt(name: string, i: nat, value: string)
      requires Valid() && i < (if GetAll(View(), name) == [] then 1 else |GetAll(View(), name)|)
      modifies this, table.Values
      ensures Valid() && fresh(table.Values - old(table.Values))
      ensures var existing := GetAll(old(View()), name);
              View() == old(View())[name := if existing == [] then ["" + " " + value]
                                            else existing[i := existing[i] + " " + value]]
    {
      hide View;
      ViewOf(name);
      if name !in table || table[name].Length == 0 {
        ghost var before := View();
        var existing := new string[1][""];
        Put(name, existing);
        ViewOf(name);
        assert existing[..] == [""] && [""][0 := "" + " " + value] == ["" + " " + value];
        Poke(name, 0, table[name][0] + " " + value);
        assert View() == before[name := ["" + " " + value]];
      } else {
        Poke(name, i, table[name][i] + " " + value);
      }
    }

    // A value is added at the end of the array, which moves.
    method AppendLast(name: string, value: string)
      requires Valid()
      modifies this
      ensures Valid() && fresh(table.Values - old(table.Values))
      ensures View() == old(View())[name := GetAll(old(View()), name) + [value]]
    {
      var existing: array<string>;
      if name in table {
        existing := table[name];
      } else {
        existing := new string[0];
      }
      assert existing[..] == GetAll(View(), name);
      existing := AppendArray(existing, value);
      Put(name, existing);
    }

    // kbsymtab_append
    method Append(force: bool, key: string, value: string) returns (ok: bool)
      requires Valid() && AppendDefined(View(), key)
      modifies this, table.Values
      ensures Valid() && fresh(table.Values - old(table.Values))
      ensures ok == AppendIn(old(View()), force, key, value).Some?
      ensures View() == if ok then AppendIn(old(View()), force, key, value).value else old(View())
    {
      var name, kt := NameOf(key), DetectKeyType(key);
      if !force && ReadOnly(name) {
        return false;
      }
      if !kt.IndexKey? && !kt.ArrayKey? {
        return false;
      }
      var nexisting := if name in table then table[name].Length else 0;
      assert nexisting == |GetAll(View(), name)|;
      if kt.IndexKey? && nexisting > 0 && kt.i >= nexisting {
        return false;
      }
      if kt.ArrayKey? {
        AppendLast(name, value);
      } else {
        AppendAt(name, kt.i, value);
      }
      return true;
    }

    // The assignments and appends of an input file, in order.
    method ApplyOps(ops: seq<Op>)
      requires Valid() && Defined(View(), ops)
      modifies this, table.Values
      ensures Valid() && View() == ApplyAll(old(View()), ops)
    {
      for i := 0 to |ops|
        invariant Valid() && fresh(table.Values - old(table.Values))
        invariant Defined(View(), ops[i..]) && ApplyAll(View(), ops[i..]) == ApplyAll(old(View()), ops)
      {
        assert ops[i..][1..] == ops[i + 1..];
        var ok;
        match ops[i] {
          case SetOp(key, value) => ok := Set(false, key, value);
          case AppendOp(key, value) => ok := Append(false, key, value);
        }
      }
    }

    // kbnode_set_single. An index equal to the number of values would overwrite the end marker.
    method SetSingle(key: string, index: nat, newvalue: string) returns (ok: bool)
      requires Valid() && index != |GetAll(View(), key)|
      modifies if key in table then {table[key]} else {}
      ensures ok == (index < |GetAll(old(View()), key)|)
      ensures View() == if ok then old(View())[key := old(View())[key][index := newvalue]] else old(View())
    {
      if key !in table || table[key].Length == 0 || index > table[key].Length {
        return false;
      }
      Poke(key, index, newvalue);
      return true;
    }

    // kbsymtab_copy: null when there is no key to copy. The keys come in any order.
    method Copy() returns (ret: SymTab?)
      requires Valid()
      ensures ret == null <==> View() == map[]
      ensures ret != null ==> fresh(ret) && fresh(ret.table.Values) && ret.Valid() && ret.View() == View()
    {
      if table == map[] {
        return null;
      }
      hide GetStrings, GetString, KnowsSource;
      var dst := new SymTab();
      assert table.Keys != {};
      ghost var some :| some in table.Keys;
      var todo := table.Keys;
      while todo != {}
        invariant todo <= table.Keys && fresh(dst) && dst.Valid()
        invariant dst.table.Keys == table.Keys - todo
        invariant forall k :: k in dst.table ==> fresh(dst.table[k]) && dst.table[k][..] == table[k][..]
        decreases todo
      {
        var k :| k in todo;
        var copy := CopyArray(table[k]);
        dst.Put(k, copy);
        todo := todo - {k};
      }
      assert some in dst.View();
      return dst;
    }
  }

  // ---------- Any sequence of operations ----------

  ghost predicate NoBrackets(t: Table) {
    forall k :: k in t ==> '[' !in k
  }

  // One operation changes at most the symbol it names, which is not a read-only one.
  lemma ApplyTouchesOne(t: Table, op: Op)
    requires NoBrackets(t) && (op.AppendOp? ==> AppendDefined(t, op.key))
    ensures var t' := Apply(t, op);
            && NoBrackets(t')
            && (forall k :: k in t && k != NameOf(op.key) ==> k in t' && t'[k] == t[k])
            && (forall k :: k in t' && k !in t ==> k == NameOf(op.key))
            && (op.key != "" && op.key[0] == '_' ==> t' == t)
  {
  }

  // The operations take effect in order; one that is refused changes nothing.
  lemma {:induction false} OpsInOrder(t: Table, a: seq<Op>, b: seq<Op>)
    requires Defined(t, a + b)
    ensures Defined(t, a) && Defined(ApplyAll(t, a), b) && ApplyAll(t, a + b) == ApplyAll(ApplyAll(t, a), b)
    ensures |a| == 1 ==>
              var r := match a[0]
                       case SetOp(key, value) => SetIn(t, false, key, value)
                       case AppendOp(key, value) => AppendIn(t, false, key, value);
              ApplyAll(t, a) == if r.Some? then r.value else t
    decreases |a|
  {
    hide SetIn, AppendIn, AppendDefined;
    if a == [] {
      assert a + b == b;
    } else {
      assert (a + b)[1..] == a[1..] + b;
      OpsInOrder(Apply(t, a[0]), a[1..], b);
    }
  }

  /** Whatever a file assigns and appends, no key with a bracket is ever stored and no read-only
      symbol appears, disappears or changes. */
  lemma {:induction false} ReadOnlySymbolsStay(t: Table, ops: seq<Op>)
    requires NoBrackets(t) && Defined(t, ops)
    ensures var t' := ApplyAll(t, ops);
            && NoBrackets(t')
            && forall k :: k != "" && k[0] == '_' ==> (k in t <==> k in t') && (k in t ==> t'[k] == t[k])
    decreases |ops|
  {
    if ops != [] {
      ApplyTouchesOne(t, ops[0]);
      ReadOnlySymbolsStay(Apply(t, ops[0]), ops[1..]);
    }
  }

  lemma KeyIs(name: string, rest: string)
    requires '[' !in name
    ensures var key := name + "[" + rest;
            && FindChar(key, '[') == |name| && NameOf(key) == name && NameOf(name) == name
            && key[|name| + 1..] == rest && '[' in key
  {
    var key := name + "[" + rest;
    assert key[..|name|] == name && key[|name|] == '[';
    FindCharIs(key, '[', |name|);
  }

  lemma FindCharInside(s: string, c: char)
    ensures FindChar(s, c) == |s| <==> c !in s
  {
    assert s[..|s|] == s;
  }

  ghost predicate Digits(s: string) {
    s != "" && forall c :: c in s ==> '0' <= c <= '9'
  }

  /** How keys are written: a plain name is the first element; what stands after the bracket tells
      the other forms, which need a closing bracket. */
  lemma KeyForms(name: string, rest: string)
    requires '[' !in name
    ensures NameOf(name + "[" + rest) == NameOf(name) == name && DetectKeyType(name) == IndexKey(0)
    ensures ']' !in rest ==> DetectKeyType(name + "[" + rest) == BadKey
    ensures ']' in rest ==>
              match DetectKeyType(name + "[" + rest)
              case ArrayKey => rest[0] == ']'
              case CountKey => rest[0] == '#'
              case ConcatKey => rest[0] == '*'
              case FormatKey => rest[0] == '@'
              case IndexKey(_) => '0' <= rest[0] <= '9'
              case BadKey => rest[0] !in {']', '#', '*', '@'} && !('0' <= rest[0] <= '9')
  {
    hide LeadingNumber;
    KeyIs(name, rest);
    FindCharIs(name, '[', |name|);
    FindCharInside(rest, ']');
  }

  // A number ends before the first character that is no digit.
  lemma {:induction false} LeadingStops(digits: string, rest: string, value: nat)
    requires (forall c :: c in digits ==> '0' <= c <= '9') && (rest != "" ==> !('0' <= rest[0] <= '9'))
    ensures LeadingNumber(digits + rest, value) == LeadingNumber(digits, value)
    decreases |digits|
  {
    if digits == "" {
      assert digits + rest == rest;
    } else {
      assert (digits + rest)[1..] == digits[1..] + rest && digits[0] in digits;
      assert forall c :: c in digits[1..] ==> c in digits;
      LeadingStops(digits[1..], rest, 10 * value + (digits[0] as int - '0' as int));
    }
  }

  lemma IndexForm(name: string, digits: string)
    requires '[' !in name && Digits(digits)
    ensures var key := name + "[" + (digits + "]");
            NameOf(key) == name && DetectKeyType(key) == IndexKey(LeadingNumber(digits, 0))
  {
    hide LeadingNumber;
    var tail := digits + "]";
    KeyIs(name, tail);
    assert tail[..|digits|] == digits && tail[|digits|] == ']';
    assert tail[0] in digits && ']' !in digits;
    FindCharIs(tail, ']', |digits|);
  }

  // `name[]` adds a value at the end.
  lemma AppendElement(t: Table, name: string, value: string)
    requires '[' !in name && (name == "" || name[0] != '_')
    ensures AppendDefined(t, name + "[" + "]")
    ensures AppendIn(t, false, name + "[" + "]", value) == Some(t[name := GetAll(t, name) + [value]])
  {
    hide DetectKeyType, NameOf;
    KeyForms(name, "]");
  }

  // The plain name adds text to the first string, or is the first.
  lemma AppendText(t: Table, name: string, value: string)
    requires '[' !in name && (name == "" || name[0] != '_')
    ensures AppendDefined(t, name)
    ensures var vals := GetAll(t, name);
            AppendIn(t, false, name, value) ==
            Some(t[name := if vals == [] then [" " + value] else vals[0 := vals[0] + " " + value]])
  {
    hide DetectKeyType, NameOf;
    KeyForms(name, "]");
    assert "" + " " + value == " " + value;
  }

  // `name[i]` adds text to string i, which must exist.
  lemma AppendTextAt(t: Table, name: string, index: string, value: string)
    requires '[' !in name && (name == "" || name[0] != '_') && Digits(index) && GetAll(t, name) != []
    ensures AppendDefined(t, name + "[" + (index + "]"))
    ensures var vals, i := GetAll(t, name), LeadingNumber(index, 0);
            AppendIn(t, false, name + "[" + (index + "]"), value) ==
            if i < |vals| then Some(t[name := vals[i := vals[i] + " " + value]]) else None
  {
    hide DetectKeyType, NameOf, LeadingNumber;
    IndexForm(name, index);
  }

  /** What is refused, and changes nothing: symbols that start with `_`, array forms that are not
      `[]` or an index, and an unclosed literal. */
  lemma Refusals(t: Table, key: string, value: string)
    ensures key != "" && key[0] == '_' ==> SetIn(t, false, key, value) == None
    ensures key != "" && key[0] == '_' && AppendDefined(t, key) ==> AppendIn(t, false, key, value) == None
    ensures DetectKeyType(key) in {BadKey, CountKey, ConcatKey, FormatKey} ==> AppendIn(t, false, key, value) == None
    ensures Parse(value) == None ==> SetIn(t, false, key, value) == None
  {
    hide LeadingNumber;
    if key != "" && key[0] == '_' {
      assert FindChar(key, '[') > 0;
      assert NameOf(key)[0] == key[0];
    }
  }

  /** An assignment to an indexed key replaces the whole array, whatever the index; one to the
      plain name writes the first element of an existing array and keeps the others. */
  lemma AssignmentForms(t: Table, name: string, index: string, value: string, vals: seq<string>)
    requires NoBrackets(t) && '[' !in name && (name == "" || name[0] != '_') && Parse(value) == Some(vals)
    ensures SetIn(t, false, name + "[" + index, value) == Some(t[name := vals])
    ensures name in t && t[name] != [] && |vals| == 1 ==>
            SetIn(t, false, name, value) == Some(t[name := t[name][0 := vals[0]]])
    ensures name in t && |vals| > 1 ==> SetIn(t, false, name, value) == None
    ensures name in t && t[name] == [] ==> SetIn(t, false, name, value) == None
    ensures name in t && t[name] != [] && vals == [] ==>
              SetIn(t, false, name, value) == Some(t[name := t[name][0 := ""]])
    ensures name !in t ==> SetIn(t, false, name, value) == Some(t[name := vals])
  {
    KeyIs(name, index);
  }
}
