/** Symbol tables as values: what `kbsymtab_get`, `kbnode_getvalue_all`,
    `kbnode_getvalue_first` and `kbnode_get_srcdef` read. */
module Tables {
  import opened Wrappers

  // A symbol maps to its array of strings; the NULL that ends a C array is its length here.
  type Table = map<string, seq<string>>

  const KEY_FNAME := "_FILENAME"
  const KEY_LINE := "_LINE"
  const KEY_ID := "ID"
  const KEY_MESSAGE := "MESSAGE"
  const KEY_JOBS := "JOBS"
  const KEY_EXEC := "EXEC"
  const KEY_EMITS := "EMITS"
  const KEY_HANDLES := "HANDLES"
  const KEY_ROLLBACK := "ROLLBACK"
  const KEY_PERIOD := "PERIOD"
  const KEY_COUNTER := "COUNTER"

  datatype NodeType = PeriodicType | JobType | EntrypointType

  function GetAll(t: Table, key: string): seq<string> {
    if key in t then t[key] else []
  }

  function GetFirst(t: Table, key: string): string {
    if |GetAll(t, key)| == 0 then "" else t[key][0]
  }

  // kbnode_get_srcdef succeeds: the node knows its file, its line and its ID.
  predicate HasSrcDef(t: Table) {
    |GetAll(t, KEY_FNAME)| > 0 && |GetAll(t, KEY_LINE)| > 0 && |GetAll(t, KEY_ID)| > 0
  }

  function IdOf(t: Table): string {
    GetFirst(t, KEY_ID)
  }

  // The tables visible from a node, its own first, then each ancestor's up to the root.
  type Scope = seq<Table>

  // kbnode_resolve: the nearest table that has the symbol.
  function Lookup(scope: Scope, name: string): (r: Option<seq<string>>)
    decreases |scope|
  {
    if scope == [] then None
    else if name in scope[0] then Some(scope[0][name])
    else Lookup(scope[1..], name)
  }

  /** Dynamic scoping: the first table that has the symbol decides, and a symbol is unknown exactly
      when no table has it. */
  lemma {:induction false} LookupIsNearest(scope: Scope, name: string, i: nat)
    ensures i < |scope| && name in scope[i] && (forall j :: 0 <= j < i ==> name !in scope[j]) ==>
              Lookup(scope, name) == Some(scope[i][name])
    ensures Lookup(scope, name) == None <==> forall j :: 0 <= j < |scope| ==> name !in scope[j]
    decreases |scope|
  {
    if scope != [] && name !in scope[0] {
      LookupIsNearest(scope[1..], name, if i > 0 then i - 1 else 0);
      assert forall j :: 0 < j < |scope| ==> scope[j] == scope[1..][j - 1];
      assert forall j :: 0 <= j < |scope| - 1 ==> scope[1..][j] == scope[j + 1];
    }
  }
}
