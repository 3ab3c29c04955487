/** Running a call tree (`kbbi_run`, `kbbi_rollback`): the function that a run computes, and the
    interpreter as loops. */
module Execution {
  import opened Tables
  import opened Expansion

  // ---------- Runs ----------

  // One edge of the tree; a path from the root names a node instance.
  datatype Step = JobStep(i: nat) | HandlerStep(i: nat)
  type Path = seq<Step>

  // What a run reports, in order.
  datatype Event =
    | Started(path: Path)
    | Ran(path: Path, cmd: string, rc: int)
    | JobFailed(path: Path)
    | Visited(path: Path, actions: nat)
    | Undid(path: Path, cmd: string, rc: int)
    | FellThrough(path: Path)

  // The exit code of each shell command, by how many were run before it.
  type Codes = nat -> int

  // A (part of a) run: the return code, the events, the counters, and how many shell
  // commands have been run when it ends.
  datatype Run = Run(ret: int, trace: seq<Event>, errors: nat, warnings: nat, calls: nat)
  {
    // This part, then that one, which decides the return code.
    function Plus(that: Run): Run {
      Run(that.ret, trace + that.trace, errors + that.errors, warnings + that.warnings, that.calls)
    }
  }

  // The bitwise OR of C ints, in two's complement of any width.
  function Or(a: int, b: int): int
    decreases if a < 0 then -a else a, if b < 0 then -b else b
  {
    if a == 0 then b
    else if b == 0 then a
    else if a == -1 || b == -1 then -1
    else 2 * Or(a / 2, b / 2) + if a % 2 == 1 || b % 2 == 1 then 1 else 0
  }

  // kbnode_filter_handlers, as positions in the list.
  function Runnable(handlers: seq<Tree>, signals: seq<string>, i: nat): (hs: seq<nat>)
    requires i <= |handlers|
    ensures forall j :: 0 <= j < |hs| ==> i <= hs[j] < |handlers| && HandlesAny(handlers[hs[j]].tab, signals)
    ensures forall j, k :: 0 <= j < k < |hs| ==> hs[j] < hs[k]
    ensures forall h :: i <= h < |handlers| && HandlesAny(handlers[h].tab, signals) ==> h in hs
    ensures forall h :: h in hs <==>
              i <= h < |handlers|
              && exists x, y :: 0 <= x < |signals| && 0 <= y < |GetAll(handlers[h].tab, KEY_HANDLES)|
                                && signals[x] == GetAll(handlers[h].tab, KEY_HANDLES)[y]
    decreases |handlers| - i
  {
    if i == |handlers| then []
    else (if HandlesAny(handlers[i].tab, signals) then [i] else []) + Runnable(handlers, signals, i + 1)
  }

  function RunnableOf(t: Tree): (hs: seq<nat>) {
    Runnable(t.handlers, GetAll(t.tab, KEY_EMITS), 0)
  }

  // The EXEC loop stops at the first empty command.
  function UntilEmpty(cmds: seq<string>): seq<string> {
    if cmds == [] || cmds[0] == "" then [] else [cmds[0]] + UntilEmpty(cmds[1..])
  }

  function CommandsOf(t: Tree): seq<string> {
    UntilEmpty(GetAll(t.tab, KEY_EXEC))
  }

  lemma {:induction false} UntilEmptyIs(cmds: seq<string>)
    ensures var run := UntilEmpty(cmds);
            run <= cmds && "" !in run && (|run| == |cmds| || cmds[|run|] == "")
  {
    if cmds != [] && cmds[0] != "" {
      UntilEmptyIs(cmds[1..]);
    }
  }

  /** A node executes the longest prefix of its EXEC commands that has no empty one. */
  lemma CommandsAre(t: Tree)
    ensures var exec := GetAll(t.tab, KEY_EXEC);
            && CommandsOf(t) <= exec && "" !in CommandsOf(t)
            && (|CommandsOf(t)| == |exec| || exec[|CommandsOf(t)|] == "")
  {
    UntilEmptyIs(GetAll(t.tab, KEY_EXEC));
  }

  // kbbi_run
  function RunNode(t: Tree, p: Path, codes: Codes, k: nat): Run
    decreases t
  {
    if !HasSrcDef(t.tab) then Run(1, [], 1, 0, k)
    else Run(0, [Started(p)], 0, 0, k).Plus(
      if RunnableOf(t) != [] then RunHandlers(t, p, RunnableOf(t), codes, k)
      else if CommandsOf(t) != [] then RunCommands(p, CommandsOf(t), codes, k)
      else if t.jobs != [] then RunJobs(t, p, 0, codes, k)
      else Run(0, [FellThrough(p)], 0, 0, k))
  }

  // Every handler runs, whatever the others return; the codes are added up.
  function RunHandlers(t: Tree, p: Path, hs: seq<nat>, codes: Codes, k: nat): Run
    requires forall j :: 0 <= j < |hs| ==> hs[j] < |t.handlers|
    decreases t, |hs|
  {
    if hs == [] then Run(0, [], 0, 0, k)
    else
      var r := RunNode(t.handlers[hs[0]], p + [HandlerStep(hs[0])], codes, k);
      var rest := RunHandlers(t, p, hs[1..], codes, r.calls);
      r.Plus(rest).(ret := r.ret + rest.ret)
  }

  // Every command runs, whatever the others return; the codes are combined with OR.
  function RunCommands(p: Path, cmds: seq<string>, codes: Codes, k: nat): Run
    decreases cmds
  {
    if cmds == [] then Run(0, [], 0, 0, k)
    else
      var rest := RunCommands(p, cmds[1..], codes, k + 1);
      Run(0, [Ran(p, cmds[0], codes(k))], 0, 0, k).Plus(rest).(ret := Or(codes(k), rest.ret))
  }

  // The jobs from i on, up to the first that fails; then the jobs up to it are rolled back.
  function RunJobs(t: Tree, p: Path, i: nat, codes: Codes, k: nat): Run
    requires i <= |t.jobs|
    decreases t, |t.jobs| - i
  {
    if i == |t.jobs| then Run(0, [], 0, 0, k)
    else
      var r := RunNode(t.jobs[i], p + [JobStep(i)], codes, k);
      if r.ret == 0 then r.Plus(RunJobs(t, p, i + 1, codes, r.calls))
      else r.Plus(Run(0, [JobFailed(p + [JobStep(i)])], 0, 1, r.calls)).Plus(
             RollBackFrom(t, p, i, codes, r.calls)).(ret := r.ret)
  }

  // Jobs i, i - 1, ..., 0.
  function RollBackFrom(t: Tree, p: Path, i: nat, codes: Codes, k: nat): Run
    requires i < |t.jobs|
    decreases i
  {
    var r := RollBack(t.jobs[i].tab, p + [JobStep(i)], codes, k);
    if i == 0 then r else r.Plus(RollBackFrom(t, p, i - 1, codes, r.calls))
  }

  function ActionsOf(tab: Table): seq<string> {
    if GetFirst(tab, KEY_ROLLBACK) == "" then [] else tab[KEY_ROLLBACK]
  }

  // The visit of a job at q, as a rollback reports it: all its ROLLBACK commands, empty ones
  // included, in order, unless there are none, the first is empty, or the job has no origin.
  ghost predicate IsVisit(v: seq<Event>, tab: Table, q: Path) {
    var commands := GetAll(tab, "ROLLBACK");
    var n := if HasSrcDef(tab) && commands != [] && commands[0] != "" then |commands| else 0;
    && |v| == n + 1 && v[0] == Visited(q, n)
    && forall x :: 1 <= x <= n ==> v[x].Undid? && v[x].path == q && v[x].cmd == commands[x - 1]
  }

  // kbbi_rollback, with the error its caller adds when it returns false.
  function RollBack(tab: Table, p: Path, codes: Codes, k: nat): Run {
    if !HasSrcDef(tab) then Run(0, [Visited(p, 0)], 2, 0, k)
    else if ActionsOf(tab) == [] then Run(0, [Visited(p, 0)], 0, 1, k)
    else Run(0, [Visited(p, |ActionsOf(tab)|)], 0, 0, k).Plus(Undo(p, ActionsOf(tab), codes, k))
  }

  function Undo(p: Path, actions: seq<string>, codes: Codes, k: nat): Run {
    if actions == [] then Run(0, [], 0, 0, k)
    else Run(0, [Undid(p, actions[0], codes(k))], 0, 0, k).Plus(Undo(p, actions[1..], codes, k + 1))
  }

  lemma {:induction false} UndoEvents(p: Path, actions: seq<string>, codes: Codes, k: nat)
    ensures var tr := Undo(p, actions, codes, k).trace;
            |tr| == |actions| && forall x :: 0 <= x < |tr| ==> tr[x] == Undid(p, actions[x], codes(k + x))
    decreases |actions|
  {
    if actions != [] {
      UndoEvents(p, actions[1..], codes, k + 1);
    }
  }

  lemma OneVisit(tab: Table, q: Path, codes: Codes, k: nat)
    ensures IsVisit(RollBack(tab, q, codes, k).trace, tab, q)
  {
    hide HasSrcDef;
    UndoEvents(q, ActionsOf(tab), codes, k);
  }

  // ---------- The interpreter ----------

  lemma PlusAssoc(a: Run, b: Run, c: Run)
    ensures a.Plus(b).Plus(c) == a.Plus(b.Plus(c))
  {
  }

  lemma PlusNothing(a: Run)
    ensures a.Plus(Run(a.ret, [], 0, 0, a.calls)) == a
    ensures a.Plus(Run(0, [], 0, 0, a.calls)).(ret := a.ret) == a
  {
  }

  method UndoAll(tab: Table, p: Path, codes: Codes, k: nat)
    returns (trace: seq<Event>, errors: nat, warnings: nat, calls: nat)
    ensures Run(0, trace, errors, warnings, calls) == RollBack(tab, p, codes, k)
    ensures IsVisit(trace, tab, p) && errors == (if HasSrcDef(tab) then 0 else 2)
    ensures warnings == if HasSrcDef(tab) && |trace| == 1 then 1 else 0
  {
    OneVisit(tab, p, codes, k);
    trace, errors, warnings, calls := [], 0, 0, k;
    if !HasSrcDef(tab) {
      return [Visited(p, 0)], 2, 0, k;
    }
    var actions := GetAll(tab, KEY_ROLLBACK);
    if |actions| == 0 || actions[0] == "" {
      return [Visited(p, 0)], 0, 1, k;
    }
    trace := [Visited(p, |actions|)];
    for i := 0 to |actions|
      invariant errors == warnings == 0
      invariant Run(0, trace, 0, 0, calls).Plus(Undo(p, actions[i..], codes, calls)) == RollBack(tab, p, codes, k)
    {
      ghost var before, round := Run(0, trace, 0, 0, calls), Run(0, [Undid(p, actions[i], codes(calls))], 0, 0, calls);
      var rc := codes(calls);
      trace := trace + [Undid(p, actions[i], rc)];
      calls := calls + 1;
      assert actions[i..][1..] == actions[i + 1..];
      PlusAssoc(before, round, Undo(p, actions[i + 1..], codes, calls));
    }
    PlusNothing(Run(0, trace, 0, 0, calls));
  }

  method RunHandlerLoop(t: Tree, p: Path, hs: seq<nat>, codes: Codes, k: nat)
    returns (ret: int, trace: seq<Event>, errors: nat, warnings: nat, calls: nat)
    requires forall j :: 0 <= j < |hs| ==> hs[j] < |t.handlers|
    ensures Run(ret, trace, errors, warnings, calls) == RunHandlers(t, p, hs, codes, k)
    decreases t, 0
  {
    ret, trace, errors, warnings, calls := 0, [], 0, 0, k;
    for i := 0 to |hs|
      invariant var rest := RunHandlers(t, p, hs[i..], codes, calls);
                Run(ret, trace, errors, warnings, calls).Plus(rest).(ret := ret + rest.ret)
                == RunHandlers(t, p, hs, codes, k)
    {
      ghost var before := Run(ret, trace, errors, warnings, calls);
      var r, tr, e, w, c := RunTree(t.handlers[hs[i]], p + [HandlerStep(hs[i])], codes, calls);
      ret, trace, errors, warnings, calls := ret + r, trace + tr, errors + e, warnings + w, c;
      assert hs[i..][1..] == hs[i + 1..];
      PlusAssoc(before, Run(r, tr, e, w, c), RunHandlers(t, p, hs[i + 1..], codes, calls));
    }
    PlusNothing(Run(ret, trace, errors, warnings, calls));
  }

  method RunCommandLoop(t: Tree, p: Path, codes: Codes, k: nat)
    returns (done: bool, ret: int, trace: seq<Event>, calls: nat)
    ensures done == (CommandsOf(t) != [])
    ensures Run(ret, trace, 0, 0, calls) == RunCommands(p, CommandsOf(t), codes, k)
  {
    var cmds := GetAll(t.tab, KEY_EXEC);
    done, ret, trace, calls := false, 0, [], k;
    var i := 0;
    while i < |cmds| && cmds[i] != ""
      invariant i <= |cmds|
      invariant done == (i > 0) && (done ==> CommandsOf(t) != []) && (!done ==> CommandsOf(t) == UntilEmpty(cmds[i..]))
      invariant var rest := RunCommands(p, UntilEmpty(cmds[i..]), codes, calls);
                Run(ret, trace, 0, 0, calls).Plus(rest).(ret := Or(ret, rest.ret))
                == RunCommands(p, CommandsOf(t), codes, k)
    {
      ghost var before, round := Run(ret, trace, 0, 0, calls), Run(0, [Ran(p, cmds[i], codes(calls))], 0, 0, calls + 1);
      ghost var rest := RunCommands(p, UntilEmpty(cmds[i + 1..]), codes, calls + 1);
      assert cmds[i..][1..] == cmds[i + 1..];
      OrAssoc(ret, codes(calls), rest.ret);
      PlusAssoc(before, round, rest);
      var rc := codes(calls);
      ret := Or(ret, rc);
      trace := trace + [Ran(p, cmds[i], rc)];
      calls := calls + 1;
      done := true;
      i := i + 1;
    }
    PlusNothing(Run(ret, trace, 0, 0, calls));
  }

  method RunJobLoop(t: Tree, p: Path, codes: Codes, k: nat)
    returns (ret: int, trace: seq<Event>, errors: nat, warnings: nat, calls: nat)
    ensures Run(ret, trace, errors, warnings, calls) == RunJobs(t, p, 0, codes, k)
    decreases t, 0
  {
    hide RunNode, RollBackFrom;
    ret, trace, errors, warnings, calls := 0, [], 0, 0, k;
    for i := 0 to |t.jobs|
      invariant ret == 0
      invariant Run(ret, trace, errors, warnings, calls).Plus(RunJobs(t, p, i, codes, calls)) ==
                RunJobs(t, p, 0, codes, k)
    {
      ghost var before := Run(ret, trace, errors, warnings, calls);
      var r, tr, e, w, c := RunTree(t.jobs[i], p + [JobStep(i)], codes, calls);
      ghost var part := Run(r, tr, e, w, c);
      ret, trace, errors, warnings, calls := r, trace + tr, errors + e, warnings + w, c;
      if ret != 0 {
        ghost var failed := Run(0, [JobFailed(p + [JobStep(i)])], 0, 1, c);
        trace, warnings := trace + [JobFailed(p + [JobStep(i)])], warnings + 1;
        PlusAssoc(before, part, failed);
        var tr', e', w', c' := RollBackLoop(t, p, i, codes, calls);
        PlusAssoc(before, part.Plus(failed), RollBackFrom(t, p, i, codes, calls));
        return ret, trace + tr', errors + e', warnings + w', c';
      }
      PlusAssoc(before, part, RunJobs(t, p, i + 1, codes, calls));
    }
    PlusNothing(Run(ret, trace, errors, warnings, calls));
  }

  // The job that failed and those before it, last to first; job 0 after the loop.
  method RollBackLoop(t: Tree, p: Path, i: nat, codes: Codes, k: nat)
    returns (trace: seq<Event>, errors: nat, warnings: nat, calls: nat)
    requires i < |t.jobs|
    ensures Run(0, trace, errors, warnings, calls) == RollBackFrom(t, p, i, codes, k)
  {
    trace, errors, warnings, calls := [], 0, 0, k;
    var j := i;
    assert [] + RollBackFrom(t, p, i, codes, k).trace == RollBackFrom(t, p, i, codes, k).trace;
    while j > 0
      invariant 0 <= j <= i
      invariant Run(0, trace, errors, warnings, calls).Plus(RollBackFrom(t, p, j, codes, calls)) ==
                RollBackFrom(t, p, i, codes, k)
    {
      ghost var before := Run(0, trace, errors, warnings, calls);
      var tr, e, w, c := UndoAll(t.jobs[j].tab, p + [JobStep(j)], codes, calls);
      trace, errors, warnings, calls := trace + tr, errors + e, warnings + w, c;
      PlusAssoc(before, Run(0, tr, e, w, c), RollBackFrom(t, p, j - 1, codes, calls));
      j := j - 1;
    }
    var tr, e, w, c := UndoAll(t.jobs[0].tab, p + [JobStep(0)], codes, calls);
    trace, errors, warnings, calls := trace + tr, errors + e, warnings + w, c;
  }

  method RunTree(t: Tree, p: Path, codes: Codes, k: nat)
    returns (ret: int, trace: seq<Event>, errors: nat, warnings: nat, calls: nat)
    ensures Run(ret, trace, errors, warnings, calls) == RunNode(t, p, codes, k)
    decreases t, 1
  {
    if !HasSrcDef(t.tab) {
      return 1, [], 1, 0, k;
    }
    var hs := RunnableOf(t);
    if hs != [] {
      var r, tr, e, w, c := RunHandlerLoop(t, p, hs, codes, k);
      return r, [Started(p)] + tr, e, w, c;
    }
    var done, r, tr, c := RunCommandLoop(t, p, codes, k);
    if done {
      return r, [Started(p)] + tr, 0, 0, c;
    }
    if |t.jobs| > 0 {
      var r, tr, e, w, c := RunJobLoop(t, p, codes, k);
      return r, [Started(p)] + tr, e, w, c;
    }
    return 0, [Started(p)] + [FellThrough(p)], 0, 0, k;
  }

  // ---------- OR of exit codes ----------

  lemma OrBits(a: int, b: int)
    ensures Or(a, b) / 2 == Or(a / 2, b / 2)
    ensures Or(a, b) % 2 == if a % 2 == 1 || b % 2 == 1 then 1 else 0
  {
  }

  function Abs(a: int): nat {
    if a < 0 then -a else a
  }

  lemma {:induction false} OrAssoc(a: int, b: int, c: int)
    ensures Or(Or(a, b), c) == Or(a, Or(b, c))
    decreases Abs(a) + Abs(b) + Abs(c)
  {
    if a in {0, -1} && b in {0, -1} && c in {0, -1} {
    } else {
      OrAssoc(a / 2, b / 2, c / 2);
      OrBits(a, b);
      OrBits(Or(a, b), c);
      OrBits(b, c);
      OrBits(a, Or(b, c));
    }
  }
}
