/** What holds of every run of a call tree: its return code, and the commands it executes. */
module Runs {
  import opened Tables
  import opened Expansion
  import opened Execution

  // Every node knows its file, line and ID, as nodes read from a file with an ID do.
  ghost predicate Located(t: Tree) {
    HasSrcDef(t.tab) && (forall c :: c in t.jobs ==> Located(c)) && (forall c :: c in t.handlers ==> Located(c))
  }

  // ---------- The commands of a tree ----------

  // The commands of a tree, left to right, as a run without failures executes them.
  function Flatten(t: Tree): seq<string>
    decreases t
  {
    if RunnableOf(t) != [] then FlattenHandlers(t, RunnableOf(t))
    else if CommandsOf(t) != [] then CommandsOf(t)
    else FlattenJobs(t, 0)
  }

  function FlattenHandlers(t: Tree, hs: seq<nat>): seq<string>
    requires forall j :: 0 <= j < |hs| ==> hs[j] < |t.handlers|
    decreases t, |hs|
  {
    if hs == [] then [] else Flatten(t.handlers[hs[0]]) + FlattenHandlers(t, hs[1..])
  }

  function FlattenJobs(t: Tree, i: nat): seq<string>
    requires i <= |t.jobs|
    decreases t, |t.jobs| - i
  {
    if i == |t.jobs| then [] else Flatten(t.jobs[i]) + FlattenJobs(t, i + 1)
  }

  // At most one of the handlers has any command to run.
  ghost predicate OneProductive(t: Tree, hs: seq<nat>)
    requires forall j :: 0 <= j < |hs| ==> hs[j] < |t.handlers|
  {
    forall i, j :: 0 <= i < j < |hs| ==> Flatten(t.handlers[hs[i]]) == [] || Flatten(t.handlers[hs[j]]) == []
  }

  // No node that a run can reach starts two handlers that both have commands.
  ghost predicate Unambiguous(t: Tree)
    decreases t, 1
  {
    if RunnableOf(t) != [] then UnambiguousHandlers(t, RunnableOf(t))
    else CommandsOf(t) != [] || UnambiguousJobs(t)
  }

  ghost predicate UnambiguousHandlers(t: Tree, hs: seq<nat>)
    requires forall j :: 0 <= j < |hs| ==> hs[j] < |t.handlers|
    decreases t, 0
  {
    OneProductive(t, hs) && forall j :: 0 <= j < |hs| ==> Unambiguous(t.handlers[hs[j]])
  }

  ghost predicate UnambiguousJobs(t: Tree)
    decreases t, 0
  {
    forall c :: c in t.jobs ==> Unambiguous(c)
  }

  ghost predicate NoCommand(trace: seq<Event>) {
    forall e :: e in trace ==> !e.Ran?
  }

  // Without commands nothing fails, so nothing is rolled back either.
  lemma {:induction false} Unproductive(t: Tree, p: Path, codes: Codes, k: nat)
    requires Located(t) && Flatten(t) == []
    ensures var r := RunNode(t, p, codes, k); r.ret == 0 && r.calls == k && NoCommand(r.trace)
    decreases t
  {
    if RunnableOf(t) != [] {
      HandlersUnproductive(t, p, RunnableOf(t), codes, k);
    } else if t.jobs != [] {
      JobsUnproductive(t, p, 0, codes, k);
    }
  }

  lemma {:induction false} HandlersUnproductive(t: Tree, p: Path, hs: seq<nat>, codes: Codes, k: nat)
    requires Located(t) && (forall j :: 0 <= j < |hs| ==> hs[j] < |t.handlers|) && FlattenHandlers(t, hs) == []
    ensures var r := RunHandlers(t, p, hs, codes, k); r.ret == 0 && r.calls == k && NoCommand(r.trace)
    decreases t, |hs|
  {
    if hs != [] {
      assert t.handlers[hs[0]] in t.handlers;
      Unproductive(t.handlers[hs[0]], p + [HandlerStep(hs[0])], codes, k);
      HandlersUnproductive(t, p, hs[1..], codes, k);
    }
  }

  lemma {:induction false} JobsUnproductive(t: Tree, p: Path, i: nat, codes: Codes, k: nat)
    requires Located(t) && i <= |t.jobs| && FlattenJobs(t, i) == []
    ensures var r := RunJobs(t, p, i, codes, k); r.ret == 0 && r.calls == k && NoCommand(r.trace)
    decreases t, |t.jobs| - i
  {
    if i < |t.jobs| {
      assert t.jobs[i] in t.jobs;
      Unproductive(t.jobs[i], p + [JobStep(i)], codes, k);
      JobsUnproductive(t, p, i + 1, codes, k);
    }
  }

  // ---------- The return code ----------

  // No command of a run failed.
  ghost predicate Clean(trace: seq<Event>) {
    forall e :: e in trace && e.Ran? ==> e.rc == 0
  }

  // Added return codes cannot cancel.
  ghost predicate Faithful(t: Tree, codes: Codes) {
    (forall n :: codes(n) >= 0) || Unambiguous(t)
  }

  lemma {:induction false} OrIsZero(a: int, b: int)
    ensures Or(a, b) == 0 <==> a == 0 && b == 0
    ensures a >= 0 && b >= 0 ==> Or(a, b) >= 0
    decreases Abs(a) + Abs(b)
  {
    if a !in {0, -1} && b !in {0, -1} {
      OrIsZero(a / 2, b / 2);
    }
  }

  // The code of a part of a run: zero exactly when its commands succeeded.
  ghost predicate Truthful(r: Run, codes: Codes) {
    (r.ret == 0 <==> Clean(r.trace)) && ((forall n :: codes(n) >= 0) ==> r.ret >= 0)
  }

  lemma {:induction false} CommandsTruthful(p: Path, cmds: seq<string>, codes: Codes, k: nat)
    ensures Truthful(RunCommands(p, cmds, codes, k), codes)
    decreases |cmds|
  {
    if cmds != [] {
      var rest := RunCommands(p, cmds[1..], codes, k + 1);
      CommandsTruthful(p, cmds[1..], codes, k + 1);
      OrIsZero(codes(k), rest.ret);
      var tr := [Ran(p, cmds[0], codes(k))] + rest.trace;
      assert tr[0] in tr && forall e :: e in tr <==> e == tr[0] || e in rest.trace;
    }
  }

  lemma CleanConcat(a: seq<Event>, b: seq<Event>)
    ensures Clean(a + b) <==> Clean(a) && Clean(b)
  {
  }

  lemma StartTruthful(p: Path, k: nat, r: Run, codes: Codes)
    requires Truthful(r, codes)
    ensures Truthful(Run(0, [Started(p)], 0, 0, k).Plus(r), codes)
  {
  }

  lemma FallsThroughTruthful(p: Path, k: nat, codes: Codes)
    ensures Truthful(Run(0, [Started(p)], 0, 0, k).Plus(Run(0, [FellThrough(p)], 0, 0, k)), codes)
  {
  }

  lemma {:induction false} NodeTruthful(t: Tree, p: Path, codes: Codes, k: nat)
    requires Located(t) && Faithful(t, codes)
    ensures Truthful(RunNode(t, p, codes, k), codes)
    decreases t
  {
    hide Flatten, Truthful;
    var hs := RunnableOf(t);
    if Unambiguous(t) {
      assert if hs != [] then UnambiguousHandlers(t, hs) else CommandsOf(t) != [] || UnambiguousJobs(t);
    }
    if hs != [] {
      HandlersTruthful(t, p, hs, codes, k);
      StartTruthful(p, k, RunHandlers(t, p, hs, codes, k), codes);
    } else if CommandsOf(t) != [] {
      CommandsTruthful(p, CommandsOf(t), codes, k);
      StartTruthful(p, k, RunCommands(p, CommandsOf(t), codes, k), codes);
    } else if t.jobs != [] {
      JobsTruthful(t, p, 0, codes, k);
      StartTruthful(p, k, RunJobs(t, p, 0, codes, k), codes);
    } else {
      FallsThroughTruthful(p, k, codes);
    }
  }

  lemma {:induction false} HandlersTruthful(t: Tree, p: Path, hs: seq<nat>, codes: Codes, k: nat)
    requires Located(t) && forall j :: 0 <= j < |hs| ==> hs[j] < |t.handlers| && Faithful(t.handlers[hs[j]], codes)
    requires (forall n :: codes(n) >= 0) || OneProductive(t, hs)
    ensures Truthful(RunHandlers(t, p, hs, codes, k), codes)
    decreases t, |hs|
  {
    if hs != [] {
      assert t.handlers[hs[0]] in t.handlers;
      var r := RunNode(t.handlers[hs[0]], p + [HandlerStep(hs[0])], codes, k);
      NodeTruthful(t.handlers[hs[0]], p + [HandlerStep(hs[0])], codes, k);
      HandlersTruthful(t, p, hs[1..], codes, r.calls);
      CleanConcat(r.trace, RunHandlers(t, p, hs[1..], codes, r.calls).trace);
      if OneProductive(t, hs) {
        OneOfTwo(t, p, hs, codes, k);
      }
    }
  }

  // The first handler or all the others have no commands.
  lemma OneOfTwo(t: Tree, p: Path, hs: seq<nat>, codes: Codes, k: nat)
    requires Located(t) && hs != [] && (forall j :: 0 <= j < |hs| ==> hs[j] < |t.handlers|) && OneProductive(t, hs)
    ensures Flatten(t.handlers[hs[0]]) == [] || FlattenHandlers(t, hs[1..]) == []
    ensures var r := RunNode(t.handlers[hs[0]], p + [HandlerStep(hs[0])], codes, k);
            r.ret == 0 || RunHandlers(t, p, hs[1..], codes, r.calls).ret == 0
  {
    hide RunNode, RunHandlers, Flatten, Located;
    var q := p + [HandlerStep(hs[0])];
    HandlerIsLocated(t, hs[0]);
    if Flatten(t.handlers[hs[0]]) == [] {
      Unproductive(t.handlers[hs[0]], q, codes, k);
    } else {
      NoneProductive(t, hs[1..]);
      HandlersUnproductive(t, p, hs[1..], codes, RunNode(t.handlers[hs[0]], q, codes, k).calls);
    }
  }

  lemma HandlerIsLocated(t: Tree, h: nat)
    requires Located(t) && h < |t.handlers|
    ensures Located(t.handlers[h])
  {
  }

  lemma {:induction false} NoneProductive(t: Tree, hs: seq<nat>)
    requires forall j :: 0 <= j < |hs| ==> hs[j] < |t.handlers| && Flatten(t.handlers[hs[j]]) == []
    ensures FlattenHandlers(t, hs) == []
    decreases |hs|
  {
    if hs != [] {
      NoneProductive(t, hs[1..]);
    }
  }

  lemma {:induction false} JobsTruthful(t: Tree, p: Path, i: nat, codes: Codes, k: nat)
    requires i <= |t.jobs| && Located(t) && forall c :: c in t.jobs ==> Faithful(c, codes)
    ensures Truthful(RunJobs(t, p, i, codes, k), codes)
    decreases t, |t.jobs| - i
  {
    if i < |t.jobs| {
      assert t.jobs[i] in t.jobs;
      var r := RunNode(t.jobs[i], p + [JobStep(i)], codes, k);
      NodeTruthful(t.jobs[i], p + [JobStep(i)], codes, k);
      if r.ret == 0 {
        JobsTruthful(t, p, i + 1, codes, r.calls);
        CleanConcat(r.trace, RunJobs(t, p, i + 1, codes, r.calls).trace);
      } else {
        CleanConcat(r.trace, [JobFailed(p + [JobStep(i)])]);
        CleanConcat(r.trace + [JobFailed(p + [JobStep(i)])], RollBackFrom(t, p, i, codes, r.calls).trace);
      }
    }
  }

  /** A run returns 0 exactly when every command that it executed returned 0, provided that no
      exit code is negative or no node starts two handlers with commands. */
  lemma ReturnsZeroIffClean(t: Tree, codes: Codes)
    requires Located(t) && Faithful(t, codes)
    ensures var r := RunNode(t, [], codes, 0); r.ret == 0 <==> forall e :: e in r.trace && e.Ran? ==> e.rc == 0
  {
    NodeTruthful(t, [], codes, 0);
  }

  // ---------- The commands ----------

  function Commands(trace: seq<Event>): seq<string> {
    if trace == [] then []
    else (if trace[0].Ran? then [trace[0].cmd] else []) + Commands(trace[1..])
  }

  ghost predicate IsSubsequence(a: seq<string>, b: seq<string>) {
    if a == [] then true
    else b != [] && (if a[0] == b[0] then IsSubsequence(a[1..], b[1..]) else IsSubsequence(a, b[1..]))
  }

  lemma {:induction false} CommandsConcat(a: seq<Event>, b: seq<Event>)
    ensures Commands(a + b) == Commands(a) + Commands(b)
  {
    if a == [] {
      assert a + b == b;
    } else {
      assert (a + b)[1..] == a[1..] + b;
      CommandsConcat(a[1..], b);
    }
  }

  lemma {:induction false} SubsequenceSkips(a: seq<string>, x: string, b: seq<string>)
    requires IsSubsequence(a, b)
    ensures IsSubsequence(a, [x] + b)
    decreases |b|
  {
    assert ([x] + b)[1..] == b;
    if a != [] && a[0] == x {
      if a[0] == b[0] {
        SubsequenceSkips(a[1..], b[0], b[1..]);
        assert [b[0]] + b[1..] == b;
      } else {
        SubsequenceTail(a, b[1..]);
        SubsequenceSkips(a[1..], b[0], b[1..]);
        assert [b[0]] + b[1..] == b;
      }
    }
  }

  lemma {:induction false} SubsequenceTail(a: seq<string>, b: seq<string>)
    requires a != [] && IsSubsequence(a, b)
    ensures IsSubsequence(a[1..], b)
    decreases |b|
  {
    var b' := b[1..];
    assert [b[0]] + b' == b;
    if a[0] == b[0] {
      SubsequenceSkips(a[1..], b[0], b');
    } else {
      SubsequenceTail(a, b');
      SubsequenceSkips(a[1..], b[0], b');
    }
  }

  lemma {:induction false} SubsequenceConcat(a: seq<string>, b: seq<string>, c: seq<string>, d: seq<string>)
    requires IsSubsequence(a, b) && IsSubsequence(c, d)
    ensures IsSubsequence(a + c, b + d)
    decreases |b|
  {
    if b == [] {
      assert a + c == c && b + d == d;
    } else {
      assert (b + d)[1..] == b[1..] + d && [b[0]] + (b[1..] + d) == b + d;
      if a != [] && a[0] == b[0] {
        assert (a + c)[1..] == a[1..] + c;
        SubsequenceConcat(a[1..], b[1..], c, d);
      } else {
        SubsequenceConcat(a, b[1..], c, d);
        SubsequenceSkips(a + c, b[0], b[1..] + d);
      }
    }
  }

  lemma {:induction false} SubsequenceSelf(a: seq<string>)
    ensures IsSubsequence(a, a)
  {
    if a != [] {
      SubsequenceSelf(a[1..]);
    }
  }

  lemma {:induction false} RollbackRunsNoCommand(t: Tree, p: Path, i: nat, codes: Codes, k: nat)
    requires i < |t.jobs|
    ensures Commands(RollBackFrom(t, p, i, codes, k).trace) == []
    decreases i
  {
    var r := RollBack(t.jobs[i].tab, p + [JobStep(i)], codes, k);
    var actions := ActionsOf(t.jobs[i].tab);
    UndoRunsNoCommand(p + [JobStep(i)], actions, codes, k);
    CommandsConcat([Visited(p + [JobStep(i)], |actions|)], Undo(p + [JobStep(i)], actions, codes, k).trace);
    if i > 0 {
      RollbackRunsNoCommand(t, p, i - 1, codes, r.calls);
      CommandsConcat(r.trace, RollBackFrom(t, p, i - 1, codes, r.calls).trace);
    }
  }

  lemma {:induction false} UndoRunsNoCommand(p: Path, actions: seq<string>, codes: Codes, k: nat)
    ensures Commands(Undo(p, actions, codes, k).trace) == []
  {
    if actions != [] {
      UndoRunsNoCommand(p, actions[1..], codes, k + 1);
      CommandsConcat([Undid(p, actions[0], codes(k))], Undo(p, actions[1..], codes, k + 1).trace);
    }
  }

  lemma {:induction false} CommandsOfLoop(p: Path, cmds: seq<string>, codes: Codes, k: nat)
    ensures Commands(RunCommands(p, cmds, codes, k).trace) == cmds
    decreases |cmds|
  {
    if cmds != [] {
      CommandsOfLoop(p, cmds[1..], codes, k + 1);
      CommandsConcat([Ran(p, cmds[0], codes(k))], RunCommands(p, cmds[1..], codes, k + 1).trace);
    }
  }

  // A run without a failed command returns 0, whatever the exit codes of its rollbacks.
  lemma {:induction false} CleanMeansZero(t: Tree, p: Path, codes: Codes, k: nat)
    requires Located(t) && Clean(RunNode(t, p, codes, k).trace)
    ensures RunNode(t, p, codes, k).ret == 0
    decreases t
  {
    var hs := RunnableOf(t);
    if hs != [] {
      CleanConcat([Started(p)], RunHandlers(t, p, hs, codes, k).trace);
      CleanHandlersMeanZero(t, p, hs, codes, k);
    } else if CommandsOf(t) != [] {
      CleanConcat([Started(p)], RunCommands(p, CommandsOf(t), codes, k).trace);
      CommandsTruthful(p, CommandsOf(t), codes, k);
    } else if t.jobs != [] {
      CleanConcat([Started(p)], RunJobs(t, p, 0, codes, k).trace);
      CleanJobsMeanZero(t, p, 0, codes, k);
    }
  }

  lemma {:induction false} CleanHandlersMeanZero(t: Tree, p: Path, hs: seq<nat>, codes: Codes, k: nat)
    requires Located(t) && forall j :: 0 <= j < |hs| ==> hs[j] < |t.handlers|
    requires Clean(RunHandlers(t, p, hs, codes, k).trace)
    ensures RunHandlers(t, p, hs, codes, k).ret == 0
    decreases t, |hs|
  {
    if hs != [] {
      assert t.handlers[hs[0]] in t.handlers;
      var r := RunNode(t.handlers[hs[0]], p + [HandlerStep(hs[0])], codes, k);
      CleanConcat(r.trace, RunHandlers(t, p, hs[1..], codes, r.calls).trace);
      CleanMeansZero(t.handlers[hs[0]], p + [HandlerStep(hs[0])], codes, k);
      CleanHandlersMeanZero(t, p, hs[1..], codes, r.calls);
    }
  }

  lemma {:induction false} CleanJobsMeanZero(t: Tree, p: Path, i: nat, codes: Codes, k: nat)
    requires Located(t) && i <= |t.jobs| && Clean(RunJobs(t, p, i, codes, k).trace)
    ensures RunJobs(t, p, i, codes, k).ret == 0
    decreases t, |t.jobs| - i
  {
    if i < |t.jobs| {
      assert t.jobs[i] in t.jobs;
      var r := RunNode(t.jobs[i], p + [JobStep(i)], codes, k);
      if r.ret == 0 {
        CleanConcat(r.trace, RunJobs(t, p, i + 1, codes, r.calls).trace);
        CleanJobsMeanZero(t, p, i + 1, codes, r.calls);
      } else {
        CleanConcat(r.trace, [JobFailed(p + [JobStep(i)])]);
        CleanConcat(r.trace + [JobFailed(p + [JobStep(i)])], RollBackFrom(t, p, i, codes, r.calls).trace);
        CleanMeansZero(t.jobs[i], p + [JobStep(i)], codes, k);
      }
    }
  }

  // How the commands that a part of a run executed relate to those it could execute.
  ghost predicate Executes(trace: seq<Event>, all: seq<string>, single: bool) {
    && (Clean(trace) ==> Commands(trace) == all)
    && IsSubsequence(Commands(trace), all)
    && (single ==> Commands(trace) <= all)
  }

  lemma StartExecutes(p: Path, trace: seq<Event>, all: seq<string>, single: bool)
    requires Executes(trace, all, single)
    ensures Executes([Started(p)] + trace, all, single)
  {
    CleanConcat([Started(p)], trace);
    CommandsConcat([Started(p)], trace);
    assert Commands([Started(p)] + trace) == Commands(trace);
  }

  // Two parts of a run, the second of which the first does not cut short.
  lemma PartsExecute(a: seq<Event>, all: seq<string>, b: seq<Event>, rest: seq<string>, single: bool)
    requires Executes(a, all, single) && Executes(b, rest, single) && (single ==> Commands(a) == all || rest == [])
    ensures Executes(a + b, all + rest, single)
  {
    CleanConcat(a, b);
    CommandsConcat(a, b);
    SubsequenceConcat(Commands(a), all, Commands(b), rest);
  }

  lemma {:induction false} NodeExecutes(t: Tree, p: Path, codes: Codes, k: nat)
    requires Located(t)
    ensures Executes(RunNode(t, p, codes, k).trace, Flatten(t), Unambiguous(t))
    decreases t
  {
    var hs := RunnableOf(t);
    if hs != [] {
      HandlersExecute(t, p, hs, codes, k);
      StartExecutes(p, RunHandlers(t, p, hs, codes, k).trace, FlattenHandlers(t, hs), UnambiguousHandlers(t, hs));
    } else if CommandsOf(t) != [] {
      CommandsOfLoop(p, CommandsOf(t), codes, k);
      SubsequenceSelf(CommandsOf(t));
      StartExecutes(p, RunCommands(p, CommandsOf(t), codes, k).trace, CommandsOf(t), Unambiguous(t));
    } else if t.jobs != [] {
      JobsExecute(t, p, 0, codes, k);
      StartExecutes(p, RunJobs(t, p, 0, codes, k).trace, FlattenJobs(t, 0), UnambiguousJobs(t));
    } else {
      assert Commands([FellThrough(p)]) == [] == FlattenJobs(t, 0);
      StartExecutes(p, [FellThrough(p)], [], Unambiguous(t));
    }
  }

  lemma {:induction false} HandlersExecute(t: Tree, p: Path, hs: seq<nat>, codes: Codes, k: nat)
    requires Located(t) && forall j :: 0 <= j < |hs| ==> hs[j] < |t.handlers|
    ensures Executes(RunHandlers(t, p, hs, codes, k).trace, FlattenHandlers(t, hs), UnambiguousHandlers(t, hs))
    decreases t, |hs|
  {
    if hs != [] {
      hide RunNode, Flatten, Executes, Unambiguous;
      var c, q := t.handlers[hs[0]], p + [HandlerStep(hs[0])];
      HandlerIsLocated(t, hs[0]);
      var r := RunNode(c, q, codes, k);
      NodeExecutes(c, q, codes, k);
      HandlersExecute(t, p, hs[1..], codes, r.calls);
      if UnambiguousHandlers(t, hs) {
        OneOfTwo(t, p, hs, codes, k);
      }
      PartsExecute(r.trace, Flatten(c), RunHandlers(t, p, hs[1..], codes, r.calls).trace,
                   FlattenHandlers(t, hs[1..]), UnambiguousHandlers(t, hs));
    }
  }

  lemma {:induction false} JobsExecute(t: Tree, p: Path, i: nat, codes: Codes, k: nat)
    requires Located(t) && i <= |t.jobs|
    ensures Executes(RunJobs(t, p, i, codes, k).trace, FlattenJobs(t, i), UnambiguousJobs(t))
    decreases t, |t.jobs| - i
  {
    if i < |t.jobs| {
      hide RunNode, Truthful;
      var c, q := t.jobs[i], p + [JobStep(i)];
      assert c in t.jobs;
      var r := RunNode(c, q, codes, k);
      NodeExecutes(c, q, codes, k);
      if r.ret == 0 {
        if UnambiguousJobs(t) {
          ZeroMeansAll(c, q, codes, k);
        }
        JobsExecute(t, p, i + 1, codes, r.calls);
        PartsExecute(r.trace, Flatten(c), RunJobs(t, p, i + 1, codes, r.calls).trace, FlattenJobs(t, i + 1),
          UnambiguousJobs(t));
      } else {
        FailedJobExecutes(t, p, i, codes, k, UnambiguousJobs(t));
      }
    }
  }

  lemma ZeroMeansAll(t: Tree, p: Path, codes: Codes, k: nat)
    requires Located(t) && Unambiguous(t) && RunNode(t, p, codes, k).ret == 0
    requires Executes(RunNode(t, p, codes, k).trace, Flatten(t), true)
    ensures Commands(RunNode(t, p, codes, k).trace) == Flatten(t)
  {
    NodeTruthful(t, p, codes, k);
  }

  lemma FailedJobExecutes(t: Tree, p: Path, i: nat, codes: Codes, k: nat, single: bool)
    requires i < |t.jobs| && Located(t.jobs[i]) && RunNode(t.jobs[i], p + [JobStep(i)], codes, k).ret != 0
    requires Executes(RunNode(t.jobs[i], p + [JobStep(i)], codes, k).trace, Flatten(t.jobs[i]), single)
    ensures Executes(RunJobs(t, p, i, codes, k).trace, FlattenJobs(t, i), single)
  {
    var c, q := t.jobs[i], p + [JobStep(i)];
    var r := RunNode(c, q, codes, k);
    var rb := RollBackFrom(t, p, i, codes, r.calls);
    RollbackRunsNoCommand(t, p, i, codes, r.calls);
    CommandsConcat(r.trace, [JobFailed(q)]);
    CommandsConcat(r.trace + [JobFailed(q)], rb.trace);
    CleanConcat(r.trace, [JobFailed(q)]);
    CleanConcat(r.trace + [JobFailed(q)], rb.trace);
    if Clean(r.trace) {
      CleanMeansZero(c, q, codes, k);
    }
    SubsequenceConcat(Commands(r.trace), Flatten(c), [], FlattenJobs(t, i + 1));
    assert Commands(r.trace) + [] == Commands(r.trace);
  }

  /** The interpreter refines the flattening: a run executes exactly the tree's commands from
      left to right when none fails; a run with failures executes a subsequence of them, and a
      prefix when no node starts two handlers with commands. */
  lemma RunRefinesFlattening(t: Tree, codes: Codes)
    requires Located(t)
    ensures var r := RunNode(t, [], codes, 0);
            && (Clean(r.trace) ==> r.ret == 0 && Commands(r.trace) == Flatten(t))
            && ((forall n :: codes(n) >= 0) && r.ret == 0 ==> Commands(r.trace) == Flatten(t))
            && IsSubsequence(Commands(r.trace), Flatten(t))
            && (Unambiguous(t) ==> Commands(r.trace) <= Flatten(t))
  {
    NodeExecutes(t, [], codes, 0);
    if Clean(RunNode(t, [], codes, 0).trace) {
      CleanMeansZero(t, [], codes, 0);
    }
    if forall n :: codes(n) >= 0 {
      NodeTruthful(t, [], codes, 0);
    }
  }
}
