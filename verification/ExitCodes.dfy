/** The added return codes of handlers (`ret += kbbi_run`) can cancel: exactly which trees return 0
    only when all commands succeeded, for every assignment of exit codes. */
module ExitCodes {
  import opened Tables
  import opened Expansion
  import opened Execution
  import opened Runs

  // ---------- A run only sees the codes of its own commands ----------

  ghost predicate Agree(codes: Codes, codes': Codes, from: nat, to: nat) {
    forall n: nat :: from <= n < to ==> codes(n) == codes'(n)
  }

  lemma {:induction false} UndoLocal(p: Path, actions: seq<string>, codes: Codes, codes': Codes, k: nat)
    requires Agree(codes, codes', k, Undo(p, actions, codes, k).calls)
    ensures Undo(p, actions, codes', k) == Undo(p, actions, codes, k)
            && k + |actions| == Undo(p, actions, codes, k).calls
    decreases |actions|
  {
    if actions != [] {
      UndoCalls(p, actions, codes, k);
      UndoLocal(p, actions[1..], codes, codes', k + 1);
    }
  }

  lemma {:induction false} UndoCalls(p: Path, actions: seq<string>, codes: Codes, k: nat)
    ensures Undo(p, actions, codes, k).calls == k + |actions|
    decreases |actions|
  {
    if actions != [] {
      UndoCalls(p, actions[1..], codes, k + 1);
    }
  }

  lemma {:induction false} RollBackCalls(t: Tree, p: Path, i: nat, codes: Codes, k: nat)
    requires i < |t.jobs|
    ensures k <= RollBack(t.jobs[i].tab, p + [JobStep(i)], codes, k).calls <= RollBackFrom(t, p, i, codes, k).calls
    decreases i
  {
    var r := RollBack(t.jobs[i].tab, p + [JobStep(i)], codes, k);
    UndoCalls(p + [JobStep(i)], ActionsOf(t.jobs[i].tab), codes, k);
    if i > 0 {
      RollBackCalls(t, p, i - 1, codes, r.calls);
    }
  }

  lemma {:induction false} RollBackLocal(t: Tree, p: Path, i: nat, codes: Codes, codes': Codes, k: nat)
    requires i < |t.jobs| && Agree(codes, codes', k, RollBackFrom(t, p, i, codes, k).calls)
    ensures RollBackFrom(t, p, i, codes', k) == RollBackFrom(t, p, i, codes, k)
    decreases i
  {
    var q, tab := p + [JobStep(i)], t.jobs[i].tab;
    RollBackCalls(t, p, i, codes, k);
    var r := RollBack(tab, q, codes, k);
    if HasSrcDef(tab) && ActionsOf(tab) != [] {
      UndoLocal(q, ActionsOf(tab), codes, codes', k);
    }
    if i > 0 {
      RollBackLocal(t, p, i - 1, codes, codes', r.calls);
    }
  }

  lemma {:induction false} CommandsLocal(p: Path, cmds: seq<string>, codes: Codes, codes': Codes, k: nat)
    requires Agree(codes, codes', k, k + |cmds|)
    ensures RunCommands(p, cmds, codes', k) == RunCommands(p, cmds, codes, k)
            && RunCommands(p, cmds, codes, k).calls == k + |cmds|
    decreases |cmds|
  {
    if cmds != [] {
      CommandsLocal(p, cmds[1..], codes, codes', k + 1);
    }
  }

  lemma {:induction false} NodeLocal(t: Tree, p: Path, codes: Codes, codes': Codes, k: nat)
    ensures k <= RunNode(t, p, codes, k).calls
    ensures Agree(codes, codes', k, RunNode(t, p, codes, k).calls) ==>
            RunNode(t, p, codes', k) == RunNode(t, p, codes, k)
    decreases t
  {
    if RunnableOf(t) != [] {
      HandlersLocal(t, p, RunnableOf(t), codes, codes', k);
    } else if CommandsOf(t) != [] {
      CommandsLocal(p, CommandsOf(t), codes, codes, k);
      if Agree(codes, codes', k, k + |CommandsOf(t)|) {
        CommandsLocal(p, CommandsOf(t), codes, codes', k);
      }
    } else {
      JobsLocal(t, p, 0, codes, codes', k);
    }
  }

  lemma {:induction false} HandlersLocal(t: Tree, p: Path, hs: seq<nat>, codes: Codes, codes': Codes, k: nat)
    requires forall j :: 0 <= j < |hs| ==> hs[j] < |t.handlers|
    ensures k <= RunHandlers(t, p, hs, codes, k).calls
    ensures Agree(codes, codes', k, RunHandlers(t, p, hs, codes, k).calls) ==>
              RunHandlers(t, p, hs, codes', k) == RunHandlers(t, p, hs, codes, k)
    decreases t, |hs|
  {
    if hs != [] {
      hide RunNode;
      var c, q := t.handlers[hs[0]], p + [HandlerStep(hs[0])];
      NodeLocal(c, q, codes, codes', k);
      HandlersLocal(t, p, hs[1..], codes, codes', RunNode(c, q, codes, k).calls);
    }
  }

  lemma {:induction false} JobsLocal(t: Tree, p: Path, i: nat, codes: Codes, codes': Codes, k: nat)
    requires i <= |t.jobs|
    ensures k <= RunJobs(t, p, i, codes, k).calls
    ensures Agree(codes, codes', k, RunJobs(t, p, i, codes, k).calls) ==>
            RunJobs(t, p, i, codes', k) == RunJobs(t, p, i, codes, k)
    decreases t, |t.jobs| - i
  {
    if i < |t.jobs| {
      hide RunNode, RollBackFrom;
      var c, q := t.jobs[i], p + [JobStep(i)];
      NodeLocal(c, q, codes, codes', k);
      var k' := RunNode(c, q, codes, k).calls;
      JobsLocal(t, p, i + 1, codes, codes', k');
      RollBackCalls(t, p, i, codes, k');
      if Agree(codes, codes', k', RollBackFrom(t, p, i, codes, k').calls) {
        RollBackLocal(t, p, i, codes, codes', k');
      }
    }
  }

  // ---------- Runs in which nothing fails ----------

  ghost predicate ZeroFrom(codes: Codes, k: nat) {
    forall n: nat :: k <= n ==> codes(n) == 0
  }

  lemma {:induction false} CommandsSucceed(p: Path, cmds: seq<string>, codes: Codes, k: nat)
    requires ZeroFrom(codes, k)
    ensures Clean(RunCommands(p, cmds, codes, k).trace)
    decreases |cmds|
  {
    if cmds != [] {
      CommandsSucceed(p, cmds[1..], codes, k + 1);
    }
  }

  lemma {:induction false} NodeSucceeds(t: Tree, p: Path, codes: Codes, k: nat)
    requires Located(t) && ZeroFrom(codes, k)
    ensures Clean(RunNode(t, p, codes, k).trace) && RunNode(t, p, codes, k).ret == 0
    decreases t
  {
    if RunnableOf(t) != [] {
      HandlersSucceed(t, p, RunnableOf(t), codes, k);
    } else if CommandsOf(t) != [] {
      CommandsSucceed(p, CommandsOf(t), codes, k);
    } else {
      JobsSucceed(t, p, 0, codes, k);
    }
    CleanMeansZero(t, p, codes, k);
  }

  lemma {:induction false} HandlersSucceed(t: Tree, p: Path, hs: seq<nat>, codes: Codes, k: nat)
    requires Located(t) && ZeroFrom(codes, k) && forall j :: 0 <= j < |hs| ==> hs[j] < |t.handlers|
    ensures Clean(RunHandlers(t, p, hs, codes, k).trace) && RunHandlers(t, p, hs, codes, k).ret == 0
    decreases t, |hs|
  {
    if hs != [] {
      hide RunNode;
      var q := p + [HandlerStep(hs[0])];
      HandlerIsLocated(t, hs[0]);
      NodeSucceeds(t.handlers[hs[0]], q, codes, k);
      NodeLocal(t.handlers[hs[0]], q, codes, codes, k);
      var r := RunNode(t.handlers[hs[0]], q, codes, k);
      HandlersSucceed(t, p, hs[1..], codes, r.calls);
      CleanConcat(r.trace, RunHandlers(t, p, hs[1..], codes, r.calls).trace);
    }
  }

  lemma {:induction false} JobsSucceed(t: Tree, p: Path, i: nat, codes: Codes, k: nat)
    requires i <= |t.jobs| && Located(t) && ZeroFrom(codes, k)
    ensures Clean(RunJobs(t, p, i, codes, k).trace) && RunJobs(t, p, i, codes, k).ret == 0
    decreases t, |t.jobs| - i
  {
    if i < |t.jobs| {
      hide RunNode;
      var q := p + [JobStep(i)];
      assert t.jobs[i] in t.jobs;
      NodeSucceeds(t.jobs[i], q, codes, k);
      NodeLocal(t.jobs[i], q, codes, codes, k);
      var r := RunNode(t.jobs[i], q, codes, k);
      JobsSucceed(t, p, i + 1, codes, r.calls);
      CleanConcat(r.trace, RunJobs(t, p, i + 1, codes, r.calls).trace);
    }
  }

  // ---------- Runs whose first command alone fails ----------

  ghost predicate OnlyAt(codes: Codes, k: nat, c: int) {
    codes(k) == c != 0 && ZeroFrom(codes, k + 1)
  }

  // The run starts at call k, returns c and shows a failed command.
  ghost predicate FailsWith(r: Run, k: nat, c: int) {
    r.ret == c && k < r.calls && !Clean(r.trace)
  }

  lemma {:induction false} ZeroCommands(p: Path, cmds: seq<string>, codes: Codes, k: nat)
    requires ZeroFrom(codes, k)
    ensures RunCommands(p, cmds, codes, k).ret == 0
    decreases |cmds|
  {
    if cmds != [] {
      ZeroCommands(p, cmds[1..], codes, k + 1);
    }
  }

  lemma FirstCommandFails(p: Path, cmds: seq<string>, codes: Codes, k: nat, c: int)
    requires OnlyAt(codes, k, c) && cmds != []
    ensures FailsWith(RunCommands(p, cmds, codes, k), k, c)
  {
    var r := RunCommands(p, cmds, codes, k);
    ZeroCommands(p, cmds[1..], codes, k + 1);
    CommandsLocal(p, cmds, codes, codes, k);
    assert r.trace[0] == Ran(p, cmds[0], c);
  }

  lemma {:induction false} NodeFails(t: Tree, p: Path, codes: Codes, k: nat, c: int)
    requires Located(t) && OnlyAt(codes, k, c) && Flatten(t) != []
    ensures FailsWith(RunNode(t, p, codes, k), k, c)
    decreases t
  {
    if RunnableOf(t) != [] {
      HandlersFail(t, p, RunnableOf(t), codes, k, c);
      CleanConcat([Started(p)], RunHandlers(t, p, RunnableOf(t), codes, k).trace);
    } else if CommandsOf(t) != [] {
      FirstCommandFails(p, CommandsOf(t), codes, k, c);
      CleanConcat([Started(p)], RunCommands(p, CommandsOf(t), codes, k).trace);
    } else {
      JobsFail(t, p, 0, codes, k, c);
      CleanConcat([Started(p)], RunJobs(t, p, 0, codes, k).trace);
    }
  }

  lemma {:induction false} HandlersFail(t: Tree, p: Path, hs: seq<nat>, codes: Codes, k: nat, c: int)
    requires Located(t) && OnlyAt(codes, k, c) && (forall j :: 0 <= j < |hs| ==> hs[j] < |t.handlers|)
             && FlattenHandlers(t, hs) != []
    ensures FailsWith(RunHandlers(t, p, hs, codes, k), k, c)
    decreases t, |hs|
  {
    hide RunNode, Flatten, Clean, ZeroFrom;
    var h, q := t.handlers[hs[0]], p + [HandlerStep(hs[0])];
    HandlerIsLocated(t, hs[0]);
    var r := RunNode(h, q, codes, k);
    var rest := RunHandlers(t, p, hs[1..], codes, r.calls);
    CleanConcat(r.trace, rest.trace);
    if Flatten(h) == [] {
      Unproductive(h, q, codes, k);
      HandlersFail(t, p, hs[1..], codes, k, c);
    } else {
      NodeFails(h, q, codes, k, c);
      ZeroLater(codes, k + 1, r.calls);
      HandlersSucceed(t, p, hs[1..], codes, r.calls);
      HandlersLocal(t, p, hs[1..], codes, codes, r.calls);
    }
  }

  lemma ZeroLater(codes: Codes, k: nat, k': nat)
    requires ZeroFrom(codes, k) && k <= k'
    ensures ZeroFrom(codes, k')
  {
  }

  lemma {:induction false} JobsFail(t: Tree, p: Path, i: nat, codes: Codes, k: nat, c: int)
    requires i <= |t.jobs| && Located(t) && OnlyAt(codes, k, c) && FlattenJobs(t, i) != []
    ensures FailsWith(RunJobs(t, p, i, codes, k), k, c)
    decreases t, |t.jobs| - i
  {
    hide RunNode, Flatten, Clean, RollBackFrom;
    var j, q := t.jobs[i], p + [JobStep(i)];
    assert j in t.jobs;
    var r := RunNode(j, q, codes, k);
    if Flatten(j) == [] {
      Unproductive(j, q, codes, k);
      JobsFail(t, p, i + 1, codes, k, c);
      CleanConcat(r.trace, RunJobs(t, p, i + 1, codes, k).trace);
    } else {
      NodeFails(j, q, codes, k, c);
      var b := RollBackFrom(t, p, i, codes, r.calls);
      RollBackCalls(t, p, i, codes, r.calls);
      CleanConcat(r.trace, [JobFailed(q)]);
      CleanConcat(r.trace + [JobFailed(q)], b.trace);
    }
  }

  // ---------- Failures that cancel ----------

  // These codes, zero outside the run, make a part of a run return 0 with a failed command.
  ghost predicate Cancels(r: Run, codes: Codes, k: nat) {
    r.ret == 0 && !Clean(r.trace) && ZeroFrom(codes, r.calls) && forall n: nat :: n < k ==> codes(n) == 0
  }

  lemma {:induction false} NodeCancels(t: Tree, p: Path, k: nat) returns (codes: Codes)
    requires Located(t) && !Unambiguous(t)
    ensures Cancels(RunNode(t, p, codes, k), codes, k)
    decreases t
  {
    hide Flatten, Located, Clean;
    if RunnableOf(t) != [] {
      assert !UnambiguousHandlers(t, RunnableOf(t));
      codes := HandlersCancel(t, p, RunnableOf(t), k);
      CleanConcat([Started(p)], RunHandlers(t, p, RunnableOf(t), codes, k).trace);
    } else {
      assert !UnambiguousJobs(t);
      var c :| c in t.jobs && !Unambiguous(c);
      codes := JobsCancel(t, p, 0, k, c);
      CleanConcat([Started(p)], RunJobs(t, p, 0, codes, k).trace);
    }
    LocatedHere(t);
  }

  lemma LocatedHere(t: Tree)
    requires Located(t)
    ensures HasSrcDef(t.tab)
  {
  }

  const ZEROS: Codes := (n: nat) => 0

  // Two handlers with commands: the first command of each fails, with -1 and +1.
  lemma TwoCancel(t: Tree, p: Path, hs: seq<nat>, k: nat) returns (codes: Codes)
    requires Located(t) && hs != [] && forall j :: 0 <= j < |hs| ==> hs[j] < |t.handlers|
    requires Flatten(t.handlers[hs[0]]) != [] && FlattenHandlers(t, hs[1..]) != []
    ensures Cancels(RunHandlers(t, p, hs, codes, k), codes, k)
  {
    hide Flatten, FlattenHandlers, Clean, RunNode, Located;
    var h, q := t.handlers[hs[0]], p + [HandlerStep(hs[0])];
    HandlerIsLocated(t, hs[0]);
    var first: Codes := (n: nat) => if n == k then -1 else 0;
    var r := RunNode(h, q, first, k);
    NodeFails(h, q, first, k, -1);
    codes := (n: nat) => if n == k then -1 else if n == r.calls then 1 else 0;
    NodeLocal(h, q, first, codes, k);
    HandlersFail(t, p, hs[1..], codes, r.calls, 1);
    CleanConcat(r.trace, RunHandlers(t, p, hs[1..], codes, r.calls).trace);
  }

  lemma {:induction false} HandlersCancel(t: Tree, p: Path, hs: seq<nat>, k: nat) returns (codes: Codes)
    requires Located(t) && (forall j :: 0 <= j < |hs| ==> hs[j] < |t.handlers|) && !UnambiguousHandlers(t, hs)
    ensures Cancels(RunHandlers(t, p, hs, codes, k), codes, k)
    decreases t, |hs|
  {
    hide Flatten, FlattenHandlers, Clean, RunNode, Located, Unambiguous, Agree;
    var h, q := t.handlers[hs[0]], p + [HandlerStep(hs[0])];
    HandlerIsLocated(t, hs[0]);
    if !Unambiguous(h) {
      codes := NodeCancels(h, q, k);
      var r := RunNode(h, q, codes, k);
      HandlersSucceed(t, p, hs[1..], codes, r.calls);
      HandlersLocal(t, p, hs[1..], codes, codes, r.calls);
      CleanConcat(r.trace, RunHandlers(t, p, hs[1..], codes, r.calls).trace);
    } else if Flatten(h) != [] && FlattenHandlers(t, hs[1..]) != [] {
      codes := TwoCancel(t, p, hs, k);
    } else {
      OthersAreAmbiguous(t, hs);
      NodeSucceeds(h, q, ZEROS, k);
      var r := RunNode(h, q, ZEROS, k);
      codes := HandlersCancel(t, p, hs[1..], r.calls);
      AgreeOnZeros(codes, k, r.calls);
      NodeLocal(h, q, ZEROS, codes, k);
      CleanConcat(r.trace, RunHandlers(t, p, hs[1..], codes, r.calls).trace);
    }
  }

  lemma AgreeOnZeros(codes: Codes, k: nat, k': nat)
    requires forall n: nat :: n < k' ==> codes(n) == 0
    ensures Agree(ZEROS, codes, k, k')
  {
  }

  lemma OthersAreAmbiguous(t: Tree, hs: seq<nat>)
    requires hs != [] && (forall j :: 0 <= j < |hs| ==> hs[j] < |t.handlers|) && !UnambiguousHandlers(t, hs)
    requires Unambiguous(t.handlers[hs[0]]) && (Flatten(t.handlers[hs[0]]) == [] || FlattenHandlers(t, hs[1..]) == [])
    ensures !UnambiguousHandlers(t, hs[1..])
  {
    hide Flatten, Unambiguous;
    if UnambiguousHandlers(t, hs[1..]) {
      forall i, j | 0 <= i < j < |hs| ensures Flatten(t.handlers[hs[i]]) == [] || Flatten(t.handlers[hs[j]]) == [] {
        if i > 0 {
          assert hs[1..][i - 1] == hs[i] && hs[1..][j - 1] == hs[j];
        } else if Flatten(t.handlers[hs[0]]) != [] {
          EmptyParts(t, hs[1..], j - 1);
        }
      }
      forall j | 0 <= j < |hs| ensures Unambiguous(t.handlers[hs[j]]) {
        assert j > 0 ==> hs[1..][j - 1] == hs[j];
      }
    }
  }

  lemma {:induction false} EmptyParts(t: Tree, hs: seq<nat>, j: nat)
    requires j < |hs| && (forall j :: 0 <= j < |hs| ==> hs[j] < |t.handlers|) && FlattenHandlers(t, hs) == []
    ensures Flatten(t.handlers[hs[j]]) == []
    decreases j
  {
    if j > 0 {
      EmptyParts(t, hs[1..], j - 1);
    }
  }

  lemma {:induction false} JobsCancel(t: Tree, p: Path, i: nat, k: nat, c: Tree) returns (codes: Codes)
    requires Located(t) && i <= |t.jobs| && c in t.jobs[i..] && !Unambiguous(c)
    ensures Cancels(RunJobs(t, p, i, codes, k), codes, k)
    decreases t, |t.jobs| - i
  {
    hide Clean, RunNode, Unambiguous, Agree;
    var j, q := t.jobs[i], p + [JobStep(i)];
    assert j in t.jobs;
    if j == c {
      codes := NodeCancels(j, q, k);
      var r := RunNode(j, q, codes, k);
      JobsSucceed(t, p, i + 1, codes, r.calls);
      JobsLocal(t, p, i + 1, codes, codes, r.calls);
      CleanConcat(r.trace, RunJobs(t, p, i + 1, codes, r.calls).trace);
    } else {
      NodeSucceeds(j, q, ZEROS, k);
      var r := RunNode(j, q, ZEROS, k);
      codes := JobsCancel(t, p, i + 1, r.calls, c);
      AgreeOnZeros(codes, k, r.calls);
      NodeLocal(j, q, ZEROS, codes, k);
      CleanConcat(r.trace, RunJobs(t, p, i + 1, codes, r.calls).trace);
    }
  }

  ghost predicate TellsTheTruth(t: Tree, codes: Codes) {
    RunNode(t, [], codes, 0).ret == 0 <==> Clean(RunNode(t, [], codes, 0).trace)
  }

  /** Return code 0 means that all commands succeeded, whatever the exit codes are, exactly for the
      trees in which no node starts two handlers that both have commands. */
  lemma TruthfulIffUnambiguous(t: Tree)
    requires Located(t)
    ensures (forall codes :: TellsTheTruth(t, codes)) <==> Unambiguous(t)
  {
    if Unambiguous(t) {
      forall codes ensures TellsTheTruth(t, codes) {
        NodeTruthful(t, [], codes, 0);
      }
    } else {
      var codes := NodeCancels(t, [], 0);
      assert !TellsTheTruth(t, codes);
    }
  }
}
