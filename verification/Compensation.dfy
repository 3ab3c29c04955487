/** Rollback as a discipline over whole runs, and what the warning counter counts. */
module Compensation {
  import opened Wrappers
  import opened Tables
  import opened Expansion
  import opened Execution
  import opened Runs

  // ---------- The discipline ----------

  // The events strictly below the node at p.
  function Below(trace: seq<Event>, p: Path): seq<Event> {
    if trace == [] then []
    else (if p < trace[0].path then [trace[0]] else []) + Below(trace[1..], p)
  }

  predicate Undoes(e: Event) {
    e.Visited? || e.Undid?
  }

  // No child of p fails as a job or is rolled back.
  ghost predicate Quiet(u: seq<Event>, p: Path) {
    forall e :: e in u && |e.path| == |p| + 1 ==> !Undoes(e) && !e.JobFailed?
  }

  // Every event belongs to one of the jobs 0..i of p.
  ghost predicate UpToJob(u: seq<Event>, p: Path, i: nat) {
    forall e :: e in u ==> |p| < |e.path| && e.path[|p|].JobStep? && e.path[|p|].i <= i
  }

  function ChildOf(t: Tree, s: Step): Option<Tree> {
    match s
    case JobStep(i) => if i < |t.jobs| then Some(t.jobs[i]) else None
    case HandlerStep(i) => if i < |t.handlers| then Some(t.handlers[i]) else None
  }

  // The node of t that the path leads to.
  function NodeAt(t: Tree, path: Path): Option<Tree>
    decreases |path|
  {
    if path == [] then Some(t)
    else
      match ChildOf(t, path[0])
      case None => None
      case Some(c) => NodeAt(c, path[1..])
  }

  // The jobs i, i - 1, ..., 0 of t at p are visited in that order, each with all its ROLLBACK
  // commands.
  ghost predicate RollbackBlock(b: seq<Event>, t: Tree, p: Path, i: nat)
    requires i < |t.jobs|
    decreases i
  {
    && b != [] && b[0].Visited?
    && var n := b[0].actions;
       && n < |b| && IsVisit(b[..n + 1], t.jobs[i].tab, p + [JobStep(i)])
       && if i == 0 then |b| == n + 1 else RollbackBlock(b[n + 1..], t, p, i - 1)
  }

  ghost predicate FailsAt(u: seq<Event>, t: Tree, p: Path, i: nat, w: seq<Event>, b: seq<Event>) {
    && i < |t.jobs| && u == w + [JobFailed(p + [JobStep(i)])] + b
    && Quiet(w, p) && UpToJob(w, p, i) && RollbackBlock(b, t, p, i)
  }

  // Below the node t at p either nothing fails, or a job i fails, then jobs i down to 0 are rolled
  // back, and then nothing more happens: everything else concerns these jobs and comes before.
  ghost predicate Saga(u: seq<Event>, t: Option<Tree>, p: Path) {
    Quiet(u, p) || (t.Some? && exists i: nat, w, b :: FailsAt(u, t.value, p, i, w, b))
  }

  // ---------- Where events happen ----------

  ghost predicate StrictlyBelow(u: seq<Event>, p: Path) {
    forall e :: e in u ==> p < e.path
  }

  // The events of the run of a node at p: at p or below, and p itself is neither failed nor undone.
  ghost predicate Confined(u: seq<Event>, p: Path) {
    forall e :: e in u ==> p <= e.path && (Undoes(e) || e.JobFailed? ==> p < e.path)
  }

  lemma {:induction false} CommandsConfined(p: Path, cmds: seq<string>, codes: Codes, k: nat)
    ensures forall e :: e in RunCommands(p, cmds, codes, k).trace ==> e.Ran? && e.path == p
    decreases |cmds|
  {
    if cmds != [] {
      CommandsConfined(p, cmds[1..], codes, k + 1);
    }
  }

  lemma {:induction false} RollBackIsBlock(t: Tree, p: Path, i: nat, codes: Codes, k: nat)
    requires i < |t.jobs|
    ensures RollbackBlock(RollBackFrom(t, p, i, codes, k).trace, t, p, i)
    decreases i
  {
    hide RollBack, HasSrcDef;
    var q, tab := p + [JobStep(i)], t.jobs[i].tab;
    var r, b := RollBack(tab, q, codes, k), RollBackFrom(t, p, i, codes, k).trace;
    OneVisit(tab, q, codes, k);
    assert b[..|r.trace|] == r.trace;
    if i > 0 {
      RollBackIsBlock(t, p, i - 1, codes, r.calls);
      assert b[|r.trace|..] == RollBackFrom(t, p, i - 1, codes, r.calls).trace;
    }
  }

  lemma VisitEvents(v: seq<Event>, tab: Table, q: Path)
    requires IsVisit(v, tab, q)
    ensures forall e :: e in v ==> e.path == q && Undoes(e)
    ensures forall x :: 0 < x < |v| ==> !v[x].Visited?
  {
  }

  lemma {:induction false} BlockEvents(b: seq<Event>, t: Tree, p: Path, i: nat)
    requires i < |t.jobs| && RollbackBlock(b, t, p, i)
    ensures forall e :: e in b ==> p < e.path && |e.path| == |p| + 1 && Undoes(e) && e.path[|p|].JobStep?
    decreases i
  {
    hide IsVisit;
    var n := b[0].actions;
    VisitEvents(b[..n + 1], t.jobs[i].tab, p + [JobStep(i)]);
    if i > 0 {
      BlockEvents(b[n + 1..], t, p, i - 1);
    }
    forall e | e in b ensures p < e.path && |e.path| == |p| + 1 && Undoes(e) && e.path[|p|].JobStep? {
      if e !in b[..n + 1] {
        assert b == b[..n + 1] + b[n + 1..];
        assert e in b[n + 1..];
      }
    }
  }

  lemma {:induction false} NodeConfined(t: Tree, p: Path, codes: Codes, k: nat)
    ensures Confined(RunNode(t, p, codes, k).trace, p)
    decreases t
  {
    if RunnableOf(t) != [] {
      HandlersConfined(t, p, RunnableOf(t), codes, k);
    } else if CommandsOf(t) != [] {
      CommandsConfined(p, CommandsOf(t), codes, k);
    } else if t.jobs != [] {
      JobsConfined(t, p, 0, codes, k);
    }
  }

  lemma {:induction false} HandlersConfined(t: Tree, p: Path, hs: seq<nat>, codes: Codes, k: nat)
    requires forall j :: 0 <= j < |hs| ==> hs[j] < |t.handlers|
    ensures var u := RunHandlers(t, p, hs, codes, k).trace;
            StrictlyBelow(u, p) && Quiet(u, p) && forall e :: e in u ==> e.path[|p|].HandlerStep? && e.path[|p|].i in hs
    decreases t, |hs|
  {
    if hs != [] {
      var q := p + [HandlerStep(hs[0])];
      NodeConfined(t.handlers[hs[0]], q, codes, k);
      var r := RunNode(t.handlers[hs[0]], q, codes, k);
      HandlersConfined(t, p, hs[1..], codes, r.calls);
      forall e | e in r.trace ensures e.path[|p|] == HandlerStep(hs[0]) && p < e.path {
        assert e.path[..|q|] == q;
      }
      assert hs[0] in hs;
    }
  }

  ghost predicate JobEvents(u: seq<Event>, p: Path) {
    forall e :: e in u ==> p < e.path && e.path[|p|].JobStep?
  }

  lemma RollBackEvents(t: Tree, p: Path, i: nat, codes: Codes, k: nat)
    requires i < |t.jobs|
    ensures var b := RollBackFrom(t, p, i, codes, k).trace;
            JobEvents(b, p) && forall e :: e in b ==> |e.path| == |p| + 1
  {
    RollBackIsBlock(t, p, i, codes, k);
    BlockEvents(RollBackFrom(t, p, i, codes, k).trace, t, p, i);
  }

  lemma JobEventsConcat(a: seq<Event>, b: seq<Event>, p: Path)
    requires JobEvents(a, p) && JobEvents(b, p)
    ensures JobEvents(a + b, p)
  {
  }

  // The trace of the job loop from i on.
  lemma JobLoopTrace(t: Tree, p: Path, i: nat, codes: Codes, k: nat)
    requires i < |t.jobs|
    ensures var q := p + [JobStep(i)];
            var r := RunNode(t.jobs[i], q, codes, k);
            RunJobs(t, p, i, codes, k).trace ==
            if r.ret == 0 then r.trace + RunJobs(t, p, i + 1, codes, r.calls).trace
            else r.trace + [JobFailed(q)] + RollBackFrom(t, p, i, codes, r.calls).trace
  {
  }

  lemma {:induction false} JobsConfined(t: Tree, p: Path, i: nat, codes: Codes, k: nat)
    requires i <= |t.jobs|
    ensures JobEvents(RunJobs(t, p, i, codes, k).trace, p)
    decreases t, |t.jobs| - i
  {
    if i < |t.jobs| {
      hide RunNode, RunJobs, RollBackFrom;
      var r := RunNode(t.jobs[i], p + [JobStep(i)], codes, k);
      JobConfined(t, p, i, codes, k);
      JobLoopTrace(t, p, i, codes, k);
      if r.ret == 0 {
        JobsConfined(t, p, i + 1, codes, r.calls);
        JobEventsConcat(r.trace, RunJobs(t, p, i + 1, codes, r.calls).trace, p);
      } else {
        RollBackEvents(t, p, i, codes, r.calls);
        JobEventsConcat(r.trace, [JobFailed(p + [JobStep(i)])], p);
        JobEventsConcat(r.trace + [JobFailed(p + [JobStep(i)])], RollBackFrom(t, p, i, codes, r.calls).trace, p);
      }
    }
  }

  lemma {:induction false} JobConfined(t: Tree, p: Path, i: nat, codes: Codes, k: nat)
    requires i < |t.jobs|
    ensures var u := RunNode(t.jobs[i], p + [JobStep(i)], codes, k).trace;
            StrictlyBelow(u, p) && Quiet(u, p) && forall e :: e in u ==> e.path[|p|] == JobStep(i)
    decreases t, 0
  {
    var q := p + [JobStep(i)];
    NodeConfined(t.jobs[i], q, codes, k);
    forall e | e in RunNode(t.jobs[i], q, codes, k).trace ensures e.path[|p|] == JobStep(i) && p < e.path {
      assert e.path[..|q|] == q;
    }
  }

  lemma {:induction false} BelowConcat(a: seq<Event>, b: seq<Event>, p: Path)
    ensures Below(a + b, p) == Below(a, p) + Below(b, p)
  {
    if a == [] {
      assert a + b == b;
    } else {
      assert (a + b)[1..] == a[1..] + b;
      BelowConcat(a[1..], b, p);
    }
  }

  lemma {:induction false} BelowAll(u: seq<Event>, p: Path)
    requires StrictlyBelow(u, p)
    ensures Below(u, p) == u
  {
    if u != [] {
      assert u[0] in u;
      BelowAll(u[1..], p);
    }
  }

  lemma {:induction false} BelowNone(u: seq<Event>, p: Path)
    requires forall e :: e in u ==> !(p < e.path)
    ensures Below(u, p) == []
  {
    if u != [] {
      assert u[0] in u;
      BelowNone(u[1..], p);
    }
  }

  // ---------- Every run keeps the discipline ----------

  // A saga whose failing job, if any, is not before job i.
  ghost predicate SagaFrom(u: seq<Event>, t: Tree, p: Path, i: nat) {
    Quiet(u, p) || exists failed: nat, w, b :: i <= failed && FailsAt(u, t, p, failed, w, b)
  }

  // A job that succeeds before the rest of the loop.
  lemma SagaLater(a: seq<Event>, u: seq<Event>, t: Tree, p: Path, i: nat)
    requires Quiet(a, p) && UpToJob(a, p, i) && SagaFrom(u, t, p, i + 1)
    ensures SagaFrom(a + u, t, p, i)
  {
    if !Quiet(u, p) {
      var failed: nat, w, b :| i + 1 <= failed && FailsAt(u, t, p, failed, w, b);
      var f := [JobFailed(p + [JobStep(failed)])];
      assert a + (w + f + b) == (a + w) + f + b;
      assert FailsAt(a + u, t, p, failed, a + w, b);
    }
  }

  // A job that fails.
  lemma SagaNow(t: Tree, p: Path, i: nat, codes: Codes, k: nat, w: seq<Event>)
    requires i < |t.jobs| && Quiet(w, p) && UpToJob(w, p, i)
    ensures SagaFrom(w + [JobFailed(p + [JobStep(i)])] + RollBackFrom(t, p, i, codes, k).trace, t, p, i)
  {
    RollBackIsBlock(t, p, i, codes, k);
    var b := RollBackFrom(t, p, i, codes, k).trace;
    assert FailsAt(w + [JobFailed(p + [JobStep(i)])] + b, t, p, i, w, b);
  }

  lemma JobUpTo(u: seq<Event>, p: Path, i: nat)
    requires StrictlyBelow(u, p) && forall e :: e in u ==> e.path[|p|] == JobStep(i)
    ensures UpToJob(u, p, i)
  {
  }

  lemma {:induction false} JobLoopSaga(t: Tree, p: Path, i: nat, codes: Codes, k: nat)
    requires i <= |t.jobs|
    ensures SagaFrom(RunJobs(t, p, i, codes, k).trace, t, p, i)
    decreases |t.jobs| - i
  {
    if i < |t.jobs| {
      hide RunNode, RunJobs, RollBackFrom, SagaFrom, Quiet;
      var r := RunNode(t.jobs[i], p + [JobStep(i)], codes, k);
      JobConfined(t, p, i, codes, k);
      JobUpTo(r.trace, p, i);
      JobLoopTrace(t, p, i, codes, k);
      if r.ret == 0 {
        JobLoopSaga(t, p, i + 1, codes, r.calls);
        SagaLater(r.trace, RunJobs(t, p, i + 1, codes, r.calls).trace, t, p, i);
      } else {
        SagaNow(t, p, i, codes, r.calls, r.trace);
      }
    }
  }

  lemma BelowStart(e: Event, u: seq<Event>, p: Path, at: Path)
    requires e.path == p <= at
    ensures Below([e] + u, at) == Below(u, at)
  {
  }

  lemma {:induction false} NodeSaga(t: Tree, p: Path, codes: Codes, k: nat, at: Path)
    requires p <= at
    ensures Saga(Below(RunNode(t, p, codes, k).trace, at), NodeAt(t, at[|p|..]), at)
    decreases t
  {
    hide Saga, RunHandlers, RunJobs, RunCommands;
    EmptySaga(NodeAt(t, at[|p|..]), at);
    if HasSrcDef(t.tab) {
      var hs := RunnableOf(t);
      if hs != [] {
        BelowStart(Started(p), RunHandlers(t, p, hs, codes, k).trace, p, at);
        HandlersSaga(t, p, hs, codes, k, at);
      } else if CommandsOf(t) != [] {
        var u := RunCommands(p, CommandsOf(t), codes, k).trace;
        CommandsConfined(p, CommandsOf(t), codes, k);
        BelowStart(Started(p), u, p, at);
        BelowNone(u, at);
      } else if t.jobs != [] {
        BelowStart(Started(p), RunJobs(t, p, 0, codes, k).trace, p, at);
        JobsSaga(t, p, codes, k, at);
      } else {
        BelowStart(Started(p), [FellThrough(p)], p, at);
        BelowNone([FellThrough(p)], at);
      }
    }
  }

  lemma StepDown(t: Tree, p: Path, at: Path)
    requires p < at
    ensures var q := p + [at[|p|]];
            && q <= at
            && NodeAt(t, at[|p|..]) ==
               match ChildOf(t, at[|p|]) case None => None case Some(c) => NodeAt(c, at[|q|..])
  {
    assert at[|p|..][1..] == at[|p| + 1..];
  }

  // A node that is not below another's child has none of that child's events below it.
  lemma OutOfTheWay(u: seq<Event>, q: Path, at: Path)
    requires Confined(u, q) && |q| <= |at| && !(q <= at)
    ensures Below(u, at) == []
  {
  }

  lemma EmptySaga(t: Option<Tree>, p: Path)
    ensures Saga([], t, p)
  {
  }

  lemma HandlersQuiet(t: Tree, p: Path, hs: seq<nat>, codes: Codes, k: nat)
    requires forall j :: 0 <= j < |hs| ==> hs[j] < |t.handlers|
    ensures Saga(RunHandlers(t, p, hs, codes, k).trace, Some(t), p)
  {
    HandlersConfined(t, p, hs, codes, k);
  }

  lemma {:induction false} HandlersSaga(t: Tree, p: Path, hs: seq<nat>, codes: Codes, k: nat, at: Path)
    requires p <= at && forall j :: 0 <= j < |hs| ==> hs[j] < |t.handlers|
    requires forall i, j :: 0 <= i < j < |hs| ==> hs[i] < hs[j]
    ensures Saga(Below(RunHandlers(t, p, hs, codes, k).trace, at), NodeAt(t, at[|p|..]), at)
    decreases t, |hs|
  {
    hide RunNode, Quiet, Saga;
    EmptySaga(NodeAt(t, at[|p|..]), at);
    HandlersConfined(t, p, hs, codes, k);
    if p == at {
      HandlersQuiet(t, p, hs, codes, k);
      BelowAll(RunHandlers(t, p, hs, codes, k).trace, at);
    } else if hs != [] {
      var q := p + [HandlerStep(hs[0])];
      var r := RunNode(t.handlers[hs[0]], q, codes, k);
      var rest := RunHandlers(t, p, hs[1..], codes, r.calls);
      assert RunHandlers(t, p, hs, codes, k).trace == r.trace + rest.trace;
      BelowConcat(r.trace, rest.trace, at);
      if at[|p|] == HandlerStep(hs[0]) {
        assert q <= at;
        StepDown(t, p, at);
        NodeSaga(t.handlers[hs[0]], q, codes, k, at);
        HandlersConfined(t, p, hs[1..], codes, r.calls);
        assert forall e :: e in rest.trace && at < e.path ==> e.path[|p|] == at[|p|];
        BelowNone(rest.trace, at);
        assert Below(r.trace, at) + [] == Below(r.trace, at);
      } else {
        NodeConfined(t.handlers[hs[0]], q, codes, k);
        assert !(q <= at);
        OutOfTheWay(r.trace, q, at);
        HandlersSaga(t, p, hs[1..], codes, r.calls, at);
        assert [] + Below(rest.trace, at) == Below(rest.trace, at);
      }
    }
  }

  lemma {:induction false} JobsSagaHere(t: Tree, p: Path, codes: Codes, k: nat)
    ensures var u := RunJobs(t, p, 0, codes, k).trace; Saga(Below(u, p), Some(t), p)
  {
    var u := RunJobs(t, p, 0, codes, k).trace;
    JobsConfined(t, p, 0, codes, k);
    BelowAll(u, p);
    JobLoopSaga(t, p, 0, codes, k);
  }

  // Events of children of p themselves are not below anything that is below p.
  lemma BelowTail(u: seq<Event>, f: Event, b: seq<Event>, p: Path, at: Path)
    requires p < at && |f.path| == |p| + 1 && forall e :: e in b ==> |e.path| == |p| + 1
    ensures Below(u + [f] + b, at) == Below(u, at)
  {
    BelowConcat(u + [f], b, at);
    BelowConcat(u, [f], at);
    BelowNone([f], at);
    BelowNone(b, at);
  }

  // Below a job of p, the loop shows nothing but that job's own run.
  lemma {:induction false} JobsBelow(t: Tree, p: Path, i: nat, codes: Codes, k: nat, at: Path) returns (k': nat)
    requires p < at && i <= |t.jobs|
    ensures var u := Below(RunJobs(t, p, i, codes, k).trace, at);
            u == [] || (at[|p|].JobStep? && i <= at[|p|].i < |t.jobs|
                        && u == Below(RunNode(t.jobs[at[|p|].i], p + [at[|p|]], codes, k').trace, at))
    decreases |t.jobs| - i
  {
    k' := k;
    if i < |t.jobs| {
      var q := p + [JobStep(i)];
      var r := RunNode(t.jobs[i], q, codes, k);
      NodeConfined(t.jobs[i], q, codes, k);
      if at[|p|] != JobStep(i) {
        assert !(q <= at);
        OutOfTheWay(r.trace, q, at);
      }
      JobLoopTrace(t, p, i, codes, k);
      if r.ret == 0 {
        var rest := RunJobs(t, p, i + 1, codes, r.calls).trace;
        BelowConcat(r.trace, rest, at);
        var j := JobsBelow(t, p, i + 1, codes, r.calls, at);
        k' := if at[|p|] == JobStep(i) then k else j;
        assert Below(r.trace, at) + [] == Below(r.trace, at) && [] + Below(rest, at) == Below(rest, at);
      } else {
        var b := RollBackFrom(t, p, i, codes, r.calls).trace;
        RollBackEvents(t, p, i, codes, r.calls);
        BelowTail(r.trace, JobFailed(q), b, p, at);
      }
    }
  }

  lemma {:induction false} JobsSaga(t: Tree, p: Path, codes: Codes, k: nat, at: Path)
    requires p <= at
    ensures Saga(Below(RunJobs(t, p, 0, codes, k).trace, at), NodeAt(t, at[|p|..]), at)
    decreases t, 0
  {
    if p == at {
      JobsSagaHere(t, p, codes, k);
    } else {
      var k' := JobsBelow(t, p, 0, codes, k, at);
      StepDown(t, p, at);
      if Below(RunJobs(t, p, 0, codes, k).trace, at) != [] {
        assert p + [at[|p|]] <= at;
        NodeSaga(t.jobs[at[|p|].i], p + [at[|p|]], codes, k', at);
      }
    }
  }

  // ---------- How often a node is rolled back ----------

  function Visits(u: seq<Event>, path: Path): nat {
    if u == [] then 0
    else (if u[0].Visited? && u[0].path == path then 1 else 0) + Visits(u[1..], path)
  }

  lemma {:induction false} VisitsConcat(a: seq<Event>, b: seq<Event>, path: Path)
    ensures Visits(a + b, path) == Visits(a, path) + Visits(b, path)
  {
    if a == [] {
      assert a + b == b;
    } else {
      assert (a + b)[1..] == a[1..] + b;
      VisitsConcat(a[1..], b, path);
    }
  }

  lemma {:induction false} VisitsBelow(u: seq<Event>, p: Path, path: Path)
    requires p < path
    ensures Visits(Below(u, p), path) == Visits(u, path)
  {
    if u != [] {
      VisitsBelow(u[1..], p, path);
      VisitsConcat(if p < u[0].path then [u[0]] else [], Below(u[1..], p), path);
    }
  }

  lemma {:induction false} NoVisits(u: seq<Event>, path: Path)
    requires forall e :: e in u && e.Visited? ==> e.path != path
    ensures Visits(u, path) == 0
  {
    if u != [] {
      assert u[0] in u;
      NoVisits(u[1..], path);
    }
  }

  lemma {:induction false} BlockVisits(b: seq<Event>, t: Tree, p: Path, i: nat, s: Step)
    requires i < |t.jobs| && RollbackBlock(b, t, p, i)
    ensures Visits(b, p + [s]) == if s.JobStep? && s.i <= i then 1 else 0
    decreases i
  {
    hide IsVisit;
    var n, path := b[0].actions, p + [s];
    VisitEvents(b[..n + 1], t.jobs[i].tab, p + [JobStep(i)]);
    assert b[..n + 1][0] == b[0];
    var head, rest := b[1..n + 1], b[n + 1..];
    assert b == [b[0]] + head + rest;
    VisitsConcat([b[0]] + head, rest, path);
    VisitsConcat([b[0]], head, path);
    NoVisits(head, path);
    assert (p + [JobStep(i)])[|p|] == JobStep(i) && path[|p|] == s;
    if i > 0 {
      BlockVisits(rest, t, p, i - 1, s);
    }
  }

  /** In every run and at every node: when job i fails, exactly the jobs i, i - 1, ..., 0 are
      rolled back, in that order and after everything that happened in them, each by all its
      ROLLBACK commands in order, empty ones included, unless the first is empty; later jobs never
      start. No node instance is rolled back twice, and the root never is. */
  lemma RollbackDiscipline(t: Tree, codes: Codes, at: Path)
    ensures var u := RunNode(t, [], codes, 0).trace;
            Saga(Below(u, at), NodeAt(t, at), at) && Visits(u, at) <= 1 && Visits(u, []) == 0
  {
    var u := RunNode(t, [], codes, 0).trace;
    assert at[0..] == at;
    NodeSaga(t, [], codes, 0, at);
    NodeConfined(t, [], codes, 0);
    NoVisits(u, []);
    if at != [] {
      var p, s := at[..|at| - 1], at[|at| - 1];
      NodeSaga(t, [], codes, 0, p);
      assert at == p + [s] && p[0..] == p;
      VisitsBelow(u, p, at);
      SagaVisits(Below(u, p), NodeAt(t, p), p, s);
    }
  }

  lemma SagaVisits(u: seq<Event>, t: Option<Tree>, p: Path, s: Step)
    requires Saga(u, t, p)
    ensures Visits(u, p + [s]) <= 1
  {
    if Quiet(u, p) {
      NoVisits(u, p + [s]);
    } else {
      var i: nat, w, b :| FailsAt(u, t.value, p, i, w, b);
      var f := [JobFailed(p + [JobStep(i)])];
      VisitsConcat(w + f, b, p + [s]);
      VisitsConcat(w, f, p + [s]);
      NoVisits(w, p + [s]);
      BlockVisits(b, t.value, p, i, s);
    }
  }

  // ---------- Warnings ----------

  function Failures(u: seq<Event>): nat {
    if u == [] then 0 else (if u[0].JobFailed? then 1 else 0) + Failures(u[1..])
  }

  // Rollback visits of a job at position 0, the last of every rollback.
  function Rollbacks(u: seq<Event>): nat {
    if u == [] then 0
    else
      (if u[0].Visited? && u[0].path != [] && u[0].path[|u[0].path| - 1] == JobStep(0) then 1 else 0)
      + Rollbacks(u[1..])
  }

  // Rollback visits that found no action.
  function EmptyVisits(u: seq<Event>): nat {
    if u == [] then 0 else (if u[0].Visited? && u[0].actions == 0 then 1 else 0) + EmptyVisits(u[1..])
  }

  lemma {:induction false} CountsConcat(a: seq<Event>, b: seq<Event>)
    ensures Failures(a + b) == Failures(a) + Failures(b)
    ensures Rollbacks(a + b) == Rollbacks(a) + Rollbacks(b)
    ensures EmptyVisits(a + b) == EmptyVisits(a) + EmptyVisits(b)
  {
    if a == [] {
      assert a + b == b;
    } else {
      assert (a + b)[1..] == a[1..] + b;
      CountsConcat(a[1..], b);
    }
  }

  lemma {:induction false} NothingToCount(u: seq<Event>)
    requires forall e :: e in u ==> !e.Visited? && !e.JobFailed?
    ensures Failures(u) == 0 && Rollbacks(u) == 0 && EmptyVisits(u) == 0
  {
    if u != [] {
      assert u[0] in u;
      NothingToCount(u[1..]);
    }
  }

  ghost predicate Conserved(r: Run, pending: nat) {
    && r.errors == 0 && r.warnings + pending == Rollbacks(r.trace) + EmptyVisits(r.trace)
    && Failures(r.trace) + pending == Rollbacks(r.trace)
  }

  lemma PlusConserved(a: Run, b: Run, x: nat, y: nat)
    requires Conserved(a, x) && Conserved(b, y)
    ensures Conserved(a.Plus(b), x + y)
  {
    CountsConcat(a.trace, b.trace);
  }

  // The rollback of a loop contains the visit of job 0 that stands for the loop's own warning.
  lemma {:induction false} RollBackConserves(t: Tree, p: Path, i: nat, codes: Codes, k: nat)
    requires i < |t.jobs| && Located(t)
    ensures Conserved(RollBackFrom(t, p, i, codes, k), 1)
    decreases i
  {
    var q, tab := p + [JobStep(i)], t.jobs[i].tab;
    assert t.jobs[i] in t.jobs;
    var actions, r := ActionsOf(tab), RollBack(tab, q, codes, k);
    var undo := Undo(q, actions, codes, k);
    UndoEvents(q, actions, codes, k);
    UndoCounts(q, actions, codes, k);
    NothingToCount(undo.trace);
    CountsConcat([Visited(q, |actions|)], undo.trace);
    if i > 0 {
      RollBackConserves(t, p, i - 1, codes, r.calls);
      PlusConserved(r, RollBackFrom(t, p, i - 1, codes, r.calls), 0, 1);
    }
  }

  lemma {:induction false} UndoCounts(p: Path, actions: seq<string>, codes: Codes, k: nat)
    ensures Undo(p, actions, codes, k).errors == 0 && Undo(p, actions, codes, k).warnings == 0
    decreases |actions|
  {
    if actions != [] {
      UndoCounts(p, actions[1..], codes, k + 1);
    }
  }

  lemma {:induction false} CommandsConserve(p: Path, cmds: seq<string>, codes: Codes, k: nat)
    ensures Conserved(RunCommands(p, cmds, codes, k), 0)
    decreases |cmds|
  {
    if cmds != [] {
      CommandsConserve(p, cmds[1..], codes, k + 1);
    }
  }

  lemma {:induction false} NodeConserves(t: Tree, p: Path, codes: Codes, k: nat)
    requires Located(t)
    ensures Conserved(RunNode(t, p, codes, k), 0)
    decreases t
  {
    if RunnableOf(t) != [] {
      HandlersConserve(t, p, RunnableOf(t), codes, k);
    } else if CommandsOf(t) != [] {
      CommandsConserve(p, CommandsOf(t), codes, k);
    } else if t.jobs != [] {
      JobsConserve(t, p, 0, codes, k);
    } else {
      NothingToCount([Started(p), FellThrough(p)]);
    }
  }

  lemma {:induction false} HandlersConserve(t: Tree, p: Path, hs: seq<nat>, codes: Codes, k: nat)
    requires Located(t) && forall j :: 0 <= j < |hs| ==> hs[j] < |t.handlers|
    ensures Conserved(RunHandlers(t, p, hs, codes, k), 0)
    decreases t, |hs|
  {
    if hs != [] {
      assert t.handlers[hs[0]] in t.handlers;
      NodeConserves(t.handlers[hs[0]], p + [HandlerStep(hs[0])], codes, k);
      var r := RunNode(t.handlers[hs[0]], p + [HandlerStep(hs[0])], codes, k);
      HandlersConserve(t, p, hs[1..], codes, r.calls);
      PlusConserved(r, RunHandlers(t, p, hs[1..], codes, r.calls), 0, 0);
    }
  }

  lemma {:induction false} JobsConserve(t: Tree, p: Path, i: nat, codes: Codes, k: nat)
    requires Located(t) && i <= |t.jobs|
    ensures Conserved(RunJobs(t, p, i, codes, k), 0)
    decreases t, |t.jobs| - i
  {
    if i < |t.jobs| {
      assert t.jobs[i] in t.jobs;
      var q := p + [JobStep(i)];
      NodeConserves(t.jobs[i], q, codes, k);
      var r := RunNode(t.jobs[i], q, codes, k);
      if r.ret == 0 {
        JobsConserve(t, p, i + 1, codes, r.calls);
        PlusConserved(r, RunJobs(t, p, i + 1, codes, r.calls), 0, 0);
      } else {
        var b := RollBackFrom(t, p, i, codes, r.calls);
        RollBackConserves(t, p, i, codes, r.calls);
        CountsConcat(r.trace, [JobFailed(q)]);
        CountsConcat(r.trace + [JobFailed(q)], b.trace);
      }
    }
  }

  /** A run of located nodes adds no error; its warnings are the jobs that failed plus the rollback
      visits that found nothing to do; and each failure leads to one rollback, down to job 0. */
  lemma WarningsAreConserved(t: Tree, codes: Codes)
    requires Located(t)
    ensures var r := RunNode(t, [], codes, 0);
            && r.errors == 0 && r.warnings == Failures(r.trace) + EmptyVisits(r.trace)
            && Failures(r.trace) == Rollbacks(r.trace)
  {
    NodeConserves(t, [], codes, 0);
  }
}
