/** What the nodes of a tree do in a run: which trees never reach the fall-through at the end of
    `kbbi_run`. */
module Activity {
  import opened Tables
  import opened Expansion
  import opened Execution
  import opened Runs
  import opened ExitCodes
  import opened Compensation
  import opened Linting

  // ---------- What a node does in a run ----------

  // A node executes a command, starts a handler, or starts a job.
  ghost predicate Executed(u: seq<Event>, q: Path) {
    exists e :: e in u && e.Ran? && e.path == q
  }

  ghost predicate Signalled(u: seq<Event>, q: Path) {
    exists i: nat :: Started(q + [HandlerStep(i)]) in u
  }

  ghost predicate Invoked(u: seq<Event>, q: Path) {
    exists i: nat :: Started(q + [JobStep(i)]) in u
  }

  ghost predicate DoesOneThing(u: seq<Event>, q: Path) {
    OnlyOne(Executed(u, q), Signalled(u, q), Invoked(u, q)) && FellThrough(q) !in u
  }

  // Every node that a run without failures reaches has something to do.
  ghost predicate Active(t: Tree)
    decreases t
  {
    if RunnableOf(t) != [] then forall j :: 0 <= j < |RunnableOf(t)| ==> Active(t.handlers[RunnableOf(t)[j]])
    else CommandsOf(t) != [] || (t.jobs != [] && forall c :: c in t.jobs ==> Active(c))
  }

  predicate Acting(e: Event) {
    e.Started? || e.Ran? || e.FellThrough?
  }

  // Nothing in u is done at or below q.
  ghost predicate Foreign(u: seq<Event>, q: Path) {
    forall e :: e in u && Acting(e) ==> !(q <= e.path)
  }

  ghost predicate AllDoOneThing(u: seq<Event>) {
    forall e :: e in u && Acting(e) ==> DoesOneThing(u, e.path)
  }

  // Parts of a run whose nodes are apart.
  lemma PartsDoOneThing(a: seq<Event>, b: seq<Event>)
    requires AllDoOneThing(a) && AllDoOneThing(b)
    requires Separate(a, b)
    ensures AllDoOneThing(a + b)
  {
  }

  ghost predicate Separate(a: seq<Event>, b: seq<Event>) {
    && (forall e :: e in a && Acting(e) ==> Foreign(b, e.path))
    && (forall e :: e in b && Acting(e) ==> Foreign(a, e.path))
  }

  lemma StartsItself(t: Tree, p: Path, codes: Codes, k: nat)
    requires HasSrcDef(t.tab)
    ensures Started(p) in RunNode(t, p, codes, k).trace
  {
  }

  // What a node does, after its start.
  lemma StartDoesOneThing(p: Path, u: seq<Event>)
    requires AllDoOneThing(u) && DoesOneThing(u, p) && forall e :: e in u ==> p <= e.path
    ensures AllDoOneThing([Started(p)] + u)
  {
  }

  lemma {:induction false} NodeDoesOneThing(t: Tree, p: Path, codes: Codes, k: nat)
    requires Located(t) && Active(t)
    ensures AllDoOneThing(RunNode(t, p, codes, k).trace)
    decreases t
  {
    hide AllDoOneThing, DoesOneThing;
    var hs := RunnableOf(t);
    if hs != [] {
      HandlersDoOneThing(t, p, hs, codes, k);
      HandlersAction(t, p, codes, k);
      StartDoesOneThing(p, RunHandlers(t, p, hs, codes, k).trace);
    } else if CommandsOf(t) != [] {
      CommandsAction(t, p, codes, k);
      StartDoesOneThing(p, RunCommands(p, CommandsOf(t), codes, k).trace);
    } else {
      JobsDoOneThing(t, p, 0, codes, k);
      JobsAction(t, p, codes, k);
      StartDoesOneThing(p, RunJobs(t, p, 0, codes, k).trace);
    }
  }

  lemma CommandsAction(t: Tree, p: Path, codes: Codes, k: nat)
    requires CommandsOf(t) != []
    ensures var u := RunCommands(p, CommandsOf(t), codes, k).trace;
            AllDoOneThing(u) && DoesOneThing(u, p) && forall e :: e in u ==> p <= e.path
  {
    var u := RunCommands(p, CommandsOf(t), codes, k).trace;
    CommandsConfined(p, CommandsOf(t), codes, k);
    assert u[0] in u && u[0].Ran?;
  }

  lemma HandlersAction(t: Tree, p: Path, codes: Codes, k: nat)
    requires Located(t) && RunnableOf(t) != []
    ensures var u := RunHandlers(t, p, RunnableOf(t), codes, k).trace;
            DoesOneThing(u, p) && forall e :: e in u ==> p < e.path
  {
    var hs, q := RunnableOf(t), p + [HandlerStep(RunnableOf(t)[0])];
    var u := RunHandlers(t, p, hs, codes, k).trace;
    HandlersConfined(t, p, hs, codes, k);
    assert t.handlers[hs[0]] in t.handlers;
    StartsItself(t.handlers[hs[0]], q, codes, k);
    assert Started(q) in u;
    forall i: nat ensures Started(p + [JobStep(i)]) !in u {
      var child := p + [JobStep(i)];
      assert child[|p|] == JobStep(i) && Started(child).path == child;
    }
  }

  lemma JobsAction(t: Tree, p: Path, codes: Codes, k: nat)
    requires Located(t) && t.jobs != []
    ensures var u := RunJobs(t, p, 0, codes, k).trace;
            DoesOneThing(u, p) && forall e :: e in u ==> p < e.path
  {
    var q, u := p + [JobStep(0)], RunJobs(t, p, 0, codes, k).trace;
    JobsConfined(t, p, 0, codes, k);
    assert t.jobs[0] in t.jobs;
    StartsItself(t.jobs[0], q, codes, k);
    JobLoopTrace(t, p, 0, codes, k);
    assert Started(q) in u;
    forall i: nat ensures Started(p + [HandlerStep(i)]) !in u {
      var child := p + [HandlerStep(i)];
      assert child[|p|] == HandlerStep(i) && Started(child).path == child;
    }
  }

  // Events below different children of p.
  lemma Apart(a: seq<Event>, b: seq<Event>, p: Path)
    requires forall e :: e in a && Acting(e) ==> p < e.path
    requires forall e :: e in b && Acting(e) ==> p < e.path
    requires forall d, e :: d in a && e in b && Acting(d) && Acting(e) ==> d.path[|p|] != e.path[|p|]
    ensures Separate(a, b)
  {
  }

  lemma {:induction false} HandlersDoOneThing(t: Tree, p: Path, hs: seq<nat>, codes: Codes, k: nat)
    requires Located(t) && forall j :: 0 <= j < |hs| ==> hs[j] < |t.handlers| && Active(t.handlers[hs[j]])
    requires forall i, j :: 0 <= i < j < |hs| ==> hs[i] < hs[j]
    ensures AllDoOneThing(RunHandlers(t, p, hs, codes, k).trace)
    decreases t, |hs|
  {
    if hs != [] {
      hide AllDoOneThing, Separate, RunNode, Acting, Located, Active, Quiet;
      var c, q := t.handlers[hs[0]], p + [HandlerStep(hs[0])];
      HandlerIsLocated(t, hs[0]);
      var r := RunNode(c, q, codes, k);
      var rest := RunHandlers(t, p, hs[1..], codes, r.calls);
      NodeDoesOneThing(c, q, codes, k);
      HandlersDoOneThing(t, p, hs[1..], codes, r.calls);
      HandlersAreApart(t, p, hs, codes, k);
      PartsDoOneThing(r.trace, rest.trace);
    }
  }

  lemma HandlersAreApart(t: Tree, p: Path, hs: seq<nat>, codes: Codes, k: nat)
    requires hs != [] && forall j :: 0 <= j < |hs| ==> hs[j] < |t.handlers|
    requires forall i, j :: 0 <= i < j < |hs| ==> hs[i] < hs[j]
    ensures var r := RunNode(t.handlers[hs[0]], p + [HandlerStep(hs[0])], codes, k);
            Separate(r.trace, RunHandlers(t, p, hs[1..], codes, r.calls).trace)
  {
    hide RunNode, RunHandlers, Separate, Acting, Quiet;
    var q := p + [HandlerStep(hs[0])];
    var r := RunNode(t.handlers[hs[0]], q, codes, k);
    NodeConfined(t.handlers[hs[0]], q, codes, k);
    HandlersConfined(t, p, hs[1..], codes, r.calls);
    ChildEvents(r.trace, p, HandlerStep(hs[0]));
    Apart(r.trace, RunHandlers(t, p, hs[1..], codes, r.calls).trace, p);
  }

  lemma ChildEvents(u: seq<Event>, p: Path, s: Step)
    requires Confined(u, p + [s])
    ensures forall e :: e in u ==> p < e.path && e.path[|p|] == s
  {
  }

  // Nothing is done in jobs before i.
  ghost predicate FromJob(u: seq<Event>, p: Path, i: nat) {
    forall e :: e in u && Acting(e) ==> p < e.path && e.path[|p|].JobStep? && i <= e.path[|p|].i
  }

  lemma RollbackIsPassive(t: Tree, p: Path, i: nat, codes: Codes, k: nat)
    requires i < |t.jobs|
    ensures !Acting(JobFailed(p + [JobStep(i)]))
            && forall e :: e in RollBackFrom(t, p, i, codes, k).trace ==> !Acting(e)
  {
    hide RollBackFrom;
    RollBackIsBlock(t, p, i, codes, k);
    BlockEvents(RollBackFrom(t, p, i, codes, k).trace, t, p, i);
  }

  lemma JobThenOthers(a: seq<Event>, b: seq<Event>, p: Path, i: nat)
    requires AllDoOneThing(a) && forall e :: e in a ==> p < e.path && e.path[|p|] == JobStep(i)
    requires AllDoOneThing(b) && FromJob(b, p, i + 1)
    ensures AllDoOneThing(a + b) && FromJob(a + b, p, i)
  {
  }

  lemma JobThenNothing(a: seq<Event>, f: Event, b: seq<Event>, p: Path, i: nat)
    requires AllDoOneThing(a) && forall e :: e in a ==> p < e.path && e.path[|p|] == JobStep(i)
    requires !Acting(f) && forall e :: e in b ==> !Acting(e)
    ensures AllDoOneThing(a + [f] + b) && FromJob(a + [f] + b, p, i)
  {
  }

  lemma {:induction false} JobsDoOneThing(t: Tree, p: Path, i: nat, codes: Codes, k: nat)
    requires Located(t) && i <= |t.jobs| && forall c :: c in t.jobs ==> Active(c)
    ensures var u := RunJobs(t, p, i, codes, k).trace; AllDoOneThing(u) && FromJob(u, p, i)
    decreases t, |t.jobs| - i
  {
    if i < |t.jobs| {
      hide AllDoOneThing, FromJob, RunNode, RunJobs, RollBackFrom, Acting, Active;
      var c, q := t.jobs[i], p + [JobStep(i)];
      assert c in t.jobs;
      var r := RunNode(c, q, codes, k);
      NodeDoesOneThing(c, q, codes, k);
      NodeConfined(c, q, codes, k);
      ChildEvents(r.trace, p, JobStep(i));
      JobLoopTrace(t, p, i, codes, k);
      if r.ret == 0 {
        var rest := RunJobs(t, p, i + 1, codes, r.calls);
        JobsDoOneThing(t, p, i + 1, codes, r.calls);
        JobThenOthers(r.trace, rest.trace, p, i);
      } else {
        RollbackIsPassive(t, p, i, codes, r.calls);
        JobThenNothing(r.trace, JobFailed(q), RollBackFrom(t, p, i, codes, r.calls).trace, p, i);
      }
    }
  }

  // ---------- Nodes with nothing to do are reached ----------

  // When no command fails, the run gets to a node that has nothing to do.
  lemma {:induction false} IdleFallsThrough(t: Tree, p: Path, k: nat) returns (q: Path)
    requires Located(t) && !Active(t)
    ensures FellThrough(q) in RunNode(t, p, ZEROS, k).trace
    decreases t
  {
    hide Located, RunHandlers, RunJobs, HasSrcDef, GetAll, UntilEmpty;
    LocatedHere(t);
    if RunnableOf(t) != [] {
      var j :| 0 <= j < |RunnableOf(t)| && !Active(t.handlers[RunnableOf(t)[j]]);
      q := IdleHandler(t, p, RunnableOf(t), k, j);
    } else if t.jobs != [] {
      var c :| c in t.jobs && !Active(c);
      var i :| 0 <= i < |t.jobs| && t.jobs[i] == c;
      q := IdleJob(t, p, 0, k, i);
    } else {
      q := p;
    }
  }

  lemma {:induction false} IdleHandler(t: Tree, p: Path, hs: seq<nat>, k: nat, j: nat) returns (q: Path)
    requires Located(t) && (forall i :: 0 <= i < |hs| ==> hs[i] < |t.handlers|) && j < |hs|
             && !Active(t.handlers[hs[j]])
    ensures FellThrough(q) in RunHandlers(t, p, hs, ZEROS, k).trace
    decreases t, |hs|
  {
    hide RunNode, Active, Located;
    HandlerIsLocated(t, hs[0]);
    var path := p + [HandlerStep(hs[0])];
    if j == 0 {
      q := IdleFallsThrough(t.handlers[hs[0]], path, k);
    } else {
      q := IdleHandler(t, p, hs[1..], RunNode(t.handlers[hs[0]], path, ZEROS, k).calls, j - 1);
    }
  }

  lemma {:induction false} IdleJob(t: Tree, p: Path, i: nat, k: nat, j: nat) returns (q: Path)
    requires Located(t) && i <= j < |t.jobs| && !Active(t.jobs[j])
    ensures FellThrough(q) in RunJobs(t, p, i, ZEROS, k).trace
    decreases t, |t.jobs| - i
  {
    hide RunNode, RunJobs, RollBackFrom, Active;
    assert t.jobs[i] in t.jobs;
    var path := p + [JobStep(i)];
    JobLoopTrace(t, p, i, ZEROS, k);
    NodeSucceeds(t.jobs[i], path, ZEROS, k);
    if j == i {
      q := IdleFallsThrough(t.jobs[i], path, k);
    } else {
      q := IdleJob(t, p, i + 1, RunNode(t.jobs[i], path, ZEROS, k).calls, j);
    }
  }

  /** In every run each node that acts does exactly one kind of thing, and none falls through, exactly
      when every node that a run without failures reaches has something to do. */
  lemma OneThingIffActive(t: Tree)
    requires Located(t)
    ensures (forall codes :: AllDoOneThing(RunNode(t, [], codes, 0).trace)) <==> Active(t)
  {
    hide RunNode, AllDoOneThing, Active;
    if Active(t) {
      forall codes ensures AllDoOneThing(RunNode(t, [], codes, 0).trace) {
        NodeDoesOneThing(t, [], codes, 0);
      }
    } else {
      var q := IdleFallsThrough(t, [], 0);
      FallingIsNoAction(RunNode(t, [], ZEROS, 0).trace, q);
    }
  }

  lemma FallingIsNoAction(u: seq<Event>, q: Path)
    requires FellThrough(q) in u
    ensures !AllDoOneThing(u)
  {
    assert Acting(FellThrough(q));
  }
}
