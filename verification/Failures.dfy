/** When a job counts as failed: exactly when one of the commands run for it failed. */
module Failures {
  import opened Expansion
  import opened Execution
  import opened Runs
  import opened Compensation

  // A command of the node at q, or of one below, failed.
  ghost predicate CommandFailed(u: seq<Event>, q: Path) {
    exists e :: e in u && e.Ran? && q <= e.path && e.rc != 0
  }

  ghost predicate Tells(u: seq<Event>, q: Path) {
    JobFailed(q) in u <==> CommandFailed(u, q)
  }

  ghost predicate Silent(u: seq<Event>, q: Path) {
    JobFailed(q) !in u && !CommandFailed(u, q)
  }

  lemma TwoParts(a: seq<Event>, b: seq<Event>, q: Path)
    ensures Silent(a, q) ==> (Tells(a + b, q) <==> Tells(b, q)) && (Silent(a + b, q) <==> Silent(b, q))
    ensures Silent(b, q) ==> (Tells(a + b, q) <==> Tells(a, q)) && (Silent(a + b, q) <==> Silent(a, q))
  {
    assert forall e :: e in a + b <==> e in a || e in b;
  }

  lemma ThreeParts(a: seq<Event>, b: seq<Event>, c: seq<Event>, q: Path)
    requires Silent(b, q) && Silent(c, q)
    ensures (Tells(a + b + c, q) <==> Tells(a, q)) && (Silent(a + b + c, q) <==> Silent(a, q))
  {
    hide Tells, Silent;
    TwoParts(a, b, q);
    TwoParts(a + b, c, q);
  }

  // A run of the node at p says nothing about q, which is not at or below p.
  lemma Elsewhere(u: seq<Event>, p: Path, q: Path)
    requires Confined(u, p) && |p| <= |q| && !(p <= q)
    ensures Silent(u, q)
  {
    assert q[..|p|] != p;
    assert forall e: Event :: q <= e.path ==> e.path[..|p|] == q[..|p|];
    assert q <= JobFailed(q).path;
  }

  lemma RollbackIsSilent(t: Tree, p: Path, i: nat, codes: Codes, k: nat, q: Path)
    requires i < |t.jobs|
    ensures Silent(RollBackFrom(t, p, i, codes, k).trace, q)
  {
    hide RollBackFrom;
    RollBackIsBlock(t, p, i, codes, k);
    BlockEvents(RollBackFrom(t, p, i, codes, k).trace, t, p, i);
  }

  lemma OneIsSilent(e: Event, q: Path)
    requires !e.Ran? && e != JobFailed(q)
    ensures Silent([e], q)
  {
  }

  lemma {:induction false} NodeTells(t: Tree, p: Path, codes: Codes, k: nat, q: Path)
    requires Located(t) && Faithful(t, codes) && p < q && q[|q| - 1].JobStep?
    ensures Tells(RunNode(t, p, codes, k).trace, q)
    decreases t
  {
    hide Flatten, Tells, Silent;
    var hs := RunnableOf(t);
    OneIsSilent(Started(p), q);
    if Unambiguous(t) {
      assert if hs != [] then UnambiguousHandlers(t, hs) else CommandsOf(t) != [] || UnambiguousJobs(t);
    }
    if hs != [] {
      HandlersTell(t, p, hs, codes, k, q);
      TwoParts([Started(p)], RunHandlers(t, p, hs, codes, k).trace, q);
    } else if CommandsOf(t) != [] {
      CommandsTell(p, CommandsOf(t), codes, k, q);
      TwoParts([Started(p)], RunCommands(p, CommandsOf(t), codes, k).trace, q);
    } else if t.jobs != [] {
      JobsTell(t, p, 0, codes, k, q);
      TwoParts([Started(p)], RunJobs(t, p, 0, codes, k).trace, q);
    } else {
      NothingToTell(p, q);
    }
  }

  lemma NothingToTell(p: Path, q: Path)
    ensures Tells([Started(p)] + [FellThrough(p)], q)
  {
  }

  lemma CommandsTell(p: Path, cmds: seq<string>, codes: Codes, k: nat, q: Path)
    requires p < q
    ensures Tells(RunCommands(p, cmds, codes, k).trace, q)
  {
    CommandsConfined(p, cmds, codes, k);
  }

  // Of the handlers in hs only the one on the way to q has anything to say.
  lemma HandlersSilent(t: Tree, p: Path, hs: seq<nat>, codes: Codes, k: nat, q: Path)
    requires (forall j :: 0 <= j < |hs| ==> hs[j] < |t.handlers|) && p < q
    requires q[|p|].HandlerStep? ==> q[|p|].i !in hs
    ensures Silent(RunHandlers(t, p, hs, codes, k).trace, q)
  {
    hide RunHandlers;
    HandlersConfined(t, p, hs, codes, k);
    assert forall e: Event :: q <= e.path ==> e.path[|p|] == q[|p|];
    assert q <= JobFailed(q).path;
  }

  lemma {:induction false} HandlersTell(t: Tree, p: Path, hs: seq<nat>, codes: Codes, k: nat, q: Path)
    requires Located(t) && forall j :: 0 <= j < |hs| ==> hs[j] < |t.handlers| && Faithful(t.handlers[hs[j]], codes)
    requires (forall i, j :: 0 <= i < j < |hs| ==> hs[i] < hs[j]) && p < q && q[|q| - 1].JobStep?
    ensures Tells(RunHandlers(t, p, hs, codes, k).trace, q)
    decreases t, |hs|
  {
    hide RunNode, Tells, Silent, Faithful, Located;
    if hs == [] {
      NothingTells(q);
    } else {
      var c, path := t.handlers[hs[0]], p + [HandlerStep(hs[0])];
      HandlerIsLocated(t, hs[0]);
      var r := RunNode(c, path, codes, k);
      var rest := RunHandlers(t, p, hs[1..], codes, r.calls);
      TwoParts(r.trace, rest.trace, q);
      if q[|p|] == HandlerStep(hs[0]) {
        assert path < q;
        NodeTells(c, path, codes, k, q);
        HandlersSilent(t, p, hs[1..], codes, r.calls, q);
      } else {
        assert path[|p|] != q[|p|];
        NodeConfined(c, path, codes, k);
        Elsewhere(r.trace, path, q);
        HandlersTell(t, p, hs[1..], codes, r.calls, q);
      }
    }
  }

  lemma NothingTells(q: Path)
    ensures Tells([], q) && Silent([], q)
  {
  }

  lemma OtherJob(t: Tree, p: Path, i: nat, codes: Codes, k: nat, q: Path)
    requires i < |t.jobs| && p < q && q[|p|] != JobStep(i)
    ensures Silent(RunNode(t.jobs[i], p + [JobStep(i)], codes, k).trace, q) && Silent([JobFailed(p + [JobStep(i)])], q)
  {
    hide RunNode;
    var path := p + [JobStep(i)];
    assert path[|p|] != q[|p|];
    NodeConfined(t.jobs[i], path, codes, k);
    Elsewhere(RunNode(t.jobs[i], path, codes, k).trace, path, q);
    OneIsSilent(JobFailed(path), q);
  }

  lemma {:induction false} JobsSilent(t: Tree, p: Path, i: nat, codes: Codes, k: nat, q: Path)
    requires i <= |t.jobs| && p < q && (q[|p|].JobStep? ==> q[|p|].i < i)
    ensures Silent(RunJobs(t, p, i, codes, k).trace, q)
    decreases |t.jobs| - i
  {
    if i == |t.jobs| {
      NothingTells(q);
    } else {
      hide RunNode, RunJobs, RollBackFrom, Silent;
      var path := p + [JobStep(i)];
      var r := RunNode(t.jobs[i], path, codes, k);
      OtherJob(t, p, i, codes, k, q);
      JobLoopTrace(t, p, i, codes, k);
      if r.ret == 0 {
        JobsSilent(t, p, i + 1, codes, r.calls, q);
        TwoParts(r.trace, RunJobs(t, p, i + 1, codes, r.calls).trace, q);
      } else {
        RollbackIsSilent(t, p, i, codes, r.calls, q);
        ThreeParts(r.trace, [JobFailed(path)], RollBackFrom(t, p, i, codes, r.calls).trace, q);
      }
    }
  }

  // The job itself: it is failed when its code is not 0, and that tells whether a command failed.
  lemma JobItself(t: Tree, p: Path, i: nat, codes: Codes, k: nat)
    requires i < |t.jobs| && Located(t.jobs[i]) && Faithful(t.jobs[i], codes)
    ensures Tells(RunJobs(t, p, i, codes, k).trace, p + [JobStep(i)])
  {
    hide RunNode, RunJobs, RollBackFrom;
    var q := p + [JobStep(i)];
    var r := RunNode(t.jobs[i], q, codes, k);
    NodeTruthful(t.jobs[i], q, codes, k);
    NodeConfined(t.jobs[i], q, codes, k);
    JobLoopTrace(t, p, i, codes, k);
    assert CommandFailed(r.trace, q) <==> !Clean(r.trace);
    if r.ret == 0 {
      JobsSilent(t, p, i + 1, codes, r.calls, q);
      TwoParts(r.trace, RunJobs(t, p, i + 1, codes, r.calls).trace, q);
    } else {
      var e :| e in r.trace && e.Ran? && e.rc != 0;
      assert e in RunJobs(t, p, i, codes, k).trace && JobFailed(q) in RunJobs(t, p, i, codes, k).trace;
    }
  }

  lemma OnTheWay(p: Path, i: nat, q: Path)
    requires p + [JobStep(i)] < q
    ensures p < q && q[|p|] == JobStep(i)
  {
  }

  lemma OffTheWay(p: Path, i: nat, q: Path)
    requires p < q && p + [JobStep(i)] != q && !(p + [JobStep(i)] < q)
    ensures q[|p|] != JobStep(i)
  {
  }

  lemma {:induction false} JobsTell(t: Tree, p: Path, i: nat, codes: Codes, k: nat, q: Path)
    requires i <= |t.jobs| && Located(t) && (forall c :: c in t.jobs ==> Faithful(c, codes)) && p < q
             && q[|q| - 1].JobStep?
    ensures Tells(RunJobs(t, p, i, codes, k).trace, q)
    decreases t, |t.jobs| - i
  {
    if i == |t.jobs| {
      NothingTells(q);
    } else {
      hide RunNode, RunJobs, RollBackFrom, Tells, Silent, Faithful;
      var c, path := t.jobs[i], p + [JobStep(i)];
      assert c in t.jobs;
      var r := RunNode(c, path, codes, k);
      JobLoopTrace(t, p, i, codes, k);
      if path == q {
        JobItself(t, p, i, codes, k);
      } else {
        if path < q {
          OnTheWay(p, i, q);
          NodeTells(c, path, codes, k, q);
          JobsSilent(t, p, i + 1, codes, r.calls, q);
        } else {
          OffTheWay(p, i, q);
          OtherJob(t, p, i, codes, k, q);
          SilentTells(r.trace, q);
          JobsTell(t, p, i + 1, codes, r.calls, q);
        }
        OneIsSilent(JobFailed(path), q);
        RollbackIsSilent(t, p, i, codes, r.calls, q);
        TwoParts(r.trace, RunJobs(t, p, i + 1, codes, r.calls).trace, q);
        ThreeParts(r.trace, [JobFailed(path)], RollBackFrom(t, p, i, codes, r.calls).trace, q);
      }
    }
  }

  lemma SilentTells(u: seq<Event>, q: Path)
    requires Silent(u, q)
    ensures Tells(u, q)
  {
  }

  /** In every run of a faithful tree, job i of the node at `at` is reported as failed, and so rolled
      back with the jobs before it, exactly when a command of that job's own run failed. */
  lemma JobFailsIffCommandFailed(t: Tree, codes: Codes, at: Path, i: nat)
    requires Located(t) && Faithful(t, codes)
    ensures var u, q := RunNode(t, [], codes, 0).trace, at + [JobStep(i)];
            JobFailed(q) in u <==> exists e :: e in u && e.Ran? && q <= e.path && e.rc != 0
  {
    NodeTells(t, [], codes, 0, at + [JobStep(i)]);
  }
}
