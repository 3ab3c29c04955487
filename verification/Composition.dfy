/** How the run of a node is made of its parts: which commands and children run, with which exit
    codes, and what the node returns for them. */
module Composition {
  import opened Tables
  import opened Expansion
  import opened Execution
  import opened Compensation

  // ---------- Bitwise OR ----------

  // Bit n of a C int in two's complement; those of the sign are all alike.
  predicate Bit(a: int, n: nat)
    decreases n
  {
    if n == 0 then a % 2 == 1 else Bit(a / 2, n - 1)
  }

  lemma {:induction false} OrIsBitwise(a: int, b: int, n: nat)
    ensures Bit(Or(a, b), n) <==> Bit(a, n) || Bit(b, n)
    decreases n
  {
    hide Or;
    OrBits(a, b);
    if n > 0 {
      OrIsBitwise(a / 2, b / 2, n - 1);
    }
  }

  // The bits tell the number.
  lemma {:induction false} SameBits(a: int, b: int)
    requires forall n: nat :: Bit(a, n) <==> Bit(b, n)
    ensures a == b
    decreases Abs(a) + Abs(b)
  {
    assert Bit(a, 0) <==> Bit(b, 0);
    if !(a in {0, -1} && b in {0, -1}) {
      forall n: nat ensures Bit(a / 2, n) <==> Bit(b / 2, n) {
        assert Bit(a, n + 1) <==> Bit(b, n + 1);
      }
      SameBits(a / 2, b / 2);
    }
  }

  // ---------- Every shell command gets its own exit code ----------

  // The exit codes of the shell commands of a trace, of rollbacks too, in order.
  function Shell(u: seq<Event>): seq<int> {
    if u == [] then []
    else if u[0].Ran? || u[0].Undid? then [u[0].rc] + Shell(u[1..])
    else Shell(u[1..])
  }

  // This part ran so many commands, and each got the next exit code.
  ghost predicate InOrder(u: seq<Event>, codes: Codes, k: nat, calls: nat) {
    calls == k + |Shell(u)| && forall n :: 0 <= n < |Shell(u)| ==> Shell(u)[n] == codes(k + n)
  }

  lemma {:induction false} ShellConcat(a: seq<Event>, b: seq<Event>)
    ensures Shell(a + b) == Shell(a) + Shell(b)
  {
    if a == [] {
      assert a + b == b;
    } else {
      assert (a + b)[1..] == a[1..] + b;
      ShellConcat(a[1..], b);
    }
  }

  lemma InOrderConcat(a: seq<Event>, b: seq<Event>, codes: Codes, k: nat, k': nat, k'': nat)
    requires InOrder(a, codes, k, k') && InOrder(b, codes, k', k'')
    ensures InOrder(a + b, codes, k, k'')
  {
    ShellConcat(a, b);
  }

  // An event that is no shell command.
  lemma OtherEvent(e: Event, codes: Codes, k: nat)
    requires !e.Ran? && !e.Undid?
    ensures InOrder([e], codes, k, k)
  {
  }

  lemma ShellEvent(e: Event, codes: Codes, k: nat)
    requires (e.Ran? || e.Undid?) && e.rc == codes(k)
    ensures InOrder([e], codes, k, k + 1)
  {
    assert Shell([e]) == [e.rc] + Shell([]);
  }

  lemma NothingInOrder(codes: Codes, k: nat)
    ensures InOrder([], codes, k, k)
  {
  }

  lemma {:induction false} CommandsInOrder(p: Path, cmds: seq<string>, codes: Codes, k: nat)
    ensures var r := RunCommands(p, cmds, codes, k); InOrder(r.trace, codes, k, r.calls)
    decreases |cmds|
  {
    hide InOrder;
    NothingInOrder(codes, k);
    if cmds != [] {
      var e, rest := Ran(p, cmds[0], codes(k)), RunCommands(p, cmds[1..], codes, k + 1);
      CommandsInOrder(p, cmds[1..], codes, k + 1);
      ShellEvent(e, codes, k);
      InOrderConcat([e], rest.trace, codes, k, k + 1, rest.calls);
    }
  }

  lemma {:induction false} UndoInOrder(p: Path, actions: seq<string>, codes: Codes, k: nat)
    ensures var r := Undo(p, actions, codes, k); InOrder(r.trace, codes, k, r.calls)
    decreases |actions|
  {
    hide InOrder;
    NothingInOrder(codes, k);
    if actions != [] {
      var e, rest := Undid(p, actions[0], codes(k)), Undo(p, actions[1..], codes, k + 1);
      UndoInOrder(p, actions[1..], codes, k + 1);
      ShellEvent(e, codes, k);
      InOrderConcat([e], rest.trace, codes, k, k + 1, rest.calls);
    }
  }

  lemma VisitInOrder(tab: Table, p: Path, codes: Codes, k: nat)
    ensures var r := RollBack(tab, p, codes, k); InOrder(r.trace, codes, k, r.calls)
  {
    hide InOrder, HasSrcDef, ActionsOf, Undo;
    var e, rest := Visited(p, |ActionsOf(tab)|), Undo(p, ActionsOf(tab), codes, k);
    OtherEvent(Visited(p, 0), codes, k);
    OtherEvent(e, codes, k);
    UndoInOrder(p, ActionsOf(tab), codes, k);
    InOrderConcat([e], rest.trace, codes, k, k, rest.calls);
  }

  lemma {:induction false} RollBackInOrder(t: Tree, p: Path, i: nat, codes: Codes, k: nat)
    requires i < |t.jobs|
    ensures var r := RollBackFrom(t, p, i, codes, k); InOrder(r.trace, codes, k, r.calls)
    decreases i
  {
    hide InOrder, RollBack;
    var r := RollBack(t.jobs[i].tab, p + [JobStep(i)], codes, k);
    VisitInOrder(t.jobs[i].tab, p + [JobStep(i)], codes, k);
    if i > 0 {
      var rest := RollBackFrom(t, p, i - 1, codes, r.calls);
      RollBackInOrder(t, p, i - 1, codes, r.calls);
      InOrderConcat(r.trace, rest.trace, codes, k, r.calls, rest.calls);
    }
  }

  lemma {:induction false} NodeInOrder(t: Tree, p: Path, codes: Codes, k: nat)
    ensures var r := RunNode(t, p, codes, k); InOrder(r.trace, codes, k, r.calls)
    decreases t
  {
    hide InOrder, RunHandlers, RunCommands, RunJobs, HasSrcDef;
    NothingInOrder(codes, k);
    if HasSrcDef(t.tab) {
      OtherEvent(Started(p), codes, k);
      OtherEvent(FellThrough(p), codes, k);
      InOrderConcat([Started(p)], [FellThrough(p)], codes, k, k, k);
      var hs := RunnableOf(t);
      if hs != [] {
        var r := RunHandlers(t, p, hs, codes, k);
        ChildrenInOrder(t, p, hs, codes, k);
        InOrderConcat([Started(p)], r.trace, codes, k, k, r.calls);
      } else if CommandsOf(t) != [] {
        var r := RunCommands(p, CommandsOf(t), codes, k);
        CommandsInOrder(p, CommandsOf(t), codes, k);
        InOrderConcat([Started(p)], r.trace, codes, k, k, r.calls);
      } else if t.jobs != [] {
        var r := RunJobs(t, p, 0, codes, k);
        JobsInOrder(t, p, 0, codes, k);
        InOrderConcat([Started(p)], r.trace, codes, k, k, r.calls);
      }
    }
  }

  lemma {:induction false} ChildrenInOrder(t: Tree, p: Path, hs: seq<nat>, codes: Codes, k: nat)
    requires forall j :: 0 <= j < |hs| ==> hs[j] < |t.handlers|
    ensures var r := RunHandlers(t, p, hs, codes, k); InOrder(r.trace, codes, k, r.calls)
    decreases t, |hs|
  {
    hide InOrder, RunNode;
    NothingInOrder(codes, k);
    if hs != [] {
      var r := RunNode(t.handlers[hs[0]], p + [HandlerStep(hs[0])], codes, k);
      var rest := RunHandlers(t, p, hs[1..], codes, r.calls);
      NodeInOrder(t.handlers[hs[0]], p + [HandlerStep(hs[0])], codes, k);
      ChildrenInOrder(t, p, hs[1..], codes, r.calls);
      InOrderConcat(r.trace, rest.trace, codes, k, r.calls, rest.calls);
    }
  }

  lemma {:induction false} JobsInOrder(t: Tree, p: Path, i: nat, codes: Codes, k: nat)
    requires i <= |t.jobs|
    ensures var r := RunJobs(t, p, i, codes, k); InOrder(r.trace, codes, k, r.calls)
    decreases t, |t.jobs| - i
  {
    hide InOrder, RunNode, RollBackFrom;
    NothingInOrder(codes, k);
    if i < |t.jobs| {
      var q := p + [JobStep(i)];
      var r := RunNode(t.jobs[i], q, codes, k);
      NodeInOrder(t.jobs[i], q, codes, k);
      if r.ret == 0 {
        var rest := RunJobs(t, p, i + 1, codes, r.calls);
        JobsInOrder(t, p, i + 1, codes, r.calls);
        InOrderConcat(r.trace, rest.trace, codes, k, r.calls, rest.calls);
      } else {
        var b := RollBackFrom(t, p, i, codes, r.calls);
        OtherEvent(JobFailed(q), codes, r.calls);
        InOrderConcat(r.trace, [JobFailed(q)], codes, k, r.calls, r.calls);
        RollBackInOrder(t, p, i, codes, r.calls);
        InOrderConcat(r.trace + [JobFailed(q)], b.trace, codes, k, r.calls, b.calls);
      }
    }
  }

  /** The shell commands of a run, those of rollbacks included, get the exit codes one after the
      other: the n-th that starts reports the n-th code. */
  lemma CommandsGetTheirCodes(t: Tree, codes: Codes)
    ensures var r := RunNode(t, [], codes, 0);
            r.calls == |Shell(r.trace)| && forall n :: 0 <= n < r.calls ==> Shell(r.trace)[n] == codes(n)
  {
    hide RunNode;
    NodeInOrder(t, [], codes, 0);
    assert forall n :: 0 <= n < RunNode(t, [], codes, 0).calls ==> codes(0 + n) == codes(n);
  }

  // ---------- One node ----------

  // Whether one of the signals that t emits is handled by this table.
  ghost predicate Answers(tab: Table, t: Tree) {
    exists x, y :: 0 <= x < |GetAll(t.tab, KEY_EMITS)| && 0 <= y < |GetAll(tab, KEY_HANDLES)|
                   && GetAll(t.tab, KEY_EMITS)[x] == GetAll(tab, KEY_HANDLES)[y]
  }

  // The handlers that run, in order.
  lemma RunnableAre(t: Tree)
    ensures var hs := RunnableOf(t);
            && (forall h :: h in hs <==> 0 <= h < |t.handlers| && Answers(t.handlers[h].tab, t))
            && forall j, l :: 0 <= j < l < |hs| ==> hs[j] < hs[l]
  {
  }

  // What children did one after the other.
  function Traces(rs: seq<Run>): seq<Event> {
    if rs == [] then [] else rs[0].trace + Traces(rs[1..])
  }

  function SumOfCodes(rs: seq<Run>): int {
    if rs == [] then 0 else rs[0].ret + SumOfCodes(rs[1..])
  }

  // How many shell commands had been run before part j.
  function Before(rs: seq<Run>, k: nat, j: nat): nat
    requires j <= |rs|
  {
    if j == 0 then k else rs[j - 1].calls
  }

  lemma {:induction false} HandlersInTurn(t: Tree, p: Path, hs: seq<nat>, codes: Codes, k: nat) returns (rs: seq<Run>)
    requires forall j :: 0 <= j < |hs| ==> hs[j] < |t.handlers|
    ensures |rs| == |hs|
    ensures forall j :: 0 <= j < |hs| ==>
              rs[j] == RunNode(t.handlers[hs[j]], p + [HandlerStep(hs[j])], codes, Before(rs, k, j))
    ensures var r := RunHandlers(t, p, hs, codes, k);
            r.ret == SumOfCodes(rs) && r.trace == Traces(rs) && r.calls == Before(rs, k, |rs|)
    decreases |hs|
  {
    hide RunNode;
    rs := [];
    if hs != [] {
      var first := RunNode(t.handlers[hs[0]], p + [HandlerStep(hs[0])], codes, k);
      var rest := HandlersInTurn(t, p, hs[1..], codes, first.calls);
      rs := [first] + rest;
      assert rs[1..] == rest;
      forall j | 0 < j < |hs|
        ensures rs[j] == RunNode(t.handlers[hs[j]], p + [HandlerStep(hs[j])], codes, Before(rs, k, j))
      {
        assert rs[j] == rest[j - 1] && hs[1..][j - 1] == hs[j];
        assert Before(rest, first.calls, j - 1) == Before(rs, k, j);
      }
    }
  }

  /** A located node with handlers that answer it runs all of them, in order and whatever they return,
      and nothing else; it returns the sum of their codes. */
  lemma HandlersRun(t: Tree, p: Path, codes: Codes, k: nat) returns (rs: seq<Run>)
    requires HasSrcDef(t.tab) && exists c :: c in t.handlers && Answers(c.tab, t)
    ensures var hs := RunnableOf(t);
            && |rs| == |hs| > 0
            && forall j :: 0 <= j < |hs| ==>
                 rs[j] == RunNode(t.handlers[hs[j]], p + [HandlerStep(hs[j])], codes, Before(rs, k, j))
    ensures var r := RunNode(t, p, codes, k);
            r.ret == SumOfCodes(rs) && r.trace == [Started(p)] + Traces(rs) && r.calls == Before(rs, k, |rs|)
  {
    hide Answers, HasSrcDef, RunHandlers;
    SomeRunnable(t);
    rs := HandlersInTurn(t, p, RunnableOf(t), codes, k);
  }

  lemma {:induction false} CommandsInTurn(p: Path, cmds: seq<string>, codes: Codes, k: nat, b: nat)
    ensures var r := RunCommands(p, cmds, codes, k);
            && r.calls == k + |cmds| == k + |r.trace|
            && (forall i :: 0 <= i < |cmds| ==> r.trace[i] == Ran(p, cmds[i], codes(k + i)))
            && (Bit(r.ret, b) <==> exists e :: e in r.trace && e.Ran? && Bit(e.rc, b))
    decreases |cmds|
  {
    hide Or, Bit;
    if cmds == [] {
      NoBits(b);
    } else {
      var rest := RunCommands(p, cmds[1..], codes, k + 1);
      CommandsInTurn(p, cmds[1..], codes, k + 1, b);
      OrIsBitwise(codes(k), rest.ret, b);
      var r := RunCommands(p, cmds, codes, k);
      assert r.trace == [Ran(p, cmds[0], codes(k))] + rest.trace;
      forall i | 0 <= i < |cmds| ensures r.trace[i] == Ran(p, cmds[i], codes(k + i)) {
        if i > 0 {
          assert r.trace[i] == rest.trace[i - 1] && k + 1 + (i - 1) == k + i;
        }
      }
      assert r.trace[0] in r.trace && forall e :: e in r.trace <==> e == r.trace[0] || e in rest.trace;
    }
  }

  lemma {:induction false} NoBits(n: nat)
    ensures !Bit(0, n)
  {
    if n > 0 {
      NoBits(n - 1);
    }
  }

  /** A located node that no handler answers and that has commands runs these, in order and whatever
      they return, and nothing else; each bit of its code is set exactly when some command set it. */
  lemma CommandsRun(t: Tree, p: Path, codes: Codes, k: nat, b: nat)
    requires HasSrcDef(t.tab) && (forall c :: c in t.handlers ==> !Answers(c.tab, t)) && CommandsOf(t) != []
    ensures var r, cmds := RunNode(t, p, codes, k), CommandsOf(t);
            && |r.trace| == 1 + |cmds| && r.trace[0] == Started(p)
            && (forall i :: 0 <= i < |cmds| ==> r.trace[1 + i] == Ran(p, cmds[i], codes(k + i)))
            && (Bit(r.ret, b) <==> exists e :: e in r.trace && e.Ran? && Bit(e.rc, b))
  {
    hide Answers, HasSrcDef, RunCommands, CommandsOf, Bit;
    SomeRunnable(t);
    CommandsInTurn(p, CommandsOf(t), codes, k, b);
  }

  lemma SomeRunnable(t: Tree)
    ensures RunnableOf(t) != [] <==> exists c :: c in t.handlers && Answers(c.tab, t)
  {
    hide Answers;
    RunnableAre(t);
    if RunnableOf(t) != [] {
      var h := RunnableOf(t)[0];
      assert h in RunnableOf(t) && t.handlers[h] in t.handlers;
    }
    if c :| c in t.handlers && Answers(c.tab, t) {
      var h :| 0 <= h < |t.handlers| && t.handlers[h] == c;
      assert h in RunnableOf(t);
    }
  }

  // Jobs i, i + 1, ... ran one after the other.
  ghost predicate JobRuns(rs: seq<Run>, t: Tree, p: Path, i: nat, codes: Codes, k: nat) {
    && i + |rs| <= |t.jobs|
    && forall j :: 0 <= j < |rs| ==>
         rs[j] == RunNode(t.jobs[i + j], p + [JobStep(i + j)], codes, Before(rs, k, j))
  }

  lemma OneJob(t: Tree, p: Path, i: nat, codes: Codes, k: nat)
    requires i < |t.jobs|
    ensures JobRuns([RunNode(t.jobs[i], p + [JobStep(i)], codes, k)], t, p, i, codes, k)
  {
  }

  lemma JobBefore(t: Tree, p: Path, i: nat, codes: Codes, k: nat, rest: seq<Run>)
    requires i < |t.jobs|
    requires JobRuns(rest, t, p, i + 1, codes, RunNode(t.jobs[i], p + [JobStep(i)], codes, k).calls)
    ensures JobRuns([RunNode(t.jobs[i], p + [JobStep(i)], codes, k)] + rest, t, p, i, codes, k)
  {
    hide RunNode;
    var first := RunNode(t.jobs[i], p + [JobStep(i)], codes, k);
    var rs := [first] + rest;
    forall j | 0 < j < |rs|
      ensures rs[j] == RunNode(t.jobs[i + j], p + [JobStep(i + j)], codes, Before(rs, k, j))
    {
      assert rs[j] == rest[j - 1] && i + 1 + (j - 1) == i + j;
      assert Before(rest, first.calls, j - 1) == Before(rs, k, j);
    }
  }

  // The jobs from i on: all of them succeed, or the last of those that run does not.
  lemma {:induction false} JobsInTurn(t: Tree, p: Path, i: nat, codes: Codes, k: nat)
    returns (rs: seq<Run>, b: seq<Event>)
    requires i < |t.jobs|
    ensures rs != [] && JobRuns(rs, t, p, i, codes, k) && forall j :: 0 <= j < |rs| - 1 ==> rs[j].ret == 0
    ensures var r, last := RunJobs(t, p, i, codes, k), |rs| - 1;
            && r.ret == rs[last].ret && r.trace == Traces(rs) + b
            && if r.ret == 0 then i + |rs| == |t.jobs| && b == []
               else b != [] && b[0] == JobFailed(p + [JobStep(i + last)]) && RollbackBlock(b[1..], t, p, i + last)
    decreases |t.jobs| - i
  {
    hide RunNode, RollBackFrom, RollbackBlock, JobRuns;
    var q := p + [JobStep(i)];
    var first := RunNode(t.jobs[i], q, codes, k);
    OneTrace(first);
    OneJob(t, p, i, codes, k);
    rs, b := [first], [];
    if first.ret != 0 {
      var back := RollBackFrom(t, p, i, codes, first.calls).trace;
      RollBackIsBlock(t, p, i, codes, first.calls);
      b := [JobFailed(q)] + back;
      assert b[1..] == back && first.trace + [JobFailed(q)] + back == first.trace + b;
    } else if i + 1 < |t.jobs| {
      var rest;
      rest, b := JobsInTurn(t, p, i + 1, codes, first.calls);
      rs := [first] + rest;
      assert rs[1..] == rest;
      JobBefore(t, p, i, codes, k, rest);
      assert Traces(rs) + b == first.trace + (Traces(rest) + b);
    } else {
      assert first.trace + [] == first.trace;
    }
  }

  lemma OneTrace(r: Run)
    ensures Traces([r]) == r.trace
  {
    assert [r][1..] == [] && r.trace + [] == r.trace;
  }

  /** A located node with neither, but with jobs, runs these in order up to the first that does not
      return 0, whose code it returns, and then rolls back; nothing else happens. */
  lemma JobsRun(t: Tree, p: Path, codes: Codes, k: nat) returns (rs: seq<Run>, b: seq<Event>)
    requires HasSrcDef(t.tab) && (forall c :: c in t.handlers ==> !Answers(c.tab, t))
    requires CommandsOf(t) == [] && t.jobs != []
    ensures rs != [] && JobRuns(rs, t, p, 0, codes, k) && forall j :: 0 <= j < |rs| - 1 ==> rs[j].ret == 0
    ensures var r, last := RunNode(t, p, codes, k), |rs| - 1;
            && r.ret == rs[last].ret && r.trace == [Started(p)] + Traces(rs) + b
            && if r.ret == 0 then |rs| == |t.jobs| && b == []
               else b != [] && b[0] == JobFailed(p + [JobStep(last)]) && RollbackBlock(b[1..], t, p, last)
  {
    hide Answers, HasSrcDef, RunJobs, CommandsOf, RollbackBlock, JobRuns;
    SomeRunnable(t);
    rs, b := JobsInTurn(t, p, 0, codes, k);
    assert [Started(p)] + (Traces(rs) + b) == [Started(p)] + Traces(rs) + b;
  }

  /** A located node with none of these returns 0 after a complaint, and one without an origin returns
      1 and counts an error; neither runs anything. */
  lemma NothingRuns(t: Tree, p: Path, codes: Codes, k: nat)
    requires HasSrcDef(t.tab) ==>
               (forall c :: c in t.handlers ==> !Answers(c.tab, t)) && CommandsOf(t) == [] && t.jobs == []
    ensures RunNode(t, p, codes, k) ==
            if HasSrcDef(t.tab) then Run(0, [Started(p), FellThrough(p)], 0, 0, k) else Run(1, [], 1, 0, k)
  {
    hide Answers, HasSrcDef, CommandsOf;
    if HasSrcDef(t.tab) {
      SomeRunnable(t);
    }
  }
}
