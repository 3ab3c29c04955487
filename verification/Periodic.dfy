/** The thread of a periodic node (`th_periodic`): how often the tree is run, what its COUNTER says
    in each run, and when the thread gives up. */
module Periodic {
  import opened Wrappers
  import opened Tables
  import opened Expansion
  import opened Execution
  import opened Runs
  import opened Compensation
  import opened SymbolTable
  import opened Linting

  // (size_t)-1, which stands for no counter.
  const UNLIMITED: nat := 0xFFFF_FFFF_FFFF_FFFF
  // The thread gives up when more errors than this have been counted.
  const MAX_ERRORS: nat := 10
  const EXIT_FAILURE := 1

  // ---------- Numbers as text ----------

  // snprintf ("%zu")
  function Decimal(n: nat): (s: string)
    ensures s != "" && forall c :: c in s ==> IsDigit(c)
  {
    var digit := ['0' + (n % 10) as char];
    if n < 10 then digit else Decimal(n / 10) + digit
  }

  lemma {:induction false} ReadsDigits(s: string, c: char, value: nat)
    requires IsDigit(c) && forall d :: d in s ==> IsDigit(d)
    ensures LeadingNumber(s + [c], value) == 10 * LeadingNumber(s, value) + (c as int - '0' as int)
  {
    if s == "" {
      assert s + [c] == [c] && [c][1..] == "";
    } else {
      assert (s + [c])[1..] == s[1..] + [c];
      assert s[0] in s && forall d :: d in s[1..] ==> d in s;
      ReadsDigits(s[1..], c, 10 * value + (s[0] as int - '0' as int));
    }
  }

  /** A counter that is written reads back as the same number. */
  lemma {:induction false} DecimalReadsBack(n: nat)
    ensures LeadingNumber(Decimal(n), 0) == n
  {
    var digit := '0' + (n % 10) as char;
    if n < 10 {
      assert "" + [digit] == [digit];
      ReadsDigits("", digit, 0);
    } else {
      DecimalReadsBack(n / 10);
      ReadsDigits(Decimal(n / 10), digit, 0);
    }
  }

  // ---------- Runs of one thread ----------

  // One run of the tree, and the COUNTER that its commands could see.
  datatype Launch = Launch(counter: string, run: Run)

  // The error counter after these runs: a success clears it, a failure adds its errors and one more.
  function Strikes(l: seq<Launch>): nat {
    if l == [] then 0
    else
      var last := l[|l| - 1].run;
      if last.ret == 0 then 0 else Strikes(l[..|l| - 1]) + last.errors + 1
  }

  // The last n runs failed.
  ghost predicate LastFailed(l: seq<Launch>, n: nat) {
    n <= |l| && forall j :: |l| - n <= j < |l| ==> l[j].run.ret != 0
  }

  /** The counter is at least the number of failures in a row, and equal to it if the runs
      themselves count no errors. */
  lemma {:induction false} StrikesAreFailures(l: seq<Launch>, n: nat)
    ensures LastFailed(l, n) ==> n <= Strikes(l)
    ensures n <= Strikes(l) && (forall j :: 0 <= j < |l| ==> l[j].run.errors == 0) ==> LastFailed(l, n)
    decreases |l|
  {
    if l != [] && n > 0 {
      StrikesAreFailures(l[..|l| - 1], n - 1);
    }
  }

  function WithCounter(t: Tree, text: string): Tree {
    if GetAll(t.tab, KEY_COUNTER) == [] then t
    else t.(tab := t.tab[KEY_COUNTER := t.tab[KEY_COUNTER][0 := text]])
  }

  // The counter at the start; None where the thread ends at once.
  function StartCounter(tab: Table, parsers: Parsers): Option<nat> {
    var period, counter := GetFirst(tab, KEY_PERIOD), GetFirst(tab, KEY_COUNTER);
    if !HasSrcDef(tab) || period == "" then None
    else if counter != "" && parsers.counter(counter) == None then None
    else if !parsers.period(period) then None
    else Some(if counter == "" then UNLIMITED else parsers.counter(counter).value)
  }

  // The text of COUNTER after n runs that started with the counter at initial.
  function CounterText(tab: Table, initial: nat, n: nat): string
    requires initial == UNLIMITED || n <= initial
  {
    if initial == UNLIMITED || n == 0 then GetFirst(tab, KEY_COUNTER) else Decimal(initial - n)
  }

  // Run n is a run of the tree with its COUNTER counted down, and starts where run n - 1 ended.
  ghost predicate IsRun(l: seq<Launch>, n: nat, t: Tree, initial: nat, codes: Codes)
    requires n < |l| && (initial == UNLIMITED || n < initial)
  {
    && l[n].counter == CounterText(t.tab, initial, n + 1)
    && l[n].run == RunNode(WithCounter(t, l[n].counter), [], codes, if n == 0 then 0 else l[n - 1].run.calls)
  }

  ghost predicate History(l: seq<Launch>, t: Tree, initial: nat, codes: Codes) {
    && (initial == UNLIMITED || |l| <= initial)
    && (forall n :: 0 <= n < |l| ==> IsRun(l, n, t, initial, codes) && Strikes(l[..n]) <= MAX_ERRORS)
  }

  // The tree after n runs: only its COUNTER has changed.
  function RootAfter(t: Tree, initial: nat, n: nat): Tree
    requires initial == UNLIMITED || n <= initial
  {
    WithCounter(t, CounterText(t.tab, initial, n))
  }

  // Runs and remaining counter add up to the initial counter, the tree has the COUNTER that is left,
  // and every run so far was due, with no more than ten errors before it.
  ghost predicate Progress(t: Tree, initial: nat, l: seq<Launch>, counter: nat, root: Tree, codes: Codes) {
    && (if initial == UNLIMITED then counter == UNLIMITED else |l| + counter == initial)
    && root == RootAfter(t, initial, |l|) && History(l, t, initial, codes)
  }

  function CallsAfter(l: seq<Launch>): nat {
    if l == [] then 0 else l[|l| - 1].run.calls
  }

  lemma NothingRun(t: Tree, initial: nat, codes: Codes)
    ensures Progress(t, initial, [], initial, t, codes) && Strikes([]) == 0 && CallsAfter([]) == 0
  {
    if GetAll(t.tab, KEY_COUNTER) != [] {
      var vals := t.tab[KEY_COUNTER];
      assert vals[0 := vals[0]] == vals;
    }
  }

  lemma NextTick(ticks: seq<bool>, i: nat)
    requires i < |ticks|
    ensures multiset(ticks[..i + 1])[true] == multiset(ticks[..i])[true] + if ticks[i] then 1 else 0
  {
    assert ticks[..i + 1] == ticks[..i] + [ticks[i]];
  }

  lemma CountDown(t: Tree, initial: nat, n: nat)
    requires initial == UNLIMITED || (n < initial && GetFirst(t.tab, KEY_COUNTER) != "")
    ensures RootAfter(t, initial, n + 1) ==
            if initial == UNLIMITED then RootAfter(t, initial, n)
            else WithCounter(RootAfter(t, initial, n), Decimal(initial - n - 1))
    ensures GetFirst(RootAfter(t, initial, n + 1).tab, KEY_COUNTER) == CounterText(t.tab, initial, n + 1)
  {
    hide Decimal;
    if initial != UNLIMITED {
      var vals, text := t.tab[KEY_COUNTER], CounterText(t.tab, initial, n);
      assert vals[0 := text][0 := Decimal(initial - n - 1)] == vals[0 := Decimal(initial - n - 1)];
      assert t.tab[KEY_COUNTER := vals[0 := text]][KEY_COUNTER := vals[0 := Decimal(initial - n - 1)]] ==
             t.tab[KEY_COUNTER := vals[0 := Decimal(initial - n - 1)]];
    }
  }

  lemma HistoryGrows(l: seq<Launch>, t: Tree, initial: nat, codes: Codes, launch: Launch)
    requires History(l, t, initial, codes) && Strikes(l) <= MAX_ERRORS && (initial == UNLIMITED || |l| < initial)
    requires launch.counter == CounterText(t.tab, initial, |l| + 1)
    requires launch.run == RunNode(RootAfter(t, initial, |l| + 1), [], codes, CallsAfter(l))
    ensures History(l + [launch], t, initial, codes) && CallsAfter(l + [launch]) == launch.run.calls
    ensures Strikes(l + [launch]) == if launch.run.ret == 0 then 0 else Strikes(l) + launch.run.errors + 1
  {
    hide RunNode, CounterText, WithCounter;
    var l' := l + [launch];
    assert l'[..|l|] == l;
    forall n | 0 <= n < |l'| ensures IsRun(l', n, t, initial, codes) && Strikes(l'[..n]) <= MAX_ERRORS {
      if n < |l| {
        assert l'[..n] == l[..n] && IsRun(l, n, t, initial, codes);
      }
    }
  }

  class Thread {
    var root: Tree
    var completed: bool
    var retcode: int

    constructor (root: Tree)
      ensures this.root == root && !completed && retcode == EXIT_FAILURE
    {
      this.root, completed, retcode := root, false, EXIT_FAILURE;
    }

    // What the thread needs before it starts its loop.
    method Start(parsers: Parsers) returns (counter: Option<nat>)
      ensures counter == StartCounter(root.tab, parsers)
    {
      var tab := root.tab;
      if !HasSrcDef(tab) {
        return None;
      }
      var periodValue, counterValue := GetFirst(tab, KEY_PERIOD), GetFirst(tab, KEY_COUNTER);
      if periodValue == "" {
        return None;
      }
      counter := Some(UNLIMITED);
      if counterValue != "" {
        counter := parsers.counter(counterValue);
        if counter == None {
          return None;
        }
      }
      if !parsers.period(periodValue) {
        return None;
      }
    }

    // The tree is run with its COUNTER, if it has one, counted down first.
    method RunOnce(counter: nat, codes: Codes, calls: nat, ghost t: Tree, ghost initial: nat, ghost l: seq<Launch>)
      returns (left: nat, launch: Launch)
      requires Progress(t, initial, l, counter, root, codes) && calls == CallsAfter(l) && 0 < counter
               && initial <= UNLIMITED
      requires initial == UNLIMITED || GetFirst(t.tab, KEY_COUNTER) != ""
      requires Strikes(l) <= MAX_ERRORS
      modifies `root
      ensures Progress(t, initial, l + [launch], left, root, codes)
      ensures Strikes(l + [launch]) == if launch.run.ret == 0 then 0 else Strikes(l) + launch.run.errors + 1
      ensures CallsAfter(l + [launch]) == launch.run.calls
    {
      hide RunNode, Strikes, History, RootAfter, CallsAfter, CounterText, GetFirst, WithCounter;
      left := counter;
      CountDown(t, initial, |l|);
      if counter != UNLIMITED {
        left := counter - 1;
        root := WithCounter(root, Decimal(left));
      }
      var r, tr, e, w, c := RunTree(root, [], codes, calls);
      launch := Launch(GetFirst(root.tab, KEY_COUNTER), Run(r, tr, e, w, c));
      HistoryGrows(l, t, initial, codes, launch);
    }

    /** Each tick is one pass of the loop, at which the period has expired or not; after the last
        the end flag is set. `seen` is how many passes began. Runs and what is left of the counter
        add up to the initial counter, each run sees the counter that is left after it, and no run
        follows more than ten errors. */
    method Periodic(ticks: seq<bool>, parsers: Parsers, codes: Codes)
      returns (launches: seq<Launch>, counter: nat, ghost seen: nat)
      requires forall s :: parsers.counter(s).Some? ==> parsers.counter(s).value <= UNLIMITED
      modifies this
      ensures StartCounter(old(root.tab), parsers) == None ==>
                launches == [] && root == old(root) && completed == old(completed) && retcode == old(retcode)
      ensures StartCounter(old(root.tab), parsers).Some? ==>
                var initial := StartCounter(old(root.tab), parsers).value;
                && completed && retcode == (if launches == [] then 1 else launches[|launches| - 1].run.ret)
                && Progress(old(root), initial, launches, counter, root, codes)
                && seen <= |ticks| && |launches| == multiset(ticks[..seen])[true]
                && (seen == |ticks| || counter == 0 || Strikes(launches) > 10)
    {
      hide RunNode, HasSrcDef;
      launches, counter, seen := [], UNLIMITED, 0;
      ghost var t := root;
      var start := Start(parsers);
      if start == None {
        return;
      }
      CounterIsThere(t.tab, parsers);
      hide Strikes, Progress, CallsAfter, StartCounter, GetFirst;
      counter := start.value;
      ghost var initial := counter;
      var nerrors, ret, calls, tick := 0, EXIT_FAILURE, 0, 0;
      NothingRun(t, initial, codes);
      while tick < |ticks|
        invariant seen == tick <= |ticks| && |launches| == multiset(ticks[..seen])[true]
        invariant Progress(t, initial, launches, counter, root, codes)
        invariant nerrors == Strikes(launches) <= MAX_ERRORS && calls == CallsAfter(launches)
                  && ret == LastCode(launches)
      {
        if counter == 0 {
          break;
        }
        NextTick(ticks, tick);
        seen, tick := tick + 1, tick + 1;
        if !ticks[tick - 1] {
          continue;
        }
        var launch;
        counter, launch := RunOnce(counter, codes, calls, t, initial, launches);
        launches := launches + [launch];
        ret, nerrors, calls := launch.run.ret, nerrors + launch.run.errors, launch.run.calls;
        if ret != 0 {
          nerrors := nerrors + 1;
          if nerrors > MAX_ERRORS {
            break;
          }
        } else {
          nerrors := 0;
        }
      }
      completed, retcode := true, ret;
    }
  }

  function LastCode(l: seq<Launch>): int {
    if l == [] then EXIT_FAILURE else l[|l| - 1].run.ret
  }

  /** The thread starts exactly for a located node with a PERIOD that parses and a COUNTER that is
      missing, empty or a number; it counts from that number, or from SIZE_MAX. */
  lemma StartsIff(tab: Table, parsers: Parsers)
    ensures var r, period, counter := StartCounter(tab, parsers), GetAll(tab, "PERIOD"), GetAll(tab, "COUNTER");
            var counts := counter != [] && counter[0] != "";
            && (r.Some? <==> HasSrcDef(tab) && period != [] && period[0] != "" && parsers.period(period[0])
                             && (counts ==> parsers.counter(counter[0]).Some?))
            && (r.Some? ==> r == if counts then parsers.counter(counter[0]) else Some(0xFFFF_FFFF_FFFF_FFFF))
  {
  }

  lemma CounterIsThere(tab: Table, parsers: Parsers)
    requires StartCounter(tab, parsers).Some?
    ensures GetFirst(tab, KEY_COUNTER) == "" ==> StartCounter(tab, parsers).value == UNLIMITED
    ensures (forall s :: parsers.counter(s).Some? ==> parsers.counter(s).value <= UNLIMITED) ==>
              StartCounter(tab, parsers).value <= UNLIMITED
  {
  }

  /** The lint and the thread agree: a node passes the check of its timing, with a PERIOD that is not
      empty, exactly when its thread starts and neither PERIOD nor COUNTER has more values than the
      thread looks at, nor an empty COUNTER that is no number. The thread then counts from COUNTER. */
  lemma CheckedThreadsStart(tab: Table, parsers: Parsers)
    requires HasSrcDef(tab)
    ensures var counters := GetAll(tab, KEY_COUNTER);
            Timed(tab, parsers) && GetFirst(tab, KEY_PERIOD) != "" <==>
            && StartCounter(tab, parsers).Some? && |GetAll(tab, KEY_PERIOD)| == 1 && |counters| <= 1
            && (counters == [""] ==> parsers.counter("").Some?)
    ensures Timed(tab, parsers) && StartCounter(tab, parsers).Some? && GetFirst(tab, KEY_COUNTER) != "" ==>
              Some(StartCounter(tab, parsers).value) == parsers.counter(GetAll(tab, KEY_COUNTER)[0])
  {
    var counters := GetAll(tab, KEY_COUNTER);
    if |counters| == 1 && counters[0] == "" {
      assert counters == [""];
    }
  }

  lemma LocatedWithCounter(t: Tree, text: string)
    requires Located(t)
    ensures Located(WithCounter(t, text))
  {
  }

  /** A thread that starts with a counter of n below SIZE_MAX makes at most n runs, and run i, counted
      from 0, is a run of the tree with the COUNTER, where there is one, reading n - i - 1 and every
      other symbol as it was. */
  lemma CounterCountsDown(l: seq<Launch>, t: Tree, initial: nat, codes: Codes, i: nat)
    requires History(l, t, initial, codes) && i < |l|
    ensures initial < 0xFFFF_FFFF_FFFF_FFFF ==> |l| <= initial && LeadingNumber(l[i].counter, 0) == initial - i - 1
    ensures initial == 0xFFFF_FFFF_FFFF_FFFF ==> l[i].counter == GetFirst(t.tab, KEY_COUNTER)
    ensures exists t' :: l[i].run == RunNode(t', [], codes, if i == 0 then 0 else l[i - 1].run.calls)
                         && Recounted(t, t', l[i].counter)
  {
    hide RunNode;
    assert IsRun(l, i, t, initial, codes);
    var t' := WithCounter(t, l[i].counter);
    if initial != UNLIMITED && i + 1 <= initial {
      DecimalReadsBack(initial - i - 1);
    }
    assert Recounted(t, t', l[i].counter);
  }

  // t' is t with this text as the first string of COUNTER, if it has one.
  ghost predicate Recounted(t: Tree, t': Tree, text: string) {
    && t'.(tab := t.tab) == t && t'.tab.Keys == t.tab.Keys
    && (forall k :: k in t.tab && k != KEY_COUNTER ==> t'.tab[k] == t.tab[k])
    && var before, after := GetAll(t.tab, KEY_COUNTER), GetAll(t'.tab, KEY_COUNTER);
       |after| == |before| && (before != [] ==> after[0] == text && after[1..] == before[1..])
  }

  /** No run is ever started after eleven failures in a row; and if every node knows its origin,
      as after a clean lint, the thread gives up only after eleven failures in a row. */
  lemma GivesUpAfterEleven(l: seq<Launch>, t: Tree, initial: nat, codes: Codes)
    requires History(l, t, initial, codes)
    ensures forall n :: 0 <= n < |l| ==> Strikes(l[..n]) <= 10 && !LastFailed(l[..n], 11)
    ensures LastFailed(l, 11) ==> Strikes(l) > 10
    ensures Located(t) && Strikes(l) > 10 ==> LastFailed(l, 11)
  {
    forall n | 0 <= n < |l| ensures Strikes(l[..n]) <= 10 && !LastFailed(l[..n], 11) {
      assert IsRun(l, n, t, initial, codes);
      StrikesAreFailures(l[..n], 11);
    }
    StrikesAreFailures(l, 11);
    if Located(t) {
      forall n | 0 <= n < |l| ensures l[n].run.errors == 0 {
        assert IsRun(l, n, t, initial, codes);
        LocatedWithCounter(t, l[n].counter);
        NodeConserves(WithCounter(t, l[n].counter), [], codes, if n == 0 then 0 else l[n - 1].run.calls);
      }
    }
  }
}
