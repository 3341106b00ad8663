/** What linearizability gives the users of the Interlocked operations: counters that lose no
    update, tickets that are never handed out twice, and compare-exchange races with one winner.
    Beside it, that the protocol cannot deadlock. */
module InterlockedResults {
  import opened MachineIntegers
  import opened Interlocked

  // ----- Counting calls

  ghost function CallsOf(h: seq<Event>, op: Op): (r: set<nat>) {
    set i: nat | i < |h| && h[i].Call? && h[i].op == op
  }

  ghost predicate Completed(h: seq<Event>, i: nat) {
    exists j: nat :: Answers(h, i, j)
  }

  ghost predicate AllCompleted(h: seq<Event>) {
    forall i: nat :: i < |h| && h[i].Call? ==> Completed(h, i)
  }

  /** The only operations called on `loc` are increments and decrements. */
  ghost predicate OnlyCounts(h: seq<Event>, loc: Location) {
    forall i :: 0 <= i < |h| && h[i].Call? && h[i].op.loc == loc ==> h[i].op.Increment? || h[i].op.Decrement?
  }

  /** The calls of `op` that the order `lin` contains. */
  ghost function Placed(lin: seq<Entry>, op: Op): (r: set<nat>) {
    set e | e in lin && e.op == op :: e.call
  }

  /** How many of the first `n` entries are `op`. */
  ghost function Count(lin: seq<Entry>, op: Op, n: nat): (r: nat)
    requires n <= |lin|
  {
    if n == 0 then 0 else Count(lin, op, n - 1) + if lin[n - 1].op == op then 1 else 0
  }

  /** The calls of `op` among the first `n` entries. */
  ghost function PlacedIn(lin: seq<Entry>, op: Op, n: nat): (r: set<nat>)
    requires n <= |lin|
  {
    if n == 0 then {} else PlacedIn(lin, op, n - 1) + if lin[n - 1].op == op then {lin[n - 1].call} else {}
  }

  lemma {:induction false} PlacedInOrder(lin: seq<Entry>, op: Op, n: nat, c: nat)
    requires n <= |lin|
    ensures c in PlacedIn(lin, op, n) <==> exists p :: 0 <= p < n && lin[p].op == op && lin[p].call == c
  {
    if n > 0 {
      PlacedInOrder(lin, op, n - 1, c);
    }
  }

  ghost predicate DistinctCalls(lin: seq<Entry>) {
    forall p, q :: 0 <= p < q < |lin| ==> lin[p].call != lin[q].call
  }

  lemma {:induction false} NotPlacedBefore(lin: seq<Entry>, op: Op, n: nat, m: nat)
    requires DistinctCalls(lin) && n <= m < |lin|
    ensures lin[m].call !in PlacedIn(lin, op, n)
  {
    if n > 0 {
      NotPlacedBefore(lin, op, n - 1, m);
    }
  }

  lemma OneMore<T>(a: set<T>, x: T)
    requires x !in a
    ensures |a + {x}| == |a| + 1
  {
  }

  lemma {:induction false} CountIsSize(lin: seq<Entry>, op: Op, n: nat)
    requires DistinctCalls(lin) && n <= |lin|
    ensures Count(lin, op, n) == |PlacedIn(lin, op, n)|
  {
    if n > 0 {
      CountIsSize(lin, op, n - 1);
      NotPlacedBefore(lin, op, n - 1, n - 1);
      OneMore(PlacedIn(lin, op, n - 1), lin[n - 1].call);
    }
  }

  lemma {:induction false} CountMonotone(lin: seq<Entry>, op: Op, p: nat, n: nat)
    requires p <= n <= |lin|
    ensures Count(lin, op, p) <= Count(lin, op, n)
    decreases n
  {
    if p < n {
      CountMonotone(lin, op, p, n - 1);
    }
  }

  lemma PlacedSize(lin: seq<Entry>, op: Op)
    requires DistinctCalls(lin)
    ensures |Placed(lin, op)| == Count(lin, op, |lin|)
  {
    CountIsSize(lin, op, |lin|);
    forall c: nat
      ensures c in Placed(lin, op) <==> c in PlacedIn(lin, op, |lin|)
    {
      PlacedInOrder(lin, op, |lin|, c);
    }
    assert Placed(lin, op) == PlacedIn(lin, op, |lin|);
  }

  /** `calls` are calls of `op`, among them all the completed ones. */
  ghost predicate Applied(h: seq<Event>, op: Op, calls: set<nat>) {
    && calls <= CallsOf(h, op)
    && forall i :: i in CallsOf(h, op) && Completed(h, i) ==> i in calls
  }

  lemma PlacedAreApplied(h: seq<Event>, lin: seq<Entry>, op: Op)
    requires EntriesAreCalls(h, lin) && CoversCompleted(h, lin)
    ensures Applied(h, op, Placed(lin, op))
  {
    forall i | i in CallsOf(h, op) && Completed(h, i)
      ensures i in Placed(lin, op)
    {
      var j: nat :| Answers(h, i, j);
      assert Entry(i, h[i].tid, h[i].op, h[j].reply) in lin;
    }
  }

  // ----- Counters

  ghost predicate OnlyCountsIn(lin: seq<Entry>, loc: Location) {
    forall e :: e in lin && e.op.loc == loc ==> e.op.Increment? || e.op.Decrement?
  }

  /** How much the first `n` operations count `loc` up. */
  ghost function Net(lin: seq<Entry>, loc: Location, n: nat): (r: int)
    requires n <= |lin|
  {
    Count(lin, Increment(loc), n) - Count(lin, Decrement(loc), n)
  }

  lemma CountOneMore(x: int, op: Op)
    requires op.Increment? || op.Decrement?
    ensures NewValue(op, Wrap32(x)) == Wrap32(x + if op.Increment? then 1 else -1)
  {
  }

  lemma {:induction false} CounterValue(memory: Memory, lin: seq<Entry>, loc: Location, n: nat)
    requires loc in memory && OnlyCountsIn(lin, loc) && n <= |lin|
    ensures loc in Outcome(memory, lin, n)
    ensures Outcome(memory, lin, n)[loc] == Wrap32(memory[loc] + Net(lin, loc, n))
  {
    if n > 0 {
      CounterValue(memory, lin, loc, n - 1);
      var op := lin[n - 1].op;
      if op.loc == loc {
        assert lin[n - 1] in lin;
        CountOneMore(memory[loc] + Net(lin, loc, n - 1), op);
      }
    }
  }

  lemma CounterFromOrder(h: seq<Event>, before: Memory, lin: seq<Entry>, loc: Location)
    requires EntriesAreCalls(h, lin) && loc in before && OnlyCounts(h, loc)
    ensures loc in Outcome(before, lin, |lin|)
    ensures Outcome(before, lin, |lin|)[loc]
         == Wrap32(before[loc] + |Placed(lin, Increment(loc))| - |Placed(lin, Decrement(loc))|)
  {
    PlacedSize(lin, Increment(loc));
    PlacedSize(lin, Decrement(loc));
    CounterValue(before, lin, loc, |lin|);
  }

  /** At any moment of any run, a location used only as a counter holds its initial value plus some of the
      increments minus some of the decrements called so far (modulo 2^32): all the completed ones, and
      of the others each either wholly or not at all. */
  lemma CounterNeverLosesUpdates(s: State, schedule: seq<Step>, loc: Location)
      returns (up: set<nat>, down: set<nat>)
    requires Initial(s) && loc in s.memory && OnlyCounts(Run(s, schedule).history, loc)
    ensures Applied(Run(s, schedule).history, Increment(loc), up)
    ensures Applied(Run(s, schedule).history, Decrement(loc), down)
    ensures loc in Run(s, schedule).memory
    ensures Run(s, schedule).memory[loc] == Wrap32(s.memory[loc] + |up| - |down|)
  {
    var lin := RunKeepsInv(s, schedule);
    var end := Run(s, schedule);
    up, down := Placed(lin, Increment(loc)), Placed(lin, Decrement(loc));
    PlacedAreApplied(end.history, lin, Increment(loc));
    PlacedAreApplied(end.history, lin, Decrement(loc));
    CounterFromOrder(end.history, s.memory, lin, loc);
  }

  /** When no thread is inside an operation, the counter has moved by exactly the calls made. */
  lemma CounterIsExactAtRest(s: State, schedule: seq<Step>, loc: Location)
    requires Initial(s) && loc in s.memory && OnlyCounts(Run(s, schedule).history, loc)
    requires Run(s, schedule).active == map[]
    ensures var end := Run(s, schedule);
      && loc in end.memory
      && end.memory[loc] == Wrap32(s.memory[loc] + |CallsOf(end.history, Increment(loc))|
                                                 - |CallsOf(end.history, Decrement(loc))|)
  {
    AtRestAllAreCompleted(s, schedule);
    var up, down := CounterNeverLosesUpdates(s, schedule, loc);
    var h := Run(s, schedule).history;
    assert up == CallsOf(h, Increment(loc)) && down == CallsOf(h, Decrement(loc));
  }

  ghost predicate OnlyIncrements(h: seq<Event>, loc: Location) {
    forall k :: 0 <= k < |h| && h[k].Call? && h[k].op.loc == loc ==> h[k].op.Increment?
  }

  ghost predicate OnlyIncrementsIn(lin: seq<Entry>, loc: Location) {
    forall e :: e in lin && e.op.loc == loc ==> e.op.Increment?
  }

  lemma WrapSeparates(x: int, y: int)
    requires 0 < y - x < 0x1_0000_0000
    ensures Wrap32(x) != Wrap32(y)
  {
  }

  lemma {:induction false} NoDecrements(lin: seq<Entry>, loc: Location, n: nat)
    requires OnlyIncrementsIn(lin, loc) && n <= |lin|
    ensures Count(lin, Decrement(loc), n) == 0
  {
    if n > 0 {
      NoDecrements(lin, loc, n - 1);
      assert lin[n - 1] in lin;
    }
  }

  /** An increment in the order replies the initial value plus its rank among the increments. */
  lemma TicketIsRank(memory: Memory, lin: seq<Entry>, loc: Location, p: nat)
    requires loc in memory && p < |lin| && lin[p].op == Increment(loc)
    requires RepliesAgree(memory, lin) && OnlyIncrementsIn(lin, loc)
    ensures lin[p].reply == Wrap32(memory[loc] + Count(lin, Increment(loc), p + 1))
  {
    assert ReplyAgrees(memory, lin, p);
    NoDecrements(lin, loc, p);
    CounterValue(memory, lin, loc, p);
    CountOneMore(memory[loc] + Net(lin, loc, p), lin[p].op);
  }

  lemma LaterTicketsDiffer(memory: Memory, lin: seq<Entry>, loc: Location, p: nat, q: nat)
    requires loc in memory && p < q < |lin| && lin[p].op == lin[q].op == Increment(loc)
    requires RepliesAgree(memory, lin) && Count(lin, Increment(loc), |lin|) <= 0x1_0000_0000
    requires OnlyIncrementsIn(lin, loc)
    ensures lin[p].reply != lin[q].reply
  {
    var op := Increment(loc);
    TicketIsRank(memory, lin, loc, p);
    TicketIsRank(memory, lin, loc, q);
    CountMonotone(lin, op, 0, p);
    CountMonotone(lin, op, p + 1, q);
    CountMonotone(lin, op, q + 1, |lin|);
    WrapSeparates(memory[loc] + Count(lin, op, p + 1), memory[loc] + Count(lin, op, q + 1));
  }

  lemma SubsetSize<T>(a: set<T>, b: set<T>)
    requires a <= b
    ensures |a| <= |b|
  {
    assert b == a + (b - a);
  }

  /** As long as at most 2^32 increments are called on a location that nothing else touches,
      no two of them return the same value. */
  lemma TicketsAreDistinct(s: State, schedule: seq<Step>, loc: Location, i: nat, j: nat, i': nat, j': nat)
    requires Initial(s) && loc in s.memory && OnlyIncrements(Run(s, schedule).history, loc)
    requires |CallsOf(Run(s, schedule).history, Increment(loc))| <= 0x1_0000_0000
    requires var h := Run(s, schedule).history;
      Answers(h, i, j) && Answers(h, i', j') && i != i' && h[i].op == h[i'].op == Increment(loc)
    ensures var h := Run(s, schedule).history; h[j].reply != h[j'].reply
  {
    var lin := RunKeepsInv(s, schedule);
    TicketsDifferIn(Run(s, schedule).history, s.memory, lin, loc, i, j, i', j');
  }

  lemma TicketsDifferIn(h: seq<Event>, before: Memory, lin: seq<Entry>, loc: Location,
                        i: nat, j: nat, i': nat, j': nat)
    requires EntriesAreCalls(h, lin) && CoversCompleted(h, lin) && RepliesAgree(before, lin)
    requires loc in before && OnlyIncrements(h, loc) && |CallsOf(h, Increment(loc))| <= 0x1_0000_0000
    requires Answers(h, i, j) && Answers(h, i', j') && i != i' && h[i].op == h[i'].op == Increment(loc)
    ensures h[j].reply != h[j'].reply
  {
    var p := PlaceOf(h, lin, i, j);
    var q := PlaceOf(h, lin, i', j');
    PlacedAreApplied(h, lin, Increment(loc));
    PlacedSize(lin, Increment(loc));
    SubsetSize(Placed(lin, Increment(loc)), CallsOf(h, Increment(loc)));
    if p < q {
      LaterTicketsDiffer(before, lin, loc, p, q);
    } else {
      LaterTicketsDiffer(before, lin, loc, q, p);
    }
  }

  lemma PlaceOf(h: seq<Event>, lin: seq<Entry>, i: nat, j: nat) returns (p: nat)
    requires CoversCompleted(h, lin) && Answers(h, i, j)
    ensures p < |lin| && lin[p] == Entry(i, h[i].tid, h[i].op, h[j].reply)
  {
    assert Entry(i, h[i].tid, h[i].op, h[j].reply) in lin;
    p :| p < |lin| && lin[p] == Entry(i, h[i].tid, h[i].op, h[j].reply);
  }

  // ----- Compare-exchange races

  /** If it is an operation on `loc`, it is a compare-exchange from `comparand` to some other value. */
  ghost predicate Contends(op: Op, loc: Location, comparand: Int32) {
    op.loc == loc ==> op.CompareExchange? && op.comparand == comparand && op.value != comparand
  }

  ghost predicate Race(h: seq<Event>, loc: Location, comparand: Int32) {
    forall k :: 0 <= k < |h| && h[k].Call? ==> Contends(h[k].op, loc, comparand)
  }

  /** `f` is the first entry on `loc`, or the length of the order when there is none. */
  ghost predicate FirstAt(lin: seq<Entry>, loc: Location, f: nat) {
    && f <= |lin|
    && (f < |lin| ==> lin[f].op.loc == loc)
    && forall p :: 0 <= p < f ==> lin[p].op.loc != loc
  }

  ghost function FirstContender(lin: seq<Entry>, loc: Location, from: nat): (f: nat)
    requires from <= |lin| && forall p :: 0 <= p < from ==> lin[p].op.loc != loc
    ensures FirstAt(lin, loc, f)
    decreases |lin| - from
  {
    if from == |lin| || lin[from].op.loc == loc then from else FirstContender(lin, loc, from + 1)
  }

  /** Until the first contender the location holds the comparand, and the contender's value ever after. */
  lemma {:induction false} RaceValue(memory: Memory, lin: seq<Entry>, loc: Location, comparand: Int32, n: nat, f: nat)
    requires loc in memory && memory[loc] == comparand && n <= |lin| && FirstAt(lin, loc, f)
    requires forall e :: e in lin ==> Contends(e.op, loc, comparand)
    ensures loc in Outcome(memory, lin, n)
    ensures n <= f ==> Outcome(memory, lin, n)[loc] == comparand
    ensures f < n ==> lin[f].op.CompareExchange? && Outcome(memory, lin, n)[loc] == lin[f].op.value != comparand
  {
    if n > 0 {
      RaceValue(memory, lin, loc, comparand, n - 1, f);
      assert lin[n - 1] in lin;
    }
  }

  lemma WinnerIsFirst(memory: Memory, h: seq<Event>, lin: seq<Entry>, loc: Location, comparand: Int32,
                      i: nat, j: nat, f: nat)
    requires loc in memory && memory[loc] == comparand && Race(h, loc, comparand) && FirstAt(lin, loc, f)
    requires EntriesAreCalls(h, lin) && CoversCompleted(h, lin) && RepliesAgree(memory, lin)
    requires Answers(h, i, j) && h[i].op.loc == loc
    ensures f < |lin| && (h[j].reply == comparand <==> lin[f].call == i)
  {
    var p := PlaceOf(h, lin, i, j);
    assert forall e :: e in lin ==> Contends(e.op, loc, comparand);
    RaceValue(memory, lin, loc, comparand, p, f);
    assert lin[p] in lin && ReplyAgrees(memory, lin, p);
    if p == f {
    } else {
      assert lin[f].call != lin[p].call;
    }
  }

  /** In a race of compare-exchanges from the value the location starts with, at most one call
      is told that it saw the comparand. */
  lemma AtMostOneWinner(s: State, schedule: seq<Step>, loc: Location, comparand: Int32,
                        i: nat, j: nat, i': nat, j': nat)
    requires Initial(s) && loc in s.memory && s.memory[loc] == comparand
    requires Race(Run(s, schedule).history, loc, comparand)
    requires var h := Run(s, schedule).history;
      && Answers(h, i, j) && h[i].op.loc == loc && h[j].reply == comparand
      && Answers(h, i', j') && h[i'].op.loc == loc && h[j'].reply == comparand
    ensures i == i'
  {
    var lin := RunKeepsInv(s, schedule);
    var h := Run(s, schedule).history;
    var f := FirstContender(lin, loc, 0);
    WinnerIsFirst(s.memory, h, lin, loc, comparand, i, j, f);
    WinnerIsFirst(s.memory, h, lin, loc, comparand, i', j', f);
  }

  /** `winner` is the one call on `loc` that was told it saw the comparand; its value is what the location holds. */
  ghost predicate WonBy(h: seq<Event>, memory: Memory, loc: Location, comparand: Int32, winner: nat) {
    && winner < |h| && h[winner].Call? && h[winner].op.loc == loc && h[winner].op.CompareExchange?
    && (forall i: nat, j: nat :: Answers(h, i, j) && h[i].op.loc == loc ==> (h[j].reply == comparand <==> i == winner))
    && loc in memory && memory[loc] == h[winner].op.value
  }

  /** When no thread is inside an operation any more, the race has one winner. */
  lemma RaceHasOneWinner(s: State, schedule: seq<Step>, loc: Location, comparand: Int32, k: nat) returns (winner: nat)
    requires Initial(s) && loc in s.memory && s.memory[loc] == comparand
    requires Race(Run(s, schedule).history, loc, comparand) && Run(s, schedule).active == map[]
    requires var h := Run(s, schedule).history; k < |h| && h[k].Call? && h[k].op.loc == loc
    ensures WonBy(Run(s, schedule).history, Run(s, schedule).memory, loc, comparand, winner)
  {
    AtRestAllAreCompleted(s, schedule);
    var lin := RunKeepsInv(s, schedule);
    winner := WinnerIn(Run(s, schedule).history, s.memory, Run(s, schedule).memory, lin, loc, comparand, k);
  }

  lemma WinnerIn(h: seq<Event>, before: Memory, after: Memory, lin: seq<Entry>, loc: Location, comparand: Int32, k: nat)
      returns (winner: nat)
    requires EntriesAreCalls(h, lin) && CoversCompleted(h, lin) && RepliesAgree(before, lin)
    requires Outcome(before, lin, |lin|) == after
    requires loc in before && before[loc] == comparand && Race(h, loc, comparand)
    requires k < |h| && h[k].Call? && h[k].op.loc == loc && Completed(h, k)
    ensures WonBy(h, after, loc, comparand, winner)
  {
    var f := FirstContender(lin, loc, 0);
    var r: nat :| Answers(h, k, r);
    WinnerIsFirst(before, h, lin, loc, comparand, k, r, f);
    winner := lin[f].call;
    assert lin[f] in lin;
    forall i: nat, j: nat | Answers(h, i, j) && h[i].op.loc == loc
      ensures h[j].reply == comparand <==> i == winner
    {
      WinnerIsFirst(before, h, lin, loc, comparand, i, j, f);
    }
    assert forall e :: e in lin ==> Contends(e.op, loc, comparand);
    RaceValue(before, lin, loc, comparand, |lin|, f);
  }

  // ----- What histories look like

  /** Every return answers a call, and every call is either answered or where its thread is now. */
  ghost predicate WellMatched(s: State) {
    && (forall j: nat :: j < |s.history| && s.history[j].Return? ==> AnswersSome(s.history, j))
    && (forall i: nat :: i < |s.history| && s.history[i].Call? ==> Completed(s.history, i) || StillIn(s, i))
  }

  ghost predicate AnswersSome(h: seq<Event>, j: nat) {
    exists i: nat :: Answers(h, i, j)
  }

  ghost predicate StillIn(s: State, i: nat)
    requires i < |s.history|
  {
    s.history[i].tid in s.active && s.active[s.history[i].tid].call == i
  }

  lemma AnswersStay(h: seq<Event>, e: Event)
    ensures forall i: nat, j: nat :: Answers(h, i, j) ==> Answers(h + [e], i, j)
    ensures forall i: nat :: Completed(h, i) ==> Completed(h + [e], i)
    ensures forall j: nat :: AnswersSome(h, j) ==> AnswersSome(h + [e], j)
  {
    forall i: nat, j: nat | Answers(h, i, j)
      ensures Answers(h + [e], i, j)
    {
    }
    forall i: nat | Completed(h, i)
      ensures Completed(h + [e], i)
    {
      var j: nat :| Answers(h, i, j);
      assert Answers(h + [e], i, j);
    }
    forall j: nat | AnswersSome(h, j)
      ensures AnswersSome(h + [e], j)
    {
      var i: nat :| Answers(h, i, j);
      assert Answers(h + [e], i, j);
    }
  }

  lemma StepKeepsWellMatched(s: State, step: Step, lin: seq<Entry>)
    requires WellMatched(s) && Enabled(s, step)
    requires step.tid in s.active ==> Pending(s, lin, step.tid, s.active[step.tid])
    ensures WellMatched(Apply(s, step))
  {
    var s' := Apply(s, step);
    if step.Leave? {
      var a := s.active[step.tid];
      AnswersStay(s.history, s'.history[|s.history|]);
      assert Answers(s'.history, a.call, |s.history|);
      assert Completed(s'.history, a.call) && AnswersSome(s'.history, |s.history|);
    } else if step.Enter? {
      AnswersStay(s.history, s'.history[|s.history|]);
    }
    forall i: nat | i < |s'.history| && s'.history[i].Call?
      ensures Completed(s'.history, i) || StillIn(s', i)
    {
      if i < |s.history| {
        assert Completed(s.history, i) || StillIn(s, i);
      }
    }
  }

  /** In every run, every return that is seen answers a call, so that linearizability speaks of it. */
  lemma {:induction false} RunsAreWellMatched(s: State, schedule: seq<Step>)
    requires Initial(s)
    ensures WellMatched(Run(s, schedule))
    decreases |schedule|
  {
    if schedule != [] {
      var prefix, step := schedule[..|schedule| - 1], schedule[|schedule| - 1];
      RunsAreWellMatched(s, prefix);
      var lin := RunKeepsInv(s, prefix);
      if Enabled(Run(s, prefix), step) {
        StepKeepsWellMatched(Run(s, prefix), step, lin);
      }
    }
  }

  /** When no thread is inside an operation, every call has been answered. */
  lemma AtRestAllAreCompleted(s: State, schedule: seq<Step>)
    requires Initial(s) && Run(s, schedule).active == map[]
    ensures AllCompleted(Run(s, schedule).history)
  {
    RunsAreWellMatched(s, schedule);
  }

  // ----- Deadlock freedom

  /** Every locked mutex belongs to a thread inside the critical section of one of its locations. */
  ghost predicate OwnersInside(s: State) {
    forall m :: m in s.owner ==>
      && s.owner[m] in s.active
      && var a := s.active[s.owner[m]];
         InCriticalSection(a) && a.op.loc in s.table && s.table[a.op.loc] == m
  }

  lemma StepKeepsOwnersInside(s: State, step: Step)
    requires OwnersInside(s) && LocksHeld(s) && Enabled(s, step)
    ensures OwnersInside(Apply(s, step))
  {
    var s' := Apply(s, step);
    forall m | m in s'.owner
      ensures s'.owner[m] in s'.active
      ensures InCriticalSection(s'.active[s'.owner[m]])
      ensures var a := s'.active[s'.owner[m]]; a.op.loc in s'.table && s'.table[a.op.loc] == m
    {
      if step.tid in s.active {
        assert s.active[step.tid].op.loc in s.memory;
      }
    }
  }

  lemma {:induction false} RunKeepsOwnersInside(s: State, schedule: seq<Step>)
    requires Initial(s)
    ensures OwnersInside(Run(s, schedule)) && LocksHeld(Run(s, schedule))
    decreases |schedule|
  {
    if schedule != [] {
      var prefix, step := schedule[..|schedule| - 1], schedule[|schedule| - 1];
      RunKeepsOwnersInside(s, prefix);
      if Enabled(Run(s, prefix), step) {
        StepKeepsOwnersInside(Run(s, prefix), step);
        StepKeepsLocks(Run(s, prefix), step);
      }
    }
  }

  /** The next step of a thread that is inside an operation. */
  function NextStep(t: ThreadId, a: Activity): (r: Step) {
    match a.at
    case Entered => FindMutex(t, 0)
    case FoundMutex(_) => Acquire(t)
    case Locked => Load(t)
    case Loaded(_) => Store(t)
    case Stored(_) => Release(t)
    case Unlocked(_) => Leave(t)
  }

  /** The protocol never deadlocks: a thread that cannot move waits for a mutex whose owner can. */
  lemma SomeThreadCanMove(s: State, schedule: seq<Step>, t: ThreadId)
    requires Initial(s) && t in Run(s, schedule).active
    ensures var end := Run(s, schedule);
      || Enabled(end, NextStep(t, end.active[t]))
      || (&& end.active[t].at.FoundMutex? && end.active[t].at.mutex in end.owner
          && var u := end.owner[end.active[t].at.mutex];
             u in end.active && Enabled(end, NextStep(u, end.active[u])))
  {
    RunKeepsOwnersInside(s, schedule);
  }

  // ----- Every operation can be completed

  lemma {:induction false} RunInTwoParts(s: State, first: seq<Step>, more: seq<Step>)
    ensures Run(s, first + more) == Run(Run(s, first), more)
    decreases |more|
  {
    if more == [] {
      assert first + more == first;
    } else {
      var init, last := more[..|more| - 1], more[|more| - 1];
      RunInTwoParts(s, first, init);
      assert (first + more)[..|first + more| - 1] == first + init;
    }
  }

  lemma RunFirst(s: State, step: Step, more: seq<Step>)
    requires Enabled(s, step)
    ensures Run(s, [step] + more) == Run(Apply(s, step), more)
  {
    RunInTwoParts(s, [step], more);
    assert [step][..0] == [];
  }

  /** How many steps an operation has left. */
  function StepsLeft(at: Point): (n: nat) {
    match at
    case Entered => 6
    case FoundMutex(_) => 5
    case Locked => 4
    case Loaded(_) => 3
    case Stored(_) => 2
    case Unlocked(_) => 1
  }

  ghost predicate NoneEnters(schedule: seq<Step>) {
    forall k :: 0 <= k < |schedule| ==> !schedule[k].Enter?
  }

  /** Nothing stops the thread: it has its mutex, or is done with it, or no mutex is locked. */
  ghost predicate Free(s: State, t: ThreadId) {
    && OwnersInside(s) && LocksHeld(s) && t in s.active
    && (s.owner == map[] || InCriticalSection(s.active[t]) || s.active[t].at.Unlocked?)
  }

  /** Such a thread takes its next step, after which nothing stops it either. */
  lemma FreeThreadMoves(s: State, t: ThreadId)
    requires Free(s, t)
    ensures var step := NextStep(t, s.active[t]);
      && Enabled(s, step) && OwnersInside(Apply(s, step)) && LocksHeld(Apply(s, step))
      && Apply(s, step).active - {t} == s.active - {t}
      && (s.active[t].at.Unlocked? ==> t !in Apply(s, step).active)
      && (!s.active[t].at.Unlocked? ==>
            Free(Apply(s, step), t) && StepsLeft(Apply(s, step).active[t].at) == StepsLeft(s.active[t].at) - 1)
  {
    var step := NextStep(t, s.active[t]);
    StepKeepsOwnersInside(s, step);
    StepKeepsLocks(s, step);
  }

  /** It gets to the end of its operation while the others stand still. */
  lemma {:induction false} FreeThreadFinishes(s: State, t: ThreadId) returns (more: seq<Step>)
    requires Free(s, t)
    ensures NoneEnters(more) && |more| == StepsLeft(s.active[t].at)
    ensures OwnersInside(Run(s, more)) && LocksHeld(Run(s, more)) && Run(s, more).active == s.active - {t}
    decreases StepsLeft(s.active[t].at)
  {
    var step := NextStep(t, s.active[t]);
    FreeThreadMoves(s, t);
    var rest := [];
    if !s.active[t].at.Unlocked? {
      rest := FreeThreadFinishes(Apply(s, step), t);
    }
    more := [step] + rest;
    RunFirst(s, step, rest);
    var end := Run(s, more).active;
    assert end == end - {t};
  }

  /** Threads that own a mutex finish first, then the others, one after the other. */
  lemma {:induction false} AllCanFinish(s: State) returns (more: seq<Step>)
    requires OwnersInside(s) && LocksHeld(s)
    ensures NoneEnters(more) && |more| <= 6 * |s.active| && Run(s, more).active == map[]
    decreases |s.active|
  {
    if s.active == map[] {
      return [];
    }
    var t :| t in s.active;
    if s.owner != map[] {
      var m :| m in s.owner;
      t := s.owner[m];
    }
    var first := FreeThreadFinishes(s, t);
    assert |(s.active - {t}).Keys| < |s.active.Keys| by {
      assert (s.active - {t}).Keys == s.active.Keys - {t};
    }
    var rest := AllCanFinish(Run(s, first));
    more := first + rest;
    RunInTwoParts(s, first, rest);
  }

  /** From every state of every run, all operations in progress can be completed, in at most six steps each and
      without new calls; then every call has been answered. */
  lemma EveryOperationCanComplete(s: State, schedule: seq<Step>) returns (more: seq<Step>)
    requires Initial(s)
    ensures NoneEnters(more) && |more| <= 6 * |Run(s, schedule).active|
    ensures Run(s, schedule + more).active == map[]
    ensures AllCompleted(Run(s, schedule + more).history)
  {
    RunKeepsOwnersInside(s, schedule);
    more := AllCanFinish(Run(s, schedule));
    RunInTwoParts(s, schedule, more);
    AtRestAllAreCompleted(s, schedule + more);
  }
}
