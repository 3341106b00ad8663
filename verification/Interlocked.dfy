/** The four Interlocked operations of the thread manager, as a protocol.

    Each operation locks the mutex its location maps to, loads the location,
    stores into it and unlocks.  The protocol below runs any number of threads,
    one such step at a time, in any order.  The mutex of a location is looked up
    in a table that is filled on demand, and two locations may end up with the
    same mutex.

    The property proved of every run is linearizability, stated on the observable
    history of calls and returns alone. */
module Interlocked {
  import opened MachineIntegers

  type Location = nat
  type Mutex = nat
  type ThreadId = nat
  type Memory = map<Location, Int32>

  datatype Op =
    | CompareExchange(loc: Location, value: Int32, comparand: Int32)
    | Exchange(loc: Location, value: Int32)
    | Increment(loc: Location)
    | Decrement(loc: Location)

  // ----- What an operation does when it runs alone

  /** The content of the location after the operation found `seen` there. */
  function NewValue(op: Op, seen: Int32): (r: Int32) {
    match op
    case CompareExchange(_, value, comparand) => if seen == comparand then value else seen
    case Exchange(_, value) => value
    case Increment(_) => Wrap32(seen + 1)
    case Decrement(_) => Wrap32(seen - 1)
  }

  /** What the operation returns after it found `seen` in the location. */
  function Reply(op: Op, seen: Int32): (r: Int32) {
    match op
    case CompareExchange(_, _, _) => seen
    case Exchange(_, _) => seen
    case Increment(_) => NewValue(op, seen)
    case Decrement(_) => NewValue(op, seen)
  }

  // ----- Histories and what it means to linearize one

  datatype Event =
    | Call(tid: ThreadId, op: Op)
    | Return(tid: ThreadId, reply: Int32)

  /** The call at `i` is answered by the return at `j`: the next event of the same thread. */
  ghost predicate Answers(h: seq<Event>, i: nat, j: nat) {
    && i < j < |h|
    && h[i].Call? && h[j].Return? && h[i].tid == h[j].tid
    && forall k :: i < k < j ==> h[k].tid != h[i].tid
  }

  /** One operation of a sequential order: the call it stands for and its reply. */
  datatype Entry = Entry(call: nat, tid: ThreadId, op: Op, reply: Int32)

  /** Memory after the first `n` operations of `lin`, one after the other. */
  ghost function Outcome(memory: Memory, lin: seq<Entry>, n: nat): (r: Memory)
    requires n <= |lin|
    decreases n
  {
    if n == 0 then memory
    else
      var before, op := Outcome(memory, lin, n - 1), lin[n - 1].op;
      if op.loc in before then before[op.loc := NewValue(op, before[op.loc])] else before
  }

  /** The operation at place `p` replies what it replies when run alone there. */
  ghost predicate ReplyAgrees(memory: Memory, lin: seq<Entry>, p: nat)
    requires p < |lin|
  {
    var before, op := Outcome(memory, lin, p), lin[p].op;
    op.loc in before && lin[p].reply == Reply(op, before[op.loc])
  }

  ghost predicate RepliesAgree(memory: Memory, lin: seq<Entry>) {
    forall p: nat {:trigger ReplyAgrees(memory, lin, p)} :: p < |lin| ==> ReplyAgrees(memory, lin, p)
  }

  /** Every entry stands for a different call of the history. */
  ghost predicate EntriesAreCalls(h: seq<Event>, lin: seq<Entry>) {
    && (forall e :: e in lin ==> e.call < |h| && h[e.call] == Call(e.tid, e.op))
    && (forall p, q :: 0 <= p < q < |lin| ==> lin[p].call != lin[q].call)
  }

  /** Every completed call is in the order, with the reply it really gave. */
  ghost predicate CoversCompleted(h: seq<Event>, lin: seq<Entry>) {
    forall i: nat, j: nat :: Answers(h, i, j) ==> Entry(i, h[i].tid, h[i].op, h[j].reply) in lin
  }

  /** No operation is placed before one that had returned when it was called. */
  ghost predicate RespectsRealTime(h: seq<Event>, lin: seq<Entry>) {
    forall p, q, j: nat :: 0 <= p < q < |lin| && Answers(h, lin[q].call, j) ==> lin[p].call < j
  }

  /** `lin` is a sequential order that explains history `h` and takes `before` to `after`. */
  ghost predicate Linearization(h: seq<Event>, before: Memory, after: Memory, lin: seq<Entry>) {
    && EntriesAreCalls(h, lin)
    && CoversCompleted(h, lin)
    && RespectsRealTime(h, lin)
    && RepliesAgree(before, lin)
    && Outcome(before, lin, |lin|) == after
  }

  // ----- The protocol

  /** How far a thread has come inside an operation. */
  datatype Point =
    | Entered
    | FoundMutex(mutex: Mutex)
    | Locked
    | Loaded(seen: Int32)
    | Stored(seen: Int32)
    | Unlocked(seen: Int32)

  datatype Activity = Activity(call: nat, op: Op, at: Point)

  /** `table` maps locations to mutexes, `owner` the locked mutexes to their threads;
      a thread outside every operation is absent from `active`. */
  datatype State = State(
    memory: Memory,
    table: map<Location, Mutex>,
    owner: map<Mutex, ThreadId>,
    active: map<ThreadId, Activity>,
    history: seq<Event>)

  datatype Step =
    | Enter(tid: ThreadId, op: Op)
    | FindMutex(tid: ThreadId, ifNew: Mutex)
    | Acquire(tid: ThreadId)
    | Load(tid: ThreadId)
    | Store(tid: ThreadId)
    | Release(tid: ThreadId)
    | Leave(tid: ThreadId)

  ghost predicate Initial(s: State) {
    s.table == map[] && s.owner == map[] && s.active == map[] && s.history == []
  }

  predicate Enabled(s: State, step: Step) {
    if step.Enter? then
      step.tid !in s.active && step.op.loc in s.memory
    else
      && step.tid in s.active
      && var a := s.active[step.tid];
         match step
         case FindMutex(_, _) => a.at.Entered?
         case Acquire(_) => a.at.FoundMutex? && a.at.mutex !in s.owner
         case Load(_) => a.at.Locked? && a.op.loc in s.memory
         case Store(_) => a.at.Loaded?
         case Release(_) => a.at.Stored? && a.op.loc in s.table
         case Leave(_) => a.at.Unlocked?
  }

  function Move(s: State, t: ThreadId, at: Point): (r: map<ThreadId, Activity>)
    requires t in s.active
  {
    s.active[t := s.active[t].(at := at)]
  }

  function Apply(s: State, step: Step): (r: State)
    requires Enabled(s, step)
  {
    var t := step.tid;
    match step
    case Enter(_, op) =>
      s.(active := s.active[t := Activity(|s.history|, op, Entered)], history := s.history + [Call(t, op)])
    case FindMutex(_, ifNew) =>
      var loc := s.active[t].op.loc;
      var table := if loc in s.table then s.table else s.table[loc := ifNew];
      s.(table := table, active := Move(s, t, FoundMutex(table[loc])))
    case Acquire(_) =>
      s.(owner := s.owner[s.active[t].at.mutex := t], active := Move(s, t, Locked))
    case Load(_) =>
      s.(active := Move(s, t, Loaded(s.memory[s.active[t].op.loc])))
    case Store(_) =>
      var op, seen := s.active[t].op, s.active[t].at.seen;
      s.(memory := if op.CompareExchange? && seen != op.comparand then s.memory
                   else s.memory[op.loc := NewValue(op, seen)],
         active := Move(s, t, Stored(seen)))
    case Release(_) =>
      s.(owner := s.owner - {s.table[s.active[t].op.loc]}, active := Move(s, t, Unlocked(s.active[t].at.seen)))
    case Leave(_) =>
      var a := s.active[t];
      s.(active := s.active - {t}, history := s.history + [Return(t, Reply(a.op, a.at.seen))])
  }

  /** The state after a schedule.  A step that is not enabled (a thread waiting for a mutex, say)
      leaves the state as it is. */
  ghost function Run(s: State, schedule: seq<Step>): (r: State)
    decreases |schedule|
  {
    if schedule == [] then s
    else
      var before := Run(s, schedule[..|schedule| - 1]);
      var step := schedule[|schedule| - 1];
      if Enabled(before, step) then Apply(before, step) else before
  }

  // ----- What every step keeps

  predicate InCriticalSection(a: Activity) {
    a.at.Locked? || a.at.Loaded? || a.at.Stored?
  }

  predicate TookEffect(a: Activity) {
    a.at.Stored? || a.at.Unlocked?
  }

  /** Inside the critical section a thread owns the mutex of its location, so what it loaded is still there. */
  ghost predicate LocksHeld(s: State) {
    forall t :: t in s.active ==>
      var a := s.active[t];
      && a.op.loc in s.memory
      && (a.at.FoundMutex? ==> a.op.loc in s.table && a.at.mutex == s.table[a.op.loc])
      && (InCriticalSection(a) ==>
            a.op.loc in s.table && s.table[a.op.loc] in s.owner && s.owner[s.table[a.op.loc]] == t)
      && (a.at.Loaded? ==> s.memory[a.op.loc] == a.at.seen)
  }

  /** An active thread's last event is its call, which is in the order once it took effect. */
  ghost predicate Pending(s: State, lin: seq<Entry>, t: ThreadId, a: Activity) {
    && a.call < |s.history| && s.history[a.call] == Call(t, a.op)
    && (forall k :: a.call < k < |s.history| ==> s.history[k].tid != t)
    && (if TookEffect(a)
        then Entry(a.call, t, a.op, Reply(a.op, a.at.seen)) in lin
        else forall e :: e in lin ==> e.call != a.call)
  }

  ghost predicate Inv(s: State, before: Memory, lin: seq<Entry>) {
    && LocksHeld(s)
    && (forall t :: t in s.active ==> Pending(s, lin, t, s.active[t]))
    && Linearization(s.history, before, s.memory, lin)
  }

  /** Every step but `Store` keeps the locks in order and loses no loaded value. */
  lemma StepKeepsLocks(s: State, step: Step)
    requires LocksHeld(s) && Enabled(s, step)
    ensures LocksHeld(Apply(s, step))
  {
    var s' := Apply(s, step);
    forall t | t in s'.active
      ensures var a := s'.active[t];
        && a.op.loc in s'.memory
        && (a.at.FoundMutex? ==> a.op.loc in s'.table && a.at.mutex == s'.table[a.op.loc])
        && (InCriticalSection(a) ==>
              a.op.loc in s'.table && s'.table[a.op.loc] in s'.owner && s'.owner[s'.table[a.op.loc]] == t)
        && (a.at.Loaded? ==> s'.memory[a.op.loc] == a.at.seen)
    {
      if t != step.tid {
        assert s'.active[t] == s.active[t];
        if !step.Enter? {
          assert step.tid in s.active;
        }
      }
    }
  }

  lemma OldAnswers(h: seq<Event>, e: Event, i: nat, j: nat)
    requires Answers(h + [e], i, j) && j < |h|
    ensures Answers(h, i, j)
  {
    forall k | i < k < j
      ensures h[k].tid != h[i].tid
    {
      assert (h + [e])[k] == h[k];
    }
  }

  /** A new call completes nothing. */
  lemma HistoryGrowsByCall(h: seq<Event>, e: Event, before: Memory, after: Memory, lin: seq<Entry>)
    requires Linearization(h, before, after, lin) && e.Call?
    ensures Linearization(h + [e], before, after, lin)
  {
    forall i: nat, j: nat | Answers(h + [e], i, j)
      ensures j < |h| && Answers(h, i, j)
    {
      OldAnswers(h, e, i, j);
    }
  }

  /** A return answers the last call of its thread and leaves the earlier answers alone. */
  lemma AnswersAfterReturn(h: seq<Event>, e: Event, c: nat, i: nat, j: nat)
    requires e.Return? && c < |h| && h[c].Call? && h[c].tid == e.tid
    requires forall k :: c < k < |h| ==> h[k].tid != e.tid
    requires Answers(h + [e], i, j)
    ensures if j < |h| then Answers(h, i, j) else i == c && j == |h|
  {
    if j < |h| {
      OldAnswers(h, e, i, j);
    } else {
      assert (h + [e])[i] == h[i] && (h + [e])[c] == h[c];
    }
  }

  /** A return completes one call; it comes after everything that is in the order already. */
  lemma HistoryGrowsByReturn(h: seq<Event>, e: Event, c: nat, before: Memory, after: Memory, lin: seq<Entry>)
    requires Linearization(h, before, after, lin) && e.Return?
    requires c < |h| && h[c].Call? && h[c].tid == e.tid
    requires forall k :: c < k < |h| ==> h[k].tid != e.tid
    requires Entry(c, e.tid, h[c].op, e.reply) in lin
    ensures Linearization(h + [e], before, after, lin)
  {
    var h' := h + [e];
    forall i: nat, j: nat | Answers(h', i, j)
      ensures Entry(i, h'[i].tid, h'[i].op, h'[j].reply) in lin
    {
      AnswersAfterReturn(h, e, c, i, j);
    }
    forall p, q, j: nat | 0 <= p < q < |lin| && Answers(h', lin[q].call, j)
      ensures lin[p].call < j
    {
      AnswersAfterReturn(h, e, c, lin[q].call, j);
      assert lin[p] in lin;
    }
  }

  lemma RealTimeGrows(h: seq<Event>, lin: seq<Entry>, e: Entry)
    requires RespectsRealTime(h, lin) && EntriesAreCalls(h, lin)
    requires e.call < |h| && h[e.call] == Call(e.tid, e.op)
    requires forall k :: e.call < k < |h| ==> h[k].tid != e.tid
    ensures RespectsRealTime(h, lin + [e])
  {
    assert forall j: nat :: !Answers(h, e.call, j);
  }

  lemma {:induction false} OutcomeOfPrefix(memory: Memory, lin: seq<Entry>, e: Entry, n: nat)
    requires n <= |lin|
    ensures Outcome(memory, lin + [e], n) == Outcome(memory, lin, n)
  {
    if n > 0 {
      OutcomeOfPrefix(memory, lin, e, n - 1);
    }
  }

  lemma RepliesGrow(before: Memory, lin: seq<Entry>, e: Entry)
    requires RepliesAgree(before, lin)
    requires var after := Outcome(before, lin, |lin|);
             e.op.loc in after && e.reply == Reply(e.op, after[e.op.loc])
    ensures RepliesAgree(before, lin + [e])
  {
    forall p: nat | p < |lin + [e]|
      ensures ReplyAgrees(before, lin + [e], p)
    {
      OutcomeOfPrefix(before, lin, e, p);
      if p < |lin| {
        assert ReplyAgrees(before, lin, p);
      }
    }
  }

  /** An operation that takes effect goes to the end of the order. */
  lemma OrderGrows(h: seq<Event>, before: Memory, after: Memory, lin: seq<Entry>, e: Entry)
    requires Linearization(h, before, after, lin)
    requires e.call < |h| && h[e.call] == Call(e.tid, e.op)
    requires forall f :: f in lin ==> f.call != e.call
    requires forall k :: e.call < k < |h| ==> h[k].tid != e.tid
    requires e.op.loc in after && e.reply == Reply(e.op, after[e.op.loc])
    ensures Linearization(h, before, after[e.op.loc := NewValue(e.op, after[e.op.loc])], lin + [e])
  {
    RealTimeGrows(h, lin, e);
    RepliesGrow(before, lin, e);
    assert EntriesAreCalls(h, lin + [e]) by {
      assert forall p :: 0 <= p < |lin| ==> lin[p] in lin;
    }
    OutcomeOfPrefix(before, lin, e, |lin|);
  }

  /** A thread that does not move keeps its place, as long as the order gains no entry for its call
      and the history no event of its own. */
  lemma OthersStayPending(s: State, lin: seq<Entry>, s': State, lin': seq<Entry>, u: ThreadId)
    requires u in s.active && u in s'.active && s'.active[u] == s.active[u]
    requires Pending(s, lin, u, s.active[u])
    requires s'.history == s.history || exists e :: s'.history == s.history + [e] && e.tid != u
    requires lin' == lin || exists e :: lin' == lin + [e] && e.call != s.active[u].call
    ensures Pending(s', lin', u, s'.active[u])
  {
  }

  /** Two active threads stand at different calls. */
  lemma CallsDiffer(s: State, lin: seq<Entry>, t: ThreadId, u: ThreadId)
    requires t in s.active && u in s.active && t != u
    requires Pending(s, lin, t, s.active[t]) && Pending(s, lin, u, s.active[u])
    ensures s.active[t].call != s.active[u].call
  {
  }

  lemma EnterKeepsInv(s: State, t: ThreadId, op: Op, before: Memory, lin: seq<Entry>)
    requires Inv(s, before, lin) && Enabled(s, Enter(t, op))
    ensures Inv(Apply(s, Enter(t, op)), before, lin)
  {
    var s' := Apply(s, Enter(t, op));
    StepKeepsLocks(s, Enter(t, op));
    HistoryGrowsByCall(s.history, Call(t, op), before, s.memory, lin);
    forall u | u in s'.active
      ensures Pending(s', lin, u, s'.active[u])
    {
      if u != t {
        OthersStayPending(s, lin, s', lin, u);
      }
    }
  }

  /** The store puts into memory what the operation, run alone there, would. */
  lemma StoreIsNewValue(s: State, t: ThreadId)
    requires LocksHeld(s) && Enabled(s, Store(t))
    ensures var a := s.active[t];
      && a.op.loc in s.memory && s.memory[a.op.loc] == a.at.seen
      && Apply(s, Store(t)).memory == s.memory[a.op.loc := NewValue(a.op, a.at.seen)]
  {
  }

  lemma StoreKeepsInv(s: State, t: ThreadId, before: Memory, lin: seq<Entry>, e: Entry)
    requires Inv(s, before, lin) && Enabled(s, Store(t))
    requires var a := s.active[t]; e == Entry(a.call, t, a.op, Reply(a.op, a.at.seen))
    ensures Inv(Apply(s, Store(t)), before, lin + [e])
  {
    StepKeepsLocks(s, Store(t));
    StoreIsNewValue(s, t);
    assert Pending(s, lin, t, s.active[t]);
    OrderGrows(s.history, before, s.memory, lin, e);
    forall u | u in s.active
      ensures Pending(Apply(s, Store(t)), lin + [e], u, Apply(s, Store(t)).active[u])
    {
      StorePending(s, t, lin, e, u);
    }
  }

  lemma StorePending(s: State, t: ThreadId, lin: seq<Entry>, e: Entry, u: ThreadId)
    requires Enabled(s, Store(t)) && u in s.active
    requires Pending(s, lin, t, s.active[t]) && Pending(s, lin, u, s.active[u])
    requires var a := s.active[t]; e == Entry(a.call, t, a.op, Reply(a.op, a.at.seen))
    ensures Pending(Apply(s, Store(t)), lin + [e], u, Apply(s, Store(t)).active[u])
  {
    if u != t {
      CallsDiffer(s, lin, t, u);
      OthersStayPending(s, lin, Apply(s, Store(t)), lin + [e], u);
    }
  }

  lemma LeaveKeepsInv(s: State, t: ThreadId, before: Memory, lin: seq<Entry>)
    requires Inv(s, before, lin) && Enabled(s, Leave(t))
    ensures Inv(Apply(s, Leave(t)), before, lin)
  {
    var s' := Apply(s, Leave(t));
    StepKeepsLocks(s, Leave(t));
    var a := s.active[t];
    assert Pending(s, lin, t, a);
    HistoryGrowsByReturn(s.history, Return(t, Reply(a.op, a.at.seen)), a.call, before, s.memory, lin);
    forall u | u in s'.active
      ensures Pending(s', lin, u, s'.active[u])
    {
      OthersStayPending(s, lin, s', lin, u);
    }
  }

  /** The steps nobody outside sees. */
  lemma InnerStepKeepsInv(s: State, step: Step, before: Memory, lin: seq<Entry>)
    requires Inv(s, before, lin) && Enabled(s, step)
    requires step.FindMutex? || step.Acquire? || step.Load? || step.Release?
    ensures Inv(Apply(s, step), before, lin)
  {
    StepKeepsLocks(s, step);
    forall u | u in s.active
      ensures Pending(Apply(s, step), lin, u, Apply(s, step).active[u])
    {
      InnerStepPending(s, step, lin, u);
    }
  }

  lemma InnerStepPending(s: State, step: Step, lin: seq<Entry>, u: ThreadId)
    requires Enabled(s, step) && u in s.active && Pending(s, lin, u, s.active[u])
    requires step.FindMutex? || step.Acquire? || step.Load? || step.Release?
    ensures Pending(Apply(s, step), lin, u, Apply(s, step).active[u])
  {
    if u != step.tid {
      OthersStayPending(s, lin, Apply(s, step), lin, u);
    }
  }

  /** Every step keeps the invariant; the sequential order grows at the `Store` steps. */
  lemma StepKeepsInv(s: State, step: Step, before: Memory, lin: seq<Entry>) returns (lin': seq<Entry>)
    requires Inv(s, before, lin) && Enabled(s, step)
    ensures Inv(Apply(s, step), before, lin')
  {
    lin' := lin;
    match step {
      case Enter(t, op) => EnterKeepsInv(s, t, op, before, lin);
      case Store(t) =>
        var a := s.active[t];
        var e := Entry(a.call, t, a.op, Reply(a.op, a.at.seen));
        StoreKeepsInv(s, t, before, lin, e);
        lin' := lin + [e];
      case Leave(t) => LeaveKeepsInv(s, t, before, lin);
      case _ => InnerStepKeepsInv(s, step, before, lin);
    }
  }

  lemma {:induction false} RunKeepsInv(s: State, schedule: seq<Step>) returns (lin: seq<Entry>)
    requires Initial(s)
    ensures Inv(Run(s, schedule), s.memory, lin)
    decreases |schedule|
  {
    if schedule == [] {
      lin := [];
    } else {
      var prefix, step := schedule[..|schedule| - 1], schedule[|schedule| - 1];
      lin := RunKeepsInv(s, prefix);
      if Enabled(Run(s, prefix), step) {
        lin := StepKeepsInv(Run(s, prefix), step, s.memory, lin);
      }
    }
  }

  /** Every run of any number of threads is linearizable, whatever mutexes the locations get. */
  lemma RunsAreLinearizable(s: State, schedule: seq<Step>)
    requires Initial(s)
    ensures exists lin :: Linearization(Run(s, schedule).history, s.memory, Run(s, schedule).memory, lin)
  {
    var lin := RunKeepsInv(s, schedule);
  }

  /** Two threads are never at once inside the critical sections of one location, nor of two
      locations that share a mutex. */
  lemma MutualExclusion(s: State, schedule: seq<Step>, t: ThreadId, u: ThreadId)
    requires Initial(s)
    requires var a := Run(s, schedule).active;
             t in a && u in a && InCriticalSection(a[t]) && InCriticalSection(a[u])
    ensures var s' := Run(s, schedule);
      var locT, locU := s'.active[t].op.loc, s'.active[u].op.loc;
      && locT in s'.table && locU in s'.table
      && (s'.table[locT] == s'.table[locU] ==> t == u)
  {
    var lin := RunKeepsInv(s, schedule);
    assert LocksHeld(Run(s, schedule));
  }

  // ----- What the operations do, one after the other

  ghost predicate OnlyAt(loc: Location, before: Memory, after: Memory) {
    && before.Keys == after.Keys
    && forall l :: l in before && l != loc ==> after[l] == before[l]
  }

  /** In a sequential order, each operation finds what the one before it left; it replies what it found, or, if
      it counts, what it leaves; and it changes nothing but its location. */
  lemma OrderInPlainTerms(memory: Memory, lin: seq<Entry>, p: nat)
    requires RepliesAgree(memory, lin) && p < |lin|
    ensures var loc := lin[p].op.loc;
      var before, after := Outcome(memory, lin, p), Outcome(memory, lin, p + 1);
      && loc in before && loc in after && OnlyAt(loc, before, after)
      && match lin[p].op
         case CompareExchange(_, value, comparand) =>
           && lin[p].reply == before[loc]
           && (before[loc] == comparand ==> after[loc] == value)
           && (before[loc] != comparand ==> after[loc] == before[loc])
         case Exchange(_, value) => lin[p].reply == before[loc] && after[loc] == value
         case Increment(_) =>
           && lin[p].reply == after[loc]
           && after[loc] == if before[loc] == 0x7FFF_FFFF then -0x8000_0000 else before[loc] + 1
         case Decrement(_) =>
           && lin[p].reply == after[loc]
           && after[loc] == if before[loc] == -0x8000_0000 then 0x7FFF_FFFF else before[loc] - 1
  {
    assert ReplyAgrees(memory, lin, p);
  }

  /** What a call was told in a run: some sequential order explains it, in which it has a place. */
  lemma RepliesInPlainTerms(s: State, schedule: seq<Step>, i: nat, j: nat) returns (lin: seq<Entry>, p: nat)
    requires Initial(s) && Answers(Run(s, schedule).history, i, j)
    ensures var h := Run(s, schedule).history;
      && Linearization(h, s.memory, Run(s, schedule).memory, lin)
      && p < |lin| && lin[p].call == i && lin[p].op == h[i].op && lin[p].reply == h[j].reply
      && var loc := h[i].op.loc;
         var before, after := Outcome(s.memory, lin, p), Outcome(s.memory, lin, p + 1);
         && loc in before && loc in after
         && h[j].reply == if h[i].op.CompareExchange? || h[i].op.Exchange? then before[loc] else after[loc]
  {
    lin := RunKeepsInv(s, schedule);
    var h := Run(s, schedule).history;
    var e := Entry(i, h[i].tid, h[i].op, h[j].reply);
    assert e in lin;
    p :| 0 <= p < |lin| && lin[p] == e;
    OrderInPlainTerms(s.memory, lin, p);
  }
}
