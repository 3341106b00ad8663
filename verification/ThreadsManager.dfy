/** The Interlocked operations as the runtime executes them when no other thread interferes, and
    their agreement with the protocol in which other threads do. */
module ThreadsManager {
  import opened MachineIntegers
  import opened Interlocked

  class Manager {
    var memory: Memory
    var locationLocks: map<Location, Mutex>
    var locked: set<Mutex>

    /** The location is mapped and its mutex, if it has one already, is free. */
    predicate Free(loc: Location)
      reads this
    {
      loc in memory && (loc in locationLocks ==> locationLocks[loc] !in locked)
    }

    /** Only the mutex of `loc` may have been added to the table, and no mutex stays locked. */
    twostate predicate LocksRestored(loc: Location)
      reads this
    {
      && locked == old(locked)
      && loc in locationLocks
      && locationLocks == old(locationLocks)[loc := locationLocks[loc]]
      && (loc in old(locationLocks) ==> locationLocks[loc] == old(locationLocks)[loc])
    }

    method GetLock(loc: Location, ifNew: Mutex) returns (lock: Mutex)
      modifies this`locationLocks
      ensures loc in old(locationLocks) ==> lock == old(locationLocks)[loc] && locationLocks == old(locationLocks)
      ensures loc !in old(locationLocks) ==> lock == ifNew && locationLocks == old(locationLocks)[loc := ifNew]
    {
      if loc !in locationLocks {
        locationLocks := locationLocks[loc := ifNew];
      }
      lock := locationLocks[loc];
    }

    method LockLocation(loc: Location, ifNew: Mutex)
      requires Free(loc) && ifNew !in locked
      modifies this`locationLocks, this`locked
      ensures loc in locationLocks && locked == old(locked) + {locationLocks[loc]}
      ensures locationLocks[loc] !in old(locked)
      ensures locationLocks == old(locationLocks)[loc := locationLocks[loc]]
      ensures loc in old(locationLocks) ==> locationLocks[loc] == old(locationLocks)[loc]
    {
      var lock := GetLock(loc, ifNew);
      locked := locked + {lock};
    }

    method UnlockLocation(loc: Location)
      requires loc in locationLocks
      modifies this`locked
      ensures locked == old(locked) - {locationLocks[loc]}
    {
      locked := locked - {locationLocks[loc]};
    }

    method CompareExchange(loc: Location, value: Int32, comparand: Int32, ifNew: Mutex) returns (oldValue: Int32)
      requires Free(loc) && ifNew !in locked
      modifies this
      ensures memory == old(memory)[loc := NewValue(Op.CompareExchange(loc, value, comparand), old(memory)[loc])]
      ensures oldValue == Reply(Op.CompareExchange(loc, value, comparand), old(memory)[loc])
      ensures oldValue == old(memory)[loc]
      ensures memory == if oldValue == comparand then old(memory)[loc := value] else old(memory)
      ensures LocksRestored(loc)
      ensures locked == old(locked) && loc in locationLocks
      ensures forall l :: l in old(locationLocks) ==> l in locationLocks && locationLocks[l] == old(locationLocks)[l]
    {
      LockLocation(loc, ifNew);
      oldValue := memory[loc];
      if oldValue == comparand {
        memory := memory[loc := value];
      }
      UnlockLocation(loc);
    }

    method Exchange(loc: Location, value: Int32, ifNew: Mutex) returns (oldValue: Int32)
      requires Free(loc) && ifNew !in locked
      modifies this
      ensures memory == old(memory)[loc := NewValue(Op.Exchange(loc, value), old(memory)[loc])]
      ensures oldValue == Reply(Op.Exchange(loc, value), old(memory)[loc])
      ensures oldValue == old(memory)[loc] && memory == old(memory)[loc := value]
      ensures LocksRestored(loc)
      ensures locked == old(locked) && loc in locationLocks
      ensures forall l :: l in old(locationLocks) ==> l in locationLocks && locationLocks[l] == old(locationLocks)[l]
    {
      LockLocation(loc, ifNew);
      oldValue := memory[loc];
      memory := memory[loc := value];
      UnlockLocation(loc);
    }

    method Increment(loc: Location, ifNew: Mutex) returns (newValue: Int32)
      requires Free(loc) && ifNew !in locked
      modifies this
      ensures memory == old(memory)[loc := NewValue(Op.Increment(loc), old(memory)[loc])]
      ensures newValue == Reply(Op.Increment(loc), old(memory)[loc])
      ensures newValue == if old(memory)[loc] == 0x7FFF_FFFF then -0x8000_0000 else old(memory)[loc] + 1
      ensures memory == old(memory)[loc := newValue]
      ensures LocksRestored(loc)
      ensures locked == old(locked) && loc in locationLocks
      ensures forall l :: l in old(locationLocks) ==> l in locationLocks && locationLocks[l] == old(locationLocks)[l]
    {
      LockLocation(loc, ifNew);
      var seen: int := memory[loc];
      memory := memory[loc := Wrap32(seen + 1)];
      newValue := memory[loc];
      UnlockLocation(loc);
    }

    method Decrement(loc: Location, ifNew: Mutex) returns (newValue: Int32)
      requires Free(loc) && ifNew !in locked
      modifies this
      ensures memory == old(memory)[loc := NewValue(Op.Decrement(loc), old(memory)[loc])]
      ensures newValue == Reply(Op.Decrement(loc), old(memory)[loc])
      ensures newValue == if old(memory)[loc] == -0x8000_0000 then 0x7FFF_FFFF else old(memory)[loc] - 1
      ensures memory == old(memory)[loc := newValue]
      ensures LocksRestored(loc)
      ensures locked == old(locked) && loc in locationLocks
      ensures forall l :: l in old(locationLocks) ==> l in locationLocks && locationLocks[l] == old(locationLocks)[l]
    {
      LockLocation(loc, ifNew);
      var seen: int := memory[loc];
      memory := memory[loc := Wrap32(seen - 1)];
      newValue := memory[loc];
      UnlockLocation(loc);
    }
  }

  // ----- The same operation as a run of the protocol

  lemma RunOneMore(s: State, schedule: seq<Step>, step: Step)
    requires Enabled(Run(s, schedule), step)
    ensures Run(s, schedule + [step]) == Apply(Run(s, schedule), step)
  {
    assert (schedule + [step])[..|schedule|] == schedule;
  }

  function LockAndLoad(t: ThreadId, op: Op, ifNew: Mutex): (r: seq<Step>) {
    [] + [Enter(t, op)] + [FindMutex(t, ifNew)] + [Acquire(t)] + [Load(t)]
  }

  function Alone(t: ThreadId, op: Op, ifNew: Mutex): (r: seq<Step>) {
    LockAndLoad(t, op, ifNew) + [Store(t)] + [Release(t)] + [Leave(t)]
  }

  /** `m` is the mutex that the location of `op` has or, having none, gets. */
  ghost predicate Gets(s: State, op: Op, ifNew: Mutex, m: Mutex) {
    m == if op.loc in s.table then s.table[op.loc] else ifNew
  }

  lemma AfterAcquire(s: State, t: ThreadId, op: Op, ifNew: Mutex, m: Mutex)
    requires t !in s.active && op.loc in s.memory && Gets(s, op, ifNew, m) && m !in s.owner
    ensures Run(s, [] + [Enter(t, op)] + [FindMutex(t, ifNew)] + [Acquire(t)]) ==
      State(s.memory, s.table[op.loc := m], s.owner[m := t],
            s.active[t := Activity(|s.history|, op, Locked)], s.history + [Call(t, op)])
  {
    RunOneMore(s, [], Enter(t, op));
    var s1 := Apply(s, Enter(t, op));
    RunOneMore(s, [] + [Enter(t, op)], FindMutex(t, ifNew));
    var s2 := Apply(s1, FindMutex(t, ifNew));
    assert s2.table == s.table[op.loc := m];
    assert s2.active == s.active[t := Activity(|s.history|, op, FoundMutex(m))];
    RunOneMore(s, [] + [Enter(t, op)] + [FindMutex(t, ifNew)], Acquire(t));
  }

  lemma AfterLoad(s: State, t: ThreadId, op: Op, ifNew: Mutex, m: Mutex)
    requires t !in s.active && op.loc in s.memory && Gets(s, op, ifNew, m) && m !in s.owner
    ensures Run(s, LockAndLoad(t, op, ifNew)) ==
      State(s.memory, s.table[op.loc := m], s.owner[m := t],
            s.active[t := Activity(|s.history|, op, Loaded(s.memory[op.loc]))], s.history + [Call(t, op)])
  {
    AfterAcquire(s, t, op, ifNew, m);
    RunOneMore(s, [] + [Enter(t, op)] + [FindMutex(t, ifNew)] + [Acquire(t)], Load(t));
  }

  /** A thread that runs an operation from end to end, in any state where the mutex is free, changes memory
      and replies as the operation's own method does, and leaves the locks and the other threads alone. */
  lemma AloneIsTheMethod(s: State, t: ThreadId, op: Op, ifNew: Mutex, m: Mutex)
    requires t !in s.active && op.loc in s.memory && Gets(s, op, ifNew, m) && m !in s.owner
    ensures Run(s, Alone(t, op, ifNew)) ==
      State(s.memory[op.loc := NewValue(op, s.memory[op.loc])], s.table[op.loc := m], s.owner, s.active,
            s.history + [Call(t, op)] + [Return(t, Reply(op, s.memory[op.loc]))])
  {
    AfterLoad(s, t, op, ifNew, m);
    var first := LockAndLoad(t, op, ifNew);
    var s4 := Run(s, first);
    RunOneMore(s, first, Store(t));
    var s5 := Apply(s4, Store(t));
    assert s5.memory == s.memory[op.loc := NewValue(op, s.memory[op.loc])];
    RunOneMore(s, first + [Store(t)], Release(t));
    var s6 := Apply(s5, Release(t));
    assert s6.owner == s.owner;
    RunOneMore(s, first + [Store(t)] + [Release(t)], Leave(t));
    assert Apply(s6, Leave(t)).active == s.active;
  }
}
