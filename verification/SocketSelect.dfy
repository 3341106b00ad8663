/** Platform.SocketMethods.Select: waiting for descriptors with a deadline.

    The clock, `select` itself and the signals that interrupt it are the environment.  It is given as
    the list of what the trial calls of `select` bring, of any length; the method says how far it gets. */
module SocketSelect {
  import opened MachineIntegers

  // ----- The environment

  /** What gettimeofday reports. */
  datatype TimeOfDay = TimeOfDay(sec: int, usec: int) {
    ghost predicate Valid() {
      0 <= usec < 1_000_000
    }
  }

  /** One call of `select`: its result, whether it failed with EINTR, the descriptors that are ready,
      and what the clock says afterwards. */
  datatype Trial = Trial(
    result: Int32,
    eintr: bool,
    read: set<int>,
    write: set<int>,
    except: set<int>,
    clock: TimeOfDay)

  predicate Interrupted(t: Trial) {
    t.result < 0 && t.eintr
  }

  const EPOCH_ADJUST: int := 62135596800

  /** Microseconds on the runtime's own time scale. */
  function Instant(t: TimeOfDay): (r: int) {
    (t.sec + EPOCH_ADJUST) * 1_000_000 + t.usec
  }

  ghost predicate ValidClock(start: TimeOfDay, trials: seq<Trial>) {
    start.Valid() && forall k :: 0 <= k < |trials| ==> trials[k].clock.Valid()
  }

  // ----- Waiting

  /** How the wait ends: with the result of a trial, with a timeout declared after an interrupted one,
      or not yet. */
  datatype Wait = Finished(trial: nat) | Expired(trial: nat) | Waiting

  datatype Deadline = Never | At(instant: int)

  /** The wait goes on while trials are interrupted before the deadline. */
  function WaitFrom(deadline: Deadline, trials: seq<Trial>, k: nat): (r: Wait)
    requires k <= |trials|
    decreases |trials| - k
  {
    if k == |trials| then Waiting
    else if !Interrupted(trials[k]) then Finished(k)
    else if deadline.At? && Instant(trials[k].clock) >= deadline.instant then Expired(k)
    else WaitFrom(deadline, trials, k + 1)
  }

  /** What is asked of `select` at one trial, and the time at which it is asked. */
  datatype Attempt = Attempt(now: int, sec: int, usec: int)

  function ClockBefore(start: TimeOfDay, trials: seq<Trial>, k: nat): (r: TimeOfDay)
    requires k <= |trials|
  {
    if k == 0 then start else trials[k - 1].clock
  }

  /** The time left is exact, and in the range of a timeval. */
  ghost predicate Exact(a: Attempt, deadline: int) {
    a.now + a.sec * 1_000_000 + a.usec == deadline && 0 <= a.sec && 0 <= a.usec < 1_000_000
  }

  /** One attempt per trial, each made at the time the clock showed before it. */
  ghost predicate AttemptsMade(attempts: seq<Attempt>, start: TimeOfDay, trials: seq<Trial>, deadline: int) {
    && |attempts| <= |trials|
    && forall k :: 0 <= k < |attempts| ==>
         attempts[k].now == Instant(ClockBefore(start, trials, k)) && Exact(attempts[k], deadline)
  }

  /** The same, in plain terms: microseconds on the runtime's scale, at the reading of the clock before each trial. */
  ghost predicate AttemptsAreExact(attempts: seq<Attempt>, timeout: int, start: TimeOfDay, trials: seq<Trial>,
                                   wait: Wait) {
    && |attempts| == (if wait.Waiting? then |trials| else wait.trial + 1) <= |trials|
    && forall k :: 0 <= k < |attempts| ==>
         var a, t := attempts[k], if k == 0 then start else trials[k - 1].clock;
         && a.now == (t.sec + 62135596800) * 1_000_000 + t.usec
         && a.now + a.sec * 1_000_000 + a.usec == (start.sec + 62135596800) * 1_000_000 + start.usec + timeout
         && 0 <= a.sec && 0 <= a.usec < 1_000_000
  }

  lemma AttemptsInPlainTerms(attempts: seq<Attempt>, timeout: int, start: TimeOfDay, trials: seq<Trial>, wait: Wait)
    ensures AttemptsMade(attempts, start, trials, Instant(start) + timeout) && |attempts| == TrialsMade(wait, |trials|)
       <==> AttemptsAreExact(attempts, timeout, start, trials, wait)
  {
  }

  function TrialsMade(wait: Wait, n: nat): (r: nat) {
    if wait.Waiting? then n else wait.trial + 1
  }

  /** The clock as seconds and nanoseconds. */
  method GetTime(t: TimeOfDay) returns (sec: int, nsec: int)
    requires t.Valid()
    ensures 0 <= nsec < 1_000_000_000 && nsec % 1000 == 0
    ensures sec * 1_000_000 + nsec / 1000 == Instant(t)
    ensures sec == t.sec + 62135596800 && nsec == t.usec * 1000
  {
    sec := t.sec + EPOCH_ADJUST;
    nsec := U32(t.usec * 1000);
  }

  method EndTime(sec: int, nsec: int, timeout: int) returns (endSec: int, endNsec: int)
    requires 0 <= nsec < 1_000_000_000 && nsec % 1000 == 0 && timeout >= 0
    ensures 0 <= endNsec < 1_000_000_000 && endNsec % 1000 == 0
    ensures endSec * 1_000_000 + endNsec / 1000 == sec * 1_000_000 + nsec / 1000 + timeout
  {
    endSec := sec + timeout / 1_000_000;
    var sum := nsec + timeout % 1_000_000 * 1000;
    assert U32(sum) == sum;
    endNsec := U32(sum);
    if endNsec >= 1_000_000_000 {
      endSec := endSec + 1;
      endNsec := U32(endNsec - 1_000_000_000);
    }
  }

  method TimeLeft(sec: int, nsec: int, endSec: int, endNsec: int) returns (tvSec: int, tvUsec: int)
    requires 0 <= nsec < 1_000_000_000 && nsec % 1000 == 0
    requires 0 <= endNsec < 1_000_000_000 && endNsec % 1000 == 0
    ensures sec * 1_000_000 + nsec / 1000 + tvSec * 1_000_000 + tvUsec == endSec * 1_000_000 + endNsec / 1000
    ensures 0 <= tvUsec < 1_000_000
  {
    tvSec := endSec - sec;
    if endNsec >= nsec {
      assert U32(endNsec - nsec) == endNsec - nsec;
      tvUsec := U32(endNsec - nsec) / 1000;
    } else {
      tvUsec := (endNsec + 1_000_000_000 - nsec) / 1000;
      tvSec := tvSec - 1;
    }
  }

  /** The retry loop with a timeout of `timeout` microseconds. */
  method WaitUntil(timeout: int, start: TimeOfDay, trials: seq<Trial>)
      returns (wait: Wait, ghost attempts: seq<Attempt>)
    requires timeout >= 0 && ValidClock(start, trials)
    ensures wait == WaitFrom(At(Instant(start) + timeout), trials, 0)
    ensures AttemptsMade(attempts, start, trials, Instant(start) + timeout)
    ensures |attempts| == TrialsMade(wait, |trials|)
  {
    ghost var deadline := Instant(start) + timeout;
    var sec, nsec := GetTime(start);
    var endSec, endNsec := EndTime(sec, nsec, timeout);
    var k := 0;
    attempts := [];
    while k < |trials|
      invariant 0 <= k <= |trials| && |attempts| == k
      invariant 0 <= nsec < 1_000_000_000 && nsec % 1000 == 0
      invariant sec * 1_000_000 + nsec / 1000 == Instant(ClockBefore(start, trials, k)) <= deadline
      invariant AttemptsMade(attempts, start, trials, deadline)
      invariant WaitFrom(At(deadline), trials, 0) == WaitFrom(At(deadline), trials, k)
    {
      var tvSec, tvUsec := TimeLeft(sec, nsec, endSec, endNsec);
      attempts := attempts + [Attempt(sec * 1_000_000 + nsec / 1000, tvSec, tvUsec)];
      if trials[k].result >= 0 || !trials[k].eintr {
        return Finished(k), attempts;
      }
      sec, nsec := GetTime(trials[k].clock);
      if sec > endSec || (sec == endSec && nsec >= endNsec) {
        return Expired(k), attempts;
      }
      k := k + 1;
    }
    return Waiting, attempts;
  }

  /** The retry loop without a timeout. */
  method WaitForever(trials: seq<Trial>) returns (wait: Wait)
    ensures wait == WaitFrom(Never, trials, 0)
  {
    var k := 0;
    while k < |trials|
      invariant k <= |trials| && WaitFrom(Never, trials, 0) == WaitFrom(Never, trials, k)
    {
      if trials[k].result >= 0 || !trials[k].eintr {
        return Finished(k);
      }
      k := k + 1;
    }
    return Waiting;
  }

  /** A timeout is declared at the first interrupted trial after which the clock is at or past the
      deadline, and never when some trial before it was not interrupted. */
  lemma {:induction false} ExpiresOnlyAtDeadline(deadline: Deadline, trials: seq<Trial>, k: nat, n: nat)
    requires k <= |trials|
    ensures WaitFrom(deadline, trials, k) == Expired(n) <==>
      && k <= n < |trials| && deadline.At? && Instant(trials[n].clock) >= deadline.instant
      && (forall j :: k <= j <= n ==> trials[j].result < 0 && trials[j].eintr)
      && (forall j :: k <= j < n ==> Instant(trials[j].clock) < deadline.instant)
    decreases |trials| - k
  {
    if k < |trials| {
      ExpiresOnlyAtDeadline(deadline, trials, k + 1, n);
    }
  }

  lemma {:induction false} FinishesAtFirstUninterrupted(deadline: Deadline, trials: seq<Trial>, k: nat, n: nat)
    requires k <= |trials|
    ensures WaitFrom(deadline, trials, k) == Finished(n) <==>
      && k <= n < |trials| && (trials[n].result >= 0 || !trials[n].eintr)
      && (forall j :: k <= j < n ==>
            && trials[j].result < 0 && trials[j].eintr
            && (deadline.At? ==> Instant(trials[j].clock) < deadline.instant))
    decreases |trials| - k
  {
    if k < |trials| {
      FinishesAtFirstUninterrupted(deadline, trials, k + 1, n);
    }
  }

  lemma {:induction false} WaitsThroughInterruptions(deadline: Deadline, trials: seq<Trial>, k: nat)
    requires k <= |trials|
    ensures WaitFrom(deadline, trials, k) == Waiting <==>
      forall j :: k <= j < |trials| ==>
        && trials[j].result < 0 && trials[j].eintr
        && (deadline.At? ==> Instant(trials[j].clock) < deadline.instant)
    decreases |trials| - k
  {
    if k < |trials| {
      WaitsThroughInterruptions(deadline, trials, k + 1);
    }
  }

  /** How the wait ends, in plain terms; `timeout` is negative if there is none. */
  ghost predicate WaitEnds(wait: Wait, timeout: int, start: TimeOfDay, trials: seq<Trial>) {
    match wait
    case Finished(n) =>
      && n < |trials| && (trials[n].result >= 0 || !trials[n].eintr)
      && (forall j :: 0 <= j < n ==> InterruptedInTime(trials[j], timeout, start))
    case Expired(n) =>
      && n < |trials| && 0 <= timeout && trials[n].result < 0 && trials[n].eintr
      && !InterruptedInTime(trials[n], timeout, start)
      && (forall j :: 0 <= j < n ==> InterruptedInTime(trials[j], timeout, start))
    case Waiting =>
      forall j :: 0 <= j < |trials| ==> InterruptedInTime(trials[j], timeout, start)
  }

  ghost predicate InterruptedInTime(t: Trial, timeout: int, start: TimeOfDay) {
    && t.result < 0 && t.eintr
    && (timeout >= 0 ==>
          t.clock.sec * 1_000_000 + t.clock.usec < start.sec * 1_000_000 + start.usec + timeout)
  }

  lemma WaitInPlainTerms(wait: Wait, timeout: int, start: TimeOfDay, trials: seq<Trial>)
    requires wait == WaitFrom(DeadlineOf(timeout, start), trials, 0)
    ensures WaitEnds(wait, timeout, start, trials)
  {
    var deadline := DeadlineOf(timeout, start);
    if wait.Finished? {
      FinishesAtFirstUninterrupted(deadline, trials, 0, wait.trial);
    } else if wait.Expired? {
      ExpiresOnlyAtDeadline(deadline, trials, 0, wait.trial);
    } else {
      WaitsThroughInterruptions(deadline, trials, 0);
    }
  }

  // ----- Descriptor sets

  /** A socket handle, a native integer; as a descriptor it is cut to 32 bits. */
  type Handle = x: int | -0x8000_0000_0000_0000 <= x < 0x8000_0000_0000_0000

  const INVALID_HANDLE: Handle := -1
  const FD_SETSIZE: int := 1024

  function Descriptor(h: Handle): (r: Int32)
    ensures r == Wrap32(h)
  {
    Wrap32(h)
  }

  /** What callers must grant: a descriptor fits into a descriptor set, or stands for none. */
  ghost predicate Usable(handles: seq<Handle>) {
    forall k :: 0 <= k < |handles| ==> Descriptor(handles[k]) == -1 || 0 <= Descriptor(handles[k]) < FD_SETSIZE
  }

  function Handles(a: array?<Handle>): (r: seq<Handle>)
    reads a
  {
    if a == null then [] else a[..]
  }

  ghost function Descriptors(handles: seq<Handle>): (r: set<int>) {
    set k | 0 <= k < |handles| && Descriptor(handles[k]) != -1 :: Descriptor(handles[k]) as int
  }

  lemma DescriptorsInPlainTerms(handles: seq<Handle>, fd: int)
    ensures fd in Descriptors(handles) <==> fd != -1 && exists k :: 0 <= k < |handles| && Wrap32(handles[k]) == fd
  {
    if k :| fd != -1 && 0 <= k < |handles| && Wrap32(handles[k]) == fd {
      assert Descriptor(handles[k]) == fd;
    }
  }

  /** `highest` is the greatest of `fds`, or -1 if there are none. */
  ghost predicate IsHighest(highest: int, fds: set<int>) {
    (highest == -1 || highest in fds) && forall fd :: fd in fds ==> fd <= highest
  }

  /** The descriptors of an array as a set, and the highest so far. */
  method BuildSet(a: array?<Handle>, before: int, ghost known: set<int>) returns (fds: set<int>, highest: int)
    requires Usable(Handles(a)) && IsHighest(before, known)
    ensures fds == Descriptors(Handles(a)) && IsHighest(highest, known + fds)
  {
    fds, highest := {}, before;
    if a == null {
      return;
    }
    for index := 0 to a.Length
      invariant fds == Descriptors(a[..index]) && IsHighest(highest, known + fds)
    {
      var fd := Descriptor(a[index]);
      assert a[..index + 1] == a[..index] + [a[index]];
      OneMoreDescriptor(a[..index], a[index]);
      if fd != -1 {
        fds := fds + {fd};
        if fd > highest {
          highest := fd;
        }
      }
    }
    assert a[..a.Length] == a[..];
  }

  lemma OneMoreDescriptor(handles: seq<Handle>, h: Handle)
    ensures Descriptors(handles + [h]) ==
      Descriptors(handles) + if Descriptor(h) == -1 then {} else {Descriptor(h) as int}
  {
    var more := handles + [h];
    assert forall k :: 0 <= k < |handles| ==> more[k] == handles[k];
    assert more[|handles|] == h;
    forall fd | fd in Descriptors(handles)
      ensures fd in Descriptors(more)
    {
      var k :| 0 <= k < |handles| && Descriptor(handles[k]) != -1 && Descriptor(handles[k]) == fd;
      assert Descriptor(more[k]) == fd;
    }
  }

  /** What becomes of a handle: it stays if its descriptor is ready, or if it had none. */
  function Updated(h: Handle, ready: set<int>): (r: Handle)
    ensures r == if Wrap32(h) == -1 || Wrap32(h) in ready then h else -1
  {
    if Descriptor(h) != -1 && Descriptor(h) !in ready then INVALID_HANDLE else h
  }

  method UpdateHandles(a: array?<Handle>, ready: set<int>)
    modifies if a == null then {} else {a}
    ensures a != null ==> forall k :: 0 <= k < a.Length ==> a[k] == Updated(old(a[k]), ready)
  {
    if a == null {
      return;
    }
    for index := 0 to a.Length
      invariant forall k :: 0 <= k < index ==> a[k] == Updated(old(a[k]), ready)
      invariant forall k :: index <= k < a.Length ==> a[k] == old(a[k])
    {
      var fd := Descriptor(a[index]);
      if fd != -1 && fd !in ready {
        a[index] := INVALID_HANDLE;
      }
    }
  }

  /** The same array may be given in several roles; a handle stays if it may stay in all of them. */
  function UpdatedInRoles(h: Handle, asRead: bool, asWrite: bool, asExcept: bool, t: Trial): (r: Handle)
    ensures r ==
      if || Wrap32(h) == -1
         || ((asRead ==> Wrap32(h) in t.read) && (asWrite ==> Wrap32(h) in t.write)
             && (asExcept ==> Wrap32(h) in t.except))
      then h else -1
  {
    if (asRead ==> Updated(h, t.read) == h) && (asWrite ==> Updated(h, t.write) == h)
       && (asExcept ==> Updated(h, t.except) == h)
    then h else INVALID_HANDLE
  }

  /** Whatever else is ready does not matter to an array. */
  lemma OnlyOwnDescriptors(handles: seq<Handle>, k: nat, ready: set<int>)
    requires k < |handles|
    ensures Updated(handles[k], ready * Descriptors(handles)) == Updated(handles[k], ready)
  {
    if Descriptor(handles[k]) != -1 {
      assert (Descriptor(handles[k]) as int) in Descriptors(handles);
    }
  }

  /** An array after a positive result. */
  twostate predicate Rewritten(a: array<Handle>, asRead: bool, asWrite: bool, asExcept: bool, t: Trial)
    reads a
  {
    forall k :: 0 <= k < a.Length ==> a[k] == UpdatedInRoles(old(a[k]), asRead, asWrite, asExcept, t)
  }

  method UpdateAll(read: array?<Handle>, write: array?<Handle>, error: array?<Handle>, t: Trial,
                   readSet: set<int>, writeSet: set<int>, exceptSet: set<int>)
    requires readSet == Descriptors(Handles(read)) && writeSet == Descriptors(Handles(write))
    requires exceptSet == Descriptors(Handles(error))
    modifies if read == null then {} else {read},
             if write == null then {} else {write},
             if error == null then {} else {error}
    ensures read != null ==> Rewritten(read, true, read == write, read == error, t)
    ensures write != null ==> Rewritten(write, write == read, true, write == error, t)
    ensures error != null ==> Rewritten(error, error == read, error == write, true, t)
  {
    forall k: nat | read != null && k < read.Length
      ensures Updated(read[k], t.read * readSet) == Updated(read[k], t.read)
    {
      OnlyOwnDescriptors(read[..], k, t.read);
    }
    forall k: nat | write != null && k < write.Length
      ensures Updated(write[k], t.write * writeSet) == Updated(write[k], t.write)
    {
      OnlyOwnDescriptors(write[..], k, t.write);
    }
    forall k: nat | error != null && k < error.Length
      ensures Updated(error[k], t.except * exceptSet) == Updated(error[k], t.except)
    {
      OnlyOwnDescriptors(error[..], k, t.except);
    }
    UpdateHandles(read, t.read * readSet);
    UpdateHandles(write, t.write * writeSet);
    UpdateHandles(error, t.except * exceptSet);
  }

  /** The three sets and what is passed as the first argument of every trial. */
  method BuildSets(read: array?<Handle>, write: array?<Handle>, error: array?<Handle>)
      returns (readSet: set<int>, writeSet: set<int>, exceptSet: set<int>, nfds: int)
    requires Usable(Handles(read)) && Usable(Handles(write)) && Usable(Handles(error))
    ensures readSet == Descriptors(Handles(read)) && writeSet == Descriptors(Handles(write))
    ensures exceptSet == Descriptors(Handles(error)) && IsHighest(nfds - 1, readSet + writeSet + exceptSet)
  {
    var highest := -1;
    readSet, highest := BuildSet(read, highest, {});
    assert {} + readSet == readSet;
    writeSet, highest := BuildSet(write, highest, readSet);
    exceptSet, highest := BuildSet(error, highest, readSet + writeSet);
    nfds := highest + 1;
  }

  function DeadlineOf(timeout: int, start: TimeOfDay): (r: Deadline) {
    if timeout >= 0 then At(Instant(start) + timeout) else Never
  }

  /** What is asked of `select` at the trials of the whole wait: the exact time left if there is a deadline. */
  ghost predicate AttemptsFit(attempts: seq<Attempt>, timeout: int, start: TimeOfDay, trials: seq<Trial>, wait: Wait) {
    timeout >= 0 ==>
      AttemptsMade(attempts, start, trials, Instant(start) + timeout) && |attempts| == TrialsMade(wait, |trials|)
  }

  method Await(timeout: int, start: TimeOfDay, trials: seq<Trial>) returns (wait: Wait, ghost attempts: seq<Attempt>)
    requires ValidClock(start, trials)
    ensures AttemptsFit(attempts, timeout, start, trials, wait)
    ensures wait == WaitFrom(DeadlineOf(timeout, start), trials, 0)
    ensures WaitEnds(wait, timeout, start, trials)
    ensures timeout >= 0 ==> AttemptsAreExact(attempts, timeout, start, trials, wait)
  {
    attempts := [];
    if timeout >= 0 {
      wait, attempts := WaitUntil(timeout, start, trials);
      FinishesAtFirstUninterrupted(DeadlineOf(timeout, start), trials, 0, if wait.Finished? then wait.trial else 0);
      AttemptsInPlainTerms(attempts, timeout, start, trials, wait);
    } else {
      wait := WaitForever(trials);
    }
    WaitInPlainTerms(wait, timeout, start, trials);
  }

  /** Select.  There is a result once the wait is over. */
  method Select(read: array?<Handle>, write: array?<Handle>, error: array?<Handle>, timeout: int,
                start: TimeOfDay, trials: seq<Trial>)
      returns (wait: Wait, result: int, nfds: int, ghost attempts: seq<Attempt>)
    requires ValidClock(start, trials)
    requires Usable(Handles(read)) && Usable(Handles(write)) && Usable(Handles(error))
    modifies if read == null then {} else {read},
             if write == null then {} else {write},
             if error == null then {} else {error}
    ensures wait == WaitFrom(DeadlineOf(timeout, start), trials, 0)
    ensures wait.Finished? ==> wait.trial < |trials| && result == trials[wait.trial].result
    ensures AttemptsFit(attempts, timeout, start, trials, wait)
    ensures wait.Finished? ==>
      && (trials[wait.trial].result >= 0 || !trials[wait.trial].eintr)
      && forall j :: 0 <= j < wait.trial ==> trials[j].result < 0 && trials[j].eintr
    ensures wait.Expired? ==>
      && wait.trial < |trials| && timeout >= 0
      && trials[wait.trial].clock.sec * 1_000_000 + trials[wait.trial].clock.usec
         >= start.sec * 1_000_000 + start.usec + timeout
      && forall j :: 0 <= j <= wait.trial ==> trials[j].result < 0 && trials[j].eintr
    ensures wait.Waiting? ==> forall j :: 0 <= j < |trials| ==> trials[j].result < 0 && trials[j].eintr
    ensures timeout >= 0 ==>
      && |attempts| == (if wait.Waiting? then |trials| else wait.trial + 1)
      && forall k :: 0 <= k < |attempts| ==>
           var t := if k == 0 then start else trials[k - 1].clock;
           && attempts[k].now == (t.sec + 62135596800) * 1_000_000 + t.usec
           && attempts[k].now + attempts[k].sec * 1_000_000 + attempts[k].usec ==
                (start.sec + 62135596800) * 1_000_000 + start.usec + timeout
           && 0 <= attempts[k].sec && 0 <= attempts[k].usec < 1_000_000
    ensures !wait.Finished? ==> result == 0
    ensures IsHighest(nfds - 1,
      old(Descriptors(Handles(read)) + Descriptors(Handles(write)) + Descriptors(Handles(error))))
    ensures forall fd ::
      fd in old(Descriptors(Handles(read)) + Descriptors(Handles(write)) + Descriptors(Handles(error))) ==> fd < nfds
    ensures nfds == 0
      || nfds - 1 in old(Descriptors(Handles(read)) + Descriptors(Handles(write)) + Descriptors(Handles(error)))
    ensures result <= 0 ==>
      && Handles(read) == old(Handles(read)) && Handles(write) == old(Handles(write))
      && Handles(error) == old(Handles(error))
    ensures result > 0 && read != null ==> forall k :: 0 <= k < read.Length ==>
      read[k] == UpdatedInRoles(old(read[k]), true, read == write, read == error, trials[wait.trial])
    ensures result > 0 && write != null ==> forall k :: 0 <= k < write.Length ==>
      write[k] == UpdatedInRoles(old(write[k]), write == read, true, write == error, trials[wait.trial])
    ensures result > 0 && error != null ==> forall k :: 0 <= k < error.Length ==>
      error[k] == UpdatedInRoles(old(error[k]), error == read, error == write, true, trials[wait.trial])
  {
    var readSet, writeSet, exceptSet;
    readSet, writeSet, exceptSet, nfds := BuildSets(read, write, error);
    wait, attempts := Await(timeout, start, trials);
    result := 0;
    if wait.Finished? {
      result := trials[wait.trial].result;
      if result > 0 {
        UpdateAll(read, write, error, trials[wait.trial], readSet, writeSet, exceptSet);
      }
    }
  }

  // ----- What a positive result says

  /** The handle of a ready descriptor stays, any other place holds the invalid handle. */
  ghost predicate KeepsExactlyReady(before: seq<Handle>, after: seq<Handle>, ready: set<int>) {
    |after| == |before| && forall k :: 0 <= k < |before| ==>
      after[k] == if Descriptor(before[k]) in ready then before[k] else INVALID_HANDLE
  }

  function UpdatedAll(handles: seq<Handle>, ready: set<int>): (r: seq<Handle>)
    ensures |r| == |handles| && forall k :: 0 <= k < |handles| ==> r[k] == Updated(handles[k], ready)
  {
    seq(|handles|, k requires 0 <= k < |handles| => Updated(handles[k], ready))
  }

  /** After the update exactly the ready handles are left, at their places, if and only if no handle other
      than the invalid one stands for no descriptor (as 0xFFFFFFFF, say, does after the cut to 32 bits). */
  lemma UpdateKeepsExactlyReady(handles: seq<Handle>, ready: set<int>)
    requires -1 !in ready
    ensures KeepsExactlyReady(handles, UpdatedAll(handles, ready), ready)
       <==> forall k :: 0 <= k < |handles| && Descriptor(handles[k]) == -1 ==> handles[k] == INVALID_HANDLE
  {
    var after := UpdatedAll(handles, ready);
    if KeepsExactlyReady(handles, after, ready) {
      forall k | 0 <= k < |handles| && Descriptor(handles[k]) == -1
        ensures handles[k] == INVALID_HANDLE
      {
        assert after[k] == Updated(handles[k], ready);
      }
    }
  }

  /** Given in one role only, an array is updated for that role. */
  lemma OneRole(h: Handle, t: Trial)
    ensures UpdatedInRoles(h, true, false, false, t) == Updated(h, t.read)
    ensures UpdatedInRoles(h, false, true, false, t) == Updated(h, t.write)
    ensures UpdatedInRoles(h, false, false, true, t) == Updated(h, t.except)
  {
  }

  lemma WideHandleIsOverlooked()
    ensures Updated(0xFFFF_FFFF, {}) == 0xFFFF_FFFF != INVALID_HANDLE
  {
  }
}
