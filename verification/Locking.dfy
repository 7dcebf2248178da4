// Scheduled triggers, manual backups and restores around one lock file, as
// interleaved steps of any number of threads in any number of processes.
module Locking {
  import opened Wrappers

  type Pid = nat

  datatype Thread = Thread(pid: Pid, tid: nat)

  // An open file description of the lock file, labelled with the thread that opened it.
  datatype Handle = Handle(n: nat, opener: Thread)

  // How far the holder has come: the snapshot time it read, and the instant it
  // read the rows. A restore stays at Begun.
  datatype Progress = Begun | Snapped(snapshot: int) | Captured(snapshot: int, readAt: int)

  datatype Pc = Idle | HoldsMutex | Working(handle: Handle, progress: Progress)

  datatype Capture = Capture(snapshot: int, readAt: int)

  // `daemons` are the serve processes, whose triggers share one mutex and one
  // FileLock; every other process runs one operation with a FileLock of its own.
  // `file` is the f field of each process's FileLock, `flock` the holder of the
  // exclusive lock, `log` the captures in the order they were read.
  datatype State = State(daemons: set<Pid>, clock: int, flock: Option<Handle>, handles: nat,
                         mutex: map<Pid, Thread>, file: map<Pid, Handle>, pc: map<Thread, Pc>, log: seq<Capture>)

  datatype Step =
    | Tick(elapsed: nat)
    | Trigger(t: Thread)
    | TryAcquire(t: Thread)
    | ReadServerTime(t: Thread)
    | ReadRows(t: Thread)
    | Release(t: Thread)
    | Crash(pid: Pid)

  function PcOf(s: State, t: Thread): Pc {
    if t in s.pc then s.pc[t] else Idle
  }

  // A daemon thread reaches TryAcquire through the mutex, any other directly.
  predicate MayAcquire(s: State, t: Thread) {
    if t.pid in s.daemons then PcOf(s, t).HoldsMutex? else PcOf(s, t).Idle?
  }

  // Opening never fails here; a lock held elsewhere closes the new handle again.
  function AcquireStep(s: State, t: Thread): State {
    var h := Handle(s.handles, t);
    var s := s.(handles := s.handles + 1);
    if s.flock.Some? then s.(mutex := s.mutex - Leaving(s, t), pc := s.pc[t := Idle])
    else s.(flock := Some(h), file := s.file[t.pid := h], pc := s.pc[t := Working(h, Begun)])
  }

  // The deferred Unlock of a daemon thread that leaves runJob.
  function Leaving(s: State, t: Thread): set<Pid> {
    if t.pid in s.daemons then {t.pid} else {}
  }

  // Release unlocks and closes whatever handle the process's FileLock holds.
  function ReleaseStep(s: State, t: Thread): State {
    var held := Lookup(s.file, t.pid);
    s.(flock := if held.Some? && s.flock == held then None else s.flock,
       file := s.file - {t.pid}, mutex := s.mutex - Leaving(s, t), pc := s.pc[t := Idle])
  }

  // The kernel drops the locks of a dead process with its handles.
  function CrashStep(s: State, pid: Pid): State {
    s.(flock := if s.flock.Some? && s.flock.value.opener.pid == pid then None else s.flock,
       file := s.file - {pid}, mutex := s.mutex - {pid},
       pc := map t | t in s.pc && t.pid != pid :: s.pc[t])
  }

  function Next(s: State, step: Step): State {
    match step
    case Tick(elapsed) => s.(clock := s.clock + elapsed)
    case Trigger(t) =>
      if t.pid in s.daemons && PcOf(s, t).Idle? && t.pid !in s.mutex
      then s.(mutex := s.mutex[t.pid := t], pc := s.pc[t := HoldsMutex]) else s
    case TryAcquire(t) => if MayAcquire(s, t) then AcquireStep(s, t) else s
    case ReadServerTime(t) =>
      (match PcOf(s, t)
       case Working(h, Begun) => s.(pc := s.pc[t := Working(h, Snapped(s.clock))])
       case _ => s)
    case ReadRows(t) =>
      (match PcOf(s, t)
       case Working(h, Snapped(at)) =>
         s.(pc := s.pc[t := Working(h, Captured(at, s.clock))], log := s.log + [Capture(at, s.clock)])
       case _ => s)
    case Release(t) => if PcOf(s, t).Working? then ReleaseStep(s, t) else s
    case Crash(pid) => CrashStep(s, pid)
  }

  function Initial(daemons: set<Pid>, clock: int): State {
    State(daemons, clock, None, 0, map[], map[], map[], [])
  }

  function RunSteps(s: State, steps: seq<Step>): State {
    if steps == [] then s else Next(RunSteps(s, steps[..|steps| - 1]), steps[|steps| - 1])
  }

  // A working thread holds the lock through the handle it opened, its process's
  // FileLock refers to that handle, and a daemon's busy thread owns the mutex.
  ghost predicate LockInv(s: State) {
    && (forall t :: t in s.pc && s.pc[t].Working? ==>
         s.pc[t].handle.opener == t && s.flock == Some(s.pc[t].handle) && Lookup(s.file, t.pid) == s.flock)
    && (forall t :: t in s.pc && !s.pc[t].Idle? && t.pid in s.daemons ==> Lookup(s.mutex, t.pid) == Some(t))
    && (s.flock.Some? ==> PcOf(s, s.flock.value.opener).Working?)
    && (forall p :: p in s.file ==> s.flock == Some(s.file[p]) && s.file[p].opener.pid == p)
    && (forall t :: t in s.pc && s.pc[t].HoldsMutex? ==> t.pid in s.daemons)
    && (forall p :: p in s.mutex ==> s.mutex[p].pid == p && p in s.daemons && !PcOf(s, s.mutex[p]).Idle?)
  }

  // Every capture reads after its own snapshot and before the next one's; the
  // holder's snapshot is after every logged read; nothing is in the future.
  ghost predicate LogInv(s: State) {
    && (forall i :: 0 <= i < |s.log| ==> s.log[i].snapshot <= s.log[i].readAt <= s.clock)
    && (forall i, j :: 0 <= i < j < |s.log| ==> s.log[i].readAt <= s.log[j].snapshot)
    && (forall t :: t in s.pc && s.pc[t].Working? && s.pc[t].progress.Snapped? ==>
         s.pc[t].progress.snapshot <= s.clock
         && forall i :: 0 <= i < |s.log| ==> s.log[i].readAt <= s.pc[t].progress.snapshot)
  }

  lemma AcquireKeepsLockInv(s: State, t: Thread)
    requires LockInv(s) && MayAcquire(s, t)
    ensures LockInv(AcquireStep(s, t))
  {
  }

  lemma ReleaseKeepsLockInv(s: State, t: Thread)
    requires LockInv(s) && PcOf(s, t).Working?
    ensures LockInv(ReleaseStep(s, t))
  {
  }

  lemma CrashKeepsLockInv(s: State, pid: Pid)
    requires LockInv(s)
    ensures LockInv(CrashStep(s, pid))
  {
  }

  lemma TriggerKeepsLockInv(s: State, t: Thread)
    requires LockInv(s)
    ensures LockInv(Next(s, Trigger(t)))
  {
  }

  lemma ReadKeepsLockInv(s: State, t: Thread)
    requires LockInv(s)
    ensures LockInv(Next(s, ReadServerTime(t))) && LockInv(Next(s, ReadRows(t)))
  {
  }

  lemma StepKeepsLockInv(s: State, step: Step)
    requires LockInv(s)
    ensures LockInv(Next(s, step))
  {
    match step
    case Trigger(t) => TriggerKeepsLockInv(s, t);
    case ReadServerTime(t) => ReadKeepsLockInv(s, t);
    case ReadRows(t) => ReadKeepsLockInv(s, t);
    case TryAcquire(t) => if MayAcquire(s, t) { AcquireKeepsLockInv(s, t); }
    case Release(t) => if PcOf(s, t).Working? { ReleaseKeepsLockInv(s, t); }
    case Crash(pid) => CrashKeepsLockInv(s, pid);
    case _ =>
  }

  lemma StepKeepsLogInv(s: State, step: Step)
    requires LockInv(s) && LogInv(s)
    ensures LogInv(Next(s, step))
  {
  }

  lemma {:induction false} RunKeepsInv(daemons: set<Pid>, clock: int, steps: seq<Step>)
    ensures var s := RunSteps(Initial(daemons, clock), steps); LockInv(s) && LogInv(s)
  {
    if steps != [] {
      var s := RunSteps(Initial(daemons, clock), steps[..|steps| - 1]);
      RunKeepsInv(daemons, clock, steps[..|steps| - 1]);
      StepKeepsLockInv(s, steps[|steps| - 1]);
      StepKeepsLogInv(s, steps[|steps| - 1]);
    }
  }

  // Over every interleaving, at most one thread of any process is between a
  // successful TryAcquire and its Release.
  lemma MutualExclusion(daemons: set<Pid>, clock: int, steps: seq<Step>, t: Thread, u: Thread)
    ensures var s := RunSteps(Initial(daemons, clock), steps);
            PcOf(s, t).Working? && PcOf(s, u).Working? ==> t == u
  {
    RunKeepsInv(daemons, clock, steps);
  }

  // Release by the holder frees the handle it acquired, and the lock with it.
  lemma ReleaseFreesOwnHandle(daemons: set<Pid>, clock: int, steps: seq<Step>, t: Thread)
    requires PcOf(RunSteps(Initial(daemons, clock), steps), t).Working?
    ensures var s := RunSteps(Initial(daemons, clock), steps);
            Lookup(s.file, t.pid) == Some(PcOf(s, t).handle) == s.flock
            && Next(s, Release(t)).flock == None
            && forall u :: u != t ==> PcOf(Next(s, Release(t)), u) == PcOf(s, u)
  {
    RunKeepsInv(daemons, clock, steps);
  }

  // A trigger that finds the mutex or the lock taken touches neither the holder nor the captures.
  lemma SkippedTriggersChangeNothing(daemons: set<Pid>, clock: int, steps: seq<Step>, t: Thread, holder: Thread)
    requires var s := RunSteps(Initial(daemons, clock), steps); PcOf(s, holder).Working? && t != holder
    ensures var s := RunSteps(Initial(daemons, clock), steps);
            forall step :: step in {Trigger(t), TryAcquire(t), ReadServerTime(t), ReadRows(t), Release(t)} ==>
              var r := Next(s, step);
              r.log == s.log && r.flock == s.flock && PcOf(r, holder) == PcOf(s, holder)
              && Lookup(r.file, holder.pid) == Lookup(s.file, holder.pid)
  {
    RunKeepsInv(daemons, clock, steps);
  }

  // Each capture reads its rows after its snapshot and before the next one's.
  ghost predicate Spaced(log: seq<Capture>) {
    && (forall i :: 0 <= i < |log| ==> log[i].snapshot <= log[i].readAt)
    && (forall i, j :: 0 <= i < j < |log| ==> log[i].readAt <= log[j].snapshot)
  }

  // Hence the captures of all processes are serial: each reads its rows before
  // the next one takes its snapshot time.
  lemma CapturesAreSerial(daemons: set<Pid>, clock: int, steps: seq<Step>)
    ensures Spaced(RunSteps(Initial(daemons, clock), steps).log)
  {
    RunKeepsInv(daemons, clock, steps);
  }
}
