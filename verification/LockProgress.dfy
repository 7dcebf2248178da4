// What the lock lets through: who gets it, and that it is never held for nobody.
module LockProgress {
  import opened Wrappers
  import opened Locking

  // No thread of the process is doing anything.
  ghost predicate Quiet(s: State, pid: Pid) {
    forall t: Thread :: t.pid == pid ==> PcOf(s, t).Idle?
  }

  // Over every interleaving and crash, neither lock outlives its holder: the file
  // lock is free exactly when no thread of any process is working, and a daemon's mutex
  // exactly when none of its threads is busy.
  lemma LocksAreFreeIff(daemons: set<Pid>, clock: int, steps: seq<Step>)
    ensures var s := RunSteps(Initial(daemons, clock), steps);
            (s.flock == None <==> forall t :: !PcOf(s, t).Working?)
            && forall pid :: pid in s.daemons ==> (pid !in s.mutex <==> Quiet(s, pid))
  {
    RunKeepsInv(daemons, clock, steps);
    var s := RunSteps(Initial(daemons, clock), steps);
    forall pid | pid in s.daemons ensures pid !in s.mutex <==> Quiet(s, pid) {
      if pid !in s.mutex {
        forall t: Thread | t.pid == pid ensures PcOf(s, t).Idle? {
          assert t in s.pc && !s.pc[t].Idle? ==> Lookup(s.mutex, t.pid) == Some(t);
        }
      }
    }
  }

  // A trigger of a daemon goes on to the file lock exactly when no other thread of
  // the daemon is busy, and is skipped otherwise.
  lemma TriggerGoesOnIff(daemons: set<Pid>, clock: int, steps: seq<Step>, t: Thread)
    requires var s := RunSteps(Initial(daemons, clock), steps); t.pid in s.daemons && PcOf(s, t).Idle?
    ensures var s := RunSteps(Initial(daemons, clock), steps);
            var r := Next(s, Trigger(t));
            if Quiet(s, t.pid) then PcOf(r, t) == HoldsMutex && r == s.(mutex := r.mutex, pc := r.pc) else r == s
  {
    LocksAreFreeIff(daemons, clock, steps);
  }

  // A thread that may ask for the file lock gets it, by a handle of its own that no
  // thread had before, exactly when no thread of any process is working. Otherwise it
  // gives up: it is idle, with its daemon's mutex free.
  lemma AcquiresIff(daemons: set<Pid>, clock: int, steps: seq<Step>, t: Thread)
    requires var s := RunSteps(Initial(daemons, clock), steps);
             if t.pid in s.daemons then PcOf(s, t) == HoldsMutex else PcOf(s, t) == Idle
    ensures var s := RunSteps(Initial(daemons, clock), steps);
            var r := Next(s, TryAcquire(t));
            if forall u :: !PcOf(s, u).Working? then
              && PcOf(r, t) == Working(Handle(s.handles, t), Begun)
              && r.flock == Lookup(r.file, t.pid) == Some(Handle(s.handles, t)) && r.handles == s.handles + 1
            else PcOf(r, t) == Idle && t.pid !in r.mutex && r.flock == s.flock && r.file == s.file
  {
    LocksAreFreeIff(daemons, clock, steps);
    RunKeepsInv(daemons, clock, steps);
  }

  // When the holder releases, the next trigger of any daemon that has no other busy
  // thread reaches its work.
  lemma NextRunAcquires(daemons: set<Pid>, clock: int, steps: seq<Step>, t: Thread, u: Thread)
    requires var s := RunSteps(Initial(daemons, clock), steps);
             PcOf(s, t).Working? && u.pid in s.daemons && forall v: Thread :: v.pid == u.pid && v != t ==> PcOf(s, v).Idle?
    ensures var s := RunSteps(Initial(daemons, clock), steps);
            PcOf(Next(Next(Next(s, Release(t)), Trigger(u)), TryAcquire(u)), u).Working?
  {
    var s := RunSteps(Initial(daemons, clock), steps);
    RunKeepsInv(daemons, clock, steps);
    var freed := Next(s, Release(t));
    assert freed.flock == None;
    if u.pid in s.mutex {
      assert s.mutex[u.pid] == t;
    }
    assert u.pid !in freed.mutex && PcOf(freed, u).Idle?;
  }

  // One whole backup of an idle daemon, with time passing before it reads.
  function WholeRun(t: Thread, elapsed: nat): seq<Step> {
    [Trigger(t), TryAcquire(t), ReadServerTime(t), Tick(elapsed), ReadRows(t), Release(t)]
  }

  // When nobody is working, a whole backup is captured once, at the times it read,
  // and leaves both locks free and the thread idle.
  lemma WholeRunCaptures(daemons: set<Pid>, clock: int, steps: seq<Step>, t: Thread, elapsed: nat)
    requires var s := RunSteps(Initial(daemons, clock), steps);
             t.pid in s.daemons && Quiet(s, t.pid) && forall u :: !PcOf(s, u).Working?
    ensures var s := RunSteps(Initial(daemons, clock), steps);
            var r := RunSteps(s, WholeRun(t, elapsed));
            && r.log == s.log + [Capture(s.clock, s.clock + elapsed)] && r.clock == s.clock + elapsed
            && r.flock == None && t.pid !in r.mutex && forall u :: PcOf(r, u) == PcOf(s, u)
  {
    var s := RunSteps(Initial(daemons, clock), steps);
    LocksAreFreeIff(daemons, clock, steps);
    FreeRunCaptures(s, t, elapsed);
  }

  lemma FreeRunCaptures(s: State, t: Thread, elapsed: nat)
    requires t.pid in s.daemons && t.pid !in s.mutex && PcOf(s, t).Idle? && s.flock == None
    ensures var r := RunSteps(s, WholeRun(t, elapsed));
            && r.log == s.log + [Capture(s.clock, s.clock + elapsed)] && r.clock == s.clock + elapsed
            && r.flock == None && t.pid !in r.mutex && forall u :: PcOf(r, u) == PcOf(s, u)
  {
    Starts(s, t);
    var begun := Next(Next(s, Trigger(t)), TryAcquire(t));
    Works(begun, t, Handle(s.handles, t), elapsed);
    OneByOne(s, WholeRun(t, elapsed));
  }

  lemma Starts(s: State, t: Thread)
    requires t.pid in s.daemons && t.pid !in s.mutex && PcOf(s, t).Idle? && s.flock == None
    ensures var h := Handle(s.handles, t);
            Next(Next(s, Trigger(t)), TryAcquire(t))
            == s.(mutex := s.mutex[t.pid := t], handles := s.handles + 1, flock := Some(h), file := s.file[t.pid := h],
                  pc := s.pc[t := Working(h, Begun)])
  {
    assert s.pc[t := HoldsMutex][t := Working(Handle(s.handles, t), Begun)] == s.pc[t := Working(Handle(s.handles, t), Begun)];
  }

  lemma Works(s: State, t: Thread, h: Handle, elapsed: nat)
    requires t.pid in s.daemons && PcOf(s, t) == Working(h, Begun) && s.flock == Lookup(s.file, t.pid) == Some(h)
    ensures var r := Next(Next(Next(Next(s, ReadServerTime(t)), Tick(elapsed)), ReadRows(t)), Release(t));
            && r.log == s.log + [Capture(s.clock, s.clock + elapsed)] && r.clock == s.clock + elapsed
            && r.flock == None && t.pid !in r.mutex && PcOf(r, t) == Idle && forall u :: u != t ==> PcOf(r, u) == PcOf(s, u)
  {
    var read := Next(Next(Next(s, ReadServerTime(t)), Tick(elapsed)), ReadRows(t));
    assert PcOf(read, t) == Working(h, Captured(s.clock, s.clock + elapsed));
  }

  lemma OneByOne(s: State, run: seq<Step>)
    requires |run| == 6
    ensures RunSteps(s, run) == Next(Next(Next(Next(Next(Next(s, run[0]), run[1]), run[2]), run[3]), run[4]), run[5])
  {
    forall i | 0 <= i < 6 ensures RunSteps(s, run[..i + 1]) == Next(RunSteps(s, run[..i]), run[i]) {
      assert run[..i + 1][..i] == run[..i];
    }
    assert run[..0] == [] && run[..6] == run;
    assert RunSteps(s, run[..3]) == Next(Next(Next(s, run[0]), run[1]), run[2]);
  }
}
