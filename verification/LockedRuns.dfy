// The file lock gives the backup runs the order that the restore theorems ask for.
module LockedRuns {
  import opened Catalog
  import Locking

  // The attempts took these captures, with the server clock in microseconds.
  ghost predicate Took(run: seq<Attempt>, log: seq<Locking.Capture>) {
    |run| == |log| && forall i :: 0 <= i < |run| ==>
      0 < run[i].snapshot && Micros(run[i].snapshot) == log[i].snapshot && run[i].readAt == log[i].readAt
  }

  // No two snapshots are the same microsecond, and no two attempts draw the same
  // directory name.
  ghost predicate Distinct(src: Source, run: seq<Attempt>) {
    forall i, j :: 0 <= i < j < |run| ==>
      Micros(run[i].snapshot) != Micros(run[j].snapshot) && NameAt(src, run, i) != NameAt(src, run, j)
  }

  // The captures of any interleaving under the lock are a serial run.
  lemma LockMakesRunsSerial(daemons: set<nat>, clock: int, steps: seq<Locking.Step>, src: Source, run: seq<Attempt>)
    requires Took(run, Locking.RunSteps(Locking.Initial(daemons, clock), steps).log) && Distinct(src, run)
    ensures Serial(src, run)
  {
    Locking.CapturesAreSerial(daemons, clock, steps);
    SpacedIsSerial(Locking.RunSteps(Locking.Initial(daemons, clock), steps).log, src, run);
  }

  lemma SpacedIsSerial(log: seq<Locking.Capture>, src: Source, run: seq<Attempt>)
    requires Took(run, log) && Distinct(src, run) && Locking.Spaced(log)
    ensures Serial(src, run)
  {
    forall i | 0 <= i < |run| ensures ClockOk(run[i]) {
    }
    forall i, j | 0 <= i < j < |run| ensures Earlier(run[i], run[j]) {
      LaterMicros(run[i], run[j], log[i], log[j]);
    }
  }

  lemma LaterMicros(a: Attempt, b: Attempt, x: Locking.Capture, y: Locking.Capture)
    requires Micros(a.snapshot) == x.snapshot && a.readAt == x.readAt && Micros(b.snapshot) == y.snapshot
    requires x.snapshot <= x.readAt <= y.snapshot && x.snapshot != y.snapshot
    ensures Earlier(a, b)
  {
  }
}
