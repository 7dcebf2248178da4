// The backup catalog: what the listing of the output directory shows, and the
// functions that specify how one backup attempt changes it.
//
// Go times are nanoseconds since the zero time; the SQL literals made from them
// keep microseconds; backup names keep seconds.
module Catalog {
  import opened Wrappers
  import opened Rows
  import opened History

  datatype Kind = Full | Incremental

  // The directory name: the kind and the UTC second of the snapshot.
  datatype BackupId = BackupId(kind: Kind, second: int)

  datatype Metadata = Metadata(kind: Kind, id: BackupId, snapshot: int, since: int,
                               parent: Option<BackupId>, baseFull: BackupId)

  // A listed backup: its metadata, the instant its rows were read (known to the
  // database only), and the captured rows of each table.
  datatype Backup = Backup(meta: Metadata, readAt: int, data: map<string, Table>)

  datatype Config = Config(pitrEnabled: bool, fullBackupEvery: int, retentionDays: int)

  // The source database: every table's write history, and the stamp columns of
  // the tables that change tracking found.
  datatype Source = Source(refs: map<string, TableRef>, history: map<string, seq<Write>>)

  // One run of CreateBackup: its settings, the server clock it reads, the
  // instant its dump or COPY transaction reads, whether every step up to the
  // metadata rename succeeds, and the wall clock at cleanup.
  datatype Attempt = Attempt(cfg: Config, forceFull: bool, forceIncremental: bool,
                             snapshot: int, readAt: int, completes: bool, wallClock: int)

  function SecondOf(t: int): (s: int)
    ensures s * 1_000_000_000 <= t < (s + 1) * 1_000_000_000
  {
    t / 1_000_000_000
  }

  // The retention limit, a number of 24-hour days before the wall clock.
  function Cutoff(cfg: Config, wallClock: int): int { wallClock - cfg.retentionDays * 86_400_000_000_000 }

  // The microsecond an SQL timestamp literal keeps of a Go time.
  function Micros(t: int): (m: int)
    ensures m * 1000 <= t < (m + 1) * 1000
  {
    t / 1000
  }

  function DumpAt(src: Source, t: int): map<string, Table> {
    map name | name in src.history :: TableAt(src.history[name], t)
  }

  function CaptureAt(src: Source, t: int, since: int, until: int): map<string, Table> {
    map name | name in src.history && name in src.refs ::
      Window(src.refs[name], TableAt(src.history[name], t), since, until)
  }

  function ChainLength(c: seq<Backup>, base: BackupId): nat {
    if c == [] then 0
    else ChainLength(c[..|c| - 1], base) + if c[|c| - 1].meta.baseFull == base then 1 else 0
  }

  // The parent of the next backup; None means a full backup.
  function Decide(a: Attempt, c: seq<Backup>): Option<Backup> {
    if a.forceFull || c == [] then None
    else
      var last := c[|c| - 1];
      if a.forceIncremental then Some(last)
      else if !a.cfg.pitrEnabled || a.cfg.fullBackupEvery <= 1 then None
      else if ChainLength(c, last.meta.baseFull) >= a.cfg.fullBackupEvery then None
      else Some(last)
  }

  function NewBackup(src: Source, a: Attempt, parent: Option<Backup>): Backup {
    match parent
    case None =>
      var id := BackupId(Full, SecondOf(a.snapshot));
      Backup(Metadata(Full, id, a.snapshot, 0, None, id), a.readAt, DumpAt(src, a.readAt))
    case Some(p) =>
      var id := BackupId(Incremental, SecondOf(a.snapshot));
      Backup(Metadata(Incremental, id, a.snapshot, p.meta.snapshot, Some(p.meta.id), p.meta.baseFull), a.readAt,
             CaptureAt(src, a.readAt, Micros(p.meta.snapshot), Micros(a.snapshot)))
  }

  // The newest snapshot of one chain; 0, the zero time, if it has none later.
  function Newest(c: seq<Backup>, base: BackupId): (t: int)
    ensures t >= 0
    ensures forall i :: 0 <= i < |c| && c[i].meta.baseFull == base ==> c[i].meta.snapshot <= t
    ensures t > 0 ==> exists i :: 0 <= i < |c| && c[i].meta.baseFull == base && c[i].meta.snapshot == t
  {
    if c == [] then 0
    else
      var rest := Newest(c[..|c| - 1], base);
      var last := c[|c| - 1];
      assert rest > 0 ==> exists i :: 0 <= i < |c| - 1 && c[i].meta.baseFull == base && c[i].meta.snapshot == rest;
      if last.meta.baseFull == base && last.meta.snapshot > rest then last.meta.snapshot else rest
  }

  predicate Expired(c: seq<Backup>, base: BackupId, cutoff: int) {
    0 < Newest(c, base) < cutoff
  }

  // The entries of c that are not in an expired chain of `all`, in order.
  function Unexpired(all: seq<Backup>, c: seq<Backup>, cutoff: int): (r: seq<Backup>)
    ensures forall b :: b in r ==> b in c
  {
    if c == [] then []
    else
      var last := c[|c| - 1];
      Unexpired(all, c[..|c| - 1], cutoff) + if Expired(all, last.meta.baseFull, cutoff) then [] else [last]
  }

  function Retained(c: seq<Backup>, cfg: Config, wallClock: int): seq<Backup> {
    if cfg.retentionDays <= 0 then c else Unexpired(c, c, Cutoff(cfg, wallClock))
  }

  // An incremental needs at least one tracked table.
  predicate CanCapture(src: Source) {
    exists name :: name in src.history && name in src.refs
  }

  predicate Succeeds(src: Source, a: Attempt, c: seq<Backup>) {
    a.completes && (Decide(a, c).Some? ==> CanCapture(src))
  }

  // The listing with the new backup added, before retention.
  function Extended(src: Source, a: Attempt, c: seq<Backup>): seq<Backup> {
    c + [NewBackup(src, a, Decide(a, c))]
  }

  // The listing after one attempt.
  function Created(src: Source, a: Attempt, c: seq<Backup>): seq<Backup> {
    if !Succeeds(src, a, c) then c
    else Retained(Extended(src, a, c), a.cfg, a.wallClock)
  }

  // The listing after a run of attempts that starts from an empty directory.
  function Run(src: Source, run: seq<Attempt>): seq<Backup> {
    if run == [] then []
    else Created(src, run[|run| - 1], Run(src, run[..|run| - 1]))
  }

  // The name of the directory an attempt makes.
  function NameFor(a: Attempt, c: seq<Backup>): BackupId {
    BackupId(if Decide(a, c).None? then Full else Incremental, SecondOf(a.snapshot))
  }

  function NameAt(src: Source, run: seq<Attempt>, i: nat): BackupId
    requires i < |run|
  {
    NameFor(run[i], Run(src, run[..i]))
  }

  predicate ClockOk(a: Attempt) { 0 < a.snapshot && Micros(a.snapshot) <= a.readAt }

  // One attempt reads before the other takes its snapshot time.
  predicate Earlier(a: Attempt, b: Attempt) {
    a.snapshot < b.snapshot && a.readAt <= Micros(b.snapshot)
  }

  // Attempts one after the other, each with a directory name of its own: two of
  // the same kind do not take their snapshots in the same second.
  ghost predicate Serial(src: Source, run: seq<Attempt>) {
    && (forall i :: 0 <= i < |run| ==> ClockOk(run[i]))
    && (forall i, j :: 0 <= i < j < |run| ==> Earlier(run[i], run[j]))
    && (forall i, j :: 0 <= i < j < |run| ==> NameAt(src, run, i) != NameAt(src, run, j))
  }
}
