/** The hash-chained audit log (crates/mem-authz/src/audit.rs): an append-only log, a head
    sidecar committing to its length and last hash, and what survives a crash. */
module Audit {
  import opened Sorting

  datatype MemoryEvent = Read | Write | Denied

  /** The hash is taken to be injective: a hash is zero or stands for the record it was taken
      of. That the hashed bytes determine the record is Framing.RecordPreimageInjective. */
  datatype Hash = Zero | HashOf(record: AuditRecord)

  datatype AuditRecord = AuditRecord(
    sequence: nat, timestamp: nat, prevHash: Hash, event: MemoryEvent, actor: Bytes, resource: Bytes, detail: Bytes)

  datatype Head = Head(len: nat, lastHash: Hash)

  /** The two files. A log line is either there as a whole or not at all. */
  datatype Disk = Disk(log: Option<seq<AuditRecord>>, head: Option<Head>)

  datatype AuditError = Corrupt | Truncated

  // ---- chains ----

  /** The running hash after the first `n` records. */
  function HashAfter(rs: seq<AuditRecord>, n: nat): Hash
    requires n <= |rs|
  {
    if n == 0 then Zero else HashOf(rs[n - 1])
  }

  ghost predicate LinkedAt(rs: seq<AuditRecord>, i: nat)
    requires i < |rs|
  {
    rs[i].sequence == i && rs[i].prevHash == HashAfter(rs, i)
  }

  /** Every record carries its position and the hash of the record before it. */
  ghost predicate Linked(rs: seq<AuditRecord>) {
    forall i :: 0 <= i < |rs| ==> LinkedAt(rs, i)
  }

  ghost predicate FirstBreak(rs: seq<AuditRecord>, at: nat) {
    at < |rs| && !LinkedAt(rs, at) && forall j :: 0 <= j < at ==> LinkedAt(rs, j)
  }

  lemma LinkedMeans(rs: seq<AuditRecord>)
    ensures Linked(rs) <==> forall i :: 0 <= i < |rs| ==>
      rs[i].sequence == i && rs[i].prevHash == if i == 0 then Zero else HashOf(rs[i - 1])
  {
    if Linked(rs) {
      forall i | 0 <= i < |rs|
        ensures rs[i].sequence == i && rs[i].prevHash == if i == 0 then Zero else HashOf(rs[i - 1])
      {
        assert LinkedAt(rs, i);
      }
    }
  }

  lemma LinkedAppend(rs: seq<AuditRecord>, r: AuditRecord)
    requires Linked(rs) && r.sequence == |rs| && r.prevHash == HashAfter(rs, |rs|)
    ensures Linked(rs + [r])
  {
    forall i | 0 <= i < |rs| ensures LinkedAt(rs + [r], i) { assert LinkedAt(rs, i); }
  }

  function HeadOf(rs: seq<AuditRecord>): Head { Head(|rs|, HashAfter(rs, |rs|)) }

  function NextRecord(rs: seq<AuditRecord>, now: nat, event: MemoryEvent, actor: Bytes, resource: Bytes,
                      detail: Bytes): AuditRecord {
    AuditRecord(|rs|, now, HashAfter(rs, |rs|), event, actor, resource, detail)
  }

  // ---- opening ----

  datatype Opening = Opened(records: seq<AuditRecord>, disk: Disk) | Refused(error: AuditError)

  ghost function Open(d: Disk): Opening {
    if d.log.None? then Opened([], Disk(Some([]), Some(Head(0, Zero))))
    else
      var rs := d.log.value;
      if !Linked(rs) then Refused(Corrupt)
      else if d.head.None? then Refused(Corrupt)
      else if d.head.value.len > |rs| then Refused(Truncated)
      else if |rs| > d.head.value.len + 1 then Refused(Corrupt)
      else if HashAfter(rs, d.head.value.len) != d.head.value.lastHash then Refused(Corrupt)
      else Opened(rs, Disk(d.log, Some(HeadOf(rs))))
  }

  /** One last hash pins down the whole chain before it. */
  lemma {:induction false} HashPinsChain(a: seq<AuditRecord>, b: seq<AuditRecord>, n: nat)
    requires Linked(a) && Linked(b) && n <= |a| && n <= |b| && HashAfter(a, n) == HashAfter(b, n)
    ensures a[..n] == b[..n]
  {
    if n > 0 {
      assert LinkedAt(a, n - 1) && LinkedAt(b, n - 1);
      HashPinsChain(a, b, n - 1);
      assert a[..n] == a[..n - 1] + [a[n - 1]] && b[..n] == b[..n - 1] + [b[n - 1]];
    }
  }

  /** Tamper evidence: against the head of a chain, the only logs that open are that chain itself
      and that chain followed by one properly linked record, so that any edit, removal or
      reordering of committed records in the log is refused. The exception is the log file as a
      whole: when it is gone an empty chain opens, whatever the head says. */
  lemma OnlyTheCommittedChainOpens(committed: seq<AuditRecord>, d: Disk)
    requires Linked(committed) && d.head == Some(HeadOf(committed))
    ensures Open(d).Opened? <==>
      || d.log.None?
      || d.log.value == committed
      || (|d.log.value| == |committed| + 1 && d.log.value[..|committed|] == committed && Linked(d.log.value))
    ensures Open(d).Opened? && d.log.Some? ==> Open(d).records == d.log.value
  {
    if d.log.Some? {
      var n, log := |committed|, d.log.value;
      if Linked(log) && n <= |log| && HashAfter(log, n) == HashAfter(committed, n) {
        HashPinsChain(log, committed, n);
        assert committed[..n] == committed;
        assert |log| == n ==> log[..n] == log;
      }
    }
  }

  /** What a refusal says: committed records missing from the end of an otherwise good log are
      reported as a truncation, and everything else as corruption. */
  lemma TruncatedExactly(committed: seq<AuditRecord>, d: Disk)
    requires Linked(committed) && d.log.Some?
    ensures Open(d) == Refused(Truncated) <==>
      d.head.Some? && Linked(d.log.value) && |d.log.value| < d.head.value.len
    ensures d.head == Some(HeadOf(committed)) ==>
      forall n :: 0 <= n < |committed| ==> Open(d.(log := Some(committed[..n]))) == Refused(Truncated)
  {
    forall n | 0 <= n < |committed|
      ensures d.head == Some(HeadOf(committed)) ==> Open(d.(log := Some(committed[..n]))) == Refused(Truncated)
    {
      LinkedPrefix(committed, n);
    }
  }

  /** A deleted log is not noticed: opening starts an empty chain, writes a head for it over the one
      that committed to records, and serves it. */
  lemma DeletedLogOpensEmpty(committed: seq<AuditRecord>)
    requires Linked(committed) && committed != []
    ensures var d := Disk(None, Some(HeadOf(committed)));
      Open(d) == Opened([], Disk(Some([]), Some(HeadOf([])))) && HeadOf([]) != HeadOf(committed)
    ensures var s := Run(System(Disk(None, Some(HeadOf(committed))), Down), [CreateLog, CreateHead]);
      s == System(Disk(Some([]), Some(HeadOf([]))), Serving([]))
  {
    var start := System(Disk(None, Some(HeadOf(committed))), Down);
    assert [CreateLog, CreateHead][..1] == [CreateLog] && [CreateLog][..0] == [];
    assert Run(start, [CreateLog]) == Next(Run(start, []), CreateLog);
  }

  /** Whatever head is found, an opened log carries the commitment it makes: the first
      `head.len` records form the one chain with that length and hash. */
  lemma OpenedMeetsItsHead(d: Disk, chain: seq<AuditRecord>)
    requires d.log.Some? && d.head.Some? && Open(d).Opened?
    requires Linked(chain) && HeadOf(chain) == d.head.value
    ensures var rs := Open(d).records;
      && rs == d.log.value && (|rs| == |chain| || |rs| == |chain| + 1)
      && rs[..|chain|] == chain && Open(d).disk == Disk(Some(rs), Some(HeadOf(rs)))
  {
    HashPinsChain(d.log.value, chain, |chain|);
    assert chain[..|chain|] == chain;
  }

  // ---- the files and the chain object ----

  class Files {
    var log: Option<seq<AuditRecord>>
    var head: Option<Head>

    ghost function Value(): Disk
      reads this
    {
      Disk(log, head)
    }
  }

  /** Re-walk a log with the running hash; `None` at the first break. */
  method ReWalk(rs: seq<AuditRecord>) returns (hashes: Option<seq<Hash>>, at: nat)
    ensures hashes.Some? <==> Linked(rs)
    ensures hashes.None? ==> FirstBreak(rs, at)
    ensures hashes.Some? ==>
      |hashes.value| == |rs| && forall i :: 0 <= i < |rs| ==> hashes.value[i] == HashAfter(rs, i + 1)
  {
    var expected, after := Zero, [];
    for i := 0 to |rs|
      invariant expected == HashAfter(rs, i) && |after| == i
      invariant forall j :: 0 <= j < i ==> LinkedAt(rs, j)
      invariant forall j :: 0 <= j < i ==> after[j] == HashAfter(rs, j + 1)
    {
      if rs[i].sequence != i || rs[i].prevHash != expected {
        assert !LinkedAt(rs, i);
        return None, i;
      }
      expected := HashOf(rs[i]);
      after := after + [expected];
    }
    hashes, at := Some(after), |rs|;
  }

  class AuditChain {
    const files: Files
    var records: seq<AuditRecord>
    var lastHash: Hash
    var nextSeq: nat

    /** Memory and both files agree on one linked chain. */
    ghost predicate Valid()
      reads this, files
    {
      && Linked(records) && lastHash == HashAfter(records, |records|) && nextSeq == |records|
      && files.log == Some(records) && files.head == Some(HeadOf(records))
    }

    constructor (disk: Files, rs: seq<AuditRecord>, last: Hash)
      ensures files == disk && records == rs && lastHash == last && nextSeq == |rs|
    {
      files, records, lastHash, nextSeq := disk, rs, last, |rs|;
    }

    static method OpenFiles(disk: Files) returns (chain: AuditChain?, error: Option<AuditError>)
      modifies disk
      ensures match Open(old(disk.Value()))
        case Refused(err) => chain == null && error == Some(err) && disk.Value() == old(disk.Value())
        case Opened(rs, d) => chain != null && fresh(chain) && error == None && chain.files == disk
                              && chain.records == rs && disk.Value() == d && chain.Valid()
      ensures var before := System(old(disk.Value()), Down);
        System(disk.Value(), if chain == null then Down else Serving(chain.records)) ==
        if before.disk.log.None? then Next(Next(before, CreateLog), CreateHead) else Next(before, Reopen)
    {
      if disk.log.None? {
        disk.log := Some([]);
        disk.head := Some(Head(0, Zero));
        chain := new AuditChain(disk, [], Zero);
        return chain, None;
      }
      var rs := disk.log.value;
      var hashes, _ := ReWalk(rs);
      if hashes.None? || disk.head.None? { return null, Some(Corrupt); }
      var head := disk.head.value;
      if head.len > |rs| { return null, Some(Truncated); }
      if |rs| > head.len + 1 { return null, Some(Corrupt); }
      var prefixHash := if head.len == 0 then Zero else hashes.value[head.len - 1];
      if prefixHash != head.lastHash { return null, Some(Corrupt); }
      var last := if |rs| == 0 then Zero else hashes.value[|rs| - 1];
      if head.len != |rs| { disk.head := Some(Head(|rs|, last)); }
      chain := new AuditChain(disk, rs, last);
      error := None;
    }

    method Append(now: nat, event: MemoryEvent, actor: Bytes, resource: Bytes, detail: Bytes)
      returns (record: AuditRecord)
      requires Valid()
      modifies this, files
      ensures Valid() && records == old(records) + [record]
      ensures record.sequence == old(|records|) && record.timestamp == now && record.event == event
      ensures record.actor == actor && record.resource == resource && record.detail == detail
      ensures record.prevHash == if old(records) == [] then Zero else HashOf(old(records)[|old(records)| - 1])
      ensures var before := System(old(files.Value()), Serving(old(records)));
        System(files.Value(), Serving(records)) ==
        Next(Next(Next(before, WriteLine(now, event, actor, resource, detail)), WriteHead), Publish)
    {
      LinkedAppend(records, NextRecord(records, now, event, actor, resource, detail));
      record := AuditRecord(nextSeq, now, lastHash, event, actor, resource, detail);
      files.log := Some(files.log.value + [record]);
      files.head := Some(Head(record.sequence + 1, HashOf(record)));
      lastHash, nextSeq, records := HashOf(record), nextSeq + 1, records + [record];
    }

    /** The count, or the sequence number found where linkage breaks first. */
    method VerifyIntegrity() returns (ok: bool, n: nat)
      ensures ok <==> Linked(records)
      ensures if ok then n == |records| else exists at: nat :: FirstBreak(records, at) && n == records[at].sequence
    {
      var hashes, at := ReWalk(records);
      ok, n := hashes.Some?, if hashes.Some? then |records| else records[at].sequence;
    }
  }

  // ---- crashes ----

  /** Where the process is: not running, creating a fresh log, serving a chain, or inside an
      append after the log line or after the head is durable. */
  datatype Process =
    | Down
    | Creating
    | Serving(chain: seq<AuditRecord>)
    | LineWritten(chain: seq<AuditRecord>, record: AuditRecord)
    | HeadWritten(chain: seq<AuditRecord>, record: AuditRecord)

  datatype System = System(disk: Disk, process: Process)

  datatype Step =
    | CreateLog | CreateHead | Reopen
    | WriteLine(now: nat, event: MemoryEvent, actor: Bytes, resource: Bytes, detail: Bytes)
    | WriteHead | Publish
    | Crash

  /** A step that does not apply in the current state does nothing. */
  ghost function Next(s: System, step: Step): System {
    match (step, s.process)
    case (CreateLog, Down) => if s.disk.log.None? then System(s.disk.(log := Some([])), Creating) else s
    case (CreateHead, Creating) => System(s.disk.(head := Some(Head(0, Zero))), Serving([]))
    case (Reopen, Down) =>
      if s.disk.log.None? then s
      else (match Open(s.disk) case Opened(rs, d) => System(d, Serving(rs)) case Refused(_) => s)
    case (WriteLine(now, event, actor, resource, detail), Serving(chain)) =>
      var r := NextRecord(chain, now, event, actor, resource, detail);
      if s.disk.log.Some? then System(s.disk.(log := Some(s.disk.log.value + [r])), LineWritten(chain, r)) else s
    case (WriteHead, LineWritten(chain, r)) =>
      System(s.disk.(head := Some(Head(r.sequence + 1, HashOf(r)))), HeadWritten(chain, r))
    case (Publish, HeadWritten(chain, r)) => s.(process := Serving(chain + [r]))
    case (Crash, _) => s.(process := Down)
    case _ => s
  }

  ghost function Run(s: System, steps: seq<Step>): System {
    if steps == [] then s else Next(Run(s, steps[..|steps| - 1]), steps[|steps| - 1])
  }

  const FRESH := System(Disk(None, None), Down)

  /** The one state no restart leaves: the log was created, its head was not. */
  predicate Stranded(d: Disk) { d.log == Some([]) && d.head.None? }

  ghost predicate Consistent(s: System) {
    if s.disk.log.None? then s.disk.head.None? && s.process == Down
    else
      var rs := s.disk.log.value;
      Linked(rs) &&
      match s.process
      case Down =>
        || Stranded(s.disk) || s.disk.head == Some(HeadOf(rs))
        || (rs != [] && s.disk.head == Some(HeadOf(rs[..|rs| - 1])))
      case Creating => Stranded(s.disk)
      case Serving(chain) => chain == rs && s.disk.head == Some(HeadOf(rs))
      case LineWritten(chain, r) => rs == chain + [r] && s.disk.head == Some(HeadOf(chain))
      case HeadWritten(chain, r) => rs == chain + [r] && s.disk.head == Some(HeadOf(rs))
  }

  lemma LinkedPrefix(rs: seq<AuditRecord>, n: nat)
    requires Linked(rs) && n <= |rs|
    ensures Linked(rs[..n]) && HashAfter(rs[..n], n) == HashAfter(rs, n)
  {
    forall i | 0 <= i < n ensures LinkedAt(rs[..n], i) { assert LinkedAt(rs, i); }
  }

  lemma NextKeepsConsistent(s: System, step: Step)
    requires Consistent(s)
    ensures Consistent(Next(s, step))
  {
    if s.disk.log.Some? {
      var rs := s.disk.log.value;
      match (step, s.process) {
        case (WriteLine(now, event, actor, resource, detail), Serving(chain)) =>
          var r := NextRecord(chain, now, event, actor, resource, detail);
          LinkedAppend(rs, r);
        case (WriteHead, LineWritten(chain, r)) =>
          assert LinkedAt(rs, |chain|);
        case (Crash, LineWritten(chain, r)) =>
          assert rs[..|rs| - 1] == chain;
        case _ =>
      }
    }
  }

  lemma {:induction false} RunsAreConsistent(steps: seq<Step>)
    ensures Consistent(Run(FRESH, steps))
  {
    if steps != [] {
      RunsAreConsistent(steps[..|steps| - 1]);
      NextKeepsConsistent(Run(FRESH, steps[..|steps| - 1]), steps[|steps| - 1]);
    }
  }

  /** Crash recovery: after any run and a crash at any point of it, a restart brings back the
      chain that was being served, or that chain and the one record in flight, with the head
      repaired; except for a log whose creation was cut off before its first head. */
  lemma CrashThenReopen(steps: seq<Step>)
    ensures var s := Run(FRESH, steps);
      var again := Next(Next(s, Crash), Reopen);
      s.disk.log.Some? ==>
        && (again.process.Serving? <==> !Stranded(s.disk))
        && (Stranded(s.disk) ==> again.process == Down)
        && (again.process.Serving? ==>
              && again.disk == Disk(Some(again.process.chain), Some(HeadOf(again.process.chain)))
              && Linked(again.process.chain)
              && match s.process
                 case Serving(chain) => again.process.chain == chain
                 case LineWritten(chain, r) => again.process.chain == chain + [r]
                 case HeadWritten(chain, r) => again.process.chain == chain + [r]
                 case _ => again.process.chain == s.disk.log.value)
  {
    hide Linked;
    RunsAreConsistent(steps);
    var s := Run(FRESH, steps);
    if s.disk.log.Some? {
      var rs := s.disk.log.value;
      if rs != [] { LinkedPrefix(rs, |rs| - 1); }
      NextKeepsConsistent(s, Crash);
    }
  }

  /** What the process currently vouches for. */
  function Acknowledged(p: Process): seq<AuditRecord> {
    match p
    case Serving(chain) => chain
    case LineWritten(chain, _) => chain
    case HeadWritten(chain, _) => chain
    case _ => []
  }

  lemma LogOnlyGrows(s: System, step: Step)
    requires Consistent(s)
    ensures s.disk.log.Some? ==> Next(s, step).disk.log.Some? && s.disk.log.value <= Next(s, step).disk.log.value
  {
  }

  /** Nothing acknowledged is ever lost: through any further steps, crashes and restarts, a chain
      once served stays a prefix of the log, and of every chain served later. */
  lemma {:induction false} NothingIsLost(before: seq<Step>, after: seq<Step>)
    ensures var s, t := Run(FRESH, before), Run(FRESH, before + after);
      && (t.disk.log.Some? ==> Acknowledged(s.process) <= t.disk.log.value)
      && (s.disk.log.Some? ==> t.disk.log.Some? && s.disk.log.value <= t.disk.log.value)
      && (t.process.Serving? ==> Acknowledged(s.process) <= t.process.chain)
  {
    hide Linked;
    RunsAreConsistent(before);
    RunsAreConsistent(before + after);
    if after == [] {
      assert before + after == before;
    } else {
      hide Next, Run;
      var init, last := after[..|after| - 1], after[|after| - 1];
      NothingIsLost(before, init);
      OneMoreStep(before + init, last);
      assert before + after == before + init + [last];
    }
  }

  lemma OneMoreStep(steps: seq<Step>, last: Step)
    ensures var t, u := Run(FRESH, steps), Run(FRESH, steps + [last]);
      t.disk.log.Some? ==> u.disk.log.Some? && t.disk.log.value <= u.disk.log.value
  {
    hide Linked;
    assert (steps + [last])[..|steps|] == steps;
    RunsAreConsistent(steps);
    LogOnlyGrows(Run(FRESH, steps), last);
  }

  /** The exception is real and final: cut off between creating the log and writing its first
      head, the log never opens again, whatever is tried. */
  lemma {:induction false} StrandedStaysStranded(after: seq<Step>)
    ensures var s := Run(FRESH, [CreateLog, Crash] + after);
      Stranded(s.disk) && s.process == Down
  {
    var start := [CreateLog, Crash];
    if after == [] {
      assert start + after == start && start[..1] == [CreateLog] && start[..1][..0] == [];
      assert Run(FRESH, [CreateLog]) == Next(Run(FRESH, []), CreateLog);
    } else {
      var init, last := after[..|after| - 1], after[|after| - 1];
      assert (start + after)[..|start + after| - 1] == start + init;
      StrandedStaysStranded(init);
    }
  }
}
