/** Collecting one execution's output files from the daemon's archive stream. */
module OutputCollector {
  import opened ByteStreams
  import opened BudgetedReaders
  import opened UstarArchives
  import opened MemberNames

  const MAX_OUTPUT_MEMBERS: nat := 64

  /**
   * The archive parser's own read-ahead buffer: it pulls records of `recordSize` bytes from the
   * budgeted reader and hands out what it is asked for. `consumed` is the ghost history of that.
   */
  class TarStream {
    const reader: BudgetedReader
    const recordSize: nat
    var ahead: Bytes
    ghost var consumed: Bytes

    ghost predicate Valid()
      reads this, reader
    {
      reader.Valid() && recordSize > 0 && reader.delivered == consumed + ahead
    }

    constructor (reader: BudgetedReader, recordSize: nat)
      requires reader.Valid() && reader.delivered == [] && recordSize > 0
      ensures Valid() && fresh(this) && this.reader == reader && consumed == []
    {
      this.reader, this.recordSize := reader, recordSize;
      ahead, consumed := [], [];
    }

    /** Reads `n` bytes; fewer only at the end of what the reader's budget keeps. */
    method Read(n: nat) returns (r: ReadResult)
      requires Valid()
      modifies this, reader
      ensures Valid()
      ensures !reader.timed ==> r.Data?
      ensures consumed <= reader.Kept()
      ensures r.Data? ==> r.bytes == Window(reader.Kept(), |old(consumed)|, n)
      ensures r.Data? ==> consumed == old(consumed) + r.bytes
      ensures r.Data? && |r.bytes| < n ==> consumed == reader.Kept() && (reader.exhausted <==> reader.OverBudget())
    {
      hide Prefix, Flatten, Window;
      var dry := false;
      while |ahead| < n && !dry
        invariant Valid() && consumed == old(consumed)
        invariant dry ==> reader.delivered == reader.Kept() && (reader.exhausted <==> reader.OverBudget())
        decreases !dry, |reader.Kept()| - |reader.delivered|
      {
        var record := reader.Read(recordSize);
        if record.DeadlineExpired? {
          return DeadlineExpired;
        }
        dry := record.bytes == [];
        ahead := ahead + record.bytes;
      }
      Served(consumed, ahead, reader.Kept(), n);
      var count := if |ahead| < n then |ahead| else n;
      r := Data(ahead[..count]);
      consumed := consumed + ahead[..count];
      ahead := ahead[count..];
    }
  }

  lemma {:induction false} TotalSizePrefix(files: seq<OutputFile>, n: nat)
    ensures TotalSize(Prefix(files, n)) <= TotalSize(files)
  {
    if |files| > n {
      TotalSizeAppend(files[..n], files[n..]);
      assert files[..n] + files[n..] == files;
    }
  }

  /** The files the byte budget and the count bound admit: whole entries only, in order. */
  function Admitted(entries: seq<Entry>, budget: nat): seq<OutputFile> {
    Prefix(Deliver(entries[..WholeEntries(entries, budget)]), MAX_OUTPUT_MEMBERS)
  }

  /** What collection may return for an archive. */
  ghost predicate Collected(
    entries: seq<Entry>, trailer: nat, budget: nat, interrupted: bool,
    files: seq<OutputFile>, truncated: bool)
  {
    && files <= Admitted(entries, budget)
    && (!interrupted ==> files == Admitted(entries, budget))
    && (!truncated ==> files == Deliver(entries))
    && (|Archive(entries, trailer)| <= budget && |Deliver(entries)| <= MAX_OUTPUT_MEMBERS && !interrupted ==>
          !truncated)
  }

  /** The parser stands after `k` whole entries whose files are `files`. */
  ghost predicate Parsed(entries: seq<Entry>, budget: nat, k: nat, files: seq<OutputFile>) {
    && k <= |entries|
    && (forall i | 0 <= i < k :: DataEnd(entries, i) <= budget)
    && files == Deliver(entries[..k]) && |files| <= MAX_OUTPUT_MEMBERS
  }

  lemma DeliverMonotone(entries: seq<Entry>, k: nat, m: nat)
    requires k <= m <= |entries|
    ensures Deliver(entries[..k]) <= Deliver(entries[..m]) <= Deliver(entries)
  {
    DeliverSplit(entries[..m], k);
    assert entries[..m][..k] == entries[..k];
    DeliverSplit(entries, m);
  }

  /** Stopping anywhere leaves a prefix of what is admitted; stopping at the cut leaves all of it. */
  lemma StoppedAt(entries: seq<Entry>, trailer: nat, budget: nat, k: nat, files: seq<OutputFile>)
    requires Parsed(entries, budget, k, files)
    ensures |files| <= MAX_OUTPUT_MEMBERS && TotalSize(files) <= budget
    ensures Collected(entries, trailer, budget, true, files, true)
    ensures k == |entries| ==> files == Admitted(entries, budget) == Deliver(entries)
    ensures k < |entries| && DataEnd(entries, k) > budget ==> files == Admitted(entries, budget)
    ensures k < |entries| && IsRegular(entries[k].header) && |files| == MAX_OUTPUT_MEMBERS ==>
              files == Admitted(entries, budget) && |Deliver(entries)| > MAX_OUTPUT_MEMBERS
  {
    var m := WholeEntries(entries, budget);
    DeliverMonotone(entries, k, m);
    if k == |entries| {
      assert entries[..k] == entries;
    } else {
      DeliverNext(entries, k);
    }
    WholeFilesFit(entries, budget);
    TotalSizePrefix(Deliver(entries[..m]), |files|);
    assert files == Prefix(Deliver(entries[..m]), |files|);
  }

  lemma ParsedNext(entries: seq<Entry>, budget: nat, k: nat, files: seq<OutputFile>)
    requires Parsed(entries, budget, k, files) && k < |entries|
    ensures DataEnd(entries, k) <= budget && |files + Output(entries[k])| <= MAX_OUTPUT_MEMBERS ==>
              Parsed(entries, budget, k + 1, files + Output(entries[k]))
    ensures files + [] == files
  {
    DeliverNext(entries, k);
  }

  /** What the block read where entry `k` should start tells. */
  lemma BlockRead(entries: seq<Entry>, trailer: nat, budget: nat, k: nat, block: Bytes)
    requires AllWellFormed(entries) && trailer >= BLOCK && k <= |entries|
    requires var kept := Prefix(Archive(entries, trailer), budget);
             Start(entries, k) <= |kept| && block == Window(kept, Start(entries, k), BLOCK)
    ensures |block| < BLOCK ==>
              budget < |Archive(entries, trailer)| && (k < |entries| ==> DataEnd(entries, k) > budget)
    ensures |block| == BLOCK && k < |entries| ==> block == entries[k].header && !AllZero(block) && WellFormed(entries[k])
    ensures |block| == BLOCK && k == |entries| ==> AllZero(block)
  {
    var a := Archive(entries, trailer);
    if k < |entries| {
      EntryAt(entries, trailer, k);
      assert WellFormed(entries[k]);
    } else {
      TrailerAt(entries, trailer);
    }
    if |block| == BLOCK {
      assert block == a[Start(entries, k)..Start(entries, k) + BLOCK];
      if k == |entries| {
        assert block == a[Start(entries, k)..][..BLOCK];
      }
    }
  }

  /** What the data read after the header of entry `k` tells, and where it leaves the parser. */
  lemma BodyRead(entries: seq<Entry>, trailer: nat, budget: nat, k: nat, body: Bytes)
    requires k < |entries|
    requires var kept := Prefix(Archive(entries, trailer), budget);
             Start(entries, k) + BLOCK <= |kept| &&
             body == Window(kept, Start(entries, k) + BLOCK, |entries[k].data|)
    ensures |body| == |entries[k].data| ==> body == entries[k].data && DataEnd(entries, k) <= budget
    ensures |body| != |entries[k].data| ==> DataEnd(entries, k) > budget
    ensures Start(entries, k + 1) == DataEnd(entries, k) + Padding(|entries[k].data|)
    ensures budget < DataEnd(entries, k) ==> budget < |Archive(entries, trailer)|
  {
    EntryAt(entries, trailer, k);
    var a := Archive(entries, trailer);
    if |body| == |entries[k].data| {
      assert body == a[Start(entries, k) + BLOCK..DataEnd(entries, k)];
    }
  }

  /** Losing padding before entry `k` means the budget ends before that entry starts. */
  lemma Unpadded(entries: seq<Entry>, trailer: nat, budget: nat, k: nat)
    requires k <= |entries| && |Prefix(Archive(entries, trailer), budget)| < Start(entries, k)
    ensures k < |entries| ==> DataEnd(entries, k) > budget
    ensures budget < |Archive(entries, trailer)|
  {
    EncodeSplit(entries, k);
  }

  /** What asking the archive for its next member, or a member for its data, comes to. */
  datatype Event =
    | Header(block: Block)
    | Body(data: Bytes)
    | EndOfArchive
    | ReadError
    | Interrupted

  /** The parser over one archive stream. `passed` counts the entries behind it. */
  class TarFile {
    const tar: TarStream
    ghost const entries: seq<Entry>
    ghost const trailer: nat
    var gap: nat             // padding of the last member, not read yet
    var first: bool          // nothing but the start of the archive was seen
    ghost var passed: nat

    ghost predicate Fixed()
      reads this, tar, tar.reader
    {
      && tar.Valid() && AllWellFormed(entries) && trailer >= BLOCK
      && Flatten(tar.reader.chunks) == Archive(entries, trailer)
      && tar.consumed <= tar.reader.Kept()
      && passed <= |entries| && first == (passed == 0)
      && (forall i | 0 <= i < passed :: DataEnd(entries, i) <= tar.reader.budget)
    }

    /** Between two entries, the last one's padding still to be skipped. */
    ghost predicate Valid()
      reads this, tar, tar.reader
    {
      Fixed() && gap < BLOCK && |tar.consumed| + gap == Start(entries, passed)
    }

    /** Behind the header of entry `passed`. */
    ghost predicate InEntry()
      reads this, tar, tar.reader
    {
      Fixed() && passed < |entries| && |tar.consumed| == Start(entries, passed) + BLOCK
    }

    /** The entry the parser stands at is not whole within the budget. */
    ghost predicate Cut()
      reads this
    {
      && tar.reader.budget < |Archive(entries, trailer)|
      && (passed < |entries| ==> DataEnd(entries, passed) > tar.reader.budget)
    }

    constructor (tar: TarStream, ghost entries: seq<Entry>, ghost trailer: nat)
      requires tar.Valid() && tar.consumed == [] && AllWellFormed(entries) && trailer >= BLOCK
      requires Flatten(tar.reader.chunks) == Archive(entries, trailer)
      ensures Valid() && fresh(this) && this.tar == tar && this.entries == entries && this.trailer == trailer
      ensures passed == 0
    {
      this.tar, this.entries, this.trailer := tar, entries, trailer;
      gap, first, passed := 0, true, 0;
    }

    /** Moves to the next header: skips what is left of the last member and reads one block. */
    method Next() returns (e: Event)
      requires Valid()
      modifies this`gap, tar, tar.reader
      ensures Fixed()
      ensures e.Header? || e.EndOfArchive? || e.ReadError? || e.Interrupted?
      ensures e.Header? ==> InEntry() && e.block == entries[passed].header && WellFormed(entries[passed])
      ensures e.EndOfArchive? ==> passed == |entries| || (Cut() && tar.reader.exhausted)
      ensures e.ReadError? ==> Cut()
      ensures e.Interrupted? ==> tar.reader.timed
    {
      hide AllWellFormed, Archive, Start, DataEnd, Prefix, Flatten, WellFormed, AllZero, Window;
      var skipped := tar.Read(gap);
      if skipped.DeadlineExpired? {
        return Interrupted;
      }
      if |skipped.bytes| < gap {
        Unpadded(entries, trailer, tar.reader.budget, passed);
        return ReadError;
      }
      gap := 0;
      var block := tar.Read(BLOCK);
      if block.DeadlineExpired? {
        return Interrupted;
      }
      BlockRead(entries, trailer, tar.reader.budget, passed, block.bytes);
      if |block.bytes| < BLOCK {
        return if first then ReadError else EndOfArchive;
      }
      e := if AllZero(block.bytes) then EndOfArchive else Header(block.bytes);
    }

    /** Reads the current member's data in full, or reports that it is not all there. */
    method Extract(size: nat) returns (e: Event)
      requires InEntry() && size == |entries[passed].data|
      modifies this, tar, tar.reader
      ensures Fixed()
      ensures e.Body? || e.ReadError? || e.Interrupted?
      ensures e.Body? ==> Valid() && passed == old(passed) + 1 && e.data == entries[old(passed)].data
      ensures !e.Body? ==> passed == old(passed)
      ensures e.ReadError? ==> Cut()
      ensures e.Interrupted? ==> tar.reader.timed
    {
      hide AllWellFormed, Archive, Start, Prefix, Flatten, WellFormed, Window;
      var body := tar.Read(size);
      if body.DeadlineExpired? {
        return Interrupted;
      }
      BodyRead(entries, trailer, tar.reader.budget, passed, body.bytes);
      if |body.bytes| != size {
        return ReadError;
      }
      gap, first := Padding(size), false;
      passed := passed + 1;
      e := Body(body.bytes);
    }

    /** Leaves a member that carries no data of its own. */
    method PassOver()
      requires InEntry() && entries[passed].data == []
      modifies this
      ensures Valid() && passed == old(passed) + 1
    {
      BodyRead(entries, trailer, tar.reader.budget, passed, []);
      gap, first := 0, false;
      passed := passed + 1;
    }
  }

  /**
   * One turn of the collection loop: the next member, and its file if it is a regular one. When there
   * is no more to do, the files so far are the collection.
   */
  method CollectNext(archive: TarFile, files: seq<OutputFile>)
    returns (more: bool, after: seq<OutputFile>, truncated: bool, interrupted: bool)
    requires archive.Valid() && Parsed(archive.entries, archive.tar.reader.budget, archive.passed, files)
    modifies archive, archive.tar, archive.tar.reader
    ensures files <= after && (!more ==> after == files)
    ensures more ==> archive.Valid() && archive.passed == old(archive.passed) + 1
    ensures more ==> Parsed(archive.entries, archive.tar.reader.budget, archive.passed, after)
    ensures interrupted ==> archive.tar.reader.timed && truncated
    ensures !more ==> var reader := archive.tar.reader;
                      Collected(archive.entries, archive.trailer, reader.budget, interrupted, files, truncated || reader.exhausted)
  {
    ghost var entries, trailer, reader, k := archive.entries, archive.trailer, archive.tar.reader, archive.passed;
    if k < |entries| {
      ParsedNext(entries, reader.budget, k, files);
    }
    more, after, truncated, interrupted := false, files, false, false;
    hide Collected, Parsed, Prefix, DataEnd, FileName, SizeField, Flatten, Start, Archive, AllWellFormed, IsRegular;
    var member := archive.Next();
    if !member.Header? {
      truncated, interrupted := !member.EndOfArchive?, member.Interrupted?;
      CollectedAt(entries, trailer, reader.budget, k, files, truncated || reader.exhausted, interrupted);
      return;
    }
    if !IsRegular(member.block) {
      archive.PassOver();
      return true, files, false, false;
    }
    more, after, truncated, interrupted := CollectRegular(archive, files, member.block);
  }

  /** The file of a regular member whose header was read. */
  method CollectRegular(archive: TarFile, files: seq<OutputFile>, header: Block)
    returns (more: bool, after: seq<OutputFile>, truncated: bool, interrupted: bool)
    requires archive.InEntry() && header == archive.entries[archive.passed].header
    requires WellFormed(archive.entries[archive.passed]) && IsRegular(header)
    requires Parsed(archive.entries, archive.tar.reader.budget, archive.passed, files)
    modifies archive, archive.tar, archive.tar.reader
    ensures files <= after && (!more ==> after == files)
    ensures more ==> archive.Valid() && archive.passed == old(archive.passed) + 1
    ensures more ==> Parsed(archive.entries, archive.tar.reader.budget, archive.passed, after)
    ensures interrupted ==> archive.tar.reader.timed && truncated
    ensures !more ==> var reader := archive.tar.reader;
                      Collected(archive.entries, archive.trailer, reader.budget, interrupted, files, truncated || reader.exhausted)
  {
    ghost var entries, trailer, budget, k := archive.entries, archive.trailer, archive.tar.reader.budget, archive.passed;
    ParsedNext(entries, budget, k, files);
    assert |files| <= MAX_OUTPUT_MEMBERS;
    more, after, truncated, interrupted := false, files, true, false;
    hide Collected, Parsed, Prefix, DataEnd, FileName, SizeField, Flatten, Start, Archive, AllWellFormed, IsRegular;
    if |files| >= MAX_OUTPUT_MEMBERS {
      CollectedAt(entries, trailer, budget, k, files, true, false);
      return;
    }
    var content := archive.Extract(SizeField(header));
    if !content.Body? {
      interrupted := content.Interrupted?;
      CollectedAt(entries, trailer, budget, k, files, true, interrupted);
      return;
    }
    more, after, truncated := true, files + [OutputFile(FileName(header), content.data)], false;
  }

  /** Whichever way the loop ends after `k` whole entries, the files so far are what collection may return. */
  lemma CollectedAt(
    entries: seq<Entry>, trailer: nat, budget: nat, k: nat, files: seq<OutputFile>, truncated: bool, interrupted: bool)
    requires Parsed(entries, budget, k, files) && (interrupted ==> truncated)
    requires var over := budget < |Archive(entries, trailer)|;
             || interrupted
             || (k == |entries| && (truncated ==> over))
             || (over && truncated && (k < |entries| ==> DataEnd(entries, k) > budget))
             || (truncated && k < |entries| && IsRegular(entries[k].header) && |files| == MAX_OUTPUT_MEMBERS)
    ensures Collected(entries, trailer, budget, interrupted, files, truncated)
  {
    StoppedAt(entries, trailer, budget, k, files);
    hide Parsed, Admitted, Deliver, DataEnd, Archive, TotalSize;
  }

  /**
   * Collects the regular members of one archive. `interrupted` reports that the deadline expired
   * during a read, which is swallowed with every other `OSError`.
   */
  method CollectMembers(
    chunks: seq<Bytes>, byteBudget: nat, timed: bool, recordSize: nat,
    ghost entries: seq<Entry>, ghost trailer: nat)
    returns (files: seq<OutputFile>, truncated: bool, interrupted: bool)
    requires recordSize > 0
    requires AllWellFormed(entries) && trailer >= BLOCK
    requires Flatten(chunks) == Archive(entries, trailer)
    ensures interrupted ==> timed && truncated
    ensures Collected(entries, trailer, byteBudget, interrupted, files, truncated)
    ensures |Archive(entries, trailer)| <= byteBudget && |Deliver(entries)| <= 64 && !interrupted ==>
              files == Deliver(entries) && !truncated
    ensures forall file | file in files :: exists e | e in entries :: Carries(e, file)
    ensures |files| <= 64 && TotalSize(files) <= byteBudget
  {
    var reader := new BudgetedReader(chunks, byteBudget, timed);
    var tar := new TarStream(reader, recordSize);
    var archive := new TarFile(tar, entries, trailer);
    files, truncated, interrupted := [], false, false;
    var more := true;
    while more
      invariant archive.tar == tar && tar.reader == reader
      invariant fresh(archive) && fresh(tar) && fresh(reader)
      invariant archive.entries == entries && archive.trailer == trailer
      invariant reader.chunks == chunks && reader.budget == byteBudget && reader.timed == timed
      invariant more ==> archive.Valid() && Parsed(entries, byteBudget, archive.passed, files)
      invariant interrupted ==> timed && truncated
      invariant !more ==> Collected(entries, trailer, byteBudget, interrupted, files, truncated || reader.exhausted)
      decreases more, |entries| - archive.passed
    {
      hide Collected, Admitted, Deliver, Parsed, Prefix, DataEnd, TotalSize;
      more, files, truncated, interrupted := CollectNext(archive, files);
    }
    truncated := truncated || reader.exhausted;
    AdmittedFits(entries, byteBudget, files);
    AdmittedAreCarried(entries, byteBudget, files);
  }

  lemma AdmittedAreCarried(entries: seq<Entry>, budget: nat, files: seq<OutputFile>)
    requires files <= Admitted(entries, budget)
    ensures forall file | file in files :: exists e | e in entries :: Carries(e, file)
  {
    var m := WholeEntries(entries, budget);
    DeliverMonotone(entries, m, m);
    DeliveredAreCarried(entries);
    hide Deliver, Carries, WholeEntries;
    forall file | file in files ensures file in Deliver(entries) {
      assert file in Deliver(entries[..m]);
    }
  }

  lemma AdmittedFits(entries: seq<Entry>, budget: nat, files: seq<OutputFile>)
    requires files <= Admitted(entries, budget)
    ensures |files| <= MAX_OUTPUT_MEMBERS && TotalSize(files) <= budget
  {
    var whole := Deliver(entries[..WholeEntries(entries, budget)]);
    WholeFilesFit(entries, budget);
    TotalSizePrefix(whole, |files|);
    assert files == Prefix(whole, |files|);
  }

  /** The whole collection; a daemon that does not serve the archive makes it empty and partial. */
  method CollectOutputs(
    served: bool, chunks: seq<Bytes>, byteBudget: nat, timed: bool, recordSize: nat,
    ghost entries: seq<Entry>, ghost trailer: nat)
    returns (files: seq<OutputFile>, truncated: bool, interrupted: bool)
    requires recordSize > 0
    requires AllWellFormed(entries) && trailer >= BLOCK
    requires Flatten(chunks) == Archive(entries, trailer)
    ensures interrupted ==> served && timed && truncated
    ensures if served then Collected(entries, trailer, byteBudget, interrupted, files, truncated)
            else files == [] && truncated
    ensures forall file | file in files :: exists e | e in entries :: Carries(e, file)
    ensures |files| <= 64 && TotalSize(files) <= byteBudget
  {
    if !served {
      return [], true, false;
    }
    files, truncated, interrupted := CollectMembers(chunks, byteBudget, timed, recordSize, entries, trailer);
  }
}
