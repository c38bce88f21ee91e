/** Archives as the daemon streams them: ustar blocks, entries and the trailing zero blocks. */
module UstarArchives {
  import opened ByteStreams

  const BLOCK: nat := 512
  const SLASH: Byte := 47

  type Block = b: Bytes | |b| == BLOCK witness Zeros(BLOCK)

  /** One archive entry: its header block, whatever else that holds, and its data. */
  datatype Entry = Entry(header: Block, data: Bytes)

  /** One collected output file. */
  datatype OutputFile = OutputFile(filename: Bytes, data: Bytes)

  function UpToNul(field: Bytes): (text: Bytes)
    ensures 0 !in text && text <= field
    ensures text == field || field[|text|] == 0
  {
    if field == [] || field[0] == 0 then [] else [field[0]] + UpToNul(field[1..])
  }

  /** The value of a run of octal digits; blanks are skipped. */
  function Octal(digits: Bytes, value: nat): nat {
    if digits == [] then value
    else Octal(digits[1..], if 48 <= digits[0] < 56 then 8 * value + (digits[0] - 48) else value)
  }

  function NameField(header: Block): Bytes
  {
    UpToNul(header[..100])
  }

  function SizeField(header: Block): nat
  {
    Octal(UpToNul(header[124..136]), 0)
  }

  /** Regular files: type `0` or `7`, or the old NUL type unless the name marks a directory. */
  predicate IsRegular(header: Block)
  {
    var name := NameField(header);
    header[156] == 48 || header[156] == 55 || (header[156] == 0 && (name == [] || name[|name| - 1] != SLASH))
  }

  /**
   * The last component of a POSIX path, empty and `.` components not counted. `name` is the last
   * component seen so far and `open` the one being read.
   */
  function FinalComponent(path: Bytes, open: Bytes, name: Bytes): (final: Bytes)
    requires SLASH !in open && SLASH !in name
    ensures SLASH !in final
  {
    var closed := if open == [] || open == [46] then name else open;
    if path == [] then closed
    else if path[0] == SLASH then FinalComponent(path[1..], [], closed)
    else FinalComponent(path[1..], open + [path[0]], name)
  }

  function FileName(header: Block): (name: Bytes)
    ensures SLASH !in name
  {
    FinalComponent(NameField(header), [], [])
  }

  predicate AllZero(block: Bytes) {
    forall i | 0 <= i < |block| :: block[i] == 0
  }

  function Zeros(n: nat): Bytes {
    seq(n, _ => 0)
  }

  /** What fills the last block of the data. */
  function Padding(size: nat): (n: nat)
    ensures n < BLOCK
  {
    (BLOCK - size % BLOCK) % BLOCK
  }

  lemma PaddingFills(size: nat) returns (blocks: nat)
    ensures size + Padding(size) == BLOCK * blocks
  {
    var whole, rest := size / BLOCK, size % BLOCK;
    blocks := if rest == 0 then whole else whole + 1;
  }

  ghost predicate WellFormed(e: Entry) {
    && !AllZero(e.header)
    && |e.data| == if IsRegular(e.header) then SizeField(e.header) else 0
  }

  ghost predicate AllWellFormed(entries: seq<Entry>) {
    forall e | e in entries :: WellFormed(e)
  }

  function EncodeEntry(e: Entry): Bytes {
    e.header + e.data + Zeros(Padding(|e.data|))
  }

  function EncodeAll(entries: seq<Entry>): Bytes {
    if entries == [] then [] else EncodeEntry(entries[0]) + EncodeAll(entries[1..])
  }

  function Archive(entries: seq<Entry>, trailer: nat): Bytes {
    EncodeAll(entries) + Zeros(trailer)
  }

  /** Where entry `k` starts. */
  function Start(entries: seq<Entry>, k: nat): nat
    requires k <= |entries|
  {
    |EncodeAll(entries[..k])|
  }

  /** Where the data of entry `k` ends, its padding not counted. */
  function DataEnd(entries: seq<Entry>, k: nat): nat
    requires k < |entries|
  {
    Start(entries, k) + BLOCK + |entries[k].data|
  }

  /** The output file an entry carries, if it is a regular member. */
  function Output(e: Entry): seq<OutputFile> {
    if IsRegular(e.header) then [OutputFile(FileName(e.header), e.data)] else []
  }

  /** The output files an archive holds, in order. */
  function Deliver(entries: seq<Entry>): seq<OutputFile> {
    if entries == [] then [] else Output(entries[0]) + Deliver(entries[1..])
  }

  /** How many leading entries lie, data included, within the first `budget` bytes. */
  function WholeEntries(entries: seq<Entry>, budget: nat): (m: nat)
    ensures m <= |entries|
    ensures forall k | 0 <= k < m :: DataEnd(entries, k) <= budget
    ensures m < |entries| ==> DataEnd(entries, m) > budget
  {
    WholeFrom(entries, budget, 0)
  }

  function WholeFrom(entries: seq<Entry>, budget: nat, k: nat): (m: nat)
    requires k <= |entries|
    requires forall i | 0 <= i < k :: DataEnd(entries, i) <= budget
    ensures k <= m <= |entries|
    ensures forall i | 0 <= i < m :: DataEnd(entries, i) <= budget
    ensures m < |entries| ==> DataEnd(entries, m) > budget
    decreases |entries| - k
  {
    if k == |entries| || DataEnd(entries, k) > budget then k else WholeFrom(entries, budget, k + 1)
  }

  lemma {:induction false} EncodeSplit(entries: seq<Entry>, k: nat)
    requires k <= |entries|
    ensures EncodeAll(entries) == EncodeAll(entries[..k]) + EncodeAll(entries[k..])
  {
    if k > 0 {
      EncodeSplit(entries[1..], k - 1);
      assert entries[..k][1..] == entries[1..][..k - 1];
      assert entries[1..][k - 1..] == entries[k..];
    } else {
      assert entries[0..] == entries;
    }
  }

  lemma {:induction false} DeliverSplit(entries: seq<Entry>, k: nat)
    requires k <= |entries|
    ensures Deliver(entries) == Deliver(entries[..k]) + Deliver(entries[k..])
  {
    if k > 0 {
      DeliverSplit(entries[1..], k - 1);
      assert entries[..k][1..] == entries[1..][..k - 1];
      assert entries[1..][k - 1..] == entries[k..];
    } else {
      assert entries[0..] == entries;
    }
  }

  /** What lies behind a prefix, part by part. */
  lemma PartsAt(a: Bytes, before: Bytes, first: Bytes, second: Bytes, rest: Bytes)
    requires a == before + (first + (second + rest))
    ensures |before| + |first| + |second| <= |a|
    ensures a[|before|..|before| + |first|] == first
    ensures a[|before| + |first|..|before| + |first| + |second|] == second
  {
    var n, m := |before|, |before| + |first|;
    assert a[n..] == first + (second + rest);
    assert a[m..] == second + rest;
    assert a[n..][..|first|] == a[n..m] && a[m..][..|second|] == a[m..m + |second|];
  }

  lemma EncodeOne(e: Entry)
    ensures EncodeAll([e]) == EncodeEntry(e)
  {
    assert [e][1..] == [] && EncodeAll([]) == [];
    hide EncodeEntry;
    assert EncodeEntry(e) + [] == EncodeEntry(e);
  }

  lemma EncodeFrom(entries: seq<Entry>, k: nat)
    requires k < |entries|
    ensures EncodeAll(entries[k..]) == EncodeEntry(entries[k]) + EncodeAll(entries[k + 1..])
  {
    assert entries[k..][0] == entries[k] && entries[k..][1..] == entries[k + 1..];
    hide EncodeEntry;
  }

  lemma EncodeUpTo(entries: seq<Entry>, k: nat)
    requires k < |entries|
    ensures EncodeAll(entries[..k + 1]) == EncodeAll(entries[..k]) + EncodeEntry(entries[k])
  {
    var upto := entries[..k + 1];
    assert upto[..k] == entries[..k] && upto[k..] == [entries[k]];
    hide *;
    EncodeSplit(upto, k);
    EncodeOne(entries[k]);
  }

  lemma EncodeAt(entries: seq<Entry>, k: nat)
    requires k < |entries|
    ensures EncodeAll(entries[..k + 1]) == EncodeAll(entries[..k]) + EncodeEntry(entries[k])
    ensures EncodeAll(entries) == EncodeAll(entries[..k]) + (EncodeEntry(entries[k]) + EncodeAll(entries[k + 1..]))
  {
    hide *;
    EncodeUpTo(entries, k);
    EncodeSplit(entries, k);
    EncodeFrom(entries, k);
  }

  lemma EntryThen(e: Entry, before: Bytes, rest: Bytes, trailer: Bytes)
    ensures before + (EncodeEntry(e) + rest) + trailer
            == before + (e.header + (e.data + (Zeros(Padding(|e.data|)) + rest + trailer)))
  {
    hide Zeros, Padding;
  }

  /** Entry `k` as it lies in the archive, and what follows it. */
  lemma EntryAt(entries: seq<Entry>, trailer: nat, k: nat)
    requires k < |entries|
    ensures var a := Archive(entries, trailer); var e := entries[k]; var s := Start(entries, k);
            && Start(entries, k + 1) == s + |EncodeEntry(e)| <= |a|
            && a[s..s + BLOCK] == e.header
            && a[s + BLOCK..DataEnd(entries, k)] == e.data
  {
    EncodeAt(entries, k);
    var e, before, rest := entries[k], EncodeAll(entries[..k]), EncodeAll(entries[k + 1..]);
    EntryThen(e, before, rest, Zeros(trailer));
    hide EncodeAll, Zeros, Padding, EncodeEntry;
    PartsAt(Archive(entries, trailer), before, e.header, e.data, Zeros(Padding(|e.data|)) + rest + Zeros(trailer));
  }

  /** The trailer starts where the last entry's block ends. */
  lemma TrailerAt(entries: seq<Entry>, trailer: nat)
    ensures var a := Archive(entries, trailer); var s := Start(entries, |entries|);
            s + trailer == |a| && a[s..] == Zeros(trailer)
  {
    assert entries[..|entries|] == entries;
  }

  lemma {:induction false} DeliverPush(entries: seq<Entry>, e: Entry)
    ensures Deliver(entries + [e]) == Deliver(entries) + Output(e)
  {
    hide Output;
    var all := entries + [e];
    if entries == [] {
      assert all == [e] && all[1..] == [];
      assert Deliver(all) == Output(e) + [];
    } else {
      DeliverPush(entries[1..], e);
      assert all[1..] == entries[1..] + [e];
      assert Output(entries[0]) + (Deliver(entries[1..]) + Output(e)) == Deliver(entries) + Output(e);
    }
  }

  lemma DeliverPrefix(entries: seq<Entry>, k: nat)
    requires k <= |entries|
    ensures Deliver(entries[..k]) <= Deliver(entries)
  {
    DeliverSplit(entries, k);
    hide *;
  }

  lemma DeliverOneMore(entries: seq<Entry>, k: nat)
    requires k < |entries|
    ensures Deliver(entries[..k + 1]) == Deliver(entries[..k]) + Output(entries[k])
  {
    DeliverPush(entries[..k], entries[k]);
    var upto := entries[..k] + [entries[k]];
    assert entries[..k + 1] == upto;
    hide *;
  }

  lemma DeliverNext(entries: seq<Entry>, k: nat)
    requires k < |entries|
    ensures Deliver(entries[..k + 1]) == Deliver(entries[..k]) + Output(entries[k])
    ensures Deliver(entries[..k + 1]) <= Deliver(entries)
  {
    hide *;
    DeliverOneMore(entries, k);
    DeliverPrefix(entries, k + 1);
  }

  function TotalSize(files: seq<OutputFile>): nat {
    if files == [] then 0 else |files[0].data| + TotalSize(files[1..])
  }

  /** The files of an archive never hold more bytes than the archive itself. */
  lemma {:induction false} DeliverFits(entries: seq<Entry>)
    ensures TotalSize(Deliver(entries)) <= |EncodeAll(entries)|
  {
    if entries != [] {
      DeliverFits(entries[1..]);
      TotalSizeAppend(Output(entries[0]), Deliver(entries[1..]));
    }
  }

  lemma TotalSizeOne(file: OutputFile)
    ensures TotalSize([file]) == |file.data| && TotalSize([]) == 0
  {
    assert [file][1..] == [];
  }

  lemma OutputFits(e: Entry)
    ensures TotalSize(Output(e)) <= |e.data|
  {
    if IsRegular(e.header) {
      var file := OutputFile(FileName(e.header), e.data);
      TotalSizeOne(file);
    }
  }

  lemma FilesFit(entries: seq<Entry>, k: nat)
    requires k < |entries|
    ensures TotalSize(Deliver(entries[..k + 1])) <= DataEnd(entries, k)
  {
    var e, before := entries[k], entries[..k];
    DeliverNext(entries, k);
    DeliverFits(before);
    OutputFits(e);
    TotalSizeAppend(Deliver(before), Output(e));
    hide Deliver, Output, TotalSize, EncodeAll;
  }

  /** The files whose entries are whole within `budget` bytes together hold at most `budget` bytes. */
  lemma WholeFilesFit(entries: seq<Entry>, budget: nat)
    ensures TotalSize(Deliver(entries[..WholeEntries(entries, budget)])) <= budget
  {
    var m := WholeEntries(entries, budget);
    if m > 0 {
      FilesFit(entries, m - 1);
      assert DataEnd(entries, m - 1) <= budget;
      hide *;
    }
  }

  lemma {:induction false} TotalSizeAppend(a: seq<OutputFile>, b: seq<OutputFile>)
    ensures TotalSize(a + b) == TotalSize(a) + TotalSize(b)
  {
    if a == [] {
      assert a + b == b;
    } else {
      TotalSizeAppend(a[1..], b);
      assert (a + b)[1..] == a[1..] + b;
    }
  }
}
