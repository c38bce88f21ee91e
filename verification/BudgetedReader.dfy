/** The runner's budgeted view of a chunked archive stream. */
module BudgetedReaders {
  import opened ByteStreams

  /** `read` returns bytes, or the execution deadline interrupts it. */
  datatype ReadResult = Data(bytes: Bytes) | DeadlineExpired

  /**
   * A file view over a chunk stream that stops at a hard byte budget. The fields below `timed` are
   * the object's own; `delivered` is the ghost history of everything `Read` has returned.
   */
  class BudgetedReader {
    const chunks: seq<Bytes>
    const budget: nat
    const timed: bool          // an execution deadline is in force
    var next: nat              // chunks already pulled from the source
    var buffer: Bytes
    var remaining: nat
    var exhausted: bool
    ghost var delivered: Bytes

    /** Everything this reader can ever deliver, however the stream is chunked. */
    ghost function Kept(): Bytes {
      Prefix(Flatten(chunks), budget)
    }

    /** The whole stream is longer than the budget, so some of it must be dropped. */
    ghost predicate OverBudget() {
      |Flatten(chunks)| > budget
    }

    ghost predicate Valid()
      reads this
    {
      && next <= |chunks|
      && delivered + buffer <= Kept()
      && |delivered + buffer| + remaining == budget
      && (exhausted ==> OverBudget() && remaining == 0)
      && (!exhausted ==> delivered + buffer == Flatten(chunks[..next]))
    }

    constructor (chunks: seq<Bytes>, budget: int, timed: bool)
      ensures Valid() && fresh(this)
      ensures this.chunks == chunks && this.timed == timed
      ensures this.budget == if budget < 0 then 0 else budget
      ensures delivered == [] && !exhausted
    {
      var allowed: nat := if budget < 0 then 0 else budget;
      this.chunks, this.budget, this.timed := chunks, allowed, timed;
      next, buffer, remaining, exhausted := 0, [], allowed, false;
      delivered := [];
      new;
      assert chunks[..0] == [];
    }

    /**
     * Reads `size` bytes, or everything when `size` is negative. The bytes depend only on the
     * budget, the whole stream and how much was read before: neither the chunk boundaries nor the
     * sizes of earlier reads show. A short read is the end of what the budget keeps, and only then
     * is `exhausted` guaranteed to tell whether data was dropped.
     */
    method Read(size: int) returns (r: ReadResult)
      requires Valid()
      modifies this
      ensures Valid()
      ensures !timed ==> r.Data?
      ensures r.DeadlineExpired? ==> delivered == old(delivered)
      ensures r.Data? ==> r.bytes == Window(Kept(), |old(delivered)|, size)
      ensures r.Data? ==> delivered == old(delivered) + r.bytes
      ensures r.Data? && (size < 0 || |r.bytes| < size) ==>
                delivered == Kept() && (exhausted <==> OverBudget())
      ensures |buffer| <= budget - |delivered|
      ensures old(exhausted) ==> exhausted && next == old(next)
    {
      var filled := Fill(size);
      if !filled {
        return DeadlineExpired;
      }
      var count := if size < 0 || |buffer| < size then |buffer| else size;
      r := Data(buffer[..count]);
      Served(delivered, buffer, Kept(), size);
      delivered := delivered + buffer[..count];
      buffer := buffer[count..];
    }

    /** The pulling loop of `Read`: fills the buffer up to `size` bytes, or as far as it can go. */
    method Fill(size: int) returns (filled: bool)
      requires Valid()
      modifies this
      ensures Valid() && delivered == old(delivered)
      ensures !timed ==> filled
      ensures filled && (size < 0 || |buffer| < size) ==>
                delivered + buffer == Kept() && (exhausted <==> OverBudget())
      ensures old(exhausted) ==> exhausted && next == old(next)
    {
      hide Prefix, Flatten;
      while !exhausted && (size < 0 || |buffer| < size)
        invariant Valid() && delivered == old(delivered)
        invariant old(exhausted) ==> exhausted && next == old(next)
        decreases |chunks| - next
      {
        var late: bool := *;
        if timed && late {
          return false;
        }
        if next == |chunks| {
          break;
        }
        var chunk := chunks[next];
        Pulled(next, delivered, buffer);
        next := next + 1;
        if |chunk| == 0 {
          continue;
        }
        if |chunk| > remaining {
          exhausted := true;
          if remaining > 0 {
            buffer := buffer + chunk[..remaining];
            remaining := 0;
          }
          break;
        }
        remaining := remaining - |chunk|;
        buffer := buffer + chunk;
      }
      AtEnd();
      filled := true;
    }

    /** What pulling chunk `k` makes of the bytes held so far, `served` ones and `held` ones. */
    lemma Pulled(k: nat, served: Bytes, held: Bytes)
      requires k < |chunks|
      requires served + held == Flatten(chunks[..k]) && |served + held| <= budget
      ensures |served + held| + |chunks[k]| <= budget ==>
                && served + (held + chunks[k]) == Flatten(chunks[..k + 1])
                && served + (held + chunks[k]) <= Kept()
      ensures |served + held| + |chunks[k]| > budget ==>
                && OverBudget()
                && served + (held + chunks[k][..budget - |served + held|]) == Kept()
                && (|served + held| == budget ==> served + held == Kept())
      ensures chunks[k] == [] ==> served + held == Flatten(chunks[..k + 1])
    {
      FlattenNext(chunks, k);
      FlattenSplit(chunks, k + 1);
      assert served + (held + chunks[k]) == Flatten(chunks[..k + 1]);
    }

    /** Once the source has ended without the budget running out, everything is held. */
    lemma AtEnd()
      requires Valid()
      ensures exhausted || next == |chunks| ==> delivered + buffer == Kept() && (exhausted <==> OverBudget())
    {
      assert chunks[..|chunks|] == chunks;
    }
  }

  /** Serving the first held bytes of `kept` serves its next window. */
  lemma Served(served: Bytes, held: Bytes, kept: Bytes, size: int)
    requires served + held <= kept
    requires size < 0 || |held| < size ==> served + held == kept
    ensures var count := if size < 0 || |held| < size then |held| else size;
            && (served + held[..count]) + held[count..] == served + held
            && held[..count] == Window(kept, |served|, size)
  {
    assert kept[|served|..][..|held|] == held;
  }
}
