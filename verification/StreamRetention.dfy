/** Draining an execution's stdout and stderr through bounded buffers. */
module StreamRetention {
  import opened ByteStreams
  import opened Utf8Decoding
  import opened Sequences

  const MAX_STREAM_CHARS: nat := 262144
  const MARKER: string := "[output truncated at "
  const CLIP_NOTE: string := "\n" + MARKER + "262144 characters]"

  function Clip(text: string): string {
    if |text| <= MAX_STREAM_CHARS then text else text[..MAX_STREAM_CHARS] + CLIP_NOTE
  }

  predicate OccursAt(text: string, needle: string, i: nat) {
    i + |needle| <= |text| && text[i..i + |needle|] == needle
  }

  /** Python's `needle in text`. */
  predicate Contains(text: string, needle: string) {
    exists i | 0 <= i <= |text| :: OccursAt(text, needle, i)
  }

  /** One demultiplexed chunk; a side the chunk does not carry is empty. */
  datatype Chunk = Chunk(out: Bytes, err: Bytes)

  function OutBytes(chunks: seq<Chunk>): Bytes {
    if chunks == [] then [] else OutBytes(chunks[..|chunks| - 1]) + chunks[|chunks| - 1].out
  }

  function ErrBytes(chunks: seq<Chunk>): Bytes {
    if chunks == [] then [] else ErrBytes(chunks[..|chunks| - 1]) + chunks[|chunks| - 1].err
  }

  /** Each side's bytes are those its chunks carry, in order. */
  lemma {:induction false} SidesAppend(a: seq<Chunk>, b: seq<Chunk>)
    ensures OutBytes(a + b) == OutBytes(a) + OutBytes(b) && ErrBytes(a + b) == ErrBytes(a) + ErrBytes(b)
  {
    if b == [] {
      assert a + b == a;
    } else {
      var n := |b| - 1;
      var before, last := b[..n], b[n];
      SidesAppend(a, before);
      SidesNext(before, last);
      SidesNext(a + before, last);
      assert b == before + [last] && a + b == a + before + [last];
      hide *;
      Associative(OutBytes(a), OutBytes(before), last.out);
      Associative(ErrBytes(a), ErrBytes(before), last.err);
    }
  }

  lemma SidesNext(chunks: seq<Chunk>, last: Chunk)
    ensures OutBytes(chunks + [last]) == OutBytes(chunks) + last.out
    ensures ErrBytes(chunks + [last]) == ErrBytes(chunks) + last.err
  {
    assert (chunks + [last])[..|chunks|] == chunks;
  }

  lemma SidesOfOne(chunk: Chunk)
    ensures OutBytes([chunk]) == chunk.out && ErrBytes([chunk]) == chunk.err
  {
    assert [chunk][..0] == [];
  }

  /** One side of the stream: the retained text, the room left for it and the decoder's buffer. */
  class RetainedSide {
    var text: string
    var left: nat
    var undecoded: Bytes
    ghost var fed: Bytes     // every byte this side was given, dropped ones included

    /**
     * The text is the first `MAX_STREAM_CHARS + 1` characters of what `fed` decodes to so far. Once
     * it is full the decoder is no longer fed, so its buffer says nothing any more.
     */
    ghost predicate Valid()
      reads this
    {
      var decoded := Decode(fed, false);
      && |text| + left == MAX_STREAM_CHARS + 1
      && text == Prefix(decoded.0, MAX_STREAM_CHARS + 1)
      && (left > 0 ==> undecoded == fed[decoded.1..])
    }

    constructor ()
      ensures Valid() && fed == [] && fresh(this)
    {
      text, left, undecoded, fed := [], MAX_STREAM_CHARS + 1, [], [];
    }

    method Feed(chunk: Bytes)
      requires Valid()
      modifies this
      ensures Valid() && fed == old(fed) + chunk
      ensures |text| <= MAX_STREAM_CHARS + 1
      ensures old(left) == 0 ==> text == old(text)
    {
      Extended(fed, chunk, false);
      if chunk != [] && left > 0 {
        var decoded := Decode(undecoded + chunk, false);
        Cut(text, decoded.0, left);
        undecoded := (undecoded + chunk)[decoded.1..];
        var kept := Prefix(decoded.0, left);
        text := text + kept;
        left := left - |kept|;
      }
      if chunk == [] {
        assert fed + chunk == fed;
      }
      fed := fed + chunk;
    }

    /** Flushes the decoder: the retained text of the whole stream, whatever its chunks were. */
    method Finish() returns (retained: string)
      requires Valid()
      modifies this
      ensures fed == old(fed)
      ensures retained == Prefix(Text(fed), MAX_STREAM_CHARS + 1)
    {
      Extended(fed, [], true);
      assert fed + [] == fed && undecoded + [] == undecoded;
      var tail := Decode(undecoded, true).0;
      if left > 0 {
        Cut(text, tail, left);
      }
      retained := text + Prefix(tail, left);
      text := retained;
    }
  }

  /** What decoding more bytes adds to the text, and what it leaves undecoded. */
  lemma Extended(fed: Bytes, more: Bytes, final: bool)
    ensures var before := Decode(fed, false); var after := Decode(fed + more, final);
            var step := Decode(fed[before.1..] + more, final);
            && after.0 == before.0 + step.0
            && (fed + more)[after.1..] == (fed[before.1..] + more)[step.1..]
  {
    DecodeSplit(fed, more, final);
    hide Decode;
    var used := Decode(fed, false).1;
    var step := Decode(fed[used..] + more, final).1;
    DropTwice(fed, more, used, step);
  }

  lemma DropTwice(fed: Bytes, more: Bytes, used: nat, step: nat)
    requires used <= |fed| && step <= |fed| - used + |more|
    ensures (fed + more)[used + step..] == (fed[used..] + more)[step..]
  {
    assert (fed + more)[used..] == fed[used..] + more;
    assert (fed + more)[used..][step..] == (fed + more)[used + step..];
  }

  /** Cutting what is added to the room that is left is cutting the whole. */
  lemma Cut(kept: string, added: string, left: nat)
    ensures kept + Prefix(added, left) == Prefix(kept + added, |kept| + left)
  {
  }

  /**
   * Runs the drain loop over one execution's stream. Both texts depend only on the bytes of their
   * own side, not on how the daemon cut or interleaved them.
   */
  method Drain(stream: seq<Chunk>) returns (stdout: string, stderr: string)
    ensures stdout == Clip(Text(OutBytes(stream)))
    ensures stderr == Clip(Text(ErrBytes(stream)))
  {
    var out := new RetainedSide();
    var err := new RetainedSide();
    for i := 0 to |stream|
      invariant fresh(out) && fresh(err) && out != err
      invariant out.Valid() && err.Valid()
      invariant out.fed == OutBytes(stream[..i]) && err.fed == ErrBytes(stream[..i])
    {
      assert stream[..i + 1][..i] == stream[..i];
      out.Feed(stream[i].out);
      err.Feed(stream[i].err);
    }
    assert stream[..|stream|] == stream;
    var rawOut := out.Finish();
    var rawErr := err.Finish();
    ClipPrefix(Text(OutBytes(stream)));
    ClipPrefix(Text(ErrBytes(stream)));
    stdout, stderr := Clip(rawOut), Clip(rawErr);
  }

  /** The one lookahead character is enough to tell clipped from exactly full. */
  lemma ClipPrefix(text: string)
    ensures Clip(Prefix(text, MAX_STREAM_CHARS + 1)) == Clip(text)
  {
  }

  /**
   * Clipping changes a retained text exactly when the stream was over the cap, and then the text
   * says so. A stream that was not clipped says so only if the program itself printed the words.
   */
  lemma ClipTells(whole: string)
    ensures var retained := Prefix(whole, MAX_STREAM_CHARS + 1);
            && (Clip(retained) == retained <==> |whole| <= MAX_STREAM_CHARS)
            && (Contains(Clip(whole), MARKER) <==> |whole| > MAX_STREAM_CHARS || Contains(whole, MARKER))
            && |Clip(whole)| <= MAX_STREAM_CHARS + |CLIP_NOTE|
            && (if |whole| <= 262144 then Clip(whole) == whole
                else whole[..262144] < Clip(whole) && Clip(whole)[262144..] == CLIP_NOTE)
  {
    if |whole| > MAX_STREAM_CHARS {
      var clipped, at := Clip(whole), MAX_STREAM_CHARS + 1;
      assert CLIP_NOTE == "\n" + (MARKER + "262144 characters]");
      assert clipped[at..at + |MARKER|] == MARKER;
      assert OccursAt(clipped, MARKER, at);
    }
  }
}
