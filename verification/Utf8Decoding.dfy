/**
 * UTF-8 decoding with replacement, as CPython's incremental decoder does it: RFC 3629 section 3 for
 * the well-formed sequences, and one U+FFFD for each maximal subpart of an ill-formed one
 * (Unicode, section 3.9).
 */
module Utf8Decoding {
  import opened ByteStreams
  import opened Sequences

  const REPLACEMENT: char := '\U{FFFD}'

  /** What the head of a byte sequence is. `More` waits for the bytes the sequence still needs. */
  datatype Head = Scalar(c: char, used: nat) | Bad(used: nat) | More

  predicate Continuation(b: Byte) {
    0x80 <= b <= 0xBF
  }

  /** The length of the sequence a lead byte announces; 0 when no sequence starts with it. */
  function SequenceLength(lead: Byte): (n: nat)
    ensures n <= 4
  {
    if lead <= 0x7F then 1
    else if 0xC2 <= lead <= 0xDF then 2
    else if 0xE0 <= lead <= 0xEF then 3
    else if 0xF0 <= lead <= 0xF4 then 4
    else 0
  }

  /** The second bytes a lead byte allows: no overlong form, no surrogate, nothing above U+10FFFF. */
  predicate SecondAllowed(lead: Byte, second: Byte) {
    && Continuation(second)
    && (lead == 0xE0 ==> 0xA0 <= second)
    && (lead == 0xED ==> second <= 0x9F)
    && (lead == 0xF0 ==> 0x90 <= second)
    && (lead == 0xF4 ==> second <= 0x8F)
  }

  /** Every byte of `s` may stand where it does in a sequence that starts with `s[0]`. */
  predicate Plausible(s: Bytes)
    requires s != []
  {
    && |s| <= SequenceLength(s[0])
    && (|s| >= 2 ==> SecondAllowed(s[0], s[1]))
    && (forall i | 2 <= i < |s| :: Continuation(s[i]))
  }

  /** A well-formed sequence of Unicode, table 3-7. */
  predicate Complete(s: Bytes) {
    s != [] && Plausible(s) && |s| == SequenceLength(s[0])
  }

  function CodePoint(s: Bytes): int
    requires Complete(s)
  {
    var lead: int := s[0];
    match |s|
    case 1 => lead
    case 2 => (lead - 0xC0) * 0x40 + Low(s[1])
    case 3 => (lead - 0xE0) * 0x1000 + Low(s[1]) * 0x40 + Low(s[2])
    case _ => (lead - 0xF0) * 0x40000 + Low(s[1]) * 0x1000 + Low(s[2]) * 0x40 + Low(s[3])
  }

  /** The six payload bits of a continuation byte. */
  function Low(b: Byte): int {
    b - 0x80
  }

  function CharOf(s: Bytes): char
    requires Complete(s)
  {
    CodePoint(s) as char
  }

  /** The head of `s`, read byte by byte. `final` says that no more bytes will come. */
  function HeadOf(s: Bytes, final: bool): (h: Head)
    requires s != []
    ensures h != More ==> 1 <= h.used <= |s|
  {
    var n := SequenceLength(s[0]);
    if n == 0 then Bad(1)
    else if n == 1 then Scalar(CharOf(s[..1]), 1)
    else if |s| == 1 then (if final then Bad(1) else More)
    else if !SecondAllowed(s[0], s[1]) then Bad(1)
    else if n == 2 then Scalar(CharOf(s[..2]), 2)
    else if |s| == 2 then (if final then Bad(2) else More)
    else if !Continuation(s[2]) then Bad(2)
    else if n == 3 then Scalar(CharOf(s[..3]), 3)
    else if |s| == 3 then (if final then Bad(3) else More)
    else if !Continuation(s[3]) then Bad(3)
    else Scalar(CharOf(s[..4]), 4)
  }

  /** The character a head stands for. */
  function Symbol(head: Head): char
    requires head != More
  {
    match head
    case Scalar(c, _) => c
    case Bad(_) => REPLACEMENT
  }

  /** One call of the decoder: the text it produces and how many bytes it consumes for it. */
  function Decode(s: Bytes, final: bool): (r: (string, nat))
    ensures r.1 <= |s| && (final ==> r.1 == |s|)
    decreases |s|
  {
    if s == [] then ([], 0)
    else
      var head := HeadOf(s, final);
      if head == More then ([], 0)
      else
        var rest := Decode(s[head.used..], final);
        ([Symbol(head)] + rest.0, head.used + rest.1)
  }

  /** Decoding a whole stream at once. */
  function Text(s: Bytes): string {
    Decode(s, true).0
  }

  /** `s` can be continued to a well-formed sequence, or is one. */
  ghost predicate Begins(s: Bytes) {
    exists rest: Bytes :: Complete(s + rest)
  }

  lemma {:induction false} PlausibleBegins(s: Bytes)
    requires s != []
    ensures Plausible(s) <==> Begins(s)
  {
    if Plausible(s) {
      var filler: Byte := if s[0] == 0xED || s[0] == 0xF4 then 0x80 else 0xBF;
      var rest: Bytes := seq(SequenceLength(s[0]) - |s|, _ => filler);
      assert Complete(s + rest);
    }
    if Begins(s) {
      var rest: Bytes :| Complete(s + rest);
      forall i | 0 <= i < |s| ensures (s + rest)[i] == s[i] {}
      assert forall i | 2 <= i < |s| :: Continuation((s + rest)[i]);
    }
  }

  /**
   * The head follows the standard: a scalar is exactly a well-formed sequence; a bad head is the
   * longest start of the bytes that could have become one, or one byte when none could; and the
   * decoder waits exactly when all the bytes it has could still become one.
   */
  lemma HeadIsMaximalSubpart(s: Bytes, final: bool)
    requires s != []
    ensures var h := HeadOf(s, final);
            match h
            case Scalar(c, n) => 1 <= n <= |s| && Complete(s[..n]) && c == CharOf(s[..n])
            case Bad(n) =>
              && 1 <= n <= |s|
              && (forall k | 1 <= k <= |s| :: !Complete(s[..k]))
              && (Begins(s[..n]) || n == 1)
              && (if n < |s| then !Begins(s[..n + 1]) else (final || !Begins(s)))
            case More => !final && Begins(s) && forall k | 1 <= k <= |s| :: !Complete(s[..k])
  {
    forall k | 1 <= k <= |s| ensures Begins(s[..k]) <==> Plausible(s[..k]) {
      PlausibleBegins(s[..k]);
    }
    assert s[..|s|] == s;
  }

  /** A head that is not waiting does not depend on the bytes after it. */
  lemma HeadStable(a: Bytes, b: Bytes, final: bool)
    requires a != []
    ensures HeadOf(a, false) != More ==> HeadOf(a + b, final) == HeadOf(a, false)
  {
    var s := a + b;
    assert s[0] == a[0];
    forall k | 1 <= k <= |a| ensures s[..k] == a[..k] {}
    forall k | 0 <= k < |a| ensures s[k] == a[k] {}
  }

  /** One step of the decoder, with more bytes behind the ones it needed. */
  lemma DecodeStep(a: Bytes, b: Bytes, final: bool)
    requires a != [] && HeadOf(a, false) != More
    ensures var head := HeadOf(a, false); var rest := Decode(a[head.used..] + b, final);
            Decode(a + b, final) == ([Symbol(head)] + rest.0, head.used + rest.1)
  {
    HeadStable(a, b, final);
    hide HeadOf;
    var head := HeadOf(a, false);
    assert (a + b)[head.used..] == a[head.used..] + b;
  }

  /**
   * Chunking does not show: decoding `a`, keeping the bytes it left unconsumed and decoding them
   * with `b` gives the text and the consumption of decoding `a + b`.
   */
  lemma {:induction false} DecodeSplit(a: Bytes, b: Bytes, final: bool)
    ensures var first := Decode(a, false); var second := Decode(a[first.1..] + b, final);
            Decode(a + b, final) == (first.0 + second.0, first.1 + second.1)
    decreases |a|
  {
    hide *;
    if a == [] || HeadOf(a, false) == More {
      NothingDecoded(a, b, final);
    } else {
      DecodeSplit(a[HeadOf(a, false).used..], b, final);
      SplitBehindHead(a, b, final);
    }
  }

  lemma SplitBehindHead(a: Bytes, b: Bytes, final: bool)
    requires a != [] && HeadOf(a, false) != More
    requires var tail := a[HeadOf(a, false).used..];
             var first := Decode(tail, false); var second := Decode(tail[first.1..] + b, final);
             Decode(tail + b, final) == (first.0 + second.0, first.1 + second.1)
    ensures var first := Decode(a, false); var second := Decode(a[first.1..] + b, final);
            Decode(a + b, final) == (first.0 + second.0, first.1 + second.1)
  {
    hide *;
    var head := HeadOf(a, false);
    var tail := a[head.used..];
    var inner := Decode(tail, false);
    var second := Decode(tail[inner.1..] + b, final);
    DecodeHead(a);
    DecodeStep(a, b, final);
    assert tail[inner.1..] == a[head.used + inner.1..];
    Associative([Symbol(head)], inner.0, second.0);
  }

  lemma DecodeHead(a: Bytes)
    requires a != [] && HeadOf(a, false) != More
    ensures var head := HeadOf(a, false); var rest := Decode(a[head.used..], false);
            Decode(a, false) == ([Symbol(head)] + rest.0, head.used + rest.1)
  {
    hide HeadOf;
  }

  lemma NothingDecoded(a: Bytes, b: Bytes, final: bool)
    requires a == [] || HeadOf(a, false) == More
    ensures var first := Decode(a, false); var second := Decode(a[first.1..] + b, final);
            Decode(a + b, final) == (first.0 + second.0, first.1 + second.1)
  {
    assert Decode(a, false) == ([], 0) && a[0..] == a;
    hide Decode;
    assert [] + Decode(a + b, final).0 == Decode(a + b, final).0;
  }

  /** The well-formed sequence of a character, RFC 3629 section 3. */
  function EncodeChar(c: char): (s: Bytes)
    ensures Complete(s) && CharOf(s) == c
  {
    var p := c as int;
    var p1, low0 := p / 0x40, p % 0x40;
    var p2, low1 := p1 / 0x40, p1 % 0x40;
    var p3, low2 := p2 / 0x40, p2 % 0x40;
    if p < 0x80 then [p]
    else if p < 0x800 then [0xC0 + p1, 0x80 + low0]
    else if p < 0x10000 then [0xE0 + p2, 0x80 + low1, 0x80 + low0]
    else [0xF0 + p3, 0x80 + low2, 0x80 + low1, 0x80 + low0]
  }

  function Encode(text: string): Bytes {
    if text == [] then [] else EncodeChar(text[0]) + Encode(text[1..])
  }

  lemma CompleteHead(s: Bytes, rest: Bytes, final: bool)
    requires Complete(s)
    ensures HeadOf(s + rest, final) == Scalar(CharOf(s), |s|)
  {
    var t := s + rest;
    assert t[..|s|] == s;
    forall k | 0 <= k < |s| ensures t[k] == s[k] {}
  }

  /** Well-formed text survives the trip through bytes; nothing of it is replaced. */
  lemma {:induction false} DecodeEncode(text: string)
    ensures Text(Encode(text)) == text
  {
    if text != [] {
      var s, rest := EncodeChar(text[0]), Encode(text[1..]);
      CompleteHead(s, rest, true);
      DecodeEncode(text[1..]);
      assert (s + rest)[|s|..] == rest;
    }
  }

  /** The length of a well-formed sequence follows from its scalar value. */
  lemma LengthByCodePoint(s: Bytes)
    requires Complete(s)
    ensures |s| == (if CodePoint(s) < 0x80 then 1 else if CodePoint(s) < 0x800 then 2
                    else if CodePoint(s) < 0x10000 then 3 else 4)
  {
    assert forall i | 1 <= i < |s| :: Continuation(s[i]);
  }

  /** A number is its quotient and remainder by 64. */
  lemma SameDigits(high: int, low: int, high': int, low': int)
    requires 0 <= low < 0x40 && 0 <= low' < 0x40 && high * 0x40 + low == high' * 0x40 + low'
    ensures high == high' && low == low'
  {
  }

  lemma CodePointsDiffer(a: Bytes, b: Bytes)
    requires Complete(a) && Complete(b) && CodePoint(a) == CodePoint(b)
    ensures a == b
  {
    LengthByCodePoint(a);
    LengthByCodePoint(b);
    assert forall i | 1 <= i < |a| :: Continuation(a[i]) && Continuation(b[i]);
    var n := |a|;
    hide Plausible, SecondAllowed;
    if n == 2 {
      SameDigits(a[0] - 0xC0, Low(a[1]), b[0] - 0xC0, Low(b[1]));
    } else if n == 3 {
      SameDigits((a[0] - 0xE0) * 0x40 + Low(a[1]), Low(a[2]), (b[0] - 0xE0) * 0x40 + Low(b[1]), Low(b[2]));
      SameDigits(a[0] - 0xE0, Low(a[1]), b[0] - 0xE0, Low(b[1]));
    } else if n == 4 {
      SameDigits(((a[0] - 0xF0) * 0x40 + Low(a[1])) * 0x40 + Low(a[2]), Low(a[3]),
                 ((b[0] - 0xF0) * 0x40 + Low(b[1])) * 0x40 + Low(b[2]), Low(b[3]));
      SameDigits((a[0] - 0xF0) * 0x40 + Low(a[1]), Low(a[2]), (b[0] - 0xF0) * 0x40 + Low(b[1]), Low(b[2]));
      SameDigits(a[0] - 0xF0, Low(a[1]), b[0] - 0xF0, Low(b[1]));
    }
  }

  /** No scalar value has a second well-formed sequence: no overlong forms, and no surrogates. */
  lemma CompleteIsEncoded(s: Bytes)
    requires Complete(s)
    ensures s == EncodeChar(CharOf(s))
  {
    var e := EncodeChar(CharOf(s));
    assert CharOf(e) == CharOf(s) && Complete(e);
    assert CodePoint(e) == CharOf(e) as int == CodePoint(s);
    hide Complete, EncodeChar;
    CodePointsDiffer(s, e);
  }

  /** Every leading byte of Unicode, table 3-7, and no other starts a sequence, of this length. */
  lemma LeadBytes(lead: Byte)
    ensures (exists s: Bytes :: Complete(s) && s[0] == lead) <==> lead < 0x80 || 0xC2 <= lead <= 0xF4
  {
    if lead < 0x80 {
      assert Complete([lead]);
    } else if SequenceLength(lead) > 0 {
      PlausibleBegins([lead]);
      var rest: Bytes :| Complete([lead] + rest);
      assert ([lead] + rest)[0] == lead;
    }
  }

  /**
   * The text of a byte sequence, character by character: that of a well-formed sequence, or U+FFFD for
   * the part that is none, and then the text of the rest.
   */
  lemma TextByHeads(s: Bytes)
    requires s != []
    ensures var h := HeadOf(s, true);
            && h != More && Text(s) != []
            && Text(s)[0] == (if Complete(s[..h.used]) then CharOf(s[..h.used]) else '\U{FFFD}')
            && Text(s)[1..] == Text(s[h.used..])
  {
    HeadIsMaximalSubpart(s, true);
    hide HeadOf, Complete, CharOf, Begins;
  }
}
