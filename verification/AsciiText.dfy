/** The Python string operations the models share, on ASCII text. */
module AsciiText {
  import opened Sequences

  predicate Blank(c: char) {
    c == ' ' || '\t' <= c <= '\r' || '\U{1C}' <= c <= '\U{1F}'
  }

  function TrimLeft(s: string): string {
    if s != [] && Blank(s[0]) then TrimLeft(s[1..]) else s
  }

  function TrimRight(s: string): string {
    if s != [] && Blank(s[|s| - 1]) then TrimRight(s[..|s| - 1]) else s
  }

  /** `str.strip()`. */
  function Strip(s: string): string {
    TrimRight(TrimLeft(s))
  }

  /** The parts before and after the first `c`, and whether there is one: `str.partition`. */
  function Partition(s: string, c: char): (r: (string, bool, string))
    ensures c !in r.0 && r.1 == (c in s)
    ensures if r.1 then s == r.0 + [c] + r.2 else s == r.0 && r.2 == ""
  {
    if s == "" then ("", false, "")
    else if s[0] == c then ("", true, s[1..])
    else
      var rest := Partition(s[1..], c);
      ([s[0]] + rest.0, rest.1, rest.2)
  }

  /** The parts up to the last `c`, that one included, and after it: `str.rpartition`. */
  function LastPartition(s: string, c: char): (r: (string, string))
    ensures s == r.0 + r.1 && c !in r.1
    ensures r.0 == "" || r.0[|r.0| - 1] == c
  {
    if s == "" || s[|s| - 1] == c then (s, "")
    else
      var rest := LastPartition(s[..|s| - 1], c);
      (rest.0, rest.1 + [s[|s| - 1]])
  }

  /** `separator.join(parts)`. */
  function Join(parts: seq<string>, separator: string): string {
    if parts == [] then "" else if |parts| == 1 then parts[0] else parts[0] + separator + Join(parts[1..], separator)
  }

  /** The first `c` is where a part without `c` ends. */
  lemma {:induction false} PartitionOf(before: string, c: char, after: string)
    requires c !in before
    ensures Partition(before + [c] + after, c) == (before, true, after)
    ensures Partition(before, c) == (before, false, "")
  {
    var s := before + [c] + after;
    if before != "" {
      PartitionOf(before[1..], c, after);
      assert s[0] == before[0] && s[1..] == before[1..] + [c] + after;
      assert before == [before[0]] + before[1..];
    } else {
      assert s == [c] + after;
      assert s[1..] == after;
    }
  }

  lemma LastPartitionStep(s: string, last: char, c: char)
    requires last != c
    ensures var rest := LastPartition(s, c); LastPartition(s + [last], c) == (rest.0, rest.1 + [last])
  {
    assert (s + [last])[..|s|] == s;
  }

  /** The last `c` is where a part without `c` starts. */
  lemma {:induction false} LastPartitionOf(upto: string, c: char, rest: string)
    requires c !in rest && (upto == "" || upto[|upto| - 1] == c)
    ensures LastPartition(upto + rest, c) == (upto, rest)
  {
    if rest == "" {
      assert upto + rest == upto;
    } else {
      hide LastPartition;
      var n := |rest| - 1;
      LastPartitionOf(upto, c, rest[..n]);
      assert rest == rest[..n] + [rest[n]];
      LastPartitionStep(upto + rest[..n], rest[n], c);
      Associative(upto, rest[..n], [rest[n]]);
    }
  }

  predicate AllBlank(s: string) {
    forall c | c in s :: Blank(c)
  }

  /** No blank at either end. */
  predicate Bare(s: string) {
    s != "" ==> !Blank(s[0]) && !Blank(s[|s| - 1])
  }

  lemma {:induction false} TrimsLeft(s: string) returns (left: string)
    ensures s == left + TrimLeft(s) && AllBlank(left)
    ensures TrimLeft(s) != "" ==> !Blank(TrimLeft(s)[0])
  {
    left := "";
    if s != "" && Blank(s[0]) {
      var rest := TrimsLeft(s[1..]);
      left := [s[0]] + rest;
    }
  }

  lemma {:induction false} TrimsRight(s: string) returns (right: string)
    ensures s == TrimRight(s) + right && AllBlank(right) && TrimRight(s) <= s
    ensures TrimRight(s) != "" ==> !Blank(TrimRight(s)[|TrimRight(s)| - 1])
  {
    right := "";
    if s != "" && Blank(s[|s| - 1]) {
      var n := |s| - 1;
      var rest := TrimsRight(s[..n]);
      right := rest + [s[n]];
      assert s == s[..n] + [s[n]];
    }
  }

  /** Stripping takes blanks from both ends, all of them and nothing else. */
  lemma StripsBlanks(s: string) returns (left: string, right: string)
    ensures s == left + Strip(s) + right && AllBlank(left) && AllBlank(right) && Bare(Strip(s))
  {
    left := TrimsLeft(s);
    right := TrimsRight(TrimLeft(s));
    hide TrimLeft, TrimRight;
  }

  /** Text with no blank at either end is its own stripped form. */
  lemma StripKeeps(s: string)
    requires Bare(s)
    ensures Strip(s) == s
  {
  }
}
