/** Regular grammars over ASCII text, as far as image references need them. */
module Grammar {

  datatype Regex =
    | Class(members: string)
    | Literal(text: string)
    | Cat(first: Regex, second: Regex)
    | Alt(left: Regex, right: Regex)
    | Repeat(item: Regex, least: nat, most: nat)
    | Star(item: Regex)

  /** `fullmatch`: the whole of `s` belongs to the language of `r`. */
  ghost predicate Matches(r: Regex, s: string)
    decreases r, |s|, 0
  {
    match r
    case Class(members) => |s| == 1 && s[0] in members
    case Literal(text) => s == text
    case Cat(first, second) => exists k | 0 <= k <= |s| :: Matches(first, s[..k]) && Matches(second, s[k..])
    case Alt(left, right) => Matches(left, s) || Matches(right, s)
    case Repeat(item, least, most) => MatchesTimes(item, s, least, most)
    case Star(item) => s == "" || exists k | 0 < k <= |s| :: Matches(item, s[..k]) && Matches(r, s[k..])
  }

  /** `s` is between `least` and `most` items in a row. */
  ghost predicate MatchesTimes(item: Regex, s: string, least: nat, most: nat)
    decreases item, |s|, most + 1
  {
    (s == "" && least == 0)
    || (most > 0 && exists k | 0 <= k <= |s| ::
          Matches(item, s[..k]) && MatchesTimes(item, s[k..], if least == 0 then 0 else least - 1, most - 1))
  }

  /** Some string of the language may hold `c`. */
  predicate Uses(r: Regex, c: char) {
    match r
    case Class(members) => c in members
    case Literal(text) => c in text
    case Cat(first, second) => Uses(first, c) || Uses(second, c)
    case Alt(left, right) => Uses(left, c) || Uses(right, c)
    case Repeat(item, _, _) => Uses(item, c)
    case Star(item) => Uses(item, c)
  }

  function Plus(item: Regex): (r: Regex)
    ensures forall c :: Uses(r, c) <==> Uses(item, c)
  {
    Cat(item, Star(item))
  }

  function Opt(item: Regex): (r: Regex)
    ensures forall c :: Uses(r, c) <==> Uses(item, c)
  {
    Repeat(item, 0, 1)
  }

  /** The empty string is not of the language; sound, not complete. */
  predicate NonEmpty(r: Regex) {
    match r
    case Class(_) => true
    case Literal(text) => text != ""
    case Cat(first, second) => NonEmpty(first) || NonEmpty(second)
    case Alt(left, right) => NonEmpty(left) && NonEmpty(right)
    case Repeat(item, least, _) => least > 0 && NonEmpty(item)
    case Star(_) => false
  }

  lemma CatParts(first: Regex, second: Regex, s: string) returns (k: nat)
    requires Matches(Cat(first, second), s)
    ensures k <= |s| && Matches(first, s[..k]) && Matches(second, s[k..])
  {
    k :| 0 <= k <= |s| && Matches(first, s[..k]) && Matches(second, s[k..]);
  }

  lemma CatMatches(first: Regex, second: Regex, s: string, k: nat)
    requires k <= |s| && Matches(first, s[..k]) && Matches(second, s[k..])
    ensures Matches(Cat(first, second), s)
  {
  }

  lemma StarParts(item: Regex, s: string) returns (k: nat)
    requires Matches(Star(item), s) && s != ""
    ensures 0 < k <= |s| && Matches(item, s[..k]) && Matches(Star(item), s[k..])
  {
    k :| 0 < k <= |s| && Matches(item, s[..k]) && Matches(Star(item), s[k..]);
  }

  lemma LiteralMatches(text: string, s: string)
    requires Matches(Literal(text), s)
    ensures s == text
  {
  }

  lemma OptMatches(item: Regex, s: string)
    requires Matches(Opt(item), s) && s != ""
    ensures Matches(item, s)
  {
    assert MatchesTimes(item, s, 0, 1);
    var k :| 0 <= k <= |s| && Matches(item, s[..k]) && MatchesTimes(item, s[k..], 0, 0);
    assert s[..k] == s;
  }

  /** A character of neither part of a string is not in it. */
  lemma InNeitherPart(s: string, k: nat, c: char)
    requires k <= |s| && c !in s[..k] && c !in s[k..]
    ensures c !in s
  {
    assert s == s[..k] + s[k..];
  }

  lemma {:induction false} MatchUses(r: Regex, s: string, c: char)
    requires Matches(r, s) && !Uses(r, c)
    ensures c !in s
    decreases r, |s|, 0
  {
    match r
    case Class(_) =>
    case Literal(_) =>
    case Alt(left, right) =>
      if Matches(left, s) { MatchUses(left, s, c); } else { MatchUses(right, s, c); }
    case Cat(first, second) =>
      var k :| 0 <= k <= |s| && Matches(first, s[..k]) && Matches(second, s[k..]);
      MatchUses(first, s[..k], c);
      MatchUses(second, s[k..], c);
      InNeitherPart(s, k, c);
    case Repeat(item, least, most) =>
      TimesUses(item, s, least, most, c);
    case Star(item) =>
      if s != "" {
        var k :| 0 < k <= |s| && Matches(item, s[..k]) && Matches(r, s[k..]);
        MatchUses(item, s[..k], c);
        MatchUses(r, s[k..], c);
        InNeitherPart(s, k, c);
      }
  }

  lemma {:induction false} TimesUses(item: Regex, s: string, least: nat, most: nat, c: char)
    requires MatchesTimes(item, s, least, most) && !Uses(item, c)
    ensures c !in s
    decreases item, |s|, most + 1
  {
    if !(s == "" && least == 0) {
      var fewer: nat := if least == 0 then 0 else least - 1;
      var k :| 0 <= k <= |s| && Matches(item, s[..k]) && MatchesTimes(item, s[k..], fewer, most - 1);
      MatchUses(item, s[..k], c);
      TimesUses(item, s[k..], fewer, most - 1, c);
      InNeitherPart(s, k, c);
    }
  }

  lemma {:induction false} MatchNonEmpty(r: Regex, s: string)
    requires Matches(r, s) && NonEmpty(r)
    ensures s != ""
    decreases r, 1
  {
    match r
    case Class(_) =>
    case Literal(_) =>
    case Alt(left, right) =>
      if Matches(left, s) { MatchNonEmpty(left, s); } else { MatchNonEmpty(right, s); }
    case Cat(first, second) =>
      var k :| 0 <= k <= |s| && Matches(first, s[..k]) && Matches(second, s[k..]);
      if NonEmpty(first) { MatchNonEmpty(first, s[..k]); } else { MatchNonEmpty(second, s[k..]); }
    case Repeat(item, least, most) =>
      TimesNonEmpty(item, s, least, most);
    case Star(_) =>
  }

  lemma TimesNonEmpty(item: Regex, s: string, least: nat, most: nat)
    requires MatchesTimes(item, s, least, most) && least > 0 && NonEmpty(item)
    ensures s != ""
    decreases item, 2
  {
    var k :| 0 <= k <= |s| && Matches(item, s[..k]) && MatchesTimes(item, s[k..], least - 1, most - 1);
    MatchNonEmpty(item, s[..k]);
  }
}
