/** The execution image's reference: its grammar, its printed form and the setting's validator. */
module ImageReferences {
  import opened Options
  import opened AsciiText
  import opened Grammar

  const LOWER: string := "abcdefghijklmnopqrstuvwxyz"
  const UPPER: string := "ABCDEFGHIJKLMNOPQRSTUVWXYZ"
  const DIGITS: string := "0123456789"
  const ALNUM: string := LOWER + UPPER + DIGITS

  const DOMAIN_COMPONENT: Regex :=
    Alt(Class(ALNUM), Cat(Class(ALNUM), Cat(Star(Class(ALNUM + "-")), Class(ALNUM))))
  const PORT: Regex := Cat(Literal(":"), Plus(Class(DIGITS)))
  const DOTTED: Regex := Cat(DOMAIN_COMPONENT, Plus(Cat(Literal("."), DOMAIN_COMPONENT)))
  const DOMAIN: Regex :=
    Alt(Cat(DOTTED, Opt(PORT)), Alt(Cat(DOMAIN_COMPONENT, PORT), Cat(Literal("localhost"), Opt(PORT))))
  const RULE: Regex := Alt(Literal("__"), Plus(Class("-")))
  const SEPARATOR: Regex := Alt(Class("._"), RULE)
  const RUN: Regex := Plus(Class(LOWER + DIGITS))
  const PATH_COMPONENT: Regex := Cat(RUN, Star(Cat(SEPARATOR, RUN)))
  const NEXT_COMPONENT: Regex := Cat(Literal("/"), PATH_COMPONENT)
  const PATH: Regex := Cat(PATH_COMPONENT, Star(NEXT_COMPONENT))
  const HOST: Regex := Cat(DOMAIN, Literal("/"))
  const NAME: Regex := Cat(Opt(HOST), PATH)
  const WORD: string := ALNUM + "_"
  const TAG: Regex := Cat(Class(WORD), Repeat(Class(WORD + ".-"), 0, 127))
  const DIGEST: Regex := Cat(Literal("sha256:"), Repeat(Class(DIGITS + "abcdef"), 64, 64))

  datatype Reference = Reference(name: string, tag: Option<string>, digest: Option<string>)

  ghost predicate WellFormed(r: Reference) {
    && Matches(NAME, r.name)
    && (r.tag.Some? ==> Matches(TAG, r.tag.value))
    && (r.digest.Some? ==> Matches(DIGEST, r.digest.value))
  }

  /** The reference cannot come to mean another image. */
  predicate Pinned(r: Reference) {
    r.digest.Some? || (r.tag.Some? && r.tag.value != "latest")
  }

  function Print(r: Reference): string {
    r.name
    + (if r.tag.Some? then ":" + r.tag.value else "")
    + (if r.digest.Some? then "@" + r.digest.value else "")
  }

  /** The validator's own split; an empty digest after `@` counts as none, an empty tag does not. */
  function Split(reference: string): Reference {
    var at := Partition(reference, '@');
    var slash := LastPartition(at.0, '/');
    var colon := Partition(slash.1, ':');
    Reference(
      slash.0 + colon.0,
      if colon.1 then Some(colon.2) else None,
      if at.2 != "" then Some(at.2) else None)
  }

  datatype Verdict =
    | Accepted(reference: string)
    | Empty
    | BadDigest
    | BadName
    | BadTag
    | Unpinned
    | Latest

  ghost function Validate(value: string): Verdict {
    var reference := Strip(value);
    if reference == "" then Empty
    else
      var parts := Split(reference);
      if parts.digest.Some? && !Matches(DIGEST, parts.digest.value) then BadDigest
      else if !Matches(NAME, parts.name) then BadName
      else if parts.tag.Some? && !Matches(TAG, parts.tag.value) then BadTag
      else if parts.digest.None? && (parts.tag.None? || parts.tag.value == "") then Unpinned
      else if parts.tag == Some("latest") && parts.digest.None? then Latest
      else Accepted(reference)
  }

  /** Characters no part of a reference holds: its own separators, and blanks. */
  predicate Foreign(c: char) {
    c == '@' || c == '/' || Blank(c)
  }

  lemma LowerLetters(c: char)
    ensures c in LOWER <==> 'a' <= c <= 'z'
  {
    if 'a' <= c <= 'z' {
      var i := c as int - 'a' as int;
      assert LOWER[i] as int == 'a' as int + i;
    }
  }

  lemma UpperLetters(c: char)
    ensures c in UPPER <==> 'A' <= c <= 'Z'
  {
    if 'A' <= c <= 'Z' {
      var i := c as int - 'A' as int;
      assert UPPER[i] as int == 'A' as int + i;
    }
  }

  lemma DigitLetters(c: char)
    ensures c in DIGITS <==> '0' <= c <= '9'
  {
    if '0' <= c <= '9' {
      var i := c as int - '0' as int;
      assert DIGITS[i] as int == '0' as int + i;
    }
  }

  lemma ClassLetters(c: char)
    requires Foreign(c) || c == ':'
    ensures c !in ALNUM && c !in ALNUM + "-" && c !in LOWER + DIGITS && c !in DIGITS
    ensures c !in WORD && c !in WORD + ".-" && c !in DIGITS + "abcdef"
  {
    LowerLetters(c);
    UpperLetters(c);
    DigitLetters(c);
    assert c !in ALNUM && c !in "abcdef" && c !in "-" && c !in "_" && c !in ".-";
  }

  lemma ComponentLetters(c: char)
    requires Foreign(c) || c == ':'
    ensures !Uses(PATH_COMPONENT, c) && !Uses(TAG, c) && !Uses(DOMAIN_COMPONENT, c)
  {
    ClassLetters(c);
    assert !Uses(Class(LOWER + DIGITS), c) && !Uses(RUN, c);
    assert !Uses(Class("-"), c) && !Uses(RULE, c) && !Uses(Class("._"), c) && !Uses(SEPARATOR, c);
    assert !Uses(Cat(SEPARATOR, RUN), c) && !Uses(Star(Cat(SEPARATOR, RUN)), c);
    assert !Uses(Class(WORD), c) && !Uses(Repeat(Class(WORD + ".-"), 0, 127), c);
    assert !Uses(Class(ALNUM), c) && !Uses(Star(Class(ALNUM + "-")), c);
    assert !Uses(Cat(Star(Class(ALNUM + "-")), Class(ALNUM)), c);
  }

  lemma NameLetters(c: char)
    requires Foreign(c) && c != '/'
    ensures !Uses(NAME, c) && !Uses(DIGEST, c)
  {
    ClassLetters(c);
    ComponentLetters(c);
    assert !Uses(Class(DIGITS + "abcdef"), c) && !Uses(Literal("sha256:"), c);
    assert !Uses(Class(DIGITS), c) && !Uses(Literal(":"), c) && !Uses(PORT, c);
    assert !Uses(Literal("."), c) && !Uses(Cat(Literal("."), DOMAIN_COMPONENT), c) && !Uses(DOTTED, c);
    assert !Uses(Literal("localhost"), c) && !Uses(Cat(Literal("localhost"), Opt(PORT)), c);
    assert !Uses(Cat(DOTTED, Opt(PORT)), c) && !Uses(Cat(DOMAIN_COMPONENT, PORT), c);
    assert !Uses(Alt(Cat(DOMAIN_COMPONENT, PORT), Cat(Literal("localhost"), Opt(PORT))), c);
    assert !Uses(DOMAIN, c) && !Uses(Literal("/"), c) && !Uses(HOST, c);
    assert !Uses(NEXT_COMPONENT, c) && !Uses(Star(NEXT_COMPONENT), c) && !Uses(PATH, c);
  }

  /** Nothing of a reference is empty. */
  lemma PartsNonEmpty()
    ensures NonEmpty(NAME) && NonEmpty(TAG) && NonEmpty(DIGEST)
  {
    assert NonEmpty(RUN) && NonEmpty(PATH_COMPONENT) && NonEmpty(PATH);
  }

  /** The last path component of a name is one by the grammar, so no colon is in it. */
  lemma {:induction false} PathTail(s: string, upto: string)
    requires Matches(PATH, s) && (upto == "" || upto[|upto| - 1] == '/')
    ensures Matches(PATH_COMPONENT, LastPartition(upto + s, '/').1)
    decreases |s|
  {
    hide Matches, Uses, LastPartition;
    var k := CatParts(PATH_COMPONENT, Star(NEXT_COMPONENT), s);
    ComponentLetters('/');
    MatchUses(PATH_COMPONENT, s[..k], '/');
    if s[k..] == "" {
      assert s[..k] == s;
      LastPartitionOf(upto, '/', s);
    } else {
      TailIsPath(s[k..]);
      var next := s[k..][1..];
      PathTail(next, upto + s[..k] + "/");
      assert upto + s == (upto + s[..k] + "/") + next;
    }
  }

  lemma WithoutFirst(s: string, k: nat)
    requires 1 <= k <= |s|
    ensures s[1..][..k - 1] == s[..k][1..] && s[1..][k - 1..] == s[k..] && s[..k][..1] == [s[0]]
  {
  }

  /** What follows a component, without its slash, is again a path. */
  lemma TailIsPath(s: string)
    requires s != "" && Matches(Star(NEXT_COMPONENT), s)
    ensures s[0] == '/' && Matches(PATH, s[1..])
  {
    hide Matches;
    var k := StarParts(NEXT_COMPONENT, s);
    var i := CatParts(Literal("/"), PATH_COMPONENT, s[..k]);
    LiteralMatches("/", s[..k][..i]);
    WithoutFirst(s, k);
    CatMatches(PATH_COMPONENT, Star(NEXT_COMPONENT), s[1..], k - 1);
  }

  /** Splitting a name at its last slash leaves a path component. */
  lemma NameTail(name: string)
    requires Matches(NAME, name)
    ensures Matches(PATH_COMPONENT, LastPartition(name, '/').1)
  {
    hide Matches;
    var k := CatParts(Opt(HOST), PATH, name);
    var upto := name[..k];
    if upto != "" {
      OptMatches(HOST, upto);
      HostEnds(upto);
    }
    PathTail(name[k..], upto);
    assert upto + name[k..] == name;
  }

  /** A registry host with its slash ends in that slash. */
  lemma HostEnds(s: string)
    requires Matches(HOST, s)
    ensures s != "" && s[|s| - 1] == '/'
  {
    hide Matches;
    var j := CatParts(DOMAIN, Literal("/"), s);
    LiteralMatches("/", s[j..]);
  }

  /** The printed name and tag. */
  function PrintTagged(r: Reference): string {
    r.name + (if r.tag.Some? then ":" + r.tag.value else "")
  }

  /** Nothing of a well-formed reference holds a blank, and only the digest follows an `@`. */
  lemma PrintLetters(r: Reference)
    requires WellFormed(r)
    ensures '@' !in PrintTagged(r) && r.name != ""
    ensures r.digest.Some? ==> r.digest.value != ""
    ensures forall c | c in Print(r) :: !Blank(c)
  {
    PartsNonEmpty();
    forall c | Foreign(c) && c != '/'
      ensures c !in PrintTagged(r) && (r.digest.Some? ==> c !in r.digest.value)
    {
      NameLetters(c);
      ComponentLetters(c);
      hide Matches, Uses;
      MatchUses(NAME, r.name, c);
      if r.tag.Some? { MatchUses(TAG, r.tag.value, c); }
      if r.digest.Some? { MatchUses(DIGEST, r.digest.value, c); }
    }
    hide Matches;
    MatchNonEmpty(NAME, r.name);
    if r.digest.Some? { MatchNonEmpty(DIGEST, r.digest.value); }
    assert Print(r) == PrintTagged(r) + if r.digest.Some? then "@" + r.digest.value else "";
  }

  /** The name and the tag are found again, whatever slashes and ports the name has. */
  lemma SplitTagged(r: Reference)
    requires WellFormed(r)
    ensures var slash := LastPartition(PrintTagged(r), '/'); var colon := Partition(slash.1, ':');
            && r.name == slash.0 + colon.0
            && r.tag == if colon.1 then Some(colon.2) else None
  {
    hide Matches, Uses;
    var name := LastPartition(r.name, '/');
    NameTail(r.name);
    ComponentLetters(':');
    ComponentLetters('/');
    MatchUses(PATH_COMPONENT, name.1, ':');
    if r.tag.Some? {
      MatchUses(TAG, r.tag.value, '/');
      var last := name.1 + ":" + r.tag.value;
      assert PrintTagged(r) == name.0 + last;
      LastPartitionOf(name.0, '/', last);
      PartitionOf(name.1, ':', r.tag.value);
    } else {
      assert PrintTagged(r) == r.name;
      PartitionOf(name.1, ':', "");
    }
  }

  /** The split of anything with the printed name and tag before its first `@`. */
  lemma SplitAfterAt(r: Reference, reference: string, digest: string)
    requires WellFormed(r)
    requires var at := Partition(reference, '@'); at.0 == PrintTagged(r) && at.2 == digest
    ensures Split(reference) == r.(digest := if digest != "" then Some(digest) else None)
  {
    SplitTagged(r);
    hide WellFormed, PrintTagged, Partition, LastPartition;
  }

  /** No blank is stripped off a printed reference. */
  lemma PrintStrips(r: Reference)
    requires WellFormed(r)
    ensures Print(r) != "" && Strip(Print(r)) == Print(r) && Strip(Print(r) + "@") == Print(r) + "@"
  {
    PrintLetters(r);
    var text := Print(r);
    assert text[..|r.name|] == r.name;
    hide Print, Strip, WellFormed;
    assert text[0] in text && text[|text| - 1] in text;
    StripKeeps(text);
    StripKeeps(text + "@");
  }

  /** Printing a well-formed reference loses nothing: the validator's split gives back its parts. */
  lemma SplitPrint(r: Reference)
    requires WellFormed(r)
    ensures Split(Print(r)) == r && Strip(Print(r)) == Print(r) != ""
    ensures r.digest.None? ==> Split(Print(r) + "@") == r && Strip(Print(r) + "@") == Print(r) + "@"
  {
    PrintStrips(r);
    PrintLetters(r);
    var tagged := PrintTagged(r);
    hide Split, Partition, Strip, WellFormed;
    if r.digest.Some? {
      assert Print(r) == tagged + ['@'] + r.digest.value;
      PartitionOf(tagged, '@', r.digest.value);
      SplitAfterAt(r, Print(r), r.digest.value);
    } else {
      assert Print(r) == tagged && Print(r) + "@" == tagged + ['@'] + "";
      PartitionOf(tagged, '@', "");
      SplitAfterAt(r, Print(r), "");
      SplitAfterAt(r, Print(r) + "@", "");
    }
  }

  /** `reference` is `r` printed, or `r` without a digest printed with a bare `@` after it. */
  predicate Denotes(reference: string, r: Reference) {
    reference == Print(r) || (r.digest.None? && reference == Print(r) + "@")
  }

  /** Whatever is split prints back, up to a bare `@`. */
  lemma SplitReprints(reference: string)
    ensures Denotes(reference, Split(reference))
  {
    hide Partition, LastPartition;
    var at := Partition(reference, '@');
    var slash := LastPartition(at.0, '/');
    var colon := Partition(slash.1, ':');
    assert at.0 == PrintTagged(Split(reference));
  }

  /**
   * The validator accepts a value exactly when it stands for a well-formed pinned reference; the
   * reference is the one its own split finds, and there is no other.
   */
  lemma AcceptsExactlyPinned(value: string)
    ensures Validate(value).Accepted? <==> exists r :: WellFormed(r) && Pinned(r) && Denotes(Strip(value), r)
    ensures Validate(value).Accepted? ==> Validate(value).reference == Strip(value)
    ensures forall r | WellFormed(r) && Denotes(Strip(value), r) :: r == Split(Strip(value))
  {
    hide Matches, Split, Print, Strip;
    var reference := Strip(value);
    var parts := Split(reference);
    SplitReprints(reference);
    forall r | WellFormed(r) && Denotes(Strip(value), r)
      ensures r == parts && (Pinned(r) ==> Validate(value).Accepted?)
    {
      SplitPrint(r);
      PartsNonEmpty();
      if r.tag.Some? { MatchNonEmpty(TAG, r.tag.value); }
    }
    if Validate(value).Accepted? {
      assert WellFormed(parts) && Pinned(parts) && Denotes(reference, parts);
    }
  }

  /** A pinned reference is accepted as it is printed. */
  lemma PrintedIsAccepted(r: Reference)
    requires WellFormed(r) && Pinned(r)
    ensures Validate(Print(r)) == Accepted(Print(r))
  {
    SplitPrint(r);
    assert Denotes(Print(r), r);
    AcceptsExactlyPinned(Print(r));
  }
}
