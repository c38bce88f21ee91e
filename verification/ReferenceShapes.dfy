/** What the reference grammar's parts come to, character by character. */
module ReferenceShapes {
  import opened Grammar
  import opened ImageReferences

  predicate IsLower(c: char) { 'a' <= c <= 'z' }
  predicate IsUpper(c: char) { 'A' <= c <= 'Z' }
  predicate IsDigit(c: char) { '0' <= c <= '9' }

  predicate IsWord(c: char) {
    IsLower(c) || IsUpper(c) || IsDigit(c) || c == '_'
  }

  lemma WordIsRange(c: char)
    ensures c in WORD <==> IsWord(c)
    ensures c in WORD + ".-" <==> IsWord(c) || c == '.' || c == '-'
  {
    LowerLetters(c);
    UpperLetters(c);
    DigitLetters(c);
    assert (c in "_" <==> c == '_') && (c in ".-" <==> c == '.' || c == '-');
    assert c in ALNUM <==> c in LOWER || c in UPPER || c in DIGITS;
  }

  lemma HexIsRange(c: char)
    ensures c in DIGITS + "abcdef" <==> IsDigit(c) || 'a' <= c <= 'f'
  {
    DigitLetters(c);
    assert c in "abcdef" <==> 'a' <= c <= 'f';
  }

  predicate Of(members: string, s: string) {
    forall i | 0 <= i < |s| :: s[i] in members
  }

  /** So many characters of a class in a row. */
  lemma {:induction false} TimesOfClass(members: string, s: string, least: nat, most: nat)
    requires least <= most
    ensures MatchesTimes(Class(members), s, least, most) <==> least <= |s| <= most && Of(members, s)
    decreases most
  {
    var fewer: nat := if least == 0 then 0 else least - 1;
    if most > 0 {
      forall k | 0 <= k <= |s| && Matches(Class(members), s[..k]) && MatchesTimes(Class(members), s[k..], fewer, most - 1)
        ensures least <= |s| <= most && Of(members, s)
      {
        TimesOfClass(members, s[k..], fewer, most - 1);
        assert s[..k][0] == s[0] && forall i | 1 <= i < |s| :: s[i] == s[k..][i - 1];
      }
      if s != "" && least <= |s| <= most && Of(members, s) {
        TimesOfClass(members, s[1..], fewer, most - 1);
        assert Matches(Class(members), s[..1]);
      }
    }
  }

  predicate ShapedAsTag(s: string) {
    1 <= |s| <= 128 && IsWord(s[0]) && forall i | 1 <= i < |s| :: IsWord(s[i]) || s[i] == '.' || s[i] == '-'
  }

  lemma OfWords(s: string)
    ensures Of(WORD + ".-", s) <==> forall i | 0 <= i < |s| :: IsWord(s[i]) || s[i] == '.' || s[i] == '-'
  {
    forall c: char ensures c in WORD + ".-" <==> IsWord(c) || c == '.' || c == '-' { WordIsRange(c); }
    hide IsWord;
  }

  lemma TagIsShaped(s: string)
    requires Matches(TAG, s)
    ensures ShapedAsTag(s)
  {
    var rest := Repeat(Class(WORD + ".-"), 0, 127);
    var k := CatParts(Class(WORD), rest, s);
    TimesOfClass(WORD + ".-", s[k..], 0, 127);
    OfWords(s[k..]);
    WordIsRange(s[0]);
    assert s[..k][0] == s[0];
    hide Matches, IsWord, Of;
    assert forall i | 1 <= i < |s| :: s[i] == s[1..][i - 1];
  }

  lemma ShapedIsTag(s: string)
    requires ShapedAsTag(s)
    ensures Matches(TAG, s)
  {
    var rest := Repeat(Class(WORD + ".-"), 0, 127);
    WordIsRange(s[0]);
    OfWords(s[1..]);
    TimesOfClass(WORD + ".-", s[1..], 0, 127);
    assert Matches(Class(WORD), s[..1]) && Matches(rest, s[1..]);
    hide Matches, IsWord, Of;
    CatMatches(Class(WORD), rest, s, 1);
  }

  /** A tag: at most 128 characters, the first a word character, the others that or a dot or a hyphen. */
  lemma TagShape(s: string)
    ensures Matches(TAG, s) <==>
            1 <= |s| <= 128 && IsWord(s[0]) && forall i | 1 <= i < |s| :: IsWord(s[i]) || s[i] == '.' || s[i] == '-'
  {
    hide Matches, IsWord;
    if Matches(TAG, s) { TagIsShaped(s); }
    if ShapedAsTag(s) { ShapedIsTag(s); }
  }

  predicate ShapedAsDigest(s: string) {
    |s| == 71 && s[..7] == "sha256:" && forall i | 7 <= i < 71 :: IsDigit(s[i]) || 'a' <= s[i] <= 'f'
  }

  lemma OfHex(s: string)
    ensures Of(DIGITS + "abcdef", s) <==> forall i | 0 <= i < |s| :: IsDigit(s[i]) || 'a' <= s[i] <= 'f'
  {
    forall c: char ensures c in DIGITS + "abcdef" <==> IsDigit(c) || 'a' <= c <= 'f' { HexIsRange(c); }
    hide IsDigit;
  }

  lemma DigestIsShaped(s: string)
    requires Matches(DIGEST, s)
    ensures ShapedAsDigest(s)
  {
    var k := CatParts(Literal("sha256:"), Repeat(Class(DIGITS + "abcdef"), 64, 64), s);
    LiteralMatches("sha256:", s[..k]);
    TimesOfClass(DIGITS + "abcdef", s[k..], 64, 64);
    OfHex(s[k..]);
    hide Matches, IsDigit, Of;
    assert forall i | 7 <= i < |s| :: s[i] == s[7..][i - 7];
  }

  lemma ShapedIsDigest(s: string)
    requires ShapedAsDigest(s)
    ensures Matches(DIGEST, s)
  {
    var rest := Repeat(Class(DIGITS + "abcdef"), 64, 64);
    OfHex(s[7..]);
    TimesOfClass(DIGITS + "abcdef", s[7..], 64, 64);
    assert Matches(Literal("sha256:"), s[..7]) && Matches(rest, s[7..]);
    hide Matches, IsDigit, Of;
    CatMatches(Literal("sha256:"), rest, s, 7);
  }

  /** A digest: `sha256:` and 64 lower-case hexadecimal digits. */
  lemma DigestShape(s: string)
    ensures Matches(DIGEST, s) <==>
            |s| == 71 && s[..7] == "sha256:" && forall i | 7 <= i < 71 :: IsDigit(s[i]) || 'a' <= s[i] <= 'f'
  {
    hide Matches, IsDigit;
    if Matches(DIGEST, s) { DigestIsShaped(s); }
    if ShapedAsDigest(s) { ShapedIsDigest(s); }
  }

  predicate HasMark(s: string) {
    '.' in s || ':' in s
  }

  lemma PartOf(s: string, k: nat)
    requires k <= |s|
    ensures forall c :: c in s <==> c in s[..k] || c in s[k..]
  {
    assert s == s[..k] + s[k..];
  }

  /** A dotted host has its dot. */
  lemma DottedHasDot(s: string)
    requires Matches(DOTTED, s)
    ensures '.' in s
  {
    var tail := Cat(Literal("."), DOMAIN_COMPONENT);
    var k := CatParts(DOMAIN_COMPONENT, Plus(tail), s);
    var i := CatParts(tail, Star(tail), s[k..]);
    var j := CatParts(Literal("."), DOMAIN_COMPONENT, s[k..][..i]);
    LiteralMatches(".", s[k..][..i][..j]);
    hide Matches;
    assert s[k..][..i][..j][0] == s[k..][..i][0] == s[k..][0] == s[k];
  }

  lemma PortHasColon(s: string)
    requires Matches(PORT, s)
    ensures ':' in s
  {
    var k := CatParts(Literal(":"), Plus(Class(DIGITS)), s);
    LiteralMatches(":", s[..k]);
    hide Matches;
    assert s[..k][0] == s[0];
  }

  lemma LocalhostHasNoUpper(c: char)
    requires IsUpper(c)
    ensures !Uses(Cat(Literal("localhost"), Opt(PORT)), c)
  {
    DigitLetters(c);
    assert c !in "localhost" && c !in ":";
    assert !Uses(Class(DIGITS), c) && !Uses(Literal(":"), c) && !Uses(PORT, c);
  }

  /** A host with a capital letter in it has a dot or a port. */
  lemma CapitalHostHasMark(s: string, c: char)
    requires Matches(DOMAIN, s) && c in s && IsUpper(c)
    ensures HasMark(s)
  {
    var ported, local := Cat(DOMAIN_COMPONENT, PORT), Cat(Literal("localhost"), Opt(PORT));
    assert Matches(Cat(DOTTED, Opt(PORT)), s) || Matches(ported, s) || Matches(local, s);
    hide Matches, Uses;
    if Matches(Cat(DOTTED, Opt(PORT)), s) {
      var k := CatParts(DOTTED, Opt(PORT), s);
      DottedHasDot(s[..k]);
      PartOf(s, k);
    } else if Matches(ported, s) {
      var k := CatParts(DOMAIN_COMPONENT, PORT, s);
      PortHasColon(s[k..]);
      PartOf(s, k);
    } else {
      LocalhostHasNoUpper(c);
      MatchUses(local, s, c);
    }
  }

  lemma PathHasNoUpper(c: char)
    requires IsUpper(c)
    ensures !Uses(PATH, c)
  {
    LowerLetters(c);
    DigitLetters(c);
    assert c !in LOWER + DIGITS && c !in "-" && c !in "._" && c !in "__" && c !in "/";
    assert !Uses(Class(LOWER + DIGITS), c) && !Uses(RUN, c);
    assert !Uses(Class("-"), c) && !Uses(RULE, c) && !Uses(Class("._"), c) && !Uses(SEPARATOR, c);
    assert !Uses(Cat(SEPARATOR, RUN), c) && !Uses(Star(Cat(SEPARATOR, RUN)), c) && !Uses(PATH_COMPONENT, c);
    assert !Uses(NEXT_COMPONENT, c) && !Uses(Star(NEXT_COMPONENT), c);
  }

  /**
   * A capital letter is only accepted in a registry host, and what precedes the slash is one only if it
   * has a dot or a port: `UPPER/name` is no name.
   */
  lemma CapitalsNeedHost(name: string, c: char) returns (k: nat)
    requires Matches(NAME, name) && c in name && IsUpper(c)
    ensures k < |name| && name[k] == '/' && c in name[..k] && HasMark(name[..k])
    ensures Matches(DOMAIN, name[..k]) && Matches(PATH, name[k + 1..])
  {
    hide Matches, Uses;
    var i := CatParts(Opt(HOST), PATH, name);
    PathHasNoUpper(c);
    MatchUses(PATH, name[i..], c);
    PartOf(name, i);
    OptMatches(HOST, name[..i]);
    k := CatParts(DOMAIN, Literal("/"), name[..i]);
    LiteralMatches("/", name[..i][k..]);
    var host := name[..i];
    assert |host[k..]| == 1 && i == k + 1 && host[..k] == name[..k] && host[k] == name[k] == host[k..][0] == '/';
    PartOf(host, k);
    CapitalHostHasMark(name[..k], c);
  }
}
