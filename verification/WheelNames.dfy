/** Distribution names, wheel file names and the deny list that is checked against them. */
module WheelNames {
  import opened AsciiText

  /** A run of these is one hyphen in a normalised name (PEP 503, "Normalized Names"). */
  predicate Separator(c: char) {
    c == '-' || c == '_' || c == '.'
  }

  predicate Alphanumeric(c: char) {
    'a' <= c <= 'z' || 'A' <= c <= 'Z' || '0' <= c <= '9'
  }

  /** The characters of a distribution name. */
  ghost predicate IsDistributionName(name: string) {
    forall c | c in name :: Alphanumeric(c) || Separator(c)
  }

  function LowerChar(c: char): (l: char)
    ensures !('A' <= l <= 'Z')
    ensures l == c || ('A' <= c <= 'Z' && l as int - 'a' as int == c as int - 'A' as int)
  {
    if 'A' <= c <= 'Z' then (c as int + 32) as char else c
  }

  function Lower(s: string): (l: string)
    ensures |l| == |s|
  {
    seq(|s|, i requires 0 <= i < |s| => LowerChar(s[i]))
  }

  /** `re.sub("[-_.]+", "-", s)`; `inRun` says that the run before `s` has its hyphen already. */
  function Collapse(s: string, inRun: bool): string {
    if s == [] then []
    else if Separator(s[0]) then (if inRun then [] else "-") + Collapse(s[1..], true)
    else [s[0]] + Collapse(s[1..], false)
  }

  /** The PEP 503 form of a name. */
  function Normalise(name: string): string {
    Lower(Collapse(name, false))
  }

  /** PEP 427, "Escaping and Unicode": runs outside `[A-Za-z0-9_.]` become one underscore. */
  function Escape(s: string, inRun: bool): string {
    if s == [] then []
    else if Alphanumeric(s[0]) || s[0] == '_' || s[0] == '.' then [s[0]] + Escape(s[1..], false)
    else (if inRun then [] else "_") + Escape(s[1..], true)
  }

  /** The part of `s` before the first hyphen. */
  function BeforeHyphen(s: string): string {
    if s == [] || s[0] == '-' then [] else [s[0]] + BeforeHyphen(s[1..])
  }

  const WHEEL_SUFFIX: string := ".whl"

  predicate EndsWith(s: string, suffix: string) {
    |suffix| <= |s| && s[|s| - |suffix|..] == suffix
  }

  /** The distribution a wheel's file name names. */
  function WheelDistribution(filename: string): string {
    var stem := if EndsWith(filename, WHEEL_SUFFIX) then filename[..|filename| - 4] else filename;
    Normalise(BeforeHyphen(stem))
  }

  /** The file name of a wheel: the escaped name, then version and tags. */
  function WheelFile(distribution: string, rest: string): string {
    Escape(distribution, false) + "-" + rest + WHEEL_SUFFIX
  }

  /** Normalising forgets what escaping did, wherever a run was cut. */
  lemma {:induction false} CollapseEscape(s: string, escaping: bool, inRun: bool)
    requires IsDistributionName(s)
    requires escaping ==> inRun
    ensures Collapse(Escape(s, escaping), inRun) == Collapse(s, inRun)
  {
    if s != [] {
      var rest := s[1..];
      if Separator(s[0]) {
        CollapseEscape(rest, s[0] == '-', true);
        var tail := Escape(rest, s[0] == '-');
        if s[0] != '-' || !escaping {
          assert Escape(s, escaping)[1..] == tail;
        } else {
          assert Escape(s, escaping) == tail;
        }
      } else {
        assert s[0] in s;
        CollapseEscape(rest, false, false);
        assert Escape(s, escaping)[1..] == Escape(rest, false);
      }
    }
  }

  lemma {:induction false} EscapeHasNoHyphen(s: string, inRun: bool, rest: string)
    ensures BeforeHyphen(Escape(s, inRun) + "-" + rest) == Escape(s, inRun)
  {
    var e := Escape(s, inRun);
    if s != [] {
      var keep := Alphanumeric(s[0]) || s[0] == '_' || s[0] == '.';
      EscapeHasNoHyphen(s[1..], !keep, rest);
      if keep || !inRun {
        assert (e + "-" + rest)[1..] == Escape(s[1..], !keep) + "-" + rest;
      } else {
        assert e == Escape(s[1..], true);
      }
    }
  }

  /** A wheel's file name gives back the normalised name of the distribution it was built from. */
  lemma WheelNamesItsDistribution(distribution: string, rest: string)
    requires IsDistributionName(distribution)
    ensures WheelDistribution(WheelFile(distribution, rest)) == Normalise(distribution)
  {
    var file := WheelFile(distribution, rest);
    var stem := Escape(distribution, false) + "-" + rest;
    assert file[..|file| - 4] == stem;
    assert file[|file| - 4..] == WHEEL_SUFFIX;
    EscapeHasNoHyphen(distribution, false, rest);
    CollapseEscape(distribution, false, false);
  }

  /** What a normalised name looks like: lower case, and hyphens that stand alone. */
  ghost predicate Canonical(s: string) {
    && (forall c | c in s :: LowerChar(c) == c && c != '_' && c != '.')
    && (forall i | 0 <= i < |s| - 1 :: s[i] == '-' ==> s[i + 1] != '-')
  }

  lemma CanonicalCons(c: char, s: string)
    requires Canonical(Lower(s)) && c != '_' && c != '.' && (c == '-' && s != [] ==> s[0] != '-')
    ensures Canonical(Lower([c] + s))
  {
    var l, tail := Lower([c] + s), Lower(s);
    assert l == [LowerChar(c)] + tail;
    assert tail != [] ==> l[1] == tail[0] && (tail[0] == '-' <==> s[0] == '-');
    forall i | 1 <= i < |l| - 1 ensures l[i] == '-' ==> l[i + 1] != '-' {
      assert l[i] == tail[i - 1] && l[i + 1] == tail[i];
    }
  }

  lemma {:induction false} CollapseCanonical(s: string, inRun: bool)
    ensures Canonical(Lower(Collapse(s, inRun)))
    ensures inRun && Collapse(s, inRun) != [] ==> Collapse(s, inRun)[0] != '-'
  {
    if s != [] {
      var separator := Separator(s[0]);
      CollapseCanonical(s[1..], separator);
      hide Canonical, Lower;
      var rest := Collapse(s[1..], separator);
      if separator && inRun {
        assert Collapse(s, inRun) == rest;
      } else {
        CanonicalCons(if separator then '-' else s[0], rest);
      }
    }
  }

  lemma CanonicalTail(s: string)
    requires Canonical(s) && s != []
    ensures Canonical(s[1..]) && s[0] != '_' && s[0] != '.'
    ensures s[0] == '-' && |s| > 1 ==> s[1] != '-'
  {
    assert s[0] in s;
    assert forall c | c in s[1..] :: c in s;
  }

  lemma {:induction false} CollapseKeepsCanonical(s: string, inRun: bool)
    requires Canonical(s) && (inRun && s != [] ==> s[0] != '-')
    ensures Collapse(s, inRun) == s
  {
    hide Canonical;
    if s != [] {
      CanonicalTail(s);
      CollapseKeepsCanonical(s[1..], Separator(s[0]));
      assert s == [s[0]] + s[1..];
    }
  }

  /** Normalising gives a canonical name, and changes a name exactly when it was not one. */
  lemma NormaliseIsCanonical(name: string)
    ensures Canonical(Normalise(name))
    ensures Normalise(name) == name <==> Canonical(name)
    ensures Normalise(Normalise(name)) == Normalise(name)
  {
    CollapseCanonical(name, false);
    var n := Normalise(name);
    CollapseKeepsCanonical(n, false);
    assert forall i | 0 <= i < |n| :: n[i] in n;
    assert Lower(n) == n;
    if Canonical(name) {
      CollapseKeepsCanonical(name, false);
      assert forall i | 0 <= i < |name| :: name[i] in name;
      assert Lower(name) == name;
    }
  }

  /** The maximal runs of characters that are no separators; one ends where a run of separators does. */
  function Words(s: string): (words: seq<string>)
    ensures words != []
  {
    if s == "" then [""]
    else if !Separator(s[0]) then
      var rest := Words(s[1..]);
      [[s[0]] + rest[0]] + rest[1..]
    else if |s| > 1 && Separator(s[1]) then Words(s[1..])
    else [""] + Words(s[1..])
  }

  function LowerAll(words: seq<string>): (l: seq<string>)
    ensures |l| == |words| && forall i | 0 <= i < |words| :: l[i] == Lower(words[i])
  {
    seq(|words|, i requires 0 <= i < |words| => Lower(words[i]))
  }

  lemma LowerAppend(a: string, b: string)
    ensures Lower(a + b) == Lower(a) + Lower(b)
  {
  }

  lemma JoinGrow(c: char, words: seq<string>)
    requires words != []
    ensures Join([[c] + words[0]] + words[1..], "-") == [c] + Join(words, "-")
  {
    var grown := [[c] + words[0]] + words[1..];
    if |words| > 1 {
      assert grown[1..] == words[1..];
      assert [c] + words[0] + "-" + Join(words[1..], "-") == [c] + (words[0] + "-" + Join(words[1..], "-"));
    }
  }

  lemma {:induction false} CollapseJoinsWords(s: string)
    ensures Collapse(s, false) == Join(Words(s), "-")
    ensures if s != "" && Separator(s[0]) then "-" + Collapse(s, true) == Join(Words(s), "-")
            else Collapse(s, true) == Collapse(s, false)
  {
    if s != "" {
      var rest := s[1..];
      CollapseJoinsWords(rest);
      if !Separator(s[0]) {
        JoinGrow(s[0], Words(rest));
      } else if !(rest != "" && Separator(rest[0])) {
        assert ([""] + Words(rest))[1..] == Words(rest);
        assert "" + "-" + Join(Words(rest), "-") == "-" + Join(Words(rest), "-");
      }
    }
  }

  lemma {:induction false} LowerJoin(words: seq<string>)
    ensures Lower(Join(words, "-")) == Join(LowerAll(words), "-")
  {
    if |words| > 1 {
      LowerJoin(words[1..]);
      LowerAppend(words[0] + "-", Join(words[1..], "-"));
      LowerAppend(words[0], "-");
      assert Lower("-") == "-";
      assert LowerAll(words)[1..] == LowerAll(words[1..]);
    }
  }

  /** The normal form of a name: its words in lower case, single hyphens between them. */
  lemma NormaliseJoinsWords(name: string)
    ensures Normalise(name) == Join(LowerAll(Words(name)), "-")
  {
    CollapseJoinsWords(name);
    LowerJoin(Words(name));
  }

  /** Spelling does not matter: letter case, and which separators stand in a run and how many. */
  lemma SpellingsAgree(a: string, b: string)
    requires LowerAll(Words(a)) == LowerAll(Words(b))
    ensures Normalise(a) == Normalise(b)
  {
    NormaliseJoinsWords(a);
    NormaliseJoinsWords(b);
  }

  /** The names the tenant's deny list stands for; blank lines deny nothing. */
  function DeniedNames(denied: seq<string>): set<string> {
    set value | value in denied && Strip(value) != [] :: Normalise(Strip(value))
  }

  datatype Verdict = Accepted | Refused(name: string)

  /** Refuses a wheelhouse that holds a denied distribution, at whatever depth it was resolved. */
  method RefuseDenied(wheels: seq<string>, denied: seq<string>) returns (v: Verdict)
    ensures v.Accepted? <==> forall w | w in wheels :: WheelDistribution(w) !in DeniedNames(denied)
    ensures v.Refused? ==> v.name in DeniedNames(denied) && exists w | w in wheels :: WheelDistribution(w) == v.name
  {
    if denied == [] {
      return Accepted;
    }
    var names := DeniedNames(denied);
    for i := 0 to |wheels|
      invariant forall w | w in wheels[..i] :: WheelDistribution(w) !in names
    {
      var name := WheelDistribution(wheels[i]);
      if name in names {
        return Refused(name);
      }
    }
    v := Accepted;
  }

  /** A wheelhouse built from the distributions `resolved`, with any versions and tags. */
  ghost predicate Wheelhouse(wheels: seq<string>, resolved: seq<string>) {
    && |wheels| == |resolved|
    && forall i | 0 <= i < |wheels| ::
         IsDistributionName(resolved[i]) && exists rest :: wheels[i] == WheelFile(resolved[i], rest)
  }

  /** What the check means for the distributions themselves, however the deny list spells them. */
  lemma AcceptedWheelhouse(wheels: seq<string>, resolved: seq<string>, denied: seq<string>)
    requires Wheelhouse(wheels, resolved)
    ensures (forall w | w in wheels :: WheelDistribution(w) !in DeniedNames(denied))
            <==> forall d, v | d in resolved && v in denied && Strip(v) != [] ::
                   Normalise(d) != Normalise(Strip(v))
  {
    forall i | 0 <= i < |wheels| ensures WheelDistribution(wheels[i]) == Normalise(resolved[i]) {
      var rest :| wheels[i] == WheelFile(resolved[i], rest);
      WheelNamesItsDistribution(resolved[i], rest);
    }
    forall i | 0 <= i < |wheels| ensures wheels[i] in wheels && resolved[i] in resolved {}
  }
}
