/** Templates of addon definitions (internal/addon/addon.go): what counts as a placeholder,
    checking that an addon can fill them all, and rendering. */
module Template {
  import opened Seqs
  import opened Sorting

  // ---- Placeholders ----

  /** \s of Go's regular expressions. */
  predicate Blank(c: char) {
    c == ' ' || c == '\t' || c == '\n' || c == '\r' || c as int == 12
  }

  predicate NameChar(c: char) {
    'A' <= c <= 'Z' || 'a' <= c <= 'z' || '0' <= c <= '9' || c == '_' || c == '.'
  }

  /** The ASCII codes of letters, digits, underscore and dot, and of the blanks. */
  lemma CharsExactly(c: char)
    ensures NameChar(c) <==>
      65 <= c as int <= 90 || 97 <= c as int <= 122 || 48 <= c as int <= 57 || c as int == 95 || c as int == 46
    ensures Blank(c) <==> c as int == 32 || 9 <= c as int <= 10 || 12 <= c as int <= 13
  {
  }

  /** s[i..j] is a placeholder {{ name }} in the sense of the source's regular expression. */
  ghost predicate Placeholder(s: string, i: nat, j: nat, name: string) {
    exists a: nat, b: nat :: PlaceholderAt(s, i, a, b, j, name)
  }

  ghost predicate PlaceholderAt(s: string, i: nat, a: nat, b: nat, j: nat, name: string) {
    && exists c: nat :: PlaceholderParts(s, i, a, b, c, j, name)
  }

  ghost predicate PlaceholderParts(s: string, i: nat, a: nat, b: nat, c: nat, j: nat, name: string) {
    && i + 2 <= a < b <= c && c + 2 == j <= |s|
    && s[i] == '{' && s[i + 1] == '{'
    && (forall k :: i + 2 <= k < a ==> Blank(s[k]))
    && (forall k :: a <= k < b ==> NameChar(s[k])) && name == s[a..b]
    && (forall k :: b <= k < c ==> Blank(s[k]))
    && s[c] == '}' && s[c + 1] == '}'
  }

  function SkipBlanks(s: string, i: nat): (j: nat)
    requires i <= |s|
    ensures i <= j <= |s|
    ensures forall k :: i <= k < j ==> Blank(s[k])
    ensures j < |s| ==> !Blank(s[j])
    decreases |s| - i
  {
    if i < |s| && Blank(s[i]) then SkipBlanks(s, i + 1) else i
  }

  function SkipName(s: string, i: nat): (j: nat)
    requires i <= |s|
    ensures i <= j <= |s|
    ensures forall k :: i <= k < j ==> NameChar(s[k])
    ensures j < |s| ==> !NameChar(s[j])
    decreases |s| - i
  {
    if i < |s| && NameChar(s[i]) then SkipName(s, i + 1) else i
  }

  datatype Match = Match(start: nat, end: nat, name: string)

  /** The match that begins at `i`, if there is one. */
  function MatchAt(s: string, i: nat): (m: Option<Match>)
    requires i <= |s|
    ensures m.Some? ==> m.value.start == i && i < m.value.end <= |s|
  {
    if i + 2 > |s| || s[i] != '{' || s[i + 1] != '{' then None
    else
      var a := SkipBlanks(s, i + 2);
      var b := SkipName(s, a);
      var c := SkipBlanks(s, b);
      if a == b || c + 2 > |s| || s[c] != '}' || s[c + 1] != '}' then None
      else Some(Match(i, c + 2, s[a..b]))
  }

  lemma MatchIsPlaceholder(s: string, i: nat)
    requires i <= |s| && MatchAt(s, i).Some?
    ensures var m := MatchAt(s, i).value; m.start == i && i < m.end <= |s| && Placeholder(s, i, m.end, m.name)
  {
    var a := SkipBlanks(s, i + 2);
    var b := SkipName(s, a);
    var c := SkipBlanks(s, b);
    assert PlaceholderParts(s, i, a, b, c, c + 2, s[a..b]);
    assert PlaceholderAt(s, i, a, b, c + 2, s[a..b]);
  }

  lemma SkipBlanksTo(s: string, i: nat, j: nat)
    requires i <= j <= |s| && (forall k :: i <= k < j ==> Blank(s[k])) && (j < |s| ==> !Blank(s[j]))
    ensures SkipBlanks(s, i) == j
  {
  }

  lemma SkipNameTo(s: string, i: nat, j: nat)
    requires i <= j <= |s| && (forall k :: i <= k < j ==> NameChar(s[k])) && (j < |s| ==> !NameChar(s[j]))
    ensures SkipName(s, i) == j
  {
  }

  lemma SkippedIsMatch(s: string, i: nat, a: nat, b: nat, c: nat)
    requires i + 2 <= a < b <= c && c + 2 <= |s|
    requires s[i] == '{' && s[i + 1] == '{' && s[c] == '}' && s[c + 1] == '}'
    requires SkipBlanks(s, i + 2) == a && SkipName(s, a) == b && SkipBlanks(s, b) == c
    ensures MatchAt(s, i) == Some(Match(i, c + 2, s[a..b]))
  {
  }

  lemma PartsAreMatch(s: string, i: nat, a: nat, b: nat, c: nat, j: nat, name: string)
    requires PlaceholderParts(s, i, a, b, c, j, name)
    ensures i <= |s| && MatchAt(s, i) == Some(Match(i, j, name))
  {
    assert NameChar(s[a]) && !Blank(s[a]) && !NameChar(s[c]) && !Blank(s[c]);
    assert b < c ==> Blank(s[b]) && !NameChar(s[b]);
    SkipBlanksTo(s, i + 2, a);
    SkipNameTo(s, a, b);
    SkipBlanksTo(s, b, c);
    SkippedIsMatch(s, i, a, b, c);
  }

  lemma PlaceholderIsMatch(s: string, i: nat, j: nat, name: string)
    requires Placeholder(s, i, j, name)
    ensures i <= |s| && MatchAt(s, i) == Some(Match(i, j, name))
  {
    var a: nat, b: nat :| PlaceholderAt(s, i, a, b, j, name);
    var c: nat :| PlaceholderParts(s, i, a, b, c, j, name);
    PartsAreMatch(s, i, a, b, c, j, name);
  }

  /** At every position at most one placeholder begins, and the scan finds it. */
  lemma MatchExactly(s: string, i: nat, j: nat, name: string)
    requires i <= |s|
    ensures Placeholder(s, i, j, name) <==> MatchAt(s, i) == Some(Match(i, j, name))
  {
    if Placeholder(s, i, j, name) {
      PlaceholderIsMatch(s, i, j, name);
    }
    if MatchAt(s, i) == Some(Match(i, j, name)) {
      MatchIsPlaceholder(s, i);
    }
  }

  /** Stretches of `s` one after another, from `i` on. */
  predicate InOrder(s: string, i: nat, ms: seq<Match>)
    decreases |ms|
  {
    if ms == [] then i <= |s| else i <= ms[0].start <= ms[0].end <= |s| && InOrder(s, ms[0].end, ms[1..])
  }

  /** The leftmost matches that do not overlap, from `i` on. */
  function Matches(s: string, i: nat): (ms: seq<Match>)
    requires i <= |s|
    ensures InOrder(s, i, ms)
    decreases |s| - i
  {
    if i == |s| then []
    else
      var m := MatchAt(s, i);
      if m.None? then Matches(s, i + 1) else [m.value] + Matches(s, m.value.end)
  }

  /** What FindAll and ReplaceAll mean, without an algorithm: placeholders one after another,
      and none begins in a gap. */
  ghost predicate LeftmostMatches(s: string, i: nat, ms: seq<Match>)
    decreases |ms|
  {
    if ms == [] then i <= |s| && NoneBegins(s, i, |s|)
    else
      && i <= ms[0].start && NoneBegins(s, i, ms[0].start)
      && Placeholder(s, ms[0].start, ms[0].end, ms[0].name)
      && LeftmostMatches(s, ms[0].end, ms[1..])
  }

  ghost predicate NoneBegins(s: string, i: nat, j: nat) {
    forall k, e, n :: i <= k < j ==> !Placeholder(s, k, e, n)
  }

  lemma NoMatchNoneBegins(s: string, i: nat)
    requires i <= |s| && MatchAt(s, i).None?
    ensures NoneBegins(s, i, i + 1)
  {
    forall e: nat, n: string ensures !Placeholder(s, i, e, n) {
      MatchExactly(s, i, e, n);
    }
  }

  lemma LeftmostFirst(s: string, i: nat, m: Match, ms: seq<Match>)
    requires m.start == i && Placeholder(s, i, m.end, m.name) && LeftmostMatches(s, m.end, ms)
    ensures LeftmostMatches(s, i, [m] + ms)
  {
    assert ([m] + ms)[1..] == ms;
  }

  lemma LeftmostFurther(s: string, i: nat, ms: seq<Match>)
    requires NoneBegins(s, i, i + 1) && LeftmostMatches(s, i + 1, ms)
    ensures LeftmostMatches(s, i, ms)
  {
    var j := if ms == [] then |s| else ms[0].start;
    assert NoneBegins(s, i + 1, j);
    forall k, e, n | i <= k < j ensures !Placeholder(s, k, e, n) {
      if k == i {
        assert i <= k < i + 1;
      }
    }
  }

  lemma MatchesFurther(s: string, i: nat)
    requires i < |s|
    ensures Matches(s, i) ==
      if MatchAt(s, i).None? then Matches(s, i + 1) else [MatchAt(s, i).value] + Matches(s, MatchAt(s, i).value.end)
  {
  }

  lemma LeftmostWithout(s: string, i: nat)
    requires i < |s| && MatchAt(s, i).None? && LeftmostMatches(s, i + 1, Matches(s, i + 1))
    ensures LeftmostMatches(s, i, Matches(s, i))
  {
    MatchesFurther(s, i);
    NoMatchNoneBegins(s, i);
    LeftmostFurther(s, i, Matches(s, i + 1));
  }

  lemma LeftmostWith(s: string, i: nat, m: Match)
    requires i < |s| && MatchAt(s, i) == Some(m) && LeftmostMatches(s, m.end, Matches(s, m.end))
    ensures LeftmostMatches(s, i, Matches(s, i))
  {
    MatchesFurther(s, i);
    MatchIsPlaceholder(s, i);
    LeftmostFirst(s, i, m, Matches(s, m.end));
  }

  lemma {:induction false} MatchesAreLeftmost(s: string, i: nat)
    requires i <= |s|
    ensures LeftmostMatches(s, i, Matches(s, i))
    decreases |s| - i
  {
    if i < |s| {
      var m := MatchAt(s, i);
      if m.None? {
        MatchesAreLeftmost(s, i + 1);
        LeftmostWithout(s, i);
      } else {
        MatchesAreLeftmost(s, m.value.end);
        LeftmostWith(s, i, m.value);
      }
    }
  }

  /** At none of these positions the scan finds a placeholder. */
  predicate NoneFound(s: string, i: nat, j: nat)
    requires j <= |s|
  {
    forall k :: i <= k < j ==> MatchAt(s, k).None?
  }

  lemma NoneBeginsNoneFound(s: string, i: nat, j: nat)
    requires i <= j <= |s| && NoneBegins(s, i, j)
    ensures NoneFound(s, i, j)
  {
    forall k | i <= k < j ensures MatchAt(s, k).None? {
      if MatchAt(s, k).Some? {
        MatchIsPlaceholder(s, k);
      }
    }
  }

  lemma NoneFoundSooner(s: string, i: nat, j: nat)
    requires i < j <= |s| && NoneFound(s, i, j)
    ensures NoneFound(s, i, j - 1)
  {
  }

  lemma LastPassed(s: string, i: nat, j: nat)
    requires i < j <= |s| && NoneFound(s, i, j)
    ensures Matches(s, j - 1) == Matches(s, j)
  {
    assert MatchAt(s, j - 1).None?;
    MatchesFurther(s, j - 1);
  }

  lemma {:induction false} NoneFoundPassed(s: string, i: nat, j: nat)
    requires i <= j <= |s| && NoneFound(s, i, j)
    ensures Matches(s, i) == Matches(s, j)
    decreases j - i
  {
    if i < j {
      LastPassed(s, i, j);
      NoneFoundSooner(s, i, j);
      NoneFoundPassed(s, i, j - 1);
    }
  }

  /** Where none begins, the scan finds nothing. */
  lemma NoMatches(s: string, i: nat)
    requires i <= |s| && NoneBegins(s, i, |s|)
    ensures Matches(s, i) == []
  {
    GapPassed(s, i, |s|);
  }

  /** The scan passes over a gap. */
  lemma GapPassed(s: string, i: nat, j: nat)
    requires i <= j <= |s| && NoneBegins(s, i, j)
    ensures Matches(s, i) == Matches(s, j)
  {
    NoneBeginsNoneFound(s, i, j);
    NoneFoundPassed(s, i, j);
  }

  /** The scan finds the first placeholder after a gap. */
  lemma FirstMatch(s: string, i: nat, m: Match)
    requires i <= m.start && NoneBegins(s, i, m.start) && Placeholder(s, m.start, m.end, m.name)
    ensures m.start < m.end <= |s| && Matches(s, i) == [m] + Matches(s, m.end)
  {
    PlaceholderIsMatch(s, m.start, m.end, m.name);
    GapPassed(s, i, m.start);
  }

  /** There is only one such list. */
  lemma {:induction false} LeftmostUnique(s: string, i: nat, ms: seq<Match>)
    requires i <= |s| && LeftmostMatches(s, i, ms)
    ensures ms == Matches(s, i)
    decreases |ms|
  {
    if ms == [] {
      NoMatches(s, i);
    } else {
      FirstMatch(s, i, ms[0]);
      LeftmostUnique(s, ms[0].end, ms[1..]);
      assert ms == [ms[0]] + ms[1..];
    }
  }

  // ---- Checking ----

  const SECRET_PREFIX := "secret."

  const TEMPLATE_VARS: seq<string> := [
    "host", "port", "url",
    "project.slug", "project.name", "project.url",
    "database.type", "database.host", "database.port", "database.name", "database.user", "database.password"
  ]

  /** A name the addon can fill: a declared secret or a known variable. */
  predicate Known(secrets: seq<string>, name: string) {
    if HasPrefix(name, SECRET_PREFIX) then name[|SECRET_PREFIX|..] in secrets else name in TEMPLATE_VARS
  }

  /** Known are "secret." with a declared name, and these names. */
  lemma KnownExactly(secrets: seq<string>, name: string)
    ensures Known(secrets, name) <==>
      || (exists secret :: secret in secrets && name == "secret." + secret)
      || name == "host" || name == "port" || name == "url"
      || name == "project.slug" || name == "project.name" || name == "project.url"
      || name == "database.type" || name == "database.host" || name == "database.port"
      || name == "database.name" || name == "database.user" || name == "database.password"
  {
    var n := |SECRET_PREFIX|;
    assert SECRET_PREFIX[0] == 's' && "host"[0] != 's' && "port"[0] != 's' && "url"[0] != 's';
    if HasPrefix(name, SECRET_PREFIX) {
      assert name == SECRET_PREFIX + name[n..];
      forall secret | secret in secrets && name == "secret." + secret ensures secret == name[n..] {
        assert ("secret." + secret)[n..] == secret;
      }
      assert name[0] == 's';
    } else {
      forall secret ensures name != "secret." + secret {
        assert HasPrefix("secret." + secret, SECRET_PREFIX);
      }
    }
  }

  predicate Accepted(secrets: seq<string>, s: string) {
    forall i :: 0 <= i < |Matches(s, 0)| ==> Known(secrets, Matches(s, 0)[i].name)
  }

  /** The first name that cannot be filled; None for an accepted template. */
  method CheckTemplate(secrets: seq<string>, s: string) returns (bad: Option<string>)
    ensures bad.None? <==> Accepted(secrets, s)
    ensures bad.Some? ==> !Known(secrets, bad.value) && exists m :: m in Matches(s, 0) && m.name == bad.value
  {
    var ms := Matches(s, 0);
    for i := 0 to |ms|
      invariant forall k :: 0 <= k < i ==> Known(secrets, ms[k].name)
    {
      var name := ms[i].name;
      assert ms[i] in ms;
      if HasPrefix(name, SECRET_PREFIX) {
        if name[|SECRET_PREFIX|..] !in secrets {
          return Some(name);
        }
        continue;
      }
      if name !in TEMPLATE_VARS {
        return Some(name);
      }
    }
    return None;
  }

  /** The parts of a definition that are templates: the values of two maps, and two lists. */
  datatype Definition = Definition(
    secrets: seq<string>,
    env: map<string, string>,
    inject: map<string, string>,
    credentials: seq<string>,
    command: seq<string>)

  predicate AcceptedMap(secrets: seq<string>, m: map<string, string>) {
    forall k :: k in m ==> Accepted(secrets, m[k])
  }

  predicate AcceptedList(secrets: seq<string>, l: seq<string>) {
    forall i :: 0 <= i < |l| ==> Accepted(secrets, l[i])
  }

  method CheckMap(secrets: seq<string>, m: map<string, string>) returns (ok: bool)
    ensures ok <==> AcceptedMap(secrets, m)
  {
    var rest := m.Keys;
    while rest != {}
      invariant rest <= m.Keys
      invariant forall k :: k in m && k !in rest ==> Accepted(secrets, m[k])
      decreases rest
    {
      var k :| k in rest;
      var bad := CheckTemplate(secrets, m[k]);
      if bad.Some? {
        return false;
      }
      rest := rest - {k};
    }
    return true;
  }

  method CheckList(secrets: seq<string>, l: seq<string>) returns (ok: bool)
    ensures ok <==> AcceptedList(secrets, l)
  {
    for i := 0 to |l|
      invariant forall k :: 0 <= k < i ==> Accepted(secrets, l[k])
    {
      var bad := CheckTemplate(secrets, l[i]);
      if bad.Some? {
        return false;
      }
    }
    return true;
  }

  predicate AllAccepted(d: Definition) {
    && AcceptedMap(d.secrets, d.env) && AcceptedMap(d.secrets, d.inject)
    && AcceptedList(d.secrets, d.credentials) && AcceptedList(d.secrets, d.command)
  }

  /** The template checks of `Validate`. */
  method ValidateTemplates(d: Definition) returns (ok: bool)
    ensures ok <==> AllAccepted(d)
    ensures ok <==>
      && (forall k :: k in d.env ==> Accepted(d.secrets, d.env[k]))
      && (forall k :: k in d.inject ==> Accepted(d.secrets, d.inject[k]))
      && (forall i :: 0 <= i < |d.credentials| ==> Accepted(d.secrets, d.credentials[i]))
      && (forall i :: 0 <= i < |d.command| ==> Accepted(d.secrets, d.command[i]))
  {
    ok := CheckMap(d.secrets, d.env);
    if !ok {
      return;
    }
    ok := CheckMap(d.secrets, d.inject);
    if !ok {
      return;
    }
    ok := CheckList(d.secrets, d.credentials);
    if !ok {
      return;
    }
    ok := CheckList(d.secrets, d.command);
  }

  // ---- Rendering ----

  type Vars = map<string, string>

  function Lookup(vars: Vars, name: string): string {
    if name in vars then vars[name] else ""
  }

  /** What replaces a matched text: the source matches it again to find the name. */
  function Replacement(vars: Vars, text: string): string {
    var m := MatchAt(text, 0);
    if m.Some? then Lookup(vars, m.value.name) else ""
  }

  function Replaced(s: string, i: nat, ms: seq<Match>, vars: Vars): string
    requires InOrder(s, i, ms)
    decreases |ms|
  {
    if ms == [] then s[i..]
    else s[i..ms[0].start] + Replacement(vars, s[ms[0].start..ms[0].end]) + Replaced(s, ms[0].end, ms[1..], vars)
  }

  function Render(s: string, vars: Vars): string {
    Replaced(s, 0, Matches(s, 0), vars)
  }

  /** The text around the matches: one piece more than there are matches. */
  function Gaps(s: string, i: nat, ms: seq<Match>): (gaps: seq<string>)
    requires InOrder(s, i, ms)
    ensures |gaps| == |ms| + 1
    decreases |ms|
  {
    if ms == [] then [s[i..]] else [s[i..ms[0].start]] + Gaps(s, ms[0].end, ms[1..])
  }

  /** Gaps and fillings in turn. */
  function Fill(gaps: seq<string>, fillings: seq<string>): string
    requires |gaps| == |fillings| + 1
  {
    if fillings == [] then gaps[0] else gaps[0] + fillings[0] + Fill(gaps[1..], fillings[1..])
  }

  /** The texts of the matches. */
  function Texts(s: string, i: nat, ms: seq<Match>): (ts: seq<string>)
    requires InOrder(s, i, ms)
    ensures |ts| == |ms|
    decreases |ms|
  {
    if ms == [] then [] else [s[ms[0].start..ms[0].end]] + Texts(s, ms[0].end, ms[1..])
  }

  /** A name without a value leaves nothing. */
  function Values(ms: seq<Match>, vars: Vars): (vs: seq<string>)
    ensures |vs| == |ms|
    ensures forall i :: 0 <= i < |ms| ==> vs[i] == if ms[i].name in vars then vars[ms[i].name] else ""
  {
    seq(|ms|, i requires 0 <= i < |ms| => Lookup(vars, ms[i].name))
  }

  lemma SliceOfSlice(s: string, i: nat, j: nat, a: nat, b: nat)
    requires i <= a <= b <= j <= |s|
    ensures s[i..j][a - i..b - i] == s[a..b]
  {
    var t := s[i..j][a - i..b - i];
    forall k | 0 <= k < b - a ensures t[k] == s[a..b][k] {
      assert t[k] == s[i..j][a - i + k];
    }
  }

  lemma PartsAlone(s: string, i: nat, a: nat, b: nat, c: nat, j: nat, name: string)
    requires PlaceholderParts(s, i, a, b, c, j, name)
    ensures PlaceholderParts(s[i..j], 0, a - i, b - i, c - i, j - i, name)
  {
    SliceOfSlice(s, i, j, a, b);
  }

  /** Matching a matched text again finds the same name. */
  lemma MatchedAgain(s: string, m: Match)
    requires Placeholder(s, m.start, m.end, m.name)
    ensures m.start < m.end <= |s|
    ensures MatchAt(s[m.start..m.end], 0) == Some(Match(0, m.end - m.start, m.name))
  {
    var i, j := m.start, m.end;
    var a: nat, b: nat :| PlaceholderAt(s, i, a, b, j, m.name);
    var c: nat :| PlaceholderParts(s, i, a, b, c, j, m.name);
    PartsAlone(s, i, a, b, c, j, m.name);
    var t := s[i..j];
    assert PlaceholderAt(t, 0, a - i, b - i, j - i, m.name);
    PlaceholderIsMatch(t, 0, j - i, m.name);
  }

  lemma FillCons(gap: string, gaps: seq<string>, filling: string, fillings: seq<string>)
    requires |gaps| == |fillings| + 1
    ensures Fill([gap] + gaps, [filling] + fillings) == gap + filling + Fill(gaps, fillings)
  {
    assert ([gap] + gaps)[1..] == gaps && ([filling] + fillings)[1..] == fillings;
  }

  lemma ValuesFirst(ms: seq<Match>, vars: Vars)
    requires ms != []
    ensures Values(ms, vars) == [Lookup(vars, ms[0].name)] + Values(ms[1..], vars)
  {
  }

  lemma {:induction false} ReplacedFills(s: string, i: nat, ms: seq<Match>, vars: Vars)
    requires InOrder(s, i, ms) && LeftmostMatches(s, i, ms)
    ensures Replaced(s, i, ms, vars) == Fill(Gaps(s, i, ms), Values(ms, vars))
    decreases |ms|
  {
    if ms != [] {
      var m, rest := ms[0], ms[1..];
      MatchedAgain(s, m);
      ReplacedFills(s, m.end, rest, vars);
      ValuesFirst(ms, vars);
      FillCons(s[i..m.start], Gaps(s, m.end, rest), Lookup(vars, m.name), Values(rest, vars));
    }
  }

  lemma ThreePieces(s: string, i: nat, a: nat, b: nat)
    requires i <= a <= b <= |s|
    ensures s[i..] == s[i..a] + s[a..b] + s[b..]
  {
  }

  lemma {:induction false} TextsFill(s: string, i: nat, ms: seq<Match>)
    requires InOrder(s, i, ms)
    ensures s[i..] == Fill(Gaps(s, i, ms), Texts(s, i, ms))
    decreases |ms|
  {
    if ms != [] {
      var m, rest := ms[0], ms[1..];
      TextsFill(s, m.end, rest);
      FillCons(s[i..m.start], Gaps(s, m.end, rest), s[m.start..m.end], Texts(s, m.end, rest));
      ThreePieces(s, i, m.start, m.end);
    }
  }

  /** Rendering keeps all text outside the leftmost placeholders, in order, and puts each
      name's value in the place of its placeholder. */
  lemma RenderFillsGaps(s: string, vars: Vars)
    ensures var ms := Matches(s, 0);
      && LeftmostMatches(s, 0, ms)
      && s == Fill(Gaps(s, 0, ms), Texts(s, 0, ms))
      && Render(s, vars) == Fill(Gaps(s, 0, ms), Values(ms, vars))
  {
    MatchesAreLeftmost(s, 0);
    ReplacedFills(s, 0, Matches(s, 0), vars);
    TextsFill(s, 0, Matches(s, 0));
    assert s[0..] == s;
  }

  /** An accepted template needs nothing but known names: values for all of them decide the
      result, so no placeholder is left to chance. */
  lemma AcceptedNeedsKnownOnly(secrets: seq<string>, s: string, vars: Vars, vars': Vars)
    requires Accepted(secrets, s)
    requires forall name :: Known(secrets, name) ==> Lookup(vars, name) == Lookup(vars', name)
    ensures Render(s, vars) == Render(s, vars')
  {
    var ms := Matches(s, 0);
    RenderFillsGaps(s, vars);
    RenderFillsGaps(s, vars');
    forall i | 0 <= i < |ms| ensures Values(ms, vars)[i] == Values(ms, vars')[i] {
      assert Known(secrets, Matches(s, 0)[i].name);
    }
    assert Values(ms, vars) == Values(ms, vars');
  }

  /** A rejected one has a placeholder that stays empty although every known name has a
      value. */
  lemma RejectedLeavesEmpty(secrets: seq<string>, s: string, vars: Vars)
    requires !Accepted(secrets, s)
    requires forall name :: name in vars ==> Known(secrets, name)
    ensures exists i :: 0 <= i < |Matches(s, 0)| && Values(Matches(s, 0), vars)[i] == ""
  {
    var ms := Matches(s, 0);
    var i :| 0 <= i < |ms| && !Known(secrets, ms[i].name);
    assert Values(ms, vars)[i] == "";
  }

  // ---- Rendering a map ----

  function Codes(s: string): (c: seq<int>)
    ensures |c| == |s|
    ensures forall i :: 0 <= i < |s| ==> c[i] == s[i] as int
  {
    seq(|s|, i requires 0 <= i < |s| => s[i] as int)
  }

  predicate StringLeq(a: string, b: string) {
    !Less(Codes(b), Codes(a))
  }

  lemma CodesInjective(a: string, b: string)
    requires Codes(a) == Codes(b)
    ensures a == b
  {
    assert |a| == |b|;
    forall i | 0 <= i < |a| ensures a[i] == b[i] {
      assert Codes(a)[i] == Codes(b)[i];
    }
  }

  lemma StringLeqTotal()
    ensures TotalOrder(StringLeq)
  {
    forall x: string, y: string
      ensures StringLeq(x, y) || StringLeq(y, x)
      ensures StringLeq(x, y) && StringLeq(y, x) ==> x == y
    {
      LessTrichotomy(Codes(x), Codes(y));
      if Codes(x) == Codes(y) { CodesInjective(x, y); }
    }
    forall x: string, y: string, z: string | StringLeq(x, y) && StringLeq(y, z) ensures StringLeq(x, z) {
      var a, b, c := Codes(x), Codes(y), Codes(z);
      LessTrichotomy(a, b);
      LessTrichotomy(b, c);
      LessTrichotomy(a, c);
      if Less(c, a) && Less(a, b) { LessTransitive(c, a, b); }
    }
  }

  /** The keys of a map, each once, in byte order. */
  ghost predicate InKeyOrder(m: map<string, string>, keys: seq<string>) {
    Ascending(StringLeq, keys) && multiset(keys) == multiset(m.Keys)
  }

  lemma KeyOrderUnique(m: map<string, string>, a: seq<string>, b: seq<string>)
    requires InKeyOrder(m, a) && InKeyOrder(m, b)
    ensures a == b
  {
    StringLeqTotal();
    AscendingUnique(StringLeq, a, b);
  }

  method CollectKeys(m: map<string, string>) returns (keys: seq<string>)
    ensures multiset(keys) == multiset(m.Keys)
  {
    keys := [];
    var rest := m.Keys;
    while rest != {}
      invariant rest <= m.Keys
      invariant multiset(keys) == multiset(m.Keys - rest)
      decreases rest
    {
      var k :| k in rest;
      assert multiset(m.Keys - (rest - {k})) == multiset(m.Keys - rest) + multiset{k};
      keys := keys + [k];
      rest := rest - {k};
    }
    assert m.Keys - rest == m.Keys;
  }

  function RenderedEntries(m: map<string, string>, vars: Vars, keys: seq<string>): (r: seq<string>)
    requires forall i :: 0 <= i < |keys| ==> keys[i] in m
    ensures |r| == |keys|
    ensures forall i :: 0 <= i < |keys| ==> r[i] == keys[i] + "=" + Render(m[keys[i]], vars)
  {
    seq(|keys|, i requires 0 <= i < |keys| => keys[i] + "=" + Render(m[keys[i]], vars))
  }

  lemma SortedKeys(m: map<string, string>, collected: seq<string>)
    requires multiset(collected) == multiset(m.Keys)
    ensures InKeyOrder(m, Sort(StringLeq, collected))
    ensures forall k :: k in Sort(StringLeq, collected) ==> k in m
  {
    StringLeqTotal();
    SortSorts(StringLeq, collected);
    forall k | k in Sort(StringLeq, collected) ensures k in m {
      assert k in multiset(Sort(StringLeq, collected));
    }
  }

  /** KEY=value for every entry, rendered, in key order, whatever order the map gives. */
  method RenderMap(m: map<string, string>, vars: Vars) returns (out: seq<string>)
    ensures exists keys :: InKeyOrder(m, keys)
    ensures forall keys | InKeyOrder(m, keys) ::
      ((forall i :: 0 <= i < |keys| ==> keys[i] in m) && out == RenderedEntries(m, vars, keys))
  {
    var collected := CollectKeys(m);
    var keys := Sort(StringLeq, collected);
    SortedKeys(m, collected);
    out := RenderKeys(m, vars, keys);
    forall other | InKeyOrder(m, other) ensures other == keys {
      KeyOrderUnique(m, other, keys);
    }
  }

  method RenderKeys(m: map<string, string>, vars: Vars, keys: seq<string>) returns (out: seq<string>)
    requires forall i :: 0 <= i < |keys| ==> keys[i] in m
    ensures out == RenderedEntries(m, vars, keys)
  {
    out := [];
    for i := 0 to |keys|
      invariant out == RenderedEntries(m, vars, keys)[..i]
    {
      out := out + [keys[i] + "=" + Render(m[keys[i]], vars)];
    }
  }
}
