/** The pure helpers of the scriptlets' `safeSelf()` object, identical in
    both bundles: escaping text for a regular expression, turning a filter
    pattern into a regular expression, the literal-or-expression matcher of
    `initPattern`/`testPattern`, and `getExtraArgs`.

    A regular expression is a value (its source and its flags). Whether a
    source compiles, and what most expressions match, belong to the host
    (`RegexHost`); only the few expressions whose meaning ECMAScript fixes
    outright are given a meaning here: `^` (matches every string), an
    escaped literal (substring search) and `^` followed by an escaped
    literal (prefix test). */
module SafeSelf {
  import opened Wrappers
  import opened JsString

  // ---------------------------------------------------------------------
  // Escaping

  /** The characters of the class `[.*+?^${}()|[\]\\]` that
      `escapeRegexChars` prefixes with a backslash. */
  predicate IsRegexSpecial(c: char) {
    c in ".*+?^${}()|[]\\"
  }

  function EscapeChar(c: char): string {
    if IsRegexSpecial(c) then ['\\', c] else [c]
  }

  /** The text that a regular-expression source matches literally, when the
      source is made only of ordinary characters and backslash-escaped
      special characters; `None` for any other source. */
  function LiteralSource(src: string): Option<string>
    decreases |src|
  {
    if src == [] then Some([])
    else if src[0] == '\\' then
      if |src| >= 2 && IsRegexSpecial(src[1]) then
        match LiteralSource(src[2..])
        case None => None
        case Some(t) => Some([src[1]] + t)
      else None
    else if IsRegexSpecial(src[0]) then None
    else
      match LiteralSource(src[1..])
      case None => None
      case Some(t) => Some([src[0]] + t)
  }

  /** `escapeRegexChars(s)`: a source that matches exactly the text `s`. */
  function EscapeRegexChars(s: string): (r: string)
    ensures LiteralSource(r) == Some(s)
    ensures |s| > 0 ==> |r| > 0 && r[0] != '^'
  {
    if s == [] then []
    else
      var rest := EscapeRegexChars(s[1..]);
      EscapeStep(s[0], rest, s[1..]);
      assert [s[0]] + s[1..] == s;
      EscapeChar(s[0]) + rest
  }

  /** One escaped character in front of a literal source. */
  lemma EscapeStep(c: char, rest: string, t: string)
    requires LiteralSource(rest) == Some(t)
    ensures LiteralSource(EscapeChar(c) + rest) == Some([c] + t)
    ensures (EscapeChar(c) + rest)[0] != '^'
  {
    var r := EscapeChar(c) + rest;
    if IsRegexSpecial(c) {
      assert r[0] == '\\' && r[1] == c && r[2..] == rest;
    } else {
      assert r[0] == c && r[1..] == rest;
    }
  }

  /** Escaping works character by character: it distributes over
      concatenation. */
  lemma {:induction false} EscapeConcat(a: string, b: string)
    ensures EscapeRegexChars(a + b) == EscapeRegexChars(a) + EscapeRegexChars(b)
  {
    if a != [] {
      assert (a + b)[0] == a[0];
      assert (a + b)[1..] == a[1..] + b;
      EscapeConcat(a[1..], b);
      calc {
        EscapeRegexChars(a + b);
        EscapeChar(a[0]) + EscapeRegexChars(a[1..] + b);
        EscapeChar(a[0]) + (EscapeRegexChars(a[1..]) + EscapeRegexChars(b));
        (EscapeChar(a[0]) + EscapeRegexChars(a[1..])) + EscapeRegexChars(b);
      }
    } else {
      assert a + b == b;
    }
  }

  /** The special characters, and only they, gain a backslash. */
  lemma EscapeOneChar(c: char)
    ensures EscapeRegexChars([c]) == if c in ".*+?^${}()|[]\\" then ['\\', c] else [c]
  {
    assert [c][1..] == [];
  }

  /** A literal source is the escaping of the text it matches: escaping is
      the inverse of `LiteralSource` in both directions. */
  lemma {:induction false} LiteralSourceEscapes(src: string, t: string)
    requires LiteralSource(src) == Some(t)
    ensures EscapeRegexChars(t) == src
    decreases |src|
  {
    if src != [] {
      if src[0] == '\\' {
        var t' := LiteralSource(src[2..]).value;
        LiteralSourceEscapes(src[2..], t');
        assert t[1..] == t';
        assert src == ['\\', src[1]] + src[2..];
      } else {
        var t' := LiteralSource(src[1..]).value;
        LiteralSourceEscapes(src[1..], t');
        assert t[1..] == t';
        assert src == [src[0]] + src[1..];
      }
    }
  }

  // ---------------------------------------------------------------------
  // Regular expressions as values

  /** A `RegExp` value: its source text and its flags ("" when none). */
  datatype Regex = Regex(source: string, flags: string)

  /** `/^/`, the expression that matches every string. */
  const MatchAll: Regex := Regex("^", "")

  /** What the host's regular-expression engine decides: whether a source
      compiles, what an expression matches, and what `replace` produces. */
  datatype RegexHost = RegexHost(
    compiles: (string, string) -> bool,
    test: (Regex, string) -> bool,
    replace: (Regex, string, string) -> string)

  /** The flags `new RegExp(source, flags)` accepts: letters of `dgimsuvy`,
      none twice, and not both `u` and `v`. */
  predicate ValidFlags(f: string) {
    && (forall k :: 0 <= k < |f| ==> f[k] in "dgimsuvy")
    && (forall j, k :: 0 <= j < k < |f| ==> f[j] != f[k])
    && !('u' in f && 'v' in f)
  }

  /** `new RegExp(source, flags)` does not throw. */
  predicate Compiles(host: RegexHost, source: string, flags: string) {
    ValidFlags(flags) && host.compiles(source, flags)
  }

  /** `re.test(s)`. `reset` says that the expression's `lastIndex` is 0 (the
      caller reset it); an expression with the `g` or `y` flag whose
      `lastIndex` is not known is left to the host. A sticky (`y`) literal
      matches only at `lastIndex`, here 0. */
  function Test(host: RegexHost, re: Regex, s: string, reset: bool): bool {
    if !reset && ('g' in re.flags || 'y' in re.flags) then host.test(re, s)
    else if re.source == "^" then true
    else if 'i' in re.flags then host.test(re, s)
    else if |re.source| > 0 && re.source[0] == '^' && 'm' !in re.flags
            && LiteralSource(re.source[1..]).Some? then
      StartsWith(s, LiteralSource(re.source[1..]).value)
    else if LiteralSource(re.source).Some? then
      if 'y' in re.flags then StartsWith(s, LiteralSource(re.source).value)
      else Includes(s, LiteralSource(re.source).value)
    else host.test(re, s)
  }

  /** An escaped literal, without the `i` flag, is a substring search, or a
      prefix test when sticky. */
  lemma TestEscaped(host: RegexHost, text: string, flags: string, s: string, reset: bool)
    requires 'i' !in flags && (reset || ('g' !in flags && 'y' !in flags))
    ensures Test(host, Regex(EscapeRegexChars(text), flags), s, reset)
         == if 'y' in flags then StartsWith(s, text) else Includes(s, text)
  {
  }

  // ---------------------------------------------------------------------
  // The `/body/flags` syntax

  /** The two flag groups the scriptlets accept after `/body/`:
      `[gimsu]*` and `i?`. */
  datatype FlagSyntax = AnyOfGimsu | OptionalI

  predicate FlagsMatch(syntax: FlagSyntax, f: string) {
    match syntax
    case AnyOfGimsu => forall k :: 0 <= k < |f| ==> f[k] in "gimsu"
    case OptionalI => f == "" || f == "i"
  }

  /** The match of `^\/(.+)\/(flags)$` against `s`: the body runs to the last
      slash, because no flag character is a slash, and `.` excludes line
      terminators. */
  function SlashForm(s: string, syntax: FlagSyntax): (r: Option<(string, string)>)
    ensures r.Some? ==>
      && s == "/" + r.value.0 + "/" + r.value.1
      && |r.value.0| >= 1
      && (forall k :: 0 <= k < |r.value.0| ==> !IsLineTerminator(r.value.0[k]))
      && FlagsMatch(syntax, r.value.1)
  {
    var p := LastIndexOf(s, "/");
    if |s| >= 1 && s[0] == '/' && p >= 2 && FlagsMatch(syntax, s[p + 1..])
       && (forall k :: 1 <= k < p ==> !IsLineTerminator(s[k]))
    then
      assert s[p] == '/' by { assert s[p..p + 1] == "/"; }
      assert s == "/" + s[1..p] + "/" + s[p + 1..];
      Some((s[1..p], s[p + 1..]))
    else None
  }

  /** A string that does not start with a slash is not of the form
      `/body/flags`. */
  lemma SlashFormNeedsSlash(s: string, syntax: FlagSyntax)
    requires s == [] || s[0] != '/'
    ensures SlashForm(s, syntax).None?
  {
  }

  /** Every string of the form `/body/flags` is recognised, with that body
      and those flags (the converse of `SlashForm`'s postcondition). */
  lemma SlashFormOf(body: string, f: string, syntax: FlagSyntax)
    requires |body| >= 1
    requires forall k :: 0 <= k < |body| ==> !IsLineTerminator(body[k])
    requires FlagsMatch(syntax, f)
    ensures SlashForm("/" + body + "/" + f, syntax) == Some((body, f))
  {
    var s := "/" + body + "/" + f;
    var p0 := 1 + |body|;
    NoSlashInFlags(f, syntax);
    assert s[p0] == '/';
    assert forall q :: p0 < q < |s| ==> s[q] == f[q - p0 - 1];
    LastSlashAt(s, p0);
    assert s[1..p0] == body;
    assert s[p0 + 1..] == f;
  }

  lemma NoSlashInFlags(f: string, syntax: FlagSyntax)
    requires FlagsMatch(syntax, f)
    ensures forall k :: 0 <= k < |f| ==> f[k] != '/'
  {
    if syntax == OptionalI {
      assert f == "" || f == "i";
    }
  }

  /** The last slash of `s` is at `p0` when none follows it. */
  lemma LastSlashAt(s: string, p0: nat)
    requires p0 < |s| && s[p0] == '/'
    requires forall q :: p0 < q < |s| ==> s[q] != '/'
    ensures LastIndexOf(s, "/") == p0
  {
    assert OccursAt(s, "/", p0);
    forall q | p0 < q
      ensures !OccursAt(s, "/", q)
    {
      if q < |s| {
        assert s[q..q + 1][0] == s[q];
      }
    }
  }

  // ---------------------------------------------------------------------
  // patternToRegex

  /** `patternToRegex(pattern, flags, verbatim)`: the empty pattern matches
      everything; a pattern that is not `/body/flags` is matched literally
      (anchored at both ends when `verbatim`), with the supplied flags; a
      `/body/flags` pattern becomes that expression with its own flags only,
      and a body that does not compile falls back to `/^/`. The callers pass
      constant, valid flags. */
  function PatternToRegex(pattern: string, flags: string, verbatim: bool, host: RegexHost): (r: Regex)
    requires ValidFlags(flags)
    ensures pattern == "" ==> forall s :: Test(host, r, s, true)
    ensures pattern != "" && SlashForm(pattern, AnyOfGimsu).None? && !verbatim && 'i' !in flags ==>
              forall s :: Test(host, r, s, true) == if 'y' in flags then StartsWith(s, pattern) else Includes(s, pattern)
    ensures pattern != "" && SlashForm(pattern, AnyOfGimsu).None? ==> r.flags == flags
  {
    if pattern == "" then MatchAll
    else
      match SlashForm(pattern, AnyOfGimsu)
      case None =>
        var reStr := EscapeRegexChars(pattern);
        var r := Regex(if verbatim then "^" + reStr + "$" else reStr, flags);
        assert !verbatim && 'i' !in flags ==>
                 forall s :: Test(host, r, s, true) == if 'y' in flags then StartsWith(s, pattern) else Includes(s, pattern) by {
          if !verbatim && 'i' !in flags {
            forall s ensures Test(host, r, s, true) == if 'y' in flags then StartsWith(s, pattern) else Includes(s, pattern) {
              TestEscaped(host, pattern, flags, s, true);
            }
          }
        }
        r
      case Some((body, f)) =>
        if Compiles(host, body, f) then Regex(body, f) else MatchAll
  }

  /** For a `/body/flags` pattern the supplied flags and `verbatim` are
      ignored, and a body that fails to compile gives `/^/`. */
  lemma PatternToRegexSlash(pattern: string, flags1: string, flags2: string, verbatim1: bool, verbatim2: bool, host: RegexHost)
    requires ValidFlags(flags1) && ValidFlags(flags2)
    requires SlashForm(pattern, AnyOfGimsu).Some?
    ensures PatternToRegex(pattern, flags1, verbatim1, host) == PatternToRegex(pattern, flags2, verbatim2, host)
    ensures var (body, f) := SlashForm(pattern, AnyOfGimsu).value;
            PatternToRegex(pattern, flags1, verbatim1, host) == if Compiles(host, body, f) then Regex(body, f) else MatchAll
  {
    assert pattern != "";
  }

  /** `/text/` without flags, for a text of ordinary characters, is a
      substring search for that text. */
  lemma PatternToRegexSlashLiteral(text: string, flags: string, verbatim: bool, host: RegexHost, s: string)
    requires ValidFlags(flags)
    requires |text| >= 1 && LiteralSource(text) == Some(text)
    requires forall k :: 0 <= k < |text| ==> !IsLineTerminator(text[k])
    requires host.compiles(text, "")
    ensures Test(host, PatternToRegex("/" + text + "/", flags, verbatim, host), s, true) == Includes(s, text)
  {
    SlashFormOf(text, "", AnyOfGimsu);
    assert "/" + text + "/" + "" == "/" + text + "/";
    assert ValidFlags("");
    var r := PatternToRegex("/" + text + "/", flags, verbatim, host);
    assert r == Regex(text, "");
    PlainLiteralTest(host, text, s);
  }

  /** A source of ordinary characters without flags is a substring search. */
  lemma PlainLiteralTest(host: RegexHost, text: string, s: string)
    requires |text| >= 1 && LiteralSource(text) == Some(text)
    ensures Test(host, Regex(text, ""), s, true) == Includes(s, text)
  {
    assert text[0] != '^';
  }

  // ---------------------------------------------------------------------
  // initPattern / testPattern

  /** What `initPattern` returns: match-everything, an expression, or a
      plain text searched for as a substring; `expected` is false when the
      pattern was negated with a leading `!`. */
  datatype PatternDetails =
    | MatchAllPattern
    | RegexPattern(re: Regex, expected: bool)
    | TextPattern(text: string, expected: bool)

  /** `initPattern(pattern, { canNegate, flags })`; `flags` is `None` when the
      option is absent. The expression constructors are not guarded, so an
      uncompilable body or invalid flags throw. */
  function InitPattern(pattern: string, canNegate: bool, flags: Option<string>, host: RegexHost): (r: Result<PatternDetails>)
    ensures pattern == "" ==> r == Ok(MatchAllPattern)
    ensures r.Ok? && !r.value.MatchAllPattern? ==> r.value.expected == !(canNegate && StartsWith(pattern, "!"))
    ensures r.Ok? && r.value.TextPattern? ==> flags.None?
  {
    if pattern == "" then Ok(MatchAllPattern)
    else
      var expected := !canNegate || !StartsWith(pattern, "!");
      var p := if expected then pattern else pattern[1..];
      match SlashForm(p, AnyOfGimsu)
      case Some((body, f)) =>
        var fl := if f != "" then f else if flags.Some? then flags.value else "";
        if Compiles(host, body, fl) then Ok(RegexPattern(Regex(body, fl), expected)) else Throws(SyntaxError)
      case None =>
        if flags.Some? then
          if ValidFlags(flags.value) then Ok(RegexPattern(Regex(EscapeRegexChars(p), flags.value), expected))
          else Throws(SyntaxError)
        else Ok(TextPattern(p, expected))
  }

  /** `testPattern(details, haystack)`; the expression's `lastIndex` is not
      reset here. */
  function TestPattern(details: PatternDetails, haystack: string, host: RegexHost): bool {
    match details
    case MatchAllPattern => true
    case RegexPattern(re, expected) => Test(host, re, haystack, false) == expected
    case TextPattern(text, expected) => Includes(haystack, text) == expected
  }

  /** A plain text pattern, with or without flags that do not change
      literal matching, is a substring test, and with `canNegate` a leading
      `!` inverts it. */
  lemma InitPatternLiteral(text: string, negate: bool, flags: Option<string>, host: RegexHost, haystack: string)
    requires text != "" && !StartsWith(text, "!") && SlashForm(text, AnyOfGimsu).None?
    requires flags.Some? ==> ValidFlags(flags.value) && 'i' !in flags.value && 'g' !in flags.value && 'y' !in flags.value
    ensures var pattern := if negate then "!" + text else text;
            var r := InitPattern(pattern, true, flags, host);
            r.Ok? && TestPattern(r.value, haystack, host) == (Includes(haystack, text) != negate)
  {
    var pattern := if negate then "!" + text else text;
    assert StartsWith(pattern, "!") == negate by {
      if !negate { assert pattern == text; }
      else { assert pattern[..1] == "!"; }
    }
    if negate { assert pattern[1..] == text; }
    if flags.Some? {
      TestEscaped(host, text, flags.value, haystack, false);
    }
  }

  /** The pattern `!` alone (with `canNegate`) searches for the empty text
      and expects it absent, so it matches nothing. */
  lemma InitPatternBangAlone(host: RegexHost, haystack: string)
    ensures InitPattern("!", true, None, host) == Ok(TextPattern("", false))
    ensures !TestPattern(InitPattern("!", true, None, host).value, haystack, host)
  {
    assert StartsWith("!", "!");
    assert "!"[1..] == "";
    assert OccursAt(haystack, "", 0);
  }

  // ---------------------------------------------------------------------
  // getExtraArgs

  /** A value of the options record: a string, an integer parsed from a
      string of digits, or `undefined` for a key without a value. */
  datatype ArgValue = Str(s: string) | Num(n: nat) | Undefined

  /** JavaScript truthiness of an option value. */
  predicate Truthy(v: ArgValue) {
    match v
    case Str(s) => s != ""
    case Num(n) => n != 0
    case Undefined => false
  }

  /** `/^\d+$/.test(s)` */
  predicate AllDigits(s: string) {
    |s| > 0 && forall k :: 0 <= k < |s| ==> '0' <= s[k] <= '9'
  }

  /** The decimal value of a string of digits (`parseInt(s, 10)`). */
  function DigitsValue(s: string): nat
    requires forall k :: 0 <= k < |s| ==> '0' <= s[k] <= '9'
    decreases |s|
  {
    if s == [] then 0 else DigitsValue(s[..|s| - 1]) * 10 + (s[|s| - 1] - '0') as nat
  }

  /** The value stored for one raw argument (`None` past the end). */
  function ArgOf(raw: Option<string>): (v: ArgValue)
    ensures v.Num? <==> raw.Some? && AllDigits(raw.value)
    ensures v == Undefined <==> raw.None?
    ensures v.Str? ==> raw == Some(v.s)
  {
    match raw
    case None => Undefined
    case Some(s) => if AllDigits(s) then Num(DigitsValue(s)) else Str(s)
  }

  /** The `[key, value]` entries of the `reduce`: one per even position. */
  function Entries(a: seq<string>): seq<(string, ArgValue)>
    decreases |a|
  {
    if |a| == 0 then []
    else if |a| == 1 then [(a[0], Undefined)]
    else [(a[0], ArgOf(Some(a[1])))] + Entries(a[2..])
  }

  /** `Object.fromEntries`: a later entry for the same key overwrites. */
  function FromEntries(es: seq<(string, ArgValue)>): map<string, ArgValue>
    decreases |es|
  {
    if es == [] then map[] else FromEntries(es[..|es| - 1])[es[|es| - 1].0 := es[|es| - 1].1]
  }

  /** `getExtraArgs(args, offset)` */
  function GetExtraArgs(args: seq<string>, offset: nat): map<string, ArgValue> {
    FromEntries(Entries(args[if offset <= |args| then offset else |args|..]))
  }

  lemma {:induction false} EntriesAt(a: seq<string>, j: nat)
    requires 2 * j < |a|
    ensures |Entries(a)| == (|a| + 1) / 2
    ensures Entries(a)[j] == (a[2 * j], if 2 * j + 1 < |a| then ArgOf(Some(a[2 * j + 1])) else Undefined)
    decreases |a|
  {
    if j > 0 {
      EntriesAt(a[2..], j - 1);
    } else if |a| >= 2 {
      EntriesLength(a[2..]);
    }
  }

  lemma {:induction false} EntriesLength(a: seq<string>)
    ensures |Entries(a)| == (|a| + 1) / 2
    decreases |a|
  {
    if |a| >= 2 { EntriesLength(a[2..]); }
  }

  lemma {:induction false} FromEntriesKeys(es: seq<(string, ArgValue)>, k: string)
    ensures k in FromEntries(es) <==> exists j :: 0 <= j < |es| && es[j].0 == k
    decreases |es|
  {
    if es != [] {
      var init := es[..|es| - 1];
      FromEntriesKeys(init, k);
      if k in FromEntries(init) {
        var j :| 0 <= j < |init| && init[j].0 == k;
        assert es[j].0 == k;
      }
      if exists j :: 0 <= j < |es| && es[j].0 == k {
        var j :| 0 <= j < |es| && es[j].0 == k;
        if j < |init| { assert init[j].0 == k; }
      }
    }
  }

  lemma {:induction false} FromEntriesLast(es: seq<(string, ArgValue)>, j: nat)
    requires j < |es|
    requires forall j' :: j < j' < |es| ==> es[j'].0 != es[j].0
    ensures es[j].0 in FromEntries(es) && FromEntries(es)[es[j].0] == es[j].1
    decreases |es|
  {
    if j < |es| - 1 {
      var init := es[..|es| - 1];
      assert init[j] == es[j];
      FromEntriesLast(init, j);
    }
  }

  /** The options record has a key exactly when some even position from
      `offset` on holds it, and then the value that follows the LAST such
      position: a number for a string of digits, the string itself
      otherwise, and `undefined` when the key is the final argument. */
  lemma GetExtraArgsLookup(args: seq<string>, offset: nat, i: nat)
    requires offset <= i < |args| && (i - offset) % 2 == 0
    requires forall i' :: i < i' < |args| && (i' - offset) % 2 == 0 ==> args[i'] != args[i]
    ensures args[i] in GetExtraArgs(args, offset)
    ensures GetExtraArgs(args, offset)[args[i]] == ArgOf(if i + 1 < |args| then Some(args[i + 1]) else None)
  {
    var a := args[offset..];
    var es := Entries(a);
    var j := (i - offset) / 2;
    EntriesAt(a, j);
    forall j' | j < j' < |es| ensures es[j'].0 != es[j].0 {
      EntriesAt(a, j');
      assert es[j'].0 == args[offset + 2 * j'];
    }
    FromEntriesLast(es, j);
  }

  lemma GetExtraArgsKeys(args: seq<string>, offset: nat, k: string)
    requires offset <= |args|
    ensures k in GetExtraArgs(args, offset) <==>
            exists i :: offset <= i < |args| && (i - offset) % 2 == 0 && args[i] == k
  {
    var a := args[offset..];
    var es := Entries(a);
    FromEntriesKeys(es, k);
    EntriesLength(a);
    if k in GetExtraArgs(args, offset) {
      var j :| 0 <= j < |es| && es[j].0 == k;
      EntriesAt(a, j);
      assert args[offset + 2 * j] == k;
      assert (offset + 2 * j - offset) % 2 == 0;
    }
    if exists i :: offset <= i < |args| && (i - offset) % 2 == 0 && args[i] == k {
      var i :| offset <= i < |args| && (i - offset) % 2 == 0 && args[i] == k;
      var j := (i - offset) / 2;
      EntriesAt(a, j);
      assert es[j].0 == k;
    }
  }
}
