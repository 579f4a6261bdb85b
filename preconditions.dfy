/** The preconditions of `trusted-click-element`: its second argument is a
    comma-separated list of assertions `kind:pattern`, each about the page's
    cookies or its local storage, and the clicking starts only when every
    assertion of a known kind holds. A leading `!` on the kind negates the
    assertion; a pattern `/body/` or `/body/i` is that regular expression,
    any other pattern `key=value` a prefix test for that text.

    Two defects of the code as written are modelled beside the corrected
    behaviour, selected by `asWritten`: the `key=value` form calls
    `escapeRegexChars` on the wrong receiver and throws a `TypeError`, and
    the local-storage reader returns its first item instead of a list, which
    the matcher then cannot iterate. */
module Preconditions {
  import opened Wrappers
  import opened JsString
  import opened SafeSelf

  // ---------------------------------------------------------------------
  // Parsing one assertion

  /** One element of `extraMatch` after parsing, before its expression is
      built: discarded (no `:`, or nothing after it), a `/body/flags`
      pattern, or a `key=value` pattern. */
  datatype Draft =
    | Discarded
    | SlashDraft(not: bool, kind: string, body: string, flags: string)
    | PairDraft(not: bool, kind: string, key: string, value: string)

  /** The `map` callback up to the construction of the expression. */
  function Classify(s: string): (r: Draft)
  {
    var pos1 := IndexOfChar(s, ':');
    var s1 := if pos1 != -1 then s[..pos1] else s;
    var not := StartsWithChar(s1, '!');
    var kind := if not then s1[1..] else s1;
    var s2 := if pos1 != -1 then Trim(s[pos1 + 1..]) else "";
    ClassifyPattern(not, kind, s2)
  }

  /** The callback once the kind is known: `s2` is the trimmed pattern. */
  function ClassifyPattern(not: bool, kind: string, s2: string): Draft {
    if s2 == "" then Discarded
    else
      match SlashForm(s2, OptionalI)
      case Some((body, f)) => SlashDraft(not, kind, body, f)
      case None =>
        var pos2 := IndexOfChar(s2, '=');
        var key := if pos2 != -1 then Trim(s2[..pos2]) else s2;
        var value := if pos2 != -1 then Trim(s2[pos2 + 1..]) else "";
        PairDraft(not, kind, key, value)
  }

  /** The text of an assertion: the kind, with `!` when negated, then `:`
      and the pattern. */
  function AssertionText(not: bool, kind: string, pattern: string): string {
    (if not then "!" else "") + kind + ":" + pattern
  }

  /** What any piece parses to: discarded exactly when it has no `:` or
      nothing but whitespace after the first one; negated exactly when it
      starts with `!`; a `/body/` pattern has a body and the flags `i` or
      none; a key holds no `=`; the kind is the text before the first
      `:`, without the leading `!`. */
  lemma ClassifyShape(s: string)
    ensures var r := Classify(s);
      && (r.Discarded? <==> (var p := IndexOfChar(s, ':'); p == -1 || Trim(s[p + 1..]) == ""))
      && (!r.Discarded? ==> (r.not <==> StartsWithChar(s, '!')))
      && (r.SlashDraft? ==> |r.body| >= 1 && (r.flags == "" || r.flags == "i"))
      && (r.PairDraft? ==> '=' !in r.key)
    ensures var r := Classify(s); var p := IndexOfChar(s, ':');
      !r.Discarded? ==> p >= 0 && r.kind == (if StartsWithChar(s, '!') then s[1..p] else s[..p])
  {
    var pos1 := IndexOfChar(s, ':');
    var s1 := if pos1 != -1 then s[..pos1] else s;
    var not := StartsWithChar(s1, '!');
    var kind := if not then s1[1..] else s1;
    var s2 := if pos1 != -1 then Trim(s[pos1 + 1..]) else "";
    ClassifyPatternShape(not, kind, s2);
    if pos1 != -1 {
      assert s1 == s[..pos1];
      assert StartsWithChar(s1, '!') == StartsWithChar(s, '!');
    }
  }

  /** `ClassifyShape` for the callback's part. */
  lemma ClassifyPatternShape(not: bool, kind: string, s2: string)
    ensures var r := ClassifyPattern(not, kind, s2);
      && (r.Discarded? <==> s2 == "")
      && (!r.Discarded? ==> r.not == not && r.kind == kind)
      && (r.SlashDraft? ==> |r.body| >= 1 && (r.flags == "" || r.flags == "i"))
      && (r.PairDraft? ==> '=' !in r.key)
  {
  }

  /** A written `key=value` assertion parses back to its parts. */
  lemma ClassifyPair(not: bool, kind: string, key: string, value: string)
    requires ':' !in kind && (!not ==> !StartsWithChar(kind, '!'))
    requires '=' !in key && key != "" && key[0] != '/'
    requires !IsSpace(key[0]) && !IsSpace(key[|key| - 1])
    requires value == "" || (!IsSpace(value[0]) && !IsSpace(value[|value| - 1]))
    ensures Classify(AssertionText(not, kind, key + "=" + value)) == PairDraft(not, kind, key, value)
  {
    var s2 := key + "=" + value;
    assert s2[0] == key[0];
    assert s2[|s2| - 1] == if value == "" then '=' else value[|value| - 1];
    TrimUnchanged(s2);
    ClassifyText(not, kind, s2);
    SlashFormNeedsSlash(s2, OptionalI);
    PairParts(key, value);
  }

  /** An assertion's text parses as its pattern, when the pattern is
      already trimmed. */
  lemma ClassifyText(not: bool, kind: string, s2: string)
    requires ':' !in kind && (!not ==> !StartsWithChar(kind, '!'))
    requires Trim(s2) == s2
    ensures Classify(AssertionText(not, kind, s2)) == ClassifyPattern(not, kind, s2)
  {
    PrefixKind(not, kind, s2);
  }

  /** The pattern `key=value` splits at its first `=` back into its parts. */
  lemma PairParts(key: string, value: string)
    requires '=' !in key && key != ""
    requires !IsSpace(key[0]) && !IsSpace(key[|key| - 1])
    requires value == "" || (!IsSpace(value[0]) && !IsSpace(value[|value| - 1]))
    ensures var s2 := key + "=" + value;
            var pos2 := IndexOfChar(s2, '=');
            pos2 == |key| && Trim(s2[..pos2]) == key && Trim(s2[pos2 + 1..]) == value
  {
    var s2 := key + "=" + value;
    IndexOfCharAt(key, "=" + value, '=');
    assert key + ("=" + value) == s2;
    assert s2[..|key|] == key;
    assert s2[|key| + 1..] == value;
    TrimUnchanged(key);
    TrimUnchanged(value);
  }

  /** A written `/body/flags` assertion parses back to its parts. */
  lemma ClassifySlash(not: bool, kind: string, body: string, flags: string)
    requires ':' !in kind && (!not ==> !StartsWithChar(kind, '!'))
    requires |body| >= 1 && forall k :: 0 <= k < |body| ==> !IsLineTerminator(body[k])
    requires flags == "" || flags == "i"
    ensures Classify(AssertionText(not, kind, "/" + body + "/" + flags)) == SlashDraft(not, kind, body, flags)
  {
    var s2 := "/" + body + "/" + flags;
    SlashPattern(body, flags);
    ClassifyText(not, kind, s2);
  }

  /** The pattern `/body/flags` is already trimmed and is read back as that
      body and those flags. */
  lemma SlashPattern(body: string, flags: string)
    requires |body| >= 1 && forall k :: 0 <= k < |body| ==> !IsLineTerminator(body[k])
    requires flags == "" || flags == "i"
    ensures var s2 := "/" + body + "/" + flags;
            s2 != "" && Trim(s2) == s2 && SlashForm(s2, OptionalI) == Some((body, flags))
  {
    var s2 := "/" + body + "/" + flags;
    assert s2[0] == '/';
    assert s2[|s2| - 1] == if flags == "" then '/' else 'i';
    assert !IsSpace(s2[0]) && !IsSpace(s2[|s2| - 1]);
    TrimUnchanged(s2);
    assert FlagsMatch(OptionalI, flags);
    SlashFormOf(body, flags, OptionalI);
  }

  /** The part before the first `:` of an assertion's text is its kind. */
  lemma PrefixKind(not: bool, kind: string, s2: string)
    requires ':' !in kind && (!not ==> !StartsWithChar(kind, '!'))
    ensures var s := AssertionText(not, kind, s2);
            var s1 := (if not then "!" else "") + kind;
            && IndexOfChar(s, ':') == |s1|
            && s[..|s1|] == s1 && s[|s1| + 1..] == s2
            && StartsWithChar(s1, '!') == not
            && (if not then s1[1..] else s1) == kind
  {
    var s1 := (if not then "!" else "") + kind;
    assert ':' !in s1;
    var s := AssertionText(not, kind, s2);
    assert s == s1 + (":" + s2);
    IndexOfCharAt(s1, ":" + s2, ':');
    assert s[..|s1|] == s1;
    if !not { assert s1 == kind; }
  }

  // ---------------------------------------------------------------------
  // Building the expressions

  /** A parsed assertion with its expression. */
  datatype Assertion = Assertion(not: bool, kind: string, re: Regex)

  /** The expression of a corrected `key=value` assertion:
      `^` + escaped key + `=` + escaped value, without flags. */
  function KeyValueRegex(key: string, value: string): Regex {
    Regex("^" + EscapeRegexChars(key) + "=" + EscapeRegexChars(value), "")
  }

  /** It tests that the text starts with `key=value`, and nothing else:
      it is anchored at the start only. */
  lemma KeyValueRegexTest(host: RegexHost, key: string, value: string, t: string)
    ensures Test(host, KeyValueRegex(key, value), t, true) == StartsWith(t, key + "=" + value)
  {
    var src := KeyValueRegex(key, value).source;
    EscapeKeyValue(key, value);
    assert src == "^" + EscapeRegexChars(key + "=" + value);
    PrefixLiteralTest(host, key + "=" + value, t);
  }

  lemma EscapeKeyValue(key: string, value: string)
    ensures EscapeRegexChars(key) + "=" + EscapeRegexChars(value) == EscapeRegexChars(key + "=" + value)
  {
    EscapeEquals();
    EscapeConcat(key, "=");
    EscapeConcat(key + "=", value);
  }

  lemma EscapeEquals()
    ensures EscapeRegexChars("=") == "="
  {
    EscapeOneChar('=');
    assert !IsRegexSpecial('=');
  }

  /** `^` followed by an escaped non-empty text is a prefix test. */
  lemma PrefixLiteralTest(host: RegexHost, lit: string, t: string)
    requires lit != ""
    ensures Test(host, Regex("^" + EscapeRegexChars(lit), ""), t, true) == StartsWith(t, lit)
  {
    var src := "^" + EscapeRegexChars(lit);
    assert src[1..] == EscapeRegexChars(lit);
    assert |src| >= 2;
  }

  /** The expression of one draft. A `/body/flags` body that does not
      compile throws; as written, a `key=value` pattern always throws. */
  function BuildAssertion(d: Draft, host: RegexHost, asWritten: bool): (r: Result<Option<Assertion>>)
    ensures d.Discarded? <==> r == Ok(None)
    ensures d.SlashDraft? ==> (r.Throws? <==> !Compiles(host, d.body, d.flags))
    ensures d.PairDraft? ==> (r.Throws? <==> asWritten)
    ensures r.Ok? && r.value.Some? ==> r.value.value.not == d.not && r.value.value.kind == d.kind
  {
    match d
    case Discarded => Ok(None)
    case SlashDraft(not, kind, body, flags) =>
      if Compiles(host, body, flags) then Ok(Some(Assertion(not, kind, Regex(body, flags))))
      else Throws(SyntaxError)
    case PairDraft(not, kind, key, value) =>
      if asWritten then Throws(TypeError)
      else Ok(Some(Assertion(not, kind, KeyValueRegex(key, value))))
  }

  /** The drafts of the comma-separated pieces, in order. */
  function Drafts(pieces: seq<string>): (r: seq<Draft>)
    ensures |r| == |pieces|
  {
    seq(|pieces|, k requires 0 <= k < |pieces| => Classify(pieces[k]))
  }

  /** The `map` and `filter` over the drafts: the first one that throws
      ends the parsing. */
  function ParseAll(drafts: seq<Draft>, host: RegexHost, asWritten: bool): (r: Result<seq<Assertion>>)
    ensures r.Throws? <==> exists k :: 0 <= k < |drafts| && BuildAssertion(drafts[k], host, asWritten).Throws?
    ensures r.Ok? ==> |r.value| <= |drafts|
    ensures r.Ok? ==> forall a :: a in r.value <==>
              exists k :: 0 <= k < |drafts| && BuildAssertion(drafts[k], host, asWritten) == Ok(Some(a))
    decreases |drafts|
  {
    if drafts == [] then Ok([])
    else
      var b := BuildAssertion(drafts[0], host, asWritten);
      var rest := ParseAll(drafts[1..], host, asWritten);
      assert forall k :: 1 <= k < |drafts| ==> drafts[k] == drafts[1..][k - 1];
      if b.Throws? then Throws(b.error)
      else if rest.Throws? then
        ghost var j :| 0 <= j < |drafts[1..]| && BuildAssertion(drafts[1..][j], host, asWritten).Throws?;
        assert drafts[j + 1] == drafts[1..][j];
        Throws(rest.error)
      else
        var r := (if b.value.Some? then [b.value.value] else []) + rest.value;
        assert forall a :: a in r <==>
                 exists k :: 0 <= k < |drafts| && BuildAssertion(drafts[k], host, asWritten) == Ok(Some(a)) by {
          forall a
            ensures a in r <==>
                    exists k :: 0 <= k < |drafts| && BuildAssertion(drafts[k], host, asWritten) == Ok(Some(a))
          {
            if a in rest.value {
              var j :| 0 <= j < |drafts[1..]| && BuildAssertion(drafts[1..][j], host, asWritten) == Ok(Some(a));
              assert drafts[j + 1] == drafts[1..][j];
            }
            if k :| 0 <= k < |drafts| && BuildAssertion(drafts[k], host, asWritten) == Ok(Some(a)) {
              if k > 0 { assert drafts[1..][k - 1] == drafts[k]; }
            }
          }
        }
        Ok(r)
  }

  /** The assertions of `extraMatch`, split on `,`. */
  function AssertionsOf(extraMatch: string, host: RegexHost, asWritten: bool): Result<seq<Assertion>> {
    ParseAll(Drafts(Split(extraMatch, ',')), host, asWritten)
  }

  // ---------------------------------------------------------------------
  // Cookies and local storage

  /** An element of a haystack: a `{ key, value }` record, or a plain string
      (what a cookie without `=` becomes). */
  datatype Item = Pair(key: string, value: string) | Plain(text: string)

  /** The text an element is tested on, `${key}=${value}`: destructuring a
      plain string gives `undefined` for both. */
  function ItemText(it: Item): string {
    match it
    case Pair(k, v) => k + "=" + v
    case Plain(_) => "undefined=undefined"
  }

  /** One segment of `document.cookie`: dropped when it starts with `=`,
      the string `name=` when it has no `=`, otherwise the trimmed key and
      value around the first `=`. */
  function CookieItem(seg: string): (r: Option<Item>)
    ensures r.None? <==> |seg| > 0 && seg[0] == '='
    ensures r.Some? && r.value.Plain? <==> '=' !in seg
    ensures r.Some? && r.value.Pair? ==>
      exists p :: 0 < p < |seg| && seg[p] == '=' && '=' !in seg[..p]
                  && r.value == Pair(Trim(seg[..p]), Trim(seg[p + 1..]))
  {
    var pos := IndexOfChar(seg, '=');
    if pos == 0 then None
    else if pos == -1 then Some(Plain(Trim(seg) + "="))
    else
      var r := Pair(Trim(seg[..pos]), Trim(seg[pos + 1..]));
      assert 0 < pos < |seg| && seg[pos] == '=' && '=' !in seg[..pos];
      Some(r)
  }

  /** The `map` and `filter` of `getAllCookiesFn`. */
  function CookieItems(segs: seq<string>): (r: seq<Item>)
    ensures |r| <= |segs|
    ensures forall it :: it in r <==> exists k :: 0 <= k < |segs| && CookieItem(segs[k]) == Some(it)
    decreases |segs|
  {
    if segs == [] then []
    else
      var rest := CookieItems(segs[1..]);
      var r := (if CookieItem(segs[0]).Some? then [CookieItem(segs[0]).value] else []) + rest;
      assert forall it :: it in r <==> exists k :: 0 <= k < |segs| && CookieItem(segs[k]) == Some(it) by {
        forall it ensures it in r <==> exists k :: 0 <= k < |segs| && CookieItem(segs[k]) == Some(it) {
          if it in rest {
            var j :| 0 <= j < |segs[1..]| && CookieItem(segs[1..][j]) == Some(it);
            assert segs[j + 1] == segs[1..][j];
          }
          if k :| 0 <= k < |segs| && CookieItem(segs[k]) == Some(it) {
            if k > 0 { assert segs[1..][k - 1] == segs[k]; }
          }
        }
      }
      r
  }

  /** `getAllCookiesFn()`: `document.cookie` split on `;` with the
      whitespace around it. */
  function AllCookies(cookie: string): seq<Item> {
    CookieItems(SplitAround(cookie, ';'))
  }

  /** What the matcher iterates: a list, or (as written, for a non-empty
      storage) a single record, which is not iterable. */
  datatype Haystack = Iterable(items: seq<Item>) | NotIterable

  /** `getAllLocalStorageFn()` as written: its loop returns the first item
      as a record, so only an empty storage gives a list. */
  function StorageAsWritten(storage: seq<(string, string)>): (h: Haystack)
    ensures h.NotIterable? <==> storage != []
  {
    if |storage| == 0 then Iterable([]) else NotIterable
  }

  /** The evidently intended reader: every `{ key, value }` item, in the
      order of `storage.key(i)`. */
  function StorageItems(storage: seq<(string, string)>): (r: seq<Item>)
    ensures |r| == |storage|
    ensures forall k :: 0 <= k < |r| ==> r[k] == Pair(storage[k].0, storage[k].1)
  {
    seq(|storage|, k requires 0 <= k < |storage| => Pair(storage[k].0, storage[k].1))
  }

  // ---------------------------------------------------------------------
  // Matching

  /** Some element's text passes the expression. The expressions of
      assertions have no `g` flag, so `lastIndex` plays no part. */
  predicate Hit(items: seq<Item>, re: Regex, host: RegexHost) {
    exists k :: 0 <= k < |items| && Test(host, re, ItemText(items[k]), true)
  }

  /** `hasNeedle(haystack, needle)`: iterating a record throws. */
  function NeedleIn(h: Haystack, re: Regex, host: RegexHost): Result<bool> {
    match h
    case NotIterable => Throws(TypeError)
    case Iterable(items) => Ok(Hit(items, re, host))
  }

  /** The `hasNeedle` loop: the first element that passes ends it. */
  method HasNeedle(h: Haystack, re: Regex, host: RegexHost) returns (r: Result<bool>)
    ensures r == NeedleIn(h, re, host)
  {
    if h.NotIterable? { return Throws(TypeError); }
    var items := h.items;
    for k := 0 to |items|
      invariant forall j :: 0 <= j < k ==> !Test(host, re, ItemText(items[j]), true)
    {
      if Test(host, re, ItemText(items[k]), true) {
        return Ok(true);
      }
    }
    return Ok(false);
  }

  /** The haystack an assertion's kind is checked against; other kinds
      are ignored. */
  function HaystackOf(kind: string, cookies: Haystack, storage: Haystack): Option<Haystack> {
    if kind == "cookie" then Some(cookies)
    else if kind == "localStorage" then Some(storage)
    else None
  }

  /** The assertion loop: `Ok(false)` when the task returns early, at the
      first checked assertion whose needle presence equals its `not`. */
  function Verdict(list: seq<Assertion>, cookies: Haystack, storage: Haystack, host: RegexHost): Result<bool>
    decreases |list|
  {
    if list == [] then Ok(true)
    else
      match HaystackOf(list[0].kind, cookies, storage)
      case None => Verdict(list[1..], cookies, storage, host)
      case Some(h) =>
        match NeedleIn(h, list[0].re, host)
        case Throws(e) => Throws(e)
        case Ok(found) =>
          if found == list[0].not then Ok(false) else Verdict(list[1..], cookies, storage, host)
  }

  /** The loop over the assertions, as the source runs it. */
  method CheckAssertions(list: seq<Assertion>, cookies: Haystack, storage: Haystack, host: RegexHost)
    returns (r: Result<bool>)
    ensures r == Verdict(list, cookies, storage, host)
  {
    for k := 0 to |list|
      invariant Verdict(list, cookies, storage, host) == Verdict(list[k..], cookies, storage, host)
    {
      assert list[k..][1..] == list[k + 1..];
      var h := HaystackOf(list[k].kind, cookies, storage);
      if h.Some? {
        var found := HasNeedle(h.value, list[k].re, host);
        if found.Throws? { return Throws(found.error); }
        if found.value == list[k].not { return Ok(false); }
      }
    }
    return Ok(true);
  }

  /** The cookies the matcher sees: read only when some assertion is
      about cookies. */
  function CookieHaystack(list: seq<Assertion>, cookie: string): Haystack {
    if exists k :: 0 <= k < |list| && list[k].kind == "cookie" then Iterable(AllCookies(cookie))
    else Iterable([])
  }

  /** The storage items the matcher sees: read only when some assertion is
      about local storage. */
  function StorageHaystack(list: seq<Assertion>, storage: seq<(string, string)>, asWritten: bool): Haystack {
    if exists k :: 0 <= k < |list| && list[k].kind == "localStorage" then
      if asWritten then StorageAsWritten(storage) else Iterable(StorageItems(storage))
    else Iterable([])
  }

  /** The whole check: `Ok(true)` when the task goes on to the page,
      `Ok(false)` when it returns first. */
  function PreconditionsHold(extraMatch: string, cookie: string, storage: seq<(string, string)>,
                             host: RegexHost, asWritten: bool): Result<bool>
  {
    if extraMatch == "" then Ok(true)
    else
      match AssertionsOf(extraMatch, host, asWritten)
      case Throws(e) => Throws(e)
      case Ok(list) =>
        Verdict(list, CookieHaystack(list, cookie), StorageHaystack(list, storage, asWritten), host)
  }

  /** The method form of the whole check. */
  method CheckPreconditions(extraMatch: string, cookie: string, storage: seq<(string, string)>,
                            host: RegexHost, asWritten: bool) returns (r: Result<bool>)
    ensures r == PreconditionsHold(extraMatch, cookie, storage, host, asWritten)
  {
    if extraMatch == "" { return Ok(true); }
    var parsed := AssertionsOf(extraMatch, host, asWritten);
    if parsed.Throws? { return Throws(parsed.error); }
    var list := parsed.value;
    r := CheckAssertions(list, CookieHaystack(list, cookie), StorageHaystack(list, storage, asWritten), host);
  }

  // ---------------------------------------------------------------------
  // Properties

  /** With lists to search, the task goes on exactly when every assertion
      of a known kind finds its needle present (or, negated, absent). */
  lemma {:induction false} VerdictExactly(list: seq<Assertion>, cookies: Haystack, storage: Haystack, host: RegexHost)
    requires cookies.Iterable? && storage.Iterable?
    ensures Verdict(list, cookies, storage, host) ==
      Ok(forall k :: 0 <= k < |list| && HaystackOf(list[k].kind, cookies, storage).Some? ==>
           Hit(HaystackOf(list[k].kind, cookies, storage).value.items, list[k].re, host) != list[k].not)
    decreases |list|
  {
    if list != [] {
      VerdictExactly(list[1..], cookies, storage, host);
      assert forall k :: 1 <= k < |list| ==> list[k] == list[1..][k - 1];
    }
  }

  /** A haystack that no assertion's kind selects is never consulted. */
  lemma {:induction false} VerdictIgnoresUnread(list: seq<Assertion>, c1: Haystack, c2: Haystack,
                                              s1: Haystack, s2: Haystack, host: RegexHost)
    requires (forall k :: 0 <= k < |list| ==> list[k].kind != "cookie") || c1 == c2
    requires (forall k :: 0 <= k < |list| ==> list[k].kind != "localStorage") || s1 == s2
    ensures Verdict(list, c1, s1, host) == Verdict(list, c2, s2, host)
    decreases |list|
  {
    if list != [] {
      assert forall k :: 1 <= k < |list| ==> list[1..][k - 1] == list[k];
      VerdictIgnoresUnread(list[1..], c1, c2, s1, s2, host);
    }
  }

  /** The corrected check, as the source intends it: with no usable
      assertion the task goes on; otherwise it goes on exactly when each
      cookie or storage assertion finds its needle present, or absent when
      negated. */
  lemma PreconditionsExactly(extraMatch: string, cookie: string, storage: seq<(string, string)>, host: RegexHost)
    requires AssertionsOf(extraMatch, host, false).Ok?
    ensures var list := AssertionsOf(extraMatch, host, false).value;
      PreconditionsHold(extraMatch, cookie, storage, host, false) ==
      Ok(forall k :: 0 <= k < |list| && (list[k].kind == "cookie" || list[k].kind == "localStorage") ==>
           Hit(if list[k].kind == "cookie" then AllCookies(cookie) else StorageItems(storage), list[k].re, host)
           != list[k].not)
  {
    var list := AssertionsOf(extraMatch, host, false).value;
    if extraMatch == "" {
      NoTextNoAssertions(host, false);
    } else {
      HoldsOfList(extraMatch, cookie, storage, host, false);
      VerdictOfList(list, cookie, storage, host);
    }
  }

  /** The corrected verdict over a parsed list, read against the cookies
      and the storage items. */
  lemma VerdictOfList(list: seq<Assertion>, cookie: string, storage: seq<(string, string)>, host: RegexHost)
    ensures Verdict(list, CookieHaystack(list, cookie), StorageHaystack(list, storage, false), host) ==
      Ok(forall k :: 0 <= k < |list| && (list[k].kind == "cookie" || list[k].kind == "localStorage") ==>
           Hit(if list[k].kind == "cookie" then AllCookies(cookie) else StorageItems(storage), list[k].re, host)
           != list[k].not)
  {
    var cookies := Iterable(AllCookies(cookie));
    var items := Iterable(StorageItems(storage));
    VerdictIgnoresUnread(list, CookieHaystack(list, cookie), cookies, StorageHaystack(list, storage, false), items, host);
    VerdictExactly(list, cookies, items, host);
    KindsAgree(list, cookie, storage, host);
  }

  /** `VerdictExactly`'s condition, read for the cookie and storage lists. */
  lemma KindsAgree(list: seq<Assertion>, cookie: string, storage: seq<(string, string)>, host: RegexHost)
    ensures var cookies, items := Iterable(AllCookies(cookie)), Iterable(StorageItems(storage));
      (forall k :: 0 <= k < |list| && HaystackOf(list[k].kind, cookies, items).Some? ==>
         Hit(HaystackOf(list[k].kind, cookies, items).value.items, list[k].re, host) != list[k].not)
      <==>
      (forall k :: 0 <= k < |list| && (list[k].kind == "cookie" || list[k].kind == "localStorage") ==>
         Hit(if list[k].kind == "cookie" then AllCookies(cookie) else StorageItems(storage), list[k].re, host)
         != list[k].not)
  {
    var cookies, items := Iterable(AllCookies(cookie)), Iterable(StorageItems(storage));
    forall k | 0 <= k < |list|
      ensures (HaystackOf(list[k].kind, cookies, items).Some? ==>
                 Hit(HaystackOf(list[k].kind, cookies, items).value.items, list[k].re, host) != list[k].not)
              <==>
              ((list[k].kind == "cookie" || list[k].kind == "localStorage") ==>
                 Hit(if list[k].kind == "cookie" then AllCookies(cookie) else StorageItems(storage), list[k].re, host)
                 != list[k].not)
    {
      KindAgrees(list[k], cookie, storage, host);
    }
  }

  lemma KindAgrees(a: Assertion, cookie: string, storage: seq<(string, string)>, host: RegexHost)
    ensures var cookies, items := Iterable(AllCookies(cookie)), Iterable(StorageItems(storage));
      (HaystackOf(a.kind, cookies, items).Some? ==>
         Hit(HaystackOf(a.kind, cookies, items).value.items, a.re, host) != a.not)
      <==>
      ((a.kind == "cookie" || a.kind == "localStorage") ==>
         Hit(if a.kind == "cookie" then AllCookies(cookie) else StorageItems(storage), a.re, host) != a.not)
  {
  }

  /** A non-empty `extraMatch` that parses is decided by the verdict over
      its assertions. */
  lemma HoldsOfList(extraMatch: string, cookie: string, storage: seq<(string, string)>,
                    host: RegexHost, asWritten: bool)
    requires extraMatch != "" && AssertionsOf(extraMatch, host, asWritten).Ok?
    ensures var list := AssertionsOf(extraMatch, host, asWritten).value;
      PreconditionsHold(extraMatch, cookie, storage, host, asWritten)
      == Verdict(list, CookieHaystack(list, cookie), StorageHaystack(list, storage, asWritten), host)
  {
  }

  /** Cookies are read only when some assertion is about cookies: with
      none, two cookie jars give the same outcome over the same storage. */
  lemma UnreadCookiesIgnored(extraMatch: string, cookie1: string, cookie2: string,
                             storage: seq<(string, string)>, host: RegexHost, asWritten: bool)
    requires AssertionsOf(extraMatch, host, asWritten).Ok?
    requires var list := AssertionsOf(extraMatch, host, asWritten).value;
             forall k :: 0 <= k < |list| ==> list[k].kind != "cookie"
    ensures PreconditionsHold(extraMatch, cookie1, storage, host, asWritten)
         == PreconditionsHold(extraMatch, cookie2, storage, host, asWritten)
  {
  }

  /** Storage is read only when some assertion is about local storage: with
      none, two stores give the same outcome over the same cookie jar. */
  lemma UnreadStorageIgnored(extraMatch: string, cookie: string,
                             storage1: seq<(string, string)>, storage2: seq<(string, string)>,
                             host: RegexHost, asWritten: bool)
    requires AssertionsOf(extraMatch, host, asWritten).Ok?
    requires var list := AssertionsOf(extraMatch, host, asWritten).value;
             forall k :: 0 <= k < |list| ==> list[k].kind != "localStorage"
    ensures PreconditionsHold(extraMatch, cookie, storage1, host, asWritten)
         == PreconditionsHold(extraMatch, cookie, storage2, host, asWritten)
  {
  }

  /** The empty `extraMatch` holds no assertion. */
  lemma NoTextNoAssertions(host: RegexHost, asWritten: bool)
    ensures AssertionsOf("", host, asWritten) == Ok([])
  {
    assert Split("", ',') == [""];
    assert Drafts([""]) == [Discarded];
  }

  /** As written, any `key=value` assertion makes the whole call throw a
      `TypeError`-or-earlier error, cookies or not. */
  lemma KeyValueAssertionThrows(extraMatch: string, cookie: string, storage: seq<(string, string)>,
                                host: RegexHost, k: nat)
    requires k < |Split(extraMatch, ',')| && Classify(Split(extraMatch, ',')[k]).PairDraft?
    ensures PreconditionsHold(extraMatch, cookie, storage, host, true).Throws?
  {
    NoTextNoAssertions(host, true);
    var drafts := Drafts(Split(extraMatch, ','));
    assert drafts[k] == Classify(Split(extraMatch, ',')[k]);
    assert BuildAssertion(drafts[k], host, true).Throws?;
    assert AssertionsOf(extraMatch, host, true).Throws?;
    assert extraMatch != "";
  }

  /** A single `kind:key=value` assertion: as written it throws a
      `TypeError`; corrected, it is a prefix test for `key=value`. */
  lemma SingleKeyValueAssertion(not: bool, kind: string, key: string, value: string, host: RegexHost, t: string)
    requires ':' !in kind && ',' !in kind && (!not ==> !StartsWithChar(kind, '!'))
    requires '=' !in key && ',' !in key && key != "" && key[0] != '/'
    requires !IsSpace(key[0]) && !IsSpace(key[|key| - 1])
    requires ',' !in value && (value == "" || (!IsSpace(value[0]) && !IsSpace(value[|value| - 1])))
    ensures var text := AssertionText(not, kind, key + "=" + value);
            && AssertionsOf(text, host, true) == Throws(TypeError)
            && AssertionsOf(text, host, false) == Ok([Assertion(not, kind, KeyValueRegex(key, value))])
            && Test(host, KeyValueRegex(key, value), t, true) == StartsWith(t, key + "=" + value)
  {
    var text := AssertionText(not, kind, key + "=" + value);
    NoCommaText(not, kind, key + "=" + value);
    ClassifyPair(not, kind, key, value);
    PairAssertions(text, not, kind, key, value, host);
    KeyValueRegexTest(host, key, value, t);
  }

  lemma NoCommaText(not: bool, kind: string, pattern: string)
    requires ',' !in kind && ',' !in pattern
    ensures ',' !in AssertionText(not, kind, pattern)
  {
  }

  /** A text that is one `key=value` piece parses to that one assertion. */
  lemma PairAssertions(text: string, not: bool, kind: string, key: string, value: string, host: RegexHost)
    requires ',' !in text && Classify(text) == PairDraft(not, kind, key, value)
    ensures AssertionsOf(text, host, true) == Throws(TypeError)
    ensures AssertionsOf(text, host, false) == Ok([Assertion(not, kind, KeyValueRegex(key, value))])
  {
    OnePiece(text, host, true);
    OnePiece(text, host, false);
  }

  /** Text without a comma is one piece, parsed on its own. */
  lemma OnePiece(text: string, host: RegexHost, asWritten: bool)
    requires ',' !in text
    ensures var b := BuildAssertion(Classify(text), host, asWritten);
            AssertionsOf(text, host, asWritten) ==
              match b
              case Throws(e) => Throws(e)
              case Ok(None) => Ok([])
              case Ok(Some(a)) => Ok([a])
  {
    assert Split(text, ',') == [text];
    var drafts := Drafts([text]);
    assert drafts == [Classify(text)];
    assert drafts[1..] == [];
    assert ParseAll(drafts[1..], host, asWritten) == Ok([]);
    var b := BuildAssertion(Classify(text), host, asWritten);
    if b.Ok? && b.value.Some? {
      assert [b.value.value] + [] == [b.value.value];
    }
  }

  /** As written, a store with any item makes the first assertion, when it
      is a storage one, throw a `TypeError`. */
  lemma StorageAssertionThrows(extraMatch: string, cookie: string, storage: seq<(string, string)>, host: RegexHost)
    requires AssertionsOf(extraMatch, host, true).Ok?
    requires var list := AssertionsOf(extraMatch, host, true).value;
             |list| >= 1 && list[0].kind == "localStorage"
    requires storage != []
    ensures PreconditionsHold(extraMatch, cookie, storage, host, true) == Throws(TypeError)
  {
    NoTextNoAssertions(host, true);
    var list := AssertionsOf(extraMatch, host, true).value;
    HoldsOfList(extraMatch, cookie, storage, host, true);
    StorageReadAsWritten(list, storage);
    StorageFirstThrows(list, CookieHaystack(list, cookie), host);
  }

  lemma StorageReadAsWritten(list: seq<Assertion>, storage: seq<(string, string)>)
    requires |list| >= 1 && list[0].kind == "localStorage" && storage != []
    ensures StorageHaystack(list, storage, true) == NotIterable
  {
    assert list[0].kind == "localStorage";
  }

  lemma StorageFirstThrows(list: seq<Assertion>, cookies: Haystack, host: RegexHost)
    requires |list| >= 1 && list[0].kind == "localStorage"
    ensures Verdict(list, cookies, NotIterable, host) == Throws(TypeError)
  {
  }
}
