# uBlock Origin Lite scriptlets: a Dafny model

This project models two of the injected scriptlet bundles of uBlock Origin
Lite (the MV3 build of uBlock Origin), with proofs about them:

- `annoyances-cookies.trusted-click-element.js`
  - the hostname resolver that decides which argument rows run on a page;
  - `trustedClickElement`: the cookie and localStorage preconditions, the
    selector list, the `>>>` shadow-piercing `querySelectorEx`, the click
    delay, and the timer- and observer-driven click state machine.
- `ublock-filters.remove-node-text.js`
  - `removeNodeText` and `replaceNodeTextFn`: argument handling,
    `handleNode`, the `sedCount` quota, the tree walk, the mutation
    observer, `stop` and `quitAfter`;
  - `runAt`, with its ready-state levels;
  - the copy of the resolver, which also consults ancestor frames.
- The `safeSelf` helpers both bundles use: `escapeRegexChars`,
  `patternToRegex`, `initPattern`/`testPattern` and `getExtraArgs`.

## Modules

- **Wrappers**: `Option` and `Result`. `Result.Throws` carries a JavaScript
  `TypeError` or `SyntaxError`.
- **JsString**: the `String.prototype` operations the scriptlets rely on:
  - `indexOf` and `lastIndexOf`;
  - `trim`, `trimStart` and `trimEnd`;
  - `split` on a character, `join`;
  - `split` on `/\s*c\s*/`.
- **SafeSelf**: the regex helpers and `getExtraArgs`.
  - A regular expression is a value `Regex(source, flags)`.
  - Matching (`Test`) is interpreted exactly for the empty pattern and for
    escaped literals, plain or `^`-anchored; a sticky (`y`) literal is
    interpreted when its `lastIndex` is known to be 0. Any other pattern,
    and a `g` or `y` expression whose `lastIndex` is not known, is answered
    by a host oracle passed in as a parameter.
- **Resolver** and **ResolverExamples**:
  - the lookup keys a hostname generates: each suffix of its labels plus
    the `label.*` entity forms;
  - parsing of frame origins;
  - the include and exclude sets, and the dispatch loop;
  - worked examples over excerpts of the two bundles' tables.
- **Preconditions**: the `extraMatch` assertions of trusted-click-element,
  `getAllCookiesFn`, `getAllLocalStorageFn` and the early-return verdict.
- **ClickScheduler**:
  - the DOM (`querySelector`, shadow roots and `click`) is an oracle value;
  - `next`, `observe`, `terminate` and `process` form a pure state machine;
  - the class `ClickTask` holds the mutable state and proves each method
    against that machine;
  - `runAtHtmlElementFn` is the class `HtmlElementWait`.
- **NodeText**:
  - the configuration that the arguments produce;
  - `handleNode` as a pure step, and sweeps over node sequences;
  - the class `NodeTextTask`: its `sedCount`, its write log, the observer's
    connection and pending records, and the quit timer;
  - `runAt`, as the `IntFromReadyState` loop and the class `ReadyStateWait`.

Clocks, timers, `document.cookie`, `localStorage`, the DOM and regular
expression evaluation are not computed by the model. Values such as the
current time or the result of a DOM lookup are parameters. A timer or an
observer callback is a method that the environment calls.

## Model

| member | source | states |
|---|---|---|
| JsString.IsSpace | chromium/rulesets/scripting/scriptlet/annoyances-cookies.trusted-click-element.js:47 | ECMAScript WhiteSpace and LineTerminator, the characters `trim` removes and `\s` matches |
| JsString.Includes | chromium/rulesets/scripting/scriptlet/ublock-filters.remove-node-text.js:273-275 | `String.prototype.includes`: the needle occurs at some position |
| JsString.StartsWith | chromium/rulesets/scripting/scriptlet/annoyances-cookies.trusted-click-element.js:58 | the needle is a prefix, what a regex anchored by `^` on literal text tests |
| JsString.Join | chromium/rulesets/scripting/scriptlet/annoyances-cookies.trusted-click-element.js:452 | `parts.join(sep)`: the pieces with the separator between neighbours, the only piece alone, and "" for none; JoinCons unfolds it and SplitJoin inverts it |
| JsString.IndexOf | chromium/rulesets/scripting/scriptlet/annoyances-cookies.trusted-click-element.js:100 | the result is the first position where the needle occurs, with no earlier occurrence; it is -1 exactly when the needle is absent |
| JsString.IndexOfChar | chromium/rulesets/scripting/scriptlet/annoyances-cookies.trusted-click-element.js:43 | -1 exactly when the character is absent; otherwise its first position |
| JsString.LastIndexOf | chromium/rulesets/scripting/scriptlet/annoyances-cookies.trusted-click-element.js:475 | the last occurrence, with none after it; -1 exactly when absent |
| JsString.TrimStart | chromium/rulesets/scripting/scriptlet/annoyances-cookies.trusted-click-element.js:102-103 | the result is a suffix of the input that does not start with white space |
| JsString.TrimStartRemovesSpace | chromium/rulesets/scripting/scriptlet/annoyances-cookies.trusted-click-element.js:102-103 | every character removed from the front is white space |
| JsString.TrimEnd | chromium/rulesets/scripting/scriptlet/annoyances-cookies.trusted-click-element.js:102-103 | the result is a prefix that does not end with white space |
| JsString.TrimEndRemovesSpace | chromium/rulesets/scripting/scriptlet/annoyances-cookies.trusted-click-element.js:102-103 | every character removed from the back is white space |
| JsString.Trim | chromium/rulesets/scripting/scriptlet/annoyances-cookies.trusted-click-element.js:47 | the result has no white space at either end and takes its characters from the input |
| JsString.TrimRemovesSpace | chromium/rulesets/scripting/scriptlet/annoyances-cookies.trusted-click-element.js:47 | the result is the input with exactly its leading and trailing white space removed |
| JsString.Split | chromium/rulesets/scripting/scriptlet/annoyances-cookies.trusted-click-element.js:448 | there is at least one piece, no piece contains the separator, and joining the pieces gives back the input |
| JsString.JoinCons | chromium/rulesets/scripting/scriptlet/annoyances-cookies.trusted-click-element.js:452 | joining a list that starts with x gives x, the separator, then the join of the rest |
| JsString.SplitJoin | chromium/rulesets/scripting/scriptlet/annoyances-cookies.trusted-click-element.js:448 | splitting a join of separator-free pieces gives back the pieces |
| JsString.SplitAround | chromium/rulesets/scripting/scriptlet/annoyances-cookies.trusted-click-element.js:110 | splitting on `/\s*,\s*/`: at least one piece, no piece holds the separator, and no piece has white space beside a separator (contents in SplitAroundCuts) |
| JsString.StripAtSeparators | chromium/rulesets/scripting/scriptlet/annoyances-cookies.trusted-click-element.js:110 | the result keeps no white space at a side a separator touches; a piece without white space is kept whole |
| JsString.StripAll | chromium/rulesets/scripting/scriptlet/annoyances-cookies.trusted-click-element.js:110 | stripping every piece keeps their number; no white space is left next to a separator |
| JsString.StripAtSeparatorsCuts | chromium/rulesets/scripting/scriptlet/annoyances-cookies.trusted-click-element.js:110 | only white space is removed, and only at the start of a piece that follows a separator and at the end of one that precedes a separator; together with StripAtSeparators this fixes the result |
| JsString.StripAllCuts | chromium/rulesets/scripting/scriptlet/annoyances-cookies.trusted-click-element.js:110 | each stripped piece is its input piece less the white space its separators swallowed, nothing at the start of the first and the end of the last |
| JsString.SplitAroundCuts | chromium/rulesets/scripting/scriptlet/annoyances-cookies.trusted-click-element.js:110 | the pieces of the split on `/\s*c\s*/` are, one for one, the pieces of the split on `c`, each less the white space run beside each separator it touches |
| JsString.SplitAroundNoSpace | chromium/rulesets/scripting/scriptlet/annoyances-cookies.trusted-click-element.js:110 | when the input has no white space, splitting on `/\s*,\s*/` is the same as splitting on `,` |
| JsString.PieceHasNoSpace | chromium/rulesets/scripting/scriptlet/annoyances-cookies.trusted-click-element.js:110 | the pieces of an input without white space have none either |
| JsString.IndexOfCharAt | chromium/rulesets/scripting/scriptlet/annoyances-cookies.trusted-click-element.js:43 | the first position of c in a+b is the length of a when a does not contain c and b starts with c |
| JsString.TrimUnchanged | chromium/rulesets/scripting/scriptlet/annoyances-cookies.trusted-click-element.js:47 | a string that does not start or end with white space trims to itself |
| SafeSelf.Test | chromium/rulesets/scripting/scriptlet/ublock-filters.remove-node-text.js:199 | the outcome of `RegExp.prototype.test`: `/^/` always matches, an escaped literal without `i` is a substring test (a prefix test when `^`-anchored or sticky at `lastIndex` 0), and any other expression, or a `g` or `y` one whose `lastIndex` was not reset, is the host's answer; TestEscaped states the literal case |
| SafeSelf.TestPattern | chromium/rulesets/scripting/scriptlet/ublock-filters.remove-node-text.js:263-269 | testPattern: true for match-all; for an expression, its test (with `lastIndex` as left) compared with `expect`; for a text, containment compared with `expect`; InitPatternLiteral and InitPatternBangAlone state it for literal patterns |
| SafeSelf.Truthy | chromium/rulesets/scripting/scriptlet/ublock-filters.remove-node-text.js:132 | JavaScript truthiness of an option value: a non-empty string, a non-zero number; undefined is falsy |
| SafeSelf.Entries | chromium/rulesets/scripting/scriptlet/ublock-filters.remove-node-text.js:285-294 | the `reduce` over the arguments: one `[name, value]` pair per even position, the value coerced from the next argument; EntriesAt and EntriesLength state its contents and length |
| SafeSelf.FromEntries | chromium/rulesets/scripting/scriptlet/ublock-filters.remove-node-text.js:295 | `Object.fromEntries`: a map in which a later entry for the same name overwrites an earlier one; FromEntriesKeys and FromEntriesLast state this |
| SafeSelf.GetExtraArgs | chromium/rulesets/scripting/scriptlet/ublock-filters.remove-node-text.js:284-296 | getExtraArgs: the entries of the arguments from `offset` on (none when `offset` is past the end) as an object; GetExtraArgsLookup and GetExtraArgsKeys state which names it holds and their values |
| SafeSelf.EscapeRegexChars | chromium/rulesets/scripting/scriptlet/ublock-filters.remove-node-text.js:232-234 | read as a regex literal, the escaped text denotes exactly the input; a non-empty escape never starts with `^` |
| SafeSelf.EscapeConcat | chromium/rulesets/scripting/scriptlet/ublock-filters.remove-node-text.js:233 | the global replace escapes each character alone, so escaping distributes over concatenation |
| SafeSelf.EscapeOneChar | chromium/rulesets/scripting/scriptlet/ublock-filters.remove-node-text.js:233 | exactly the fourteen regex-special characters (dot, star, plus, question mark, caret, dollar, braces, parentheses, vertical bar, brackets and backslash) get a backslash before them |
| SafeSelf.LiteralSourceEscapes | chromium/rulesets/scripting/scriptlet/ublock-filters.remove-node-text.js:233 | the converse: any regex source that denotes the literal t is the escaping of t |
| SafeSelf.TestEscaped | chromium/rulesets/scripting/scriptlet/ublock-filters.remove-node-text.js:273-275 | without the `i` flag, an escaped literal matches a string exactly when the string contains the literal, or, with the sticky `y` flag at `lastIndex` 0, starts with it |
| SafeSelf.SlashForm | chromium/rulesets/scripting/scriptlet/ublock-filters.remove-node-text.js:272 | a match of `^\/(.+)\/([gimsu]*)$` has a non-empty body and a flag string drawn from the allowed flag letters |
| SafeSelf.SlashFormNeedsSlash | chromium/rulesets/scripting/scriptlet/ublock-filters.remove-node-text.js:272 | a pattern that does not start with `/` is not in slash form |
| SafeSelf.SlashFormOf | chromium/rulesets/scripting/scriptlet/ublock-filters.remove-node-text.js:272 | `/body/flags` with allowed flag letters and no `/` in the flag string is split back into body and flags |
| SafeSelf.PatternToRegex | chromium/rulesets/scripting/scriptlet/ublock-filters.remove-node-text.js:270-283 | the empty pattern matches everything; a plain pattern that is not verbatim and has no `i` flag is a substring test (a prefix test under `y`); a plain pattern keeps the flags it is given |
| SafeSelf.PatternToRegexSlash | chromium/rulesets/scripting/scriptlet/ublock-filters.remove-node-text.js:277-282 | for a slash pattern the caller's flags and verbatim setting are ignored; the result is the compiled body with its own flags, or `/^/` when compilation fails |
| SafeSelf.PatternToRegexSlashLiteral | chromium/rulesets/scripting/scriptlet/ublock-filters.remove-node-text.js:272-279 | a slash pattern whose body is a plain literal is a substring test for that literal |
| SafeSelf.InitPattern | chromium/rulesets/scripting/scriptlet/ublock-filters.remove-node-text.js:235-262 | the empty pattern is match-all; a leading `!` sets the expected outcome to false exactly when negation is allowed; a text pattern carries no flags |
| SafeSelf.InitPatternLiteral | chromium/rulesets/scripting/scriptlet/ublock-filters.remove-node-text.js:235-269 | for a literal that is not a slash pattern, testPattern succeeds exactly when containment of the literal equals the expected outcome |
| SafeSelf.InitPatternBangAlone | chromium/rulesets/scripting/scriptlet/ublock-filters.remove-node-text.js:239-262 | the pattern `!` is an empty text with the expected outcome false, so it fails on every haystack |
| SafeSelf.ArgOf | chromium/rulesets/scripting/scriptlet/ublock-filters.remove-node-text.js:286-291 | a value made only of digits becomes a number, a missing one is undefined, and any other value stays the string |
| SafeSelf.EntriesAt | chromium/rulesets/scripting/scriptlet/ublock-filters.remove-node-text.js:285-294 | the arguments pair up as (name, value); a trailing name gets an undefined value |
| SafeSelf.EntriesLength | chromium/rulesets/scripting/scriptlet/ublock-filters.remove-node-text.js:285-294 | there are ceil(n/2) pairs |
| SafeSelf.FromEntriesKeys | chromium/rulesets/scripting/scriptlet/ublock-filters.remove-node-text.js:295 | the object has exactly the names of the pairs as keys |
| SafeSelf.FromEntriesLast | chromium/rulesets/scripting/scriptlet/ublock-filters.remove-node-text.js:295 | when a name repeats, the last pair's value wins |
| SafeSelf.GetExtraArgsLookup | chromium/rulesets/scripting/scriptlet/ublock-filters.remove-node-text.js:284-296 | for a name at an even distance from the offset, with no later repeat, the object maps the name to its following argument, coerced |
| SafeSelf.GetExtraArgsKeys | chromium/rulesets/scripting/scriptlet/ublock-filters.remove-node-text.js:284-296 | the keys are exactly the arguments at even distance from the offset |
| Resolver.Lookup | chromium/rulesets/scripting/scriptlet/ublock-filters.remove-node-text.js:377-387 | the indices stored under a key: none when the key is missing, the one number, or the array's elements; CollectArgIndices adds exactly these |
| Resolver.SuffixKeys | chromium/rulesets/scripting/scriptlet/ublock-filters.remove-node-text.js:393-397 | the keys of the first loop, in order: the labels from i on, joined with `.`, then the marker; SuffixKeysEnds states its ends |
| Resolver.EntityKeys | chromium/rulesets/scripting/scriptlet/ublock-filters.remove-node-text.js:398-407 | the keys of the nested entity loops, in loop order: labels i to j-1 joined with `.`, then `.*` and the marker; EntityRowsMembers states which keys they are |
| Resolver.LookupKeys | chromium/rulesets/scripting/scriptlet/ublock-filters.remove-node-text.js:389-408 | every key indicesFromHostname looks up, in order: the suffix keys, then the entity keys when the bundle has entities; LookupKeysExactly characterises its members |
| Resolver.HitsSeq | chromium/rulesets/scripting/scriptlet/ublock-filters.remove-node-text.js:393-407 | the union of the indices found under a sequence of keys; HitsSeqMembers and HitsSeqConcat state its members |
| Resolver.OriginHostname | chromium/rulesets/scripting/scriptlet/ublock-filters.remove-node-text.js:416-421 | the hostname of an origin: the text after the last `://`, cut at the first `:`, or nothing without `://`; OriginHostnameSpec states this |
| Resolver.AncestorKeys | chromium/rulesets/scripting/scriptlet/ublock-filters.remove-node-text.js:430-435 | the keys of the ancestor loop: those of every entry whose index is not 0, each with the marker `>>`; AncestorLookups is proved against it |
| Resolver.PageKeys | chromium/rulesets/scripting/scriptlet/ublock-filters.remove-node-text.js:429-435 | every key looked up for a page: the first entry's keys without a marker, then the ancestor keys when the bundle matches ancestors; FramedPageKeys states it for a framed page |
| Resolver.ScopeOf | chromium/rulesets/scripting/scriptlet/ublock-filters.remove-node-text.js:426-435 | the include and exclude sets: the hits of the page keys in the hostname map and in the exception map; ResolveScope and ResolveEntries are proved against it |
| Resolver.Applicable | chromium/rulesets/scripting/scriptlet/ublock-filters.remove-node-text.js:438-439 | the rules that run: included and not excluded; ApplicableExactly and Dispatch state this |
| Resolver.CollectArgIndices | chromium/rulesets/scripting/scriptlet/annoyances-cookies.trusted-click-element.js:435-445 | the index set grows by exactly what the map holds for the key, whether a single number or a list; a missing key adds nothing |
| Resolver.EntityRowsMembers | chromium/rulesets/scripting/scriptlet/annoyances-cookies.trusted-click-element.js:456-465 | the entity keys are exactly `labels[i..j].*` plus the suffix, for 0 <= i < j <= n-1 |
| Resolver.LookupKeysExactly | chromium/rulesets/scripting/scriptlet/annoyances-cookies.trusted-click-element.js:447-465 | a key is looked up exactly when it is a label suffix of the hostname or an entity form, followed by the suffix marker |
| Resolver.SuffixKeysEnds | chromium/rulesets/scripting/scriptlet/annoyances-cookies.trusted-click-element.js:451-455 | the first key is the whole hostname and the last is its final label, each followed by the suffix marker; even the empty hostname yields one key |
| Resolver.HitsSeqMembers | chromium/rulesets/scripting/scriptlet/annoyances-cookies.trusted-click-element.js:451-464 | an index is collected exactly when one of the keys maps to it |
| Resolver.HitsSeqConcat | chromium/rulesets/scripting/scriptlet/annoyances-cookies.trusted-click-element.js:451-464 | looking up two batches of keys collects the union of the two batches' hits |
| Resolver.IndicesFromHostname | chromium/rulesets/scripting/scriptlet/annoyances-cookies.trusted-click-element.js:447-466 | the include set and the exclude set each grow by the hits of all the hostname's lookup keys in their own map |
| Resolver.SuffixLookups | chromium/rulesets/scripting/scriptlet/annoyances-cookies.trusted-click-element.js:451-455 | the suffix loop adds the hits of every label-suffix key |
| Resolver.EntityLookups | chromium/rulesets/scripting/scriptlet/annoyances-cookies.trusted-click-element.js:456-465 | the entity loops add the hits of every entity key |
| Resolver.EntityRowLookups | chromium/rulesets/scripting/scriptlet/annoyances-cookies.trusted-click-element.js:459-464 | the inner loop adds the hits of the entity keys that start at label i, longest first |
| Resolver.OriginHostnameSpec | chromium/rulesets/scripting/scriptlet/annoyances-cookies.trusted-click-element.js:474-479 | an origin without `://` is dropped; otherwise the hostname is the text after the last `://`, cut at the first `:` |
| Resolver.Hostnames | chromium/rulesets/scripting/scriptlet/annoyances-cookies.trusted-click-element.js:474-479 | there is one parsed hostname per origin |
| Resolver.Entries | chromium/rulesets/scripting/scriptlet/annoyances-cookies.trusted-click-element.js:468-481 | the entries are exactly the origins that have `://`, in order, each with its original frame index |
| Resolver.EntriesUpTo | chromium/rulesets/scripting/scriptlet/annoyances-cookies.trusted-click-element.js:474-480 | for the first n origins: each entry names an origin below n that has that hostname, and the entries keep the origins' order |
| Resolver.EntriesUpToComplete | chromium/rulesets/scripting/scriptlet/annoyances-cookies.trusted-click-element.js:474-480 | no origin below n that has a hostname is dropped from the entries |
| Resolver.ResolveScope | chromium/rulesets/scripting/scriptlet/annoyances-cookies.trusted-click-element.js:468-494 | the scriptlet returns early exactly when no origin has a hostname; otherwise the two sets are the hits of the page's lookup keys |
| Resolver.ResolveEntries | chromium/rulesets/scripting/scriptlet/ublock-filters.remove-node-text.js:429-435 | the top frame is looked up with no marker and, when ancestors are on, each non-top frame with `>>` |
| Resolver.AncestorLookups | chromium/rulesets/scripting/scriptlet/ublock-filters.remove-node-text.js:430-435 | the ancestor loop adds the `>>`-marked hits of every entry whose index is not 0 |
| Resolver.ApplicableExactly | chromium/rulesets/scripting/scriptlet/annoyances-cookies.trusted-click-element.js:484-497 | a row runs exactly when some lookup key includes it and no lookup key excludes it |
| Resolver.TopFrameApplicable | chromium/rulesets/scripting/scriptlet/annoyances-cookies.trusted-click-element.js:447-497 | on a page with no ancestor lookups, a row runs exactly when one of the top hostname's keys includes it and none excludes it |
| Resolver.KeysHit | chromium/rulesets/scripting/scriptlet/annoyances-cookies.trusted-click-element.js:447-465 | a row is collected from the hostname exactly when one of its lookup keys maps to that row |
| Resolver.FramedPageKeys | chromium/rulesets/scripting/scriptlet/ublock-filters.remove-node-text.js:429-435 | for a frame with one ancestor, the keys are the frame's plain keys followed by the ancestor's `>>` keys |
| Resolver.FramedScope | chromium/rulesets/scripting/scriptlet/ublock-filters.remove-node-text.js:429-435 | the sets of a framed page are the unions of the two hostnames' hits |
| Resolver.FramedPair | chromium/rulesets/scripting/scriptlet/ublock-filters.remove-node-text.js:429-435 | given the hits of the frame and of its ancestor, the scope is their union |
| Resolver.OwnKeysNoMarker | chromium/rulesets/scripting/scriptlet/annoyances-cookies.trusted-click-element.js:452-460 | when the hostname does not end in `>`, none of its own keys ends in `>`, so `>>` entries only match through ancestors |
| Resolver.NoAncestorsNoMarker | chromium/rulesets/scripting/scriptlet/annoyances-cookies.trusted-click-element.js:487-493 | with ancestor lookups off, only the top hostname's plain keys are used |
| Resolver.Dispatch | chromium/rulesets/scripting/scriptlet/annoyances-cookies.trusted-click-element.js:496-500 | each index runs at most once; exactly the included, non-excluded indices run; a run fails exactly when its row is missing or the call throws, and the loop continues after a failure |
| ResolverExamples.MarkedKeyAncestorOnly | chromium/rulesets/scripting/scriptlet/ublock-filters.remove-node-text.js:372 | for any catalogue, the key `freestreams-live.*>>` is never among a page's own keys (its hostname not ending in `>`), while the `>>` lookup of the ancestor `freestreams-live.tv` produces it when the bundle has entities |
| ResolverExamples.ThreeLabelKeys | chromium/rulesets/scripting/scriptlet/annoyances-cookies.trusted-click-element.js:451-465 | a three-label hostname yields its three suffixes and the entity keys `a.b.*`, `a.*`, `b.*` |
| ResolverExamples.TwoLabelKeys | chromium/rulesets/scripting/scriptlet/annoyances-cookies.trusted-click-element.js:451-465 | a two-label hostname yields its two suffixes and the entity key `a.*` |
| ResolverExamples.GoogleResolves | chromium/rulesets/scripting/scriptlet/annoyances-cookies.trusted-click-element.js:430-465 | through the entity key `www.google.*`, www.google.com runs row 0 of the cookie bundle |
| ResolverExamples.WwwGoogleResolves | chromium/rulesets/scripting/scriptlet/annoyances-cookies.trusted-click-element.js:430-465 | the same, for any hostname that splits as www, google, com |
| ResolverExamples.GoogleKeys | chromium/rulesets/scripting/scriptlet/annoyances-cookies.trusted-click-element.js:451-465 | the keys of www.google.com are its three suffixes and the entity forms |
| ResolverExamples.GoogleHits | chromium/rulesets/scripting/scriptlet/annoyances-cookies.trusted-click-element.js:430-431 | those keys include row 0 and exclude nothing |
| ResolverExamples.YoutubeResolves | chromium/rulesets/scripting/scriptlet/ublock-filters.remove-node-text.js:372-373 | www.youtube.com includes row 0 and excludes row 6, so only row 0 runs |
| ResolverExamples.WwwYoutubeResolves | chromium/rulesets/scripting/scriptlet/ublock-filters.remove-node-text.js:372-373 | the same scope for any hostname that splits as www, youtube, com |
| ResolverExamples.YoutubeKeys | chromium/rulesets/scripting/scriptlet/ublock-filters.remove-node-text.js:389-408 | the keys of www.youtube.com include www.youtube.com and youtube.com |
| ResolverExamples.YoutubeHits | chromium/rulesets/scripting/scriptlet/ublock-filters.remove-node-text.js:372-373 | those keys include {0} and exclude {6} |
| ResolverExamples.OwnPageKeys | chromium/rulesets/scripting/scriptlet/ublock-filters.remove-node-text.js:429-435 | a page with no ancestors uses only its own plain keys |
| ResolverExamples.Rule6NeedsAncestor | chromium/rulesets/scripting/scriptlet/ublock-filters.remove-node-text.js:372-435 | in the two-key excerpt, where row 6 is stored only under `freestreams-live.*>>`, a top-level page never includes it; the bundle itself also stores row 6 under plain keys such as `1stream.eu`, and the key-level fact that holds of it is MarkedKeyAncestorOnly |
| ResolverExamples.Rule6Key | chromium/rulesets/scripting/scriptlet/ublock-filters.remove-node-text.js:372 | in the excerpt, every key that maps to row 6 ends in `>` (in the bundle most of them do not) |
| ResolverExamples.FramedExceptionWins | chromium/rulesets/scripting/scriptlet/ublock-filters.remove-node-text.js:372-435 | youtube.com framed by freestreams-live.tv includes row 6 through the ancestor and excludes it through its own key, so nothing runs |
| ResolverExamples.FramedYoutube | chromium/rulesets/scripting/scriptlet/ublock-filters.remove-node-text.js:429-435 | given the two frames' hits, the framed scope is ({6}, {6}) |
| ResolverExamples.OwnHits | chromium/rulesets/scripting/scriptlet/ublock-filters.remove-node-text.js:372-373 | youtube.com's own keys include nothing and exclude row 6 |
| ResolverExamples.UpHits | chromium/rulesets/scripting/scriptlet/ublock-filters.remove-node-text.js:372-373 | freestreams-live.tv's `>>` keys include row 6 and exclude nothing |
| Preconditions.Classify | chromium/rulesets/scripting/scriptlet/annoyances-cookies.trusted-click-element.js:42-57 | the `map` callback on one piece up to the construction of its expression: discarded, a `/body/flags` draft or a `key=value` draft; ClassifyShape, ClassifyPair and ClassifySlash state its results |
| Preconditions.ClassifyPattern | chromium/rulesets/scripting/scriptlet/annoyances-cookies.trusted-click-element.js:48-57 | the callback once the kind is known: an empty pattern is discarded, a slash form gives its body and flags, anything else its trimmed key and value around the first `=`; ClassifyPatternShape states this |
| Preconditions.KeyValueRegex | chromium/rulesets/scripting/scriptlet/annoyances-cookies.trusted-click-element.js:58 | the corrected `^key=value` expression without flags; KeyValueRegexTest states that it is a prefix test |
| Preconditions.Drafts | chromium/rulesets/scripting/scriptlet/annoyances-cookies.trusted-click-element.js:42 | one draft per comma-separated piece, in order |
| Preconditions.AssertionsOf | chromium/rulesets/scripting/scriptlet/annoyances-cookies.trusted-click-element.js:42-60 | the assertions of `extraMatch`: its pieces on `,`, classified and built, the first throwing piece ending the parse; ParseAll states its outcome and NoTextNoAssertions the empty case |
| Preconditions.ItemText | chromium/rulesets/scripting/scriptlet/annoyances-cookies.trusted-click-element.js:68-69 | the text `${key}=${value}` an item is tested on; a plain string destructures to `undefined=undefined` |
| Preconditions.AllCookies | chromium/rulesets/scripting/scriptlet/annoyances-cookies.trusted-click-element.js:201-211 | getAllCookiesFn: `document.cookie` split on `/\s*;\s*/`, each segment read by CookieItem; CookieItems states which survive |
| Preconditions.NeedleIn | chromium/rulesets/scripting/scriptlet/annoyances-cookies.trusted-click-element.js:67-72 | hasNeedle: some item's text passes the expression, and a non-iterable haystack throws; HasNeedle is proved equal to it |
| Preconditions.HaystackOf | chromium/rulesets/scripting/scriptlet/annoyances-cookies.trusted-click-element.js:74-81 | the switch on the kind: cookies for `cookie`, storage for `localStorage`, nothing checked for any other kind |
| Preconditions.Verdict | chromium/rulesets/scripting/scriptlet/annoyances-cookies.trusted-click-element.js:73-82 | the assertion loop: stop early at the first checked assertion whose presence equals its `not`, a throwing haystack throws, otherwise go on; VerdictExactly characterises it and CheckAssertions is proved equal |
| Preconditions.CookieHaystack | chromium/rulesets/scripting/scriptlet/annoyances-cookies.trusted-click-element.js:61-63 | the cookies are read only when some assertion is about cookies, else an empty list; UnreadCookiesIgnored states the consequence |
| Preconditions.StorageHaystack | chromium/rulesets/scripting/scriptlet/annoyances-cookies.trusted-click-element.js:64-66 | the storage is read only when some assertion is about local storage, else an empty list, through the reader as written or as corrected; UnreadStorageIgnored states the consequence |
| Preconditions.PreconditionsHold | chromium/rulesets/scripting/scriptlet/annoyances-cookies.trusted-click-element.js:41-83 | the whole check: go on for an empty `extraMatch`, throw when parsing throws, else the verdict over the haystacks; PreconditionsExactly, KeyValueAssertionThrows and StorageAssertionThrows state its outcomes |
| Preconditions.ClassifyShape | chromium/rulesets/scripting/scriptlet/annoyances-cookies.trusted-click-element.js:43-57 | an assertion without text after `:` is dropped; otherwise it becomes a slash draft or a key/value draft, with `!` read as negation and the kind being the text before the first colon without its leading `!` |
| Preconditions.ClassifyPair | chromium/rulesets/scripting/scriptlet/annoyances-cookies.trusted-click-element.js:55-57 | `type:key=value` splits at the first `=` into key and value |
| Preconditions.ClassifySlash | chromium/rulesets/scripting/scriptlet/annoyances-cookies.trusted-click-element.js:50-53 | `type:/body/` or `type:/body/i` is a regex draft with that body and those flags |
| Preconditions.KeyValueRegexTest | chromium/rulesets/scripting/scriptlet/annoyances-cookies.trusted-click-element.js:58 | the intended `^key=value` regex built from escaped parts is a prefix test for `key=value` |
| Preconditions.BuildAssertion | chromium/rulesets/scripting/scriptlet/annoyances-cookies.trusted-click-element.js:48-59 | a dropped draft gives no assertion; a slash draft throws exactly when its body fails to compile; a key/value draft throws exactly in the as-written reading; negation and type are carried over |
| Preconditions.ParseAll | chromium/rulesets/scripting/scriptlet/annoyances-cookies.trusted-click-element.js:42-60 | the parse throws exactly when one piece throws; otherwise it returns exactly the pieces' assertions, dropped ones filtered out |
| Preconditions.CookieItem | chromium/rulesets/scripting/scriptlet/annoyances-cookies.trusted-click-element.js:204-209 | a segment starting with `=` is dropped; one without `=` is the plain text `name=`; otherwise key and value are split at the first `=` and trimmed |
| Preconditions.CookieItems | chromium/rulesets/scripting/scriptlet/annoyances-cookies.trusted-click-element.js:203-210 | the cookie items are exactly the kept segments |
| Preconditions.StorageAsWritten | chromium/rulesets/scripting/scriptlet/annoyances-cookies.trusted-click-element.js:216-221 | as written, the function returns a non-iterable object exactly when storage is not empty |
| Preconditions.StorageItems | chromium/rulesets/scripting/scriptlet/annoyances-cookies.trusted-click-element.js:213-222 | the intended function lists every stored item as a key/value pair, in order |
| Preconditions.HasNeedle | chromium/rulesets/scripting/scriptlet/annoyances-cookies.trusted-click-element.js:67-72 | the loop answers whether some item's `key=value` text matches, and throws on a non-iterable haystack |
| Preconditions.CheckAssertions | chromium/rulesets/scripting/scriptlet/annoyances-cookies.trusted-click-element.js:73-82 | the loop computes the verdict: stop at the first assertion whose outcome equals its negation flag |
| Preconditions.VerdictExactly | chromium/rulesets/scripting/scriptlet/annoyances-cookies.trusted-click-element.js:73-82 | clicking goes ahead exactly when every cookie or storage assertion is satisfied, as matched or as not matched |
| Preconditions.VerdictIgnoresUnread | chromium/rulesets/scripting/scriptlet/annoyances-cookies.trusted-click-element.js:61-66 | a source that no assertion uses does not affect the verdict |
| Preconditions.CheckPreconditions | chromium/rulesets/scripting/scriptlet/annoyances-cookies.trusted-click-element.js:41-83 | the method computes the precondition outcome: proceed, stop early, or the exception |
| Preconditions.PreconditionsExactly | chromium/rulesets/scripting/scriptlet/annoyances-cookies.trusted-click-element.js:41-83 | in the intended reading, when parsing succeeds, clicking goes ahead exactly when every assertion holds against the cookie and storage lists |
| Preconditions.UnreadCookiesIgnored | chromium/rulesets/scripting/scriptlet/annoyances-cookies.trusted-click-element.js:61-63 | with no cookie assertion the cookie jar is irrelevant: any two jars give the same outcome over the same storage |
| Preconditions.UnreadStorageIgnored | chromium/rulesets/scripting/scriptlet/annoyances-cookies.trusted-click-element.js:64-66 | with no storage assertion the store is irrelevant: any two stores give the same outcome over the same cookie jar |
| Preconditions.NoTextNoAssertions | chromium/rulesets/scripting/scriptlet/annoyances-cookies.trusted-click-element.js:41 | an empty `extraMatch` imposes no precondition |
| Preconditions.KeyValueAssertionThrows | chromium/rulesets/scripting/scriptlet/annoyances-cookies.trusted-click-element.js:58 | as written, any `type:key=value` assertion throws a TypeError |
| Preconditions.SingleKeyValueAssertion | chromium/rulesets/scripting/scriptlet/annoyances-cookies.trusted-click-element.js:55-59 | in the intended reading, a single key/value assertion becomes a prefix regex for `key=value` with its negation and type |
| Preconditions.StorageAssertionThrows | chromium/rulesets/scripting/scriptlet/annoyances-cookies.trusted-click-element.js:213-222 | as written, when the first assertion is a localStorage one, a non-empty store makes the check throw a TypeError |
| ClickScheduler.QuerySelectorEx | chromium/rulesets/scripting/scriptlet/annoyances-cookies.trusted-click-element.js:99-108 | querySelectorEx: without ` >>> ` the plain query; with one, the trimmed outer selector is queried and the inner one is looked for inside the found element's shadow root, nothing being found without an element or a root; QuerySelectorExWalks and WalkResult state this |
| ClickScheduler.Walk | chromium/rulesets/scripting/scriptlet/annoyances-cookies.trusted-click-element.js:99-108 | the queries of the segments in turn, each in the shadow root of the previous find; a throw or a miss ends it |
| ClickScheduler.SelectorList | chromium/rulesets/scripting/scriptlet/annoyances-cookies.trusted-click-element.js:110-118 | the selector list: `selectors` split on `/\s*,\s*/` without the selectors whose trial query throws; ValidSelectors and ValidSelectorsAll state which are kept |
| ClickScheduler.ParseInt | chromium/rulesets/scripting/scriptlet/annoyances-cookies.trusted-click-element.js:121 | `parseInt(s, 10)`: leading white space skipped, an optional sign, then the longest run of digits, or NaN without one; ClickDelayOfDigits, ClickDelayNoDigits and TrimStartSpaces state this |
| ClickScheduler.Start | chromium/rulesets/scripting/scriptlet/annoyances-cookies.trusted-click-element.js:124 | the first `tnext`: t0, or t0 plus the delay when there is a single selector |
| ClickScheduler.Initial | chromium/rulesets/scripting/scriptlet/annoyances-cookies.trusted-click-element.js:122-124 | the task's state before the first process: the whole list, the first `tnext`, no timer, no observer, nothing clicked; InitialInv states that it satisfies the invariant |
| ClickScheduler.Inv | chromium/rulesets/scripting/scriptlet/annoyances-cookies.trusted-click-element.js:121-196 | what every reachable state satisfies: selectors taken in list order, the list the rest of them unless emptied, `tnext` one delay per click past its start, a pending next timer only with a selector left, an observe timer only with an observer; InitialInv, NextKeepsInv, ProcessKeepsInv and EventsKeepInv prove it preserved |
| ClickScheduler.NextStopState | chromium/rulesets/scripting/scriptlet/annoyances-cookies.trusted-click-element.js:149-153 | next.stop: the next timer is cleared and nothing else changes; StopsIdempotent states it idempotent |
| ClickScheduler.ObserveStopState | chromium/rulesets/scripting/scriptlet/annoyances-cookies.trusted-click-element.js:171-180 | observe.stop: the observe timer and the observer are released and nothing else changes |
| ClickScheduler.ObserveState | chromium/rulesets/scripting/scriptlet/annoyances-cookies.trusted-click-element.js:155-170 | observe: an observer is connected unless one already is |
| ClickScheduler.NextState | chromium/rulesets/scripting/scriptlet/annoyances-cookies.trusted-click-element.js:132-148 | next(notFound): terminate when the list is empty or the deadline is reached; otherwise observe when not found and arm a timer at least 1 ms ahead, at the deadline when not found, else at `tnext`; NextKeepsInv and TimersInFuture state its properties |
| ClickScheduler.HeadLookup | chromium/rulesets/scripting/scriptlet/annoyances-cookies.trusted-click-element.js:184-185 | what querySelectorEx gives for the head of the list in the document: found, not found, or a throw |
| ClickScheduler.ProcessState | chromium/rulesets/scripting/scriptlet/annoyances-cookies.trusted-click-element.js:182-196 | process: next.stop, then next() before `tnext`, termination with an empty list, otherwise the head step; ProcessKeepsInv, NoClickBeforeTnext, DeadlineTerminates and OneProcessOutcomes state its properties |
| ClickScheduler.HeadState | chromium/rulesets/scripting/scriptlet/annoyances-cookies.trusted-click-element.js:184-195 | the head step of process: the selector is shifted off, lost on a throw, put back and observed when not found, or clicked with `tnext` advanced by the delay; ClickPopsHead, NotFoundRequeued and ThrowLosesSelector state the three cases |
| ClickScheduler.NextTimerState | chromium/rulesets/scripting/scriptlet/annoyances-cookies.trusted-click-element.js:144-147 | the next timer fires: it is cleared and process runs; nothing happens without a pending timer |
| ClickScheduler.MutationState | chromium/rulesets/scripting/scriptlet/annoyances-cookies.trusted-click-element.js:157-163 | a page change while observing arms the 20 ms observe timer unless one is pending |
| ClickScheduler.ObserveTimerState | chromium/rulesets/scripting/scriptlet/annoyances-cookies.trusted-click-element.js:159-162 | the observe timer fires: it is cleared and process runs; nothing happens without a pending timer |
| ClickScheduler.Run | chromium/rulesets/scripting/scriptlet/annoyances-cookies.trusted-click-element.js:182-196 | process called once per given time on the page as it then is; ProcessRun states the invariant and order over a run |
| ClickScheduler.Pierce | chromium/rulesets/scripting/scriptlet/annoyances-cookies.trusted-click-element.js:100-103 | the inner selector after ` >>> ` is strictly shorter than the selector |
| ClickScheduler.PierceSpec | chromium/rulesets/scripting/scriptlet/annoyances-cookies.trusted-click-element.js:100-103 | a selector is split exactly when it contains ` >>> `: outside is the trimmed text before the first occurrence, inside the trimmed text after it |
| ClickScheduler.Segments | chromium/rulesets/scripting/scriptlet/annoyances-cookies.trusted-click-element.js:99-108 | every selector has at least one segment |
| ClickScheduler.QuerySelectorExWalks | chromium/rulesets/scripting/scriptlet/annoyances-cookies.trusted-click-element.js:99-108 | the recursive query equals a walk over the ` >>> ` segments, entering a shadow root between segments |
| ClickScheduler.WalkResult | chromium/rulesets/scripting/scriptlet/annoyances-cookies.trusted-click-element.js:99-108 | a found element is the last segment's match in a shadow root reached from the context, and an exception comes from one segment's query |
| ClickScheduler.ValidSelectors | chromium/rulesets/scripting/scriptlet/annoyances-cookies.trusted-click-element.js:110-118 | the kept selectors are exactly those whose trial query does not throw; ValidSelectorsOne and ValidSelectorsConcat fix their order and repetitions |
| ClickScheduler.ValidSelectorsAll | chromium/rulesets/scripting/scriptlet/annoyances-cookies.trusted-click-element.js:110-118 | when no query throws, every selector is kept |
| ClickScheduler.ValidSelectorsOne | chromium/rulesets/scripting/scriptlet/annoyances-cookies.trusted-click-element.js:110-118 | one candidate is dropped exactly when its trial query throws, and kept otherwise |
| ClickScheduler.ValidSelectorsConcat | chromium/rulesets/scripting/scriptlet/annoyances-cookies.trusted-click-element.js:110-118 | the filter of a concatenation is the concatenation of the filters, so the kept selectors keep their order and their repetitions |
| ClickScheduler.DigitRun | chromium/rulesets/scripting/scriptlet/annoyances-cookies.trusted-click-element.js:121 | the result is the length of the maximal leading run of decimal digits |
| ClickScheduler.ClickDelay | chromium/rulesets/scripting/scriptlet/annoyances-cookies.trusted-click-element.js:121 | parseInt of the delay, with 1 in place of 0 or NaN, is never 0 |
| ClickScheduler.ClickDelayOfDigits | chromium/rulesets/scripting/scriptlet/annoyances-cookies.trusted-click-element.js:121 | leading white space, then digits, then a non-digit give the digits' value, or 1 when that value is 0 |
| ClickScheduler.ParseDigitsOf | chromium/rulesets/scripting/scriptlet/annoyances-cookies.trusted-click-element.js:121 | parsing a digit run followed by a non-digit yields the run's value |
| ClickScheduler.ClickDelayNoDigits | chromium/rulesets/scripting/scriptlet/annoyances-cookies.trusted-click-element.js:121 | no digit after the optional sign gives NaN and so the default 1 |
| ClickScheduler.TrimStartSpaces | chromium/rulesets/scripting/scriptlet/annoyances-cookies.trusted-click-element.js:121 | parseInt's skipping of leading white space removes exactly that white space |
| ClickScheduler.DigitRunOf | chromium/rulesets/scripting/scriptlet/annoyances-cookies.trusted-click-element.js:121 | the digit run of digits followed by a non-digit is the digits |
| ClickScheduler.ClickDelayDefaults | chromium/rulesets/scripting/scriptlet/annoyances-cookies.trusted-click-element.js:34-36 | both the default empty delay and `0` give 1 |
| ClickScheduler.ClickDelayTrailingJunk | chromium/rulesets/scripting/scriptlet/annoyances-cookies.trusted-click-element.js:121 | `1000]` gives 1000: parsing stops at the first non-digit |
| ClickScheduler.Selectors | chromium/rulesets/scripting/scriptlet/annoyances-cookies.trusted-click-element.js:185 | the selectors of the outcome log are read in order |
| ClickScheduler.TerminateState | chromium/rulesets/scripting/scriptlet/annoyances-cookies.trusted-click-element.js:126-130 | after terminate the list is empty and no timer or observer is left; tnext and the log are kept |
| ClickScheduler.OutcomesAppend | chromium/rulesets/scripting/scriptlet/annoyances-cookies.trusted-click-element.js:185-195 | appending one outcome adds one attempted selector and at most one click |
| ClickScheduler.InitialInv | chromium/rulesets/scripting/scriptlet/annoyances-cookies.trusted-click-element.js:121-124 | the initial state respects the invariant: tnext is t0 for several selectors and t0 plus the delay for one |
| ClickScheduler.NextKeepsInv | chromium/rulesets/scripting/scriptlet/annoyances-cookies.trusted-click-element.js:132-149 | next keeps the invariant in every branch: completed, timed out, or waiting on a timer |
| ClickScheduler.ProcessKeepsInv | chromium/rulesets/scripting/scriptlet/annoyances-cookies.trusted-click-element.js:182-196 | process keeps the invariant, so every selector is clicked, still pending, lost to an exception, or dropped when the deadline empties the list, and each click is counted in tnext |
| ClickScheduler.EventsKeepInv | chromium/rulesets/scripting/scriptlet/annoyances-cookies.trusted-click-element.js:144-165 | the next timer, a mutation and the observe timer each keep the invariant |
| ClickScheduler.NoClickBeforeTnext | chromium/rulesets/scripting/scriptlet/annoyances-cookies.trusted-click-element.js:184 | before tnext, process clicks nothing: it keeps the list and re-arms next, except when the list is empty or the deadline `tbye` has passed, where it terminates and releases everything |
| ClickScheduler.ClickPopsHead | chromium/rulesets/scripting/scriptlet/annoyances-cookies.trusted-click-element.js:185-195 | a found element is clicked, the head selector is removed and tnext grows by the delay |
| ClickScheduler.NotFoundRequeued | chromium/rulesets/scripting/scriptlet/annoyances-cookies.trusted-click-element.js:187-191 | a selector that finds nothing is put back at the head, the observer is started and a timer is set for the deadline, unless the deadline has passed, in which case process terminates and releases everything |
| ClickScheduler.ThrowLosesSelector | chromium/rulesets/scripting/scriptlet/annoyances-cookies.trusted-click-element.js:185-187 | a query that throws loses the shifted selector, which is never pushed back |
| ClickScheduler.DeadlineTerminates | chromium/rulesets/scripting/scriptlet/annoyances-cookies.trusted-click-element.js:137-141 | at or after t0 + 10 s, process ends with every timer and the observer released, unless the click delay has elapsed, a selector remains and its query throws, which leaves any observer connected |
| ClickScheduler.TimersInFuture | chromium/rulesets/scripting/scriptlet/annoyances-cookies.trusted-click-element.js:143 | any timer armed by process fires at least 1 ms later |
| ClickScheduler.StopsIdempotent | chromium/rulesets/scripting/scriptlet/annoyances-cookies.trusted-click-element.js:150-180 | next.stop, observe.stop and observe are idempotent, and observe does nothing while already observing |
| ClickScheduler.ProcessRun | chromium/rulesets/scripting/scriptlet/annoyances-cookies.trusted-click-element.js:182-196 | across any run of process calls the invariant holds and the outcome log only grows, by at most one entry per call |
| ClickScheduler.OneProcessOutcomes | chromium/rulesets/scripting/scriptlet/annoyances-cookies.trusted-click-element.js:182-196 | one process call logs at most one outcome |
| ClickScheduler.ClickTask.constructor | chromium/rulesets/scripting/scriptlet/annoyances-cookies.trusted-click-element.js:119-124 | the task starts in the initial state with deadline t0 + 10000 |
| ClickScheduler.ClickTask.NextStop | chromium/rulesets/scripting/scriptlet/annoyances-cookies.trusted-click-element.js:150-154 | the new state is the next.stop state: the pending timer is cleared |
| ClickScheduler.ClickTask.ObserveStop | chromium/rulesets/scripting/scriptlet/annoyances-cookies.trusted-click-element.js:171-180 | the observe timer and the observer are released |
| ClickScheduler.ClickTask.Terminate | chromium/rulesets/scripting/scriptlet/annoyances-cookies.trusted-click-element.js:126-130 | the new state is the terminate state |
| ClickScheduler.ClickTask.Observe | chromium/rulesets/scripting/scriptlet/annoyances-cookies.trusted-click-element.js:156-170 | the observer is started unless one is already running |
| ClickScheduler.ClickTask.Next | chromium/rulesets/scripting/scriptlet/annoyances-cookies.trusted-click-element.js:132-149 | the new state is the next state for the given time |
| ClickScheduler.ClickTask.Process | chromium/rulesets/scripting/scriptlet/annoyances-cookies.trusted-click-element.js:182-196 | the new state is the process state for the DOM's answer to the head selector, and the invariant is kept |
| ClickScheduler.ClickTask.TakeHead | chromium/rulesets/scripting/scriptlet/annoyances-cookies.trusted-click-element.js:185-195 | the head selector is taken off; a throwing lookup drops it, a missing element puts it back and waits with the observer, a found one is clicked and moves `tnext` on by one delay |
| ClickScheduler.ClickTask.OnNextTimer | chromium/rulesets/scripting/scriptlet/annoyances-cookies.trusted-click-element.js:144-147 | the next timer fires: it is cleared, then process runs |
| ClickScheduler.ClickTask.OnMutation | chromium/rulesets/scripting/scriptlet/annoyances-cookies.trusted-click-element.js:158-164 | a mutation arms the 20 ms observe timer unless one is pending |
| ClickScheduler.ClickTask.OnObserveTimer | chromium/rulesets/scripting/scriptlet/annoyances-cookies.trusted-click-element.js:160-163 | the observe timer fires: it is cleared, then process runs |
| ClickScheduler.HtmlElementWait.constructor | chromium/rulesets/scripting/scriptlet/annoyances-cookies.trusted-click-element.js:224-233 | with a root element the function runs at once; otherwise an observer waits |
| ClickScheduler.HtmlElementWait.OnChildList | chromium/rulesets/scripting/scriptlet/annoyances-cookies.trusted-click-element.js:229-232 | the first child-list mutation disconnects and runs the function; the function runs exactly once |
| ClickScheduler.TrustedClickElement | chromium/rulesets/scripting/scriptlet/annoyances-cookies.trusted-click-element.js:33-198 | the scriptlet throws exactly when the preconditions throw, read as written (`asWritten`, where a `key=value` assertion or a storage assertion reached over a non-empty store throws, so nothing is clicked) or as corrected; it returns without a task exactly when a precondition fails or no selector survives; otherwise the task is configured with the surviving selectors, the parsed delay and a deadline 10 s away, and with a root element the first process call has already run, while without one an observer waits |
| NodeText.ArgAt | chromium/rulesets/scripting/scriptlet/ublock-filters.remove-node-text.js:41-45 | a positional argument, the default `''` when it is missing |
| NodeText.RemoveNodeTextArgs | chromium/rulesets/scripting/scriptlet/ublock-filters.remove-node-text.js:38 | the arguments removeNodeText passes on: an empty pattern and replacement, then `includes` as the first option; RemoveNodeTextConfig states the configuration they give |
| NodeText.OptionPattern | chromium/rulesets/scripting/scriptlet/ublock-filters.remove-node-text.js:51-56 | `v ? safe.patternToRegex(v, flags) : null`: no expression for a falsy option, the compiled pattern for a string, a TypeError for a non-zero number; NumericIncludesThrows states the throw |
| NodeText.CounterOf | chromium/rulesets/scripting/scriptlet/ublock-filters.remove-node-text.js:78 | `extraArgs.sedCount || 0`: a number or 0, and NaN for a non-numeric string |
| NodeText.ConfigOf | chromium/rulesets/scripting/scriptlet/ublock-filters.remove-node-text.js:41-78 | the constants replaceNodeTextFn computes before touching the page: the node-name, pattern, includes and excludes expressions, the replacement, the quota, `stay` and `quitAfter || 0`, throwing when an option pattern throws; RemoveNodeTextConfig and NumericIncludesThrows state its results |
| NodeText.Passes | chromium/rulesets/scripting/scriptlet/ublock-filters.remove-node-text.js:80-89 | the three gates in order: includes must match, excludes must not, the pattern must |
| NodeText.Rewritten | chromium/rulesets/scripting/scriptlet/ublock-filters.remove-node-text.js:91-93 | the new text: the pattern's replacement, or with an empty pattern the replacement itself |
| NodeText.Consume | chromium/rulesets/scripting/scriptlet/ublock-filters.remove-node-text.js:102 | `sedCount === 0 || (sedCount -= 1) !== 0`: go on at 0 or NaN, otherwise count down and stop on reaching 0 |
| NodeText.HandleNodeStep | chromium/rulesets/scripting/scriptlet/ublock-filters.remove-node-text.js:79-103 | handleNode on one node: whether the caller goes on, the text written and the counter after; HandleNodeGates and HandleNodeQuota state its behaviour |
| NodeText.Eligible | chromium/rulesets/scripting/scriptlet/ublock-filters.remove-node-text.js:125-126 | the walk visits a node whose name passes the node-name expression and that is not the running script |
| NodeText.Visit | chromium/rulesets/scripting/scriptlet/ublock-filters.remove-node-text.js:125-128 | one node of a loop: skipped unless eligible, else its handleNode step appended to the writes |
| NodeText.SweepFrom | chromium/rulesets/scripting/scriptlet/ublock-filters.remove-node-text.js:121-129 | the tree-walker loop from a position until a node asks to stop; QuotaStopsAtK, NoQuotaNeverStops, SweepWritesGrow and SweepShift state its properties |
| NodeText.SweepRecords | chromium/rulesets/scripting/scriptlet/ublock-filters.remove-node-text.js:104-111 | the nested loop over mutation records and their added nodes, until a node asks to stop; RecordsAsFlat proves it equal to the flat loop |
| NodeText.Flatten | chromium/rulesets/scripting/scriptlet/ublock-filters.remove-node-text.js:105-106 | the added nodes of the records, in order |
| NodeText.DisconnectState | chromium/rulesets/scripting/scriptlet/ublock-filters.remove-node-text.js:61 | observer.disconnect: the observer is disconnected and its pending records dropped |
| NodeText.MutationsState | chromium/rulesets/scripting/scriptlet/ublock-filters.remove-node-text.js:104-112 | handleMutations: the records swept in order with one shared quota, and `stop(false)` when a node asks to stop; MutationsSweepInOrder states this |
| NodeText.StopState | chromium/rulesets/scripting/scriptlet/ublock-filters.remove-node-text.js:57-65 | stop(takeRecord): the pending records are handled first unless `takeRecord` is false, then the observer is disconnected; StopReleases states this |
| NodeText.WalkState | chromium/rulesets/scripting/scriptlet/ublock-filters.remove-node-text.js:115-131 | the walk over the tree, followed by `stop()` when a node asks to stop; WalkStopFlushIsUnlimited and NodeTextTask.Walk state its outcome |
| NodeText.QuitOf | chromium/rulesets/scripting/scriptlet/ublock-filters.remove-node-text.js:132-139 | how the task ends: never with `stay`, at once when `quitAfter` is 0, otherwise after `quitAfter` |
| NodeText.InteractiveState | chromium/rulesets/scripting/scriptlet/ublock-filters.remove-node-text.js:133-140 | the runAt callback at `interactive`: stop at once, or arm the quit timer |
| NodeText.Level | chromium/rulesets/scripting/scriptlet/ublock-filters.remove-node-text.js:151-155 | the level of one ready-state token in the `targets` table, 0 for an unknown one; LevelNames states the table |
| NodeText.RemoveNodeTextConfig | chromium/rulesets/scripting/scriptlet/ublock-filters.remove-node-text.js:33-56 | removeNodeText without extra arguments and with a non-empty, non-numeric `includes` yields an empty pattern and replacement, an `includes` regex, no excludes, an unlimited quota and no `stay` |
| NodeText.RemoveNodeTextEmpties | chromium/rulesets/scripting/scriptlet/ublock-filters.remove-node-text.js:79-102 | removeNodeText without extra arguments and with a non-empty, non-numeric `includes` that is not of the form `/body/flags` empties a node exactly when its text contains that literal, and never stops |
| NodeText.NodeNamePattern | chromium/rulesets/scripting/scriptlet/ublock-filters.remove-node-text.js:48 | an empty node name matches every node; a plain name becomes the case-insensitive regex `^name$` |
| NodeText.NumericIncludesThrows | chromium/rulesets/scripting/scriptlet/ublock-filters.remove-node-text.js:51-53 | an all-digit, non-zero `includes` is coerced to a number and throws a TypeError |
| NodeText.HandleNodeGates | chromium/rulesets/scripting/scriptlet/ublock-filters.remove-node-text.js:79-91 | a node is rewritten exactly when it passes the includes, excludes and pattern gates; otherwise it keeps the walk going and the quota is untouched |
| NodeText.HandleNodeQuota | chromium/rulesets/scripting/scriptlet/ublock-filters.remove-node-text.js:78-102 | a rewrite under a positive quota counts it down and asks to stop when it reaches 0; a zero, negative or non-numeric quota never stops |
| NodeText.QuotaStopsAtK | chromium/rulesets/scripting/scriptlet/ublock-filters.remove-node-text.js:78-131 | with a quota of k and at least k nodes that all pass, the sweep stops after exactly k writes and leaves the count at 0 |
| NodeText.NoQuotaNeverStops | chromium/rulesets/scripting/scriptlet/ublock-filters.remove-node-text.js:78-102 | with no positive quota a sweep never stops early |
| NodeText.SweepWritesGrow | chromium/rulesets/scripting/scriptlet/ublock-filters.remove-node-text.js:92-131 | a sweep only appends to the write log and never changes earlier writes |
| NodeText.SweepShift | chromium/rulesets/scripting/scriptlet/ublock-filters.remove-node-text.js:104-112 | sweeping from position i equals sweeping the tail from position i-1 |
| NodeText.RecordsAsFlat | chromium/rulesets/scripting/scriptlet/ublock-filters.remove-node-text.js:104-112 | the nested record-then-node sweep equals a flat sweep over the remaining nodes |
| NodeText.MutationsSweepInOrder | chromium/rulesets/scripting/scriptlet/ublock-filters.remove-node-text.js:104-112 | handleMutations visits the added nodes of all records in order, with the quota shared across records |
| NodeText.StopReleases | chromium/rulesets/scripting/scriptlet/ublock-filters.remove-node-text.js:57-65 | after stop the observer is disconnected and no record is pending; without takeRecords the writes are unchanged |
| NodeText.WalkStopFlushIsUnlimited | chromium/rulesets/scripting/scriptlet/ublock-filters.remove-node-text.js:57-60 | after the walk reaches its quota, the count is 0, so the stop() flushing the pending records runs with no limit and never stops early |
| NodeText.StoppedAtZero | chromium/rulesets/scripting/scriptlet/ublock-filters.remove-node-text.js:102 | a sweep that stops early leaves the count at 0 |
| NodeText.NodeTextTask.constructor | chromium/rulesets/scripting/scriptlet/ublock-filters.remove-node-text.js:78-114 | the task starts connected, with the configured quota, no writes and no pending records |
| NodeText.NodeTextTask.HandleNode | chromium/rulesets/scripting/scriptlet/ublock-filters.remove-node-text.js:79-103 | the write, the new quota and the keep-going answer are those of the handleNode step |
| NodeText.NodeTextTask.HandleMutations | chromium/rulesets/scripting/scriptlet/ublock-filters.remove-node-text.js:104-112 | the new state is the record sweep; the nested loops stop the observer at the first stop request |
| NodeText.NodeTextTask.Stop | chromium/rulesets/scripting/scriptlet/ublock-filters.remove-node-text.js:57-65 | the new state is the stop state: pending records are flushed when asked, then the observer is disconnected |
| NodeText.NodeTextTask.Walk | chromium/rulesets/scripting/scriptlet/ublock-filters.remove-node-text.js:115-131 | the new state is the walk state; the count of visited nodes is between 1 and n+1, and n+1 when the walk was never stopped |
| NodeText.NodeTextTask.Added | chromium/rulesets/scripting/scriptlet/ublock-filters.remove-node-text.js:113-114 | a DOM insertion queues a record while the observer is connected, and is ignored after it disconnects |
| NodeText.NodeTextTask.Deliver | chromium/rulesets/scripting/scriptlet/ublock-filters.remove-node-text.js:113 | the observer callback takes the whole queue and handles it |
| NodeText.NodeTextTask.OnInteractive | chromium/rulesets/scripting/scriptlet/ublock-filters.remove-node-text.js:133-139 | at interactive, a zero quitAfter stops at once; any other value arms the quit timer |
| NodeText.NodeTextTask.OnQuitTimer | chromium/rulesets/scripting/scriptlet/ublock-filters.remove-node-text.js:136 | the quit timer fires a full stop, with the pending records flushed |
| NodeText.FirstLevel | chromium/rulesets/scripting/scriptlet/ublock-filters.remove-node-text.js:150-163 | the result is a ready-state level between 0 and 3 |
| NodeText.IntFromReadyState | chromium/rulesets/scripting/scriptlet/ublock-filters.remove-node-text.js:150-163 | the loop returns the level of the first known token, or 0 |
| NodeText.FirstLevelIsFirstKnown | chromium/rulesets/scripting/scriptlet/ublock-filters.remove-node-text.js:156-162 | the level is 0 exactly when no token is known; otherwise it is the first known token's level, and every token before it is unknown |
| NodeText.LevelNames | chromium/rulesets/scripting/scriptlet/ublock-filters.remove-node-text.js:151-155 | the table of state names: loading and asap are 1; interactive, end and "2" are 2; complete, idle and "3" are 3; "1" is unknown |
| NodeText.ReadyStateWait.constructor | chromium/rulesets/scripting/scriptlet/ublock-filters.remove-node-text.js:164-175 | the function runs at once when the current state has reached the target; otherwise a listener waits |
| NodeText.ReadyStateWait.OnStateChange | chromium/rulesets/scripting/scriptlet/ublock-filters.remove-node-text.js:168-172 | the first change that reaches the target runs the function and removes the listener; the function runs exactly once |
| NodeText.ReplaceNodeTextFn | chromium/rulesets/scripting/scriptlet/ublock-filters.remove-node-text.js:41-141 | the scriptlet throws exactly when its arguments do; otherwise the task's state is the initial walk (when there is a root) followed, exactly when `stay` is off and `readyState` is interactive or complete, by the quitAfter handling; the runAt wait exists exactly when `stay` is off, and has run once exactly when the document is already interactive or complete |
| NodeText.RemoveNodeText | chromium/rulesets/scripting/scriptlet/ublock-filters.remove-node-text.js:33-39 | removeNodeText throws exactly when replaceNodeTextFn does for the assembled arguments; otherwise its configuration, its task state after the walk and the interactive handling, and its runAt wait are those of replaceNodeTextFn on those arguments |

## Left out

- Logging (`uboLog`, `makeLogPrefix`, the `count` log line) has no effect on behaviour and is left out.
- The trusted-types policy factory in remove-node-text is taken to be the identity on text.
- The DOM is an oracle value. This covers `querySelector`, shadow roots, `click`, the TreeWalker and `textContent`.
  - Nodes are values with an id, a name and a text.
  - Writes go to a log and are not applied in place, so aliasing between nodes is not modelled.
- A MutationObserver is an explicit queue that the environment fills (`Added`) and drains (`Deliver`).
- Regular-expression matching and `String.prototype.replace` with a regex come from a host oracle. The exceptions are the empty pattern and escaped literals.
- The clock and timers are parameters. `Date.now()` is a `now` argument, and timer callbacks are methods the environment calls.
- `document.cookie` and `localStorage` are given as a cookie string and a list of pairs.
- JavaScript `Set` iteration order is not modelled. The dispatch runs each applicable index once, in an order the model does not fix.
- SafeSelf.Test: a `g` or `y` expression tested without resetting `lastIndex` is answered by the host, because the model does not track `lastIndex` between calls; SafeSelf.InitPatternLiteral therefore excludes those flags.
- Strings are sequences of Unicode scalar values, not of UTF-16 code units, so lone surrogates are not represented and lengths differ from JavaScript's for characters outside the Basic Multilingual Plane.
- parseInt's loss of precision beyond 2^53 is not modelled; numbers are unbounded integers.
- NodeText.ConfigOf: a `sedCount` or `quitAfter` given as a non-numeric string is not coerced to a number as JavaScript would. Such a `sedCount` is unlimited, and such a `quitAfter` arms the timer.
- NodeText.ReadyStateWait.OnStateChange: the case where the function throws inside the listener, which leaves the listener installed, is not modelled.
- ClickScheduler.ClickTask.Next: the case where `next` replaces a pending timer is not modelled. It never arises, because `process` always calls `next.stop` first.
- The tables of argument rows are excerpts: two rows of the cookie bundle and the youtube/freestreams rows of the node-text bundle.
- In `entries`, a top origin without `://` makes the first entry an ancestor frame. With ancestors on, that frame is looked up both without and with `>>`. This follows the code as written.
- The quota after a walk stops:
  - the walk stops when the k-th rewrite brings `sedCount` to 0;
  - the `stop()` that follows (remove-node-text.js:57-60, called with its default `takeRecord`) flushes the pending records;
  - during that flush `sedCount` is 0, which `handleNode` (remove-node-text.js:102) treats as unlimited, so the flushed records are rewritten without a quota;
  - NodeText.WalkStopFlushIsUnlimited states this.
- A cookie segment without `=` is kept as the text `name=`, following the code.

## Findings

| source | as written | input that shows it | evidently intended | confidence | as-written member | corrected member |
|---|---|---|---|---|---|---|
| chromium/rulesets/scripting/scriptlet/annoyances-cookies.trusted-click-element.js:58 | `this.escapeRegexChars(key)` inside an arrow function, where `this` is not `safe` | extraMatch `cookie:consent=yes` | `safe.escapeRegexChars`, giving the prefix regex `^consent=yes` | not executed | Preconditions.KeyValueAssertionThrows | Preconditions.SingleKeyValueAssertion |
| chromium/rulesets/scripting/scriptlet/annoyances-cookies.trusted-click-element.js:216-221 | the loop returns its first `{ key, value }` object instead of pushing it into `out` | extraMatch `localStorage:/x/` with one stored item | return the array of all stored items | not executed | Preconditions.StorageAssertionThrows | Preconditions.StorageItems |
