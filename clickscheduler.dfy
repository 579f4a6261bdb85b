/** The clicking part of `trusted-click-element`: the selector list with its
    ` >>> ` shadow-piercing form, the click delay, and the timed state
    machine that clicks the selectors in order.

    The page is an oracle: `Dom.query` is `querySelector` on a node (it may
    throw for a malformed selector), `Dom.shadowRoot` the open or closed
    shadow root of an element. Time is the parameter `now` of each event,
    a pending timer is represented by the time it is due, and a click is
    recorded in the task's log of outcomes. */
module ClickScheduler {
  import opened Wrappers
  import opened JsString
  import opened SafeSelf
  import opened Preconditions

  // ---------------------------------------------------------------------
  // querySelectorEx

  type Node = nat

  datatype Dom = Dom(document: Node,
                     query: (Node, string) -> Result<Option<Node>>,
                     shadowRoot: Node -> Option<Node>)

  /** `context.querySelector(selector)` */
  function Query(dom: Dom, context: Node, selector: string): Result<Option<Node>> {
    dom.query(context, selector)
  }

  /** The split of `a >>> b` at its first ` >>> ` into the trimmed `a` and
      `b`; `None` without one. */
  function Pierce(selector: string): (r: Option<(string, string)>)
    ensures r.Some? ==> |r.value.1| < |selector|
  {
    var pos := IndexOf(selector, " >>> ");
    if pos == -1 then None
    else Some((Trim(selector[..pos]), Trim(selector[pos + 5..])))
  }

  /** `querySelectorEx(selector, context)`: `a >>> b` finds `a`, then `b`
      inside that element's shadow root; without a shadow root nothing is
      found. */
  function QuerySelectorEx(dom: Dom, selector: string, context: Node): Result<Option<Node>>
    decreases |selector|
  {
    match Pierce(selector)
    case None => Query(dom, context, selector)
    case Some((outside, inside)) =>
      match Query(dom, context, outside)
      case Throws(e) => Throws(e)
      case Ok(None) => Ok(None)
      case Ok(Some(elem)) =>
        match dom.shadowRoot(elem)
        case None => Ok(None)
        case Some(root) => QuerySelectorEx(dom, inside, root)
  }

  /** Without ` >>> ` the selector goes to `querySelector` as it is; with
      one, the text before it and the text after it are trimmed. */
  lemma PierceSpec(selector: string)
    ensures Pierce(selector).None? <==> !Includes(selector, " >>> ")
    ensures Pierce(selector).Some? ==>
              exists pos :: OccursAt(selector, " >>> ", pos) && !Includes(selector[..pos + 4], " >>> ")
                && Pierce(selector).value == (Trim(selector[..pos]), Trim(selector[pos + 5..]))
  {
    var pos := IndexOf(selector, " >>> ");
    if pos != -1 {
      var head := selector[..pos + 4];
      forall q | 0 <= q <= |head| ensures !OccursAt(head, " >>> ", q) {
        if OccursAt(head, " >>> ", q) {
          assert selector[q..q + 5] == head[q..q + 5];
          assert OccursAt(selector, " >>> ", q);
        }
      }
    }
  }

  /** The plain selectors of a shadow-piercing selector, outermost first,
      each trimmed. */
  function Segments(selector: string): (r: seq<string>)
    ensures |r| >= 1
    decreases |selector|
  {
    match Pierce(selector)
    case None => [selector]
    case Some((outside, inside)) => [outside] + Segments(inside)
  }

  /** Querying the segments one after the other, each inside the shadow root
      of the element the previous one found. */
  function Walk(dom: Dom, segs: seq<string>, context: Node): Result<Option<Node>>
    requires |segs| >= 1
    decreases |segs|
  {
    if |segs| == 1 then Query(dom, context, segs[0])
    else
      match Query(dom, context, segs[0])
      case Throws(e) => Throws(e)
      case Ok(None) => Ok(None)
      case Ok(Some(elem)) =>
        match dom.shadowRoot(elem)
        case None => Ok(None)
        case Some(root) => Walk(dom, segs[1..], root)
  }

  /** `querySelectorEx` is the walk over the segments of its selector. */
  lemma {:induction false} QuerySelectorExWalks(dom: Dom, selector: string, context: Node)
    ensures QuerySelectorEx(dom, selector, context) == Walk(dom, Segments(selector), context)
    decreases |selector|
  {
    match Pierce(selector)
    case None =>
    case Some((outside, inside)) =>
      assert Segments(selector) == [outside] + Segments(inside);
      match Query(dom, context, outside)
      case Throws(e) =>
      case Ok(None) =>
      case Ok(Some(elem)) =>
        match dom.shadowRoot(elem)
        case None =>
        case Some(root) =>
          QuerySelectorExWalks(dom, inside, root);
          assert ([outside] + Segments(inside))[1..] == Segments(inside);
  }

  function Last(segs: seq<string>): string
    requires |segs| >= 1
  {
    segs[|segs| - 1]
  }

  /** An element the walk finds is what the last segment's query found in
      some context; a throw is a throw of one of the segments' queries. */
  lemma {:induction false} WalkResult(dom: Dom, segs: seq<string>, context: Node)
    requires |segs| >= 1
    ensures Walk(dom, segs, context).Ok? && Walk(dom, segs, context).value.Some? ==>
              exists c :: Query(dom, c, Last(segs)) == Walk(dom, segs, context)
    ensures Walk(dom, segs, context).Throws? ==>
              exists c, k :: 0 <= k < |segs| && Query(dom, c, segs[k]) == Walk(dom, segs, context)
    decreases |segs|
  {
    if |segs| == 1 {
      assert Query(dom, context, Last(segs)) == Walk(dom, segs, context);
    } else {
      match Query(dom, context, segs[0])
      case Throws(e) =>
        assert Query(dom, context, segs[0]) == Walk(dom, segs, context);
      case Ok(None) =>
      case Ok(Some(elem)) =>
        match dom.shadowRoot(elem)
        case None =>
        case Some(root) =>
          WalkResult(dom, segs[1..], root);
          assert Last(segs[1..]) == Last(segs);
          var w := Walk(dom, segs, context);
          if w.Throws? {
            var c, k :| 0 <= k < |segs[1..]| && Query(dom, c, segs[1..][k]) == w;
            assert Query(dom, c, segs[k + 1]) == w;
          }
    }
  }

  /** The candidate selectors on which `querySelectorEx` from the document
      does not throw, in their order. */
  function ValidSelectors(pieces: seq<string>, dom: Dom): (r: seq<string>)
    ensures |r| <= |pieces|
    ensures forall s :: s in r <==> s in pieces && !QuerySelectorEx(dom, s, dom.document).Throws?
    decreases |pieces|
  {
    if pieces == [] then []
    else
      var rest := ValidSelectors(pieces[1..], dom);
      assert pieces == [pieces[0]] + pieces[1..];
      if QuerySelectorEx(dom, pieces[0], dom.document).Throws? then rest else [pieces[0]] + rest
  }

  /** The selector list: `selectors` split on `\s*,\s*`, without the
      selectors that throw. */
  function SelectorList(selectors: string, dom: Dom): seq<string> {
    ValidSelectors(SplitAround(selectors, ','), dom)
  }

  /** When no piece throws, every piece is kept, in its order. */
  lemma {:induction false} ValidSelectorsAll(pieces: seq<string>, dom: Dom)
    requires forall k :: 0 <= k < |pieces| ==> !QuerySelectorEx(dom, pieces[k], dom.document).Throws?
    ensures ValidSelectors(pieces, dom) == pieces
    decreases |pieces|
  {
    if pieces != [] {
      ValidSelectorsAll(pieces[1..], dom);
    }
  }

  /** One candidate is dropped exactly when its trial query throws. */
  lemma ValidSelectorsOne(p: string, dom: Dom)
    ensures ValidSelectors([p], dom) == if QuerySelectorEx(dom, p, dom.document).Throws? then [] else [p]
  {
    assert [p][1..] == [];
  }

  /** The filter works piece by piece: it keeps the order and the
      repetitions of the candidates it keeps. */
  lemma {:induction false} ValidSelectorsConcat(a: seq<string>, b: seq<string>, dom: Dom)
    ensures ValidSelectors(a + b, dom) == ValidSelectors(a, dom) + ValidSelectors(b, dom)
    decreases |a|
  {
    if a == [] {
      assert a + b == b;
    } else {
      assert (a + b)[0] == a[0];
      assert (a + b)[1..] == a[1..] + b;
      ValidSelectorsConcat(a[1..], b, dom);
    }
  }

  // ---------------------------------------------------------------------
  // The click delay

  predicate IsDigit(c: char) {
    '0' <= c <= '9'
  }

  /** The length of the run of decimal digits at the start of `s`. */
  function DigitRun(s: string): (n: nat)
    ensures n <= |s|
    ensures forall k :: 0 <= k < n ==> IsDigit(s[k])
    ensures n < |s| ==> !IsDigit(s[n])
    decreases |s|
  {
    if s != [] && IsDigit(s[0]) then 1 + DigitRun(s[1..]) else 0
  }

  /** `parseInt(s, 10)`: leading whitespace skipped, an optional sign, then
      the longest run of digits; `None` (NaN) without a digit. */
  function ParseInt(s: string): Option<int> {
    ParseSigned(TrimStart(s))
  }

  /** `parseInt` after the whitespace: the sign, then the digits. */
  function ParseSigned(t: string): Option<int> {
    if StartsWithChar(t, '-') then
      match ParseDigits(t[1..])
      case None => None
      case Some(v) => Some(-v)
    else if StartsWithChar(t, '+') then ParseDigits(t[1..])
    else ParseDigits(t)
  }

  /** The value of the run of digits at the start of `u`, if there is one. */
  function ParseDigits(u: string): Option<int> {
    var n := DigitRun(u);
    if n == 0 then None else Some(DigitsValue(u[..n]))
  }

  /** `parseInt(delay, 10) || 1`: NaN and zero both give 1. */
  function ClickDelay(delay: string): (d: int)
    ensures d != 0
  {
    match ParseInt(delay)
    case None => 1
    case Some(v) => if v == 0 then 1 else v
  }

  /** Leading whitespace, then digits, then anything that does not start
      with a digit: the delay is the digits' value, or 1 for zero. */
  lemma ClickDelayOfDigits(ws: string, digits: string, rest: string)
    requires forall k :: 0 <= k < |ws| ==> IsSpace(ws[k])
    requires AllDigits(digits)
    requires rest == [] || !IsDigit(rest[0])
    ensures ClickDelay(ws + digits + rest) == if DigitsValue(digits) == 0 then 1 else DigitsValue(digits)
  {
    var u := digits + rest;
    UnsignedDigits(digits, rest);
    ParseIntAfterSpaces(ws, u);
    ConcatAssoc(ws, digits, rest);
  }

  /** Digits with no sign in front are read as they are. */
  lemma UnsignedDigits(digits: string, rest: string)
    requires AllDigits(digits)
    requires rest == [] || !IsDigit(rest[0])
    ensures var u := digits + rest;
      !IsSpace(u[0]) && ParseSigned(u) == Some(DigitsValue(digits))
  {
    var u := digits + rest;
    assert u[0] == digits[0];
    ParseDigitsOf(digits, rest);
  }

  /** `parseInt` skips the leading whitespace and reads what follows. */
  lemma ParseIntAfterSpaces(ws: string, u: string)
    requires forall k :: 0 <= k < |ws| ==> IsSpace(ws[k])
    requires u == [] || !IsSpace(u[0])
    ensures ParseInt(ws + u) == ParseSigned(u)
  {
    TrimStartSpaces(ws, u);
  }

  lemma ParseDigitsOf(digits: string, rest: string)
    requires AllDigits(digits)
    requires rest == [] || !IsDigit(rest[0])
    ensures ParseDigits(digits + rest) == Some(DigitsValue(digits))
  {
    DigitRunOf(digits, rest);
    assert (digits + rest)[..|digits|] == digits;
  }

  /** A string that has no digit after its whitespace and sign gives 1. */
  lemma ClickDelayNoDigits(ws: string, sign: string, rest: string)
    requires forall k :: 0 <= k < |ws| ==> IsSpace(ws[k])
    requires sign == "" || sign == "-" || sign == "+"
    requires rest == [] || !IsDigit(rest[0])
    requires sign == "" && rest != [] ==> rest[0] != '-' && rest[0] != '+' && !IsSpace(rest[0])
    ensures ClickDelay(ws + sign + rest) == 1
  {
    var u := sign + rest;
    SignWithoutDigits(sign, rest);
    ParseIntAfterSpaces(ws, u);
    ConcatAssoc(ws, sign, rest);
  }

  /** An optional sign followed by no digit is NaN. */
  lemma SignWithoutDigits(sign: string, rest: string)
    requires sign == "" || sign == "-" || sign == "+"
    requires rest == [] || !IsDigit(rest[0])
    requires sign == "" && rest != [] ==> rest[0] != '-' && rest[0] != '+' && !IsSpace(rest[0])
    ensures var u := sign + rest;
      (u == [] || !IsSpace(u[0])) && ParseSigned(u).None?
  {
    var u := sign + rest;
    assert DigitRun(rest) == 0;
    if sign != "" {
      assert u[0] == sign[0] && u[1..] == rest;
    } else {
      assert u == rest;
    }
  }

  lemma {:induction false} TrimStartSpaces(ws: string, u: string)
    requires forall k :: 0 <= k < |ws| ==> IsSpace(ws[k])
    requires u == [] || !IsSpace(u[0])
    ensures TrimStart(ws + u) == u
    decreases |ws|
  {
    if ws != [] {
      assert (ws + u)[1..] == ws[1..] + u;
      TrimStartSpaces(ws[1..], u);
    }
  }

  lemma {:induction false} DigitRunOf(digits: string, rest: string)
    requires forall k :: 0 <= k < |digits| ==> IsDigit(digits[k])
    requires rest == [] || !IsDigit(rest[0])
    ensures DigitRun(digits + rest) == |digits|
    decreases |digits|
  {
    if digits != [] {
      assert (digits + rest)[1..] == digits[1..] + rest;
      DigitRunOf(digits[1..], rest);
    }
  }

  /** No delay given, or zero: one millisecond. */
  lemma ClickDelayDefaults()
    ensures ClickDelay("") == 1
    ensures ClickDelay("0") == 1
  {
    ClickDelayNoDigits("", "", "");
    assert "" + "" + "" == "";
    ClickDelayOfDigits("", "0", "");
    assert "" + "0" + "" == "0";
    assert DigitsValue("0") == 0 by {
      assert "0"[..0] == "";
    }
  }

  /** A number followed by junk is read up to the junk. */
  lemma ClickDelayTrailingJunk()
    ensures ClickDelay("1000]") == 1000
  {
    var d, j := "1000", "]";
    ClickDelayOfDigits("", d, j);
    assert "" + d + j == "1000]";
    assert DigitsValue(d) == 1000 by {
      assert d[..3] == "100";
      assert "100"[..2] == "10";
      assert "10"[..1] == "1";
      assert "1"[..0] == "";
    }
  }

  // ---------------------------------------------------------------------
  // The scheduler's state

  /** What happened to a selector taken off the head of the list: clicked,
      or lost to a `querySelectorEx` that threw. */
  datatype Outcome = Clicked(selector: string) | Lost(selector: string)

  /** What is fixed at the start: the filtered selector list, the click
      delay, the start time `t0` and the deadline `tbye`. */
  datatype Config = Config(initial: seq<string>, clickDelay: int, t0: int, tbye: int)

  /** The captured variables: `selectorList`, `tnext`, `next.timer`,
      `observe.observer` (present or not), `observe.timer`, and the clicks
      made so far. A timer is the time it is due. */
  datatype Sched = Sched(list: seq<string>, tnext: int, nextTimer: Option<int>,
                         observing: bool, observeTimer: Option<int>, outcomes: seq<Outcome>)

  function Selectors(outcomes: seq<Outcome>): (r: seq<string>)
    ensures |r| == |outcomes|
    ensures forall k :: 0 <= k < |r| ==> r[k] == outcomes[k].selector
  {
    seq(|outcomes|, k requires 0 <= k < |outcomes| => outcomes[k].selector)
  }

  function Clicks(outcomes: seq<Outcome>): nat
    decreases |outcomes|
  {
    if outcomes == [] then 0
    else Clicks(outcomes[..|outcomes| - 1]) + (if outcomes[|outcomes| - 1].Clicked? then 1 else 0)
  }

  predicate ConfigOk(cfg: Config) {
    cfg.initial != [] && cfg.clickDelay != 0 && cfg.tbye == cfg.t0 + 10000
  }

  /** The first value of `tnext`: a single selector waits one delay. */
  function Start(cfg: Config): int {
    if |cfg.initial| != 1 then cfg.t0 else cfg.t0 + cfg.clickDelay
  }

  function Initial(cfg: Config): Sched {
    Sched(cfg.initial, Start(cfg), None, false, None, [])
  }

  /** Nothing left: no selector, no timer, no observer. */
  predicate Released(s: Sched) {
    s.list == [] && s.nextTimer.None? && !s.observing && s.observeTimer.None?
  }

  /** What every reachable state satisfies: the selectors are taken off in
      their order, the list is the rest of them unless it was emptied,
      `tnext` has moved one delay per click, a pending `next` timer has a
      selector to look for, and the `observe` timer belongs to an observer. */
  predicate Inv(cfg: Config, s: Sched) {
    && ConfigOk(cfg)
    && |s.outcomes| <= |cfg.initial|
    && Selectors(s.outcomes) == cfg.initial[..|s.outcomes|]
    && (s.list == [] || s.list == cfg.initial[|s.outcomes|..])
    && s.tnext == Start(cfg) + cfg.clickDelay * Clicks(s.outcomes)
    && (s.nextTimer.Some? ==> s.list != [])
    && (s.observeTimer.Some? ==> s.observing)
  }

  // ---------------------------------------------------------------------
  // The scheduler's steps, as functions of the state

  /** `next.stop()` */
  function NextStopState(s: Sched): Sched {
    s.(nextTimer := None)
  }

  /** `observe.stop()` */
  function ObserveStopState(s: Sched): Sched {
    s.(observeTimer := None, observing := false)
  }

  /** `terminate()`: the list emptied, both stops. */
  function TerminateState(s: Sched): (r: Sched)
    ensures Released(r) && r.tnext == s.tnext && r.outcomes == s.outcomes
  {
    ObserveStopState(NextStopState(s.(list := [])))
  }

  /** `observe()`: an observer, unless there is one already. */
  function ObserveState(s: Sched): Sched {
    if s.observing then s else s.(observing := true)
  }

  function Max(a: int, b: int): int {
    if a >= b then a else b
  }

  /** `next(notFound)` at time `now`. */
  function NextState(cfg: Config, s: Sched, notFound: bool, now: int): Sched {
    if s.list == [] || now >= cfg.tbye then TerminateState(s)
    else
      var s1 := if notFound then ObserveState(s) else s;
      s1.(nextTimer := Some(now + Max(if notFound then cfg.tbye - now else s.tnext - now, 1)))
  }

  /** What `querySelectorEx` gives for the head of the list. */
  datatype Lookup = Found | NotFound | Threw

  function LookupOf(r: Result<Option<Node>>): Lookup {
    match r
    case Throws(_) => Threw
    case Ok(None) => NotFound
    case Ok(Some(_)) => Found
  }

  /** The lookup of the head of `list` on the page `dom`. */
  function HeadLookup(dom: Dom, list: seq<string>): Lookup {
    if list == [] then NotFound else LookupOf(QuerySelectorEx(dom, list[0], dom.document))
  }

  /** `process()` at time `now`, where `look` is what the page gives for the
      head of the list. A throwing `querySelectorEx` leaves the selector off
      the list and schedules nothing. */
  function ProcessState(cfg: Config, s: Sched, now: int, look: Lookup): Sched {
    var s0 := NextStopState(s);
    if now < s0.tnext then NextState(cfg, s0, false, now)
    else if s0.list == [] then TerminateState(s0)
    else HeadState(cfg, s0, now, look)
  }

  /** The second half of `process()`: the head of the list is taken off and
      looked for. */
  function HeadState(cfg: Config, s0: Sched, now: int, look: Lookup): Sched
    requires s0.list != []
  {
    var selector := s0.list[0];
    var s1 := s0.(list := s0.list[1..]);
    match look
    case Threw => s1.(outcomes := s1.outcomes + [Lost(selector)])
    case NotFound => NextState(cfg, s1.(list := [selector] + s1.list), true, now)
    case Found =>
      NextState(cfg, s1.(outcomes := s1.outcomes + [Clicked(selector)], tnext := s1.tnext + cfg.clickDelay), false, now)
  }

  /** The `next` timer fires. */
  function NextTimerState(cfg: Config, s: Sched, now: int, look: Lookup): Sched {
    if s.nextTimer.None? then s
    else ProcessState(cfg, s.(nextTimer := None), now, look)
  }

  /** The page changes while the observer is connected: a 20 ms timer,
      unless one is pending. */
  function MutationState(s: Sched, now: int): Sched {
    if !s.observing || s.observeTimer.Some? then s
    else s.(observeTimer := Some(now + 20))
  }

  /** The `observe` timer fires. */
  function ObserveTimerState(cfg: Config, s: Sched, now: int, look: Lookup): Sched {
    if s.observeTimer.None? then s
    else ProcessState(cfg, s.(observeTimer := None), now, look)
  }

  // ---------------------------------------------------------------------
  // Properties of the steps

  lemma OutcomesAppend(o: seq<Outcome>, x: Outcome)
    ensures Clicks(o + [x]) == Clicks(o) + (if x.Clicked? then 1 else 0)
    ensures Selectors(o + [x]) == Selectors(o) + [x.selector]
  {
    assert (o + [x])[..|o|] == o;
  }

  lemma InitialInv(cfg: Config)
    requires ConfigOk(cfg)
    ensures Inv(cfg, Initial(cfg))
  {
    assert cfg.initial[..0] == [];
  }

  lemma NextKeepsInv(cfg: Config, s: Sched, notFound: bool, now: int)
    requires Inv(cfg, s)
    ensures Inv(cfg, NextState(cfg, s, notFound, now))
  {
  }

  /** The invariant holds after every `process()`. */
  lemma ProcessKeepsInv(cfg: Config, s: Sched, now: int, look: Lookup)
    requires Inv(cfg, s)
    ensures Inv(cfg, ProcessState(cfg, s, now, look))
  {
    if now < s.tnext {
      NextKeepsInv(cfg, NextStopState(s), false, now);
    } else if s.list != [] {
      match look
      case Threw => ProcessLostInv(cfg, s, now);
      case NotFound => ProcessNotFoundInv(cfg, s, now);
      case Found => ProcessFoundInv(cfg, s, now);
    }
  }

  lemma ProcessLostInv(cfg: Config, s: Sched, now: int)
    requires Inv(cfg, s) && now >= s.tnext && s.list != []
    ensures Inv(cfg, ProcessState(cfg, s, now, Threw))
  {
    LostKeepsInv(cfg, NextStopState(s));
  }

  lemma ProcessNotFoundInv(cfg: Config, s: Sched, now: int)
    requires Inv(cfg, s) && now >= s.tnext && s.list != []
    ensures Inv(cfg, ProcessState(cfg, s, now, NotFound))
  {
    var s0 := NextStopState(s);
    var s1 := s0.(list := s0.list[1..]);
    assert [s0.list[0]] + s1.list == s0.list;
    assert s1.(list := [s0.list[0]] + s1.list) == s0;
    NextKeepsInv(cfg, s0, true, now);
  }

  lemma ProcessFoundInv(cfg: Config, s: Sched, now: int)
    requires Inv(cfg, s) && now >= s.tnext && s.list != []
    ensures Inv(cfg, ProcessState(cfg, s, now, Found))
  {
    var s0 := NextStopState(s);
    ClickedKeepsInv(cfg, s0);
    NextKeepsInv(cfg, s0.(list := s0.list[1..], outcomes := s0.outcomes + [Clicked(s0.list[0])],
                          tnext := s0.tnext + cfg.clickDelay), false, now);
  }

  /** The head of the list is the next selector of the initial list. */
  lemma HeadIsNext(cfg: Config, s: Sched)
    requires Inv(cfg, s) && s.list != []
    ensures var n := |s.outcomes|;
      && n < |cfg.initial| && s.list[0] == cfg.initial[n]
      && (s.list[1..] == [] || s.list[1..] == cfg.initial[n + 1..])
      && cfg.initial[..n + 1] == cfg.initial[..n] + [s.list[0]]
  {
  }

  /** Taking the head off the list as lost keeps the invariant. */
  lemma LostKeepsInv(cfg: Config, s: Sched)
    requires Inv(cfg, s) && s.list != [] && s.nextTimer.None?
    ensures Inv(cfg, s.(list := s.list[1..], outcomes := s.outcomes + [Lost(s.list[0])]))
  {
    HeadIsNext(cfg, s);
    OutcomesAppend(s.outcomes, Lost(s.list[0]));
  }

  /** Taking the head off the list as clicked, one delay later, keeps the
      invariant. */
  lemma ClickedKeepsInv(cfg: Config, s: Sched)
    requires Inv(cfg, s) && s.list != [] && s.nextTimer.None?
    ensures Inv(cfg, s.(list := s.list[1..], outcomes := s.outcomes + [Clicked(s.list[0])],
                        tnext := s.tnext + cfg.clickDelay))
  {
    HeadIsNext(cfg, s);
    OutcomesAppend(s.outcomes, Clicked(s.list[0]));
    DelayStep(Start(cfg), cfg.clickDelay, Clicks(s.outcomes), s.tnext);
  }

  lemma DelayStep(start: int, delay: int, clicks: nat, tnext: int)
    requires tnext == start + delay * clicks
    ensures tnext + delay == start + delay * (clicks + 1)
  {
  }

  /** The invariant holds after every event the page or the clock delivers. */
  lemma EventsKeepInv(cfg: Config, s: Sched, now: int, look: Lookup)
    requires Inv(cfg, s)
    ensures Inv(cfg, NextTimerState(cfg, s, now, look))
    ensures Inv(cfg, MutationState(s, now))
    ensures Inv(cfg, ObserveTimerState(cfg, s, now, look))
  {
    ProcessKeepsInv(cfg, s.(nextTimer := None), now, look);
    ProcessKeepsInv(cfg, s.(observeTimer := None), now, look);
  }

  /** Before `tnext` nothing is clicked: the state only waits (or, past the
      deadline or with nothing left, terminates). */
  lemma NoClickBeforeTnext(cfg: Config, s: Sched, now: int, look: Lookup)
    requires now < s.tnext
    ensures var r := ProcessState(cfg, s, now, look);
      && r.outcomes == s.outcomes && r.tnext == s.tnext
      && (if s.list == [] || now >= cfg.tbye then Released(r)
          else r.list == s.list && r.nextTimer == Some(now + Max(s.tnext - now, 1)))
  {
  }

  /** A click takes exactly the head of the list and moves `tnext` on by
      one delay; the rest of the list waits for the next timer. */
  lemma ClickPopsHead(cfg: Config, s: Sched, now: int, look: Lookup)
    requires s.tnext <= now && s.list != []
    requires look == Found
    ensures var r := ProcessState(cfg, s, now, look);
      && r.outcomes == s.outcomes + [Clicked(s.list[0])]
      && r.tnext == s.tnext + cfg.clickDelay
      && (if |s.list| == 1 || now >= cfg.tbye then Released(r)
          else r.list == s.list[1..] && r.nextTimer == Some(now + Max(r.tnext - now, 1)))
  {
  }

  /** A selector that is not found goes back to the head of the list, and
      the observer waits for the page to change until the deadline. */
  lemma NotFoundRequeued(cfg: Config, s: Sched, now: int, look: Lookup)
    requires s.tnext <= now && s.list != []
    requires look == NotFound
    ensures var r := ProcessState(cfg, s, now, look);
      && r.outcomes == s.outcomes && r.tnext == s.tnext
      && (if now >= cfg.tbye then Released(r)
          else r.list == s.list && r.observing && r.nextTimer == Some(now + Max(cfg.tbye - now, 1)))
  {
    assert [s.list[0]] + s.list[1..] == s.list;
  }

  /** A throwing query loses its selector and leaves nothing scheduled. */
  lemma ThrowLosesSelector(cfg: Config, s: Sched, now: int, look: Lookup)
    requires s.tnext <= now && s.list != []
    requires look == Threw
    ensures var r := ProcessState(cfg, s, now, look);
      && r.outcomes == s.outcomes + [Lost(s.list[0])] && r.list == s.list[1..]
      && r.nextTimer.None? && r.tnext == s.tnext
      && r.observing == s.observing && r.observeTimer == s.observeTimer
  {
  }

  /** A `process()` at or after the deadline releases everything, unless
      its query throws. */
  lemma DeadlineTerminates(cfg: Config, s: Sched, now: int, look: Lookup)
    requires now >= cfg.tbye
    requires s.tnext <= now && s.list != [] ==> look != Threw
    ensures Released(ProcessState(cfg, s, now, look))
  {
  }

  /** Every timer `process()` sets is due at least 1 ms later. */
  lemma TimersInFuture(cfg: Config, s: Sched, now: int, look: Lookup)
    ensures var r := ProcessState(cfg, s, now, look);
      r.nextTimer.None? || r.nextTimer.value >= now + 1
  {
  }

  /** `next.stop`, `observe.stop` and `observe` are idempotent, and there is
      at most one observer: `observe` with one connected changes nothing. */
  lemma StopsIdempotent(s: Sched)
    ensures NextStopState(NextStopState(s)) == NextStopState(s)
    ensures ObserveStopState(ObserveStopState(s)) == ObserveStopState(s)
    ensures ObserveState(ObserveState(s)) == ObserveState(s)
    ensures s.observing ==> ObserveState(s) == s
  {
  }

  /** A run of `process()` calls: each clicks at most one selector, and they
      are clicked in the order of the list. */
  lemma {:induction false} ProcessRun(cfg: Config, s: Sched, times: seq<int>, looks: seq<Lookup>)
    requires Inv(cfg, s) && |times| == |looks|
    ensures Inv(cfg, Run(cfg, s, times, looks))
    ensures var r := Run(cfg, s, times, looks);
      && |s.outcomes| <= |r.outcomes| <= |s.outcomes| + |times|
      && r.outcomes[..|s.outcomes|] == s.outcomes
    decreases |times|
  {
    if times != [] {
      var s1 := ProcessState(cfg, s, times[0], looks[0]);
      ProcessKeepsInv(cfg, s, times[0], looks[0]);
      OneProcessOutcomes(cfg, s, times[0], looks[0]);
      ProcessRun(cfg, s1, times[1..], looks[1..]);
      var r := Run(cfg, s1, times[1..], looks[1..]);
      assert r.outcomes[..|s.outcomes|] == r.outcomes[..|s1.outcomes|][..|s.outcomes|];
    }
  }

  /** `process()` once per time, on the page as it is then. */
  function Run(cfg: Config, s: Sched, times: seq<int>, looks: seq<Lookup>): Sched
    requires |times| == |looks|
    decreases |times|
  {
    if times == [] then s
    else Run(cfg, ProcessState(cfg, s, times[0], looks[0]), times[1..], looks[1..])
  }

  lemma OneProcessOutcomes(cfg: Config, s: Sched, now: int, look: Lookup)
    ensures var r := ProcessState(cfg, s, now, look);
      && |s.outcomes| <= |r.outcomes| <= |s.outcomes| + 1
      && r.outcomes[..|s.outcomes|] == s.outcomes
  {
  }

  // ---------------------------------------------------------------------
  // The task object

  /** The running scriptlet: its captured variables as fields. */
  class ClickTask {
    const cfg: Config
    var selectorList: seq<string>
    var tnext: int
    var nextTimer: Option<int>
    var observing: bool
    var observeTimer: Option<int>
    var outcomes: seq<Outcome>

    function State(): Sched
      reads this
    {
      Sched(selectorList, tnext, nextTimer, observing, observeTimer, outcomes)
    }

    predicate Valid()
      reads this
    {
      Inv(cfg, State())
    }

    /** The state right after the selector list is found non-empty. */
    constructor (list: seq<string>, clickDelay: int, t0: int)
      requires list != [] && clickDelay != 0
      ensures cfg == Config(list, clickDelay, t0, t0 + 10000)
      ensures State() == Initial(cfg) && Valid()
    {
      cfg := Config(list, clickDelay, t0, t0 + 10000);
      selectorList := list;
      tnext := if |list| != 1 then t0 else t0 + clickDelay;
      nextTimer := None;
      observing := false;
      observeTimer := None;
      outcomes := [];
      new;
      InitialInv(cfg);
    }

    method NextStop()
      modifies this
      ensures State() == NextStopState(old(State()))
    {
      if nextTimer.None? { return; }
      nextTimer := None;
    }

    method ObserveStop()
      modifies this
      ensures State() == ObserveStopState(old(State()))
    {
      if observeTimer.Some? {
        observeTimer := None;
      }
      if observing {
        observing := false;
      }
    }

    method Terminate()
      modifies this
      ensures State() == TerminateState(old(State()))
    {
      selectorList := [];
      NextStop();
      ObserveStop();
    }

    method Observe()
      modifies this
      ensures State() == ObserveState(old(State()))
    {
      if observing { return; }
      observing := true;
    }

    method Next(notFound: bool, now: int)
      modifies this
      ensures State() == NextState(cfg, old(State()), notFound, now)
    {
      if selectorList == [] {
        Terminate();
        return;
      }
      if now >= cfg.tbye {
        Terminate();
        return;
      }
      if notFound { Observe(); }
      var delay := Max(if notFound then cfg.tbye - now else tnext - now, 1);
      nextTimer := Some(now + delay);
    }

    method Process(now: int, dom: Dom)
      requires Valid()
      modifies this
      ensures State() == ProcessState(cfg, old(State()), now, HeadLookup(dom, old(selectorList)))
      ensures Valid()
    {
      ghost var look := HeadLookup(dom, selectorList);
      ProcessKeepsInv(cfg, State(), now, look);
      NextStop();
      if now < tnext {
        Next(false, now);
        return;
      }
      if selectorList == [] {
        Terminate();
        return;
      }
      TakeHead(now, dom);
    }

    /** The part of `process()` after the checks on time and list. */
    method TakeHead(now: int, dom: Dom)
      requires selectorList != []
      modifies this
      ensures State() == HeadState(cfg, old(State()), now, HeadLookup(dom, old(selectorList)))
    {
      var selector := selectorList[0];
      selectorList := selectorList[1..];
      var found := LookupOf(QuerySelectorEx(dom, selector, dom.document));
      if found == Threw {
        outcomes := outcomes + [Lost(selector)];
        return;
      }
      if found == NotFound {
        selectorList := [selector] + selectorList;
        Next(true, now);
        return;
      }
      outcomes := outcomes + [Clicked(selector)];
      tnext := tnext + cfg.clickDelay;
      Next(false, now);
    }

    method OnNextTimer(now: int, dom: Dom)
      requires Valid()
      modifies this
      ensures State() == NextTimerState(cfg, old(State()), now, HeadLookup(dom, old(selectorList)))
      ensures Valid()
    {
      if nextTimer.None? { return; }
      nextTimer := None;
      Process(now, dom);
    }

    method OnMutation(now: int)
      requires Valid()
      modifies this
      ensures State() == MutationState(old(State()), now)
      ensures Valid()
    {
      if !observing || observeTimer.Some? { return; }
      observeTimer := Some(now + 20);
    }

    method OnObserveTimer(now: int, dom: Dom)
      requires Valid()
      modifies this
      ensures State() == ObserveTimerState(cfg, old(State()), now, HeadLookup(dom, old(selectorList)))
      ensures Valid()
    {
      if observeTimer.None? { return; }
      observeTimer := None;
      Process(now, dom);
    }
  }

  // ---------------------------------------------------------------------
  // runAtHtmlElementFn

  /** `runAtHtmlElementFn(fn)`: `fn` runs at once when the document has its
      root element, else on the first change to the document's children,
      after which the observer is disconnected. `runs` counts the calls. */
  class HtmlElementWait {
    var observing: bool
    var runs: nat

    predicate Valid()
      reads this
    {
      runs + (if observing then 1 else 0) == 1
    }

    constructor (hasRoot: bool)
      ensures Valid()
      ensures runs == (if hasRoot then 1 else 0) && observing == !hasRoot
    {
      observing := !hasRoot;
      runs := if hasRoot then 1 else 0;
    }

    /** A change to the document's children; `run` says whether `fn` is
        called now. */
    method OnChildList() returns (run: bool)
      requires Valid()
      modifies this
      ensures Valid()
      ensures run == old(observing) && !observing && runs == 1
    {
      run := observing;
      if observing {
        observing := false;
        runs := runs + 1;
      }
    }
  }

  // ---------------------------------------------------------------------
  // The scriptlet

  /** `trustedClickElement(selectors, extraMatch, delay)` at time `now`:
      the preconditions, then the selector list, then the task, whose first
      `process()` runs at once when the document has its root element.
      With `asWritten` the preconditions are those of the code as written,
      where a `key=value` assertion, or a storage assertion reached over a
      non-empty store, throws and nothing is clicked; without it they are
      the corrected ones. */
  method TrustedClickElement(selectors: string, extraMatch: string, delay: string,
                             cookie: string, storage: seq<(string, string)>, host: RegexHost,
                             dom: Dom, now: int, hasRoot: bool, asWritten: bool)
    returns (r: Result<Option<(ClickTask, HtmlElementWait)>>)
    ensures r.Throws? <==> PreconditionsHold(extraMatch, cookie, storage, host, asWritten).Throws?
    ensures r == Ok(None) <==>
              PreconditionsHold(extraMatch, cookie, storage, host, asWritten) == Ok(false)
              || (PreconditionsHold(extraMatch, cookie, storage, host, asWritten) == Ok(true)
                  && SelectorList(selectors, dom) == [])
    ensures r.Ok? && r.value.Some? ==>
              var (task, wait) := r.value.value;
              && fresh(task) && fresh(wait) && task.Valid() && wait.Valid()
              && task.cfg == Config(SelectorList(selectors, dom), ClickDelay(delay), now, now + 10000)
              && wait.observing == !hasRoot
              && task.State() == (if hasRoot then ProcessState(task.cfg, Initial(task.cfg), now, HeadLookup(dom, task.cfg.initial))
                                  else Initial(task.cfg))
  {
    var pre := CheckPreconditions(extraMatch, cookie, storage, host, asWritten);
    if pre.Throws? { return Throws(pre.error); }
    if !pre.value { return Ok(None); }
    var list := SelectorList(selectors, dom);
    if list == [] { return Ok(None); }
    var clickDelay := ClickDelay(delay);
    var task := new ClickTask(list, clickDelay, now);
    var wait := new HtmlElementWait(hasRoot);
    if hasRoot {
      task.Process(now, dom);
    }
    return Ok(Some((task, wait)));
  }
}
