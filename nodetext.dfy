/** `remove-node-text` and `replaceNodeTextFn`: the text of every node whose
    name matches, that passes the `includes` and `excludes` gates and
    matches the pattern, is rewritten, first over the nodes already in the
    document and then over the nodes that mutations add, until a `sedCount`
    quota runs out or the observer is stopped; and `runAt`, which runs a
    callback once the document reaches a ready state.

    Nodes are values: a write is recorded in the task's log as the node's
    id and its new text. The tree walk is the sequence of nodes it visits,
    and a mutation record is the sequence of nodes it added. */
module NodeText {
  import opened Wrappers
  import opened JsString
  import opened SafeSelf

  // ---------------------------------------------------------------------
  // Configuration

  datatype TextNode = TextNode(id: nat, name: string, text: string)

  /** The captured `sedCount`: a number, or a value that subtracting 1
      never brings to 0 (NaN). */
  datatype Counter = Count(n: int) | NaN

  datatype Config = Config(
    reNodeName: Regex,
    pattern: string,
    rePattern: Regex,
    replacement: string,
    reIncludes: Option<Regex>,
    reExcludes: Option<Regex>,
    sedCount: Counter,
    stay: bool,
    quitAfter: ArgValue)

  /** A positional argument, `''` when it is missing (the default value). */
  function ArgAt(args: seq<string>, i: nat): string {
    if i < |args| then args[i] else ""
  }

  /** `extraArgs[k]` */
  function Opt(extra: map<string, ArgValue>, k: string): ArgValue {
    if k in extra then extra[k] else Undefined
  }

  /** JavaScript `a || b` */
  function Or(a: ArgValue, b: ArgValue): ArgValue {
    if Truthy(a) then a else b
  }

  /** `v ? safe.patternToRegex(v, flags) : null`. A number reaches
      `escapeRegexChars`, which calls `replace` on it and throws. */
  function OptionPattern(v: ArgValue, flags: string, host: RegexHost): Result<Option<Regex>>
    requires ValidFlags(flags)
  {
    match v
    case Str(s) => if s == "" then Ok(None) else Ok(Some(PatternToRegex(s, flags, false, host)))
    case Num(n) => if n == 0 then Ok(None) else Throws(TypeError)
    case Undefined => Ok(None)
  }

  /** `extraArgs.sedCount || 0`; a non-numeric string is NaN. */
  function CounterOf(v: ArgValue): Counter {
    match v
    case Num(n) => Count(n)
    case Str(s) => if s == "" then Count(0) else NaN
    case Undefined => Count(0)
  }

  /** The constants `replaceNodeTextFn(nodeName, pattern, replacement, ...)`
      computes before it touches the page. */
  function ConfigOf(args: seq<string>, host: RegexHost): Result<Config> {
    var pattern := ArgAt(args, 1);
    var extra := GetExtraArgs(args, 3);
    match OptionPattern(Or(Opt(extra, "includes"), Opt(extra, "condition")), "ms", host)
    case Throws(e) => Throws(e)
    case Ok(reIncludes) =>
      match OptionPattern(Opt(extra, "excludes"), "ms", host)
      case Throws(e) => Throws(e)
      case Ok(reExcludes) =>
        Ok(Config(PatternToRegex(ArgAt(args, 0), "i", true, host), pattern,
                  PatternToRegex(pattern, "gms", false, host), ArgAt(args, 2),
                  reIncludes, reExcludes, CounterOf(Opt(extra, "sedCount")),
                  Truthy(Opt(extra, "stay")), Or(Opt(extra, "quitAfter"), Num(0))))
  }

  /** The arguments `removeNodeText(nodeName, includes, ...extraArgs)`
      passes on: an empty pattern and replacement, and `includes` as the
      first option. */
  function RemoveNodeTextArgs(nodeName: string, includes: string, extraArgs: seq<string>): seq<string> {
    [nodeName, "", "", "includes", includes] + extraArgs
  }

  /** `removeNodeText` empties the text it rewrites, and its `includes`
      argument is the `includes` gate unless a later option overrides it. */
  lemma RemoveNodeTextConfig(nodeName: string, includes: string, host: RegexHost)
    requires includes != "" && !AllDigits(includes)
    ensures var c := ConfigOf(RemoveNodeTextArgs(nodeName, includes, []), host);
      && c.Ok?
      && c.value.pattern == "" && c.value.replacement == ""
      && c.value.rePattern == MatchAll
      && c.value.reIncludes == Some(PatternToRegex(includes, "ms", false, host))
      && c.value.reExcludes.None? && c.value.sedCount == Count(0) && !c.value.stay
  {
    var args := RemoveNodeTextArgs(nodeName, includes, []);
    RemoveNodeTextExtra(nodeName, includes);
    ConfigOfIncludes(args, includes, host);
  }

  /** The options `removeNodeText` passes on: `includes` alone. */
  lemma RemoveNodeTextExtra(nodeName: string, includes: string)
    requires !AllDigits(includes)
    ensures GetExtraArgs(RemoveNodeTextArgs(nodeName, includes, []), 3) == map["includes" := Str(includes)]
    ensures ArgAt(RemoveNodeTextArgs(nodeName, includes, []), 1) == ""
    ensures ArgAt(RemoveNodeTextArgs(nodeName, includes, []), 2) == ""
  {
    var args := RemoveNodeTextArgs(nodeName, includes, []);
    assert args == [nodeName, "", "", "includes", includes];
    assert args[3..] == ["includes", includes];
    assert ["includes", includes][2..] == [];
    assert Entries(["includes", includes]) == [("includes", Str(includes))];
    assert FromEntries([("includes", Str(includes))]) == map[]["includes" := Str(includes)];
  }

  /** The configuration for an empty pattern and replacement whose only
      option is `includes`. */
  lemma ConfigOfIncludes(args: seq<string>, includes: string, host: RegexHost)
    requires includes != ""
    requires GetExtraArgs(args, 3) == map["includes" := Str(includes)]
    requires ArgAt(args, 1) == "" && ArgAt(args, 2) == ""
    ensures var c := ConfigOf(args, host);
      && c.Ok?
      && c.value.pattern == "" && c.value.replacement == ""
      && c.value.rePattern == MatchAll
      && c.value.reIncludes == Some(PatternToRegex(includes, "ms", false, host))
      && c.value.reExcludes.None? && c.value.sedCount == Count(0) && !c.value.stay
  {
    assert "condition" != "includes" && "excludes" != "includes";
    assert "sedCount" != "includes" && "stay" != "includes";
  }

  /** `removeNodeText` with a literal `includes`: a node is emptied exactly
      when its text contains `includes`, and the loop always goes on. */
  lemma RemoveNodeTextEmpties(nodeName: string, includes: string, host: RegexHost, before: string)
    requires includes != "" && !AllDigits(includes) && SlashForm(includes, AnyOfGimsu).None?
    ensures ConfigOf(RemoveNodeTextArgs(nodeName, includes, []), host).Ok?
    ensures var cfg := ConfigOf(RemoveNodeTextArgs(nodeName, includes, []), host).value;
      HandleNodeStep(cfg, host, before, cfg.sedCount) ==
        NodeStep(true, if Includes(before, includes) then Some("") else None, Count(0))
  {
    RemoveNodeTextConfig(nodeName, includes, host);
    assert ValidFlags("ms") && 'i' !in "ms";
  }

  /** The name pattern: empty, it admits every node; a plain name is
      anchored at both ends and case-insensitive (the `i` flag, whose
      matching the host decides). */
  lemma NodeNamePattern(args: seq<string>, host: RegexHost, name: string)
    requires ConfigOf(args, host).Ok?
    ensures var re, nodeName := ConfigOf(args, host).value.reNodeName, ArgAt(args, 0);
      && (nodeName == "" ==> Test(host, re, name, false))
      && (nodeName != "" && SlashForm(nodeName, AnyOfGimsu).None? ==>
            re == Regex("^" + EscapeRegexChars(nodeName) + "$", "i"))
  {
    assert ValidFlags("i");
  }

  /** An `includes` argument of digits other than 0 becomes a number, which
      `patternToRegex` cannot escape: the scriptlet throws a `TypeError`. */
  lemma NumericIncludesThrows(nodeName: string, includes: string, host: RegexHost)
    requires AllDigits(includes) && DigitsValue(includes) != 0
    ensures ConfigOf(RemoveNodeTextArgs(nodeName, includes, []), host) == Throws(TypeError)
  {
    var args := RemoveNodeTextArgs(nodeName, includes, []);
    assert args[3..] == ["includes", includes];
    assert ["includes", includes][2..] == [];
    assert Entries(["includes", includes]) == [("includes", Num(DigitsValue(includes)))];
    assert GetExtraArgs(args, 3) == map["includes" := Num(DigitsValue(includes))] by {
      assert FromEntries([("includes", Num(DigitsValue(includes)))]) == map[]["includes" := Num(DigitsValue(includes))];
    }
  }

  // ---------------------------------------------------------------------
  // handleNode

  /** What `handleNode` does to one node: whether the caller goes on, the
      text written (if any), and the counter after. */
  datatype NodeStep = NodeStep(keep: bool, after: Option<string>, sed: Counter)

  /** The three gates, in their order: `includes` must match, `excludes`
      must not, and the pattern must. */
  predicate Passes(cfg: Config, host: RegexHost, before: string) {
    && (cfg.reIncludes.None? || Test(host, cfg.reIncludes.value, before, true))
    && (cfg.reExcludes.None? || !Test(host, cfg.reExcludes.value, before, true))
    && Test(host, cfg.rePattern, before, true)
  }

  /** The new text: the pattern's replacement, or with an empty pattern
      the replacement itself. */
  function Rewritten(cfg: Config, host: RegexHost, before: string): string {
    if cfg.pattern != "" then host.replace(cfg.rePattern, before, cfg.replacement) else cfg.replacement
  }

  /** `sedCount === 0 || (sedCount -= 1) !== 0` */
  function Consume(sed: Counter): (bool, Counter) {
    match sed
    case NaN => (true, NaN)
    case Count(n) => if n == 0 then (true, sed) else (n - 1 != 0, Count(n - 1))
  }

  function HandleNodeStep(cfg: Config, host: RegexHost, before: string, sed: Counter): NodeStep {
    if cfg.reIncludes.Some? && !Test(host, cfg.reIncludes.value, before, true) then NodeStep(true, None, sed)
    else if cfg.reExcludes.Some? && Test(host, cfg.reExcludes.value, before, true) then NodeStep(true, None, sed)
    else if !Test(host, cfg.rePattern, before, true) then NodeStep(true, None, sed)
    else
      var (keep, sed') := Consume(sed);
      NodeStep(keep, Some(Rewritten(cfg, host, before)), sed')
  }

  /** A node is rewritten exactly when it passes the gates; one that fails a
      gate is left alone, does not use up the quota and lets the caller go
      on. */
  lemma HandleNodeGates(cfg: Config, host: RegexHost, before: string, sed: Counter)
    ensures var st := HandleNodeStep(cfg, host, before, sed);
      && (st.after.Some? <==> Passes(cfg, host, before))
      && (st.after.Some? ==> st.after.value == Rewritten(cfg, host, before))
      && (st.after.None? ==> st.keep && st.sed == sed)
  {
  }

  /** The quota: 0 (or NaN) is unlimited; otherwise each rewrite takes one,
      and the rewrite that brings it to 0 tells the caller to stop. */
  lemma HandleNodeQuota(cfg: Config, host: RegexHost, before: string, sed: Counter)
    requires Passes(cfg, host, before)
    ensures var st := HandleNodeStep(cfg, host, before, sed);
      && (sed == Count(0) || sed == NaN ==> st.keep && st.sed == sed)
      && (sed.Count? && sed.n != 0 ==> st.sed == Count(sed.n - 1) && (st.keep <==> sed.n != 1))
  {
  }

  // ---------------------------------------------------------------------
  // The walk and the mutation handler, as functions

  /** The counter, the log of writes, and whether `handleNode` asked to
      stop. */
  datatype Sweep = Sweep(sed: Counter, writes: seq<(nat, string)>, stopped: bool)

  /** The walk visits a node whose name matches and that is not the
      running script; the mutation handler has no script to skip. */
  predicate Eligible(cfg: Config, host: RegexHost, node: TextNode, skip: Option<nat>) {
    Test(host, cfg.reNodeName, node.name, false) && skip != Some(node.id)
  }

  /** One node of a loop. */
  function Visit(cfg: Config, host: RegexHost, node: TextNode, skip: Option<nat>, acc: Sweep): Sweep {
    if !Eligible(cfg, host, node, skip) then acc
    else
      var st := HandleNodeStep(cfg, host, node.text, acc.sed);
      Sweep(st.sed, acc.writes + (if st.after.Some? then [(node.id, st.after.value)] else []), !st.keep)
  }

  /** The loop over `nodes` from position `i`, until a node asks to stop. */
  function SweepFrom(cfg: Config, host: RegexHost, nodes: seq<TextNode>, i: nat, skip: Option<nat>, acc: Sweep): Sweep
    requires i <= |nodes|
    decreases |nodes| - i
  {
    if i == |nodes| || acc.stopped then acc
    else SweepFrom(cfg, host, nodes, i + 1, skip, Visit(cfg, host, nodes[i], skip, acc))
  }

  /** The nested loop over mutation records and their added nodes, from
      record `r`, node `j`. */
  function SweepRecords(cfg: Config, host: RegexHost, records: seq<seq<TextNode>>, r: nat, j: nat, acc: Sweep): Sweep
    requires r <= |records| && (r < |records| ==> j <= |records[r]|)
    decreases |records| - r, if r < |records| then |records[r]| - j else 0
  {
    if r == |records| || acc.stopped then acc
    else if j == |records[r]| then SweepRecords(cfg, host, records, r + 1, 0, acc)
    else SweepRecords(cfg, host, records, r, j + 1, Visit(cfg, host, records[r][j], None, acc))
  }

  /** Nodes that all match and pass the gates, with a counter at `k > 0`:
      the loop stops exactly at the `k`-th of them, after `k` writes. */
  lemma {:induction false} QuotaStopsAtK(cfg: Config, host: RegexHost, nodes: seq<TextNode>, i: nat,
                                         skip: Option<nat>, acc: Sweep, k: nat)
    requires i <= |nodes| && !acc.stopped && acc.sed == Count(k) && 0 < k <= |nodes| - i
    requires forall m :: i <= m < |nodes| ==> Eligible(cfg, host, nodes[m], skip) && Passes(cfg, host, nodes[m].text)
    ensures var r := SweepFrom(cfg, host, nodes, i, skip, acc);
      r.stopped && r.sed == Count(0) && |r.writes| == |acc.writes| + k && r.writes[..|acc.writes|] == acc.writes
    decreases k
  {
    var next := Visit(cfg, host, nodes[i], skip, acc);
    HandleNodeGates(cfg, host, nodes[i].text, acc.sed);
    HandleNodeQuota(cfg, host, nodes[i].text, acc.sed);
    assert |next.writes| == |acc.writes| + 1 && next.writes[..|acc.writes|] == acc.writes;
    if k > 1 {
      QuotaStopsAtK(cfg, host, nodes, i + 1, skip, next, k - 1);
      var r := SweepFrom(cfg, host, nodes, i + 1, skip, next);
      assert r.writes[..|acc.writes|] == r.writes[..|next.writes|][..|acc.writes|];
    }
  }

  /** A counter that is 0, negative or NaN never stops the loop. */
  lemma {:induction false} NoQuotaNeverStops(cfg: Config, host: RegexHost, nodes: seq<TextNode>, i: nat,
                                             skip: Option<nat>, acc: Sweep)
    requires i <= |nodes| && !acc.stopped && (acc.sed.NaN? || acc.sed.n <= 0)
    ensures var r := SweepFrom(cfg, host, nodes, i, skip, acc);
      !r.stopped && (r.sed.NaN? || r.sed.n <= 0)
    decreases |nodes| - i
  {
    if i < |nodes| {
      NoQuotaNeverStops(cfg, host, nodes, i + 1, skip, Visit(cfg, host, nodes[i], skip, acc));
    }
  }

  /** A loop only adds to the log of writes. */
  lemma {:induction false} SweepWritesGrow(cfg: Config, host: RegexHost, nodes: seq<TextNode>, i: nat,
                                           skip: Option<nat>, acc: Sweep)
    requires i <= |nodes|
    ensures var r := SweepFrom(cfg, host, nodes, i, skip, acc);
      |acc.writes| <= |r.writes| && r.writes[..|acc.writes|] == acc.writes
    decreases |nodes| - i
  {
    if i < |nodes| && !acc.stopped {
      var next := Visit(cfg, host, nodes[i], skip, acc);
      assert next.writes[..|acc.writes|] == acc.writes;
      SweepWritesGrow(cfg, host, nodes, i + 1, skip, next);
      var r := SweepFrom(cfg, host, nodes, i + 1, skip, next);
      assert r.writes[..|acc.writes|] == r.writes[..|next.writes|][..|acc.writes|];
    }
  }

  /** The added nodes of the records, in order. */
  function Flatten(records: seq<seq<TextNode>>): seq<TextNode>
    decreases |records|
  {
    if records == [] then [] else records[0] + Flatten(records[1..])
  }

  /** Dropping the first node shifts the loop by one position. */
  lemma {:induction false} SweepShift(cfg: Config, host: RegexHost, xs: seq<TextNode>, i: nat,
                                      skip: Option<nat>, acc: Sweep)
    requires 1 <= i <= |xs|
    ensures SweepFrom(cfg, host, xs, i, skip, acc) == SweepFrom(cfg, host, xs[1..], i - 1, skip, acc)
    decreases |xs| - i
  {
    if i < |xs| && !acc.stopped {
      assert xs[1..][i - 1] == xs[i];
      SweepShift(cfg, host, xs, i + 1, skip, Visit(cfg, host, xs[i], skip, acc));
    }
  }

  lemma {:induction false} RecordsAsFlat(cfg: Config, host: RegexHost, rs: seq<seq<TextNode>>,
                                         r: nat, j: nat, acc: Sweep)
    requires r < |rs| && j <= |rs[r]|
    ensures SweepRecords(cfg, host, rs, r, j, acc) ==
            SweepFrom(cfg, host, rs[r][j..] + Flatten(rs[r + 1..]), 0, None, acc)
    decreases |rs| - r, |rs[r]| - j
  {
    var xs := rs[r][j..] + Flatten(rs[r + 1..]);
    if acc.stopped {
    } else if j < |rs[r]| {
      var next := Visit(cfg, host, rs[r][j], None, acc);
      RecordsAsFlat(cfg, host, rs, r, j + 1, next);
      assert xs[0] == rs[r][j];
      assert xs[1..] == rs[r][j + 1..] + Flatten(rs[r + 1..]);
      SweepShift(cfg, host, xs, 1, None, next);
    } else if r + 1 < |rs| {
      RecordsAsFlat(cfg, host, rs, r + 1, 0, acc);
      assert rs[r][j..] == [];
      assert rs[r + 1..][1..] == rs[r + 2..];
      assert rs[r + 1][0..] == rs[r + 1];
      assert xs == rs[r + 1][0..] + Flatten(rs[r + 2..]);
    } else {
      assert rs[r + 1..] == [];
      assert xs == [];
    }
  }

  /** The mutation handler's nested loop is the loop over all added nodes
      in order, so the quota lemmas hold for it too. */
  lemma MutationsSweepInOrder(cfg: Config, host: RegexHost, records: seq<seq<TextNode>>, acc: Sweep)
    ensures SweepRecords(cfg, host, records, 0, 0, acc) == SweepFrom(cfg, host, Flatten(records), 0, None, acc)
  {
    if records != [] {
      RecordsAsFlat(cfg, host, records, 0, 0, acc);
      assert records[0][0..] == records[0];
    }
  }

  // ---------------------------------------------------------------------
  // The task's state and its steps

  /** The captured variables that change: the counter, the writes made,
      whether the observer is connected, its pending records, and whether a
      `quitAfter` timer is pending. */
  datatype TaskState = TaskState(sed: Counter, writes: seq<(nat, string)>, connected: bool,
                                 queue: seq<seq<TextNode>>, quitTimer: bool)

  /** `observer.disconnect()`: pending records are dropped. */
  function DisconnectState(s: TaskState): TaskState {
    s.(connected := false, queue := [])
  }

  /** `handleMutations(records)`, with `stop(false)` when a node asks to
      stop. */
  function MutationsState(cfg: Config, host: RegexHost, s: TaskState, records: seq<seq<TextNode>>): TaskState {
    var r := SweepRecords(cfg, host, records, 0, 0, Sweep(s.sed, s.writes, false));
    var s1 := s.(sed := r.sed, writes := r.writes);
    if r.stopped then DisconnectState(s1) else s1
  }

  /** `stop(takeRecord)`: the pending records go through the handler first,
      unless `takeRecord` is false; then the observer is disconnected. */
  function StopState(cfg: Config, host: RegexHost, s: TaskState, takeRecord: bool): TaskState {
    var s1 := if takeRecord then MutationsState(cfg, host, s.(queue := []), s.queue) else s;
    DisconnectState(s1)
  }

  /** The loop over the tree walker, with `stop()` when a node asks to
      stop. */
  function WalkState(cfg: Config, host: RegexHost, s: TaskState, nodes: seq<TextNode>, current: Option<nat>): TaskState {
    var r := SweepFrom(cfg, host, nodes, 0, current, Sweep(s.sed, s.writes, false));
    var s1 := s.(sed := r.sed, writes := r.writes);
    if r.stopped then StopState(cfg, host, s1, true) else s1
  }

  /** How the task ends: never (`stay`), at `interactive`, or `quitAfter`
      milliseconds after it. */
  datatype Quit = Stay | StopNow | StopLater(delay: ArgValue)

  function QuitOf(cfg: Config): Quit {
    if cfg.stay then Stay
    else if cfg.quitAfter == Num(0) then StopNow
    else StopLater(cfg.quitAfter)
  }

  /** The `runAt` callback at `interactive`. */
  function InteractiveState(cfg: Config, host: RegexHost, s: TaskState): TaskState {
    if QuitOf(cfg).StopNow? then StopState(cfg, host, s, true) else s.(quitTimer := true)
  }

  /** After `stop`, whatever the flag, the observer is disconnected and
      nothing is pending; without the flush the writes are unchanged. */
  lemma StopReleases(cfg: Config, host: RegexHost, s: TaskState, takeRecord: bool)
    ensures var r := StopState(cfg, host, s, takeRecord);
      && !r.connected && r.queue == [] && r.quitTimer == s.quitTimer
      && (!takeRecord ==> r.writes == s.writes && r.sed == s.sed)
  {
  }

  /** The quota quirk: once the walk's `k`-th rewrite has left the counter
      at 0, the flush in `stop()` rewrites every pending node that passes,
      without limit. */
  lemma WalkStopFlushIsUnlimited(cfg: Config, host: RegexHost, s: TaskState, nodes: seq<TextNode>, current: Option<nat>)
    requires s.sed.Count? && s.sed.n > 0
    requires SweepFrom(cfg, host, nodes, 0, current, Sweep(s.sed, s.writes, false)).stopped
    ensures var r := SweepFrom(cfg, host, nodes, 0, current, Sweep(s.sed, s.writes, false));
      !SweepRecords(cfg, host, s.queue, 0, 0, Sweep(r.sed, r.writes, false)).stopped
  {
    var r := SweepFrom(cfg, host, nodes, 0, current, Sweep(s.sed, s.writes, false));
    StoppedAtZero(cfg, host, nodes, 0, current, Sweep(s.sed, s.writes, false));
    MutationsSweepInOrder(cfg, host, s.queue, Sweep(r.sed, r.writes, false));
    NoQuotaNeverStops(cfg, host, Flatten(s.queue), 0, None, Sweep(r.sed, r.writes, false));
  }

  /** A loop that starts with a positive counter and stops has brought the
      counter to 0. */
  lemma {:induction false} StoppedAtZero(cfg: Config, host: RegexHost, nodes: seq<TextNode>, i: nat,
                                         skip: Option<nat>, acc: Sweep)
    requires i <= |nodes| && !acc.stopped && acc.sed.Count? && acc.sed.n > 0
    requires SweepFrom(cfg, host, nodes, i, skip, acc).stopped
    ensures SweepFrom(cfg, host, nodes, i, skip, acc).sed == Count(0)
    decreases |nodes| - i
  {
    var next := Visit(cfg, host, nodes[i], skip, acc);
    if !next.stopped {
      StoppedAtZero(cfg, host, nodes, i + 1, skip, next);
    }
  }

  // ---------------------------------------------------------------------
  // The task object

  /** The running `replaceNodeTextFn`: its state as fields. */
  class NodeTextTask {
    const cfg: Config
    const host: RegexHost
    var sedCount: Counter
    var writes: seq<(nat, string)>
    var connected: bool
    var queue: seq<seq<TextNode>>
    var quitTimer: bool

    function State(): TaskState
      reads this
    {
      TaskState(sedCount, writes, connected, queue, quitTimer)
    }

    /** A disconnected observer has no records. */
    predicate Valid()
      reads this
    {
      !connected ==> queue == []
    }

    /** The observer is created and connected before the walk. */
    constructor (cfg: Config, host: RegexHost)
      ensures this.cfg == cfg && this.host == host
      ensures State() == TaskState(cfg.sedCount, [], true, [], false) && Valid()
    {
      this.cfg := cfg;
      this.host := host;
      sedCount := cfg.sedCount;
      writes := [];
      connected := true;
      queue := [];
      quitTimer := false;
    }

    method HandleNode(node: TextNode) returns (keep: bool)
      modifies this`sedCount, this`writes
      ensures var st := HandleNodeStep(cfg, host, node.text, old(sedCount));
        && keep == st.keep && sedCount == st.sed
        && writes == old(writes) + (if st.after.Some? then [(node.id, st.after.value)] else [])
    {
      var before := node.text;
      if cfg.reIncludes.Some? {
        if !Test(host, cfg.reIncludes.value, before, true) { return true; }
      }
      if cfg.reExcludes.Some? {
        if Test(host, cfg.reExcludes.value, before, true) { return true; }
      }
      if !Test(host, cfg.rePattern, before, true) { return true; }
      var after := if cfg.pattern != "" then host.replace(cfg.rePattern, before, cfg.replacement) else cfg.replacement;
      writes := writes + [(node.id, after)];
      if sedCount == Count(0) || sedCount == NaN { return true; }
      sedCount := Count(sedCount.n - 1);
      keep := sedCount != Count(0);
    }

    /** `handleMutations(records)` */
    method HandleMutations(records: seq<seq<TextNode>>)
      requires Valid()
      modifies this
      ensures State() == MutationsState(cfg, host, old(State()), records)
      ensures Valid()
      decreases 1
    {
      ghost var start := Sweep(sedCount, writes, false);
      var r := 0;
      while r < |records|
        invariant 0 <= r <= |records|
        invariant connected == old(connected) && queue == old(queue) && quitTimer == old(quitTimer)
        invariant SweepRecords(cfg, host, records, 0, 0, start) ==
                  SweepRecords(cfg, host, records, r, 0, Sweep(sedCount, writes, false))
      {
        var j := 0;
        while j < |records[r]|
          invariant 0 <= j <= |records[r]|
          invariant connected == old(connected) && queue == old(queue) && quitTimer == old(quitTimer)
          invariant SweepRecords(cfg, host, records, 0, 0, start) ==
                    SweepRecords(cfg, host, records, r, j, Sweep(sedCount, writes, false))
        {
          var node := records[r][j];
          if Test(host, cfg.reNodeName, node.name, false) {
            var keep := HandleNode(node);
            if !keep {
              Stop(false);
              return;
            }
          }
          j := j + 1;
        }
        r := r + 1;
      }
    }

    /** `stop(takeRecord)` */
    method Stop(takeRecord: bool)
      requires Valid()
      modifies this
      ensures State() == StopState(cfg, host, old(State()), takeRecord)
      ensures Valid()
      decreases if takeRecord then 2 else 0
    {
      if takeRecord {
        var records := queue;
        queue := [];
        HandleMutations(records);
      }
      connected := false;
      queue := [];
    }

    /** The initial walk over the nodes already in the document, skipping
        the running script; `count` is the number of `nextNode()` calls. */
    method Walk(nodes: seq<TextNode>, current: Option<nat>) returns (count: nat)
      requires Valid()
      modifies this
      ensures State() == WalkState(cfg, host, old(State()), nodes, current)
      ensures Valid()
      ensures 1 <= count <= |nodes| + 1
      ensures !SweepFrom(cfg, host, nodes, 0, current, Sweep(old(sedCount), old(writes), false)).stopped ==>
                count == |nodes| + 1
    {
      ghost var start := Sweep(sedCount, writes, false);
      var i := 0;
      count := 0;
      while true
        invariant 0 <= i <= |nodes| && count == i
        invariant connected == old(connected) && queue == old(queue) && quitTimer == old(quitTimer)
        invariant SweepFrom(cfg, host, nodes, 0, current, start) ==
                  SweepFrom(cfg, host, nodes, i, current, Sweep(sedCount, writes, false))
        decreases |nodes| - i
      {
        count := count + 1;
        if i == |nodes| { break; }
        var node := nodes[i];
        i := i + 1;
        if !Test(host, cfg.reNodeName, node.name, false) { continue; }
        if current == Some(node.id) { continue; }
        var keep := HandleNode(node);
        if keep { continue; }
        Stop(true);
        return;
      }
    }

    /** A mutation adds `nodes` while the observer is connected. */
    method Added(nodes: seq<TextNode>)
      requires Valid()
      modifies this
      ensures State() == if old(connected) then old(State()).(queue := old(queue) + [nodes]) else old(State())
      ensures Valid()
    {
      if connected {
        queue := queue + [nodes];
      }
    }

    /** The observer's callback receives the pending records. */
    method Deliver()
      requires Valid()
      modifies this
      ensures State() == MutationsState(cfg, host, old(State()).(queue := []), old(queue))
      ensures Valid()
    {
      var records := queue;
      queue := [];
      HandleMutations(records);
    }

    /** The `runAt` callback at `interactive`. */
    method OnInteractive()
      requires Valid() && !cfg.stay
      modifies this
      ensures State() == InteractiveState(cfg, host, old(State()))
      ensures Valid()
    {
      if QuitOf(cfg).StopNow? {
        Stop(true);
      } else {
        quitTimer := true;
      }
    }

    /** The `quitAfter` timer fires. */
    method OnQuitTimer()
      requires Valid()
      modifies this
      ensures State() == if old(quitTimer) then StopState(cfg, host, old(State()).(quitTimer := false), true) else old(State())
      ensures Valid()
    {
      if quitTimer {
        quitTimer := false;
        Stop(true);
      }
    }
  }

  // ---------------------------------------------------------------------
  // runAt

  /** The ready-state level of one token; 0 for an unknown one. */
  function Level(token: string): int {
    if token == "loading" || token == "asap" then 1
    else if token == "interactive" || token == "end" || token == "2" then 2
    else if token == "complete" || token == "idle" || token == "3" then 3
    else 0
  }

  /** The level of the first known token. */
  function FirstLevel(tokens: seq<string>): (r: int)
    ensures 0 <= r <= 3
    decreases |tokens|
  {
    if tokens == [] then 0
    else if Level(tokens[0]) != 0 then Level(tokens[0])
    else FirstLevel(tokens[1..])
  }

  /** `intFromReadyState(state)`, for a state given as its list of tokens
      (a single value is a list of one). */
  method IntFromReadyState(tokens: seq<string>) returns (r: int)
    ensures r == FirstLevel(tokens)
  {
    for k := 0 to |tokens|
      invariant FirstLevel(tokens) == FirstLevel(tokens[k..])
    {
      assert tokens[k..][1..] == tokens[k + 1..];
      if Level(tokens[k]) == 0 { continue; }
      return Level(tokens[k]);
    }
    return 0;
  }

  /** The first known token decides; without one the level is 0. */
  lemma {:induction false} FirstLevelIsFirstKnown(tokens: seq<string>)
    ensures FirstLevel(tokens) == 0 <==> forall k :: 0 <= k < |tokens| ==> Level(tokens[k]) == 0
    ensures FirstLevel(tokens) != 0 ==>
              exists k :: 0 <= k < |tokens| && Level(tokens[k]) == FirstLevel(tokens)
                && forall j :: 0 <= j < k ==> Level(tokens[j]) == 0
    decreases |tokens|
  {
    if tokens != [] && Level(tokens[0]) == 0 {
      FirstLevelIsFirstKnown(tokens[1..]);
      assert forall k :: 1 <= k < |tokens| ==> tokens[k] == tokens[1..][k - 1];
      if FirstLevel(tokens) != 0 {
        var k :| 0 <= k < |tokens[1..]| && Level(tokens[1..][k]) == FirstLevel(tokens)
                 && forall j :: 0 <= j < k ==> Level(tokens[1..][j]) == 0;
        assert Level(tokens[k + 1]) == FirstLevel(tokens);
      }
    } else if tokens != [] {
      assert Level(tokens[0]) == FirstLevel(tokens);
    }
  }

  /** The names `runAt` knows, with `'1'` not among them. */
  lemma LevelNames()
    ensures Level("loading") == 1 && Level("asap") == 1
    ensures Level("interactive") == 2 && Level("end") == 2 && Level("2") == 2
    ensures Level("complete") == 3 && Level("idle") == 3 && Level("3") == 3
    ensures Level("1") == 0 && Level("") == 0
  {
  }

  /** `runAt(fn, when)`: `fn` runs at once when the document is already at
      the level of `when`, and otherwise on the first ready-state change
      that reaches it, after which the listener is removed. */
  class ReadyStateWait {
    const target: int
    var listening: bool
    var runs: nat

    predicate Valid()
      reads this
    {
      runs + (if listening then 1 else 0) == 1
    }

    constructor (when: seq<string>, state: seq<string>)
      ensures target == FirstLevel(when) && Valid()
      ensures runs == (if FirstLevel(state) >= target then 1 else 0)
    {
      var t := IntFromReadyState(when);
      var now := IntFromReadyState(state);
      target := t;
      listening := now < t;
      runs := if now >= t then 1 else 0;
    }

    /** A `readystatechange` event with the document now at `state`;
        `run` says whether `fn` runs now. */
    method OnStateChange(state: seq<string>) returns (run: bool)
      requires Valid()
      modifies this
      ensures Valid()
      ensures run == (old(listening) && FirstLevel(state) >= target)
      ensures listening == (old(listening) && !run) && runs == old(runs) + (if run then 1 else 0)
    {
      run := false;
      if !listening { return; }
      var level := IntFromReadyState(state);
      if level < target { return; }
      run := true;
      runs := runs + 1;
      listening := false;
    }
  }

  // ---------------------------------------------------------------------
  // The scriptlets

  /** `replaceNodeTextFn(...args)`: the configuration, the observer, the
      walk when the document has its root element, then the stop at
      `interactive` unless `stay` is set. */
  method ReplaceNodeTextFn(args: seq<string>, host: RegexHost, hasRoot: bool,
                           nodes: seq<TextNode>, current: Option<nat>, readyState: string)
    returns (r: Result<NodeTextTask>, wait: ReadyStateWait?)
    ensures r.Throws? <==> ConfigOf(args, host).Throws?
    ensures r.Ok? ==>
      var task := r.value;
      var cfg := ConfigOf(args, host).value;
      var s0 := TaskState(cfg.sedCount, [], true, [], false);
      var s1 := if hasRoot then WalkState(cfg, host, s0, nodes, current) else s0;
      && fresh(task) && task.Valid() && task.cfg == cfg
      && (cfg.stay <==> wait == null)
      && (wait != null ==> fresh(wait) && wait.Valid() && wait.target == 2)
      && task.State() ==
           if wait != null && wait.runs == 1 then InteractiveState(cfg, host, s1) else s1
    ensures r.Ok? && wait != null ==> wait.runs == (if FirstLevel([readyState]) >= 2 then 1 else 0)
    ensures r.Ok? ==>
      var cfg := ConfigOf(args, host).value;
      var s0 := TaskState(cfg.sedCount, [], true, [], false);
      var s1 := if hasRoot then WalkState(cfg, host, s0, nodes, current) else s0;
      r.value.State() ==
        if !cfg.stay && FirstLevel([readyState]) >= 2 then InteractiveState(cfg, host, s1) else s1
  {
    wait := null;
    var c := ConfigOf(args, host);
    if c.Throws? { return Throws(c.error), null; }
    var task := new NodeTextTask(c.value, host);
    if hasRoot {
      var count := task.Walk(nodes, current);
    }
    if c.value.stay { return Ok(task), null; }
    wait := new ReadyStateWait(["interactive"], [readyState]);
    if wait.runs == 1 {
      task.OnInteractive();
    }
    return Ok(task), wait;
  }

  /** `removeNodeText(nodeName, includes, ...extraArgs)` */
  method RemoveNodeText(nodeName: string, includes: string, extraArgs: seq<string>, host: RegexHost,
                        hasRoot: bool, nodes: seq<TextNode>, current: Option<nat>, readyState: string)
    returns (r: Result<NodeTextTask>, wait: ReadyStateWait?)
    ensures r.Throws? <==> ConfigOf(RemoveNodeTextArgs(nodeName, includes, extraArgs), host).Throws?
    ensures r.Ok? ==>
      var cfg := ConfigOf(RemoveNodeTextArgs(nodeName, includes, extraArgs), host).value;
      var s0 := TaskState(cfg.sedCount, [], true, [], false);
      var s1 := if hasRoot then WalkState(cfg, host, s0, nodes, current) else s0;
      && fresh(r.value) && r.value.Valid() && r.value.cfg == cfg
      && (cfg.stay <==> wait == null)
      && (wait != null ==> fresh(wait) && wait.Valid() && wait.target == 2
                           && wait.runs == (if FirstLevel([readyState]) >= 2 then 1 else 0))
      && r.value.State() ==
           if !cfg.stay && FirstLevel([readyState]) >= 2 then InteractiveState(cfg, host, s1) else s1
  {
    r, wait := ReplaceNodeTextFn(RemoveNodeTextArgs(nodeName, includes, extraArgs), host, hasRoot, nodes, current, readyState);
  }
}
