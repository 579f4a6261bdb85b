/** Hostname-to-rule resolution, shared word for word by every scriptlet
    bundle. A page's origin (and, for a framed page, its ancestors' origins)
    is reduced to hostnames; every domain suffix of a hostname, and every
    `label-range.*` entity of it when the bundle has entity rules, is looked
    up in the bundle's hostname map and exception map; the rule indices found
    accumulate into an include set and an exclude set; and the scriptlet runs
    once for each included index that is not excluded, a failure of one run
    not stopping the others. */
module Resolver {
  import opened Wrappers
  import opened JsString

  /** A value of a hostname or exception map: one rule index, or an array
      of them. */
  datatype Indices = Index(index: int) | IndexList(list: seq<int>)

  /** The static data of one bundle: the argument list of every rule, the
      two maps, and the two feature flags. */
  datatype Catalog = Catalog(
    argsList: seq<seq<string>>,
    hostnames: map<string, Indices>,
    exceptions: map<string, Indices>,
    hasEntities: bool,
    hasAncestors: bool)

  /** The indices stored under `key`: none for a missing key. */
  function Lookup(m: map<string, Indices>, key: string): set<int> {
    if key !in m then {}
    else match m[key]
      case Index(i) => {i}
      case IndexList(list) => set x | x in list
  }

  /** `collectArgIndices(hn, map, out)`: `out` gains exactly the indices
      stored under `hn`, so it only ever grows. */
  method CollectArgIndices(hn: string, m: map<string, Indices>, out: set<int>) returns (out': set<int>)
    ensures out' == out + Lookup(m, hn)
  {
    out' := out;
    if hn !in m {
      assert out + {} == out;
      return;
    }
    match m[hn]
    case IndexList(list) =>
      for k := 0 to |list|
        invariant forall x :: x in out' <==> x in out || x in list[..k]
      {
        assert list[..k + 1] == list[..k] + [list[k]];
        out' := out' + {list[k]};
      }
      assert list[..|list|] == list;
      assert Lookup(m, hn) == set x | x in list;
      assert forall x :: x in out' <==> x in out + Lookup(m, hn);
    case Index(i) =>
      assert Lookup(m, hn) == {i};
      out' := out' + {i};
  }

  // ---------------------------------------------------------------------
  // The keys looked up for one hostname

  /** The domain suffix from label `i` on, followed by the frame marker. */
  function SuffixKey(labels: seq<string>, i: nat, suffix: string): string
    requires i <= |labels|
  {
    Join(labels[i..], ".") + suffix
  }

  /** The entity key of labels `i` to `j - 1`: `labels[i..j].join('.')`,
      then `.*`, then the frame marker. */
  function EntityKey(labels: seq<string>, i: nat, j: nat, suffix: string): string
    requires i <= j <= |labels|
  {
    Join(labels[i..j], ".") + ".*" + suffix
  }

  /** The keys of the first loop, for `i` from 0 up. */
  function SuffixKeys(labels: seq<string>, suffix: string): seq<string> {
    seq(|labels|, i requires 0 <= i < |labels| => SuffixKey(labels, i, suffix))
  }

  /** The keys of one pass of the inner entity loop: `j` from the index of
      the last label down to `i + 1`. */
  function EntityRow(labels: seq<string>, i: nat, suffix: string): seq<string>
    requires i < |labels|
  {
    var n := |labels| - 1;
    seq(n - i, k requires 0 <= k < n - i => EntityKey(labels, i, n - k, suffix))
  }

  /** The keys of the first `m` passes of the outer entity loop. */
  function EntityRows(labels: seq<string>, m: nat, suffix: string): seq<string>
    requires m < |labels|
  {
    if m == 0 then [] else EntityRows(labels, m - 1, suffix) + EntityRow(labels, m - 1, suffix)
  }

  function EntityKeys(labels: seq<string>, suffix: string): seq<string> {
    if |labels| == 0 then [] else EntityRows(labels, |labels| - 1, suffix)
  }

  /** Every key `indicesFromHostname(hostname, suffix)` looks up, in order. */
  function LookupKeys(cat: Catalog, hostname: string, suffix: string): seq<string> {
    var labels := Split(hostname, '.');
    SuffixKeys(labels, suffix) + (if cat.hasEntities then EntityKeys(labels, suffix) else [])
  }

  /** `key` is one that resolution generates for `hostname`: a domain
      suffix with the marker, or, when the bundle has entities, an entity
      of a label range that stops before the last label. */
  predicate IsKeyOf(cat: Catalog, hostname: string, suffix: string, key: string) {
    var labels := Split(hostname, '.');
    || (exists i :: 0 <= i < |labels| && key == SuffixKey(labels, i, suffix))
    || (cat.hasEntities && exists i, j :: 0 <= i < j < |labels| && key == EntityKey(labels, i, j, suffix))
  }

  lemma {:induction false} EntityRowsMembers(labels: seq<string>, m: nat, suffix: string, key: string)
    requires m < |labels|
    ensures key in EntityRows(labels, m, suffix) <==>
            exists i, j :: 0 <= i < m && i < j < |labels| && key == EntityKey(labels, i, j, suffix)
  {
    if m > 0 {
      EntityRowsMembers(labels, m - 1, suffix, key);
      EntityRowMembers(labels, m - 1, suffix, key);
      var init := EntityRows(labels, m - 1, suffix);
      var row := EntityRow(labels, m - 1, suffix);
      assert key in init + row <==> key in init || key in row;
      if key in row {
        var j :| m - 1 < j < |labels| && key == EntityKey(labels, m - 1, j, suffix);
        assert 0 <= m - 1 < m && m - 1 < j < |labels| && key == EntityKey(labels, m - 1, j, suffix);
      }
      if exists i, j :: 0 <= i < m && i < j < |labels| && key == EntityKey(labels, i, j, suffix) {
        var i, j :| 0 <= i < m && i < j < |labels| && key == EntityKey(labels, i, j, suffix);
        if i < m - 1 {
          assert 0 <= i < m - 1 && i < j < |labels| && key == EntityKey(labels, i, j, suffix);
        } else {
          assert m - 1 < j < |labels| && key == EntityKey(labels, m - 1, j, suffix);
        }
      }
    }
  }

  /** One pass of the inner entity loop yields the entity keys starting at label `i`. */
  lemma EntityRowMembers(labels: seq<string>, i: nat, suffix: string, key: string)
    requires i < |labels|
    ensures key in EntityRow(labels, i, suffix) <==>
            exists j :: i < j < |labels| && key == EntityKey(labels, i, j, suffix)
  {
    var row := EntityRow(labels, i, suffix);
    var n := |labels| - 1;
    if key in row {
      var k :| 0 <= k < |row| && row[k] == key;
      assert key == EntityKey(labels, i, n - k, suffix);
    }
    if exists j :: i < j < |labels| && key == EntityKey(labels, i, j, suffix) {
      var j :| i < j < |labels| && key == EntityKey(labels, i, j, suffix);
      assert row[n - j] == key;
    }
  }

  /** The lookups use exactly the domain suffixes `labels[i..].join('.')` for
      every label `i` (the full hostname and the last label alone among
      them) and, with entities, exactly the `labels[i..j].join('.') + '.*'`
      keys for `0 <= i < j <= n - 1`. */
  lemma LookupKeysExactly(cat: Catalog, hostname: string, suffix: string, key: string)
    ensures key in LookupKeys(cat, hostname, suffix) <==> IsKeyOf(cat, hostname, suffix, key)
  {
    KeysOfLabels(cat, Split(hostname, '.'), suffix, key);
  }

  /** `LookupKeysExactly` for the labels of the hostname. */
  lemma KeysOfLabels(cat: Catalog, labels: seq<string>, suffix: string, key: string)
    requires |labels| >= 1
    ensures key in SuffixKeys(labels, suffix) + (if cat.hasEntities then EntityKeys(labels, suffix) else [])
            <==> || (exists i :: 0 <= i < |labels| && key == SuffixKey(labels, i, suffix))
                 || (cat.hasEntities && exists i, j :: 0 <= i < j < |labels| && key == EntityKey(labels, i, j, suffix))
  {
    SuffixKeysMembers(labels, suffix, key);
    if cat.hasEntities {
      EntityRowsMembers(labels, |labels| - 1, suffix, key);
    }
  }

  lemma SuffixKeysMembers(labels: seq<string>, suffix: string, key: string)
    ensures key in SuffixKeys(labels, suffix) <==> exists i :: 0 <= i < |labels| && key == SuffixKey(labels, i, suffix)
  {
    var sk := SuffixKeys(labels, suffix);
    if key in sk {
      var i :| 0 <= i < |sk| && sk[i] == key;
      assert key == SuffixKey(labels, i, suffix);
    }
    if exists i :: 0 <= i < |labels| && key == SuffixKey(labels, i, suffix) {
      var i :| 0 <= i < |labels| && key == SuffixKey(labels, i, suffix);
      assert sk[i] == key;
    }
  }

  /** The first suffix key is the whole hostname, the last one the last
      label; an empty hostname still gives one (empty) label. */
  lemma SuffixKeysEnds(hostname: string, suffix: string)
    ensures var labels := Split(hostname, '.');
            |labels| >= 1
            && SuffixKey(labels, 0, suffix) == hostname + suffix
            && SuffixKey(labels, |labels| - 1, suffix) == labels[|labels| - 1] + suffix
    ensures Split("", '.') == [""]
  {
    var labels := Split(hostname, '.');
    assert labels[0..] == labels;
    assert labels[|labels| - 1..] == [labels[|labels| - 1]];
  }

  // ---------------------------------------------------------------------
  // Accumulating the two sets

  /** The union of the indices stored under each of `keys`. */
  function HitsSeq(m: map<string, Indices>, keys: seq<string>): set<int> {
    if keys == [] then {} else HitsSeq(m, keys[..|keys| - 1]) + Lookup(m, keys[|keys| - 1])
  }

  lemma {:induction false} HitsSeqMembers(m: map<string, Indices>, keys: seq<string>, x: int)
    ensures x in HitsSeq(m, keys) <==> exists k :: 0 <= k < |keys| && x in Lookup(m, keys[k])
  {
    if keys != [] {
      var init := keys[..|keys| - 1];
      HitsSeqMembers(m, init, x);
      if exists k :: 0 <= k < |init| && x in Lookup(m, init[k]) {
        var k :| 0 <= k < |init| && x in Lookup(m, init[k]);
        assert keys[k] == init[k];
      }
      if exists k :: 0 <= k < |keys| && x in Lookup(m, keys[k]) {
        var k :| 0 <= k < |keys| && x in Lookup(m, keys[k]);
        if k < |init| { assert init[k] == keys[k]; }
      }
    }
  }

  lemma HitsSeqSnoc(m: map<string, Indices>, keys: seq<string>, key: string)
    ensures HitsSeq(m, keys + [key]) == HitsSeq(m, keys) + Lookup(m, key)
  {
    assert (keys + [key])[..|keys|] == keys;
  }

  lemma {:induction false} HitsSeqConcat(m: map<string, Indices>, a: seq<string>, b: seq<string>)
    ensures HitsSeq(m, a + b) == HitsSeq(m, a) + HitsSeq(m, b)
    decreases |b|
  {
    if b == [] {
      assert a + b == a;
    } else {
      var b' := b[..|b| - 1];
      HitsSeqConcat(m, a, b');
      assert (a + b)[..|a + b| - 1] == a + b';
    }
  }

  /** A set holding the hits of `keys[..i]`, extended by the hits of
      `keys[i]`, holds those of `keys[..i + 1]`. */
  lemma SnocStep(m: map<string, Indices>, keys: seq<string>, i: nat,
                 base: set<int>, before: set<int>, after: set<int>)
    requires i < |keys|
    requires before == base + HitsSeq(m, keys[..i])
    requires after == before + Lookup(m, keys[i])
    ensures after == base + HitsSeq(m, keys[..i + 1])
  {
    assert keys[..i + 1] == keys[..i] + [keys[i]];
    HitsSeqSnoc(m, keys[..i], keys[i]);
  }

  /** One lookup of the `i`-th key of `keys` into both sets. */
  method KeyLookup(cat: Catalog, key: string, ghost keys: seq<string>, ghost i: nat,
                   ghost todo: set<int>, ghost tonotdo: set<int>, t: set<int>, n: set<int>)
    returns (t': set<int>, n': set<int>)
    requires i < |keys| && keys[i] == key
    requires t == todo + HitsSeq(cat.hostnames, keys[..i])
    requires n == tonotdo + HitsSeq(cat.exceptions, keys[..i])
    ensures t' == todo + HitsSeq(cat.hostnames, keys[..i + 1])
    ensures n' == tonotdo + HitsSeq(cat.exceptions, keys[..i + 1])
  {
    t' := CollectArgIndices(key, cat.hostnames, t);
    n' := CollectArgIndices(key, cat.exceptions, n);
    SnocStep(cat.hostnames, keys, i, todo, t, t');
    SnocStep(cat.exceptions, keys, i, tonotdo, n, n');
  }

  /** The same for a batch of keys. */
  lemma ConcatStep(m: map<string, Indices>, a: seq<string>, b: seq<string>,
                   base: set<int>, before: set<int>, after: set<int>)
    requires before == base + HitsSeq(m, a)
    requires after == before + HitsSeq(m, b)
    ensures after == base + HitsSeq(m, a + b)
  {
    HitsSeqConcat(m, a, b);
  }

  /** `indicesFromHostname(hostname, suffix)`: the include set gains the
      hostname-map indices of every generated key and the exclude set the
      exception-map indices of the same keys. (The source's early return for
      zero labels cannot happen: splitting always yields a label.) */
  method IndicesFromHostname(cat: Catalog, hostname: string, suffix: string, todo: set<int>, tonotdo: set<int>)
    returns (todo': set<int>, tonotdo': set<int>)
    ensures todo' == todo + HitsSeq(cat.hostnames, LookupKeys(cat, hostname, suffix))
    ensures tonotdo' == tonotdo + HitsSeq(cat.exceptions, LookupKeys(cat, hostname, suffix))
  {
    var hnParts := Split(hostname, '.');
    var n := |hnParts|;
    ghost var sk := SuffixKeys(hnParts, suffix);
    todo', tonotdo' := SuffixLookups(cat, hnParts, suffix, todo, tonotdo);
    if cat.hasEntities {
      ghost var t0, n0 := todo', tonotdo';
      todo', tonotdo' := EntityLookups(cat, hnParts, suffix, todo', tonotdo');
      assert LookupKeys(cat, hostname, suffix) == sk + EntityKeys(hnParts, suffix);
      ConcatStep(cat.hostnames, sk, EntityKeys(hnParts, suffix), todo, t0, todo');
      ConcatStep(cat.exceptions, sk, EntityKeys(hnParts, suffix), tonotdo, n0, tonotdo');
    } else {
      assert LookupKeys(cat, hostname, suffix) == sk + [];
      assert sk + [] == sk;
    }
  }

  /** The nested entity loops of `indicesFromHostname`: `i` from 0 up to
      the last label's index, exclusive. */
  method EntityLookups(cat: Catalog, hnParts: seq<string>, suffix: string, todo: set<int>, tonotdo: set<int>)
    returns (todo': set<int>, tonotdo': set<int>)
    requires |hnParts| >= 1
    ensures todo' == todo + HitsSeq(cat.hostnames, EntityKeys(hnParts, suffix))
    ensures tonotdo' == tonotdo + HitsSeq(cat.exceptions, EntityKeys(hnParts, suffix))
  {
    var last := |hnParts| - 1;
    todo', tonotdo' := todo, tonotdo;
    for i := 0 to last
      invariant todo' == todo + HitsSeq(cat.hostnames, EntityRows(hnParts, i, suffix))
      invariant tonotdo' == tonotdo + HitsSeq(cat.exceptions, EntityRows(hnParts, i, suffix))
    {
      ghost var rows := EntityRows(hnParts, i, suffix);
      ghost var row := EntityRow(hnParts, i, suffix);
      ghost var t0, n0 := todo', tonotdo';
      todo', tonotdo' := EntityRowLookups(cat, hnParts, i, suffix, todo', tonotdo');
      assert EntityRows(hnParts, i + 1, suffix) == rows + row;
      ConcatStep(cat.hostnames, rows, row, todo, t0, todo');
      ConcatStep(cat.exceptions, rows, row, tonotdo, n0, tonotdo');
    }
  }

  /** The first loop of `indicesFromHostname`: the domain suffix from label
      `i` on, for `i` from 0 up. */
  method SuffixLookups(cat: Catalog, hnParts: seq<string>, suffix: string, todo: set<int>, tonotdo: set<int>)
    returns (todo': set<int>, tonotdo': set<int>)
    ensures todo' == todo + HitsSeq(cat.hostnames, SuffixKeys(hnParts, suffix))
    ensures tonotdo' == tonotdo + HitsSeq(cat.exceptions, SuffixKeys(hnParts, suffix))
  {
    ghost var sk := SuffixKeys(hnParts, suffix);
    var n := |hnParts|;
    todo', tonotdo' := todo, tonotdo;
    for i := 0 to n
      invariant todo' == todo + HitsSeq(cat.hostnames, sk[..i])
      invariant tonotdo' == tonotdo + HitsSeq(cat.exceptions, sk[..i])
    {
      var hn := SuffixKey(hnParts, i, suffix);
      todo', tonotdo' := KeyLookup(cat, hn, sk, i, todo, tonotdo, todo', tonotdo');
    }
    assert sk[..n] == sk;
  }

  /** One pass of the inner entity loop of `indicesFromHostname`: the keys
      of labels `i` to `j - 1` for `j` from the last label's index down to
      `i + 1`. */
  method EntityRowLookups(cat: Catalog, hnParts: seq<string>, i: nat, suffix: string, todo: set<int>, tonotdo: set<int>)
    returns (todo': set<int>, tonotdo': set<int>)
    requires i < |hnParts|
    ensures todo' == todo + HitsSeq(cat.hostnames, EntityRow(hnParts, i, suffix))
    ensures tonotdo' == tonotdo + HitsSeq(cat.exceptions, EntityRow(hnParts, i, suffix))
  {
    ghost var row := EntityRow(hnParts, i, suffix);
    var last := |hnParts| - 1;
    todo', tonotdo' := todo, tonotdo;
    var j := last;
    while j > i
      invariant i <= j <= last
      invariant todo' == todo + HitsSeq(cat.hostnames, row[..last - j])
      invariant tonotdo' == tonotdo + HitsSeq(cat.exceptions, row[..last - j])
    {
      var en := EntityKey(hnParts, i, j, suffix);
      assert row[last - j] == en;
      todo', tonotdo' := KeyLookup(cat, en, row, last - j, todo, tonotdo, todo', tonotdo');
      j := j - 1;
    }
    assert row[..last - i] == row;
  }

  // ---------------------------------------------------------------------
  // Origins and frames

  /** The hostname of an origin: the text after the last `://`, up to the
      first `:` after it; `None` for an origin without `://`. */
  function OriginHostname(origin: string): Option<string> {
    var beg := LastIndexOf(origin, "://");
    if beg == -1 then None
    else
      var hn := origin[beg + 3..];
      var end := IndexOfChar(hn, ':');
      Some(if end == -1 then hn else hn[..end])
  }

  /** An origin has a hostname exactly when it contains `://`; the hostname
      is a prefix of what follows the last `://`, ending there or at a `:`,
      and holds no `:` itself. */
  lemma OriginHostnameSpec(origin: string)
    ensures OriginHostname(origin).None? <==> !Includes(origin, "://")
    ensures OriginHostname(origin).Some? ==>
      var r := OriginHostname(origin).value;
      var rest := origin[LastIndexOf(origin, "://") + 3..];
      && ':' !in r
      && StartsWith(rest, r) && (r == rest || rest[|r|] == ':')
  {
  }

  predicate HasHostname(origin: string) {
    OriginHostname(origin).Some?
  }

  /** An origin that survives parsing, with its position in the list (0 is
      the page's own origin, the others its ancestors'). */
  datatype Entry = Entry(hn: string, i: nat)

  /** The hostname of each origin, position by position. */
  function Hostnames(origins: seq<string>): (r: seq<Option<string>>)
    ensures |r| == |origins|
    ensures forall k :: 0 <= k < |r| ==> r[k] == OriginHostname(origins[k])
  {
    seq(|origins|, k requires 0 <= k < |origins| => OriginHostname(origins[k]))
  }

  /** The entries of the first `n` parsed origins, in order. */
  function EntriesUpTo(hosts: seq<Option<string>>, n: nat): (r: seq<Entry>)
    requires n <= |hosts|
    ensures forall k :: 0 <= k < |r| ==> r[k].i < n && hosts[r[k].i] == Some(r[k].hn)
    ensures forall k, l :: 0 <= k < l < |r| ==> r[k].i < r[l].i
  {
    if n == 0 then []
    else
      var init := EntriesUpTo(hosts, n - 1);
      match hosts[n - 1]
      case None => init
      case Some(hn) =>
        var r := init + [Entry(hn, n - 1)];
        assert forall k :: 0 <= k < |init| ==> r[k] == init[k];
        r
  }

  /** No origin with a hostname is dropped. */
  lemma {:induction false} EntriesUpToComplete(hosts: seq<Option<string>>, n: nat, i: nat)
    requires i < n <= |hosts| && hosts[i].Some?
    ensures exists k :: 0 <= k < |EntriesUpTo(hosts, n)| && EntriesUpTo(hosts, n)[k].i == i
  {
    var init := EntriesUpTo(hosts, n - 1);
    if i < n - 1 {
      EntriesUpToComplete(hosts, n - 1, i);
      var k :| 0 <= k < |init| && init[k].i == i;
      if hosts[n - 1].Some? {
        assert EntriesUpTo(hosts, n) == init + [Entry(hosts[n - 1].value, n - 1)];
        assert EntriesUpTo(hosts, n)[k] == init[k];
      } else {
        assert EntriesUpTo(hosts, n) == init;
      }
    } else {
      assert EntriesUpTo(hosts, n)[|init|].i == i;
    }
  }

  /** `entries`: every origin that has a hostname, with its index, in the
      order of the origins; the others are dropped. */
  function Entries(origins: seq<string>): (r: seq<Entry>)
    ensures forall k :: 0 <= k < |r| ==> r[k].i < |origins| && OriginHostname(origins[r[k].i]) == Some(r[k].hn)
    ensures forall k, l :: 0 <= k < l < |r| ==> r[k].i < r[l].i
    ensures forall i :: 0 <= i < |origins| && HasHostname(origins[i]) ==>
              exists k :: 0 <= k < |r| && r[k].i == i
  {
    var hosts := Hostnames(origins);
    var r := EntriesUpTo(hosts, |origins|);
    assert forall i :: 0 <= i < |origins| && HasHostname(origins[i]) ==>
             exists k :: 0 <= k < |r| && r[k].i == i by {
      forall i | 0 <= i < |origins| && HasHostname(origins[i])
        ensures exists k :: 0 <= k < |r| && r[k].i == i
      {
        EntriesUpToComplete(hosts, |origins|, i);
      }
    }
    r
  }

  /** The ancestor keys: those of every entry but the page's own origin,
      with the marker `>>`. */
  function AncestorKeys(cat: Catalog, es: seq<Entry>): seq<string> {
    if es == [] then []
    else AncestorKeys(cat, es[..|es| - 1])
         + (var e := es[|es| - 1]; if e.i == 0 then [] else LookupKeys(cat, e.hn, ">>"))
  }

  /** Every key looked up for a page: the first entry's without a marker,
      then, when the bundle matches ancestors, the ancestor keys. */
  function PageKeys(cat: Catalog, es: seq<Entry>): seq<string>
    requires es != []
  {
    LookupKeys(cat, es[0].hn, "") + (if cat.hasAncestors then AncestorKeys(cat, es) else [])
  }

  /** The include set (`todoIndices`) and the exclude set (`tonotdoIndices`). */
  datatype Scope = Scope(todo: set<int>, tonotdo: set<int>)

  function ScopeOf(cat: Catalog, es: seq<Entry>): Scope
    requires es != []
  {
    Scope(HitsSeq(cat.hostnames, PageKeys(cat, es)), HitsSeq(cat.exceptions, PageKeys(cat, es)))
  }

  /** The rules that run: those included and not excepted. */
  function Applicable(scope: Scope): set<int> {
    scope.todo - scope.tonotdo
  }

  /** Parsing the origins and filling the two sets. Without any usable
      origin nothing is resolved and nothing runs. */
  method ResolveScope(cat: Catalog, origins: seq<string>) returns (scope: Option<Scope>)
    ensures Entries(origins) == [] <==> scope.None?
    ensures scope.Some? ==> scope.value == ScopeOf(cat, Entries(origins))
  {
    var entries := Entries(origins);
    if |entries| == 0 { return None; }
    var s := ResolveEntries(cat, entries);
    return Some(s);
  }

  /** The two sets of a non-empty list of entries: the page's own hostname
      first, then each ancestor's with the marker `>>`. */
  method ResolveEntries(cat: Catalog, entries: seq<Entry>) returns (scope: Scope)
    requires entries != []
    ensures scope == ScopeOf(cat, entries)
  {
    ghost var top := LookupKeys(cat, entries[0].hn, "");
    var todo, tonotdo := IndicesFromHostname(cat, entries[0].hn, "", {}, {});
    ghost var h, e := HitsSeq(cat.hostnames, top), HitsSeq(cat.exceptions, top);
    assert todo == h by { assert todo == {} + h && {} + h == h; }
    assert tonotdo == e by { assert tonotdo == {} + e && {} + e == e; }
    if cat.hasAncestors {
      ghost var up := AncestorKeys(cat, entries);
      assert PageKeys(cat, entries) == top + up;
      todo, tonotdo := AncestorLookups(cat, entries, todo, tonotdo);
      HitsSeqConcat(cat.hostnames, top, up);
      HitsSeqConcat(cat.exceptions, top, up);
    } else {
      ghost var keys := PageKeys(cat, entries);
      NoAncestorsNoMarker(cat, entries);
      assert keys == top;
      assert todo == HitsSeq(cat.hostnames, keys);
      assert tonotdo == HitsSeq(cat.exceptions, keys);
    }
    return Scope(todo, tonotdo);
  }

  /** The ancestor loop: every entry but the page's own origin is looked up
      with the marker `>>`. */
  method AncestorLookups(cat: Catalog, entries: seq<Entry>, todo: set<int>, tonotdo: set<int>)
    returns (todo': set<int>, tonotdo': set<int>)
    ensures todo' == todo + HitsSeq(cat.hostnames, AncestorKeys(cat, entries))
    ensures tonotdo' == tonotdo + HitsSeq(cat.exceptions, AncestorKeys(cat, entries))
  {
    todo', tonotdo' := todo, tonotdo;
    for k := 0 to |entries|
      invariant todo' == todo + HitsSeq(cat.hostnames, AncestorKeys(cat, entries[..k]))
      invariant tonotdo' == tonotdo + HitsSeq(cat.exceptions, AncestorKeys(cat, entries[..k]))
    {
      ghost var t0, n0 := todo', tonotdo';
      todo', tonotdo' := AncestorLookup(cat, entries[k], todo', tonotdo');
      AncestorHits(cat, cat.hostnames, entries, k, todo, t0, todo');
      AncestorHits(cat, cat.exceptions, entries, k, tonotdo, n0, tonotdo');
    }
    assert entries[..|entries|] == entries;
  }

  /** One iteration: an ancestor entry is looked up with `>>`, the page's
      own origin is skipped. */
  method AncestorLookup(cat: Catalog, entry: Entry, todo: set<int>, tonotdo: set<int>)
    returns (todo': set<int>, tonotdo': set<int>)
    ensures todo' == todo + (if entry.i == 0 then {} else HitsSeq(cat.hostnames, LookupKeys(cat, entry.hn, ">>")))
    ensures tonotdo' == tonotdo + (if entry.i == 0 then {} else HitsSeq(cat.exceptions, LookupKeys(cat, entry.hn, ">>")))
  {
    if entry.i == 0 {
      return todo, tonotdo;
    }
    todo', tonotdo' := IndicesFromHostname(cat, entry.hn, ">>", todo, tonotdo);
  }

  /** One step of the ancestor loop, in terms of the indices it collects:
      a set holding the hits of the first k entries, extended by the hits of
      entry k, holds those of the first k + 1. */
  lemma AncestorHits(cat: Catalog, m: map<string, Indices>, es: seq<Entry>, k: nat,
                     base: set<int>, before: set<int>, after: set<int>)
    requires k < |es|
    requires before == base + HitsSeq(m, AncestorKeys(cat, es[..k]))
    requires after == before + (if es[k].i == 0 then {} else HitsSeq(m, LookupKeys(cat, es[k].hn, ">>")))
    ensures after == base + HitsSeq(m, AncestorKeys(cat, es[..k + 1]))
  {
    AncestorKeysStep(cat, es, k);
    var step := if es[k].i == 0 then [] else LookupKeys(cat, es[k].hn, ">>");
    HitsSeqConcat(m, AncestorKeys(cat, es[..k]), step);
  }

  lemma AncestorKeysStep(cat: Catalog, es: seq<Entry>, k: nat)
    requires k < |es|
    ensures AncestorKeys(cat, es[..k + 1])
            == AncestorKeys(cat, es[..k]) + (if es[k].i == 0 then [] else LookupKeys(cat, es[k].hn, ">>"))
  {
    assert es[..k + 1][..k] == es[..k];
  }

  // ---------------------------------------------------------------------
  // What resolution decides

  /** A rule runs exactly when some looked-up key maps to it in the hostname
      map and no looked-up key maps to it in the exception map: exceptions
      win over every kind of inclusion. */
  lemma ApplicableExactly(cat: Catalog, es: seq<Entry>, x: int)
    requires es != []
    ensures var keys := PageKeys(cat, es);
            x in Applicable(ScopeOf(cat, es)) <==>
              (exists k :: 0 <= k < |keys| && x in Lookup(cat.hostnames, keys[k]))
              && !(exists k :: 0 <= k < |keys| && x in Lookup(cat.exceptions, keys[k]))
  {
    HitsSeqMembers(cat.hostnames, PageKeys(cat, es), x);
    HitsSeqMembers(cat.exceptions, PageKeys(cat, es), x);
  }

  /** For a page without ancestor matching, rule `x` runs exactly when the
      hostname map has `x` under some suffix or entity key of the page's
      hostname and the exception map has it under none. */
  lemma TopFrameApplicable(cat: Catalog, es: seq<Entry>, x: int)
    requires es != [] && !cat.hasAncestors
    ensures x in Applicable(ScopeOf(cat, es)) <==>
              (exists key :: IsKeyOf(cat, es[0].hn, "", key) && x in Lookup(cat.hostnames, key))
              && !(exists key :: IsKeyOf(cat, es[0].hn, "", key) && x in Lookup(cat.exceptions, key))
  {
    NoAncestorsNoMarker(cat, es);
    ApplicableExactly(cat, es, x);
    KeysHit(cat, cat.hostnames, es[0].hn, "", x);
    KeysHit(cat, cat.exceptions, es[0].hn, "", x);
  }

  /** Some looked-up key maps to `x` exactly when some key of the hostname
      does. */
  lemma KeysHit(cat: Catalog, m: map<string, Indices>, hostname: string, suffix: string, x: int)
    ensures var keys := LookupKeys(cat, hostname, suffix);
            (exists k :: 0 <= k < |keys| && x in Lookup(m, keys[k])) <==>
            (exists key :: IsKeyOf(cat, hostname, suffix, key) && x in Lookup(m, key))
  {
    var keys := LookupKeys(cat, hostname, suffix);
    if exists k :: 0 <= k < |keys| && x in Lookup(m, keys[k]) {
      var k :| 0 <= k < |keys| && x in Lookup(m, keys[k]);
      LookupKeysExactly(cat, hostname, suffix, keys[k]);
    }
    if exists key :: IsKeyOf(cat, hostname, suffix, key) && x in Lookup(m, key) {
      var key :| IsKeyOf(cat, hostname, suffix, key) && x in Lookup(m, key);
      LookupKeysExactly(cat, hostname, suffix, key);
      var k :| 0 <= k < |keys| && keys[k] == key;
    }
  }

  /** A page in one frame: its own keys, then its parent's with `>>`. */
  lemma FramedPageKeys(cat: Catalog, es: seq<Entry>)
    requires |es| == 2 && es[0].i == 0 && es[1].i != 0 && cat.hasAncestors
    ensures PageKeys(cat, es) == LookupKeys(cat, es[0].hn, "") + LookupKeys(cat, es[1].hn, ">>")
  {
    assert es[..0] == [];
    AncestorKeysStep(cat, es, 0);
    assert AncestorKeys(cat, es[..1]) == [];
    AncestorKeysStep(cat, es, 1);
    assert es[..2] == es;
    assert AncestorKeys(cat, es) == LookupKeys(cat, es[1].hn, ">>");
  }

  /** The two sets of a page in one frame: what its own keys and its
      parent's `>>` keys find. */
  lemma FramedScope(cat: Catalog, es: seq<Entry>)
    requires |es| == 2 && es[0].i == 0 && es[1].i != 0 && cat.hasAncestors
    ensures var own, up := LookupKeys(cat, es[0].hn, ""), LookupKeys(cat, es[1].hn, ">>");
            ScopeOf(cat, es) == Scope(HitsSeq(cat.hostnames, own) + HitsSeq(cat.hostnames, up),
                                      HitsSeq(cat.exceptions, own) + HitsSeq(cat.exceptions, up))
  {
    FramedPageKeys(cat, es);
    HitsSeqConcat(cat.hostnames, LookupKeys(cat, es[0].hn, ""), LookupKeys(cat, es[1].hn, ">>"));
    HitsSeqConcat(cat.exceptions, LookupKeys(cat, es[0].hn, ""), LookupKeys(cat, es[1].hn, ">>"));
  }

  /** `FramedScope` with the four partial results named. */
  lemma FramedScopeOf(cat: Catalog, es: seq<Entry>, ownIn: set<int>, upIn: set<int>, ownOut: set<int>, upOut: set<int>)
    requires |es| == 2 && es[0].i == 0 && es[1].i != 0 && cat.hasAncestors
    requires HitsSeq(cat.hostnames, LookupKeys(cat, es[0].hn, "")) == ownIn
    requires HitsSeq(cat.hostnames, LookupKeys(cat, es[1].hn, ">>")) == upIn
    requires HitsSeq(cat.exceptions, LookupKeys(cat, es[0].hn, "")) == ownOut
    requires HitsSeq(cat.exceptions, LookupKeys(cat, es[1].hn, ">>")) == upOut
    ensures ScopeOf(cat, es) == Scope(ownIn + upIn, ownOut + upOut)
  {
    FramedScope(cat, es);
  }

  /** The labels from `i` on, joined, end the joined hostname. */
  lemma {:induction false} JoinTail(labels: seq<string>, i: nat)
    requires i < |labels|
    ensures var t, h := Join(labels[i..], "."), Join(labels, ".");
            |t| <= |h| && h[|h| - |t|..] == t
    decreases i
  {
    if i == 0 {
      assert labels[0..] == labels;
    } else {
      JoinTail(labels[1..], i - 1);
      assert labels[1..][i - 1..] == labels[i..];
      JoinCons(labels[0], labels[1..], ".");
      assert labels == [labels[0]] + labels[1..];
    }
  }

  /** A key looked up without a marker ends as the hostname does, or with
      `*`; so for a hostname that does not end with `>` no such key ends
      with `>`, and a key with the `>>` marker is reached only from an
      ancestor frame. */
  lemma OwnKeysNoMarker(cat: Catalog, hostname: string, key: string)
    requires hostname == [] || hostname[|hostname| - 1] != '>'
    requires key in LookupKeys(cat, hostname, "")
    ensures key == [] || key[|key| - 1] != '>'
  {
    LookupKeysExactly(cat, hostname, "", key);
    var labels := Split(hostname, '.');
    if exists i :: 0 <= i < |labels| && key == SuffixKey(labels, i, "") {
      SuffixKeyNoMarker(labels, hostname, key);
    } else {
      EntityKeyNoMarker(labels, key);
    }
  }

  lemma SuffixKeyNoMarker(labels: seq<string>, hostname: string, key: string)
    requires Join(labels, ".") == hostname
    requires hostname == [] || hostname[|hostname| - 1] != '>'
    requires exists i :: 0 <= i < |labels| && key == SuffixKey(labels, i, "")
    ensures key == [] || key[|key| - 1] != '>'
  {
    var i :| 0 <= i < |labels| && key == SuffixKey(labels, i, "");
    SuffixKeyIsTail(labels, i);
    if key != [] {
      SuffixLast(hostname, key);
    }
  }

  lemma SuffixLast(h: string, t: string)
    requires 0 < |t| <= |h| && h[|h| - |t|..] == t
    ensures t[|t| - 1] == h[|h| - 1]
  {
    assert h[|h| - |t|..][|t| - 1] == h[|h| - 1];
  }

  lemma EntityKeyNoMarker(labels: seq<string>, key: string)
    requires exists i, j :: 0 <= i < j < |labels| && key == EntityKey(labels, i, j, "")
    ensures key == [] || key[|key| - 1] != '>'
  {
    var i, j :| 0 <= i < j < |labels| && key == EntityKey(labels, i, j, "");
    EntityKeyStar(labels, i, j);
  }

  /** An unmarked domain-suffix key is a suffix of the joined labels. */
  lemma SuffixKeyIsTail(labels: seq<string>, i: nat)
    requires i < |labels|
    ensures var t, h := SuffixKey(labels, i, ""), Join(labels, ".");
      |t| <= |h| && h[|h| - |t|..] == t
  {
    JoinTail(labels, i);
    assert SuffixKey(labels, i, "") == Join(labels[i..], ".") + "";
    assert Join(labels[i..], ".") + "" == Join(labels[i..], ".");
  }

  /** An unmarked entity key ends with `*`. */
  lemma EntityKeyStar(labels: seq<string>, i: nat, j: nat)
    requires i <= j <= |labels|
    ensures var k := EntityKey(labels, i, j, "");
      |k| > 0 && k[|k| - 1] == '*'
  {
    var k := Join(labels[i..j], ".") + ".*";
    assert EntityKey(labels, i, j, "") == k + "";
    assert k + "" == k;
  }

  /** `FramedScopeOf` for a page `own` framed by `up`. */
  lemma FramedPair(cat: Catalog, own: string, up: string, ownIn: set<int>, upIn: set<int>, ownOut: set<int>, upOut: set<int>)
    requires cat.hasAncestors
    requires HitsSeq(cat.hostnames, LookupKeys(cat, own, "")) == ownIn
    requires HitsSeq(cat.hostnames, LookupKeys(cat, up, ">>")) == upIn
    requires HitsSeq(cat.exceptions, LookupKeys(cat, own, "")) == ownOut
    requires HitsSeq(cat.exceptions, LookupKeys(cat, up, ">>")) == upOut
    ensures ScopeOf(cat, [Entry(own, 0), Entry(up, 1)]) == Scope(ownIn + upIn, ownOut + upOut)
  {
    FramedScopeOf(cat, [Entry(own, 0), Entry(up, 1)], ownIn, upIn, ownOut, upOut);
  }

  /** Ancestor keys are looked up only when the bundle matches ancestors. */
  lemma NoAncestorsNoMarker(cat: Catalog, es: seq<Entry>)
    requires es != [] && !cat.hasAncestors
    ensures PageKeys(cat, es) == LookupKeys(cat, es[0].hn, "")
  {
    assert LookupKeys(cat, es[0].hn, "") + [] == LookupKeys(cat, es[0].hn, "");
  }

  // ---------------------------------------------------------------------
  // Dispatch

  /** One invocation of the bundle's scriptlet: it returned, or it threw and
      the exception was swallowed. */
  datatype Run = Ran(index: int) | Threw(index: int)

  /** The dispatch loop: the scriptlet is invoked once for every included
      index that is not excluded and for no other, in the set's order (any
      order here); an index without an argument list throws when its
      arguments are spread, and whether the scriptlet itself throws on its
      arguments is `throws`. A throwing invocation does not stop the loop. */
  method Dispatch(cat: Catalog, scope: Scope, throws: seq<string> -> bool) returns (runs: seq<Run>)
    ensures forall k, l :: 0 <= k < l < |runs| ==> runs[k].index != runs[l].index
    ensures forall x :: x in Applicable(scope) <==> exists k :: 0 <= k < |runs| && runs[k].index == x
    ensures forall k :: 0 <= k < |runs| ==>
              (runs[k].Threw? <==> !(0 <= runs[k].index < |cat.argsList|) || throws(cat.argsList[runs[k].index]))
  {
    var remaining := scope.todo;
    runs := [];
    while remaining != {}
      invariant remaining <= scope.todo
      invariant forall k :: 0 <= k < |runs| ==> runs[k].index in Applicable(scope) && runs[k].index !in remaining
      invariant forall x :: x in Applicable(scope) - remaining ==> exists k :: 0 <= k < |runs| && runs[k].index == x
      invariant forall k, l :: 0 <= k < l < |runs| ==> runs[k].index != runs[l].index
      invariant forall k :: 0 <= k < |runs| ==>
                  (runs[k].Threw? <==> !(0 <= runs[k].index < |cat.argsList|) || throws(cat.argsList[runs[k].index]))
      decreases |remaining|
    {
      assert !(forall y :: y !in remaining) by {
        if forall y :: y !in remaining { assert false; }
      }
      var i :| i in remaining;
      ghost var remaining0, runs0 := remaining, runs;
      remaining := remaining - {i};
      if i !in scope.tonotdo {
        var run := if 0 <= i < |cat.argsList| && !throws(cat.argsList[i]) then Ran(i) else Threw(i);
        runs := runs + [run];
      }
      CoveredStep(Applicable(scope), remaining0, runs0, i, runs);
    }
    assert Applicable(scope) - remaining == Applicable(scope);
  }

  /** Taking `i` out of the remaining set keeps every applicable index
      outside it covered by a run, once `i` has its run when it applies. */
  lemma CoveredStep(app: set<int>, rem0: set<int>, runs0: seq<Run>, i: int, runs: seq<Run>)
    requires forall x :: x in app - rem0 ==> exists k :: 0 <= k < |runs0| && runs0[k].index == x
    requires |runs0| <= |runs| && forall k :: 0 <= k < |runs0| ==> runs[k] == runs0[k]
    requires i in app ==> |runs| > 0 && runs[|runs| - 1].index == i
    ensures forall x :: x in app - (rem0 - {i}) ==> exists k :: 0 <= k < |runs| && runs[k].index == x
  {
    forall x | x in app - (rem0 - {i})
      ensures exists k :: 0 <= k < |runs| && runs[k].index == x
    {
      if x == i {
        assert runs[|runs| - 1].index == i;
      } else {
        assert x in app - rem0;
        var k :| 0 <= k < |runs0| && runs0[k].index == x;
        assert runs[k] == runs0[k];
      }
    }
  }
}

/** Worked resolutions over excerpts of the two bundles' catalogues. */
module ResolverExamples {
  import opened Wrappers
  import opened JsString
  import opened Resolver

  /** An abbreviated excerpt of the cookie-banner bundle: its first three
      rules, the third cut down to one attribute selector, and their
      hostnames. */
  const CookieCatalog := Catalog(
    [["button#W0wltc", "", "500"], ["form[action] button[jsname=\"tWT92d\"]"], ["[name=\"set_eom\"]"]],
    map["www.google.*" := Index(0), "consent.google.*" := Index(1), "consent.youtube.com" := IndexList([1, 2])],
    map[], true, false)

  lemma GoogleLabels()
    ensures Split("www.google.com", '.') == ["www", "google", "com"]
  {
    var parts := ["www", "google", "com"];
    assert parts[1..] == ["google", "com"];
    assert parts[1..][1..] == ["com"];
    assert Join(["com"], ".") == "com";
    assert Join(["google", "com"], ".") == "google.com";
    assert Join(parts, ".") == "www.google.com";
    SplitJoin(parts, '.');
  }

  /** The keys of a three-label hostname `a.b.c`: its three domain
      suffixes, then the entities `a.b.*`, `a.*` and `b.*`. */
  lemma ThreeLabelKeys(a: string, b: string, c: string, suffix: string)
    ensures SuffixKeys([a, b, c], suffix) == [a + "." + b + "." + c + suffix, b + "." + c + suffix, c + suffix]
    ensures EntityKeys([a, b, c], suffix) == [a + "." + b + ".*" + suffix, a + ".*" + suffix, b + ".*" + suffix]
  {
    var labels := [a, b, c];
    assert labels[0..] == labels && labels[1..] == [b, c] && labels[2..] == [c];
    assert labels[1..][1..] == [c] && [b, c][1..] == [c];
    assert Join([b, c], ".") == b + "." + c;
    assert Join(labels, ".") == a + "." + (b + "." + c);
    assert SuffixKey(labels, 0, suffix) == a + "." + b + "." + c + suffix;
    assert SuffixKey(labels, 1, suffix) == b + "." + c + suffix;
    assert SuffixKey(labels, 2, suffix) == c + suffix;
    assert labels[0..2] == [a, b] && labels[0..1] == [a] && labels[1..2] == [b];
    assert [a, b][1..] == [b];
    assert Join([a, b], ".") == a + "." + b;
    assert EntityKey(labels, 0, 2, suffix) == a + "." + b + ".*" + suffix;
    assert EntityKey(labels, 0, 1, suffix) == a + ".*" + suffix;
    assert EntityKey(labels, 1, 2, suffix) == b + ".*" + suffix;
    assert EntityRow(labels, 0, suffix) == [a + "." + b + ".*" + suffix, a + ".*" + suffix];
    assert EntityRow(labels, 1, suffix) == [b + ".*" + suffix];
    assert EntityRows(labels, 1, suffix) == [] + EntityRow(labels, 0, suffix);
    assert EntityRows(labels, 2, suffix) == EntityRows(labels, 1, suffix) + EntityRow(labels, 1, suffix);
  }

  /** On `www.google.com` only rule 0 of the excerpt applies. */
  lemma GoogleResolves()
    ensures Applicable(ScopeOf(CookieCatalog, [Entry("www.google.com", 0)])) == {0}
  {
    GoogleLabels();
    WwwGoogleResolves("www.google.com");
  }

  lemma WwwGoogleResolves(hostname: string)
    requires Split(hostname, '.') == ["www", "google", "com"]
    ensures Applicable(ScopeOf(CookieCatalog, [Entry(hostname, 0)])) == {0}
  {
    var es := [Entry(hostname, 0)];
    NoAncestorsNoMarker(CookieCatalog, es);
    GoogleKeys(hostname);
    GoogleHits(LookupKeys(CookieCatalog, hostname, ""));
  }

  /** The six keys of a `www.google.com` page: three suffixes, an entity
      key `www.google.*`, and two shorter ones. */
  lemma GoogleKeys(hostname: string)
    requires Split(hostname, '.') == ["www", "google", "com"]
    ensures var keys := LookupKeys(CookieCatalog, hostname, "");
            |keys| == 6 && keys[3] == "www.google.*"
            && |keys[0]| == 14 && |keys[1]| == 10 && |keys[2]| == 3 && |keys[4]| == 5 && |keys[5]| == 8
  {
    ThreeLabelKeys("www", "google", "com", "");
    GoogleEntityString();
  }

  lemma GoogleEntityString()
    ensures "www" + "." + "google" + ".*" + "" == "www.google.*"
  {
    assert "www" + "." == "www.";
    assert "www." + "google" == "www.google";
    assert "www.google" + ".*" == "www.google.*";
    assert "www.google.*" + "" == "www.google.*";
  }

  lemma GoogleHits(keys: seq<string>)
    requires |keys| == 6 && keys[3] == "www.google.*"
    requires |keys[0]| == 14 && |keys[1]| == 10 && |keys[2]| == 3 && |keys[4]| == 5 && |keys[5]| == 8
    ensures HitsSeq(CookieCatalog.hostnames, keys) == {0}
    ensures HitsSeq(CookieCatalog.exceptions, keys) == {}
  {
    var h := CookieCatalog.hostnames;
    assert keys[0] !in h && keys[1] !in h && keys[2] !in h && keys[4] !in h && keys[5] !in h;
    assert Lookup(h, keys[3]) == {0};
    forall x ensures x in HitsSeq(h, keys) <==> x == 0 {
      HitsSeqMembers(h, keys, x);
    }
    forall x ensures x !in HitsSeq(CookieCatalog.exceptions, keys) {
      HitsSeqMembers(CookieCatalog.exceptions, keys, x);
    }
  }

  /** An excerpt of the node-text bundle's catalogue: its first rule, rule 6
      under just one of its keys, the ancestor key `freestreams-live.*>>`
      (the bundle stores it under many plain keys as well), and the
      exception map, which excepts rule 6 on three sites. */
  const NodeTextCatalog := Catalog(
    [["script", "window,\"fetch\""]],
    map["www.youtube.com" := Index(0), "freestreams-live.*>>" := Index(6)],
    map["chatango.com" := IndexList([6]), "twitter.com" := IndexList([6]), "youtube.com" := IndexList([6])],
    true, true)

  /** The keys of a two-label hostname `a.b`: `a.b`, `b` and the entity
      `a.*`. */
  lemma TwoLabelKeys(a: string, b: string, suffix: string)
    ensures SuffixKeys([a, b], suffix) == [a + "." + b + suffix, b + suffix]
    ensures EntityKeys([a, b], suffix) == [a + ".*" + suffix]
  {
    var labels := [a, b];
    assert labels[0..] == labels && labels[1..] == [b];
    assert Join(labels, ".") == a + "." + b;
    assert SuffixKey(labels, 0, suffix) == a + "." + b + suffix;
    assert SuffixKey(labels, 1, suffix) == b + suffix;
    assert labels[0..1] == [a];
    assert EntityKey(labels, 0, 1, suffix) == a + ".*" + suffix;
    assert EntityRow(labels, 0, suffix) == [a + ".*" + suffix];
    assert EntityRows(labels, 1, suffix) == [] + EntityRow(labels, 0, suffix);
  }

  lemma YoutubeLabels()
    ensures Split("www.youtube.com", '.') == ["www", "youtube", "com"]
  {
    var parts := ["www", "youtube", "com"];
    assert parts[1..] == ["youtube", "com"];
    assert parts[1..][1..] == ["com"];
    assert Join(["com"], ".") == "com";
    assert Join(["youtube", "com"], ".") == "youtube.com";
    assert Join(parts, ".") == "www.youtube.com";
    SplitJoin(parts, '.');
  }

  /** On `www.youtube.com` rule 0 applies; the `youtube.com` exception
      excludes rule 6, which this page does not include anyway. */
  lemma YoutubeResolves()
    ensures ScopeOf(NodeTextCatalog, [Entry("www.youtube.com", 0)]) == Scope({0}, {6})
    ensures Applicable(ScopeOf(NodeTextCatalog, [Entry("www.youtube.com", 0)])) == {0}
  {
    YoutubeLabels();
    WwwYoutubeResolves("www.youtube.com");
  }

  lemma WwwYoutubeResolves(hostname: string)
    requires Split(hostname, '.') == ["www", "youtube", "com"]
    ensures ScopeOf(NodeTextCatalog, [Entry(hostname, 0)]) == Scope({0}, {6})
  {
    var es := [Entry(hostname, 0)];
    var keys := LookupKeys(NodeTextCatalog, hostname, "");
    OwnPageKeys(NodeTextCatalog, hostname);
    YoutubeKeys(hostname);
    YoutubeHits(keys);
  }

  lemma YoutubeKeys(hostname: string)
    requires Split(hostname, '.') == ["www", "youtube", "com"]
    ensures var keys := LookupKeys(NodeTextCatalog, hostname, "");
            |keys| == 6 && keys[0] == "www.youtube.com" && keys[1] == "youtube.com"
            && |keys[2]| == 3 && |keys[3]| == 13 && |keys[4]| == 5 && |keys[5]| == 9
  {
    ThreeLabelKeys("www", "youtube", "com", "");
    YoutubeStrings();
  }

  lemma YoutubeStrings()
    ensures "www" + "." + "youtube" + "." + "com" + "" == "www.youtube.com"
    ensures "youtube" + "." + "com" + "" == "youtube.com"
  {
    assert "www" + "." == "www.";
    assert "www." + "youtube" == "www.youtube";
    assert "www.youtube" + "." == "www.youtube.";
    assert "www.youtube." + "com" == "www.youtube.com";
    assert "www.youtube.com" + "" == "www.youtube.com";
    assert "youtube" + "." == "youtube.";
    assert "youtube." + "com" == "youtube.com";
    assert "youtube.com" + "" == "youtube.com";
  }

  lemma YoutubeHits(keys: seq<string>)
    requires |keys| == 6 && keys[0] == "www.youtube.com" && keys[1] == "youtube.com"
    requires |keys[2]| == 3 && |keys[3]| == 13 && |keys[4]| == 5 && |keys[5]| == 9
    ensures HitsSeq(NodeTextCatalog.hostnames, keys) == {0}
    ensures HitsSeq(NodeTextCatalog.exceptions, keys) == {6}
  {
    var h, x := NodeTextCatalog.hostnames, NodeTextCatalog.exceptions;
    assert keys[1] !in h && keys[2] !in h && keys[3] !in h && keys[4] !in h && keys[5] !in h;
    assert keys[0] !in x && keys[2] !in x && keys[3] !in x && keys[4] !in x && keys[5] !in x;
    assert Lookup(h, keys[0]) == {0};
    assert Lookup(x, keys[1]) == {6};
    forall y ensures y in HitsSeq(h, keys) <==> y == 0 {
      HitsSeqMembers(h, keys, y);
    }
    forall y ensures y in HitsSeq(x, keys) <==> y == 6 {
      HitsSeqMembers(x, keys, y);
    }
  }

  /** A page with no ancestors is looked up on its own keys only. */
  lemma OwnPageKeys(cat: Catalog, hostname: string)
    ensures PageKeys(cat, [Entry(hostname, 0)]) == LookupKeys(cat, hostname, "")
  {
    var es := [Entry(hostname, 0)];
    assert es[..0] == [];
    assert AncestorKeys(cat, es) == AncestorKeys(cat, []) + [];
    assert LookupKeys(cat, hostname, "") + [] == LookupKeys(cat, hostname, "");
  }

  /** In the excerpt, rule 6 is stored only under a `>>` key, so a page
      resolved on its own origin never includes it. */
  lemma Rule6NeedsAncestor(hostname: string)
    requires hostname == [] || hostname[|hostname| - 1] != '>'
    ensures 6 !in ScopeOf(NodeTextCatalog, [Entry(hostname, 0)]).todo
  {
    var keys := LookupKeys(NodeTextCatalog, hostname, "");
    OwnPageKeys(NodeTextCatalog, hostname);
    HitsSeqMembers(NodeTextCatalog.hostnames, keys, 6);
    forall k | 0 <= k < |keys| ensures 6 !in Lookup(NodeTextCatalog.hostnames, keys[k]) {
      OwnKeysNoMarker(NodeTextCatalog, hostname, keys[k]);
      Rule6Key(keys[k]);
    }
  }

  /** The only key of the excerpt that stores rule 6 ends with `>`; the
      bundle's full table also stores it under plain keys. */
  lemma Rule6Key(key: string)
    ensures 6 in Lookup(NodeTextCatalog.hostnames, key) ==> |key| > 0 && key[|key| - 1] == '>'
  {
    var h := NodeTextCatalog.hostnames;
    if key == "www.youtube.com" {
      assert Lookup(h, key) == {0};
    } else if key in h {
      assert key == "freestreams-live.*>>";
    }
  }

  /** The key `freestreams-live.*>>` is never among a page's own keys,
      whatever the catalogue: only the `>>` lookup of an ancestor produces
      it, as that of `freestreams-live.tv` does when the bundle has
      entities. */
  lemma MarkedKeyAncestorOnly(cat: Catalog, hostname: string)
    requires hostname == [] || hostname[|hostname| - 1] != '>'
    ensures "freestreams-live.*>>" !in LookupKeys(cat, hostname, "")
    ensures cat.hasEntities ==> "freestreams-live.*>>" in LookupKeys(cat, "freestreams-live.tv", ">>")
  {
    if "freestreams-live.*>>" in LookupKeys(cat, hostname, "") {
      OwnKeysNoMarker(cat, hostname, "freestreams-live.*>>");
    }
    FreestreamsLabels();
    TwoLabelKeys("freestreams-live", "tv", ">>");
    FreestreamsKey();
    assert EntityKeys(["freestreams-live", "tv"], ">>")[0] == "freestreams-live.*>>";
  }

  /** A `youtube.com` page framed by `freestreams-live.tv`: the ancestor
      includes rule 6, the page's own exception excludes it, and nothing
      runs. */
  lemma FramedExceptionWins()
    ensures var es := [Entry("youtube.com", 0), Entry("freestreams-live.tv", 1)];
            ScopeOf(NodeTextCatalog, es) == Scope({6}, {6}) && Applicable(ScopeOf(NodeTextCatalog, es)) == {}
  {
    YoutubeComLabels();
    FreestreamsLabels();
    OwnHits("youtube.com");
    UpHits("freestreams-live.tv");
    FramedYoutube("youtube.com", "freestreams-live.tv");
  }

  lemma FramedYoutube(own: string, up: string)
    requires HitsSeq(NodeTextCatalog.hostnames, LookupKeys(NodeTextCatalog, own, "")) == {}
    requires HitsSeq(NodeTextCatalog.exceptions, LookupKeys(NodeTextCatalog, own, "")) == {6}
    requires HitsSeq(NodeTextCatalog.hostnames, LookupKeys(NodeTextCatalog, up, ">>")) == {6}
    requires HitsSeq(NodeTextCatalog.exceptions, LookupKeys(NodeTextCatalog, up, ">>")) == {}
    ensures ScopeOf(NodeTextCatalog, [Entry(own, 0), Entry(up, 1)]) == Scope({6}, {6})
  {
    FramedPair(NodeTextCatalog, own, up, {}, {6}, {6}, {});
    assert {} + {6} == {6} && {6} + {} == {6};
  }

  lemma YoutubeComLabels()
    ensures Split("youtube.com", '.') == ["youtube", "com"]
  {
    TwoLabels("youtube", "com", "youtube.com");
  }

  lemma FreestreamsLabels()
    ensures Split("freestreams-live.tv", '.') == ["freestreams-live", "tv"]
  {
    TwoLabels("freestreams-live", "tv", "freestreams-live.tv");
  }

  /** `a.b` splits into `a` and `b`. */
  lemma TwoLabels(a: string, b: string, hostname: string)
    requires '.' !in a && '.' !in b && hostname == a + "." + b
    ensures Split(hostname, '.') == [a, b]
  {
    var parts := [a, b];
    assert parts[1..] == [b];
    assert Join(parts, ".") == hostname;
    SplitJoin(parts, '.');
  }

  lemma OwnHits(hostname: string)
    requires Split(hostname, '.') == ["youtube", "com"]
    ensures HitsSeq(NodeTextCatalog.hostnames, LookupKeys(NodeTextCatalog, hostname, "")) == {}
    ensures HitsSeq(NodeTextCatalog.exceptions, LookupKeys(NodeTextCatalog, hostname, "")) == {6}
  {
    TwoLabelKeys("youtube", "com", "");
    YoutubeStrings();
    OwnKeyHits(LookupKeys(NodeTextCatalog, hostname, ""));
  }

  lemma OwnKeyHits(keys: seq<string>)
    requires keys == ["youtube.com", "com" + "", "youtube" + ".*" + ""]
    ensures HitsSeq(NodeTextCatalog.hostnames, keys) == {}
    ensures HitsSeq(NodeTextCatalog.exceptions, keys) == {6}
  {
    var h, x := NodeTextCatalog.hostnames, NodeTextCatalog.exceptions;
    assert |keys[0]| == 11 && |keys[1]| == 3 && |keys[2]| == 9;
    assert keys[0] !in h && keys[1] !in h && keys[2] !in h;
    assert keys[1] !in x && keys[2] !in x;
    assert Lookup(x, keys[0]) == {6};
    forall y ensures y !in HitsSeq(h, keys) {
      HitsSeqMembers(h, keys, y);
    }
    forall y ensures y in HitsSeq(x, keys) <==> y == 6 {
      HitsSeqMembers(x, keys, y);
    }
  }

  lemma FreestreamsKey()
    ensures "freestreams-live" + ".*" + ">>" == "freestreams-live.*>>"
  {
    assert "freestreams-live" + ".*" == "freestreams-live.*";
    assert "freestreams-live.*" + ">>" == "freestreams-live.*>>";
  }

  lemma UpHits(hostname: string)
    requires Split(hostname, '.') == ["freestreams-live", "tv"]
    ensures HitsSeq(NodeTextCatalog.hostnames, LookupKeys(NodeTextCatalog, hostname, ">>")) == {6}
    ensures HitsSeq(NodeTextCatalog.exceptions, LookupKeys(NodeTextCatalog, hostname, ">>")) == {}
  {
    TwoLabelKeys("freestreams-live", "tv", ">>");
    FreestreamsKey();
    UpKeyHits(LookupKeys(NodeTextCatalog, hostname, ">>"));
  }

  lemma UpKeyHits(keys: seq<string>)
    requires keys == ["freestreams-live" + "." + "tv" + ">>", "tv" + ">>", "freestreams-live.*>>"]
    ensures HitsSeq(NodeTextCatalog.hostnames, keys) == {6}
    ensures HitsSeq(NodeTextCatalog.exceptions, keys) == {}
  {
    var h, x := NodeTextCatalog.hostnames, NodeTextCatalog.exceptions;
    assert |keys[0]| == 21 && |keys[1]| == 4 && |keys[2]| == 20;
    assert keys[0] !in h && keys[1] !in h;
    assert keys[0] !in x && keys[1] !in x && keys[2] !in x;
    assert Lookup(h, keys[2]) == {6};
    forall y ensures y in HitsSeq(h, keys) <==> y == 6 {
      HitsSeqMembers(h, keys, y);
    }
    forall y ensures y !in HitsSeq(x, keys) {
      HitsSeqMembers(x, keys, y);
    }
  }
}
