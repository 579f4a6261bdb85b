/** The JavaScript string primitives the scriptlets build on, over `string`
    (a sequence of characters): whitespace as `trim` and `\s` see it,
    `indexOf`, `lastIndexOf`, `includes`, `startsWith`, `split` on one
    character, `split` on the pattern `\s*c\s*` (a regular expression), and `join`. */
module JsString {

  /** WhiteSpace and LineTerminator code points of ECMAScript: the set that
      `trim`, `parseInt` and the `\s` class all use. */
  predicate IsSpace(c: char) {
    || c == '\t' || c == '\n' || c == '\U{000B}' || c == '\U{000C}' || c == '\r'
    || c == ' ' || c == '\U{00A0}' || c == '\U{1680}'
    || ('\U{2000}' <= c <= '\U{200A}')
    || c == '\U{2028}' || c == '\U{2029}' || c == '\U{202F}' || c == '\U{205F}'
    || c == '\U{3000}' || c == '\U{FEFF}'
  }

  /** The characters a regular expression `.` does not match. */
  predicate IsLineTerminator(c: char) {
    c == '\n' || c == '\r' || c == '\U{2028}' || c == '\U{2029}'
  }

  predicate OccursAt(s: string, t: string, p: int) {
    0 <= p && p + |t| <= |s| && s[p..p + |t|] == t
  }

  /** `s.includes(t)` */
  predicate Includes(s: string, t: string) {
    exists p | 0 <= p <= |s| :: OccursAt(s, t, p)
  }

  /** `s.startsWith(t)` */
  predicate StartsWith(s: string, t: string) {
    |t| <= |s| && s[..|t|] == t
  }

  /** `s.startsWith(c)` for a one-character string `c`. */
  predicate StartsWithChar(s: string, c: char) {
    |s| > 0 && s[0] == c
  }

  function IndexFrom(s: string, t: string, p: nat): (r: int)
    requires p <= |s| + 1
    ensures r == -1 || (p <= r && OccursAt(s, t, r))
    ensures forall q :: p <= q && (r == -1 || q < r) ==> !OccursAt(s, t, q)
    decreases |s| + 1 - p
  {
    if p + |t| > |s| then -1
    else if s[p..p + |t|] == t then p
    else IndexFrom(s, t, p + 1)
  }

  /** `s.indexOf(t)`: the first position where `t` occurs in `s`, or -1. */
  function IndexOf(s: string, t: string): (r: int)
    ensures r == -1 || OccursAt(s, t, r)
    ensures forall q :: 0 <= q && (r == -1 || q < r) ==> !OccursAt(s, t, q)
    ensures r == -1 <==> !Includes(s, t)
  {
    IndexFrom(s, t, 0)
  }

  /** `s.indexOf(c)` for a one-character needle. */
  function IndexOfChar(s: string, c: char): (r: int)
    ensures r == -1 <==> c !in s
    ensures r != -1 ==> 0 <= r < |s| && s[r] == c && c !in s[..r]
  {
    var r := IndexOf(s, [c]);
    assert forall q :: 0 <= q < |s| ==> (OccursAt(s, [c], q) <==> s[q] == c) by {
      forall q | 0 <= q < |s| ensures OccursAt(s, [c], q) <==> s[q] == c {
        assert s[q..q + 1] == [s[q]];
      }
    }
    if r == -1 then
      assert forall q :: 0 <= q < |s| ==> s[q] != c by {
        forall q | 0 <= q < |s| ensures s[q] != c {
          assert !OccursAt(s, [c], q);
        }
      }
      r
    else
      assert forall q :: 0 <= q < r ==> s[q] != c by {
        forall q | 0 <= q < r ensures s[q] != c {
          assert !OccursAt(s, [c], q);
        }
      }
      assert s[r] == c by { assert s[r..r + 1] == [s[r]]; }
      r
  }

  function LastIndexBefore(s: string, t: string, p: int): (r: int)
    requires -1 <= p <= |s|
    ensures r == -1 || (r <= p && OccursAt(s, t, r))
    ensures forall q :: q <= p && (r == -1 || r < q) ==> !OccursAt(s, t, q)
    decreases p + 1
  {
    if p < 0 then -1
    else if p + |t| <= |s| && s[p..p + |t|] == t then p
    else LastIndexBefore(s, t, p - 1)
  }

  /** `s.lastIndexOf(t)`: the last position where `t` occurs in `s`, or -1. */
  function LastIndexOf(s: string, t: string): (r: int)
    ensures r == -1 || OccursAt(s, t, r)
    ensures forall q :: r < q ==> !OccursAt(s, t, q)
    ensures r == -1 <==> !Includes(s, t)
  {
    LastIndexBefore(s, t, |s|)
  }

  /** `s.trimStart()`: `s` from its first non-whitespace character on. */
  function TrimStart(s: string): (r: string)
    ensures |r| <= |s| && r == s[|s| - |r|..]
    ensures r == [] || !IsSpace(r[0])
  {
    if |s| > 0 && IsSpace(s[0]) then TrimStart(s[1..]) else s
  }

  /** What `trimStart` removes is whitespace. */
  lemma {:induction false} TrimStartRemovesSpace(s: string)
    ensures forall k :: 0 <= k < |s| - |TrimStart(s)| ==> IsSpace(s[k])
    decreases |s|
  {
    if |s| > 0 && IsSpace(s[0]) {
      TrimStartRemovesSpace(s[1..]);
      assert forall k :: 1 <= k < |s| ==> s[k] == s[1..][k - 1];
    }
  }

  /** `s.trimEnd()`: `s` up to its last non-whitespace character. */
  function TrimEnd(s: string): (r: string)
    ensures |r| <= |s| && r == s[..|r|]
    ensures r == [] || !IsSpace(r[|r| - 1])
  {
    if |s| > 0 && IsSpace(s[|s| - 1]) then TrimEnd(s[..|s| - 1]) else s
  }

  /** What `trimEnd` removes is whitespace. */
  lemma {:induction false} TrimEndRemovesSpace(s: string)
    ensures forall k :: |TrimEnd(s)| <= k < |s| ==> IsSpace(s[k])
    decreases |s|
  {
    if |s| > 0 && IsSpace(s[|s| - 1]) {
      TrimEndRemovesSpace(s[..|s| - 1]);
    }
  }

  /** `r` is `s` from position `a`, with only whitespace outside it. */
  predicate TrimmedAt(s: string, r: string, a: int) {
    && 0 <= a <= |s| - |r|
    && r == s[a..a + |r|]
    && (forall k :: 0 <= k < a ==> IsSpace(s[k]))
    && (forall k :: a + |r| <= k < |s| ==> IsSpace(s[k]))
  }

  /** `s.trim()`: `s` without its leading and trailing whitespace. */
  function Trim(s: string): (r: string)
    ensures |r| <= |s|
    ensures forall x :: x in r ==> x in s
    ensures r == [] || (!IsSpace(r[0]) && !IsSpace(r[|r| - 1]))
  {
    var u := TrimStart(s);
    var r := TrimEnd(u);
    SuffixChars(s, u);
    PrefixChars(u, r);
    assert r != [] ==> r[0] == u[0];
    r
  }

  /** What `trim` removes is whitespace at both ends, and only that. */
  lemma TrimRemovesSpace(s: string)
    ensures exists a :: TrimmedAt(s, Trim(s), a)
  {
    var u := TrimStart(s);
    var r := TrimEnd(u);
    TrimStartRemovesSpace(s);
    TrimEndRemovesSpace(u);
    TrimmedAtOf(s, u, r, |s| - |u|);
    assert Trim(s) == r;
  }

  /** A cut of `s` at `a` and a cut of the rest at `|r|`, each through
      whitespace only. */
  lemma TrimmedAtOf(s: string, u: string, r: string, a: nat)
    requires a + |u| == |s| && u == s[a..] && |r| <= |u| && r == u[..|r|]
    requires forall k :: 0 <= k < a ==> IsSpace(s[k])
    requires forall k :: |r| <= k < |u| ==> IsSpace(u[k])
    ensures TrimmedAt(s, r, a)
  {
    assert r == s[a..a + |r|];
    forall k | a + |r| <= k < |s| ensures IsSpace(s[k]) {
      assert s[k] == u[k - a];
    }
  }

  /** `parts.join(sep)` */
  function Join(parts: seq<string>, sep: string): string {
    if |parts| == 0 then ""
    else if |parts| == 1 then parts[0]
    else parts[0] + sep + Join(parts[1..], sep)
  }

  /** `s.split(c)` for a one-character separator: the maximal pieces of `s`
      between occurrences of `c`. The empty string gives one empty piece. */
  function Split(s: string, c: char): (r: seq<string>)
    ensures |r| >= 1
    ensures forall k :: 0 <= k < |r| ==> c !in r[k]
    ensures Join(r, [c]) == s
    decreases |s|
  {
    var i := IndexOfChar(s, c);
    if i == -1 then [s]
    else
      var rest := Split(s[i + 1..], c);
      var r := [s[..i]] + rest;
      JoinCons(s[..i], rest, [c]);
      assert s == s[..i] + [c] + s[i + 1..];
      assert forall k :: 1 <= k < |r| ==> r[k] == rest[k - 1];
      r
  }

  /** Concatenation is associative. */
  lemma ConcatAssoc(a: string, b: string, c: string)
    ensures a + b + c == a + (b + c)
  {
  }

  lemma JoinCons(x: string, rest: seq<string>, sep: string)
    requires |rest| >= 1
    ensures Join([x] + rest, sep) == x + sep + Join(rest, sep)
  {
    assert ([x] + rest)[1..] == rest;
  }

  /** Splitting undoes joining, for pieces that do not contain the separator. */
  lemma {:induction false} SplitJoin(parts: seq<string>, c: char)
    requires |parts| >= 1
    requires forall k :: 0 <= k < |parts| ==> c !in parts[k]
    ensures Split(Join(parts, [c]), c) == parts
  {
    if |parts| > 1 {
      var rest := Join(parts[1..], [c]);
      SplitAtFirst(parts[0], rest, c);
      SplitJoin(parts[1..], c);
    }
  }

  /** A piece of `s.split` on the regular expression `\s*c\s*`: the separator's match swallows the
      whitespace on both of its sides, so every piece but the first loses its
      leading whitespace and every piece but the last its trailing one. */
  function StripAtSeparators(piece: string, afterSep: bool, beforeSep: bool): (r: string)
    ensures forall x :: x in r ==> x in piece
    ensures afterSep && r != [] ==> !IsSpace(r[0])
    ensures beforeSep && r != [] ==> !IsSpace(r[|r| - 1])
    ensures (forall k :: 0 <= k < |piece| ==> !IsSpace(piece[k])) ==> r == piece
  {
    var u := StripStart(piece, afterSep);
    var r := StripEnd(u, beforeSep);
    StripStartIsSuffix(piece, afterSep);
    StripEndIsPrefix(u, beforeSep);
    SuffixChars(piece, u);
    PrefixChars(u, r);
    assert r != [] ==> r[0] == u[0];
    r
  }

  /** The leading white space of `piece`, when it follows a separator. */
  function StripStart(piece: string, afterSep: bool): (u: string)
    ensures afterSep && u != [] ==> !IsSpace(u[0])
    ensures (forall k :: 0 <= k < |piece| ==> !IsSpace(piece[k])) ==> u == piece
  {
    NoSpaceTrimmed(piece);
    if afterSep then TrimStart(piece) else piece
  }

  /** The trailing white space of `u`, when it precedes a separator. */
  function StripEnd(u: string, beforeSep: bool): (r: string)
    ensures beforeSep && r != [] ==> !IsSpace(r[|r| - 1])
    ensures (forall k :: 0 <= k < |u| ==> !IsSpace(u[k])) ==> r == u
  {
    NoSpaceTrimmed(u);
    if beforeSep then TrimEnd(u) else u
  }

  lemma StripStartIsSuffix(piece: string, afterSep: bool)
    ensures |StripStart(piece, afterSep)| <= |piece|
    ensures StripStart(piece, afterSep) == piece[|piece| - |StripStart(piece, afterSep)|..]
  {
  }

  lemma StripEndIsPrefix(u: string, beforeSep: bool)
    ensures |StripEnd(u, beforeSep)| <= |u|
    ensures StripEnd(u, beforeSep) == u[..|StripEnd(u, beforeSep)|]
  {
  }

  lemma SuffixChars(s: string, r: string)
    requires |r| <= |s| && r == s[|s| - |r|..]
    ensures forall x :: x in r ==> x in s
  {
    forall x | x in r ensures x in s {
      var k :| 0 <= k < |r| && r[k] == x;
      assert s[|s| - |r| + k] == x;
    }
  }

  lemma PrefixChars(s: string, r: string)
    requires |r| <= |s| && r == s[..|r|]
    ensures forall x :: x in r ==> x in s
  {
    forall x | x in r ensures x in s {
      var k :| 0 <= k < |r| && r[k] == x;
      assert s[k] == x;
    }
  }

  /** Trimming a string without whitespace changes nothing. */
  lemma NoSpaceTrimmed(s: string)
    ensures (forall k :: 0 <= k < |s| ==> !IsSpace(s[k])) ==> TrimStart(s) == s && TrimEnd(s) == s
  {
  }

  /** `s.split` on the regular expression `\s*c\s*` for a separator `c` that is not whitespace. */
  function SplitAround(s: string, c: char): (r: seq<string>)
    requires !IsSpace(c)
    ensures |r| >= 1
    ensures Stripped(r, c)
  {
    StripAll(Split(s, c), c)
  }

  /** Pieces without the separator `c`, with no whitespace where a
      separator touched them: at the start of all but the first, at the end
      of all but the last. */
  predicate Stripped(r: seq<string>, c: char) {
    && (forall k :: 0 <= k < |r| ==> c !in r[k])
    && (forall k :: 0 < k < |r| && r[k] != [] ==> !IsSpace(r[k][0]))
    && (forall k :: 0 <= k < |r| - 1 && r[k] != [] ==> !IsSpace(r[k][|r[k]| - 1]))
  }

  /** Each of the pieces `p` of a split, stripped where a separator touches it. */
  function StripAll(p: seq<string>, c: char): (r: seq<string>)
    requires |p| >= 1
    requires forall k :: 0 <= k < |p| ==> c !in p[k]
    ensures |r| == |p|
    ensures Stripped(r, c)
  {
    var r := seq(|p|, k requires 0 <= k < |p| => StripAtSeparators(p[k], k > 0, k < |p| - 1));
    forall k | 0 <= k < |r|
      ensures c !in r[k]
      ensures 0 < k && r[k] != [] ==> !IsSpace(r[k][0])
      ensures k < |r| - 1 && r[k] != [] ==> !IsSpace(r[k][|r[k]| - 1])
    {
      StripPiece(p[k], c, k > 0, k < |p| - 1);
      assert r[k] == StripAtSeparators(p[k], k > 0, k < |p| - 1);
    }
    r
  }

  lemma StripPiece(piece: string, c: char, afterSep: bool, beforeSep: bool)
    requires c !in piece
    ensures var q := StripAtSeparators(piece, afterSep, beforeSep);
      && c !in q
      && (afterSep && q != [] ==> !IsSpace(q[0]))
      && (beforeSep && q != [] ==> !IsSpace(q[|q| - 1]))
  {
  }

  /** `r` is `piece` less a run of whitespace at its start, only where a
      separator precedes it, and a run at its end, only where one follows. */
  ghost predicate CutAtSeparators(piece: string, r: string, afterSep: bool, beforeSep: bool) {
    exists a :: && TrimmedAt(piece, r, a)
                && (!afterSep ==> a == 0)
                && (!beforeSep ==> a + |r| == |piece|)
  }

  /** Stripping takes off whitespace beside the separators and nothing else. */
  lemma StripAtSeparatorsCuts(piece: string, afterSep: bool, beforeSep: bool)
    ensures CutAtSeparators(piece, StripAtSeparators(piece, afterSep, beforeSep), afterSep, beforeSep)
  {
    var u := StripStart(piece, afterSep);
    var r := StripEnd(u, beforeSep);
    StripStartIsSuffix(piece, afterSep);
    StripEndIsPrefix(u, beforeSep);
    if afterSep { TrimStartRemovesSpace(piece); }
    if beforeSep { TrimEndRemovesSpace(u); }
    var a := |piece| - |u|;
    TrimmedAtOf(piece, u, r, a);
    assert StripAtSeparators(piece, afterSep, beforeSep) == r;
    assert TrimmedAt(piece, r, a) && (!afterSep ==> a == 0) && (!beforeSep ==> a + |r| == |piece|);
  }

  /** Every stripped piece is its split piece less the whitespace its
      separators swallowed. */
  lemma StripAllCuts(p: seq<string>, c: char)
    requires |p| >= 1
    requires forall k :: 0 <= k < |p| ==> c !in p[k]
    ensures forall k :: 0 <= k < |p| ==> CutAtSeparators(p[k], StripAll(p, c)[k], k > 0, k < |p| - 1)
  {
    var r := StripAll(p, c);
    forall k | 0 <= k < |p| ensures CutAtSeparators(p[k], r[k], k > 0, k < |p| - 1) {
      StripAtSeparatorsCuts(p[k], k > 0, k < |p| - 1);
      assert r[k] == StripAtSeparators(p[k], k > 0, k < |p| - 1);
    }
  }

  /** The pieces of the pattern split are those of the character split,
      each less the whitespace on its separator sides: none at the start of
      the first piece, none at the end of the last. */
  lemma SplitAroundCuts(s: string, c: char)
    requires !IsSpace(c)
    ensures |SplitAround(s, c)| == |Split(s, c)|
    ensures var p, r := Split(s, c), SplitAround(s, c);
      forall k :: 0 <= k < |p| ==> CutAtSeparators(p[k], r[k], k > 0, k < |p| - 1)
  {
    StripAllCuts(Split(s, c), c);
  }

  /** Without whitespace in the input, the pattern split is the plain split. */
  lemma SplitAroundNoSpace(s: string, c: char)
    requires !IsSpace(c)
    requires forall k :: 0 <= k < |s| ==> !IsSpace(s[k])
    ensures SplitAround(s, c) == Split(s, c)
  {
    var p := Split(s, c);
    var r := SplitAround(s, c);
    forall k | 0 <= k < |p| ensures r[k] == p[k] {
      PieceHasNoSpace(s, c, k);
      assert r[k] == StripAtSeparators(p[k], k > 0, k < |p| - 1);
    }
    assert |r| == |p|;
  }

  lemma {:induction false} PieceHasNoSpace(s: string, c: char, k: nat)
    requires forall j :: 0 <= j < |s| ==> !IsSpace(s[j])
    requires k < |Split(s, c)|
    ensures forall m :: 0 <= m < |Split(s, c)[k]| ==> !IsSpace(Split(s, c)[k][m])
    decreases |s|
  {
    var i := IndexOfChar(s, c);
    if i != -1 && k > 0 {
      PieceHasNoSpace(s[i + 1..], c, k - 1);
    }
  }

  /** Splitting `a + c + rest`, with no `c` in `a`, takes `a` off as the first piece. */
  lemma SplitAtFirst(a: string, rest: string, c: char)
    requires c !in a
    ensures Split(a + [c] + rest, c) == [a] + Split(rest, c)
  {
    var s := a + [c] + rest;
    ConcatAssoc(a, [c], rest);
    IndexOfCharAt(a, [c] + rest, c);
    assert s[..|a|] == a;
    assert s[|a| + 1..] == rest;
  }

  /** The first `c` of `a + b` is the head of `b` when `a` has none. */
  lemma IndexOfCharAt(a: string, b: string, c: char)
    requires c !in a && |b| > 0 && b[0] == c
    ensures IndexOfChar(a + b, c) == |a|
  {
    var s := a + b;
    assert s[|a|] == c;
    assert s[..|a|] == a;
  }

  /** A string without whitespace at either end is its own trim. */
  lemma TrimUnchanged(s: string)
    requires s == [] || (!IsSpace(s[0]) && !IsSpace(s[|s| - 1]))
    ensures Trim(s) == s
  {
    assert TrimStart(s) == s;
    assert TrimEnd(s) == s;
  }
}
