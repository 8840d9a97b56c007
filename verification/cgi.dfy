/** Ruby's `CGI.escape`, `CGI.unescape` and `CGI.parse`, byte by byte.

    `CGI.escape` keeps the unreserved characters of section 2.3 of RFC 3986
    (`A-Z a-z 0-9 - . _ ~`), writes a space as `+` (HTML form encoding) and
    every other byte as `%XX` with upper-case hex digits (section 2.1 of
    RFC 3986). `CGI.unescape` turns `+` into a space and decodes every `%XX`
    whose two digits are hex (either case), leaving any other `%` alone.
    `CGI.parse` splits a query at `&` and `;`, skips empty pieces, splits each
    piece at its first `=`, unescapes both halves and groups the values by
    key in the order the keys first appear; a piece without `=` records its
    key with no value. */
module Cgi {
  import opened Wrappers
  import opened ByteStrings
  import opened Seqs

  // ---------------------------------------------------------------------
  // escape / unescape

  predicate IsUnreserved(c: Byte) {
    'A' <= c <= 'Z' || 'a' <= c <= 'z' || '0' <= c <= '9' || c == '-' || c == '.' || c == '_' || c == '~'
  }

  predicate IsHexDigit(c: Byte) {
    IsDigit(c) || 'a' <= c <= 'f' || 'A' <= c <= 'F'
  }

  function HexUpper(d: nat): (c: Byte)
    requires d < 16
    ensures IsHexDigit(c) && IsUnreserved(c)
  {
    if d < 10 then DigitChar(d) else ('A' as int + d - 10) as char
  }

  function HexValue(c: Byte): (d: nat)
    requires IsHexDigit(c)
    ensures d < 16
  {
    if IsDigit(c) then DigitValue(c)
    else if 'a' <= c <= 'f' then c as int - 'a' as int + 10
    else c as int - 'A' as int + 10
  }

  lemma HexUpperValue(d: nat)
    requires d < 16
    ensures HexValue(HexUpper(d)) == d
  {
  }

  /** A byte `CGI.escape` can emit. */
  predicate IsEscapedByte(c: Byte) {
    IsUnreserved(c) || c == '+' || c == '%'
  }

  function EscapeByte(b: Byte): (r: Bytes)
    ensures 1 <= |r| <= 3
    ensures forall i :: 0 <= i < |r| ==> IsEscapedByte(r[i])
  {
    if IsUnreserved(b) then [b]
    else if b == ' ' then ['+']
    else ['%', HexUpper(b as int / 16), HexUpper(b as int % 16)]
  }

  /** `CGI.escape`. Its output never holds a query delimiter (`&`, `;`, `=`,
      `#`, `?`, `/`), which is what lets an escaped value travel as one query
      parameter. */
  function Escape(s: Bytes): (r: Bytes)
    ensures forall i :: 0 <= i < |r| ==> IsEscapedByte(r[i])
    ensures |s| <= |r| <= 3 * |s|
  {
    if s == [] then [] else EscapeByte(s[0]) + Escape(s[1..])
  }

  /** `CGI.unescape`. */
  function Unescape(s: Bytes): (r: Bytes)
    ensures |r| <= |s|
    decreases |s|
  {
    if s == [] then []
    else if s[0] == '+' then [' '] + Unescape(s[1..])
    else if s[0] == '%' && |s| >= 3 && IsHexDigit(s[1]) && IsHexDigit(s[2]) then
      [(HexValue(s[1]) * 16 + HexValue(s[2])) as char] + Unescape(s[3..])
    else [s[0]] + Unescape(s[1..])
  }

  lemma UnescapeAfterEscapeByte(b: Byte, t: Bytes)
    ensures Unescape(EscapeByte(b) + t) == [b] + Unescape(t)
  {
    var e := EscapeByte(b);
    if !IsUnreserved(b) && b != ' ' {
      HexUpperValue(b as int / 16);
      HexUpperValue(b as int % 16);
      assert (e + t)[3..] == t;
    } else {
      assert (e + t)[1..] == t;
    }
  }

  /** Unescaping undoes escaping. */
  lemma {:induction false} UnescapeEscape(s: Bytes)
    ensures Unescape(Escape(s)) == s
    decreases |s|
  {
    if s != [] {
      UnescapeAfterEscapeByte(s[0], Escape(s[1..]));
      UnescapeEscape(s[1..]);
      assert s == [s[0]] + s[1..];
    }
  }

  /** Hence escaping loses nothing: distinct strings escape differently. */
  lemma EscapeInjective(a: Bytes, b: Bytes)
    ensures Escape(a) == Escape(b) <==> a == b
  {
    UnescapeEscape(a);
    UnescapeEscape(b);
  }

  predicate AllUnreserved(s: Bytes) {
    forall i :: 0 <= i < |s| ==> IsUnreserved(s[i])
  }

  /** A string of unreserved characters is its own escape and its own
      unescape. */
  lemma {:induction false} UnreservedFixed(s: Bytes)
    requires AllUnreserved(s)
    ensures Escape(s) == s && Unescape(s) == s
    decreases |s|
  {
    if s != [] {
      UnreservedFixed(s[1..]);
      assert s == [s[0]] + s[1..];
    }
  }

  // ---------------------------------------------------------------------
  // parse

  const AMPERSAND: Bytes := "&"
  const EQUALS: Bytes := "="

  predicate IsPairSeparator(c: Byte) {
    c == '&' || c == ';'
  }

  predicate IsEquals(c: Byte) {
    c == '='
  }

  /** `piece.split('=', 2).collect { |v| CGI.unescape(v) }` on a non-empty
      piece: the unescaped key, and the unescaped value when there is a `=`. */
  function ParsePiece(piece: Bytes): (kv: (Bytes, Option<Bytes>))
  {
    var i := FindFirst(piece, IsEquals);
    if i == |piece| then (Unescape(piece), None)
    else (Unescape(piece[..i]), Some(Unescape(piece[i + 1..])))
  }

  /** The key/value pairs of the pieces, in order; an empty piece has no key
      and is skipped (`next unless key`). */
  function PiecePairs(pieces: seq<Bytes>): (pairs: seq<(Bytes, Option<Bytes>)>)
    ensures |pairs| <= |pieces|
  {
    if pieces == [] then []
    else (if pieces[0] == [] then [] else [ParsePiece(pieces[0])]) + PiecePairs(pieces[1..])
  }

  /** The result of `CGI.parse`: each key with its list of values. */
  type Params = seq<(Bytes, seq<Bytes>)>

  /** `params[key] ||= []; params[key].push(value) if value`. */
  function AddParam(ps: Params, key: Bytes, value: Option<Bytes>): (r: Params)
  {
    var vs := if value.Some? then [value.value] else [];
    var i := KeyIndex(ps, key);
    if i < |ps| then ps[i := (key, ps[i].1 + vs)] else ps + [(key, vs)]
  }

  function Group(pairs: seq<(Bytes, Option<Bytes>)>): (ps: Params)
  {
    if pairs == [] then []
    else
      var last := pairs[|pairs| - 1];
      AddParam(Group(pairs[..|pairs| - 1]), last.0, last.1)
  }

  /** `CGI.parse`. */
  function Parse(query: Bytes): Params {
    Group(PiecePairs(Split(query, IsPairSeparator)))
  }

  function Lookup(ps: Params, key: Bytes): Option<seq<Bytes>> {
    var i := KeyIndex(ps, key);
    if i < |ps| then Some(ps[i].1) else None
  }

  // ---------------------------------------------------------------------
  // what grouping preserves

  /** `key` paired with each of `vs`. */
  function PairWith(key: Bytes, vs: seq<Bytes>): (r: seq<(Bytes, Bytes)>)
    ensures |r| == |vs|
  {
    if vs == [] then [] else [(key, vs[0])] + PairWith(key, vs[1..])
  }

  lemma {:induction false} PairWithAppend(key: Bytes, vs: seq<Bytes>, ws: seq<Bytes>)
    ensures PairWith(key, vs + ws) == PairWith(key, vs) + PairWith(key, ws)
    decreases |vs|
  {
    if vs != [] {
      assert (vs + ws)[1..] == vs[1..] + ws;
      PairWithAppend(key, vs[1..], ws);
    } else {
      assert vs + ws == ws;
    }
  }

  function PairsOf(p: (Bytes, seq<Bytes>)): seq<(Bytes, Bytes)> {
    PairWith(p.0, p.1)
  }

  /** Every (key, value) the params hold, one per value. */
  function ParamPairs(ps: Params): seq<(Bytes, Bytes)> {
    Flatten(Map(PairsOf, ps))
  }

  /** The pairs that carry a value, in order. */
  function Valued(pairs: seq<(Bytes, Option<Bytes>)>): seq<(Bytes, Bytes)> {
    if pairs == [] then []
    else
      var last := pairs[|pairs| - 1];
      Valued(pairs[..|pairs| - 1]) + (if last.1.Some? then [(last.0, last.1.value)] else [])
  }

  lemma {:induction false} AddParamPairs(ps: Params, key: Bytes, value: Option<Bytes>)
    ensures multiset(ParamPairs(AddParam(ps, key, value)))
         == multiset(ParamPairs(ps)) + multiset(if value.Some? then [(key, value.value)] else [])
  {
    var vs := if value.Some? then [value.value] else [];
    assert PairWith(key, vs) == if value.Some? then [(key, value.value)] else [];
    var i := KeyIndex(ps, key);
    if i < |ps| {
      ExtendGroupPairs(ps, i, vs);
    } else {
      NewGroupPairs(ps, key, vs);
    }
  }

  lemma {:induction false} ExtendGroupPairs(ps: Params, i: nat, vs: seq<Bytes>)
    requires i < |ps|
    ensures multiset(ParamPairs(ps[i := (ps[i].0, ps[i].1 + vs)]))
         == multiset(ParamPairs(ps)) + multiset(PairWith(ps[i].0, vs))
  {
    var key := ps[i].0;
    var y := (key, ps[i].1 + vs);
    var m := Map(PairsOf, ps);
    MapUpdate(PairsOf, ps, i, y);
    PairWithAppend(key, ps[i].1, vs);
    assert PairsOf(y) == m[i] + PairWith(key, vs);
    FlattenExtend(m, i, PairWith(key, vs));
  }

  lemma {:induction false} NewGroupPairs(ps: Params, key: Bytes, vs: seq<Bytes>)
    ensures multiset(ParamPairs(ps + [(key, vs)]))
         == multiset(ParamPairs(ps)) + multiset(PairWith(key, vs))
  {
    var last: seq<(Bytes, Bytes)> := PairsOf((key, vs));
    var one: seq<seq<(Bytes, Bytes)>> := [last];
    MapAppend(PairsOf, ps, [(key, vs)]);
    assert Map(PairsOf, [(key, vs)]) == one;
    FlattenAppend(Map(PairsOf, ps), one);
    assert Flatten(one) == last by {
      assert one[1..] == [];
    }
    assert ParamPairs(ps + [(key, vs)]) == ParamPairs(ps) + last;
  }

  /** Grouping by key neither loses nor invents a value. */
  lemma {:induction false} GroupKeepsValues(pairs: seq<(Bytes, Option<Bytes>)>)
    ensures multiset(ParamPairs(Group(pairs))) == multiset(Valued(pairs))
    decreases |pairs|
  {
    if pairs != [] {
      var last := pairs[|pairs| - 1];
      GroupKeepsValues(pairs[..|pairs| - 1]);
      AddParamPairs(Group(pairs[..|pairs| - 1]), last.0, last.1);
    }
  }

  function KeysOf(pairs: seq<(Bytes, Option<Bytes>)>): (keys: seq<Bytes>)
    ensures |keys| == |pairs|
    ensures forall i :: 0 <= i < |pairs| ==> keys[i] == pairs[i].0
  {
    seq(|pairs|, i requires 0 <= i < |pairs| => pairs[i].0)
  }

  predicate Distinct(keys: seq<Bytes>) {
    forall i, j :: 0 <= i < j < |keys| ==> keys[i] != keys[j]
  }

  function Singleton(p: (Bytes, Option<Bytes>)): (Bytes, seq<Bytes>) {
    (p.0, if p.1.Some? then [p.1.value] else [])
  }

  /** A key not yet present is added at the end with its one value. */
  lemma AddNewKey(ps: Params, p: (Bytes, Option<Bytes>))
    requires forall j :: 0 <= j < |ps| ==> ps[j].0 != p.0
    ensures AddParam(ps, p.0, p.1) == ps + [Singleton(p)]
  {
    assert KeyIndex(ps, p.0) == |ps|;
  }

  lemma DistinctInit(pairs: seq<(Bytes, Option<Bytes>)>)
    requires Distinct(KeysOf(pairs)) && pairs != []
    ensures Distinct(KeysOf(pairs[..|pairs| - 1]))
    ensures forall j :: 0 <= j < |pairs| - 1 ==> pairs[j].0 != pairs[|pairs| - 1].0
  {
    var n := |pairs| - 1;
    var keys := KeysOf(pairs);
    forall j | 0 <= j < n ensures pairs[j].0 != pairs[n].0 {
      assert keys[j] != keys[n];
    }
    var init := pairs[..n];
    forall i, j | 0 <= i < j < n ensures KeysOf(init)[i] != KeysOf(init)[j] {
      assert keys[i] != keys[j];
    }
  }

  /** With no key repeated, `CGI.parse` gives each key its one value. */
  lemma {:induction false} GroupDistinct(pairs: seq<(Bytes, Option<Bytes>)>)
    requires Distinct(KeysOf(pairs))
    ensures Group(pairs) == Map(Singleton, pairs)
    decreases |pairs|
  {
    if pairs != [] {
      var n := |pairs| - 1;
      var init, last := pairs[..n], pairs[n];
      DistinctInit(pairs);
      GroupDistinct(init);
      var g := Map(Singleton, init);
      assert Group(pairs) == AddParam(g, last.0, last.1);
      forall j | 0 <= j < |g| ensures g[j].0 != last.0 {
        assert g[j] == Singleton(init[j]);
      }
      AddNewKey(g, last);
      MapAppend(Singleton, init, [last]);
      assert Map(Singleton, [last]) == [Singleton(last)];
      assert init + [last] == pairs;
    }
  }

  // ---------------------------------------------------------------------
  // a query written as `name=value` assignments joined with `&`

  predicate AllEscapedBytes(s: Bytes) {
    forall i :: 0 <= i < |s| ==> IsEscapedByte(s[i])
  }

  /** `"#{name}=#{value}"`. */
  function Assignment(p: (Bytes, Bytes)): Bytes {
    p.0 + EQUALS + p.1
  }

  /** A parameter as the signer writes it: a non-empty name of unreserved
      characters and a value made only of bytes `CGI.escape` emits. */
  predicate WellEscaped(p: (Bytes, Bytes)) {
    p.0 != [] && AllUnreserved(p.0) && AllEscapedBytes(p.1)
  }

  predicate DistinctNames(ps: seq<(Bytes, Bytes)>) {
    forall i, j :: 0 <= i < j < |ps| ==> ps[i].0 != ps[j].0
  }

  /** The key and value `CGI.parse` reads from one assignment. */
  function Received(p: (Bytes, Bytes)): (Bytes, Option<Bytes>) {
    (p.0, Some(Unescape(p.1)))
  }

  /** The entry `CGI.parse` makes of one assignment whose name is unique. */
  function Decoded(p: (Bytes, Bytes)): (Bytes, seq<Bytes>) {
    (p.0, [Unescape(p.1)])
  }

  /** The (name, value) pair the entry holds. */
  function Opened(p: (Bytes, Bytes)): (Bytes, Bytes) {
    (p.0, Unescape(p.1))
  }

  lemma ParseAssignment(p: (Bytes, Bytes))
    requires WellEscaped(p)
    ensures Assignment(p) != [] && NoneOf(Assignment(p), IsPairSeparator)
    ensures ParsePiece(Assignment(p)) == Received(p)
  {
    AssignmentNoSeparator(p);
    var s := Assignment(p);
    var rest := EQUALS + p.1;
    assert s == p.0 + rest;
    FindFirstAfter(p.0, rest, IsEquals);
    assert s[..|p.0|] == p.0 && s[|p.0| + 1..] == p.1;
    UnreservedFixed(p.0);
  }

  lemma AssignmentNoSeparator(p: (Bytes, Bytes))
    requires WellEscaped(p)
    ensures NoneOf(Assignment(p), IsPairSeparator)
  {
    var s := Assignment(p);
    var n := |p.0|;
    forall i | 0 <= i < |s| ensures !IsPairSeparator(s[i]) {
      if i < n {
        assert s[i] == p.0[i];
      } else if i == n {
        assert s[i] == '=';
      } else {
        assert s[i] == p.1[i - n - 1];
      }
    }
  }

  lemma {:induction false} PiecePairsAssignments(ps: seq<(Bytes, Bytes)>)
    requires forall i :: 0 <= i < |ps| ==> WellEscaped(ps[i])
    ensures PiecePairs(Map(Assignment, ps)) == Map(Received, ps)
    decreases |ps|
  {
    if ps != [] {
      ParseAssignment(ps[0]);
      var pieces := Map(Assignment, ps);
      assert pieces[1..] == Map(Assignment, ps[1..]);
      PiecePairsAssignments(ps[1..]);
      assert Map(Received, ps) == [Received(ps[0])] + Map(Received, ps[1..]);
    }
  }

  /** `CGI.parse` reads back what was written: each name with the one value
      it was given, unescaped, in the order written. */
  lemma ParseAssignments(ps: seq<(Bytes, Bytes)>)
    requires |ps| >= 1
    requires forall i :: 0 <= i < |ps| ==> WellEscaped(ps[i])
    requires DistinctNames(ps)
    ensures Parse(Join(Map(Assignment, ps), AMPERSAND)) == Map(Decoded, ps)
  {
    var pieces := Map(Assignment, ps);
    forall k | 0 <= k < |pieces| ensures NoneOf(pieces[k], IsPairSeparator) {
      ParseAssignment(ps[k]);
    }
    SplitJoin(pieces, AMPERSAND, IsPairSeparator);
    PiecePairsAssignments(ps);
    ReceivedDistinct(ps);
    GroupDistinct(Map(Received, ps));
    SingletonReceived(ps);
  }

  lemma ReceivedDistinct(ps: seq<(Bytes, Bytes)>)
    requires DistinctNames(ps)
    ensures Distinct(KeysOf(Map(Received, ps)))
  {
    var keys := KeysOf(Map(Received, ps));
    forall i, j | 0 <= i < j < |keys| ensures keys[i] != keys[j] {
      assert keys[i] == ps[i].0 && keys[j] == ps[j].0;
    }
  }

  lemma SingletonReceived(ps: seq<(Bytes, Bytes)>)
    ensures Map(Singleton, Map(Received, ps)) == Map(Decoded, ps)
  {
    var a, b := Map(Singleton, Map(Received, ps)), Map(Decoded, ps);
    forall i | 0 <= i < |ps| ensures a[i] == b[i] {
      assert Map(Received, ps)[i] == Received(ps[i]);
    }
  }

  /** The value found under each name is the one written for it. */
  lemma LookupDecoded(ps: seq<(Bytes, Bytes)>, i: nat)
    requires i < |ps| && DistinctNames(ps)
    ensures Lookup(Map(Decoded, ps), ps[i].0) == Some([Unescape(ps[i].1)])
  {
    var m := Map(Decoded, ps);
    assert m[i].0 == ps[i].0;
    assert KeyIndex(m, ps[i].0) == i;
  }

  /** Flattening single-valued entries gives one pair per assignment. */
  lemma {:induction false} ParamPairsDecoded(ps: seq<(Bytes, Bytes)>)
    ensures ParamPairs(Map(Decoded, ps)) == Map(Opened, ps)
    decreases |ps|
  {
    if ps != [] {
      var m := Map(Decoded, ps);
      assert m[1..] == Map(Decoded, ps[1..]);
      var one := PairsOf(m[0]);
      assert one == [Opened(ps[0])] by {
        assert PairWith(ps[0].0, [Unescape(ps[0].1)])[1..] == PairWith(ps[0].0, []);
      }
      assert Map(PairsOf, m)[1..] == Map(PairsOf, m[1..]);
      ParamPairsDecoded(ps[1..]);
      assert Map(Opened, ps) == [Opened(ps[0])] + Map(Opened, ps[1..]);
    }
  }

  /** One more assignment is written after a `&`. */
  lemma AssignmentsSnoc(ps: seq<(Bytes, Bytes)>, p: (Bytes, Bytes))
    requires |ps| >= 1
    ensures Join(Map(Assignment, ps + [p]), AMPERSAND) == Join(Map(Assignment, ps), AMPERSAND) + AMPERSAND + Assignment(p)
  {
    var parts, last := Map(Assignment, ps), Assignment(p);
    MapAppend(Assignment, ps, [p]);
    assert Map(Assignment, ps + [p]) == parts + [last];
    JoinSnoc(parts, AMPERSAND, last);
  }
}
