/** `Enumerable#map` and `Array#flatten` over sequences, with the facts that
    make the signer's output independent of the order of its inputs. */
module Seqs {

  function Map<A, B>(f: A -> B, s: seq<A>): (r: seq<B>)
    ensures |r| == |s|
    ensures forall i :: 0 <= i < |s| ==> r[i] == f(s[i])
  {
    if s == [] then [] else [f(s[0])] + Map(f, s[1..])
  }

  /** A sequence that agrees with `f` at every position is its image. */
  lemma MapPointwise<A, B>(f: A -> B, s: seq<A>, t: seq<B>)
    requires |s| == |t| && forall i :: 0 <= i < |s| ==> f(s[i]) == t[i]
    ensures Map(f, s) == t
  {
  }

  lemma MapAppend<A, B>(f: A -> B, s: seq<A>, t: seq<A>)
    ensures Map(f, s + t) == Map(f, s) + Map(f, t)
  {
  }

  lemma MapUpdate<A, B>(f: A -> B, s: seq<A>, i: nat, x: A)
    requires i < |s|
    ensures Map(f, s[i := x]) == Map(f, s)[i := f(x)]
  {
  }

  /** Removing the element at `k` removes one occurrence of it. */
  lemma RemoveAt<A>(t: seq<A>, k: nat)
    requires k < |t|
    ensures multiset(t[..k] + t[k + 1..]) == multiset(t) - multiset{t[k]}
  {
    assert t == t[..k] + [t[k]] + t[k + 1..];
  }

  lemma {:induction false} MapRemoveAt<A, B>(f: A -> B, t: seq<A>, k: nat)
    requires k < |t|
    ensures multiset(Map(f, t)) == multiset(Map(f, t[..k] + t[k + 1..])) + multiset{f(t[k])}
  {
    var a, x, b := t[..k], t[k], t[k + 1..];
    assert t == (a + [x]) + b;
    MapAppend(f, a + [x], b);
    MapAppend(f, a, [x]);
    MapAppend(f, a, b);
    assert Map(f, [x]) == [f(x)];
    assert Map(f, t) == Map(f, a) + [f(x)] + Map(f, b);
  }

  /** Mapping respects permutation: reordering the input only reorders the
      output. */
  lemma {:induction false} MapPermutation<A, B>(f: A -> B, s: seq<A>, t: seq<A>)
    requires multiset(s) == multiset(t)
    ensures multiset(Map(f, s)) == multiset(Map(f, t))
    decreases |s|
  {
    if s == [] {
      assert t == [];
    } else {
      var k := IndexOf(t, s[0]);
      var t' := t[..k] + t[k + 1..];
      PermutationTail(s, t, k);
      MapPermutation(f, s[1..], t');
      MapRemoveAt(f, t, k);
      MapCons(f, s);
    }
  }

  /** Taking the same element out of two permutations of each other leaves
      permutations of each other. */
  lemma PermutationTail<A>(s: seq<A>, t: seq<A>, k: nat)
    requires multiset(s) == multiset(t) && s != [] && k < |t| && t[k] == s[0]
    ensures multiset(s[1..]) == multiset(t[..k] + t[k + 1..])
  {
    var t' := t[..k] + t[k + 1..];
    assert t == t[..k] + [t[k]] + t[k + 1..];
    assert multiset(t) == multiset(t') + multiset{s[0]};
    assert s == [s[0]] + s[1..];
    assert multiset(s) == multiset(s[1..]) + multiset{s[0]};
    MultisetCancel(multiset(s[1..]), multiset(t'), s[0]);
  }

  lemma MultisetCancel<A>(a: multiset<A>, b: multiset<A>, x: A)
    requires a + multiset{x} == b + multiset{x}
    ensures a == b
  {
    assert a == a + multiset{x} - multiset{x};
    assert b == b + multiset{x} - multiset{x};
  }

  lemma MapCons<A, B>(f: A -> B, s: seq<A>)
    requires s != []
    ensures multiset(Map(f, s)) == multiset{f(s[0])} + multiset(Map(f, s[1..]))
  {
    assert Map(f, s) == [f(s[0])] + Map(f, s[1..]);
  }

  lemma IndexOf<A>(t: seq<A>, x: A) returns (k: nat)
    requires x in multiset(t)
    ensures k < |t| && t[k] == x
  {
    assert x in t;
    k :| 0 <= k < |t| && t[k] == x;
  }

  /** The position of the first pair whose key is `key`, or `|ps|` when
      there is none: how a Ruby `Hash` finds a key. */
  function KeyIndex<K(==), V>(ps: seq<(K, V)>, key: K): (i: nat)
    ensures i <= |ps|
    ensures i < |ps| ==> ps[i].0 == key
    ensures forall j :: 0 <= j < i ==> ps[j].0 != key
  {
    if ps == [] || ps[0].0 == key then 0 else 1 + KeyIndex(ps[1..], key)
  }

  /** `Array#flatten` of one level. */
  function Flatten<A>(ss: seq<seq<A>>): (r: seq<A>)
  {
    if ss == [] then [] else ss[0] + Flatten(ss[1..])
  }

  lemma {:induction false} FlattenAppend<A>(ss: seq<seq<A>>, tt: seq<seq<A>>)
    ensures Flatten(ss + tt) == Flatten(ss) + Flatten(tt)
    decreases |ss|
  {
    if ss != [] {
      assert (ss + tt)[0] == ss[0];
      assert (ss + tt)[1..] == ss[1..] + tt;
      FlattenAppend(ss[1..], tt);
      assert Flatten(ss + tt) == ss[0] + (Flatten(ss[1..]) + Flatten(tt));
    } else {
      assert ss + tt == tt;
    }
  }

  /** Extending one group of a flattened list adds exactly the new elements. */
  lemma FlattenExtend<A>(ss: seq<seq<A>>, i: nat, extra: seq<A>)
    requires i < |ss|
    ensures multiset(Flatten(ss[i := ss[i] + extra])) == multiset(Flatten(ss)) + multiset(extra)
  {
    var x := ss[i] + extra;
    var one: seq<seq<A>> := [ss[i]];
    var one': seq<seq<A>> := [x];
    assert ss == ss[..i] + one + ss[i + 1..];
    assert ss[i := x] == ss[..i] + one' + ss[i + 1..];
    FlattenAppend(ss[..i] + one, ss[i + 1..]);
    FlattenAppend(ss[..i], one);
    FlattenAppend(ss[..i] + one', ss[i + 1..]);
    FlattenAppend(ss[..i], one');
    assert Flatten(one) == ss[i] by { assert one[1..] == []; }
    assert Flatten(one') == x by { assert one'[1..] == []; }
  }
}
