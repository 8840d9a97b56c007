/** The Ruby `Hash` of HTTP headers that `sign_url` receives from its caller
    and writes `Content-Length` into. Its entries are kept in insertion order,
    as Ruby iterates them, and no key appears twice. */
module Headers {
  import opened Wrappers
  import opened ByteStrings
  import opened Seqs

  type Entries = seq<(Bytes, Bytes)>

  predicate DistinctKeys(es: Entries) {
    forall i, j :: 0 <= i < j < |es| ==> es[i].0 != es[j].0
  }

  /** `hash[key]`. */
  function Get(es: Entries, key: Bytes): Option<Bytes> {
    var i := KeyIndex(es, key);
    if i < |es| then Some(es[i].1) else None
  }

  /** `hash[key] = value`: an existing key keeps its place and takes the new
      value; a new key is added at the end. Afterwards `key` maps to `value`,
      every other key to what it mapped to before, and no key is repeated. */
  function Put(es: Entries, key: Bytes, value: Bytes): (r: Entries)
    ensures Get(r, key) == Some(value)
    ensures forall k :: k != key ==> Get(r, k) == Get(es, k)
    ensures DistinctKeys(es) ==> DistinctKeys(r)
    ensures Get(es, key).Some? ==> |r| == |es| && forall j :: 0 <= j < |es| ==> r[j].0 == es[j].0
    ensures Get(es, key).None? ==> r == es + [(key, value)]
  {
    var i := KeyIndex(es, key);
    if i < |es| then
      var r := es[i := (key, value)];
      assert KeyIndex(r, key) == i by {
        assert r[i].0 == key;
        assert forall j :: 0 <= j < i ==> r[j] == es[j];
      }
      forall k | k != key ensures Get(r, k) == Get(es, k) {
        KeyIndexUpdate(es, i, key, value, k);
      }
      r
    else
      var r := es + [(key, value)];
      assert KeyIndex(r, key) == |es| by {
        assert r[|es|].0 == key;
        assert forall j :: 0 <= j < |es| ==> r[j] == es[j];
      }
      forall k | k != key ensures Get(r, k) == Get(es, k) {
        KeyIndexAppend(es, key, value, k);
      }
      r
  }

  lemma {:induction false} KeyIndexUpdate(es: Entries, i: nat, key: Bytes, value: Bytes, k: Bytes)
    requires i < |es| && es[i].0 == key && k != key
    ensures KeyIndex(es[i := (key, value)], k) == KeyIndex(es, k)
    ensures Get(es[i := (key, value)], k) == Get(es, k)
    decreases |es|
  {
    var r := es[i := (key, value)];
    if es[0].0 != k && 0 < i {
      assert r[1..] == es[1..][i - 1 := (key, value)];
      KeyIndexUpdate(es[1..], i - 1, key, value, k);
    }
  }

  lemma {:induction false} KeyIndexAppend(es: Entries, key: Bytes, value: Bytes, k: Bytes)
    requires k != key
    ensures KeyIndex(es + [(key, value)], k) == if KeyIndex(es, k) < |es| then KeyIndex(es, k) else |es| + 1
    ensures Get(es + [(key, value)], k) == Get(es, k)
    decreases |es|
  {
    var r := es + [(key, value)];
    if es == [] {
      assert r[1..] == [];
    } else if es[0].0 != k {
      assert r[1..] == es[1..] + [(key, value)];
      KeyIndexAppend(es[1..], key, value, k);
    }
  }

  /** A header hash: a Ruby `Hash` from header names to values. */
  class HeaderHash {
    var entries: Entries

    predicate Valid()
      reads this
    {
      DistinctKeys(entries)
    }

    /** `{}`. */
    constructor ()
      ensures Valid() && entries == []
    {
      entries := [];
    }

    /** `hash[key] = value`, in place. */
    method Store(key: Bytes, value: Bytes)
      requires Valid()
      modifies this
      ensures Valid()
      ensures entries == Put(old(entries), key, value)
    {
      entries := Put(entries, key, value);
    }
  }
}
