/** `Array#sort` on strings. Ruby compares strings byte by byte, a proper
    prefix ordering first; that order is total, so the sorted permutation of
    a list is unique and `sort` forgets the order it was given. */
module Sorting {
  import opened ByteStrings
  import opened Seqs

  /** `a <= b` under `String#<=>`. */
  predicate LexLe(a: Bytes, b: Bytes)
  {
    a == [] || (b != [] && (a[0] < b[0] || (a[0] == b[0] && LexLe(a[1..], b[1..]))))
  }

  lemma {:induction false} LexLeTotal(a: Bytes, b: Bytes)
    ensures LexLe(a, b) || LexLe(b, a)
    decreases |a|
  {
    if a != [] && b != [] && a[0] == b[0] {
      LexLeTotal(a[1..], b[1..]);
    }
  }

  lemma {:induction false} LexLeAntisymmetric(a: Bytes, b: Bytes)
    requires LexLe(a, b) && LexLe(b, a)
    ensures a == b
    decreases |a|
  {
    if a != [] {
      LexLeAntisymmetric(a[1..], b[1..]);
      assert a == [a[0]] + a[1..] && b == [b[0]] + b[1..];
    }
  }

  lemma {:induction false} LexLeTransitive(a: Bytes, b: Bytes, c: Bytes)
    requires LexLe(a, b) && LexLe(b, c)
    ensures LexLe(a, c)
    decreases |a|
  {
    if a != [] && a[0] == b[0] && b[0] == c[0] {
      LexLeTransitive(a[1..], b[1..], c[1..]);
    }
  }

  ghost predicate Sorted(s: seq<Bytes>) {
    forall i, j :: 0 <= i < j < |s| ==> LexLe(s[i], s[j])
  }

  /** The head of a sorted list is below every string in it. */
  lemma SortedHeadLe(a: seq<Bytes>, y: Bytes)
    requires Sorted(a) && y in multiset(a)
    ensures LexLe(a[0], y)
  {
    var i :| 0 <= i < |a| && a[i] == y;
    if i == 0 { LexLeTotal(y, y); }
  }

  lemma SortedTail(a: seq<Bytes>)
    requires Sorted(a) && a != []
    ensures Sorted(a[1..])
  {
    forall i, j | 0 <= i < j < |a| - 1 ensures LexLe(a[1..][i], a[1..][j]) {
      assert a[1..][i] == a[i + 1] && a[1..][j] == a[j + 1];
    }
  }

  lemma ConsMultiset(a: seq<Bytes>)
    requires a != []
    ensures multiset(a) == multiset(a[1..]) + multiset{a[0]}
  {
    assert a == [a[0]] + a[1..];
  }

  /** A string below every string of a sorted list can be put before it. */
  lemma SortedCons(x: Bytes, s: seq<Bytes>)
    requires Sorted(s) && forall y :: y in multiset(s) ==> LexLe(x, y)
    ensures Sorted([x] + s)
  {
    forall i, j | 0 <= i < j < |s| + 1 ensures LexLe(([x] + s)[i], ([x] + s)[j]) {
      if i == 0 {
        assert s[j - 1] in multiset(s);
      } else {
        assert ([x] + s)[i] == s[i - 1] && ([x] + s)[j] == s[j - 1];
      }
    }
  }

  /** Insertion of one string into a sorted list. */
  function Insert(x: Bytes, s: seq<Bytes>): (r: seq<Bytes>)
    requires Sorted(s)
    ensures Sorted(r)
    ensures multiset(r) == multiset(s) + multiset{x}
  {
    if s == [] then [x]
    else if LexLe(x, s[0]) then
      assert Sorted([x] + s) by {
        forall y | y in multiset(s) ensures LexLe(x, y) {
          SortedHeadLe(s, y);
          LexLeTransitive(x, s[0], y);
        }
        SortedCons(x, s);
      }
      [x] + s
    else
      SortedTail(s);
      var rest := Insert(x, s[1..]);
      ConsMultiset(s);
      assert Sorted([s[0]] + rest) by {
        forall y | y in multiset(rest) ensures LexLe(s[0], y) {
          if y == x {
            LexLeTotal(x, s[0]);
          } else {
            assert y in multiset(s);
            SortedHeadLe(s, y);
          }
        }
        SortedCons(s[0], rest);
      }
      [s[0]] + rest
  }

  /** `Array#sort`. */
  function Sort(s: seq<Bytes>): (r: seq<Bytes>)
    ensures Sorted(r)
    ensures multiset(r) == multiset(s)
  {
    if s == [] then []
    else
      ConsMultiset(s);
      Insert(s[0], Sort(s[1..]))
  }

  /** Two sorted lists holding the same strings are the same list. */
  lemma {:induction false} SortedUnique(a: seq<Bytes>, b: seq<Bytes>)
    requires Sorted(a) && Sorted(b)
    requires multiset(a) == multiset(b)
    ensures a == b
    decreases |a|
  {
    if a == [] {
      assert |b| == |multiset(b)| == 0;
    } else {
      assert b != [] by { assert a[0] in multiset(b); }
      SortedHeadLe(a, b[0]);
      SortedHeadLe(b, a[0]);
      LexLeAntisymmetric(a[0], b[0]);
      ConsMultiset(a);
      ConsMultiset(b);
      MultisetCancel(multiset(a[1..]), multiset(b[1..]), a[0]);
      SortedTail(a);
      SortedTail(b);
      SortedUnique(a[1..], b[1..]);
      assert a == [a[0]] + a[1..] && b == [b[0]] + b[1..];
    }
  }

  /** The sorted output is the one sorted permutation of the input. */
  lemma SortCharacterized(s: seq<Bytes>, r: seq<Bytes>)
    requires Sorted(r) && multiset(r) == multiset(s)
    ensures r == Sort(s)
  {
    SortedUnique(r, Sort(s));
  }

  /** Sorting forgets the order of its input. */
  lemma SortPermutationInvariant(s: seq<Bytes>, t: seq<Bytes>)
    requires multiset(s) == multiset(t)
    ensures Sort(s) == Sort(t)
  {
    SortedUnique(Sort(s), Sort(t));
  }
}
