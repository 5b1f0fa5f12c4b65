/**
 Sequence helpers used by the tracker: duplicate-freedom, first occurrences, and
 the order-preserving de-duplication that `list(dict.fromkeys(xs))` performs on
 the group list before it is offered as the group filter.
 */
module Lists {

  predicate NoDuplicates<T(==)>(s: seq<T>) {
    forall i, j :: 0 <= i < j < |s| ==> s[i] != s[j]
  }

  /** Position of the first occurrence of `x` in `s`. */
  function FirstIndex<T(==)>(s: seq<T>, x: T): (k: nat)
    requires x in s
    ensures k < |s| && s[k] == x
    ensures forall i :: 0 <= i < k ==> s[i] != x
  {
    if s[0] == x then 0 else 1 + FirstIndex(s[1..], x)
  }

  /** The first occurrence of `x` in a prefix of `s` is its first occurrence in `s`. */
  lemma {:induction false} FirstIndexInPrefix<T>(s: seq<T>, m: nat, x: T)
    requires m <= |s| && x in s[..m]
    ensures x in s && FirstIndex(s, x) == FirstIndex(s[..m], x)
  {
    var k := FirstIndex(s[..m], x);
    assert s[k] == s[..m][k] == x;
    var k' := FirstIndex(s, x);
    assert k' <= k;
    assert s[..m][k'] == x;
  }

  /**
   `list(dict.fromkeys(s))`: walk `s` from the front and keep each element the first
   time it is met. Written over the prefix so that one step is one insertion.
   */
  function Dedup<T(==)>(s: seq<T>): (r: seq<T>)
    ensures NoDuplicates(r)
    ensures forall i :: 0 <= i < |r| ==> r[i] in s
    ensures forall i :: 0 <= i < |s| ==> s[i] in r
    ensures |r| <= |s|
  {
    if s == [] then []
    else
      var d := Dedup(s[..|s| - 1]);
      assert s == s[..|s| - 1] + [s[|s| - 1]];
      if s[|s| - 1] in d then d else d + [s[|s| - 1]]
  }

  /** De-duplication keeps the elements in the order of their first occurrence. */
  lemma {:induction false} DedupKeepsFirstOccurrenceOrder<T>(s: seq<T>)
    ensures forall i, j :: 0 <= i < j < |Dedup(s)| ==>
              FirstIndex(s, Dedup(s)[i]) < FirstIndex(s, Dedup(s)[j])
  {
    if s != [] {
      var n := |s|;
      var p, x := s[..n - 1], s[n - 1];
      assert s[..n - 1] == p;
      DedupKeepsFirstOccurrenceOrder(p);
      var d := Dedup(p);
      forall y | y in d ensures FirstIndex(s, y) == FirstIndex(p, y) < n - 1 {
        FirstIndexInPrefix(s, n - 1, y);
      }
      if x !in d {
        assert x !in p;
        assert FirstIndex(s, x) == n - 1 by {
          forall i | 0 <= i < n - 1 ensures s[i] != x {
            assert s[i] == p[i];
          }
        }
        var r := d + [x];
        assert Dedup(s) == r;
        forall i, j | 0 <= i < j < |r| ensures FirstIndex(s, r[i]) < FirstIndex(s, r[j]) {
          if j < |d| {
            assert r[i] == d[i] && r[j] == d[j];
          } else {
            assert r[i] == d[i] && r[j] == x;
          }
        }
      }
    }
  }

  /** On a list that is already duplicate-free, de-duplication changes nothing. */
  lemma {:induction false} DedupOfDistinct<T>(s: seq<T>)
    requires NoDuplicates(s)
    ensures Dedup(s) == s
  {
    if s != [] {
      var n := |s|;
      var p := s[..n - 1];
      assert NoDuplicates(p);
      DedupOfDistinct(p);
      assert s[n - 1] !in p by {
        forall i | 0 <= i < n - 1 ensures p[i] != s[n - 1] {
          assert p[i] == s[i];
        }
      }
      assert s == p + [s[n - 1]];
    }
  }

  /** De-duplicating twice is the same as de-duplicating once. */
  lemma DedupIdempotent<T>(s: seq<T>)
    ensures Dedup(Dedup(s)) == Dedup(s)
  {
    DedupOfDistinct(Dedup(s));
  }

  /** Appending an element not yet present keeps a list duplicate-free. */
  lemma AppendFreshKeepsDistinct<T>(s: seq<T>, x: T)
    requires NoDuplicates(s) && x !in s
    ensures NoDuplicates(s + [x])
  {
    forall i, j | 0 <= i < j < |s| + 1 ensures (s + [x])[i] != (s + [x])[j] {
      if j == |s| {
        assert (s + [x])[i] == s[i];
      } else {
        assert (s + [x])[i] == s[i] && (s + [x])[j] == s[j];
      }
    }
  }

  lemma AppendFrontKeepsDistinct<T>(x: T, s: seq<T>)
    requires NoDuplicates(s) && x !in s
    ensures NoDuplicates([x] + s)
  {
    forall i, j | 0 <= i < j < |s| + 1 ensures ([x] + s)[i] != ([x] + s)[j] {
      if i == 0 {
        assert ([x] + s)[j] == s[j - 1];
      } else {
        assert ([x] + s)[i] == s[i - 1] && ([x] + s)[j] == s[j - 1];
      }
    }
  }
}
