/**
 String operations the tracker borrows from Python: `str.strip()` (applied to a note
 before it is stored) and `sorted()` on project names, which orders strings by
 comparing code points from the left.
 */
module Text {
  import opened Lists

  /** Python's `str.isspace()` for one character: the characters `str.strip()` removes. */
  predicate IsSpace(c: char)
    ensures c == ' ' || c == '\t' || c == '\n' || c == '\r' ==> IsSpace(c)
    ensures '!' <= c <= '~' ==> !IsSpace(c)
  {
    ('\t' <= c <= '\r') || ('\U{1C}' <= c <= '\U{1F}') || c == ' ' ||
    c == '\U{85}' || c == '\U{A0}' || c == '\U{1680}' ||
    ('\U{2000}' <= c <= '\U{200A}') || c == '\U{2028}' || c == '\U{2029}' ||
    c == '\U{202F}' || c == '\U{205F}' || c == '\U{3000}'
  }

  predicate AllSpace(s: string) {
    forall i :: 0 <= i < |s| ==> IsSpace(s[i])
  }

  /** Drop leading whitespace. */
  function TrimStart(s: string): (r: string)
    ensures |r| <= |s| && r == s[|s| - |r|..]
    ensures AllSpace(s[..|s| - |r|])
    ensures r == [] || !IsSpace(r[0])
  {
    if s != [] && IsSpace(s[0]) then
      var t := TrimStart(s[1..]);
      assert s[1..][..|s| - 1 - |t|] == s[1..|s| - |t|];
      t
    else s
  }

  /** Drop trailing whitespace. */
  function TrimEnd(s: string): (r: string)
    ensures |r| <= |s| && r == s[..|r|]
    ensures AllSpace(s[|r|..])
    ensures r == [] || !IsSpace(r[|r| - 1])
  {
    if s != [] && IsSpace(s[|s| - 1]) then
      var t := TrimEnd(s[..|s| - 1]);
      assert s[..|s| - 1][|t|..] == s[|t|..|s| - 1];
      forall k | |t| <= k < |s| ensures IsSpace(s[k]) {
        if k < |s| - 1 { assert s[k] == s[..|s| - 1][|t|..][k - |t|]; }
      }
      t
    else s
  }

  /**
   `str.strip()`: the longest piece of `s` that neither starts nor ends with
   whitespace, obtained by cutting whitespace off both ends.
   */
  function Strip(s: string): (r: string)
    ensures |r| <= |s|
    ensures r == [] || (!IsSpace(r[0]) && !IsSpace(r[|r| - 1]))
  {
    TrimEnd(TrimStart(s))
  }

  /** What `Strip` removes is whitespace at the two ends and nothing else. */
  lemma StripCutsWhitespace(s: string)
    ensures exists i :: 0 <= i <= i + |Strip(s)| <= |s| && Strip(s) == s[i..i + |Strip(s)|] &&
                        AllSpace(s[..i]) && AllSpace(s[i + |Strip(s)|..])
  {
    var t := TrimStart(s);
    var r := TrimEnd(t);
    var i := |s| - |t|;
    assert t == s[i..] && AllSpace(s[..i]);
    assert r == s[i..i + |r|] by { assert r == t[..|r|]; }
    assert AllSpace(s[i + |r|..]) by { assert s[i + |r|..] == t[|r|..]; }
  }

  /** Stripping a stripped note changes nothing. */
  lemma StripIdempotent(s: string)
    ensures Strip(Strip(s)) == Strip(s)
  {
    var r := Strip(s);
    NoSpaceEndsStripsToItself(r);
  }

  /** A string without whitespace at either end is its own strip. */
  lemma {:induction false} NoSpaceEndsStripsToItself(s: string)
    requires s == [] || (!IsSpace(s[0]) && !IsSpace(s[|s| - 1]))
    ensures Strip(s) == s
  {
    assert TrimStart(s) == s;
    assert TrimEnd(s) == s;
  }

  /** A note strips to the empty string exactly when it is all whitespace. */
  lemma {:induction false} StripEmptyIffAllSpace(s: string)
    ensures Strip(s) == [] <==> AllSpace(s)
  {
    if AllSpace(s) && s != [] {
      var r := Strip(s);
    }
    if Strip(s) == [] {
      StripCutsWhitespace(s);
      var i :| 0 <= i <= |s| && AllSpace(s[..i]) && AllSpace(s[i..]);
      forall k | 0 <= k < |s| ensures IsSpace(s[k]) {
        if k < i { assert s[..i][k] == s[k]; } else { assert s[i..][k - i] == s[k]; }
      }
    }
  }

  /**
   Python's `<=` on `str`: compare code points from the left; a proper prefix comes
   first.
   */
  predicate LexLe(a: string, b: string)
    ensures a <= b ==> LexLe(a, b)
    ensures b < a ==> !LexLe(a, b)
  {
    LexLeFrom(a, b, 0)
  }

  /** The comparison from position `i` on, the two strings agreeing before it. */
  predicate LexLeFrom(a: string, b: string, i: nat)
    ensures a <= b ==> LexLeFrom(a, b, i)
    ensures b < a && i <= |b| ==> !LexLeFrom(a, b, i)
    decreases |a| - i
  {
    if i >= |a| then true
    else if i >= |b| then false
    else if a[i] != b[i] then a[i] < b[i]
    else LexLeFrom(a, b, i + 1)
  }

  lemma {:induction false} LexLeTotal(a: string, b: string)
    ensures LexLe(a, b) || LexLe(b, a)
  {
    LexLeFromTotal(a, b, 0);
  }

  lemma {:induction false} LexLeFromTotal(a: string, b: string, i: nat)
    ensures LexLeFrom(a, b, i) || LexLeFrom(b, a, i)
    decreases |a| - i
  {
    if i < |a| && i < |b| && a[i] == b[i] {
      LexLeFromTotal(a, b, i + 1);
    }
  }

  lemma {:induction false} LexLeAntisymmetric(a: string, b: string)
    requires LexLe(a, b) && LexLe(b, a)
    ensures a == b
  {
    LexLeFromAntisymmetric(a, b, 0);
  }

  lemma {:induction false} LexLeFromAntisymmetric(a: string, b: string, i: nat)
    requires i <= |a| && i <= |b| && a[..i] == b[..i]
    requires LexLeFrom(a, b, i) && LexLeFrom(b, a, i)
    ensures a == b
    decreases |a| - i
  {
    if i < |a| && i < |b| {
      assert a[..i + 1] == a[..i] + [a[i]] && b[..i + 1] == b[..i] + [b[i]];
      LexLeFromAntisymmetric(a, b, i + 1);
    } else {
      assert a == a[..i] && b == b[..i];
    }
  }

  lemma {:induction false} LexLeTransitive(a: string, b: string, c: string)
    requires LexLe(a, b) && LexLe(b, c)
    ensures LexLe(a, c)
  {
    LexLeFromTransitive(a, b, c, 0);
  }

  lemma {:induction false} LexLeFromTransitive(a: string, b: string, c: string, i: nat)
    requires LexLeFrom(a, b, i) && LexLeFrom(b, c, i)
    ensures LexLeFrom(a, c, i)
    decreases |a| - i
  {
    if i < |a| && i < |b| && i < |c| && a[i] == b[i] == c[i] {
      LexLeFromTransitive(a, b, c, i + 1);
    }
  }

  predicate Sorted(s: seq<string>) {
    forall i, j :: 0 <= i < j < |s| ==> LexLe(s[i], s[j])
  }

  /** A string no greater than every element of a sorted list can go in front of it. */
  lemma PrependSorted(y: string, t: seq<string>)
    requires Sorted(t)
    requires forall k :: 0 <= k < |t| ==> LexLe(y, t[k])
    ensures Sorted([y] + t)
  {
    forall i, j | 0 <= i < j < |t| + 1 ensures LexLe(([y] + t)[i], ([y] + t)[j]) {
      if i == 0 {
        assert ([y] + t)[j] == t[j - 1];
      } else {
        assert ([y] + t)[i] == t[i - 1] && ([y] + t)[j] == t[j - 1];
      }
    }
  }

  /** Put `x` in front of the first element it does not exceed. */
  function Insert(x: string, s: seq<string>): (r: seq<string>)
    ensures |r| == |s| + 1
  {
    if s == [] then [x]
    else if LexLe(x, s[0]) then [x] + s
    else [s[0]] + Insert(x, s[1..])
  }

  /** Inserting adds exactly `x`. */
  lemma {:induction false} InsertPermutes(x: string, s: seq<string>)
    ensures multiset(Insert(x, s)) == multiset(s) + multiset{x}
  {
    if s != [] && !LexLe(x, s[0]) {
      assert s == [s[0]] + s[1..];
      InsertPermutes(x, s[1..]);
    }
  }

  /** Inserting into a sorted list keeps it sorted. */
  lemma {:induction false} InsertSorted(x: string, s: seq<string>)
    requires Sorted(s)
    ensures Sorted(Insert(x, s))
  {
    if s == [] {
    } else if LexLe(x, s[0]) {
      forall k | 0 <= k < |s| ensures LexLe(x, s[k]) {
        if k > 0 { LexLeTransitive(x, s[0], s[k]); }
      }
      PrependSorted(x, s);
    } else {
      SortedTail(s);
      var t := Insert(x, s[1..]);
      InsertSorted(x, s[1..]);
      InsertPermutes(x, s[1..]);
      InsertedAbove(x, s, t);
      PrependSorted(s[0], t);
    }
  }

  /** When `x` goes after the head, the head stays below everything inserted after it. */
  lemma InsertedAbove(x: string, s: seq<string>, t: seq<string>)
    requires Sorted(s) && s != [] && !LexLe(x, s[0])
    requires multiset(t) == multiset(s[1..]) + multiset{x}
    ensures forall k :: 0 <= k < |t| ==> LexLe(s[0], t[k])
  {
    LexLeTotal(x, s[0]);
    forall k | 0 <= k < |t| ensures LexLe(s[0], t[k]) {
      assert t[k] in multiset(t);
      if t[k] != x {
        assert t[k] in multiset(s[1..]);
        var i :| 0 <= i < |s[1..]| && s[1..][i] == t[k];
        assert s[i + 1] == t[k];
      }
    }
  }

  /** `sorted(names)` for strings: insertion sort under `LexLe`. */
  function Sort(s: seq<string>): (r: seq<string>)
    ensures |r| == |s|
  {
    if s == [] then [] else Insert(s[0], Sort(s[1..]))
  }

  /** `Sort` returns a rearrangement of its input in ascending order. */
  lemma {:induction false} SortSorted(s: seq<string>)
    ensures Sorted(Sort(s))
    ensures multiset(Sort(s)) == multiset(s)
  {
    if s != [] {
      assert s == [s[0]] + s[1..];
      SortSorted(s[1..]);
      InsertSorted(s[0], Sort(s[1..]));
      InsertPermutes(s[0], Sort(s[1..]));
    }
  }

  /** A list without repeats has each element once in its multiset. */
  lemma {:induction false} DistinctCountsOne<T>(s: seq<T>, x: T)
    requires NoDuplicates(s)
    ensures multiset(s)[x] <= 1
  {
    if s != [] {
      assert s == [s[0]] + s[1..];
      assert NoDuplicates(s[1..]);
      DistinctCountsOne(s[1..], x);
      if s[0] == x {
        assert x !in s[1..];
      }
    }
  }

  /** A rearrangement of a list without repeats has no repeats. */
  lemma PermutationKeepsDistinct<T>(s: seq<T>, t: seq<T>)
    requires NoDuplicates(s) && multiset(t) == multiset(s)
    ensures NoDuplicates(t)
  {
    forall i, j | 0 <= i < j < |t| ensures t[i] != t[j] {
      if t[i] == t[j] {
        assert t == t[..j] + t[j..];
        assert t[i] in multiset(t[..j]) && t[j] in multiset(t[j..]);
        assert multiset(t)[t[i]] == multiset(t[..j])[t[i]] + multiset(t[j..])[t[i]];
        DistinctCountsOne(s, t[i]);
      }
    }
  }

  /** Sorting project names that are unique keeps them unique. */
  lemma SortKeepsDistinct(s: seq<string>)
    requires NoDuplicates(s)
    ensures NoDuplicates(Sort(s))
  {
    SortSorted(s);
    PermutationKeepsDistinct(s, Sort(s));
  }

  /** Sorting with `LexLe` determines the order: a sorted permutation of `s` is `Sort(s)`. */
  lemma {:induction false} SortedPermutationIsSort(s: seq<string>, t: seq<string>)
    requires Sorted(t) && multiset(t) == multiset(s)
    ensures t == Sort(s)
  {
    SortSorted(s);
    SortedSameElementsEqual(t, Sort(s));
  }

  lemma {:induction false} SortedSameElementsEqual(a: seq<string>, b: seq<string>)
    requires Sorted(a) && Sorted(b) && multiset(a) == multiset(b)
    ensures a == b
  {
    if a != [] {
      SortedHeadsAgree(a, b);
      var x := a[0];
      assert a == [x] + a[1..] && b == [x] + b[1..];
      assert multiset(a) == multiset{x} + multiset(a[1..]);
      assert multiset(b) == multiset{x} + multiset(b[1..]);
      assert multiset(a[1..]) == multiset(b[1..]) by {
        assert multiset(a[1..]) == multiset(a) - multiset{x};
        assert multiset(b[1..]) == multiset(b) - multiset{x};
      }
      SortedTail(a);
      SortedTail(b);
      SortedSameElementsEqual(a[1..], b[1..]);
    }
  }

  lemma SortedTail(a: seq<string>)
    requires Sorted(a) && a != []
    ensures Sorted(a[1..])
  {
    forall i, j | 0 <= i < j < |a| - 1 ensures LexLe(a[1..][i], a[1..][j]) {
      assert a[1..][i] == a[i + 1] && a[1..][j] == a[j + 1];
    }
  }

  /** Two sorted lists with the same elements start with the same element. */
  lemma SortedHeadsAgree(a: seq<string>, b: seq<string>)
    requires Sorted(a) && Sorted(b) && multiset(a) == multiset(b) && a != []
    ensures b != [] && a[0] == b[0]
  {
    assert a[0] in multiset(b);
    var i :| 0 <= i < |b| && b[i] == a[0];
    assert b[0] in multiset(a);
    var j :| 0 <= j < |a| && a[j] == b[0];
    if i > 0 && j > 0 {
      assert LexLe(b[0], b[i]) && LexLe(a[0], a[j]);
      LexLeAntisymmetric(a[0], b[0]);
    }
  }
}
