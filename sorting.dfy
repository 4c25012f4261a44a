/**
 The `array.sort.uniq` step that opens every call of `build_tree`.

 Ruby's `Array#sort` and `Array#uniq` are library calls; their algorithm is not
 part of this model. What the tree construction relies on is their result: the
 input's values, ascending, each once. `SortUniq` is one function with that
 result, and `StrictlySortedUnique` shows that the result is the only sequence
 with those properties, so any sorting algorithm gives the same sequence.
 */
module Sorting {

  /** Every element is smaller than every later one (ascending, no duplicates). */
  predicate StrictlySorted(s: seq<int>) {
    forall i, j :: 0 <= i < j < |s| ==> s[i] < s[j]
  }

  /** The set of values occurring in `s`. */
  function Elems(s: seq<int>): set<int> {
    set x | x in s
  }

  /** Only the empty sequence has no values. */
  lemma ElemsEmpty(s: seq<int>)
    ensures Elems(s) == {} <==> s == []
  {
    if s != [] {
      assert s[0] in Elems(s);
    }
  }

  /** The values of `[x] + s`. */
  lemma ElemsCons(x: int, s: seq<int>)
    ensures Elems([x] + s) == {x} + Elems(s)
  {
    assert forall y :: y in [x] + s <==> y == x || y in s;
  }

  /** The values of `s` are those before index `m`, the one at `m`, and those after it. */
  lemma ElemsAroundMiddle(s: seq<int>)
    requires |s| >= 1
    ensures var m := |s| / 2;
      Elems(s) == Elems(s[..m]) + {s[m]} + Elems(s[m + 1..])
  {
    var m := |s| / 2;
    assert s == s[..m] + [s[m]] + s[m + 1..];
    assert forall y :: y in s <==> y in s[..m] || y == s[m] || y in s[m + 1..];
  }

  /** `l + [x] + r` is strictly sorted exactly when `l` and `r` are and `x` lies
      strictly between the values of `l` and those of `r`. */
  lemma StrictlySortedAroundPivot(l: seq<int>, x: int, r: seq<int>)
    ensures StrictlySorted(l + [x] + r) <==>
      && StrictlySorted(l)
      && StrictlySorted(r)
      && (forall v :: v in Elems(l) ==> v < x)
      && (forall v :: v in Elems(r) ==> x < v)
  {
    if StrictlySorted(l + [x] + r) {
      SortedAroundPivotSplits(l, x, r);
    }
    if && StrictlySorted(l) && StrictlySorted(r)
       && (forall v :: v in Elems(l) ==> v < x)
       && (forall v :: v in Elems(r) ==> x < v)
    {
      SortedAroundPivotJoins(l, x, r);
    }
  }

  lemma SortedAroundPivotSplits(l: seq<int>, x: int, r: seq<int>)
    requires StrictlySorted(l + [x] + r)
    ensures StrictlySorted(l) && StrictlySorted(r)
    ensures forall v :: v in Elems(l) ==> v < x
    ensures forall v :: v in Elems(r) ==> x < v
  {
    var s := l + [x] + r;
    assert forall i :: 0 <= i < |l| ==> s[i] == l[i];
    assert s[|l|] == x;
    assert forall i :: 0 <= i < |r| ==> s[|l| + 1 + i] == r[i];
    forall v | v in Elems(l) ensures v < x {
      var i :| 0 <= i < |l| && l[i] == v;
    }
    forall v | v in Elems(r) ensures x < v {
      var j :| 0 <= j < |r| && r[j] == v;
      assert s[|l| + 1 + j] == v;
    }
    forall i, j | 0 <= i < j < |r| ensures r[i] < r[j] {
      assert s[|l| + 1 + i] == r[i] && s[|l| + 1 + j] == r[j];
    }
  }

  lemma SortedAroundPivotJoins(l: seq<int>, x: int, r: seq<int>)
    requires StrictlySorted(l) && StrictlySorted(r)
    requires forall v :: v in Elems(l) ==> v < x
    requires forall v :: v in Elems(r) ==> x < v
    ensures StrictlySorted(l + [x] + r)
  {
    var s := l + [x] + r;
    forall i, j | 0 <= i < j < |s| ensures s[i] < s[j] {
      if i < |l| {
        assert s[i] == l[i] && s[i] in Elems(l);
      }
      if j > |l| {
        assert s[j] == r[j - |l| - 1] && s[j] in Elems(r);
      }
      if i > |l| {
        assert s[i] == r[i - |l| - 1];
      }
      if j < |l| {
        assert s[j] == l[j];
      }
    }
  }

  /** A value below every value of a strictly sorted sequence can go in front of it. */
  lemma StrictlySortedCons(x: int, s: seq<int>)
    requires StrictlySorted(s)
    requires forall v :: v in Elems(s) ==> x < v
    ensures StrictlySorted([x] + s)
  {
    var r := [x] + s;
    forall i, j | 0 <= i < j < |r| ensures r[i] < r[j] {
      assert r[j] == s[j - 1] && s[j - 1] in Elems(s);
      if i > 0 {
        assert r[i] == s[i - 1];
      }
    }
  }

  /** Places `x` into the strictly sorted `s`; a value already there is not added again. */
  function Insert(x: int, s: seq<int>): (r: seq<int>)
    requires StrictlySorted(s)
    ensures StrictlySorted(r)
    ensures Elems(r) == Elems(s) + {x}
    ensures |r| <= |s| + 1
  {
    if s == [] then [x]
    else if x < s[0] then
      assert forall v :: v in Elems(s) ==> x < v;
      StrictlySortedCons(x, s);
      ElemsCons(x, s);
      [x] + s
    else if x == s[0] then s
    else
      var rest := Insert(x, s[1..]);
      ElemsCons(s[0], s[1..]);
      ElemsCons(s[0], rest);
      assert s == [s[0]] + s[1..];
      StrictlySortedCons(s[0], rest);
      [s[0]] + rest
  }

  /** The values of `a`, ascending, each once: the result of Ruby's `a.sort.uniq` on integers. */
  function SortUniq(a: seq<int>): (r: seq<int>)
    ensures StrictlySorted(r)
    ensures Elems(r) == Elems(a)
    ensures |r| <= |a|
  {
    if a == [] then []
    else
      ElemsCons(a[0], a[1..]);
      assert a == [a[0]] + a[1..];
      Insert(a[0], SortUniq(a[1..]))
  }

  /** The values of a strictly sorted sequence fix the sequence. */
  lemma {:induction false} StrictlySortedUnique(s: seq<int>, t: seq<int>)
    requires StrictlySorted(s) && StrictlySorted(t)
    requires Elems(s) == Elems(t)
    ensures s == t
  {
    if s == [] || t == [] {
      ElemsEmpty(s);
      ElemsEmpty(t);
    } else {
      assert s[0] in Elems(t);
      assert t[0] in Elems(s);
      assert s[0] == t[0];
      assert Elems(s[1..]) == Elems(s) - {s[0]};
      assert Elems(t[1..]) == Elems(t) - {t[0]};
      StrictlySortedUnique(s[1..], t[1..]);
      assert s == [s[0]] + s[1..];
      assert t == [t[0]] + t[1..];
    }
  }

  /** Sorting and deduplicating a sequence that is already ascending and duplicate-free changes nothing. */
  lemma SortUniqOfStrictlySorted(s: seq<int>)
    requires StrictlySorted(s)
    ensures SortUniq(s) == s
  {
    StrictlySortedUnique(SortUniq(s), s);
  }

  /** The two halves of a strictly sorted sequence around its middle element are
      themselves left alone by `sort.uniq`, and put back together give the sequence. */
  lemma SplitAtMiddle(s: seq<int>)
    requires StrictlySorted(s) && |s| >= 2
    ensures var middle := |s| / 2;
      && SortUniq(s[..middle]) == s[..middle]
      && SortUniq(s[middle + 1..]) == s[middle + 1..]
      && s == s[..middle] + [s[middle]] + s[middle + 1..]
  {
    var middle := |s| / 2;
    assert s == s[..middle] + [s[middle]] + s[middle + 1..];
    SortUniqOfStrictlySorted(s[..middle]);
    SortUniqOfStrictlySorted(s[middle + 1..]);
  }

  /** `sort.uniq` depends only on which values occur: order and repetition do not matter. */
  lemma SortUniqDependsOnlyOnElems(a: seq<int>, b: seq<int>)
    requires Elems(a) == Elems(b)
    ensures SortUniq(a) == SortUniq(b)
  {
    StrictlySortedUnique(SortUniq(a), SortUniq(b));
  }

  /** Applying `sort.uniq` twice gives what applying it once gives. */
  lemma SortUniqIdempotent(a: seq<int>)
    ensures SortUniq(SortUniq(a)) == SortUniq(a)
  {
    SortUniqOfStrictlySorted(SortUniq(a));
  }

  /** A permutation of the input gives the same `sort.uniq`. */
  lemma SortUniqPermutation(a: seq<int>, b: seq<int>)
    requires multiset(a) == multiset(b)
    ensures SortUniq(a) == SortUniq(b)
  {
    assert forall x :: x in a <==> x in multiset(a);
    assert forall x :: x in b <==> x in multiset(b);
    assert Elems(a) == Elems(b);
    SortUniqDependsOnlyOnElems(a, b);
  }

  /** A strictly sorted sequence is as long as its set of values is large. */
  lemma {:induction false} StrictlySortedLength(s: seq<int>)
    requires StrictlySorted(s)
    ensures |Elems(s)| == |s|
  {
    if s != [] {
      StrictlySortedLength(s[1..]);
      ElemsCons(s[0], s[1..]);
      assert s == [s[0]] + s[1..];
      assert s[0] !in Elems(s[1..]);
    }
  }

  /** In a strictly sorted sequence each of its values occurs exactly once. */
  lemma {:induction false} StrictlySortedOccursOnce(s: seq<int>)
    requires StrictlySorted(s)
    ensures multiset(s) == multiset(Elems(s))
  {
    if s != [] {
      StrictlySortedOccursOnce(s[1..]);
      assert s == [s[0]] + s[1..];
      assert s[0] !in Elems(s[1..]);
      assert Elems(s) == {s[0]} + Elems(s[1..]);
      assert multiset(Elems(s)) == multiset{s[0]} + multiset(Elems(s[1..]));
    }
  }
}
