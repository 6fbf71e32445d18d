/** Generic sequence operations the storefront is built from: JavaScript's
    `Array.prototype.filter` (`Select`), `Array.prototype.some` with
    `includes` (`SharesElement`), insertion-ordered de-duplication through a
    `Set` (`Distinct`), and the add-or-remove toggle of a selection list. The
    subsequence relation and duplicate-freedom are the specifications these
    are proved against. */
module Seqs {

  /** `a` is obtained from `b` by deleting elements, keeping the order. */
  predicate IsSubsequence<T(==,!new)>(a: seq<T>, b: seq<T>)
    decreases |b|
  {
    || |a| == 0
    || (&& |b| > 0
        && (|| (a[0] == b[0] && IsSubsequence(a[1..], b[1..]))
            || IsSubsequence(a, b[1..])))
  }

  predicate NoDuplicates<T(==,!new)>(s: seq<T>) {
    forall i, j :: 0 <= i < j < |s| ==> s[i] != s[j]
  }

  /** The positions of `s` whose element `keep` accepts. */
  ghost function PositionsWhere<T(!new)>(s: seq<T>, keep: T -> bool): set<int> {
    set i | 0 <= i < |s| && keep(s[i])
  }

  /** `s.filter(keep)`: the elements `keep` accepts, in their original order. */
  function Select<T(==,!new)>(s: seq<T>, keep: T -> bool): (r: seq<T>)
    ensures |r| <= |s|
    ensures forall x :: x in r <==> x in s && keep(x)
    ensures forall i :: 0 <= i < |r| ==> keep(r[i])
  {
    if |s| == 0 then []
    else if keep(s[0]) then [s[0]] + Select(s[1..], keep)
    else Select(s[1..], keep)
  }

  lemma SubsequenceOfCons<T(!new)>(a: seq<T>, x: T, b: seq<T>)
    requires IsSubsequence(a, b)
    ensures IsSubsequence(a, [x] + b)
  {
    assert ([x] + b)[1..] == b;
  }

  lemma {:induction false} SelectIsSubsequence<T(!new)>(s: seq<T>, keep: T -> bool)
    ensures IsSubsequence(Select(s, keep), s)
  {
    if |s| > 0 {
      SelectIsSubsequence(s[1..], keep);
      var r := Select(s, keep);
      if keep(s[0]) {
        assert r[0] == s[0] && r[1..] == Select(s[1..], keep);
      } else if |r| > 0 {
        assert IsSubsequence(r, s[1..]);
      }
    }
  }

  /** Each element occurs in the result exactly as often as in `s` when it is
      accepted, and not at all otherwise: nothing is duplicated or dropped. */
  lemma {:induction false} SelectMultiplicity<T(!new)>(s: seq<T>, keep: T -> bool, x: T)
    ensures multiset(Select(s, keep))[x] == if keep(x) then multiset(s)[x] else 0
  {
    if |s| > 0 {
      SelectMultiplicity(s[1..], keep, x);
      assert s == [s[0]] + s[1..];
      assert multiset(s) == multiset{s[0]} + multiset(s[1..]);
      if keep(s[0]) {
        assert multiset(Select(s, keep)) == multiset{s[0]} + multiset(Select(s[1..], keep));
      }
    }
  }

  lemma SelectMultiplicities<T(!new)>(s: seq<T>, keep: T -> bool)
    ensures forall x :: multiset(Select(s, keep))[x] == if keep(x) then multiset(s)[x] else 0
  {
    forall x
      ensures multiset(Select(s, keep))[x] == if keep(x) then multiset(s)[x] else 0
    {
      SelectMultiplicity(s, keep, x);
    }
  }

  lemma {:induction false} SelectAppend<T(!new)>(a: seq<T>, b: seq<T>, keep: T -> bool)
    ensures Select(a + b, keep) == Select(a, keep) + Select(b, keep)
  {
    if |a| == 0 {
      assert a + b == b;
    } else {
      assert (a + b)[0] == a[0];
      assert (a + b)[1..] == a[1..] + b;
      SelectAppend(a[1..], b, keep);
    }
  }

  /** When `keep` accepts every element, filtering changes nothing. */
  lemma {:induction false} SelectKeepsAll<T(!new)>(s: seq<T>, keep: T -> bool)
    requires forall i :: 0 <= i < |s| ==> keep(s[i])
    ensures Select(s, keep) == s
  {
    if |s| > 0 {
      SelectKeepsAll(s[1..], keep);
      assert s == [s[0]] + s[1..];
    }
  }

  lemma SelectIdempotent<T(!new)>(s: seq<T>, keep: T -> bool)
    ensures Select(Select(s, keep), keep) == Select(s, keep)
  {
    SelectKeepsAll(Select(s, keep), keep);
  }

  /** Two tests that agree on every element of `s` select the same elements. */
  lemma {:induction false} SelectCongruent<T(!new)>(s: seq<T>, k1: T -> bool, k2: T -> bool)
    requires forall i :: 0 <= i < |s| ==> k1(s[i]) == k2(s[i])
    ensures Select(s, k1) == Select(s, k2)
  {
    if |s| > 0 {
      SelectCongruent(s[1..], k1, k2);
    }
  }

  /** A test that implies another selects a subsequence of what the other
      selects. */
  lemma {:induction false} SelectMonotone<T(!new)>(s: seq<T>, k1: T -> bool, k2: T -> bool)
    requires forall i :: 0 <= i < |s| && k1(s[i]) ==> k2(s[i])
    ensures IsSubsequence(Select(s, k1), Select(s, k2))
  {
    if |s| > 0 {
      SelectMonotone(s[1..], k1, k2);
      var r1, r2 := Select(s, k1), Select(s, k2);
      if k1(s[0]) {
        assert r1[0] == r2[0] && r1[1..] == Select(s[1..], k1) && r2[1..] == Select(s[1..], k2);
      } else if k2(s[0]) {
        SubsequenceOfCons(r1, s[0], Select(s[1..], k2));
      }
    }
  }

  lemma {:induction false} SelectKeepsNoDuplicates<T(!new)>(s: seq<T>, keep: T -> bool)
    requires NoDuplicates(s)
    ensures NoDuplicates(Select(s, keep))
  {
    if |s| > 0 {
      assert NoDuplicates(s[1..]);
      SelectKeepsNoDuplicates(s[1..], keep);
      if keep(s[0]) {
        var rest := Select(s[1..], keep);
        assert s[0] !in s[1..];
        assert s[0] !in rest;
        var r := [s[0]] + rest;
        forall i, j | 0 <= i < j < |r|
          ensures r[i] != r[j]
        {
          if i == 0 {
            assert r[j] == rest[j - 1];
          } else {
            assert r[i] == rest[i - 1] && r[j] == rest[j - 1];
          }
        }
      }
    }
  }

  /** The length of `s.filter(keep)` is the number of positions `keep` accepts. */
  lemma {:induction false} SelectLengthCountsPositions<T(!new)>(s: seq<T>, keep: T -> bool)
    ensures |Select(s, keep)| == |PositionsWhere(s, keep)|
    decreases |s|
  {
    if |s| == 0 {
      assert PositionsWhere(s, keep) == {};
    } else {
      var n := |s| - 1;
      var init, last := s[..n], s[n];
      assert s == init + [last];
      SelectLengthCountsPositions(init, keep);
      SelectAppend(init, [last], keep);
      assert [last][1..] == [];
      var before := PositionsWhere(init, keep);
      if keep(last) {
        assert PositionsWhere(s, keep) == before + {n};
        assert n !in before;
      } else {
        assert PositionsWhere(s, keep) == before;
      }
    }
  }

  /** `xs.some(x => ys.includes(x))`. */
  function SharesElement<T(==,!new)>(xs: seq<T>, ys: seq<T>): (r: bool)
    ensures r <==> exists x :: x in xs && x in ys
  {
    if |xs| == 0 then false
    else xs[0] in ys || SharesElement(xs[1..], ys)
  }

  /** The position of the first occurrence of `x` in `s`. */
  function FirstIndex<T(==,!new)>(s: seq<T>, x: T): (i: nat)
    requires x in s
    ensures i < |s| && s[i] == x && x !in s[..i]
  {
    if s[0] == x then 0
    else
      assert s[1..][..FirstIndex(s[1..], x)] == s[1..1 + FirstIndex(s[1..], x)];
      1 + FirstIndex(s[1..], x)
  }

  lemma FirstIndexUnique<T(!new)>(s: seq<T>, x: T, i: nat)
    requires i < |s| && s[i] == x && x !in s[..i]
    ensures FirstIndex(s, x) == i
  {
  }

  /** `Array.from(new Set(s))`: a `Set` remembers insertion order and ignores
      repeated insertions, so the result keeps each element's first
      occurrence. */
  function Distinct<T(==,!new)>(s: seq<T>): (r: seq<T>)
    ensures NoDuplicates(r)
    ensures forall x :: x in r <==> x in s
  {
    if |s| == 0 then []
    else
      var init, last := s[..|s| - 1], s[|s| - 1];
      assert s == init + [last];
      var d := Distinct(init);
      if last in d then d else d + [last]
  }

  /** `Distinct` lists elements in the order of their first occurrence. */
  lemma {:induction false} DistinctFirstOccurrenceOrder<T(!new)>(s: seq<T>)
    ensures forall i, j :: 0 <= i < j < |Distinct(s)| ==>
              FirstIndex(s, Distinct(s)[i]) < FirstIndex(s, Distinct(s)[j])
  {
    if |s| > 0 {
      var n := |s| - 1;
      var init, last := s[..n], s[n];
      assert s == init + [last];
      DistinctFirstOccurrenceOrder(init);
      var d := Distinct(init);
      var r := Distinct(s);
      forall y | y in init
        ensures FirstIndex(s, y) == FirstIndex(init, y)
      {
        var k := FirstIndex(init, y);
        assert s[..k] == init[..k];
        FirstIndexUnique(s, y, k);
      }
      if last !in d {
        assert last !in s[..n];
        FirstIndexUnique(s, last, n);
        forall i, j | 0 <= i < j < |r|
          ensures FirstIndex(s, r[i]) < FirstIndex(s, r[j])
        {
          assert r[i] == d[i] && r[i] in init;
          if j == |d| {
            assert FirstIndex(init, r[i]) < n;
          } else {
            assert r[j] == d[j] && r[j] in init;
          }
        }
      } else {
        forall i, j | 0 <= i < j < |r|
          ensures FirstIndex(s, r[i]) < FirstIndex(s, r[j])
        {
          assert r[i] in init && r[j] in init;
        }
      }
    }
  }

  /** `xs.filter(w => w !== v)`: every occurrence of `v` removed. */
  function Without<T(==,!new)>(xs: seq<T>, v: T): (r: seq<T>)
    ensures v !in r
    ensures forall w :: w != v ==> (w in r <==> w in xs)
    ensures forall w :: w != v ==> multiset(r)[w] == multiset(xs)[w]
    ensures IsSubsequence(r, xs)
    ensures v !in xs ==> r == xs
  {
    SelectIsSubsequence(xs, (w: T) => w != v);
    SelectMultiplicities(xs, (w: T) => w != v);
    if v !in xs then SelectKeepsAll(xs, (w: T) => w != v); Select(xs, (w: T) => w != v)
    else Select(xs, (w: T) => w != v)
  }

  /** Remove `v` if it is present, otherwise append it. */
  function Toggle<T(==,!new)>(xs: seq<T>, v: T): (r: seq<T>)
    ensures v in r <==> v !in xs
    ensures forall w :: w != v ==> (w in r <==> w in xs)
    ensures NoDuplicates(xs) ==> NoDuplicates(r)
  {
    if v in xs then
      (if NoDuplicates(xs) then SelectKeepsNoDuplicates(xs, (w: T) => w != v); Without(xs, v)
       else Without(xs, v))
    else xs + [v]
  }

  /** Toggling an absent value twice restores the exact original list. */
  lemma ToggleTwiceRestoresAbsent<T(!new)>(xs: seq<T>, v: T)
    requires v !in xs
    ensures Toggle(Toggle(xs, v), v) == xs
  {
    SelectAppend(xs, [v], (w: T) => w != v);
    assert [v][1..] == [];
    SelectKeepsAll(xs, (w: T) => w != v);
  }

  /** Toggling a present value twice moves it to the end, without its other copies. */
  lemma ToggleTwiceMovesPresentToEnd<T(!new)>(xs: seq<T>, v: T)
    requires v in xs
    ensures Toggle(Toggle(xs, v), v) == Without(xs, v) + [v]
  {
  }
}
