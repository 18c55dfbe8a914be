/** Generic facts about Python-style list operations used throughout the model:
    order-preserving filtering, slicing a prefix, and `list.remove`. */
module Seqs {

  /** `xs` is obtained from `ys` by deleting elements, the rest kept in order. */
  predicate IsSubsequence<T(==)>(xs: seq<T>, ys: seq<T>)
  {
    if xs == [] then true
    else if ys == [] then false
    else if xs[0] == ys[0] then IsSubsequence(xs[1..], ys[1..])
    else IsSubsequence(xs, ys[1..])
  }

  /** No element occurs twice. */
  predicate Distinct<T(==)>(s: seq<T>)
  {
    forall i, j :: 0 <= i < j < |s| ==> s[i] != s[j]
  }

  lemma {:induction false} SubsequenceLength<T>(xs: seq<T>, ys: seq<T>)
    requires IsSubsequence(xs, ys)
    ensures |xs| <= |ys|
    ensures forall x :: x in xs ==> x in ys
  {
    if xs != [] {
      assert xs == [xs[0]] + xs[1..];
      assert ys == [ys[0]] + ys[1..];
      if xs[0] == ys[0] {
        SubsequenceLength(xs[1..], ys[1..]);
      } else {
        SubsequenceLength(xs, ys[1..]);
      }
    }
  }

  lemma {:induction false} SubsequenceRefl<T>(xs: seq<T>)
    ensures IsSubsequence(xs, xs)
  {
    if xs != [] {
      SubsequenceRefl(xs[1..]);
    }
  }

  /** Putting one more element in front of the longer sequence keeps the relation. */
  lemma {:induction false} SubsequenceWeaken<T>(xs: seq<T>, ys: seq<T>, y: T)
    requires IsSubsequence(xs, ys)
    ensures IsSubsequence(xs, [y] + ys)
    decreases |ys|, 1
  {
    assert ([y] + ys)[1..] == ys;
    if xs != [] && xs[0] == y {
      SubsequenceDropHead(xs, ys);
    }
  }

  lemma {:induction false} SubsequenceDropHead<T>(xs: seq<T>, ys: seq<T>)
    requires xs != [] && IsSubsequence(xs, ys)
    ensures IsSubsequence(xs[1..], ys)
    decreases |ys|, 0
  {
    assert ys == [ys[0]] + ys[1..];
    if xs[0] == ys[0] {
      SubsequenceWeaken(xs[1..], ys[1..], ys[0]);
    } else {
      SubsequenceDropHead(xs, ys[1..]);
      SubsequenceWeaken(xs[1..], ys[1..], ys[0]);
    }
  }

  /** Subsequences of two parts concatenate to a subsequence of the concatenation. */
  lemma {:induction false} SubsequenceConcat<T>(xs: seq<T>, ys: seq<T>, xs2: seq<T>, ys2: seq<T>)
    requires IsSubsequence(xs, ys) && IsSubsequence(xs2, ys2)
    ensures IsSubsequence(xs + xs2, ys + ys2)
    decreases |ys|
  {
    if ys == [] {
      assert xs + xs2 == xs2 && ys + ys2 == ys2;
    } else {
      assert (ys + ys2)[1..] == ys[1..] + ys2;
      if xs != [] && xs[0] == ys[0] {
        assert (xs + xs2)[1..] == xs[1..] + xs2;
        SubsequenceConcat(xs[1..], ys[1..], xs2, ys2);
      } else {
        SubsequenceConcat(xs, ys[1..], xs2, ys2);
        SubsequenceWeaken(xs + xs2, ys[1..] + ys2, ys[0]);
        assert [ys[0]] + (ys[1..] + ys2) == ys + ys2;
      }
    }
  }

  /** Appending one element to both sides keeps the relation, and so does appending
      it to the longer side only. */
  lemma SubsequenceSnoc<T>(xs: seq<T>, ys: seq<T>, y: T)
    requires IsSubsequence(xs, ys)
    ensures IsSubsequence(xs + [y], ys + [y])
    ensures IsSubsequence(xs, ys + [y])
  {
    assert IsSubsequence([y], [y]) by {
      assert [y][1..] == [];
    }
    SubsequenceConcat(xs, ys, [y], [y]);
    SubsequenceConcat(xs, ys, [], [y]);
    assert xs + [] == xs;
  }

  /** `[x for x in xs if p(x)]`: the elements satisfying `p`, in their original order. */
  function Filter<T(==,!new)>(p: T -> bool, xs: seq<T>): (r: seq<T>)
    ensures IsSubsequence(r, xs)
    ensures forall i :: 0 <= i < |r| ==> p(r[i])
  {
    if xs == [] then []
    else
      var rest := Filter(p, xs[1..]);
      if p(xs[0]) then
        assert ([xs[0]] + rest)[1..] == rest;
        [xs[0]] + rest
      else
        SubsequenceWeaken(rest, xs[1..], xs[0]);
        assert [xs[0]] + xs[1..] == xs;
        rest
  }

  /** The filter keeps every occurrence of an element that satisfies `p` and no
      occurrence of one that does not. */
  lemma {:induction false} FilterKeeps<T(!new)>(p: T -> bool, xs: seq<T>)
    ensures forall x :: multiset(Filter(p, xs))[x] == if p(x) then multiset(xs)[x] else 0
    ensures forall x :: x in Filter(p, xs) <==> x in xs && p(x)
  {
    if xs != [] {
      FilterKeeps(p, xs[1..]);
      assert xs == [xs[0]] + xs[1..];
      assert multiset(xs) == multiset{xs[0]} + multiset(xs[1..]);
    }
  }

  lemma {:induction false} FilterAppend<T(!new)>(p: T -> bool, xs: seq<T>, ys: seq<T>)
    ensures Filter(p, xs + ys) == Filter(p, xs) + Filter(p, ys)
  {
    if xs != [] {
      assert (xs + ys)[1..] == xs[1..] + ys;
      FilterAppend(p, xs[1..], ys);
    } else {
      assert xs + ys == ys;
    }
  }

  /** Python's `s[:n]`: the first `n` elements, or all of them when there are fewer. */
  function Prefix<T>(s: seq<T>, n: nat): (r: seq<T>)
    ensures |r| == if |s| < n then |s| else n
    ensures forall i :: 0 <= i < |r| ==> r[i] == s[i]
  {
    if |s| <= n then s else s[..n]
  }

  /** A prefix of `ys` is a prefix of every extension of `ys`. */
  lemma PrefixExtend<T>(xs: seq<T>, ys: seq<T>, zs: seq<T>)
    requires xs <= ys
    ensures xs <= ys + zs
  {
  }

  /** The first `n` elements are a subsequence. */
  lemma {:induction false} PrefixIsSubsequence<T>(s: seq<T>, n: nat)
    ensures IsSubsequence(Prefix(s, n), s)
  {
    if |s| <= n {
      SubsequenceRefl(s);
    } else if n == 0 {
      assert Prefix(s, n) == [];
    } else {
      PrefixIsSubsequence(s[1..], n - 1);
      assert Prefix(s, n) == [s[0]] + Prefix(s[1..], n - 1);
      assert ([s[0]] + Prefix(s[1..], n - 1))[1..] == Prefix(s[1..], n - 1);
    }
  }

  /** Dropping the last element of a list without duplicates leaves one without
      duplicates, which does not hold that element. */
  lemma DistinctLast<T>(s: seq<T>)
    requires Distinct(s) && s != []
    ensures Distinct(s[..|s| - 1]) && s[|s| - 1] !in s[..|s| - 1]
  {
    var t := s[..|s| - 1];
    forall i, j | 0 <= i < j < |t| ensures t[i] != t[j] {
      assert t[i] == s[i] && t[j] == s[j];
    }
    forall j | 0 <= j < |t| ensures t[j] != s[|s| - 1] {
      assert t[j] == s[j];
    }
  }

  /** Position of the first occurrence of `x` in `s`. */
  function IndexOf<T(==)>(s: seq<T>, x: T): (i: nat)
    requires x in s
    ensures i < |s| && s[i] == x && x !in s[..i]
  {
    if s[0] == x then 0
    else
      var i := IndexOf(s[1..], x);
      assert s[..i + 1] == [s[0]] + s[1..][..i];
      i + 1
  }

  /** Position of the last occurrence of `x` in `s`. */
  function LastIndexOf<T(==)>(s: seq<T>, x: T): (i: nat)
    requires x in s
    ensures i < |s| && s[i] == x && forall j :: i < j < |s| ==> s[j] != x
  {
    var n := |s| - 1;
    if s[n] == x then n
    else
      assert x in s[..n] by {
        var k := IndexOf(s, x);
        assert s[..n][k] == x;
      }
      LastIndexOf(s[..n], x)
  }

  /** Python's `list.remove(x)` guarded by `x in list`: drops the first occurrence,
      and leaves the list as it is when `x` is absent. */
  function RemoveFirst<T(==)>(s: seq<T>, x: T): seq<T>
  {
    if s == [] then []
    else if s[0] == x then s[1..]
    else [s[0]] + RemoveFirst(s[1..], x)
  }

  /** One copy of the removed element goes, when there is one. */
  lemma {:induction false} RemoveFirstCounts<T>(s: seq<T>, x: T)
    ensures multiset(RemoveFirst(s, x)) == multiset(s) - multiset{x}
  {
    if s != [] {
      assert s == [s[0]] + s[1..];
      RemoveFirstCounts(s[1..], x);
    }
  }

  /** Removing an absent element changes nothing. */
  lemma {:induction false} RemoveFirstAbsent<T>(s: seq<T>, x: T)
    requires x !in s
    ensures RemoveFirst(s, x) == s
  {
    if s != [] {
      assert x !in s[1..];
      RemoveFirstAbsent(s[1..], x);
    }
  }

  /** Removing an element whose first occurrence is at `i` deletes exactly that
      position and keeps the rest in order. */
  lemma {:induction false} RemoveFirstAt<T>(s: seq<T>, x: T, i: nat)
    requires i < |s| && s[i] == x && x !in s[..i]
    ensures RemoveFirst(s, x) == s[..i] + s[i + 1..]
  {
    if i > 0 {
      var t := s[1..];
      assert s[0] == s[..i][0];
      assert s[..i] == [s[0]] + t[..i - 1];
      assert x !in t[..i - 1];
      RemoveFirstAt(t, x, i - 1);
      assert s[i + 1..] == t[i..];
      assert s[..i] + s[i + 1..] == [s[0]] + (t[..i - 1] + t[i..]);
    }
  }
}
