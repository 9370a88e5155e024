/** Sequence operations the program performs through streams and list methods:
    filter, find-first, remove the first match, count. */
module Seqs {
  import opened Wrappers

  /** The predicate that holds exactly where p does not. */
  function Not<T>(p: T -> bool): T -> bool {
    x => !p(x)
  }

  /** The elements of s that satisfy p, in their original order (stream filter). */
  function Filter<T>(s: seq<T>, p: T -> bool): (r: seq<T>)
    ensures |r| <= |s|
  {
    if |s| == 0 then []
    else if p(s[0]) then [s[0]] + Filter(s[1..], p)
    else Filter(s[1..], p)
  }

  /** An element survives the filter exactly when it is in s and satisfies p. */
  lemma {:induction false} FilterMembers<T>(s: seq<T>, p: T -> bool)
    ensures forall i :: 0 <= i < |Filter(s, p)| ==> Filter(s, p)[i] in s && p(Filter(s, p)[i])
    ensures forall i :: 0 <= i < |s| && p(s[i]) ==> s[i] in Filter(s, p)
  {
    if |s| != 0 {
      FilterMembers(s[1..], p);
      var f := Filter(s, p);
      var t := Filter(s[1..], p);
      if p(s[0]) {
        assert f == [s[0]] + t;
        forall i | 0 <= i < |f|
          ensures f[i] in s && p(f[i])
        {
          if i > 0 {
            assert f[i] == t[i - 1];
          }
        }
      }
      forall i | 0 <= i < |s| && p(s[i])
        ensures s[i] in f
      {
        if i > 0 {
          assert s[i] == s[1..][i - 1];
        }
      }
    }
  }

  /** The number of elements of s that satisfy p. */
  function Count<T>(s: seq<T>, p: T -> bool): nat {
    |Filter(s, p)|
  }

  /** a can be obtained from b by deleting elements, keeping the order of the rest. */
  ghost predicate IsSubsequence<T>(a: seq<T>, b: seq<T>) {
    if |a| == 0 then true
    else if |b| == 0 then false
    else (a[0] == b[0] && IsSubsequence(a[1..], b[1..])) || IsSubsequence(a, b[1..])
  }

  /** The position of the first element of s that satisfies p, or |s| if there is none. */
  function FirstIndex<T>(s: seq<T>, p: T -> bool): (k: nat)
    ensures k <= |s|
    ensures forall j :: 0 <= j < k ==> !p(s[j])
    ensures k < |s| ==> p(s[k])
  {
    if |s| == 0 then 0 else if p(s[0]) then 0 else 1 + FirstIndex(s[1..], p)
  }

  /** The first element of s that satisfies p (stream findFirst), if any. */
  function First<T>(s: seq<T>, p: T -> bool): (r: Option<T>)
    ensures r.None? <==> forall i :: 0 <= i < |s| ==> !p(s[i])
    ensures r.Some? ==> r.value in s && p(r.value)
  {
    var k := FirstIndex(s, p);
    if k < |s| then Some(s[k]) else None
  }

  /** s without its first element that satisfies p (List.remove of the first match);
      s itself when none does. */
  function RemoveFirst<T>(s: seq<T>, p: T -> bool): seq<T> {
    var k := FirstIndex(s, p);
    if k < |s| then s[..k] + s[k + 1..] else s
  }

  /** The first match in a list that starts with x: x itself, or one past the first
      match in the rest. */
  lemma FirstIndexCons<T>(x: T, s: seq<T>, p: T -> bool)
    ensures FirstIndex([x] + s, p) == if p(x) then 0 else 1 + FirstIndex(s, p)
  {
    assert ([x] + s)[0] == x && ([x] + s)[1..] == s;
  }

  /** Removing from a list that starts with x: the rest if x matches, otherwise x
      followed by the rest with its first match removed. */
  lemma RemoveFirstCons<T>(x: T, s: seq<T>, p: T -> bool)
    ensures RemoveFirst([x] + s, p) == if p(x) then s else [x] + RemoveFirst(s, p)
  {
    var t := [x] + s;
    FirstIndexCons(x, s, p);
    if p(x) {
      assert t[..0] + t[1..] == s;
    } else {
      var k := FirstIndex(s, p);
      if k < |s| {
        calc {
          RemoveFirst(t, p);
          t[..k + 1] + t[k + 2..];
          { assert t[..k + 1] == [x] + s[..k]; assert t[k + 2..] == s[k + 1..]; }
          ([x] + s[..k]) + s[k + 1..];
          [x] + (s[..k] + s[k + 1..]);
        }
      }
    }
  }

  lemma {:induction false} FilterConcat<T>(a: seq<T>, b: seq<T>, p: T -> bool)
    ensures Filter(a + b, p) == Filter(a, p) + Filter(b, p)
  {
    if |a| == 0 {
      assert a + b == b;
    } else {
      assert (a + b)[0] == a[0];
      assert (a + b)[1..] == a[1..] + b;
      FilterConcat(a[1..], b, p);
    }
  }

  /** Filtering by two predicates that agree on every element gives the same result. */
  lemma {:induction false} FilterExt<T>(s: seq<T>, p: T -> bool, q: T -> bool)
    requires forall i :: 0 <= i < |s| ==> p(s[i]) == q(s[i])
    ensures Filter(s, p) == Filter(s, q)
  {
    if |s| != 0 {
      assert forall i :: 1 <= i < |s| ==> s[i] == s[1..][i - 1];
      FilterExt(s[1..], p, q);
    }
  }

  /** Filtering twice is filtering once by the conjunction. */
  lemma {:induction false} FilterFilter<T>(s: seq<T>, p: T -> bool, q: T -> bool, r: T -> bool)
    requires forall i :: 0 <= i < |s| ==> r(s[i]) == (p(s[i]) && q(s[i]))
    ensures Filter(Filter(s, p), q) == Filter(s, r)
  {
    if |s| != 0 {
      assert forall i :: 1 <= i < |s| ==> s[i] == s[1..][i - 1];
      FilterFilter(s[1..], p, q, r);
      if p(s[0]) {
        var f := Filter(s, p);
        assert f == [s[0]] + Filter(s[1..], p);
        assert f[0] == s[0] && f[1..] == Filter(s[1..], p);
        assert Filter(f, q) == (if q(s[0]) then [s[0]] else []) + Filter(f[1..], q);
      } else {
        assert Filter(s, p) == Filter(s[1..], p);
      }
      assert r(s[0]) == (p(s[0]) && q(s[0]));
      assert Filter(s, r) == (if r(s[0]) then [s[0]] else []) + Filter(s[1..], r);
    }
  }

  /** A filter that every element passes changes nothing. */
  lemma {:induction false} FilterAll<T>(s: seq<T>, p: T -> bool)
    requires forall i :: 0 <= i < |s| ==> p(s[i])
    ensures Filter(s, p) == s
  {
    if |s| != 0 {
      assert forall i :: 1 <= i < |s| ==> s[i] == s[1..][i - 1];
      FilterAll(s[1..], p);
    }
  }

  /** Filtering is idempotent. */
  lemma FilterIdempotent<T>(s: seq<T>, p: T -> bool)
    ensures Filter(Filter(s, p), p) == Filter(s, p)
  {
    FilterFilter(s, p, p, p);
  }

  /** A filter keeps the survivors in their original order. */
  lemma {:induction false} FilterIsSubsequence<T>(s: seq<T>, p: T -> bool)
    ensures IsSubsequence(Filter(s, p), s)
  {
    if |s| != 0 {
      FilterIsSubsequence(s[1..], p);
      var f := Filter(s, p);
      if p(s[0]) {
        assert f == [s[0]] + Filter(s[1..], p);
        assert f[0] == s[0] && f[1..] == Filter(s[1..], p);
      } else {
        assert f == Filter(s[1..], p);
      }
    }
  }

  lemma FilterSnoc<T>(s: seq<T>, x: T, p: T -> bool)
    ensures Filter(s + [x], p) == Filter(s, p) + (if p(x) then [x] else [])
  {
    FilterConcat(s, [x], p);
    assert [x][1..] == [];
  }

  lemma CountSnoc<T>(s: seq<T>, x: T, p: T -> bool)
    ensures Count(s + [x], p) == Count(s, p) + (if p(x) then 1 else 0)
  {
    FilterSnoc(s, x, p);
  }

  lemma FilterCons<T>(x: T, s: seq<T>, p: T -> bool)
    ensures Filter([x] + s, p) == (if p(x) then [x] else []) + Filter(s, p)
  {
    assert ([x] + s)[0] == x && ([x] + s)[1..] == s;
  }

  /** Nothing survives a filter that no element passes. */
  lemma {:induction false} FilterNone<T>(s: seq<T>, p: T -> bool)
    requires forall i :: 0 <= i < |s| ==> !p(s[i])
    ensures Filter(s, p) == []
  {
    if |s| != 0 {
      FilterNone(s[1..], p);
    }
  }

  /** Removing the first match lowers the number of matches by one, if there is a match. */
  lemma {:induction false} RemoveFirstCount<T>(s: seq<T>, p: T -> bool)
    ensures Count(RemoveFirst(s, p), p) == if FirstIndex(s, p) < |s| then Count(s, p) - 1 else Count(s, p)
  {
    if |s| != 0 {
      assert s == [s[0]] + s[1..];
      RemoveFirstCons(s[0], s[1..], p);
      FirstIndexCons(s[0], s[1..], p);
      FilterCons(s[0], s[1..], p);
      if !p(s[0]) {
        RemoveFirstCount(s[1..], p);
        FilterCons(s[0], RemoveFirst(s[1..], p), p);
      }
    }
  }

  /** No element matches exactly when the count of matches is zero. */
  lemma {:induction false} CountZero<T>(s: seq<T>, p: T -> bool)
    ensures Count(s, p) == 0 <==> forall i :: 0 <= i < |s| ==> !p(s[i])
  {
    if |s| != 0 {
      CountZero(s[1..], p);
      assert forall i :: 1 <= i < |s| ==> s[i] == s[1..][i - 1];
    }
  }

  /** The first element of a filtered sequence that satisfies q is the first element
      of the whole sequence that satisfies both predicates. */
  lemma {:induction false} FirstFilter<T>(s: seq<T>, p: T -> bool, q: T -> bool, r: T -> bool)
    requires forall i :: 0 <= i < |s| ==> r(s[i]) == (p(s[i]) && q(s[i]))
    ensures First(Filter(s, p), q) == First(s, r)
  {
    if |s| != 0 {
      assert forall i :: 1 <= i < |s| ==> s[i] == s[1..][i - 1];
      FirstFilter(s[1..], p, q, r);
      var f := Filter(s, p);
      if p(s[0]) {
        assert f == [s[0]] + Filter(s[1..], p);
        assert f[0] == s[0] && f[1..] == Filter(s[1..], p);
      }
    }
  }

  /** The first match is the head of the filtered sequence. */
  lemma {:induction false} FirstIsFilterHead<T>(s: seq<T>, p: T -> bool)
    ensures First(s, p) == if Filter(s, p) == [] then None else Some(Filter(s, p)[0])
  {
    if |s| != 0 {
      assert s == [s[0]] + s[1..];
      FirstIndexCons(s[0], s[1..], p);
      FilterCons(s[0], s[1..], p);
      if !p(s[0]) {
        FirstIsFilterHead(s[1..], p);
      }
    }
  }

  /** Removing the first match drops the head of the filtered sequence and keeps the
      other matches in order. */
  lemma {:induction false} FilterRemoveFirst<T>(s: seq<T>, p: T -> bool)
    ensures FirstIndex(s, p) < |s| ==> |Filter(s, p)| > 0 && Filter(RemoveFirst(s, p), p) == Filter(s, p)[1..]
    ensures FirstIndex(s, p) == |s| ==> Filter(RemoveFirst(s, p), p) == Filter(s, p)
  {
    if |s| != 0 {
      assert s == [s[0]] + s[1..];
      RemoveFirstCons(s[0], s[1..], p);
      FirstIndexCons(s[0], s[1..], p);
      FilterCons(s[0], s[1..], p);
      if !p(s[0]) {
        FilterRemoveFirst(s[1..], p);
        FilterCons(s[0], RemoveFirst(s[1..], p), p);
      }
    }
  }
}
