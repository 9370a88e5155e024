/** The stable sort a Java stream performs with `sorted(comparator)`, for the
    comparators the course listing uses: natural String order on a key, with
    `Comparator.nullsLast` placing the rows without a key after all others. */
module Sorting {
  import opened Seqs
  import Text

  /** The value a comparator extracts from a row: a string, or null. */
  datatype SortKey = Key(text: string) | NoKey

  /** The comparator's "not after" relation: strings in String.compareTo order,
      null after every string. */
  predicate KeyLe(a: SortKey, b: SortKey) {
    match (a, b)
    case (Key(x), Key(y)) => Text.LessEq(x, y)
    case (Key(_), NoKey) => true
    case (NoKey, Key(_)) => false
    case (NoKey, NoKey) => true
  }

  lemma KeyLeTotal(a: SortKey, b: SortKey)
    ensures KeyLe(a, b) || KeyLe(b, a)
  {
    if a.Key? && b.Key? {
      Text.LessEqTotal(a.text, b.text);
    }
  }

  lemma KeyLeTransitive(a: SortKey, b: SortKey, c: SortKey)
    requires KeyLe(a, b) && KeyLe(b, c)
    ensures KeyLe(a, c)
  {
    if a.Key? && b.Key? && c.Key? {
      Text.LessEqTransitive(a.text, b.text, c.text);
    }
  }

  lemma KeyLeAntisymmetric(a: SortKey, b: SortKey)
    requires KeyLe(a, b) && KeyLe(b, a)
    ensures a == b
  {
    if a.Key? && b.Key? {
      Text.LessEqAntisymmetric(a.text, b.text);
    }
  }

  /** Every row's key is not after the key of any later row. */
  ghost predicate SortedBy<T>(s: seq<T>, key: T -> SortKey) {
    forall i, j :: 0 <= i < j < |s| ==> KeyLe(key(s[i]), key(s[j]))
  }

  /** Inserts x before the first row whose key is not before x's key. */
  function Insert<T>(x: T, s: seq<T>, key: T -> SortKey): seq<T> {
    if |s| == 0 then [x]
    else if KeyLe(key(x), key(s[0])) then [x] + s
    else [s[0]] + Insert(x, s[1..], key)
  }

  /** The stable sort of s by key (insertion sort from the back). */
  function SortBy<T>(s: seq<T>, key: T -> SortKey): seq<T> {
    if |s| == 0 then [] else Insert(s[0], SortBy(s[1..], key), key)
  }

  /** The rows whose key is k. */
  function HasKey<T>(key: T -> SortKey, k: SortKey): T -> bool {
    x => key(x) == k
  }

  lemma {:induction false} InsertKeeps<T>(x: T, s: seq<T>, key: T -> SortKey)
    ensures multiset(Insert(x, s, key)) == multiset(s) + multiset{x}
    ensures SortedBy(s, key) ==> SortedBy(Insert(x, s, key), key)
  {
    InsertPermutes(x, s, key);
    if SortedBy(s, key) {
      InsertSorted(x, s, key);
    }
  }

  lemma {:induction false} InsertPermutes<T>(x: T, s: seq<T>, key: T -> SortKey)
    ensures multiset(Insert(x, s, key)) == multiset(s) + multiset{x}
  {
    if |s| > 0 && !KeyLe(key(x), key(s[0])) {
      InsertPermutes(x, s[1..], key);
      assert s == [s[0]] + s[1..];
    }
  }

  /** Every row of the result is x or a row of s. */
  lemma {:induction false} InsertMembers<T>(x: T, s: seq<T>, key: T -> SortKey)
    ensures forall y :: y in Insert(x, s, key) ==> y == x || y in s
  {
    if |s| > 0 && !KeyLe(key(x), key(s[0])) {
      InsertMembers(x, s[1..], key);
    }
  }

  lemma {:induction false} InsertSorted<T>(x: T, s: seq<T>, key: T -> SortKey)
    requires SortedBy(s, key)
    ensures SortedBy(Insert(x, s, key), key)
  {
    if |s| > 0 && !KeyLe(key(x), key(s[0])) {
      var tail := s[1..];
      assert SortedBy(tail, key) by {
        forall i, j | 0 <= i < j < |tail|
          ensures KeyLe(key(tail[i]), key(tail[j]))
        {
          assert tail[i] == s[i + 1] && tail[j] == s[j + 1];
        }
      }
      InsertSorted(x, tail, key);
      InsertMembers(x, tail, key);
      KeyLeTotal(key(x), key(s[0]));
      var rest := Insert(x, tail, key);
      var r := [s[0]] + rest;
      forall i, j | 0 <= i < j < |r|
        ensures KeyLe(key(r[i]), key(r[j]))
      {
        if i == 0 {
          assert r[j] == rest[j - 1] && r[j] in rest;
          if r[j] != x {
            var m :| 0 <= m < |tail| && tail[m] == r[j];
            assert s[m + 1] == r[j];
          }
        } else {
          assert r[i] == rest[i - 1] && r[j] == rest[j - 1];
        }
      }
    } else if |s| > 0 {
      var r := [x] + s;
      forall i, j | 0 <= i < j < |r|
        ensures KeyLe(key(r[i]), key(r[j]))
      {
        if i == 0 && j > 1 {
          assert r[j] == s[j - 1];
          KeyLeTransitive(key(x), key(s[0]), key(s[j - 1]));
        } else if i > 0 {
          assert r[i] == s[i - 1] && r[j] == s[j - 1];
        }
      }
    }
  }

  /** The sort returns the same rows, in key order. */
  lemma {:induction false} SortByCorrect<T>(s: seq<T>, key: T -> SortKey)
    ensures multiset(SortBy(s, key)) == multiset(s)
    ensures SortedBy(SortBy(s, key), key)
  {
    if |s| > 0 {
      SortByCorrect(s[1..], key);
      InsertKeeps(s[0], SortBy(s[1..], key), key);
      assert s == [s[0]] + s[1..];
    }
  }

  lemma {:induction false} InsertStable<T>(x: T, s: seq<T>, key: T -> SortKey, k: SortKey)
    ensures Filter(Insert(x, s, key), HasKey(key, k)) ==
            (if key(x) == k then [x] else []) + Filter(s, HasKey(key, k))
  {
    var p := HasKey(key, k);
    if |s| == 0 {
      assert Insert(x, s, key) == [x] + [];
      FilterCons(x, [], p);
    } else if KeyLe(key(x), key(s[0])) {
      assert Insert(x, s, key) == [x] + s;
      FilterCons(x, s, p);
    } else {
      var rest := Insert(x, s[1..], key);
      assert Insert(x, s, key) == [s[0]] + rest;
      InsertStable(x, s[1..], key, k);
      FilterCons(s[0], rest, p);
      assert s == [s[0]] + s[1..];
      FilterCons(s[0], s[1..], p);
      if key(s[0]) == k {
        LessOrEqualSelf(key(x));
        assert key(x) != k;
      }
    }
  }

  lemma LessOrEqualSelf(a: SortKey)
    ensures KeyLe(a, a)
  {
    if a.Key? {
      Text.LessEqReflexive(a.text);
    }
  }

  /** Stability: the rows sharing any one key keep their original relative order. */
  lemma {:induction false} SortByStable<T>(s: seq<T>, key: T -> SortKey, k: SortKey)
    ensures Filter(SortBy(s, key), HasKey(key, k)) == Filter(s, HasKey(key, k))
  {
    if |s| > 0 {
      SortByStable(s[1..], key, k);
      InsertStable(s[0], SortBy(s[1..], key), key, k);
    }
  }
}
