/** Order-related facts about sequences of records keyed by an integer date:
    the stable sort pandas' `sort_values` performs, the "keep last"
    de-duplication of `drop_duplicates(keep="last")`, the point-in-time
    filter "rows dated on or before a bound", and order-preserving
    subsequences. Everything is generic in the record type and its key. */
module Seqs {

  /* ------------------------------------------------------------ orderings */

  ghost predicate SortedBy<T>(s: seq<T>, key: T -> int)
  {
    forall i, j :: 0 <= i < j < |s| ==> key(s[i]) <= key(s[j])
  }

  ghost predicate StrictlyIncreasing<T>(s: seq<T>, key: T -> int)
  {
    forall i, j :: 0 <= i < j < |s| ==> key(s[i]) < key(s[j])
  }

  ghost predicate UniqueKeys<T, K>(s: seq<T>, key: T -> K)
  {
    forall i, j :: 0 <= i < j < |s| ==> key(s[i]) != key(s[j])
  }

  predicate HasKey<T, K(==)>(s: seq<T>, key: T -> K, k: K)
  {
    exists i :: 0 <= i < |s| && key(s[i]) == k
  }

  /** Row i holds the last occurrence of its key. */
  ghost predicate IsLastOf<T, K>(s: seq<T>, key: T -> K, i: int)
    requires 0 <= i < |s|
  {
    forall j :: i < j < |s| ==> key(s[j]) != key(s[i])
  }

  /** a is an order-preserving subsequence of b. */
  ghost predicate IsSubseq<T>(a: seq<T>, b: seq<T>)
    decreases |b|
  {
    |a| == 0 || (|b| > 0 && ((a[0] == b[0] && IsSubseq(a[1..], b[1..])) || IsSubseq(a, b[1..])))
  }

  lemma {:induction false} SubseqTransitive<T(!new)>(a: seq<T>, b: seq<T>, c: seq<T>)
    requires IsSubseq(a, b) && IsSubseq(b, c)
    ensures IsSubseq(a, c)
    decreases |c|
  {
    if |a| > 0 {
      if IsSubseq(b, c[1..]) {
        SubseqTransitive(a, b, c[1..]);
      } else if a[0] == b[0] && IsSubseq(a[1..], b[1..]) {
        SubseqTransitive(a[1..], b[1..], c[1..]);
      } else {
        SubseqTransitive(a, b[1..], c[1..]);
      }
    }
  }

  lemma {:induction false} SubseqMembers<T(!new)>(a: seq<T>, b: seq<T>)
    requires IsSubseq(a, b)
    ensures forall y :: y in a ==> y in b
    decreases |b|
  {
    if |a| > 0 {
      if a[0] == b[0] && IsSubseq(a[1..], b[1..]) {
        SubseqMembers(a[1..], b[1..]);
        assert a == [a[0]] + a[1..];
      } else {
        SubseqMembers(a, b[1..]);
      }
    }
  }

  lemma {:induction false} SubseqReflexive<T(!new)>(a: seq<T>)
    ensures IsSubseq(a, a)
    decreases |a|
  {
    if |a| > 0 {
      SubseqReflexive(a[1..]);
    }
  }

  /** A subsequence stays one when the larger sequence grows at the end. */
  lemma {:induction false} SubseqExtend<T>(a: seq<T>, b: seq<T>, x: T)
    requires IsSubseq(a, b)
    ensures IsSubseq(a, b + [x])
    decreases |b|
  {
    if |a| > 0 {
      assert (b + [x])[1..] == b[1..] + [x];
      if a[0] == b[0] && IsSubseq(a[1..], b[1..]) {
        SubseqExtend(a[1..], b[1..], x);
      } else {
        SubseqExtend(a, b[1..], x);
      }
    }
  }

  /** Appending the same element to both keeps the subsequence relation. */
  lemma {:induction false} SubseqAppendBoth<T>(a: seq<T>, b: seq<T>, x: T)
    requires IsSubseq(a, b)
    ensures IsSubseq(a + [x], b + [x])
    decreases |b|
  {
    if |b| == 0 {
      assert a == [];
      assert IsSubseq(([] + [x])[1..], ([] + [x])[1..]);
    } else {
      assert (b + [x])[1..] == b[1..] + [x];
      if |a| > 0 && a[0] == b[0] && IsSubseq(a[1..], b[1..]) {
        SubseqAppendBoth(a[1..], b[1..], x);
        assert (a + [x])[1..] == a[1..] + [x];
      } else if |a| > 0 {
        SubseqAppendBoth(a, b[1..], x);
      } else {
        SubseqAppendBoth(a, b[1..], x);
      }
    }
  }

  /* --------------------------------------------------------- stable sort */

  /** Prepending a row whose key is at most every key of a sorted sequence
      keeps it sorted. */
  lemma ConsSorted<T(!new)>(h: T, s: seq<T>, key: T -> int)
    requires SortedBy(s, key)
    requires forall q :: 0 <= q < |s| ==> key(h) <= key(s[q])
    ensures SortedBy([h] + s, key)
  {
    var r := [h] + s;
    forall p, q | 0 <= p < q < |r| ensures key(r[p]) <= key(r[q]) {
      assert r[q] == s[q - 1];
      assert p == 0 || r[p] == s[p - 1];
    }
  }

  /** The strict counterpart of ConsSorted. */
  lemma ConsStrict<T(!new)>(h: T, s: seq<T>, key: T -> int)
    requires StrictlyIncreasing(s, key)
    requires forall q :: 0 <= q < |s| ==> key(h) < key(s[q])
    ensures StrictlyIncreasing([h] + s, key)
  {
    var r := [h] + s;
    forall p, q | 0 <= p < q < |r| ensures key(r[p]) < key(r[q]) {
      assert r[q] == s[q - 1];
      assert p == 0 || r[p] == s[p - 1];
    }
  }

  /** Inserts x before the first row whose key is not smaller: x lands ahead
      of rows with an equal key, which keeps an insertion sort stable. */
  function Insert<T(==,!new)>(x: T, s: seq<T>, key: T -> int): (r: seq<T>)
    ensures multiset(r) == multiset(s) + multiset{x}
    ensures |r| == |s| + 1
  {
    if |s| == 0 then [x]
    else if key(x) <= key(s[0]) then [x] + s
    else
      assert s == [s[0]] + s[1..];
      [s[0]] + Insert(x, s[1..], key)
  }

  /** Every row of Insert(x, s) is x or a row of s. */
  lemma InsertMembers<T(!new)>(x: T, s: seq<T>, key: T -> int)
    ensures forall y :: y in Insert(x, s, key) <==> (y == x || y in s)
  {
    var r := Insert(x, s, key);
    forall y ensures y in r <==> (y == x || y in s) {
      assert y in r <==> y in multiset(r);
      assert y in s <==> y in multiset(s);
    }
  }

  lemma {:induction false} InsertSorted<T(!new)>(x: T, s: seq<T>, key: T -> int)
    requires SortedBy(s, key)
    ensures SortedBy(Insert(x, s, key), key)
  {
    if |s| > 0 {
      if key(x) <= key(s[0]) {
        ConsSorted(x, s, key);
      } else {
        InsertSorted(x, s[1..], key);
        var rest := Insert(x, s[1..], key);
        InsertMembers(x, s[1..], key);
        forall q | 0 <= q < |rest| ensures key(s[0]) <= key(rest[q]) {
          assert rest[q] in rest;
          assert rest[q] == x || rest[q] in s[1..];
        }
        ConsSorted(s[0], rest, key);
      }
    }
  }

  /** `sort_values` by key: a sorted permutation of the input. */
  function SortBy<T(==,!new)>(xs: seq<T>, key: T -> int): (r: seq<T>)
    ensures SortedBy(r, key)
    ensures multiset(r) == multiset(xs)
    ensures |r| == |xs|
  {
    if |xs| == 0 then []
    else
      assert xs == [xs[0]] + xs[1..];
      InsertSorted(xs[0], SortBy(xs[1..], key), key);
      Insert(xs[0], SortBy(xs[1..], key), key)
  }

  lemma SortMembers<T(!new)>(xs: seq<T>, key: T -> int)
    ensures forall y :: y in SortBy(xs, key) <==> y in xs
  {
    var r := SortBy(xs, key);
    forall y ensures y in r <==> y in xs {
      assert y in r <==> y in multiset(r);
      assert y in xs <==> y in multiset(xs);
    }
  }

  /** Sorting an already sorted sequence changes nothing. */
  lemma {:induction false} SortOfSorted<T(!new)>(xs: seq<T>, key: T -> int)
    requires SortedBy(xs, key)
    ensures SortBy(xs, key) == xs
  {
    if |xs| > 0 {
      SortOfSorted(xs[1..], key);
      assert xs == [xs[0]] + xs[1..];
    }
  }

  lemma {:induction false} InsertStrict<T(!new)>(x: T, s: seq<T>, key: T -> int)
    requires StrictlyIncreasing(s, key)
    requires forall i :: 0 <= i < |s| ==> key(s[i]) != key(x)
    ensures StrictlyIncreasing(Insert(x, s, key), key)
  {
    if |s| > 0 {
      if key(x) < key(s[0]) {
        ConsStrict(x, s, key);
      } else {
        assert key(x) > key(s[0]);
        InsertStrict(x, s[1..], key);
        var rest := Insert(x, s[1..], key);
        InsertMembers(x, s[1..], key);
        forall q | 0 <= q < |rest| ensures key(s[0]) < key(rest[q]) {
          assert rest[q] in rest;
          assert rest[q] == x || rest[q] in s[1..];
        }
        ConsStrict(s[0], rest, key);
      }
    }
  }

  /** Sorting rows whose keys are pairwise distinct gives strictly increasing
      keys. */
  lemma {:induction false} SortUniqueIsStrict<T(!new)>(xs: seq<T>, key: T -> int)
    requires UniqueKeys(xs, key)
    ensures StrictlyIncreasing(SortBy(xs, key), key)
  {
    if |xs| > 0 {
      var tail := xs[1..];
      assert UniqueKeys(tail, key) by {
        forall i, j | 0 <= i < j < |tail| ensures key(tail[i]) != key(tail[j]) {
          assert tail[i] == xs[i + 1] && tail[j] == xs[j + 1];
        }
      }
      SortUniqueIsStrict(tail, key);
      var st := SortBy(tail, key);
      SortMembers(tail, key);
      forall i | 0 <= i < |st| ensures key(st[i]) != key(xs[0]) {
        assert st[i] in tail;
        var j :| 0 <= j < |tail| && tail[j] == st[i];
        assert tail[j] == xs[j + 1];
      }
      InsertStrict(xs[0], st, key);
    }
  }

  lemma TailStrict<T(!new)>(a: seq<T>, key: T -> int)
    requires |a| > 0 && StrictlyIncreasing(a, key)
    ensures StrictlyIncreasing(a[1..], key)
    ensures forall y :: y in a[1..] ==> key(a[0]) < key(y)
  {
    forall p, q | 0 <= p < q < |a[1..]| ensures key(a[1..][p]) < key(a[1..][q]) {
      assert a[1..][p] == a[p + 1] && a[1..][q] == a[q + 1];
    }
    forall y | y in a[1..] ensures key(a[0]) < key(y) {
      var k :| 0 <= k < |a[1..]| && a[1..][k] == y;
      assert a[1..][k] == a[k + 1];
    }
  }

  /** In a strictly increasing sequence the first row has the least key. */
  lemma StrictHeadLeast<T(!new)>(a: seq<T>, key: T -> int)
    requires |a| > 0 && StrictlyIncreasing(a, key)
    ensures forall k :: 0 <= k < |a| ==> key(a[0]) <= key(a[k])
  {
  }

  lemma HeadIsMember<T(!new)>(b: seq<T>)
    ensures |b| > 0 ==> b[0] in b
  {
  }

  /** Two strictly increasing sequences with the same members are equal. */
  lemma {:induction false} StrictSameMembersEqual<T(!new)>(a: seq<T>, b: seq<T>, key: T -> int)
    requires StrictlyIncreasing(a, key) && StrictlyIncreasing(b, key)
    requires forall y :: y in a <==> y in b
    ensures a == b
  {
    HeadIsMember(a);
    HeadIsMember(b);
    if |a| > 0 && |b| > 0 {
      var i :| 0 <= i < |a| && a[i] == b[0];
      var j :| 0 <= j < |b| && b[j] == a[0];
      StrictHeadLeast(a, key);
      StrictHeadLeast(b, key);
      assert i == 0;
      assert a[0] == b[0];
      TailStrict(a, key);
      TailStrict(b, key);
      assert a == [a[0]] + a[1..];
      assert b == [b[0]] + b[1..];
      forall y ensures y in a[1..] <==> y in b[1..] {
        assert y in a[1..] ==> y in b && y != b[0];
        assert y in b[1..] ==> y in a && y != a[0];
      }
      StrictSameMembersEqual(a[1..], b[1..], key);
    }
  }

  /* ------------------------------------------------ point-in-time filter */

  /** The rows whose key is at most `bound`, in their original order. */
  function Upto<T(!new)>(s: seq<T>, key: T -> int, bound: int): (r: seq<T>)
    ensures forall i :: 0 <= i < |r| ==> key(r[i]) <= bound
    ensures |r| <= |s|
  {
    if |s| == 0 then []
    else if key(s[0]) <= bound then [s[0]] + Upto(s[1..], key, bound)
    else Upto(s[1..], key, bound)
  }

  /** Upto keeps exactly the rows at or before the bound. */
  lemma {:induction false} UptoMembers<T(!new)>(s: seq<T>, key: T -> int, bound: int)
    ensures forall y :: y in Upto(s, key, bound) <==> (y in s && key(y) <= bound)
  {
    if |s| > 0 {
      UptoMembers(s[1..], key, bound);
      assert s == [s[0]] + s[1..];
    }
  }

  /** Upto keeps a sorted sequence sorted. */
  lemma {:induction false} UptoSorted<T(!new)>(s: seq<T>, key: T -> int, bound: int)
    requires SortedBy(s, key)
    ensures SortedBy(Upto(s, key, bound), key)
  {
    if |s| > 0 {
      UptoSorted(s[1..], key, bound);
      if key(s[0]) <= bound {
        var u := Upto(s[1..], key, bound);
        UptoMembers(s[1..], key, bound);
        forall q | 0 <= q < |u| ensures key(s[0]) <= key(u[q]) {
          assert u[q] in u;
          var k :| 0 <= k < |s[1..]| && s[1..][k] == u[q];
          assert s[1..][k] == s[k + 1];
        }
        ConsSorted(s[0], u, key);
      }
    }
  }

  lemma {:induction false} UptoOfLater<T(!new)>(s: seq<T>, key: T -> int, bound: int)
    requires forall i :: 0 <= i < |s| ==> key(s[i]) > bound
    ensures Upto(s, key, bound) == []
  {
    if |s| > 0 {
      UptoOfLater(s[1..], key, bound);
    }
  }

  lemma {:induction false} UptoAppend<T(!new)>(xs: seq<T>, ys: seq<T>, key: T -> int, bound: int)
    ensures Upto(xs + ys, key, bound) == Upto(xs, key, bound) + Upto(ys, key, bound)
  {
    if |xs| == 0 {
      assert xs + ys == ys;
    } else {
      var zs := xs + ys;
      assert zs[0] == xs[0];
      assert zs[1..] == xs[1..] + ys;
      UptoAppend(xs[1..], ys, key, bound);
      if key(xs[0]) <= bound {
        calc {
          Upto(zs, key, bound);
          [xs[0]] + Upto(xs[1..] + ys, key, bound);
          [xs[0]] + (Upto(xs[1..], key, bound) + Upto(ys, key, bound));
          ([xs[0]] + Upto(xs[1..], key, bound)) + Upto(ys, key, bound);
        }
      }
    }
  }

  /** In a sorted sequence the rows up to the bound form a prefix. */
  lemma {:induction false} UptoIsPrefix<T(!new)>(s: seq<T>, key: T -> int, bound: int)
    requires SortedBy(s, key)
    ensures Upto(s, key, bound) == s[..|Upto(s, key, bound)|]
  {
    if |s| > 0 {
      if key(s[0]) <= bound {
        UptoIsPrefix(s[1..], key, bound);
        var k := |Upto(s[1..], key, bound)|;
        assert s[..k + 1] == [s[0]] + s[1..][..k];
      } else {
        UptoOfLater(s, key, bound);
      }
    }
  }

  /** In a sorted sequence every row after the kept prefix lies past the
      bound. */
  lemma {:induction false} UptoRest<T(!new)>(s: seq<T>, key: T -> int, bound: int)
    requires SortedBy(s, key)
    ensures forall j :: |Upto(s, key, bound)| <= j < |s| ==> key(s[j]) > bound
  {
    if |s| > 0 {
      if key(s[0]) <= bound {
        UptoRest(s[1..], key, bound);
        forall j | |Upto(s, key, bound)| <= j < |s| ensures key(s[j]) > bound {
          assert s[j] == s[1..][j - 1];
        }
      } else {
        UptoOfLater(s, key, bound);
      }
    }
  }

  lemma {:induction false} UptoOfInsert<T(!new)>(x: T, s: seq<T>, key: T -> int, bound: int)
    requires SortedBy(s, key)
    ensures Upto(Insert(x, s, key), key, bound)
         == if key(x) <= bound then Insert(x, Upto(s, key, bound), key) else Upto(s, key, bound)
  {
    var u := Upto(s, key, bound);
    if |s| == 0 {
    } else if key(x) <= key(s[0]) {
      var ins := [x] + s;
      assert ins[0] == x && ins[1..] == s;
      if key(x) > bound || key(s[0]) > bound {
        UptoOfLater(s, key, bound);
      }
    } else {
      var rest := Insert(x, s[1..], key);
      var ins := [s[0]] + rest;
      assert ins[0] == s[0] && ins[1..] == rest;
      UptoOfInsert(x, s[1..], key, bound);
      if key(x) <= bound {
        assert u == [s[0]] + Upto(s[1..], key, bound);
        assert u[0] == s[0] && u[1..] == Upto(s[1..], key, bound);
      }
    }
  }

  /** Filtering by the bound commutes with sorting. */
  lemma {:induction false} UptoOfSort<T(!new)>(xs: seq<T>, key: T -> int, bound: int)
    ensures Upto(SortBy(xs, key), key, bound) == SortBy(Upto(xs, key, bound), key)
  {
    if |xs| > 0 {
      UptoOfSort(xs[1..], key, bound);
      UptoOfInsert(xs[0], SortBy(xs[1..], key), key, bound);
      if key(xs[0]) <= bound {
        var u := [xs[0]] + Upto(xs[1..], key, bound);
        assert u[0] == xs[0] && u[1..] == Upto(xs[1..], key, bound);
      }
    }
  }

  /** Appending rows keyed after the bound leaves the sorted rows up to the
      bound untouched: the point-in-time guarantee at the level of rows. */
  lemma SortedUptoIgnoresLaterRows<T(!new)>(xs: seq<T>, ys: seq<T>, key: T -> int, bound: int)
    requires forall i :: 0 <= i < |ys| ==> key(ys[i]) > bound
    ensures Upto(SortBy(xs + ys, key), key, bound) == Upto(SortBy(xs, key), key, bound)
  {
    UptoOfSort(xs + ys, key, bound);
    UptoOfSort(xs, key, bound);
    UptoAppend(xs, ys, key, bound);
    UptoOfLater(ys, key, bound);
    assert Upto(xs, key, bound) + [] == Upto(xs, key, bound);
  }

  /* -------------------------------------------------- keep-last dedupe */

  /** `drop_duplicates(subset=key, keep="last")`: a row survives exactly when
      no later row shares its key; survivors keep their relative order. */
  function DedupeLast<T(==,!new), K(==,!new)>(xs: seq<T>, key: T -> K): (r: seq<T>)
    ensures UniqueKeys(r, key)
    ensures forall y :: y in r ==> y in xs
    ensures forall k :: HasKey(r, key, k) <==> HasKey(xs, key, k)
    ensures IsSubseq(r, xs)
  {
    if |xs| == 0 then []
    else
      var rest := DedupeLast(xs[1..], key);
      assert forall k :: HasKey(xs, key, k) <==> (key(xs[0]) == k || HasKey(xs[1..], key, k)) by {
        forall k ensures HasKey(xs, key, k) <==> (key(xs[0]) == k || HasKey(xs[1..], key, k)) {
          if HasKey(xs, key, k) && key(xs[0]) != k {
            var i :| 0 <= i < |xs| && key(xs[i]) == k;
            assert xs[1..][i - 1] == xs[i];
          }
          if HasKey(xs[1..], key, k) {
            var i :| 0 <= i < |xs[1..]| && key(xs[1..][i]) == k;
            assert xs[i + 1] == xs[1..][i];
          }
        }
      }
      if HasKey(xs[1..], key, key(xs[0])) then
        rest
      else
        var r := [xs[0]] + rest;
        assert r[0] == xs[0] && r[1..] == rest;
        assert forall i :: 0 <= i < |rest| ==> key(rest[i]) != key(xs[0]) by {
          forall i | 0 <= i < |rest| ensures key(rest[i]) != key(xs[0]) {
            assert HasKey(rest, key, key(rest[i]));
          }
        }
        assert forall k :: HasKey(r, key, k) <==> (key(xs[0]) == k || HasKey(rest, key, k)) by {
          forall k ensures HasKey(r, key, k) <==> (key(xs[0]) == k || HasKey(rest, key, k)) {
            if HasKey(r, key, k) && key(xs[0]) != k {
              var i :| 0 <= i < |r| && key(r[i]) == k;
              assert rest[i - 1] == r[i];
            }
            if HasKey(rest, key, k) {
              var i :| 0 <= i < |rest| && key(rest[i]) == k;
              assert r[i + 1] == rest[i];
            }
          }
        }
        r
  }

  /** A row that is the last of its key survives de-duplication. */
  lemma {:induction false} DedupeKeepsLast<T(!new), K(!new)>(xs: seq<T>, key: T -> K, i: int)
    requires 0 <= i < |xs| && IsLastOf(xs, key, i)
    ensures xs[i] in DedupeLast(xs, key)
  {
    if i == 0 {
      NotLaterKey(xs, key);
    } else {
      assert IsLastOf(xs[1..], key, i - 1) by {
        forall j | i - 1 < j < |xs[1..]| ensures key(xs[1..][j]) != key(xs[1..][i - 1]) {
          assert xs[1..][j] == xs[j + 1];
        }
      }
      DedupeKeepsLast(xs[1..], key, i - 1);
    }
  }

  /** The survivor for a key is its last occurrence and no other row. */
  lemma {:induction false} DedupeSurvivorIsLast<T(!new), K(!new)>(xs: seq<T>, key: T -> K, i: int, y: T)
    requires 0 <= i < |xs| && IsLastOf(xs, key, i)
    requires y in DedupeLast(xs, key) && key(y) == key(xs[i])
    ensures y == xs[i]
  {
    var rest := DedupeLast(xs[1..], key);
    if i == 0 {
      NotLaterKey(xs, key);
      forall z | z in rest ensures key(z) != key(xs[0]) {
        var j :| 0 <= j < |rest| && rest[j] == z;
        assert HasKey(rest, key, key(z));
      }
    } else {
      assert IsLastOf(xs[1..], key, i - 1) by {
        forall j | i - 1 < j < |xs[1..]| ensures key(xs[1..][j]) != key(xs[1..][i - 1]) {
          assert xs[1..][j] == xs[j + 1];
        }
      }
      assert xs[1..][i - 1] == xs[i];
      assert HasKey(xs[1..], key, key(xs[i]));
      assert y in rest by {
        if !HasKey(xs[1..], key, key(xs[0])) {
          assert key(xs[0]) != key(y);
        }
      }
      DedupeSurvivorIsLast(xs[1..], key, i - 1, y);
    }
  }

  /** The first row is the last of its key exactly when no later row shares
      that key. */
  lemma NotLaterKey<T(!new), K(!new)>(xs: seq<T>, key: T -> K)
    requires |xs| > 0 && IsLastOf(xs, key, 0)
    ensures !HasKey(xs[1..], key, key(xs[0]))
  {
    forall j | 0 <= j < |xs[1..]| ensures key(xs[1..][j]) != key(xs[0]) {
      assert xs[1..][j] == xs[j + 1];
    }
  }

  /** De-duplicating rows whose keys are already distinct changes nothing. */
  lemma {:induction false} DedupeOfUnique<T(!new), K(!new)>(xs: seq<T>, key: T -> K)
    requires UniqueKeys(xs, key)
    ensures DedupeLast(xs, key) == xs
  {
    if |xs| > 0 {
      assert UniqueKeys(xs[1..], key) by {
        forall i, j | 0 <= i < j < |xs[1..]| ensures key(xs[1..][i]) != key(xs[1..][j]) {
          assert xs[1..][i] == xs[i + 1] && xs[1..][j] == xs[j + 1];
        }
      }
      DedupeOfUnique(xs[1..], key);
      NotLaterKey(xs, key);
      assert xs == [xs[0]] + xs[1..];
    }
  }

  /* ------------------------------------------------------- row filters */

  /** The rows satisfying p, in their original order: a boolean-mask
      selection `df[mask]`. */
  function Filter<T(!new)>(s: seq<T>, p: T -> bool): (r: seq<T>)
    ensures |r| <= |s|
    ensures forall i :: 0 <= i < |r| ==> p(r[i])
    ensures IsSubseq(r, s)
  {
    if |s| == 0 then []
    else
      var rest := Filter(s[1..], p);
      if p(s[0]) then
        var r := [s[0]] + rest;
        assert r[0] == s[0] && r[1..] == rest;
        r
      else rest
  }

  /** Filter keeps exactly the rows that satisfy p. */
  lemma {:induction false} FilterMembers<T(!new)>(s: seq<T>, p: T -> bool)
    ensures forall y :: y in Filter(s, p) <==> (y in s && p(y))
  {
    if |s| > 0 {
      FilterMembers(s[1..], p);
      assert s == [s[0]] + s[1..];
    }
  }

  /** A filter that every row passes changes nothing. */
  lemma {:induction false} FilterAll<T(!new)>(s: seq<T>, p: T -> bool)
    requires forall i :: 0 <= i < |s| ==> p(s[i])
    ensures Filter(s, p) == s
  {
    if |s| > 0 {
      FilterAll(s[1..], p);
      assert s == [s[0]] + s[1..];
    }
  }

  /** Filters distribute over concatenation. */
  lemma {:induction false} FilterAppend<T(!new)>(xs: seq<T>, ys: seq<T>, p: T -> bool)
    ensures Filter(xs + ys, p) == Filter(xs, p) + Filter(ys, p)
  {
    if |xs| == 0 {
      assert xs + ys == ys;
    } else {
      var zs := xs + ys;
      assert zs[0] == xs[0] && zs[1..] == xs[1..] + ys;
      FilterAppend(xs[1..], ys, p);
    }
  }

  /** An order-preserving subsequence of a strictly increasing sequence is
      strictly increasing. */
  lemma {:induction false} SubseqStrict<T(!new)>(a: seq<T>, b: seq<T>, key: T -> int)
    requires IsSubseq(a, b) && StrictlyIncreasing(b, key)
    ensures StrictlyIncreasing(a, key)
    decreases |b|
  {
    if |a| > 0 {
      TailStrict(b, key);
      if a[0] == b[0] && IsSubseq(a[1..], b[1..]) {
        SubseqStrict(a[1..], b[1..], key);
        SubseqMembers(a[1..], b[1..]);
        forall q | 0 <= q < |a[1..]| ensures key(a[0]) < key(a[1..][q]) {
          assert a[1..][q] in a[1..];
        }
        ConsStrict(a[0], a[1..], key);
        assert a == [a[0]] + a[1..];
      } else {
        SubseqStrict(a, b[1..], key);
      }
    }
  }

  /** In a permutation of xs, some position holds xs's first element, and
      removing it leaves a permutation of the rest of xs. */
  lemma MatchHead<T(!new)>(xs: seq<T>, ys: seq<T>) returns (j: nat)
    requires |xs| > 0 && multiset(xs) == multiset(ys)
    ensures j < |ys| && ys[j] == xs[0]
    ensures multiset(xs[1..]) == multiset(ys[..j] + ys[j + 1..])
  {
    var x := xs[0];
    assert x in multiset(ys);
    j :| 0 <= j < |ys| && ys[j] == x;
    var pre, post := ys[..j], ys[j + 1..];
    assert ys == pre + [x] + post;
    assert xs == [x] + xs[1..];
    assert multiset(ys) == multiset(pre) + multiset{x} + multiset(post);
    assert multiset(xs) == multiset{x} + multiset(xs[1..]);
    assert multiset(pre + post) == multiset(pre) + multiset(post);
    forall y ensures multiset(xs[1..])[y] == multiset(pre + post)[y] {
      assert multiset(xs)[y] == multiset(ys)[y];
    }
  }
}
