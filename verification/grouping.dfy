/**
 Generic grouping of a sequence of rows by a parallel sequence of keys.

 `Distinct` is the list of key values in the order they first occur (what
 `unique()` gives for the grouping column), `Select` is the order-preserving
 selection of the rows whose key equals one value (the boolean-mask filter),
 and `Positions` is the same selection expressed on row indices. The lemmas
 show that the groups taken in distinct-key order partition the rows.
 */
module Grouping {

  /** True when no value occurs twice in `s`. */
  predicate NoDuplicates<K(==,!new)>(s: seq<K>) {
    forall i, j :: 0 <= i < j < |s| ==> s[i] != s[j]
  }

  /** True when `s` is strictly increasing. */
  predicate StrictlyIncreasing(s: seq<nat>) {
    forall i, j :: 0 <= i < j < |s| ==> s[i] < s[j]
  }

  /** The index of the first occurrence of `k` in `ks`. */
  function FirstIndex<K(==,!new)>(ks: seq<K>, k: K): (i: nat)
    requires k in ks
    ensures i < |ks| && ks[i] == k
    ensures forall j :: 0 <= j < i ==> ks[j] != k
  {
    if ks[0] == k then 0 else 1 + FirstIndex(ks[1..], k)
  }

  /** True when the values of `r` appear in the order of their first
      occurrence in `ks`. */
  predicate InFirstOccurrenceOrder<K(==,!new)>(r: seq<K>, ks: seq<K>)
    requires forall k :: k in r ==> k in ks
  {
    forall i, j :: 0 <= i < j < |r| ==> FirstIndex(ks, r[i]) < FirstIndex(ks, r[j])
  }

  /** The distinct values of `ks`, each once, in first-occurrence order. */
  function Distinct<K(==,!new)>(ks: seq<K>): (r: seq<K>)
    ensures NoDuplicates(r)
    ensures forall k :: k in r <==> k in ks
    ensures |r| <= |ks|
  {
    if |ks| == 0 then []
    else
      var n := |ks| - 1;
      assert ks == ks[..n] + [ks[n]];
      var p := Distinct(ks[..n]);
      if ks[n] in p then p else p + [ks[n]]
  }

  /** Appending a key extends the distinct list exactly when the key is new. */
  lemma DistinctAppend<K(!new)>(ks: seq<K>, k: K)
    ensures Distinct(ks + [k]) == if k in Distinct(ks) then Distinct(ks) else Distinct(ks) + [k]
  {
    assert (ks + [k])[..|ks|] == ks;
  }

  /** The rows whose parallel key equals `v`, in their original order. */
  function Select<T, K(==,!new)>(rows: seq<T>, keys: seq<K>, v: K): (r: seq<T>)
    requires |rows| == |keys|
    ensures |r| <= |rows|
    ensures forall x :: x in r ==> x in rows
  {
    if |rows| == 0 then []
    else
      var n := |rows| - 1;
      Select(rows[..n], keys[..n], v) + (if keys[n] == v then [rows[n]] else [])
  }

  /** The indices `i` with `keys[i] == v`, in increasing order. */
  function Positions<K(==,!new)>(keys: seq<K>, v: K): (r: seq<nat>)
    ensures StrictlyIncreasing(r)
    ensures forall i: nat :: i in r <==> i < |keys| && keys[i] == v
  {
    if |keys| == 0 then []
    else
      var n := |keys| - 1;
      var p := Positions(keys[..n], v);
      assert forall i :: 0 <= i < |p| ==> p[i] < n by {
        forall i | 0 <= i < |p| ensures p[i] < n {
          assert p[i] in p;
        }
      }
      p + (if keys[n] == v then [n] else [])
  }

  /** The rows at the given indices, in the order of the indices. */
  function Pick<T>(rows: seq<T>, idx: seq<nat>): (r: seq<T>)
    requires forall j :: 0 <= j < |idx| ==> idx[j] < |rows|
    ensures |r| == |idx|
    ensures forall j :: 0 <= j < |idx| ==> r[j] == rows[idx[j]]
  {
    seq(|idx|, j requires 0 <= j < |idx| => rows[idx[j]])
  }

  /** The sequence 0, 1, ..., n - 1. */
  function Range(n: nat): (r: seq<nat>)
    ensures |r| == n
    ensures forall i :: 0 <= i < n ==> r[i] == i
  {
    seq(n, i requires 0 <= i < n => i)
  }

  /** The groups for `ds`, one after the other. */
  function Collect<T, K(==,!new)>(rows: seq<T>, keys: seq<K>, ds: seq<K>): seq<T>
    requires |rows| == |keys|
  {
    if |ds| == 0 then [] else Select(rows, keys, ds[0]) + Collect(rows, keys, ds[1..])
  }

  /** The value `unique()` computes, by the hash-set scan it performs:
      walk the column once, emitting each value the first time it is seen. */
  method UniqueValues<K(==,!new)>(ks: seq<K>) returns (r: seq<K>)
    ensures r == Distinct(ks)
  {
    var seen: set<K> := {};
    r := [];
    var i := 0;
    while i < |ks|
      invariant 0 <= i <= |ks|
      invariant r == Distinct(ks[..i])
      invariant forall k :: k in seen <==> k in r
    {
      assert ks[..i + 1][..i] == ks[..i];
      if ks[i] !in seen {
        r := r + [ks[i]];
        seen := seen + {ks[i]};
      }
      i := i + 1;
    }
    assert ks[..|ks|] == ks;
  }

  /** The first occurrence of a value of a prefix is its first occurrence in
      the whole sequence. */
  lemma FirstIndexOfPrefix<K(!new)>(ks: seq<K>, m: nat, k: K)
    requires m <= |ks| && k in ks[..m]
    ensures FirstIndex(ks, k) == FirstIndex(ks[..m], k)
  {
    var a := FirstIndex(ks, k);
    var b := FirstIndex(ks[..m], k);
    assert ks[b] == k;
    assert a <= b;
    assert ks[..m][a] == k;
  }

  /** `Distinct` lists the values in the order in which they first occur. */
  lemma {:induction false} DistinctInFirstOccurrenceOrder<K(!new)>(ks: seq<K>)
    ensures InFirstOccurrenceOrder(Distinct(ks), ks)
  {
    if |ks| > 0 {
      var n := |ks| - 1;
      var p := Distinct(ks[..n]);
      DistinctInFirstOccurrenceOrder(ks[..n]);
      assert ks == ks[..n] + [ks[n]];
      forall x | x in p ensures FirstIndex(ks, x) == FirstIndex(ks[..n], x) {
        FirstIndexOfPrefix(ks, n, x);
      }
      var r := Distinct(ks);
      forall i, j | 0 <= i < j < |r| ensures FirstIndex(ks, r[i]) < FirstIndex(ks, r[j]) {
        if j < |p| {
          assert r[i] == p[i] && r[j] == p[j];
          assert FirstIndex(ks[..n], p[i]) < FirstIndex(ks[..n], p[j]);
        } else {
          assert r[j] == ks[n] && ks[n] !in ks[..n];
          assert r[i] == p[i];
          assert FirstIndex(ks, ks[n]) == n;
        }
      }
    }
  }

  /** `Distinct` is fully characterised by its three properties: any list
      without duplicates, holding exactly the values of `ks`, in
      first-occurrence order, is `Distinct(ks)`. */
  lemma DistinctUnique<K(!new)>(ks: seq<K>, r: seq<K>)
    requires NoDuplicates(r)
    requires forall k :: k in r <==> k in ks
    requires InFirstOccurrenceOrder(r, ks)
    ensures r == Distinct(ks)
  {
    var d := Distinct(ks);
    DistinctInFirstOccurrenceOrder(ks);
    OrderedListsAgree(ks, r, d);
  }

  /** Two duplicate-free lists over the same values, both ordered by first
      occurrence, are equal. */
  lemma {:induction false} OrderedListsAgree<K(!new)>(ks: seq<K>, a: seq<K>, b: seq<K>)
    requires NoDuplicates(a) && NoDuplicates(b)
    requires forall k :: k in a <==> k in ks
    requires forall k :: k in b <==> k in ks
    requires InFirstOccurrenceOrder(a, ks) && InFirstOccurrenceOrder(b, ks)
    ensures a == b
    decreases |a|
  {
    assert |b| > 0 ==> b[0] in a;
    if |a| > 0 {
      HeadsAgree(ks, a, b);
      var h := a[0];
      TailValues(ks, a);
      TailValues(ks, b);
      RemoveValuePreservesOrder(ks, h, a[1..]);
      RemoveValuePreservesOrder(ks, h, b[1..]);
      OrderedListsAgree(RemoveValue(ks, h), a[1..], b[1..]);
      assert a == [a[0]] + a[1..];
      assert b == [b[0]] + b[1..];
    }
  }

  /** Both lists start with the value that occurs first. */
  lemma HeadsAgree<K(!new)>(ks: seq<K>, a: seq<K>, b: seq<K>)
    requires |a| > 0
    requires forall k :: k in a <==> k in ks
    requires forall k :: k in b <==> k in ks
    requires InFirstOccurrenceOrder(a, ks) && InFirstOccurrenceOrder(b, ks)
    ensures |b| > 0 && a[0] == b[0]
  {
    assert a[0] in ks;
    assert a[0] in b;
    var i :| 0 <= i < |b| && b[i] == a[0];
    assert b[0] in ks;
    var j :| 0 <= j < |a| && a[j] == b[0];
  }

  /** The tail of a duplicate-free list holds the values other than its head. */
  lemma TailValues<K(!new)>(ks: seq<K>, a: seq<K>)
    requires |a| > 0 && NoDuplicates(a)
    requires forall k :: k in a <==> k in ks
    ensures NoDuplicates(a[1..])
    ensures forall k :: k in a[1..] ==> k in ks && k != a[0]
    ensures forall k :: k in a[1..] <==> k in RemoveValue(ks, a[0])
  {
    var h := a[0];
    forall k ensures k in a[1..] <==> k in RemoveValue(ks, h) {
      if k in a[1..] {
        var i :| 1 <= i < |a| && a[i] == k;
      }
      if k in RemoveValue(ks, h) {
        assert k in a;
        var i :| 0 <= i < |a| && a[i] == k;
        assert a[1..][i - 1] == k;
      }
    }
  }

  /** `ks` without any occurrence of `h`. */
  function RemoveValue<K(==,!new)>(ks: seq<K>, h: K): (r: seq<K>)
    ensures forall k :: k in r <==> k in ks && k != h
  {
    if |ks| == 0 then []
    else (if ks[0] == h then [] else [ks[0]]) + RemoveValue(ks[1..], h)
  }

  /** Removing a value keeps the relative order of the first occurrences of
      every other value. */
  lemma {:induction false} RemoveValueKeepsFirstOrder<K(!new)>(ks: seq<K>, h: K, x: K, y: K)
    requires x in ks && y in ks && x != h && y != h
    ensures FirstIndex(ks, x) < FirstIndex(ks, y) <==>
            FirstIndex(RemoveValue(ks, h), x) < FirstIndex(RemoveValue(ks, h), y)
  {
    var r := RemoveValue(ks, h);
    var t := RemoveValue(ks[1..], h);
    if ks[0] == h {
      assert r == t;
      assert x in ks[1..] && y in ks[1..];
      RemoveValueKeepsFirstOrder(ks[1..], h, x, y);
    } else if ks[0] == x || ks[0] == y {
      assert r[0] == ks[0];
    } else {
      assert r == [ks[0]] + t;
      assert x in ks[1..] && y in ks[1..];
      RemoveValueKeepsFirstOrder(ks[1..], h, x, y);
      assert FirstIndex(r, x) == 1 + FirstIndex(t, x);
      assert FirstIndex(r, y) == 1 + FirstIndex(t, y);
    }
  }

  /** A list in the first-occurrence order of `ks` that avoids `h` keeps that
      order, and its members, once `h` is removed from `ks`. */
  lemma RemoveValuePreservesOrder<K(!new)>(ks: seq<K>, h: K, s: seq<K>)
    requires forall k :: k in s ==> k in ks && k != h
    requires InFirstOccurrenceOrder(s, ks)
    ensures forall k :: k in s ==> k in RemoveValue(ks, h)
    ensures InFirstOccurrenceOrder(s, RemoveValue(ks, h))
  {
    forall i, j | 0 <= i < j < |s| && s[i] in s && s[j] in s
      ensures FirstIndex(RemoveValue(ks, h), s[i]) < FirstIndex(RemoveValue(ks, h), s[j])
    {
      RemoveValueKeepsFirstOrder(ks, h, s[i], s[j]);
    }
  }

  /** A value that does not occur selects nothing; one that occurs selects
      at least one row. */
  lemma {:induction false} SelectEmptyIff<T, K(!new)>(rows: seq<T>, keys: seq<K>, v: K)
    requires |rows| == |keys|
    ensures |Select(rows, keys, v)| == 0 <==> v !in keys
  {
    if |rows| > 0 {
      var n := |rows| - 1;
      assert keys == keys[..n] + [keys[n]];
      SelectEmptyIff(rows[..n], keys[..n], v);
    }
  }

  /** A group has as many rows as its key has occurrences. */
  lemma {:induction false} SelectSizeIsCount<T, K(!new)>(rows: seq<T>, keys: seq<K>, v: K)
    requires |rows| == |keys|
    ensures |Select(rows, keys, v)| == multiset(keys)[v]
  {
    if |rows| > 0 {
      var n := |rows| - 1;
      assert keys == keys[..n] + [keys[n]];
      SelectSizeIsCount(rows[..n], keys[..n], v);
    }
  }

  /** The selection is exactly the rows at the positions of `v`: the rows
      whose key equals `v`, every one of them, in their original order. */
  lemma {:induction false} SelectIsPick<T, K(!new)>(rows: seq<T>, keys: seq<K>, v: K)
    requires |rows| == |keys|
    ensures forall j :: 0 <= j < |Positions(keys, v)| ==> Positions(keys, v)[j] < |rows|
    ensures Select(rows, keys, v) == Pick(rows, Positions(keys, v))
  {
    var p := Positions(keys, v);
    forall j | 0 <= j < |p| ensures p[j] < |rows| {
      assert p[j] in p;
    }
    if |rows| > 0 {
      var n := |rows| - 1;
      var p' := Positions(keys[..n], v);
      assert Select(rows[..n], keys[..n], v) == Pick(rows[..n], p') by {
        SelectIsPick(rows[..n], keys[..n], v);
      }
      assert forall j :: 0 <= j < |p'| ==> p'[j] < n by {
        forall j | 0 <= j < |p'| ensures p'[j] < n {
          assert p'[j] in p';
        }
      }
      assert p == p' + (if keys[n] == v then [n] else []);
      PickSnoc(rows, p', keys[n] == v);
    }
  }

  /** Picking one more index, the last one, appends the last row. */
  lemma PickSnoc<T>(rows: seq<T>, idx: seq<nat>, hit: bool)
    requires |rows| > 0
    requires forall j :: 0 <= j < |idx| ==> idx[j] < |rows| - 1
    ensures var n := |rows| - 1;
      Pick(rows, idx + (if hit then [n] else [])) == Pick(rows[..n], idx) + (if hit then [rows[n]] else [])
  {
  }

  /** Every row with key `v` lies in the selection for `v`. */
  lemma SelectContains<T, K(!new)>(rows: seq<T>, keys: seq<K>, i: nat)
    requires |rows| == |keys| && i < |rows|
    ensures rows[i] in Select(rows, keys, keys[i])
  {
    SelectIsPick(rows, keys, keys[i]);
    var p := Positions(keys, keys[i]);
    var j :| 0 <= j < |p| && p[j] == i;
    assert Pick(rows, p)[j] == rows[i];
  }

  /** Positions are the selection applied to the row indices. */
  lemma {:induction false} PositionsAreSelectedIndices<K(!new)>(keys: seq<K>, v: K)
    ensures Positions(keys, v) == Select(Range(|keys|), keys, v)
  {
    SelectIsPick(Range(|keys|), keys, v);
  }

  /** Collecting the groups of one more value appends that value's group. */
  lemma {:induction false} CollectAppend<T, K(!new)>(rows: seq<T>, keys: seq<K>, ds: seq<K>, d: K)
    requires |rows| == |keys|
    ensures Collect(rows, keys, ds + [d]) == Collect(rows, keys, ds) + Select(rows, keys, d)
  {
    if |ds| > 0 {
      assert (ds + [d])[1..] == ds[1..] + [d];
      CollectAppend(rows, keys, ds[1..], d);
    }
  }

  /** Appending one row to the table adds it, once, to the groups of the
      listed values that match its key, and leaves the others unchanged. */
  lemma {:induction false} CollectExtend<T, K(!new)>(rows: seq<T>, keys: seq<K>, x: T, k: K, ds: seq<K>)
    requires |rows| == |keys| && NoDuplicates(ds)
    ensures multiset(Collect(rows + [x], keys + [k], ds)) ==
      multiset(Collect(rows, keys, ds)) + (if k in ds then multiset{x} else multiset{})
  {
    if |ds| > 0 {
      var d, tail := ds[0], ds[1..];
      var head := Select(rows, keys, d);
      var rest := Collect(rows + [x], keys + [k], tail);
      var rest' := Collect(rows, keys, tail);
      assert Collect(rows + [x], keys + [k], ds) == head + (if k == d then [x] else []) + rest by {
        SelectSnoc(rows, keys, x, k, d);
      }
      assert multiset(rest) == multiset(rest') + (if k in tail then multiset{x} else multiset{}) by {
        NoDuplicatesTail(ds);
        CollectExtend(rows, keys, x, k, tail);
      }
      assert !(k == d && k in tail) by {
        NoDuplicatesTail(ds);
      }
      assert k in ds <==> k == d || k in tail by {
        assert ds == [d] + tail;
      }
      ExtendStep(Collect(rows + [x], keys + [k], ds), Collect(rows, keys, ds), head, rest, rest', x, k == d, k in tail);
    }
  }

  /** The multiset bookkeeping of one step of `CollectExtend`: the new row
      joins the head group (`hit`) or one of the later groups (`later`), and
      never both. */
  lemma ExtendStep<T>(total: seq<T>, total': seq<T>, head: seq<T>, rest: seq<T>, rest': seq<T>,
                                         x: T, hit: bool, later: bool)
    requires !(hit && later)
    requires total' == head + rest'
    requires total == head + (if hit then [x] else []) + rest
    requires multiset(rest) == multiset(rest') + (if later then multiset{x} else multiset{})
    ensures multiset(total) == multiset(total') + (if hit || later then multiset{x} else multiset{})
  {
    assert multiset(total) == multiset(head) + multiset(if hit then [x] else []) + multiset(rest);
  }

  /** Appending a row extends the group of its key by that row and leaves the
      other groups unchanged. */
  lemma SelectSnoc<T, K(!new)>(rows: seq<T>, keys: seq<K>, x: T, k: K, v: K)
    requires |rows| == |keys|
    ensures Select(rows + [x], keys + [k], v) == Select(rows, keys, v) + (if k == v then [x] else [])
  {
    assert (rows + [x])[..|rows|] == rows;
    assert (keys + [k])[..|rows|] == keys;
  }

  /** Dropping the head of a duplicate-free list leaves it duplicate-free. */
  lemma NoDuplicatesTail<K(!new)>(ds: seq<K>)
    requires |ds| > 0 && NoDuplicates(ds)
    ensures NoDuplicates(ds[1..])
    ensures ds[0] !in ds[1..]
  {
    assert forall i :: 0 <= i < |ds[1..]| ==> ds[1..][i] == ds[i + 1];
  }


  /** The group of a key seen for the first time in the last row is that row
      alone. */
  lemma {:induction false} NewKeyGroup<T, K(!new)>(rows: seq<T>, keys: seq<K>)
    requires |rows| == |keys| && |rows| > 0
    requires keys[|rows| - 1] !in keys[..|rows| - 1]
    ensures Select(rows, keys, keys[|rows| - 1]) == [rows[|rows| - 1]]
  {
    var n := |rows| - 1;
    SelectEmptyIff(rows[..n], keys[..n], keys[n]);
  }

  /** Partition: the groups of the distinct keys, taken in order, contain
      every row exactly as often as the table does. */
  lemma {:induction false} GroupsPartitionRows<T, K(!new)>(rows: seq<T>, keys: seq<K>)
    requires |rows| == |keys|
    ensures multiset(Collect(rows, keys, Distinct(keys))) == multiset(rows)
  {
    if |rows| > 0 {
      var n := |rows| - 1;
      var rows', keys' := rows[..n], keys[..n];
      assert rows == rows' + [rows[n]];
      assert keys == keys' + [keys[n]];
      GroupsPartitionRows(rows', keys');
      PartitionSnoc(rows', keys', rows[n], keys[n]);
    }
  }

  /** The inductive step of the partition, with the last row made explicit. */
  lemma PartitionSnoc<T, K(!new)>(rows: seq<T>, keys: seq<K>, x: T, k: K)
    requires |rows| == |keys|
    requires multiset(Collect(rows, keys, Distinct(keys))) == multiset(rows)
    ensures multiset(Collect(rows + [x], keys + [k], Distinct(keys + [k]))) == multiset(rows + [x])
  {
    var d := Distinct(keys);
    var grown := Collect(rows + [x], keys + [k], d);
    assert multiset(grown) == multiset(rows) + (if k in d then multiset{x} else multiset{}) by {
      CollectExtend(rows, keys, x, k, d);
    }
    if k in d {
      assert Distinct(keys + [k]) == d by {
        DistinctAppend(keys, k);
      }
    } else {
      assert Distinct(keys + [k]) == d + [k] by {
        DistinctAppend(keys, k);
      }
      assert Collect(rows + [x], keys + [k], d + [k]) == grown + [x] by {
        CollectAppend(rows + [x], keys + [k], d, k);
        NewKeyGroup(rows + [x], keys + [k]);
        assert (keys + [k])[..|keys|] == keys;
      }
    }
  }

  /** Sum of sizes: the group sizes add up to the number of rows. */
  lemma GroupSizesSumToRowCount<T, K(!new)>(rows: seq<T>, keys: seq<K>)
    requires |rows| == |keys|
    ensures |Collect(rows, keys, Distinct(keys))| == |rows|
  {
    GroupsPartitionRows(rows, keys);
    assert |multiset(Collect(rows, keys, Distinct(keys)))| == |multiset(rows)|;
  }

  /** Every row index lies in the group of exactly one distinct key value:
      the group of its own key. */
  lemma EachIndexInExactlyOneGroup<K(!new)>(keys: seq<K>, i: nat)
    requires i < |keys|
    ensures exists a :: 0 <= a < |Distinct(keys)| && i in Positions(keys, Distinct(keys)[a])
    ensures forall a, b ::
      0 <= a < |Distinct(keys)| && 0 <= b < |Distinct(keys)| &&
      i in Positions(keys, Distinct(keys)[a]) && i in Positions(keys, Distinct(keys)[b])
      ==> a == b
  {
    var d := Distinct(keys);
    assert keys[i] in d;
    var a :| 0 <= a < |d| && d[a] == keys[i];
    assert i in Positions(keys, d[a]);
  }

  /** Each row index appears exactly once across all groups. */
  lemma {:induction false} IndicesPartitioned<K(!new)>(keys: seq<K>)
    ensures multiset(Collect(Range(|keys|), keys, Distinct(keys))) == multiset(Range(|keys|))
  {
    GroupsPartitionRows(Range(|keys|), keys);
  }

  /** Every group of a value drawn from the table is non-empty. */
  lemma GroupsNonEmpty<T, K(!new)>(rows: seq<T>, keys: seq<K>)
    requires |rows| == |keys|
    ensures forall d :: d in Distinct(keys) ==> |Select(rows, keys, d)| > 0
  {
    forall d | d in Distinct(keys) ensures |Select(rows, keys, d)| > 0 {
      SelectEmptyIff(rows, keys, d);
    }
  }
}
