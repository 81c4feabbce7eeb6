/** `sortLogs` of src/LogProvider.tsx: order the records by timestamp and,
    on equal timestamps, put `ORIGIN_MANIFEST` records first. The sort is
    stable, so records that agree on both are kept in input order. */
module EventOrder {
  import opened CloudWatch

  /** The tie-break: origin manifests before everything else. */
  function Rank(r: CWLog): nat
  {
    if IsOrigin(r) then 0 else 1
  }

  /** `a` may come before `b`: the key (timestamp, rank) of `a` is at most
      that of `b`. */
  predicate Precedes(a: CWLog, b: CWLog)
  {
    a.timestamp < b.timestamp || (a.timestamp == b.timestamp && Rank(a) <= Rank(b))
  }

  predicate SameKey(a: CWLog, b: CWLog)
  {
    a.timestamp == b.timestamp && Rank(a) == Rank(b)
  }

  /** The comparator passed to `logs.sort` as written: the timestamp
      difference, and on equal timestamps -1 when the left record is an
      origin manifest and 1 otherwise. */
  function CompareAsWritten(a: CWLog, b: CWLog): (r: int)
    ensures r != 0
    ensures a.timestamp < b.timestamp ==> r < 0
    ensures a.timestamp > b.timestamp ==> r > 0
    ensures a.timestamp == b.timestamp ==> (r < 0 <==> IsOrigin(a))
  {
    if a.timestamp - b.timestamp != 0 then a.timestamp - b.timestamp
    else if IsOrigin(a) then -1 else 1
  }

  /** On two records of the same kind with the same timestamp the
      comparator contradicts itself: each generated manifest sorts after
      the other, and each origin manifest before the other. */
  lemma ComparatorContradicts(ts: int, x: string, y: string)
    ensures var a, b := CWLog(ts, GeneratedManifest, x), CWLog(ts, GeneratedManifest, y);
            CompareAsWritten(a, b) > 0 && CompareAsWritten(b, a) > 0
    ensures var a, b := CWLog(ts, OriginManifest, x), CWLog(ts, OriginManifest, y);
            CompareAsWritten(a, b) < 0 && CompareAsWritten(b, a) < 0
  {
  }

  /** Off those ties the comparator is the key order: it puts `a` first
      exactly when `a`'s key precedes `b`'s. */
  lemma ComparatorAgreesOffTies(a: CWLog, b: CWLog)
    requires !SameKey(a, b)
    ensures CompareAsWritten(a, b) < 0 <==> Precedes(a, b)
    ensures CompareAsWritten(a, b) > 0 <==> Precedes(b, a)
  {
  }

  /** The key order is total and transitive, so sorting by it is well
      defined. */
  lemma PrecedesTotalPreorder(a: CWLog, b: CWLog, c: CWLog)
    ensures Precedes(a, b) || Precedes(b, a)
    ensures Precedes(a, b) && Precedes(b, c) ==> Precedes(a, c)
  {
  }

  predicate Sorted(s: seq<CWLog>)
  {
    forall i, j :: 0 <= i < j < |s| ==> Precedes(s[i], s[j])
  }

  /** Insert `x` into `s` after every record whose key does not exceed
      that of `x`. */
  function Insert(s: seq<CWLog>, x: CWLog): (r: seq<CWLog>)
    ensures |r| == |s| + 1
  {
    if s == [] then [x]
    else if !Precedes(s[0], x) then [x] + s
    else [s[0]] + Insert(s[1..], x)
  }

  /** The stable sort of `s` by key. */
  function SortByKey(s: seq<CWLog>): (r: seq<CWLog>)
    ensures |r| == |s|
  {
    if s == [] then [] else Insert(SortByKey(s[..|s| - 1]), s[|s| - 1])
  }

  lemma {:induction false} InsertPermutes(s: seq<CWLog>, x: CWLog)
    ensures multiset(Insert(s, x)) == multiset(s) + multiset{x}
  {
    if s != [] && Precedes(s[0], x) {
      InsertPermutes(s[1..], x);
      assert s == [s[0]] + s[1..];
    }
  }

  lemma {:induction false} InsertSorted(s: seq<CWLog>, x: CWLog)
    requires Sorted(s)
    ensures Sorted(Insert(s, x))
  {
    if s != [] && Precedes(s[0], x) {
      InsertSorted(s[1..], x);
      InsertPermutes(s[1..], x);
      var r := Insert(s[1..], x);
      forall j | 0 <= j < |r|
        ensures Precedes(s[0], r[j])
      {
        assert r[j] in multiset(r);
      }
    }
  }

  /** Sorting yields a permutation of the input... */
  lemma {:induction false} SortPermutes(s: seq<CWLog>)
    ensures multiset(SortByKey(s)) == multiset(s)
  {
    if s != [] {
      SortPermutes(s[..|s| - 1]);
      InsertPermutes(SortByKey(s[..|s| - 1]), s[|s| - 1]);
      assert s == s[..|s| - 1] + [s[|s| - 1]];
    }
  }

  /** ...ordered by key. */
  lemma {:induction false} SortSorted(s: seq<CWLog>)
    ensures Sorted(SortByKey(s))
  {
    if s != [] {
      SortSorted(s[..|s| - 1]);
      InsertSorted(SortByKey(s[..|s| - 1]), s[|s| - 1]);
    }
  }

  /** What the key order means for the records: timestamps never decrease,
      and among records with the same timestamp no origin manifest comes
      after a record of another kind. */
  lemma SortedIsChronological(s: seq<CWLog>, i: nat, j: nat)
    requires Sorted(s) && i < j < |s|
    ensures s[i].timestamp <= s[j].timestamp
    ensures s[i].timestamp == s[j].timestamp && IsOrigin(s[j]) ==> IsOrigin(s[i])
  {
    assert Precedes(s[i], s[j]);
  }

  /** The records of `s` with the key of `k`, in order. */
  function WithKeyOf(s: seq<CWLog>, k: CWLog): seq<CWLog>
  {
    if s == [] then []
    else (if SameKey(s[0], k) then [s[0]] else []) + WithKeyOf(s[1..], k)
  }

  lemma {:induction false} WithKeyOfAppend(a: seq<CWLog>, b: seq<CWLog>, k: CWLog)
    ensures WithKeyOf(a + b, k) == WithKeyOf(a, k) + WithKeyOf(b, k)
  {
    if a != [] {
      assert (a + b)[1..] == a[1..] + b;
      WithKeyOfAppend(a[1..], b, k);
    } else {
      assert a + b == b;
    }
  }

  lemma {:induction false} InsertWithKeyOf(s: seq<CWLog>, x: CWLog, k: CWLog)
    requires Sorted(s)
    ensures WithKeyOf(Insert(s, x), k)
              == WithKeyOf(s, k) + (if SameKey(x, k) then [x] else [])
  {
    if s == [] {
    } else if !Precedes(s[0], x) {
      // every record of s has a key above that of x
      if SameKey(x, k) {
        NoneWithKey(s, k);
      }
      assert [x] + s == [x] + s;
      WithKeyOfAppend([x], s, k);
    } else {
      InsertWithKeyOf(s[1..], x, k);
      WithKeyOfAppend([s[0]], Insert(s[1..], x), k);
      WithKeyOfAppend([s[0]], s[1..], k);
      assert [s[0]] + s[1..] == s;
    }
  }

  lemma {:induction false} NoneWithKey(s: seq<CWLog>, k: CWLog)
    requires Sorted(s) && s != [] && !Precedes(s[0], k)
    ensures WithKeyOf(s, k) == []
  {
    if |s| > 1 {
      assert Precedes(s[0], s[1]);
      NoneWithKey(s[1..], k);
    }
  }

  /** The sort is stable: the records sharing one key appear in the output
      in the order they had in the input. */
  lemma {:induction false} SortStable(s: seq<CWLog>, k: CWLog)
    ensures WithKeyOf(SortByKey(s), k) == WithKeyOf(s, k)
  {
    if s != [] {
      var init, last := s[..|s| - 1], s[|s| - 1];
      assert SortByKey(s) == Insert(SortByKey(init), last);
      SortStable(init, k);
      SortSorted(init);
      InsertWithKeyOf(SortByKey(init), last, k);
      assert s == init + [last];
      WithKeyOfAppend(init, [last], k);
    }
  }

  /** Sorting sorted records leaves them alone, so sorting twice gives the
      order of sorting once. */
  lemma {:induction false} SortIdempotent(s: seq<CWLog>)
    ensures SortByKey(SortByKey(s)) == SortByKey(s)
  {
    SortSorted(s);
    SortOfSorted(SortByKey(s));
  }

  lemma {:induction false} SortOfSorted(s: seq<CWLog>)
    requires Sorted(s)
    ensures SortByKey(s) == s
  {
    if s != [] {
      var init := s[..|s| - 1];
      SortOfSorted(init);
      InsertAt(init, s[|s| - 1], |init|);
      assert init + [s[|s| - 1]] == s;
    }
  }

  /** In a sorted run, inserting `x` puts it at the position `j` where the
      records before it precede it and the records from `j` on do not. */
  lemma {:induction false} InsertAt(s: seq<CWLog>, x: CWLog, j: nat)
    requires Sorted(s) && j <= |s|
    requires j > 0 ==> Precedes(s[j - 1], x)
    requires forall k :: j <= k < |s| ==> !Precedes(s[k], x)
    ensures Insert(s, x) == s[..j] + [x] + s[j..]
  {
    if j == 0 {
      assert s[j..] == s;
    } else {
      assert Precedes(s[0], s[j - 1]) || j - 1 == 0;
      assert Precedes(s[0], x);
      InsertAt(s[1..], x, j - 1);
      assert s[1..][..j - 1] == s[1..j];
      assert s[1..][j - 1..] == s[j..];
      assert [s[0]] + s[1..j] == s[..j];
    }
  }

  /** `logs.sort(...)`: sort the records in place. */
  method SortLogs(a: array<CWLog>)
    modifies a
    ensures a[..] == SortByKey(old(a[..]))
    ensures Sorted(a[..]) && multiset(a[..]) == multiset(old(a[..]))
  {
    ghost var input := a[..];
    var i := 0;
    while i < a.Length
      invariant 0 <= i <= a.Length
      invariant a[..i] == SortByKey(input[..i])
      invariant a[i..] == input[i..]
    {
      SortSorted(input[..i]);
      SiftDown(a, i);
      assert input[..i + 1] == input[..i] + [input[i]];
      assert input[..i + 1][..i] == input[..i];
      i := i + 1;
    }
    assert input[..a.Length] == input;
    SortSorted(input);
    SortPermutes(input);
  }

  /** One step of the insertion sort: move `a[i]` down into the sorted run
      `a[..i]`. */
  method SiftDown(a: array<CWLog>, i: nat)
    requires i < a.Length && Sorted(a[..i])
    modifies a
    ensures a[..i + 1] == Insert(old(a[..i]), old(a[i]))
    ensures a[i + 1..] == old(a[i + 1..])
  {
    ghost var sorted := a[..i];
    var x := a[i];
    var j := i;
    while j > 0 && !Precedes(a[j - 1], x)
      invariant 0 <= j <= i
      invariant a[j] == x
      invariant forall k :: 0 <= k < j ==> a[k] == sorted[k]
      invariant forall k :: j < k <= i ==> a[k] == sorted[k - 1]
      invariant forall k :: j <= k < i ==> !Precedes(sorted[k], x)
      invariant forall k :: i < k < a.Length ==> a[k] == old(a[k])
    {
      a[j - 1], a[j] := a[j], a[j - 1];
      j := j - 1;
    }
    Shifted(a[..], sorted, x, i, j);
    assert a[i + 1..] == old(a[i + 1..]);
  }

  /** The array after the sift, as a sequence: the run before `j` kept,
      `x` at `j`, the rest of the run moved up by one, which is `x`
      inserted into the run. */
  lemma Shifted(t: seq<CWLog>, sorted: seq<CWLog>, x: CWLog, i: nat, j: nat)
    requires |sorted| == i < |t| && j <= i && Sorted(sorted)
    requires t[j] == x
    requires forall k :: 0 <= k < j ==> t[k] == sorted[k]
    requires forall k :: j < k <= i ==> t[k] == sorted[k - 1]
    requires j > 0 ==> Precedes(sorted[j - 1], x)
    requires forall k :: j <= k < i ==> !Precedes(sorted[k], x)
    ensures t[..i + 1] == Insert(sorted, x)
  {
    InsertAt(sorted, x, j);
    forall k | 0 <= k <= i
      ensures t[..i + 1][k] == (sorted[..j] + [x] + sorted[j..])[k]
    {
    }
  }
}
