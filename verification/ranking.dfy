/** Ranking: Python's `sorted(preds, key=confidence, reverse=True)`, a
    stable sort by confidence, highest first, where a missing confidence
    counts as 0. */
module Ranking {
  import opened Detections

  /** The sort key `x.get("confidence", 0)`. */
  function Conf(d: RawDetection): real {
    d.confidence.GetOr(0.0)
  }

  /** Confidence never increases along `s`. */
  predicate NonIncreasing(s: seq<RawDetection>) {
    forall i, j :: 0 <= i < j < |s| ==> Conf(s[i]) >= Conf(s[j])
  }

  /** The records of `s` whose confidence is exactly `k`, in their order in
      `s`. A sort is stable when it leaves every such list as it was. */
  function WithConf(s: seq<RawDetection>, k: real): seq<RawDetection> {
    if |s| == 0 then []
    else (if Conf(s[0]) == k then [s[0]] else []) + WithConf(s[1..], k)
  }

  /** Insert `x` in front of the first record that does not beat it, so
      that among equal confidences `x` comes first. */
  function Insert(x: RawDetection, s: seq<RawDetection>): (r: seq<RawDetection>)
    ensures |r| == |s| + 1
  {
    if |s| == 0 then [x]
    else if Conf(s[0]) > Conf(x) then [s[0]] + Insert(x, s[1..])
    else [x] + s
  }

  lemma {:induction false} InsertMultiset(x: RawDetection, s: seq<RawDetection>)
    ensures multiset(Insert(x, s)) == multiset(s) + multiset{x}
  {
    if |s| > 0 && Conf(s[0]) > Conf(x) {
      InsertMultiset(x, s[1..]);
      assert s == [s[0]] + s[1..];
    }
  }

  lemma {:induction false} InsertSorted(x: RawDetection, s: seq<RawDetection>)
    requires NonIncreasing(s)
    ensures NonIncreasing(Insert(x, s))
  {
    if |s| > 0 && Conf(s[0]) > Conf(x) {
      var rest := Insert(x, s[1..]);
      InsertSorted(x, s[1..]);
      InsertBelow(x, s[1..], Conf(s[0]));
      var r := [s[0]] + rest;
      assert r == Insert(x, s);
      forall i, j | 0 <= i < j < |r|
        ensures Conf(r[i]) >= Conf(r[j])
      {
        if i > 0 {
          assert r[i] == rest[i - 1] && r[j] == rest[j - 1];
        } else {
          assert r[j] == rest[j - 1];
        }
      }
    }
  }

  /** Inserting below a bound keeps every record below it. */
  lemma {:induction false} InsertBelow(x: RawDetection, s: seq<RawDetection>, c: real)
    requires Conf(x) <= c
    requires forall i :: 0 <= i < |s| ==> Conf(s[i]) <= c
    ensures forall j :: 0 <= j < |Insert(x, s)| ==> Conf(Insert(x, s)[j]) <= c
  {
    if |s| > 0 && Conf(s[0]) > Conf(x) {
      InsertBelow(x, s[1..], c);
      var r := Insert(x, s);
      assert forall j :: 1 <= j < |r| ==> r[j] == Insert(x, s[1..])[j - 1];
    }
  }

  lemma {:induction false} InsertWithConf(x: RawDetection, s: seq<RawDetection>, k: real)
    ensures WithConf(Insert(x, s), k) == (if Conf(x) == k then [x] else []) + WithConf(s, k)
  {
    if |s| == 0 {
      assert WithConf([x], k) == (if Conf(x) == k then [x] else []) + WithConf([], k);
    } else if Conf(s[0]) > Conf(x) {
      var r := [s[0]] + Insert(x, s[1..]);
      assert r[1..] == Insert(x, s[1..]);
      InsertWithConf(x, s[1..], k);
    } else {
      var r := [x] + s;
      assert r[1..] == s;
    }
  }

  /** The sorted predictions. */
  function SortDesc(s: seq<RawDetection>): (r: seq<RawDetection>)
    ensures NonIncreasing(r)
    ensures multiset(r) == multiset(s)
    ensures |r| == |s|
    ensures forall k :: WithConf(r, k) == WithConf(s, k)
  {
    if |s| == 0 then []
    else
      var t := SortDesc(s[1..]);
      InsertSorted(s[0], t);
      InsertMultiset(s[0], t);
      assert s == [s[0]] + s[1..];
      var r := Insert(s[0], t);
      assert forall k :: WithConf(r, k) == WithConf(s, k) by {
        forall k ensures WithConf(r, k) == WithConf(s, k) {
          InsertWithConf(s[0], t, k);
        }
      }
      r
  }

  lemma WithConfMember(s: seq<RawDetection>, k: real, x: RawDetection)
    ensures x in WithConf(s, k) <==> x in s && Conf(x) == k
  {
    if |s| > 0 {
      WithConfMember(s[1..], k, x);
      assert s == [s[0]] + s[1..];
    }
  }

  lemma HeadHasList(s: seq<RawDetection>)
    ensures |s| > 0 ==> WithConf(s, Conf(s[0])) != []
  {
  }

  /** A stable descending sort has exactly one possible outcome: two
      non-increasing sequences that agree on every per-confidence list are
      equal. */
  lemma {:induction false} StableArrangementUnique(a: seq<RawDetection>, b: seq<RawDetection>)
    requires NonIncreasing(a) && NonIncreasing(b)
    requires forall k :: WithConf(a, k) == WithConf(b, k)
    ensures a == b
    decreases |a|
  {
    BothEmptyOrNeither(a, b);
    if |a| > 0 {
      SameHead(a, b);
      TailsAgree(a, b);
      TailNonIncreasing(a);
      TailNonIncreasing(b);
      StableArrangementUnique(a[1..], b[1..]);
      assert a == [a[0]] + a[1..] && b == [b[0]] + b[1..];
    }
  }

  /** An empty side has no per-confidence list, so neither has the other. */
  lemma BothEmptyOrNeither(a: seq<RawDetection>, b: seq<RawDetection>)
    requires forall k :: WithConf(a, k) == WithConf(b, k)
    ensures |a| == 0 <==> |b| == 0
  {
    HeadHasList(a);
    HeadHasList(b);
    if |a| > 0 {
      assert WithConf(a, Conf(a[0])) == WithConf(b, Conf(a[0]));
    }
    if |b| > 0 {
      assert WithConf(a, Conf(b[0])) == WithConf(b, Conf(b[0]));
    }
  }

  lemma TailsAgree(a: seq<RawDetection>, b: seq<RawDetection>)
    requires |a| > 0 && |b| > 0 && a[0] == b[0]
    requires forall k :: WithConf(a, k) == WithConf(b, k)
    ensures forall k :: WithConf(a[1..], k) == WithConf(b[1..], k)
  {
    forall k
      ensures WithConf(a[1..], k) == WithConf(b[1..], k)
    {
      TailLists(a, b, k);
    }
  }

  lemma TailNonIncreasing(s: seq<RawDetection>)
    requires |s| > 0 && NonIncreasing(s)
    ensures NonIncreasing(s[1..])
  {
    assert forall i :: 0 <= i < |s| - 1 ==> s[1..][i] == s[i + 1];
  }

  /** Two such arrangements start with the same prediction: each head is
      in the other list, so neither can beat the other's confidence. */
  lemma SameHead(a: seq<RawDetection>, b: seq<RawDetection>)
    requires |a| > 0 && |b| > 0
    requires NonIncreasing(a) && NonIncreasing(b)
    requires forall k :: WithConf(a, k) == WithConf(b, k)
    ensures a[0] == b[0]
  {
    var k0 := Conf(a[0]);
    WithConfMember(b, Conf(b[0]), b[0]);
    WithConfMember(a, Conf(b[0]), b[0]);
    var i :| 0 <= i < |a| && a[i] == b[0];
    assert Conf(b[0]) <= k0;
    WithConfMember(a, k0, a[0]);
    WithConfMember(b, k0, a[0]);
    var j :| 0 <= j < |b| && b[j] == a[0];
    assert k0 <= Conf(b[0]);
    assert WithConf(a, k0) == [a[0]] + WithConf(a[1..], k0);
    assert WithConf(b, k0) == [b[0]] + WithConf(b[1..], k0);
    assert WithConf(a, k0) == WithConf(b, k0);
    assert a[0] == WithConf(a, k0)[0] == WithConf(b, k0)[0] == b[0];
  }

  /** Dropping a common head keeps the per-confidence lists equal. */
  lemma TailLists(a: seq<RawDetection>, b: seq<RawDetection>, k: real)
    requires |a| > 0 && |b| > 0 && a[0] == b[0]
    requires WithConf(a, k) == WithConf(b, k)
    ensures WithConf(a[1..], k) == WithConf(b[1..], k)
  {
    if k == Conf(a[0]) {
      assert WithConf(a[1..], k) == WithConf(a, k)[1..];
      assert WithConf(b[1..], k) == WithConf(b, k)[1..];
    } else {
      assert WithConf(a, k) == WithConf(a[1..], k);
      assert WithConf(b, k) == WithConf(b[1..], k);
    }
  }

  /** `SortDesc` is Python's stable descending sort: any non-increasing
      arrangement of `s` that keeps equal confidences in input order is it. */
  lemma SortDescIsTheStableSort(s: seq<RawDetection>, r: seq<RawDetection>)
    requires NonIncreasing(r)
    requires forall k :: WithConf(r, k) == WithConf(s, k)
    ensures r == SortDesc(s)
  {
    StableArrangementUnique(r, SortDesc(s));
  }

  /** Sorting an already sorted list leaves it as it is: the re-sort of
      each duplicate group changes nothing. */
  lemma SortDescIdempotent(s: seq<RawDetection>)
    requires NonIncreasing(s)
    ensures SortDesc(s) == s
  {
    SortDescIsTheStableSort(s, s);
  }

  /** The ranking example: two records of one class with confidences 0.9
      then 0.95 come out as 0.95 then 0.9. */
  lemma RankingExample(a: RawDetection, b: RawDetection)
    requires a.confidence == Wrappers.Some(0.9) && b.confidence == Wrappers.Some(0.95)
    ensures SortDesc([a, b]) == [b, a]
  {
    assert SortDesc([b]) == [b];
    assert [a, b][1..] == [b];
  }
}
