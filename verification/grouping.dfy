/** Grouping by class: the `defaultdict(list)` keyed by class name, filled
    in sorted order, so that keys appear in first-occurrence order and each
    group keeps the order of the list it was built from. */
module Grouping {
  import opened Wrappers
  import opened Detections
  import opened Ranking

  /** The class a prediction is grouped under: a missing class is set to
      "unknown" before grouping. */
  function Label(d: RawDetection): string {
    d.cls.GetOr("unknown")
  }

  /** The record after the in-place default: its class key is present. */
  function WithLabel(d: RawDetection): (e: RawDetection)
    ensures e.cls == Some(Label(d))
    ensures e == d.(cls := e.cls)
  {
    d.(cls := Some(Label(d)))
  }

  /** The sorted list after every missing class was defaulted in place. */
  function Labelled(s: seq<RawDetection>): (r: seq<RawDetection>)
    ensures |r| == |s|
    ensures forall i :: 0 <= i < |s| ==> r[i] == WithLabel(s[i])
  {
    seq(|s|, i requires 0 <= i < |s| => WithLabel(s[i]))
  }

  /** One entry of `class_groups`. */
  datatype Group = Group(name: string, members: seq<RawDetection>)

  predicate Distinct(ls: seq<string>) {
    forall i, j :: 0 <= i < j < |ls| ==> ls[i] != ls[j]
  }

  function LabelsOf(gs: seq<Group>): (ls: seq<string>)
    ensures |ls| == |gs|
    ensures forall i :: 0 <= i < |gs| ==> ls[i] == gs[i].name
  {
    if |gs| == 0 then [] else [gs[0].name] + LabelsOf(gs[1..])
  }

  /** `class_groups[class_name].append(prediction)`: append to the group of
      `d`'s class, or open a new group at the end. */
  function AddTo(gs: seq<Group>, d: RawDetection): (r: seq<Group>)
    requires Distinct(LabelsOf(gs))
    ensures Label(d) in LabelsOf(gs) ==>
      && |r| == |gs|
      && forall i :: 0 <= i < |gs| ==>
           r[i] == if gs[i].name == Label(d) then Group(gs[i].name, gs[i].members + [d]) else gs[i]
    ensures Label(d) !in LabelsOf(gs) ==> r == gs + [Group(Label(d), [d])]
  {
    if |gs| == 0 then [Group(Label(d), [d])]
    else if gs[0].name == Label(d) then
      assert forall i :: 1 <= i < |gs| ==> gs[i].name != Label(d) by {
        assert forall i :: 1 <= i < |gs| ==> LabelsOf(gs)[i] != LabelsOf(gs)[0];
      }
      [Group(gs[0].name, gs[0].members + [d])] + gs[1..]
    else
      assert LabelsOf(gs[1..]) == LabelsOf(gs)[1..];
      var rest := AddTo(gs[1..], d);
      assert Label(d) in LabelsOf(gs) <==> Label(d) in LabelsOf(gs[1..]);
      [gs[0]] + rest
  }

  /** The grouping loop over the sorted predictions. */
  function GroupAll(s: seq<RawDetection>): (gs: seq<Group>)
    ensures LabelsOf(gs) == Labels(s)
  {
    if |s| == 0 then []
    else
      var prev := GroupAll(s[..|s| - 1]);
      var d := s[|s| - 1];
      var gs := AddTo(prev, d);
      assert LabelsOf(gs) == if Label(d) in LabelsOf(prev) then LabelsOf(prev) else LabelsOf(prev) + [Label(d)];
      gs
  }

  /** Each group holds exactly the predictions of its class, in the order
      of the list being grouped. */
  lemma {:induction false} GroupAllMembers(s: seq<RawDetection>)
    ensures forall i :: 0 <= i < |GroupAll(s)| ==> GroupAll(s)[i].members == OfLabel(s, GroupAll(s)[i].name)
  {
    if |s| > 0 {
      var p := s[..|s| - 1];
      var d := s[|s| - 1];
      assert s == p + [d];
      GroupAllMembers(p);
      var prev := GroupAll(p);
      var gs := GroupAll(s);
      assert gs == AddTo(prev, d);
      forall i | 0 <= i < |gs|
        ensures gs[i].members == OfLabel(s, gs[i].name)
      {
        OfLabelAppend(p, [d], gs[i].name);
        assert OfLabel([d], gs[i].name) == if Label(d) == gs[i].name then [d] else [];
        if i == |prev| {
          assert Label(d) !in LabelsOf(prev);
          LabelsCoverage(p, Label(d));
          OfLabelEmpty(p, Label(d));
        }
      }
    }
  }

  /** Distinct class labels of `s` in the order they first occur. */
  function Labels(s: seq<RawDetection>): (ls: seq<string>)
    ensures Distinct(ls)
  {
    if |s| == 0 then []
    else
      var ls := Labels(s[..|s| - 1]);
      if Label(s[|s| - 1]) in ls then ls else ls + [Label(s[|s| - 1])]
  }

  /** The members of `s` whose class is `l`, in order. */
  function OfLabel(s: seq<RawDetection>, l: string): seq<RawDetection> {
    if |s| == 0 then []
    else (if Label(s[0]) == l then [s[0]] else []) + OfLabel(s[1..], l)
  }

  lemma {:induction false} OfLabelAppend(a: seq<RawDetection>, b: seq<RawDetection>, l: string)
    ensures OfLabel(a + b, l) == OfLabel(a, l) + OfLabel(b, l)
  {
    if |a| == 0 {
      assert a + b == b;
    } else {
      var h := if Label(a[0]) == l then [a[0]] else [];
      assert (a + b)[0] == a[0];
      assert (a + b)[1..] == a[1..] + b;
      assert OfLabel(a + b, l) == h + OfLabel(a[1..] + b, l);
      assert OfLabel(a, l) == h + OfLabel(a[1..], l);
      OfLabelAppend(a[1..], b, l);
      assert h + (OfLabel(a[1..], l) + OfLabel(b, l)) == (h + OfLabel(a[1..], l)) + OfLabel(b, l);
    }
  }

  lemma {:induction false} OfLabelEmpty(s: seq<RawDetection>, l: string)
    requires forall i :: 0 <= i < |s| ==> Label(s[i]) != l
    ensures OfLabel(s, l) == []
  {
    if |s| > 0 {
      OfLabelEmpty(s[1..], l);
    }
  }

  /** A label is listed exactly when some prediction carries it. */
  lemma {:induction false} LabelsCoverage(s: seq<RawDetection>, l: string)
    ensures l in Labels(s) <==> exists i :: 0 <= i < |s| && Label(s[i]) == l
  {
    if |s| > 0 {
      var p := s[..|s| - 1];
      LabelsCoverage(p, l);
      assert forall i :: 0 <= i < |p| ==> p[i] == s[i];
      if l in Labels(s) && l !in Labels(p) {
        assert Label(s[|s| - 1]) == l;
      }
    }
  }

  /** `Distinct` sequences have as many elements as their set. */
  lemma {:induction false} DistinctCardinality(ls: seq<string>)
    requires Distinct(ls)
    ensures |set x | x in ls| == |ls|
  {
    if |ls| > 0 {
      var t := ls[..|ls| - 1];
      assert Distinct(t);
      DistinctCardinality(t);
      assert ls == t + [ls[|ls| - 1]];
      assert (set x | x in ls) == (set x | x in t) + {ls[|ls| - 1]};
      assert ls[|ls| - 1] !in t;
    }
  }

  /** `len(class_groups)` is the number of distinct labels. */
  lemma GroupCountIsDistinctLabels(s: seq<RawDetection>)
    ensures |GroupAll(s)| == |set d | d in s :: Label(d)|
  {
    var ls := Labels(s);
    forall l ensures l in ls <==> l in (set d | d in s :: Label(d)) {
      LabelsCoverage(s, l);
    }
    assert (set x | x in ls) == (set d | d in s :: Label(d));
    DistinctCardinality(ls);
  }

  /** Rearranging the predictions keeps the set of their classes. */
  lemma PermutationKeepsLabels(a: seq<RawDetection>, b: seq<RawDetection>)
    requires multiset(a) == multiset(b)
    ensures (set d | d in a :: Label(d)) == (set d | d in b :: Label(d))
  {
    assert forall d :: d in a <==> d in multiset(a);
    assert forall d :: d in b <==> d in multiset(b);
  }

  /** Label `a` occurs in `s` before the first occurrence of `b`. */
  predicate OccursBefore(s: seq<RawDetection>, a: string, b: string) {
    exists p :: 0 <= p < |s| && Label(s[p]) == a && forall q :: 0 <= q <= p ==> Label(s[q]) != b
  }

  /** Groups are keyed in first-occurrence order. */
  lemma GroupsInFirstOccurrenceOrder(s: seq<RawDetection>)
    ensures forall i, j :: 0 <= i < j < |GroupAll(s)| ==> OccursBefore(s, GroupAll(s)[i].name, GroupAll(s)[j].name)
  {
    var gs := GroupAll(s);
    LabelsInFirstOccurrenceOrder(s);
    assert forall i :: 0 <= i < |gs| ==> gs[i].name == Labels(s)[i];
  }

  lemma {:induction false} LabelsInFirstOccurrenceOrder(s: seq<RawDetection>)
    ensures forall i, j :: 0 <= i < j < |Labels(s)| ==> OccursBefore(s, Labels(s)[i], Labels(s)[j])
  {
    if |s| > 0 {
      var p := s[..|s| - 1];
      LabelsInFirstOccurrenceOrder(p);
      var lp := Labels(p);
      var ls := Labels(s);
      forall i, j | 0 <= i < j < |ls|
        ensures OccursBefore(s, ls[i], ls[j])
      {
        if j < |lp| {
          OccursBeforeExtend(p, s, lp[i], lp[j]);
        } else {
          // ls[j] is the label of the last prediction, new to the prefix.
          OccursBeforeNew(p, s, lp[i]);
        }
      }
    }
  }

  /** An order witnessed in a prefix is witnessed in the whole. */
  lemma OccursBeforeExtend(p: seq<RawDetection>, s: seq<RawDetection>, a: string, b: string)
    requires |p| <= |s| && p == s[..|p|]
    requires OccursBefore(p, a, b)
    ensures OccursBefore(s, a, b)
  {
    var w :| 0 <= w < |p| && Label(p[w]) == a && forall q :: 0 <= q <= w ==> Label(p[q]) != b;
    assert Label(s[w]) == a;
    assert forall q :: 0 <= q <= w ==> s[q] == p[q];
  }

  /** A label of the prefix precedes a label that first occurs at the end. */
  lemma OccursBeforeNew(p: seq<RawDetection>, s: seq<RawDetection>, a: string)
    requires |s| == |p| + 1 && p == s[..|p|]
    requires a in Labels(p) && Label(s[|p|]) !in Labels(p)
    ensures OccursBefore(s, a, Label(s[|p|]))
  {
    var c := Label(s[|p|]);
    LabelsCoverage(p, a);
    LabelsCoverage(p, c);
    var w :| 0 <= w < |p| && Label(p[w]) == a;
    assert Label(s[w]) == a;
    assert forall q :: 0 <= q <= w ==> Label(s[q]) != c by {
      assert forall q :: 0 <= q <= w ==> s[q] == p[q];
    }
  }

  /** The two filters of the model commute. */
  lemma {:induction false} FiltersCommute(s: seq<RawDetection>, l: string, k: real)
    ensures WithConf(OfLabel(s, l), k) == OfLabel(WithConf(s, k), l)
  {
    if |s| > 0 {
      FiltersCommute(s[1..], l, k);
      var h := if Label(s[0]) == l then [s[0]] else [];
      WithConfAppend(h, OfLabel(s[1..], l), k);
      var g := if Conf(s[0]) == k then [s[0]] else [];
      OfLabelAppend(g, WithConf(s[1..], k), l);
    }
  }

  lemma {:induction false} WithConfAppend(a: seq<RawDetection>, b: seq<RawDetection>, k: real)
    ensures WithConf(a + b, k) == WithConf(a, k) + WithConf(b, k)
  {
    if |a| == 0 {
      assert a + b == b;
    } else {
      var h := if Conf(a[0]) == k then [a[0]] else [];
      assert (a + b)[0] == a[0];
      assert (a + b)[1..] == a[1..] + b;
      assert WithConf(a + b, k) == h + WithConf(a[1..] + b, k);
      assert WithConf(a, k) == h + WithConf(a[1..], k);
      WithConfAppend(a[1..], b, k);
      assert h + (WithConf(a[1..], k) + WithConf(b, k)) == (h + WithConf(a[1..], k)) + WithConf(b, k);
    }
  }

  /** Keeping one class of a sorted list leaves it sorted. */
  lemma {:induction false} OfLabelNonIncreasing(s: seq<RawDetection>, l: string)
    requires NonIncreasing(s)
    ensures NonIncreasing(OfLabel(s, l))
    ensures forall x :: x in OfLabel(s, l) ==> x in s && Label(x) == l
  {
    if |s| > 0 {
      assert NonIncreasing(s[1..]);
      OfLabelNonIncreasing(s[1..], l);
      var r := OfLabel(s, l);
      var t := OfLabel(s[1..], l);
      if Label(s[0]) == l {
        assert r == [s[0]] + t;
        forall i, j | 0 <= i < j < |r|
          ensures Conf(r[i]) >= Conf(r[j])
        {
          assert r[j] == t[j - 1] && r[j] in s[1..];
          if i > 0 {
            assert r[i] == t[i - 1];
          }
        }
      }
    }
  }

  /** A class's group is the stable descending sort of that class's
      predictions in input order; in particular its size is the number of
      input predictions of that class. */
  lemma GroupOfSorted(s: seq<RawDetection>, l: string)
    ensures OfLabel(SortDesc(s), l) == SortDesc(OfLabel(s, l))
    ensures |OfLabel(SortDesc(s), l)| == |OfLabel(s, l)|
  {
    var g := OfLabel(SortDesc(s), l);
    OfLabelNonIncreasing(SortDesc(s), l);
    forall k ensures WithConf(g, k) == WithConf(OfLabel(s, l), k) {
      FiltersCommute(SortDesc(s), l, k);
      FiltersCommute(s, l, k);
    }
    SortDescIsTheStableSort(OfLabel(s, l), g);
  }

  lemma {:induction false} OfLabelMember(s: seq<RawDetection>, l: string)
    ensures forall x :: x in OfLabel(s, l) ==> x in s && Label(x) == l
  {
    if |s| > 0 {
      OfLabelMember(s[1..], l);
    }
  }
}
