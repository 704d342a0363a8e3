/** Duplicate detection: the classes whose group has more than one member,
    each with its count and normalised details, plus the flat list of all
    their members. */
module Duplicates {
  import opened Wrappers
  import opened Coordinates
  import opened Detections
  import opened Ranking
  import opened Grouping

  /** One value of `duplicate_characters`, keyed by `name`. */
  datatype DuplicateEntry = DuplicateEntry(name: string, count: int, details: seq<Detection>)

  /** A group is a duplicate class when it has more than one member. */
  predicate IsDuplicate(g: Group) {
    |g.members| > 1
  }

  predicate HasDuplicate(gs: seq<Group>) {
    exists i :: 0 <= i < |gs| && IsDuplicate(gs[i])
  }

  /** `a` is `b` with some elements left out: either `b` is exhausted, or
      `a` starts with `b`'s head and the rests match, or `b`'s head is
      skipped. */
  predicate SubsequenceOf<T(==)>(a: seq<T>, b: seq<T>)
    decreases |b|
  {
    if |b| == 0 then |a| == 0
    else (|a| > 0 && a[0] == b[0] && SubsequenceOf(a[1..], b[1..])) || SubsequenceOf(a, b[1..])
  }

  /** The groups that are duplicate classes, in group order. */
  function DuplicateGroups(gs: seq<Group>): (ds: seq<Group>)
    ensures forall g :: g in ds <==> g in gs && IsDuplicate(g)
    ensures SubsequenceOf(ds, gs)
  {
    if |gs| == 0 then []
    else
      var rest := DuplicateGroups(gs[1..]);
      if IsDuplicate(gs[0]) then
        assert ([gs[0]] + rest)[1..] == rest;
        [gs[0]] + rest
      else rest
  }

  /** The `details` lists one after another. */
  function Flatten(es: seq<DuplicateEntry>): seq<Detection> {
    if |es| == 0 then [] else es[0].details + Flatten(es[1..])
  }

  function SumCounts(es: seq<DuplicateEntry>): int {
    if |es| == 0 then 0 else es[0].count + SumCounts(es[1..])
  }

  function NamesOf(es: seq<DuplicateEntry>): (ns: seq<string>)
    ensures |ns| == |es|
    ensures forall i :: 0 <= i < |es| ==> ns[i] == es[i].name
  {
    seq(|es|, i requires 0 <= i < |es| => es[i].name)
  }

  /** The details of a duplicate group: its members re-sorted by
      confidence, each normalised. */
  function Details(g: Group, size: Size, offset: Point): Result<seq<Detection>, ArithError> {
    NormalizeAll(Labelled(SortDesc(g.members)), size, offset)
  }

  /** The loop over `class_groups.items()` that fills `duplicate_classes`
      and `duplicate_list`. */
  function CollectDuplicates(gs: seq<Group>, size: Size, offset: Point)
    : (r: Result<(seq<DuplicateEntry>, seq<Detection>), ArithError>)
    ensures r.Failure? <==> HasDuplicate(gs) && (size.width == 0 || size.height == 0)
    ensures r.Success? ==> r.value.1 == Flatten(r.value.0)
    ensures r.Success? ==>
      var es := r.value.0;
      var ds := DuplicateGroups(gs);
      && |es| == |ds|
      && forall i :: 0 <= i < |es| ==>
           && es[i].name == ds[i].name
           && es[i].count == |ds[i].members| == |es[i].details|
           && Details(ds[i], size, offset) == Success(es[i].details)
  {
    if |gs| == 0 then Success(([], []))
    else
      var g := gs[0];
      assert HasDuplicate(gs) <==> IsDuplicate(g) || HasDuplicate(gs[1..]) by {
        assert forall i :: 1 <= i < |gs| ==> gs[i] == gs[1..][i - 1];
      }
      if IsDuplicate(g) then
        match Details(g, size, offset)
        case Failure(e) => Failure(e)
        case Success(details) =>
          match CollectDuplicates(gs[1..], size, offset)
          case Failure(e) => Failure(e)
          case Success(rest) =>
            var es := [DuplicateEntry(g.name, |g.members|, details)] + rest.0;
            assert es[1..] == rest.0;
            Success((es, details + rest.1))
      else
        CollectDuplicates(gs[1..], size, offset)
  }

  /** `duplicates` is as long as the counts of `duplicate_characters` add up to. */
  lemma {:induction false} FlattenLength(es: seq<DuplicateEntry>)
    requires forall i :: 0 <= i < |es| ==> es[i].count == |es[i].details|
    ensures |Flatten(es)| == SumCounts(es)
  {
    if |es| > 0 {
      FlattenLength(es[1..]);
    }
  }

  /** Every record of `duplicates` is in the browser frame. */
  lemma {:induction false} FlattenInFrame(es: seq<DuplicateEntry>)
    requires forall i :: 0 <= i < |es| ==> AllInFrame(es[i].details)
    ensures AllInFrame(Flatten(es))
  {
    if |es| > 0 {
      FlattenInFrame(es[1..]);
      var f := Flatten(es);
      var h := es[0].details;
      forall i | 0 <= i < |f|
        ensures 0 <= f[i].browserX <= Layout.FullBrowserWidth && 0 <= f[i].browserY <= Layout.FullBrowserHeight
      {
        if i >= |h| {
          assert f[i] == Flatten(es[1..])[i - |h|];
        }
      }
    }
  }

  /** Dropping non-duplicate groups keeps the names distinct. */
  lemma {:induction false} DuplicateGroupsDistinct(gs: seq<Group>)
    requires Distinct(LabelsOf(gs))
    ensures Distinct(LabelsOf(DuplicateGroups(gs)))
  {
    if |gs| > 0 {
      assert LabelsOf(gs[1..]) == LabelsOf(gs)[1..];
      DuplicateGroupsDistinct(gs[1..]);
      var t := DuplicateGroups(gs[1..]);
      if IsDuplicate(gs[0]) {
        var ds := [gs[0]] + t;
        assert DuplicateGroups(gs) == ds;
        forall j | 0 < j < |ds|
          ensures ds[j].name != gs[0].name
        {
          assert ds[j] in t;
          var m :| 0 <= m < |gs[1..]| && gs[1..][m] == ds[j];
          assert LabelsOf(gs)[m + 1] == ds[j].name;
        }
        forall i, j | 0 <= i < j < |ds|
          ensures LabelsOf(ds)[i] != LabelsOf(ds)[j]
        {
          if i > 0 {
            assert ds[i] == t[i - 1] && ds[j] == t[j - 1];
            assert LabelsOf(t)[i - 1] != LabelsOf(t)[j - 1];
          }
        }
      }
    }
  }

  lemma CollectedNames(gs: seq<Group>, size: Size, offset: Point)
    requires !HasDuplicate(gs) || (size.width != 0 && size.height != 0)
    ensures NamesOf(CollectDuplicates(gs, size, offset).value.0) == LabelsOf(DuplicateGroups(gs))
  {
  }

  /** The duplicate groups of the grouping of `s` are the classes of `s`
      with more than one member. */
  lemma DuplicateGroupNames(s: seq<RawDetection>, l: string)
    ensures l in LabelsOf(DuplicateGroups(GroupAll(s))) <==> |OfLabel(s, l)| > 1
  {
    if l in LabelsOf(DuplicateGroups(GroupAll(s))) {
      DuplicateGroupNamesSound(s, l);
    }
    if |OfLabel(s, l)| > 1 {
      DuplicateGroupNamesComplete(s, l);
    }
  }

  lemma DuplicateGroupNamesSound(s: seq<RawDetection>, l: string)
    requires l in LabelsOf(DuplicateGroups(GroupAll(s)))
    ensures |OfLabel(s, l)| > 1
  {
    var gs := GroupAll(s);
    var ds := DuplicateGroups(gs);
    var i :| 0 <= i < |ds| && LabelsOf(ds)[i] == l;
    assert ds[i] in gs;
    var m :| 0 <= m < |gs| && gs[m] == ds[i];
    GroupAllMembers(s);
    assert gs[m].members == OfLabel(s, l);
  }

  lemma DuplicateGroupNamesComplete(s: seq<RawDetection>, l: string)
    requires |OfLabel(s, l)| > 1
    ensures l in LabelsOf(DuplicateGroups(GroupAll(s)))
  {
    var gs := GroupAll(s);
    ClassOfSomeMember(s, l);
    assert l in LabelsOf(gs);
    var m :| 0 <= m < |gs| && LabelsOf(gs)[m] == l;
    GroupAllMembers(s);
    assert gs[m].members == OfLabel(s, l);
    DuplicateGroupKept(gs, m);
  }

  /** A class with a member is among the labels. */
  lemma ClassOfSomeMember(s: seq<RawDetection>, l: string)
    requires |OfLabel(s, l)| > 0
    ensures l in Labels(s)
  {
    var x := OfLabel(s, l)[0];
    OfLabelMember(s, l);
    assert x in OfLabel(s, l);
    var k :| 0 <= k < |s| && s[k] == x;
    LabelsCoverage(s, l);
  }

  /** A group with more than one member is kept, under its name. */
  lemma DuplicateGroupKept(gs: seq<Group>, m: int)
    requires 0 <= m < |gs| && IsDuplicate(gs[m])
    ensures gs[m].name in LabelsOf(DuplicateGroups(gs))
  {
    var ds := DuplicateGroups(gs);
    assert gs[m] in ds;
    var i :| 0 <= i < |ds| && ds[i] == gs[m];
    assert LabelsOf(ds)[i] == gs[m].name;
  }

  /** The duplicate entries built from the grouping of `s` name each class
      of `s` with more than one member, once. */
  lemma DuplicateNamesExactly(s: seq<RawDetection>, size: Size, offset: Point)
    requires !HasDuplicate(GroupAll(s)) || (size.width != 0 && size.height != 0)
    ensures var es := CollectDuplicates(GroupAll(s), size, offset).value.0;
      && Distinct(NamesOf(es))
      && forall l :: l in NamesOf(es) <==> |OfLabel(s, l)| > 1
  {
    CollectedNames(GroupAll(s), size, offset);
    DuplicateGroupsDistinct(GroupAll(s));
    forall l ensures l in LabelsOf(DuplicateGroups(GroupAll(s))) <==> |OfLabel(s, l)| > 1 {
      DuplicateGroupNames(s, l);
    }
  }
}
