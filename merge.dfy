/** merge_kml_files: fold the per-file parse results, in the order the
    worker pool completes them, into one Document, then either write the
    merged file and its report or report that nothing was merged. A
    placemark is an opaque value of type P. */
module Merge {
  import opened Output

  /** What one submitted parse task hands back: `None` or an exception
      (Failed), or the Placemark elements found below the returned root. */
  datatype SourceResult<P> = Failed | Parsed(placemarks: seq<P>)

  function PlacemarkCount<P>(r: SourceResult<P>): nat {
    match r
    case Failed => 0
    case Parsed(ps) => |ps|
  }

  /** The placemarks of the parsed sources, one source after another: the
      children of the merged Document, as many as the total count. */
  function Successful<P>(rs: seq<SourceResult<P>>): (ps: seq<P>)
    ensures |ps| == Total(rs)
  {
    if rs == [] then []
    else
      var last := rs[|rs| - 1];
      Successful(rs[..|rs| - 1]) + (if last.Parsed? then last.placemarks else [])
  }

  /** Placemarks summed over the sources that parsed; a failed one adds 0. */
  function Total<P>(rs: seq<SourceResult<P>>): nat {
    if rs == [] then 0 else Total(rs[..|rs| - 1]) + PlacemarkCount(rs[|rs| - 1])
  }

  lemma {:induction false} TotalConcat<P>(a: seq<SourceResult<P>>, b: seq<SourceResult<P>>)
    ensures Total(a + b) == Total(a) + Total(b)
  {
    if b == [] {
      assert a + b == a;
    } else {
      var b' := b[..|b| - 1];
      assert (a + b)[..|a + b| - 1] == a + b';
      assert (a + b)[|a + b| - 1] == b[|b| - 1];
      TotalConcat(a, b');
    }
  }

  /** 0, 1, ..., n - 1: the submission order. */
  function Range(n: nat): (r: seq<nat>)
    ensures |r| == n && forall i :: 0 <= i < n ==> r[i] == i
  {
    if n == 0 then [] else Range(n - 1) + [n - 1]
  }

  /** as_completed yields every submitted task exactly once: the completion
      order is a permutation of the submission order. */
  predicate IsCompletionOrder(order: seq<nat>, n: nat) {
    && |order| == n
    && (forall i :: 0 <= i < |order| ==> order[i] < n)
    && multiset(order) == multiset(Range(n))
  }

  /** The results, looked up in the given order. */
  function Arrange<P>(rs: seq<SourceResult<P>>, order: seq<nat>): (a: seq<SourceResult<P>>)
    requires forall i :: 0 <= i < |order| ==> order[i] < |rs|
    ensures |a| == |order| && forall i :: 0 <= i < |order| ==> a[i] == rs[order[i]]
  {
    seq(|order|, i requires 0 <= i < |order| => rs[order[i]])
  }

  /** Taking index `k` out of an order. */
  lemma RemoveAt(b: seq<nat>, k: nat)
    requires k < |b|
    ensures multiset(b[..k] + b[k + 1..]) == multiset(b) - multiset{b[k]}
  {
    assert b == b[..k] + [b[k]] + b[k + 1..];
    assert multiset(b) == multiset(b[..k]) + multiset{b[k]} + multiset(b[k + 1..]);
  }

  /** The result at index `k` of an order contributes its count once. */
  lemma TotalRemoveAt<P>(rs: seq<SourceResult<P>>, b: seq<nat>, k: nat)
    requires forall i :: 0 <= i < |b| ==> b[i] < |rs|
    requires k < |b|
    ensures Total(Arrange(rs, b)) == Total(Arrange(rs, b[..k] + b[k + 1..])) + PlacemarkCount(rs[b[k]])
  {
    var b1, b2 := b[..k], b[k + 1..];
    var one := [rs[b[k]]];
    assert Arrange(rs, b) == Arrange(rs, b1) + one + Arrange(rs, b2);
    assert Arrange(rs, b1 + b2) == Arrange(rs, b1) + Arrange(rs, b2);
    TotalConcat(Arrange(rs, b1) + one, Arrange(rs, b2));
    TotalConcat(Arrange(rs, b1), one);
    TotalConcat(Arrange(rs, b1), Arrange(rs, b2));
    assert one[..0] == [];
  }

  /** Looking results up in two orders with the same indices gives the same total. */
  lemma {:induction false} TotalPermutation<P>(rs: seq<SourceResult<P>>, a: seq<nat>, b: seq<nat>)
    requires forall i :: 0 <= i < |a| ==> a[i] < |rs|
    requires forall i :: 0 <= i < |b| ==> b[i] < |rs|
    requires multiset(a) == multiset(b)
    ensures Total(Arrange(rs, a)) == Total(Arrange(rs, b))
    decreases |a|
  {
    if a == [] {
      assert |b| == |multiset(b)| == 0;
    } else {
      var last := |a| - 1;
      var x := a[last];
      assert x in multiset(b);
      var k :| 0 <= k < |b| && b[k] == x;
      RemoveAt(a, last);
      RemoveAt(b, k);
      var a', b' := a[..last] + a[last + 1..], b[..k] + b[k + 1..];
      TotalPermutation(rs, a', b');
      TotalRemoveAt(rs, a, last);
      TotalRemoveAt(rs, b, k);
    }
  }

  /** The total is the same for every completion order. */
  lemma TotalOrderIndependent<P>(rs: seq<SourceResult<P>>, order: seq<nat>)
    requires IsCompletionOrder(order, |rs|)
    ensures Total(Arrange(rs, order)) == Total(rs)
  {
    var r := Range(|rs|);
    TotalPermutation(rs, order, r);
    assert Arrange(rs, r) == rs;
  }

  /** Something is merged exactly when some source parsed and held at least
      one placemark; failures and empty sources never count. */
  lemma {:induction false} SuccessfulNonEmpty<P>(rs: seq<SourceResult<P>>)
    ensures |Successful(rs)| > 0 <==>
              exists i :: 0 <= i < |rs| && rs[i].Parsed? && |rs[i].placemarks| > 0
  {
    if rs != [] {
      var init := rs[..|rs| - 1];
      SuccessfulNonEmpty(init);
      assert forall i :: 0 <= i < |init| ==> init[i] == rs[i];
      if |Successful(init)| > 0 {
        var i :| 0 <= i < |init| && init[i].Parsed? && |init[i].placemarks| > 0;
        assert rs[i] == init[i];
      }
    }
  }

  /** Partial-failure isolation: every placemark of every parsed source
      ends up in the merge, whatever the other sources did. */
  lemma {:induction false} NothingLost<P>(rs: seq<SourceResult<P>>, i: nat, p: P)
    requires i < |rs| && rs[i].Parsed? && p in rs[i].placemarks
    ensures p in Successful(rs)
  {
    var init := rs[..|rs| - 1];
    if i < |init| {
      assert init[i] == rs[i];
      NothingLost(init, i, p);
    }
  }

  /** Partial-failure isolation for the document as it is built, in the
      order the parse jobs complete. */
  lemma NothingLostInCompletionOrder<P>(rs: seq<SourceResult<P>>, order: seq<nat>, j: nat, p: P)
    requires IsCompletionOrder(order, |rs|)
    requires j < |rs| && rs[j].Parsed? && p in rs[j].placemarks
    ensures p in Successful(Arrange(rs, order))
  {
    assert Range(|rs|)[j] == j;
    assert j in multiset(order);
    var k :| 0 <= k < |order| && order[k] == j;
    NothingLost(Arrange(rs, order), k, p);
  }

  /** The Document element under the merged kml root: its children and
      the running placemark_count beside it. */
  class MergedDocument<P> {
    var children: seq<P>
    var placemarkCount: nat

    /** The count always equals the number of children. */
    ghost predicate Valid()
      reads this
    {
      |children| == placemarkCount
    }

    constructor ()
      ensures Valid() && children == [] && placemarkCount == 0
    {
      children := [];
      placemarkCount := 0;
    }

    /** document.extend(placemarks) followed by placemark_count += len(placemarks):
        the new children go after the old ones, none removed. */
    method Extend(placemarks: seq<P>)
      requires Valid()
      modifies this
      ensures Valid()
      ensures children == old(children) + placemarks
      ensures placemarkCount == old(placemarkCount) + |placemarks|
    {
      children := children + placemarks;
      placemarkCount := placemarkCount + |placemarks|;
    }
  }

  /** What merge_kml_files leaves behind: the written file's name and
      content with the report's name and rows, or the message that no
      valid KML files were merged. */
  datatype MergeOutcome<P> =
    | Written(mergedFile: string, document: seq<P>, analysisFile: string, report: seq<ReportRow>)
    | NothingMerged

  /** merge_kml_files. `results[i]` is what parsing `selected[i]` returned,
      `order` the order in which the parse jobs completed, `savedAt` and
      `analysedAt` the two clock readings for the two file names. */
  method MergeKmlFiles<P>(selected: seq<string>, results: seq<SourceResult<P>>, order: seq<nat>,
                          savedAt: Timestamp, analysedAt: Timestamp)
    returns (outcome: MergeOutcome<P>)
    requires |results| == |selected|
    requires IsCompletionOrder(order, |selected|)
    ensures outcome.Written? <==> Total(results) > 0
    ensures outcome.Written? ==>
              && outcome.mergedFile == MergedFileName(savedAt)
              && outcome.document == Successful(Arrange(results, order))
              && |outcome.document| == Total(results)
              && outcome.analysisFile == AnalysisFileName(analysedAt)
              && outcome.report == AnalysisRows(selected, Total(results))
  {
    TotalOrderIndependent(results, order);
    var document := new MergedDocument<P>();
    var i := 0;
    while i < |order|
      invariant 0 <= i <= |order|
      invariant document.Valid()
      invariant document.children == Successful(Arrange(results, order[..i]))
    {
      var result := results[order[i]];
      assert Arrange(results, order[..i + 1])[..i] == Arrange(results, order[..i]);
      if result.Parsed? {
        document.Extend(result.placemarks);
      }
      i := i + 1;
    }
    assert order[..i] == order;
    if |document.children| > 0 {
      outcome := Written(MergedFileName(savedAt), document.children,
                         AnalysisFileName(analysedAt), AnalysisRows(selected, document.placemarkCount));
    } else {
      outcome := NothingMerged;
    }
  }
}
