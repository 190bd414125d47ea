/** The record view that both hierarchy traversals read: the records of the
    chosen view, in view order, each with its id, the ids in its link cell and
    its label-source value; and the `(id, label)` assignments they produce. */
module HierarchyRecords {
  import opened Text

  datatype Option<T> = None | Some(value: T)

  type Id = string

  /** One record of the view. `links` is empty when the link cell is empty
      (the store gives `null` then). */
  datatype Record = Record(id: Id, links: seq<Id>, labelSource: string)

  /** One pending write: the record id and the label to store in the output field. */
  datatype Assignment = Assignment(id: Id, text: string)

  /** The "Mode" setting. */
  datatype Mode = Index | Path

  /** The "Parse direction" setting. */
  datatype Direction = ParentToChild | ChildToParent

  /** Record ids are unique within a view: the store guarantees it. */
  predicate UniqueIds(rs: seq<Record>) {
    forall i, j :: 0 <= i < j < |rs| ==> rs[i].id != rs[j].id
  }

  function Ids(rs: seq<Record>): (ids: set<Id>)
    ensures |ids| <= |rs|
  {
    if rs == [] then {} else {rs[0].id} + Ids(rs[1..])
  }

  /** The label component of a record: under Index its 1-based position among
      its siblings (`String(index + 1)`), under Path its label-source value. */
  function Component(mode: Mode, index: nat, r: Record): (c: string) {
    if mode == Index then NatToString(index + 1) else r.labelSource
  }

  /** Lookup by id (`query.getRecord`): the first record of the view with that id. */
  function Find(rs: seq<Record>, id: Id): (found: Option<Record>)
    ensures found.Some? ==> found.value in rs && found.value.id == id
    ensures found.Some? <==> id in Ids(rs)
  {
    if rs == [] then None
    else if rs[0].id == id then Some(rs[0])
    else Find(rs[1..], id)
  }

  lemma {:induction false} FindUnique(rs: seq<Record>, r: Record)
    requires UniqueIds(rs) && r in rs
    ensures Find(rs, r.id) == Some(r)
  {
    if rs[0] != r {
      assert r in rs[1..];
      FindUnique(rs[1..], r);
    }
  }

  /** The ids an output list assigns, in order. */
  function AssignedIds(out: seq<Assignment>): (ids: seq<Id>)
    ensures |ids| == |out|
    ensures forall i :: 0 <= i < |out| ==> ids[i] == out[i].id
  {
    if out == [] then [] else [out[0].id] + AssignedIds(out[1..])
  }

  predicate Distinct<T(==)>(xs: seq<T>) {
    forall i, j :: 0 <= i < j < |xs| ==> xs[i] != xs[j]
  }

  /** A repeat-free list of ids of the view is no longer than the view. */
  lemma {:induction false} DistinctIdsBound(xs: seq<Id>, rs: seq<Record>)
    requires Distinct(xs)
    requires forall i :: 0 <= i < |xs| ==> xs[i] in Ids(rs)
    ensures |xs| <= |rs|
  {
    DistinctSubsetBound(xs, Ids(rs));
  }

  lemma {:induction false} DistinctSubsetBound(xs: seq<Id>, s: set<Id>)
    requires Distinct(xs)
    requires forall i :: 0 <= i < |xs| ==> xs[i] in s
    ensures |xs| <= |s|
  {
    if xs != [] {
      var rest := xs[1..];
      forall i | 0 <= i < |rest|
        ensures rest[i] in s - {xs[0]}
      {
        assert rest[i] == xs[i + 1];
      }
      DistinctSubsetBound(rest, s - {xs[0]});
    }
  }
}
