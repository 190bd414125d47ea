/** Child-to-Parent labelling (`parse_childToParent`): each record names its
    parent as the first id of its link cell. The traversal scans the whole
    view once per level, labels the records whose parent is the current one,
    in view order, and descends into each right after labelling it. */
module ChildToParent {
  import opened Text
  import opened HierarchyRecords

  /** The parent a record names: the first linked id, or none for an empty cell. */
  function ParentOf(r: Record): (parent: Option<Id>) {
    if r.links == [] then None else Some(r.links[0])
  }

  /** The filter callback: with no parent the record must have an empty link
      cell; otherwise its first linked id must be the parent. */
  predicate IsMatch(r: Record, parent: Option<Id>) {
    match parent
    case None => r.links == []
    case Some(p) => r.links != [] && r.links[0] == p
  }

  /** `query.records.filter(...)`: the records of one level, in view order. */
  function Matches(rs: seq<Record>, parent: Option<Id>): (ms: seq<Record>)
    ensures |ms| <= |rs|
  {
    if rs == [] then []
    else (if IsMatch(rs[0], parent) then [rs[0]] else []) + Matches(rs[1..], parent)
  }

  /** Only the first link decides a match: any further links are ignored. */
  lemma MatchIsFirstLink(r: Record, parent: Option<Id>)
    ensures IsMatch(r, parent) <==> ParentOf(r) == parent
  {
  }

  /** A level is exactly the records of the view whose parent is `parent`. */
  lemma {:induction false} MatchesMembers(rs: seq<Record>, parent: Option<Id>, r: Record)
    ensures r in Matches(rs, parent) <==> r in rs && ParentOf(r) == parent
  {
    if rs != [] {
      MatchesMembers(rs[1..], parent, r);
      assert rs == [rs[0]] + rs[1..];
    }
  }

  /** The filter keeps view order: filtering a concatenation concatenates the filtered parts. */
  lemma {:induction false} MatchesConcat(xs: seq<Record>, ys: seq<Record>, parent: Option<Id>)
    ensures Matches(xs + ys, parent) == Matches(xs, parent) + Matches(ys, parent)
  {
    if xs == [] {
      assert xs + ys == ys;
    } else {
      var head := if IsMatch(xs[0], parent) then [xs[0]] else [];
      assert (xs + ys)[0] == xs[0];
      assert (xs + ys)[1..] == xs[1..] + ys;
      MatchesConcat(xs[1..], ys, parent);
      calc {
        Matches(xs + ys, parent);
        head + Matches(xs[1..] + ys, parent);
        head + (Matches(xs[1..], parent) + Matches(ys, parent));
        (head + Matches(xs[1..], parent)) + Matches(ys, parent);
      }
    }
  }

  lemma {:induction false} MatchesUnique(rs: seq<Record>, parent: Option<Id>)
    requires UniqueIds(rs)
    ensures UniqueIds(Matches(rs, parent))
  {
    if rs != [] {
      MatchesUnique(rs[1..], parent);
      var tail := Matches(rs[1..], parent);
      forall r | r in tail ensures r.id != rs[0].id {
        MatchesMembers(rs[1..], parent, r);
        var k :| 0 <= k < |rs[1..]| && rs[1..][k] == r;
        assert rs[k + 1] == r;
      }
    }
  }

  /** The ids from the root down to the current parent, as the recursion
      descends: repeat-free; the first names a record with an empty link cell;
      each later one names a record whose parent is the id before it. */
  ghost predicate ValidChain(rs: seq<Record>, path: seq<Id>) {
    && Distinct(path)
    && forall i {:trigger ChainParent(path, i)} :: 0 <= i < |path| ==> NamesParent(rs, path[i], ChainParent(path, i))
  }

  /** The record with id `child` is in the view and names `parent` as its parent. */
  predicate NamesParent(rs: seq<Record>, child: Id, parent: Option<Id>) {
    Find(rs, child).Some? && ParentOf(Find(rs, child).value) == parent
  }

  /** What the chain says the parent of its `i`-th id is. */
  function ChainParent(path: seq<Id>, i: nat): Option<Id>
    requires i < |path|
  {
    if i == 0 then None else Some(path[i - 1])
  }

  function LastOf(path: seq<Id>): Option<Id> {
    if path == [] then None else Some(path[|path| - 1])
  }

  /** The decreasing measure stays non-negative: a chain is no longer than the view. */
  lemma ChainBound(rs: seq<Record>, path: seq<Id>)
    requires ValidChain(rs, path)
    ensures |path| <= |rs|
  {
    forall i | 0 <= i < |path| ensures path[i] in Ids(rs) {
      assert NamesParent(rs, path[i], ChainParent(path, i));
    }
    DistinctIdsBound(path, rs);
  }

  /** A match of the current level is never already on the chain: the
      recursion can never revisit an ancestor. */
  lemma NotOnChain(rs: seq<Record>, path: seq<Id>, m: Record, i: nat)
    requires UniqueIds(rs) && ValidChain(rs, path)
    requires m in rs && ParentOf(m) == LastOf(path)
    requires i < |path|
    ensures path[i] != m.id
  {
    FindUnique(rs, m);
    assert NamesParent(rs, path[i], ChainParent(path, i));
    assert i > 0 ==> path[i - 1] != path[|path| - 1];
    assert ChainParent(path, i) != ParentOf(m);
    assert Find(rs, path[i]) != Find(rs, m.id);
  }

  /** Descending into a match extends the chain, and the chain stays shorter
      than the view, which bounds the depth of the recursion. */
  lemma ChainExtend(rs: seq<Record>, path: seq<Id>, m: Record)
    requires UniqueIds(rs) && ValidChain(rs, path)
    requires m in Matches(rs, LastOf(path))
    ensures ValidChain(rs, path + [m.id])
    ensures |path| < |rs|
  {
    MatchesMembers(rs, LastOf(path), m);
    FindUnique(rs, m);
    var n := |path|;
    var path' := path + [m.id];
    forall i, j | 0 <= i < j < |path'| ensures path'[i] != path'[j] {
      if j == n {
        NotOnChain(rs, path, m, i);
      } else {
        assert path'[i] == path[i] && path'[j] == path[j];
      }
    }
    forall i | 0 <= i < |path'|
      ensures NamesParent(rs, path'[i], ChainParent(path', i))
    {
      ChainExtendAt(rs, path, m, i);
    }
    ChainBound(rs, path');
  }

  lemma ChainExtendAt(rs: seq<Record>, path: seq<Id>, m: Record, i: nat)
    requires UniqueIds(rs) && ValidChain(rs, path)
    requires m in rs && ParentOf(m) == LastOf(path)
    requires i <= |path|
    ensures NamesParent(rs, (path + [m.id])[i], ChainParent(path + [m.id], i))
  {
    var n := |path|;
    var path' := path + [m.id];
    if i < n {
      assert path'[i] == path[i];
      assert i > 0 ==> path'[i - 1] == path[i - 1];
      assert ChainParent(path', i) == ChainParent(path, i);
    } else if n == 0 {
      FindUnique(rs, m);
    } else {
      FindUnique(rs, m);
      assert path'[n - 1] == path[n - 1];
    }
  }

  /** The label of one match: `!parentLabel ? itemLabel : parentLabel + itemLabel`.
      The first branch is the second one with an empty parent label. */
  function FullLabel(parentLabel: string, itemLabel: string): (full: string)
    ensures full == parentLabel + itemLabel
  {
    if parentLabel == "" then itemLabel else parentLabel + itemLabel
  }

  /** Everything `parse_childToParent(parent, parentLabel)` pushes, in order.
      `path` is a proof device only: the ids from the root down to `parent`. */
  function Level(rs: seq<Record>, mode: Mode, sep: string, parent: Option<Id>,
                 parentLabel: string, ghost path: seq<Id>): (out: seq<Assignment>)
    requires UniqueIds(rs) && ValidChain(rs, path) && parent == LastOf(path)
    decreases |rs| - |path|, 1
  {
    LevelFrom(rs, mode, sep, parent, parentLabel, path, 0)
  }

  /** What the `matches.forEach` loop pushes from the match at position `i` on:
      the match's own assignment, then everything below it, then the later matches. */
  function LevelFrom(rs: seq<Record>, mode: Mode, sep: string, parent: Option<Id>,
                     parentLabel: string, ghost path: seq<Id>, i: nat): (out: seq<Assignment>)
    requires UniqueIds(rs) && ValidChain(rs, path) && parent == LastOf(path)
    requires i <= |Matches(rs, parent)|
    decreases |rs| - |path|, 0, |Matches(rs, parent)| - i
  {
    var ms := Matches(rs, parent);
    if i == |ms| then []
    else
      var m := ms[i];
      var full := FullLabel(parentLabel, Component(mode, i, m));
      assert ValidChain(rs, path + [m.id]) && |path| < |rs| by {
        ChainExtend(rs, path, m);
      }
      [Assignment(m.id, full)]
        + Level(rs, mode, sep, Some(m.id), full + sep, path + [m.id])
        + LevelFrom(rs, mode, sep, parent, parentLabel, path, i + 1)
  }

  /** `parse_childToParent()`: the whole output, starting from the records
      with an empty link cell and an empty parent label. */
  function Labels(rs: seq<Record>, mode: Mode, sep: string): (out: seq<Assignment>)
    requires UniqueIds(rs)
  {
    Level(rs, mode, sep, None, "", [])
  }
}
