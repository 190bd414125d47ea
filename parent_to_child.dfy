/** Parent-to-Child labelling: starting from the records no record links to,
    each record reached by following links gets the components along the
    links followed from its root, joined with the separator. */
module ParentToChild {
  import opened Text
  import opened HierarchyRecords

  /** The records of the view whose link cell names `id`, in view order. */
  function Parents(rs: seq<Record>, id: Id): (ps: seq<Record>)
    ensures forall p :: p in ps <==> p in rs && id in p.links
  {
    if rs == [] then []
    else (if id in rs[0].links then [rs[0]] else []) + Parents(rs[1..], id)
  }

  /** The records of `tail` that have no parent in the view `rs`, in order. */
  function RootsOf(rs: seq<Record>, tail: seq<Record>): (roots: seq<Record>)
    ensures |roots| <= |tail|
  {
    if tail == [] then []
    else (if |Parents(rs, tail[0].id)| == 0 then [tail[0]] else []) + RootsOf(rs, tail[1..])
  }

  /** The root records of the view, in view order. */
  function Roots(rs: seq<Record>): (roots: seq<Record>) {
    RootsOf(rs, rs)
  }

  /** A record is a root exactly when no record of the view links to it. */
  lemma {:induction false} RootsOfMembers(rs: seq<Record>, tail: seq<Record>, r: Record)
    ensures r in RootsOf(rs, tail) <==> r in tail && forall p :: p in rs ==> r.id !in p.links
    decreases |tail|
  {
    if tail != [] {
      RootsOfMembers(rs, tail[1..], r);
      assert tail == [tail[0]] + tail[1..];
      if |Parents(rs, tail[0].id)| != 0 {
        assert Parents(rs, tail[0].id)[0] in Parents(rs, tail[0].id);
      }
    }
  }

  lemma RootsMembers(rs: seq<Record>, r: Record)
    ensures r in Roots(rs) <==> r in rs && forall p :: p in rs ==> r.id !in p.links
  {
    RootsOfMembers(rs, rs, r);
  }

  /** The ids of the calls of `parseChildren` in progress, outermost first:
      records of the view, none twice. */
  predicate ValidStack(rs: seq<Record>, path: seq<Id>) {
    UniqueIds(rs) && Distinct(path) && forall k :: 0 <= k < |path| ==> path[k] in Ids(rs)
  }

  lemma PushStack(rs: seq<Record>, path: seq<Id>, id: Id)
    requires ValidStack(rs, path) && id in Ids(rs) && id !in path
    ensures ValidStack(rs, path + [id]) && |path| < |rs|
  {
    var path' := path + [id];
    forall i, j | 0 <= i < j < |path'| ensures path'[i] != path'[j] {
      if j == |path| {
        assert path[i] in path;
      }
    }
    DistinctIdsBound(path', rs);
  }

  /** What `parseChildren(id, index, labels)` pushes, or `None` when the call
      fails: the id is not a record of the view (`getRecord` finds nothing and
      the label lookup throws), or it is already being parsed further up the
      stack (the recursion never ends and overflows the stack). */
  function Subtree(rs: seq<Record>, mode: Mode, sep: string, id: Id, index: nat,
                   labels: seq<string>, path: seq<Id>): (out: Option<seq<Assignment>>)
    requires ValidStack(rs, path)
    decreases |rs| - |path|, 0
  {
    if id !in Ids(rs) || id in path then None
    else
      var r := Find(rs, id).value;
      var labels' := labels + [Component(mode, index, r)];
      assert ValidStack(rs, path + [id]) && |path| < |rs| by { PushStack(rs, path, id); }
      match ChildrenFrom(rs, mode, sep, r.links, 0, labels', path + [id])
      case None => None
      case Some(below) => Some([Assignment(r.id, Join(labels', sep))] + below)
  }

  /** What the `forEach` over a record's links pushes from link `k` on. */
  function ChildrenFrom(rs: seq<Record>, mode: Mode, sep: string, links: seq<Id>, k: nat,
                        labels: seq<string>, path: seq<Id>): (out: Option<seq<Assignment>>)
    requires ValidStack(rs, path) && k <= |links|
    decreases |rs| - |path|, 1, |links| - k
  {
    if k == |links| then Some([])
    else
      match Subtree(rs, mode, sep, links[k], k, labels, path)
      case None => None
      case Some(first) =>
        match ChildrenFrom(rs, mode, sep, links, k + 1, labels, path)
        case None => None
        case Some(more) => Some(first + more)
  }

  /** What the `roots.forEach` body pushes for the root at position `i`: every
      record below it, then the root itself with its own component. */
  function RootBlock(rs: seq<Record>, mode: Mode, sep: string, root: Record, i: nat): (block: Option<seq<Assignment>>)
    requires UniqueIds(rs) && root in rs
  {
    var rootLabel := Component(mode, i, root);
    assert ValidStack(rs, [root.id]) by { assert root.id in Ids(rs) by { FindUnique(rs, root); } }
    match ChildrenFrom(rs, mode, sep, root.links, 0, [rootLabel], [root.id])
    case None => None
    case Some(below) => Some(below + [Assignment(root.id, rootLabel)])
  }

  /** The blocks of the roots from position `i` on. */
  function RootsFrom(rs: seq<Record>, mode: Mode, sep: string, roots: seq<Record>, i: nat): (out: Option<seq<Assignment>>)
    requires UniqueIds(rs) && i <= |roots| && forall r :: r in roots ==> r in rs
    decreases |roots| - i
  {
    if i == |roots| then Some([])
    else
      match RootBlock(rs, mode, sep, roots[i], i)
      case None => None
      case Some(block) =>
        match RootsFrom(rs, mode, sep, roots, i + 1)
        case None => None
        case Some(more) => Some(block + more)
  }

  /** `parse_parentToChild()`: everything pushed, or `None` when it throws. */
  function Labels(rs: seq<Record>, mode: Mode, sep: string): (out: Option<seq<Assignment>>)
    requires UniqueIds(rs)
  {
    var roots := Roots(rs);
    assert forall r :: r in roots ==> r in rs by {
      forall r | r in roots ensures r in rs { RootsMembers(rs, r); }
    }
    RootsFrom(rs, mode, sep, roots, 0)
  }
}
