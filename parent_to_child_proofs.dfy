/** What Parent-to-Child produces, stated through walks: a walk starts at a
    record and follows links by their positions in each link cell. */
module ParentToChildProofs {
  import opened Text
  import opened HierarchyRecords
  import opened ParentToChild

  /** The records a walk from `id` along link positions `s` visits, starting
      with the record for `id`; `None` when an id is missing or a position is
      past the end of a link cell. */
  function Follow(rs: seq<Record>, id: Id, s: seq<nat>): (recs: Option<seq<Record>>)
    ensures recs.Some? ==> |recs.value| == |s| + 1 && recs.value[0].id == id
    decreases |s|
  {
    if id !in Ids(rs) then None
    else
      var r := Find(rs, id).value;
      if s == [] then Some([r])
      else if s[0] >= |r.links| then None
      else
        match Follow(rs, r.links[s[0]], s[1..])
        case None => None
        case Some(t) => Some([r] + t)
  }

  /** The label components along a walk: the first record's at `index`, each
      later record's at the link position it was reached by. */
  function Comps(mode: Mode, index: nat, s: seq<nat>, recs: seq<Record>): (cs: seq<string>)
    requires |recs| == |s| + 1
    ensures |cs| == |recs|
    decreases |s|
  {
    [Component(mode, index, recs[0])] + (if s == [] then [] else Comps(mode, s[0], s[1..], recs[1..]))
  }

  /** The assignment a walk produces: the last record, labelled with `labels`
      and the components along the walk, joined. */
  function Reached(rs: seq<Record>, mode: Mode, sep: string, id: Id, index: nat,
                   labels: seq<string>, s: seq<nat>): Option<Assignment>
  {
    match Follow(rs, id, s)
    case None => None
    case Some(recs) => Some(Assignment(recs[|recs| - 1].id, Join(labels + Comps(mode, index, s, recs), sep)))
  }

  /** A walk from `id` under the stack `path` that makes `parseChildren` fail:
      it reaches an id that is not a record of the view, or one already on
      the stack. */
  function Trouble(rs: seq<Record>, id: Id, s: seq<nat>, path: seq<Id>): bool
    decreases |s|
  {
    if id !in Ids(rs) || id in path then true
    else if s == [] then false
    else
      var r := Find(rs, id).value;
      if s[0] >= |r.links| then false else Trouble(rs, r.links[s[0]], s[1..], path + [id])
  }

  /** A walk one link longer visits the record for `id`, then the shorter walk. */
  lemma FollowCons(rs: seq<Record>, id: Id, j: nat, s: seq<nat>)
    requires id in Ids(rs) && j < |Find(rs, id).value.links|
    ensures var r := Find(rs, id).value;
            var t := Follow(rs, r.links[j], s);
            Follow(rs, id, [j] + s) == if t.None? then None else Some([r] + t.value)
  {
    var s' := [j] + s;
    assert s'[0] == j && s'[1..] == s;
  }

  lemma CompsCons(mode: Mode, index: nat, j: nat, s: seq<nat>, r: Record, t: seq<Record>)
    requires |t| == |s| + 1
    ensures Comps(mode, index, [j] + s, [r] + t) == [Component(mode, index, r)] + Comps(mode, j, s, t)
  {
    assert ([j] + s)[0] == j && ([j] + s)[1..] == s;
    assert ([r] + t)[0] == r && ([r] + t)[1..] == t;
  }

  /** The assignment of a walk that visits `recs`. */
  lemma ReachedSome(rs: seq<Record>, mode: Mode, sep: string, id: Id, index: nat,
                    labels: seq<string>, s: seq<nat>, recs: seq<Record>)
    requires Follow(rs, id, s) == Some(recs)
    ensures Reached(rs, mode, sep, id, index, labels, s)
         == Some(Assignment(recs[|recs| - 1].id, Join(labels + Comps(mode, index, s, recs), sep)))
  {
  }

  /** A walk one link longer through the record for `id`. */
  lemma ReachedCons(rs: seq<Record>, mode: Mode, sep: string, id: Id, index: nat,
                    labels: seq<string>, j: nat, s: seq<nat>)
    requires id in Ids(rs) && j < |Find(rs, id).value.links|
    ensures var r := Find(rs, id).value;
            Reached(rs, mode, sep, id, index, labels, [j] + s)
              == Reached(rs, mode, sep, r.links[j], j, labels + [Component(mode, index, r)], s)
  {
    var r := Find(rs, id).value;
    FollowCons(rs, id, j, s);
    var tail := Follow(rs, r.links[j], s);
    if tail.Some? {
      ReachedConsSome(rs, mode, sep, id, index, labels, j, s, r, r.links[j], tail.value);
    }
  }

  /** `ReachedCons` for a shorter walk from `link` that succeeds, visiting `t`. */
  lemma ReachedConsSome(rs: seq<Record>, mode: Mode, sep: string, id: Id, index: nat,
                        labels: seq<string>, j: nat, s: seq<nat>, r: Record, link: Id, t: seq<Record>)
    requires Follow(rs, link, s) == Some(t)
    requires Follow(rs, id, [j] + s) == Some([r] + t)
    ensures Reached(rs, mode, sep, id, index, labels, [j] + s)
         == Reached(rs, mode, sep, link, j, labels + [Component(mode, index, r)], s)
  {
    var c := Component(mode, index, r);
    var recs := [r] + t;
    var cs := Comps(mode, j, s, t);
    assert labels + Comps(mode, index, [j] + s, recs) == (labels + [c]) + cs by {
      CompsCons(mode, index, j, s, r, t);
      assert labels + ([c] + cs) == (labels + [c]) + cs;
    }
    assert Reached(rs, mode, sep, id, index, labels, [j] + s)
        == Some(Assignment(t[|t| - 1].id, Join((labels + [c]) + cs, sep))) by {
      ReachedSome(rs, mode, sep, id, index, labels, [j] + s, recs);
      assert recs[|recs| - 1] == t[|t| - 1];
    }
    ReachedSome(rs, mode, sep, link, j, labels + [c], s, t);
  }

  /** A call that succeeds pushes its own record's assignment, then what the
      loop over its links pushes. */
  lemma SubtreeUnfold(rs: seq<Record>, mode: Mode, sep: string, id: Id, index: nat,
                      labels: seq<string>, path: seq<Id>)
    requires ValidStack(rs, path) && Subtree(rs, mode, sep, id, index, labels, path).Some?
    ensures id in Ids(rs) && id !in path && ValidStack(rs, path + [id]) && |path| < |rs|
    ensures ChildrenFrom(rs, mode, sep, Find(rs, id).value.links, 0,
                         labels + [Component(mode, index, Find(rs, id).value)], path + [id]).Some?
    ensures Subtree(rs, mode, sep, id, index, labels, path).value
         == [Assignment(id, Join(labels + [Component(mode, index, Find(rs, id).value)], sep))]
            + ChildrenFrom(rs, mode, sep, Find(rs, id).value.links, 0,
                           labels + [Component(mode, index, Find(rs, id).value)], path + [id]).value
  {
    PushStack(rs, path, id);
  }

  /** `parseChildren(id, index, labels)` pushes an assignment exactly when
      some walk from `id` ends at it, labelled with `labels` and the walk's
      components (membership only: how often an assignment is pushed is not
      stated here). */
  lemma {:induction false} SubtreeEntries(rs: seq<Record>, mode: Mode, sep: string, id: Id, index: nat,
                                          labels: seq<string>, path: seq<Id>, e: Assignment)
    requires ValidStack(rs, path) && Subtree(rs, mode, sep, id, index, labels, path).Some?
    ensures (e in Subtree(rs, mode, sep, id, index, labels, path).value)
        <==> (exists s :: Reached(rs, mode, sep, id, index, labels, s) == Some(e))
    decreases |rs| - |path|, 0
  {
    SubtreeUnfold(rs, mode, sep, id, index, labels, path);
    var r := Find(rs, id).value;
    var labels' := labels + [Component(mode, index, r)];
    ChildrenEntries(rs, mode, sep, r.links, 0, labels', path + [id], e);
    if e in Subtree(rs, mode, sep, id, index, labels, path).value {
      SubtreeEntrySound(rs, mode, sep, id, index, labels, path, e);
    }
    if s :| Reached(rs, mode, sep, id, index, labels, s) == Some(e) {
      SubtreeEntryComplete(rs, mode, sep, id, index, labels, path, e, s);
    }
  }

  /** One step of `SubtreeEntries`: an entry comes from a walk. */
  lemma SubtreeEntrySound(rs: seq<Record>, mode: Mode, sep: string, id: Id, index: nat,
                          labels: seq<string>, path: seq<Id>, e: Assignment)
    requires ValidStack(rs, path) && Subtree(rs, mode, sep, id, index, labels, path).Some?
    requires e in Subtree(rs, mode, sep, id, index, labels, path).value
    requires id in Ids(rs) && id !in path && ValidStack(rs, path + [id])
    requires var r := Find(rs, id).value;
             var labels' := labels + [Component(mode, index, r)];
             var below := ChildrenFrom(rs, mode, sep, r.links, 0, labels', path + [id]);
             && below.Some?
             && Subtree(rs, mode, sep, id, index, labels, path).value
                == [Assignment(id, Join(labels', sep))] + below.value
             && (e in below.value ==>
                   exists j, s :: 0 <= j < |r.links| && Reached(rs, mode, sep, r.links[j], j, labels', s) == Some(e))
    ensures exists s :: Reached(rs, mode, sep, id, index, labels, s) == Some(e)
  {
    var r := Find(rs, id).value;
    var labels' := labels + [Component(mode, index, r)];
    var below := ChildrenFrom(rs, mode, sep, r.links, 0, labels', path + [id]).value;
    if e == Assignment(id, Join(labels', sep)) {
      assert Follow(rs, id, []) == Some([r]);
      assert Comps(mode, index, [], [r]) == [Component(mode, index, r)];
      ReachedSome(rs, mode, sep, id, index, labels, [], [r]);
      assert Reached(rs, mode, sep, id, index, labels, []) == Some(e);
    } else {
      assert e in below;
      var j, s' :| 0 <= j < |r.links| && Reached(rs, mode, sep, r.links[j], j, labels', s') == Some(e);
      ReachedCons(rs, mode, sep, id, index, labels, j, s');
    }
  }

  /** The other step of `SubtreeEntries`: a walk gives an entry. */
  lemma SubtreeEntryComplete(rs: seq<Record>, mode: Mode, sep: string, id: Id, index: nat,
                             labels: seq<string>, path: seq<Id>, e: Assignment, s: seq<nat>)
    requires ValidStack(rs, path) && Subtree(rs, mode, sep, id, index, labels, path).Some?
    requires Reached(rs, mode, sep, id, index, labels, s) == Some(e)
    requires id in Ids(rs) && id !in path && ValidStack(rs, path + [id])
    requires var r := Find(rs, id).value;
             var labels' := labels + [Component(mode, index, r)];
             var below := ChildrenFrom(rs, mode, sep, r.links, 0, labels', path + [id]);
             && below.Some?
             && Subtree(rs, mode, sep, id, index, labels, path).value
                == [Assignment(id, Join(labels', sep))] + below.value
             && ((exists j, s :: 0 <= j < |r.links| && Reached(rs, mode, sep, r.links[j], j, labels', s) == Some(e))
                   ==> e in below.value)
    ensures e in Subtree(rs, mode, sep, id, index, labels, path).value
  {
    var r := Find(rs, id).value;
    var labels' := labels + [Component(mode, index, r)];
    if s == [] {
      assert e == Assignment(id, Join(labels', sep));
    } else {
      var j := s[0];
      assert j < |r.links|;
      assert s == [j] + s[1..];
      ReachedCons(rs, mode, sep, id, index, labels, j, s[1..]);
      assert Reached(rs, mode, sep, r.links[j], j, labels', s[1..]) == Some(e);
    }
  }

  /** The `forEach` over links from `k` on pushes an assignment exactly when
      some walk from one of those links ends at it. */
  lemma {:induction false} ChildrenEntries(rs: seq<Record>, mode: Mode, sep: string, links: seq<Id>, k: nat,
                                           labels: seq<string>, path: seq<Id>, e: Assignment)
    requires ValidStack(rs, path) && k <= |links|
    requires ChildrenFrom(rs, mode, sep, links, k, labels, path).Some?
    ensures (e in ChildrenFrom(rs, mode, sep, links, k, labels, path).value)
        <==> (exists j, s :: k <= j < |links| && Reached(rs, mode, sep, links[j], j, labels, s) == Some(e))
    decreases |rs| - |path|, 1, |links| - k
  {
    if k < |links| {
      var first := Subtree(rs, mode, sep, links[k], k, labels, path).value;
      var more := ChildrenFrom(rs, mode, sep, links, k + 1, labels, path).value;
      assert ChildrenFrom(rs, mode, sep, links, k, labels, path).value == first + more;
      SubtreeEntries(rs, mode, sep, links[k], k, labels, path, e);
      ChildrenEntries(rs, mode, sep, links, k + 1, labels, path, e);
      if j, s :| k <= j < |links| && Reached(rs, mode, sep, links[j], j, labels, s) == Some(e) {
        if j == k {
          assert e in first;
        } else {
          assert e in more;
        }
      }
    }
  }

  lemma TroubleCons(rs: seq<Record>, id: Id, j: nat, s: seq<nat>, path: seq<Id>)
    requires id in Ids(rs) && id !in path && j < |Find(rs, id).value.links|
    ensures Trouble(rs, id, [j] + s, path) == Trouble(rs, Find(rs, id).value.links[j], s, path + [id])
  {
    assert ([j] + s)[0] == j && ([j] + s)[1..] == s;
  }

  /** `parseChildren(id, index, labels)` fails exactly when some walk from `id`
      reaches an id outside the view or one already on the stack. */
  lemma {:induction false} SubtreeFails(rs: seq<Record>, mode: Mode, sep: string, id: Id, index: nat,
                                        labels: seq<string>, path: seq<Id>)
    requires ValidStack(rs, path)
    ensures Subtree(rs, mode, sep, id, index, labels, path).None? <==> exists s :: Trouble(rs, id, s, path)
    decreases |rs| - |path|, 0
  {
    if id !in Ids(rs) || id in path {
      var none: seq<nat> := [];
      assert Subtree(rs, mode, sep, id, index, labels, path).None?;
      assert Trouble(rs, id, none, path);
      assert exists s :: Trouble(rs, id, s, path);
    } else {
      var r := Find(rs, id).value;
      var labels' := labels + [Component(mode, index, r)];
      PushStack(rs, path, id);
      ChildrenFails(rs, mode, sep, r.links, 0, labels', path + [id]);
      assert Subtree(rs, mode, sep, id, index, labels, path).None?
        <==> ChildrenFrom(rs, mode, sep, r.links, 0, labels', path + [id]).None?;
      if j, s' :| 0 <= j < |r.links| && Trouble(rs, r.links[j], s', path + [id]) {
        TroubleCons(rs, id, j, s', path);
      }
      if s :| Trouble(rs, id, s, path) {
        assert s != [] && s[0] < |r.links|;
        assert s == [s[0]] + s[1..];
        TroubleCons(rs, id, s[0], s[1..], path);
      }
    }
  }

  /** The loop over links from `k` on fails exactly when a walk from one of
      those links does. */
  lemma {:induction false} ChildrenFails(rs: seq<Record>, mode: Mode, sep: string, links: seq<Id>, k: nat,
                                         labels: seq<string>, path: seq<Id>)
    requires ValidStack(rs, path) && k <= |links|
    ensures ChildrenFrom(rs, mode, sep, links, k, labels, path).None?
        <==> exists j, s :: k <= j < |links| && Trouble(rs, links[j], s, path)
    decreases |rs| - |path|, 1, |links| - k
  {
    if k < |links| {
      SubtreeFails(rs, mode, sep, links[k], k, labels, path);
      ChildrenFails(rs, mode, sep, links, k + 1, labels, path);
      if j, s :| k <= j < |links| && Trouble(rs, links[j], s, path) {
        if j != k {
          assert k + 1 <= j;
        }
      }
    }
  }

  /** A root's block is `parseChildren` for the root itself with no labels
      above it, except that the root's own assignment comes last, after
      everything below it, instead of first. */
  lemma RootBlockIsSubtree(rs: seq<Record>, mode: Mode, sep: string, root: Record, i: nat)
    requires UniqueIds(rs) && root in rs
    ensures ValidStack(rs, [])
    ensures RootBlock(rs, mode, sep, root, i).Some? <==> Subtree(rs, mode, sep, root.id, i, [], []).Some?
    ensures RootBlock(rs, mode, sep, root, i).Some? ==>
              var t := Subtree(rs, mode, sep, root.id, i, [], []).value;
              |t| >= 1 && RootBlock(rs, mode, sep, root, i).value == t[1..] + [t[0]]
  {
    FindUnique(rs, root);
    var c := Component(mode, i, root);
    assert [] + [c] == [c];
    assert [] + [root.id] == [root.id];
    assert Join([c], sep) == c;
  }

  /** The blocks from root `i` on hold an assignment exactly when some walk
      from one of those roots yields it, the root's index among the roots
      giving its component. */
  lemma {:induction false} RootsFromEntries(rs: seq<Record>, mode: Mode, sep: string, roots: seq<Record>,
                                            i: nat, e: Assignment)
    requires UniqueIds(rs) && i <= |roots| && forall r :: r in roots ==> r in rs
    requires RootsFrom(rs, mode, sep, roots, i).Some?
    ensures (e in RootsFrom(rs, mode, sep, roots, i).value)
        <==> (exists k, s :: i <= k < |roots| && Reached(rs, mode, sep, roots[k].id, k, [], s) == Some(e))
    decreases |roots| - i
  {
    if i < |roots| {
      RootBlockIsSubtree(rs, mode, sep, roots[i], i);
      var t := Subtree(rs, mode, sep, roots[i].id, i, [], []).value;
      var block := RootBlock(rs, mode, sep, roots[i], i).value;
      var more := RootsFrom(rs, mode, sep, roots, i + 1).value;
      assert RootsFrom(rs, mode, sep, roots, i).value == block + more;
      assert e in block <==> e in t by {
        assert t == [t[0]] + t[1..];
      }
      SubtreeEntries(rs, mode, sep, roots[i].id, i, [], [], e);
      RootsFromEntries(rs, mode, sep, roots, i + 1, e);
      if k, s :| i <= k < |roots| && Reached(rs, mode, sep, roots[k].id, k, [], s) == Some(e) {
        if k != i {
          assert i + 1 <= k;
        }
      }
    }
  }

  lemma {:induction false} RootsFromFails(rs: seq<Record>, mode: Mode, sep: string, roots: seq<Record>, i: nat)
    requires UniqueIds(rs) && i <= |roots| && forall r :: r in roots ==> r in rs
    ensures RootsFrom(rs, mode, sep, roots, i).None?
        <==> exists k, s :: i <= k < |roots| && Trouble(rs, roots[k].id, s, [])
    decreases |roots| - i
  {
    if i < |roots| {
      RootBlockIsSubtree(rs, mode, sep, roots[i], i);
      SubtreeFails(rs, mode, sep, roots[i].id, i, [], []);
      RootsFromFails(rs, mode, sep, roots, i + 1);
      if k, s :| i <= k < |roots| && Trouble(rs, roots[k].id, s, []) {
        if k != i {
          assert i + 1 <= k;
        }
      }
    }
  }

  /** Parent-to-Child pushes an assignment exactly when some walk from a
      root yields it: the record the walk ends at, labelled with the components along it
      (the root's by its position among the roots, every other record's by
      its position in its parent's link cell) joined with the separator. */
  lemma LabelsEntries(rs: seq<Record>, mode: Mode, sep: string, e: Assignment)
    requires UniqueIds(rs) && Labels(rs, mode, sep).Some?
    ensures (e in Labels(rs, mode, sep).value)
        <==> (exists k, s :: 0 <= k < |Roots(rs)| && Reached(rs, mode, sep, Roots(rs)[k].id, k, [], s) == Some(e))
  {
    forall r | r in Roots(rs) ensures r in rs { RootsMembers(rs, r); }
    RootsFromEntries(rs, mode, sep, Roots(rs), 0, e);
  }

  /** Parent-to-Child throws exactly when a walk from a root reaches a link to
      a record outside the view or comes back to a record already on it. */
  lemma LabelsFail(rs: seq<Record>, mode: Mode, sep: string)
    requires UniqueIds(rs)
    ensures Labels(rs, mode, sep).None?
        <==> exists k, s :: 0 <= k < |Roots(rs)| && Trouble(rs, Roots(rs)[k].id, s, [])
  {
    forall r | r in Roots(rs) ensures r in rs { RootsMembers(rs, r); }
    RootsFromFails(rs, mode, sep, Roots(rs), 0);
  }
}
