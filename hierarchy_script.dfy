/** The Recursive Hierarchy Labels script as a whole: the `updates` list both
    traversals push to, the traversals themselves, and the batched save that
    drains `updates` into the store. */
module HierarchyScript {
  import opened HierarchyRecords
  import opened Batching
  import CP = ChildToParent
  import PC = ParentToChild
  import CPP = ChildToParentProofs
  import PCP = ParentToChildProofs

  /** `a` followed by the result of a computation that may fail. */
  function Then(a: seq<Assignment>, o: Option<seq<Assignment>>): (r: Option<seq<Assignment>>)
    ensures r.Some? <==> o.Some?
    ensures r.Some? ==> r.value == a + o.value
  {
    match o
    case None => None
    case Some(b) => Some(a + b)
  }

  lemma ThenEmpty(o: Option<seq<Assignment>>)
    ensures Then([], o) == o
  {
    if o.Some? {
      assert [] + o.value == o.value;
    }
  }

  lemma ThenThen(a: seq<Assignment>, b: seq<Assignment>, o: Option<seq<Assignment>>)
    ensures Then(a, Then(b, o)) == Then(a + b, o)
  {
    if o.Some? {
      assert a + (b + o.value) == (a + b) + o.value;
    }
  }

  /** One successful iteration of the loop over a link cell. */
  lemma ChildrenFromStep(rs: seq<Record>, mode: Mode, sep: string, links: seq<Id>, k: nat,
                         labels: seq<string>, path: seq<Id>)
    requires PC.ValidStack(rs, path) && k < |links|
    requires PC.Subtree(rs, mode, sep, links[k], k, labels, path).Some?
    ensures PC.ChildrenFrom(rs, mode, sep, links, k, labels, path)
         == Then(PC.Subtree(rs, mode, sep, links[k], k, labels, path).value,
                 PC.ChildrenFrom(rs, mode, sep, links, k + 1, labels, path))
  {
  }

  /** One iteration of the loop over the roots: the root's block is what the
      loop over its links pushes, then the root itself. */
  lemma RootsFromStep(rs: seq<Record>, mode: Mode, sep: string, roots: seq<Record>, i: nat)
    requires UniqueIds(rs) && i < |roots| && forall r :: r in roots ==> r in rs
    requires PC.ValidStack(rs, [roots[i].id])
    ensures var rootLabel := Component(mode, i, roots[i]);
            var below := PC.ChildrenFrom(rs, mode, sep, roots[i].links, 0, [rootLabel], [roots[i].id]);
            PC.RootsFrom(rs, mode, sep, roots, i)
              == if below.None? then None
                 else Then(below.value + [Assignment(roots[i].id, rootLabel)],
                           PC.RootsFrom(rs, mode, sep, roots, i + 1))
  {
  }

  /** `parse_parentToChild()` is the loop over the roots, from the first. */
  lemma LabelsFromRoots(rs: seq<Record>, mode: Mode, sep: string)
    requires UniqueIds(rs)
    ensures forall r :: r in PC.Roots(rs) ==> r in rs
    ensures PC.Labels(rs, mode, sep) == Then([], PC.RootsFrom(rs, mode, sep, PC.Roots(rs), 0))
  {
    forall r | r in PC.Roots(rs) ensures r in rs { PC.RootsMembers(rs, r); }
    ThenEmpty(PC.RootsFrom(rs, mode, sep, PC.Roots(rs), 0));
  }

  lemma AppendAssoc(a: seq<Assignment>, b: seq<Assignment>, c: seq<Assignment>, x: Assignment)
    ensures a + b + c + [x] == a + (b + (c + [x]))
  {
  }

  lemma Regroup(before: seq<Assignment>, head: Assignment, below: seq<Assignment>, later: seq<Assignment>)
    ensures before + [head] + below + later == before + ([head] + below + later)
  {
  }

  /** One iteration of the loop over the matches of a parent. */
  lemma LevelFromStep(rs: seq<Record>, mode: Mode, sep: string, parent: Option<Id>,
                      pl: string, path: seq<Id>, i: nat)
    requires UniqueIds(rs) && CP.ValidChain(rs, path) && parent == CP.LastOf(path)
    requires i < |CP.Matches(rs, parent)|
    ensures var m := CP.Matches(rs, parent)[i];
            var full := CP.FullLabel(pl, Component(mode, i, m));
            CP.ValidChain(rs, path + [m.id])
            && CP.LevelFrom(rs, mode, sep, parent, pl, path, i)
               == [Assignment(m.id, full)] + CP.Level(rs, mode, sep, Some(m.id), full + sep, path + [m.id])
                  + CP.LevelFrom(rs, mode, sep, parent, pl, path, i + 1)
  {
    CP.ChainExtend(rs, path, CP.Matches(rs, parent)[i]);
  }

  /** What the selected traversal pushes, or `None` when it throws. */
  function Planned(rs: seq<Record>, mode: Mode, sep: string, direction: Direction): (planned: Option<seq<Assignment>>)
    requires UniqueIds(rs)
  {
    match direction
    case ChildToParent => Some(CP.Labels(rs, mode, sep))
    case ParentToChild => PC.Labels(rs, mode, sep)
  }

  /** The script's state: the view's records and the settings it was started
      with, the pending `updates`, and the update calls sent to the store. */
  class Script {
    const records: seq<Record>
    const mode: Mode
    const separator: string
    const direction: Direction
    var updates: seq<Assignment>
    var writes: seq<seq<Assignment>>

    constructor (records: seq<Record>, mode: Mode, separator: string, direction: Direction)
      ensures this.records == records && this.mode == mode
      ensures this.separator == separator && this.direction == direction
      ensures updates == [] && writes == []
    {
      this.records := records;
      this.mode := mode;
      this.separator := separator;
      this.direction := direction;
      updates := [];
      writes := [];
    }

    /** `parse_childToParent(parent, parentLabel)`: label every match of
        `parent` and, right after each, everything below it. */
    method ParseChildToParent(parent: Option<Id>, parentLabel: string, ghost path: seq<Id>)
      requires UniqueIds(records) && CP.ValidChain(records, path) && parent == CP.LastOf(path)
      modifies this
      ensures updates == old(updates) + CP.Level(records, mode, separator, parent, parentLabel, path)
      ensures writes == old(writes)
      decreases |records| - |path|
    {
      var matches := CP.Matches(records, parent);
      if |matches| == 0 {
        assert CP.Level(records, mode, separator, parent, parentLabel, path) == [];
        return;
      }
      assert updates + CP.LevelFrom(records, mode, separator, parent, parentLabel, path, 0)
          == old(updates) + CP.Level(records, mode, separator, parent, parentLabel, path);
      var index := 0;
      while index < |matches|
        invariant index <= |matches|
        invariant updates + CP.LevelFrom(records, mode, separator, parent, parentLabel, path, index)
               == old(updates) + CP.Level(records, mode, separator, parent, parentLabel, path)
        invariant writes == old(writes)
      {
        var m := matches[index];
        var itemLabel := Component(mode, index, m);
        var fullLabel := CP.FullLabel(parentLabel, itemLabel);
        LevelFromStep(records, mode, separator, parent, parentLabel, path, index);
        ghost var below := CP.Level(records, mode, separator, Some(m.id), fullLabel + separator, path + [m.id]);
        ghost var later := CP.LevelFrom(records, mode, separator, parent, parentLabel, path, index + 1);
        ghost var before := updates;
        updates := updates + [Assignment(m.id, fullLabel)];
        CP.ChainExtend(records, path, m);
        ParseChildToParent(Some(m.id), fullLabel + separator, path + [m.id]);
        assert updates == before + [Assignment(m.id, fullLabel)] + below;
        Regroup(before, Assignment(m.id, fullLabel), below, later);
        index := index + 1;
      }
    }

    /** `parseChildren(childId, childIndex, labels)`. `path` is the stack of
        calls in progress; reaching an id on it means the recursion would
        never end, which JavaScript reports as a stack overflow. Returns
        whether the call completes without throwing. */
    method ParseChildren(childId: Id, childIndex: nat, labels: seq<string>, path: seq<Id>) returns (ok: bool)
      requires PC.ValidStack(records, path)
      modifies this
      ensures ok == PC.Subtree(records, mode, separator, childId, childIndex, labels, path).Some?
      ensures ok ==> updates == old(updates) + PC.Subtree(records, mode, separator, childId, childIndex, labels, path).value
      ensures writes == old(writes)
      decreases |records| - |path|, 0
    {
      var found := Find(records, childId);
      if found.None? || childId in path {
        return false;
      }
      var childRecord := found.value;
      var childLabel := Component(mode, childIndex, childRecord);
      var labels' := labels + [childLabel];
      updates := updates + [Assignment(childRecord.id, Text.Join(labels', separator))];
      PC.PushStack(records, path, childId);
      ok := ParseLinks(childRecord.links, labels', path + [childId]);
    }

    /** The `forEach` over a link cell's ids, calling `parseChildren` on each
        with a copy of `labels`; stops at the first call that throws. */
    method ParseLinks(links: seq<Id>, labels: seq<string>, path: seq<Id>) returns (ok: bool)
      requires PC.ValidStack(records, path)
      modifies this
      ensures ok == PC.ChildrenFrom(records, mode, separator, links, 0, labels, path).Some?
      ensures ok ==> updates == old(updates) + PC.ChildrenFrom(records, mode, separator, links, 0, labels, path).value
      ensures writes == old(writes)
      decreases |records| - |path|, 1
    {
      ghost var start := |updates|;
      var k := 0;
      assert updates[start..] == [];
      ThenEmpty(PC.ChildrenFrom(records, mode, separator, links, 0, labels, path));
      while k < |links|
        invariant k <= |links| && start <= |updates| && updates[..start] == old(updates)
        invariant PC.ChildrenFrom(records, mode, separator, links, 0, labels, path)
               == Then(updates[start..], PC.ChildrenFrom(records, mode, separator, links, k, labels, path))
        invariant writes == old(writes)
      {
        ghost var before := updates;
        ok := ParseChildren(links[k], k, labels, path);
        if !ok {
          return;
        }
        ghost var sub := PC.Subtree(records, mode, separator, links[k], k, labels, path).value;
        assert updates[start..] == before[start..] + sub;
        ChildrenFromStep(records, mode, separator, links, k, labels, path);
        ThenThen(before[start..], sub, PC.ChildrenFrom(records, mode, separator, links, k + 1, labels, path));
        k := k + 1;
      }
      assert updates == updates[..start] + updates[start..];
      return true;
    }

    /** `parse_parentToChild()`: for each root, everything below it, then the
        root itself. Returns whether it completes without throwing. */
    method ParseParentToChild() returns (ok: bool)
      requires UniqueIds(records)
      modifies this
      ensures ok == PC.Labels(records, mode, separator).Some?
      ensures ok ==> updates == old(updates) + PC.Labels(records, mode, separator).value
      ensures writes == old(writes)
    {
      var roots := PC.Roots(records);
      LabelsFromRoots(records, mode, separator);
      var index := 0;
      ghost var done: seq<Assignment> := [];
      while index < |roots|
        invariant index <= |roots| && updates == old(updates) + done
        invariant PC.Labels(records, mode, separator)
               == Then(done, PC.RootsFrom(records, mode, separator, roots, index))
        invariant writes == old(writes)
      {
        var rootRecord := roots[index];
        var rootLabel := Component(mode, index, rootRecord);
        assert PC.ValidStack(records, [rootRecord.id]) by { FindUnique(records, rootRecord); }
        RootsFromStep(records, mode, separator, roots, index);
        var linksOk := ParseLinks(rootRecord.links, [rootLabel], [rootRecord.id]);
        if !linksOk {
          return false;
        }
        ghost var below := PC.ChildrenFrom(records, mode, separator, rootRecord.links, 0, [rootLabel], [rootRecord.id]).value;
        ghost var block := below + [Assignment(rootRecord.id, rootLabel)];
        ghost var next := PC.RootsFrom(records, mode, separator, roots, index + 1);
        assert PC.RootsFrom(records, mode, separator, roots, index) == Then(block, next);
        updates := updates + [Assignment(rootRecord.id, rootLabel)];
        assert updates == old(updates) + (done + block) by {
          AppendAssoc(old(updates), done, below, Assignment(rootRecord.id, rootLabel));
        }
        ThenThen(done, block, next);
        done := done + block;
        index := index + 1;
      }
      return true;
    }

    /** The save loop: send the first (at most) fifty pending updates in one
        call until none are left. */
    method SaveUpdates()
      modifies this
      ensures writes == old(writes) + Chunks(old(updates))
      ensures updates == []
    {
      while |updates| > 0
        invariant writes + Chunks(updates) == old(writes) + Chunks(old(updates))
        decreases |updates|
      {
        var k := ChunkLength(|updates|);
        writes := writes + [updates[..k]];
        updates := updates[k..];
      }
    }

    /** `main()`: run the selected traversal, then save its labels in batches of
        fifty when there are any. A traversal that throws ends the script
        before anything is saved. */
    method Run()
      requires UniqueIds(records) && updates == []
      modifies this
      ensures Planned(records, mode, separator, direction).None? ==> writes == old(writes)
      ensures Planned(records, mode, separator, direction).Some? ==>
                writes == old(writes) + Chunks(Planned(records, mode, separator, direction).value)
    {
      match direction {
        case ChildToParent =>
          ParseChildToParent(None, "", []);
        case ParentToChild =>
          var ok := ParseParentToChild();
          if !ok {
            return;
          }
      }
      assert updates == Planned(records, mode, separator, direction).value;
      if |updates| > 0 {
        SaveUpdates();
      } else {
        assert Chunks(updates) == [];
      }
    }
  }
}
