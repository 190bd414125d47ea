/** What Child-to-Parent labelling produces: exactly the records whose first
    links lead to a record with an empty link cell, each once, in pre-order,
    each labelled with its parent's label, the separator and its own component. */
module ChildToParentProofs {
  import opened Text
  import opened HierarchyRecords
  import opened ChildToParent
  import opened ParentChains

  /** The frame of one call of the traversal is well formed. */
  ghost predicate Frame(rs: seq<Record>, parent: Option<Id>, path: seq<Id>) {
    UniqueIds(rs) && ValidChain(rs, path) && parent == LastOf(path)
  }

  /** Some assignment of `out` is for `x`. */
  ghost predicate Assigns(out: seq<Assignment>, x: Id) {
    exists e :: e in out && e.id == x
  }

  /** No record is assigned twice. */
  ghost predicate DistinctIds(out: seq<Assignment>) {
    forall p, q :: 0 <= p < q < |out| ==> out[p].id != out[q].id
  }

  /** A chain from `x` reaches the record `y` (possibly `x` itself). */
  ghost predicate Below(rs: seq<Record>, x: Id, y: Id) {
    exists k :: Up(rs, At(x), k) == At(y)
  }

  lemma MatchStep(rs: seq<Record>, parent: Option<Id>, j: nat)
    requires UniqueIds(rs) && j < |Matches(rs, parent)|
    ensures Matches(rs, parent)[j] in rs
    ensures Step(rs, At(Matches(rs, parent)[j].id)) == AsAncestor(parent)
  {
    var m := Matches(rs, parent)[j];
    MatchesMembers(rs, parent, m);
    StepOfRecord(rs, m);
  }

  /** Everything pushed from match `i` on lies below one of the matches `i`, `i + 1`, .... */
  lemma {:induction false} LevelFromSound(rs: seq<Record>, mode: Mode, sep: string, parent: Option<Id>,
                                          pl: string, path: seq<Id>, i: nat)
    requires Frame(rs, parent, path) && i <= |Matches(rs, parent)|
    ensures forall e :: e in LevelFrom(rs, mode, sep, parent, pl, path, i) ==>
              exists j :: i <= j < |Matches(rs, parent)| && Below(rs, e.id, Matches(rs, parent)[j].id)
    decreases |rs| - |path|, |Matches(rs, parent)| - i
  {
    var ms := Matches(rs, parent);
    if i < |ms| {
      var m := ms[i];
      var full := FullLabel(pl, Component(mode, i, m));
      ChainExtend(rs, path, m);
      var path' := path + [m.id];
      var sub := Level(rs, mode, sep, Some(m.id), full + sep, path');
      var rest := LevelFrom(rs, mode, sep, parent, pl, path, i + 1);
      assert LevelFrom(rs, mode, sep, parent, pl, path, i) == [Assignment(m.id, full)] + sub + rest;
      LevelFromSound(rs, mode, sep, Some(m.id), full + sep, path', 0);
      LevelFromSound(rs, mode, sep, parent, pl, path, i + 1);
      assert Up(rs, At(m.id), 0) == At(m.id);
      forall e | e in sub ensures Below(rs, e.id, m.id) {
        var ms' := Matches(rs, Some(m.id));
        var j' :| 0 <= j' < |ms'| && Below(rs, e.id, ms'[j'].id);
        var k :| Up(rs, At(e.id), k) == At(ms'[j'].id);
        MatchStep(rs, Some(m.id), j');
        UpStep(rs, At(e.id), k);
      }
    }
  }

  /** The subtree below a match reaches the top: one step more than the chain. */
  lemma BelowMatchRooted(rs: seq<Record>, parent: Option<Id>, path: seq<Id>, j: nat, x: Id)
    requires Frame(rs, parent, path) && j < |Matches(rs, parent)|
    requires Below(rs, x, Matches(rs, parent)[j].id)
    ensures Up(rs, At(x), TopDistance(rs, x, Matches(rs, parent)[j].id) + |path| + 1) == Top
  {
    var m := Matches(rs, parent)[j];
    var k := TopDistance(rs, x, m.id);
    ChainReachesTop(rs, path);
    MatchStep(rs, parent, j);
    UpAdd(rs, At(x), k, |path| + 1);
    UpAdd(rs, At(m.id), 1, |path|);
  }

  /** A witness height for `Below`. */
  ghost function TopDistance(rs: seq<Record>, x: Id, y: Id): (k: nat)
    requires Below(rs, x, y)
    ensures Up(rs, At(x), k) == At(y)
  {
    var k :| Up(rs, At(x), k) == At(y); k
  }

  /** Different matches of one level have disjoint subtrees. */
  lemma SiblingsDisjoint(rs: seq<Record>, parent: Option<Id>, path: seq<Id>, i: nat, j: nat, x: Id)
    requires Frame(rs, parent, path) && i < j < |Matches(rs, parent)|
    requires Below(rs, x, Matches(rs, parent)[i].id)
    ensures !Below(rs, x, Matches(rs, parent)[j].id)
  {
    var ms := Matches(rs, parent);
    if Below(rs, x, ms[j].id) {
      BelowMatchRooted(rs, parent, path, i, x);
      MatchStep(rs, parent, i);
      MatchStep(rs, parent, j);
      MatchesUnique(rs, parent);
      SameParentSameRecord(rs, x, ms[i].id, ms[j].id, TopDistance(rs, x, ms[i].id),
                           TopDistance(rs, x, ms[j].id),
                           TopDistance(rs, x, ms[i].id) + |path| + 1);
    }
  }

  /** A match is not below itself by a chain of one or more steps. */
  lemma MatchNotOwnDescendant(rs: seq<Record>, parent: Option<Id>, path: seq<Id>, j: nat, k: nat)
    requires Frame(rs, parent, path) && j < |Matches(rs, parent)| && k >= 1
    ensures Up(rs, At(Matches(rs, parent)[j].id), k) != At(Matches(rs, parent)[j].id)
  {
    var m := Matches(rs, parent)[j];
    assert Up(rs, At(m.id), 0) == At(m.id);
    BelowMatchRooted(rs, parent, path, j, m.id);
    NoRepeat(rs, At(m.id), TopDistance(rs, m.id, m.id) + |path| + 1, 0, k);
  }

  lemma DistinctConcat(a: seq<Assignment>, b: seq<Assignment>)
    requires DistinctIds(a) && DistinctIds(b)
    requires forall e, f :: e in a && f in b ==> e.id != f.id
    ensures DistinctIds(a + b)
  {
    forall p, q | 0 <= p < q < |a + b| ensures (a + b)[p].id != (a + b)[q].id {
      if q < |a| {
        assert (a + b)[p] == a[p] && (a + b)[q] == a[q];
      } else if p >= |a| {
        assert (a + b)[p] == b[p - |a|] && (a + b)[q] == b[q - |a|];
      } else {
        assert (a + b)[p] in a && (a + b)[q] in b;
      }
    }
  }

  /** Every entry pushed below match `i` lies strictly below it. */
  lemma ChildBelow(rs: seq<Record>, mode: Mode, sep: string, parent: Option<Id>,
                   pl: string, path: seq<Id>, i: nat, e: Assignment)
    requires Frame(rs, parent, path) && i < |Matches(rs, parent)|
    requires e in Child(rs, mode, sep, parent, pl, path, i)
    ensures Below(rs, e.id, Matches(rs, parent)[i].id) && e.id != Matches(rs, parent)[i].id
  {
    var m := Matches(rs, parent)[i];
    ChainExtend(rs, path, m);
    LevelFromSound(rs, mode, sep, Some(m.id), FullLabel(pl, Component(mode, i, m)) + sep, path + [m.id], 0);
    var ms' := Matches(rs, Some(m.id));
    var j' :| 0 <= j' < |ms'| && Below(rs, e.id, ms'[j'].id);
    var k := TopDistance(rs, e.id, ms'[j'].id);
    MatchStep(rs, Some(m.id), j');
    UpStep(rs, At(e.id), k);
    if e.id == m.id {
      MatchNotOwnDescendant(rs, parent, path, i, k + 1);
    }
  }

  /** Nothing pushed after match `i` lies below match `i`. */
  lemma LaterNotBelow(rs: seq<Record>, mode: Mode, sep: string, parent: Option<Id>,
                      pl: string, path: seq<Id>, i: nat, x: Id, f: Assignment)
    requires Frame(rs, parent, path) && i < |Matches(rs, parent)|
    requires Below(rs, x, Matches(rs, parent)[i].id)
    requires f in LevelFrom(rs, mode, sep, parent, pl, path, i + 1)
    ensures f.id != x
  {
    var ms := Matches(rs, parent);
    LevelFromSound(rs, mode, sep, parent, pl, path, i + 1);
    var j :| i + 1 <= j < |ms| && Below(rs, f.id, ms[j].id);
    if f.id == x {
      SiblingsDisjoint(rs, parent, path, i, j, x);
    }
  }

  /** Each record is pushed at most once. */
  lemma {:induction false} LevelFromDistinct(rs: seq<Record>, mode: Mode, sep: string, parent: Option<Id>,
                                             pl: string, path: seq<Id>, i: nat)
    requires Frame(rs, parent, path) && i <= |Matches(rs, parent)|
    ensures DistinctIds(LevelFrom(rs, mode, sep, parent, pl, path, i))
    decreases |rs| - |path|, |Matches(rs, parent)| - i
  {
    var ms := Matches(rs, parent);
    if i < |ms| {
      var m := ms[i];
      var full := FullLabel(pl, Component(mode, i, m));
      ChainExtend(rs, path, m);
      var path' := path + [m.id];
      var head := [Assignment(m.id, full)];
      var sub := Child(rs, mode, sep, parent, pl, path, i);
      var rest := LevelFrom(rs, mode, sep, parent, pl, path, i + 1);
      assert sub == Level(rs, mode, sep, Some(m.id), full + sep, path');
      assert LevelFrom(rs, mode, sep, parent, pl, path, i) == head + sub + rest;
      LevelFromDistinct(rs, mode, sep, Some(m.id), full + sep, path', 0);
      LevelFromDistinct(rs, mode, sep, parent, pl, path, i + 1);
      assert Up(rs, At(m.id), 0) == At(m.id);
      forall e, f | e in head && f in sub ensures e.id != f.id {
        ChildBelow(rs, mode, sep, parent, pl, path, i, f);
      }
      forall e, f | e in head + sub && f in rest ensures e.id != f.id {
        if e in sub {
          ChildBelow(rs, mode, sep, parent, pl, path, i, e);
        }
        LaterNotBelow(rs, mode, sep, parent, pl, path, i, e.id, f);
      }
      DistinctConcat(head, sub);
      DistinctConcat(head + sub, rest);
    }
  }

  /** The part of `LevelFrom` that the recursive call for match `j` pushes. */
  ghost function Child(rs: seq<Record>, mode: Mode, sep: string, parent: Option<Id>,
                       pl: string, path: seq<Id>, j: nat): seq<Assignment>
    requires Frame(rs, parent, path) && j < |Matches(rs, parent)|
  {
    var m := Matches(rs, parent)[j];
    assert ValidChain(rs, path + [m.id]) by { ChainExtend(rs, path, m); }
    Level(rs, mode, sep, Some(m.id), FullLabel(pl, Component(mode, j, m)) + sep, path + [m.id])
  }

  /** Match `j` and everything below it appear in the output from position `i <= j` on. */
  lemma {:induction false} LevelFromContains(rs: seq<Record>, mode: Mode, sep: string, parent: Option<Id>,
                                             pl: string, path: seq<Id>, i: nat, j: nat, x: Id)
    requires Frame(rs, parent, path) && i <= j < |Matches(rs, parent)|
    requires x == Matches(rs, parent)[j].id || Assigns(Child(rs, mode, sep, parent, pl, path, j), x)
    ensures Assigns(LevelFrom(rs, mode, sep, parent, pl, path, i), x)
    decreases j - i
  {
    var ms := Matches(rs, parent);
    var m := ms[i];
    var full := FullLabel(pl, Component(mode, i, m));
    ChainExtend(rs, path, m);
    var out := LevelFrom(rs, mode, sep, parent, pl, path, i);
    var sub := Child(rs, mode, sep, parent, pl, path, i);
    var rest := LevelFrom(rs, mode, sep, parent, pl, path, i + 1);
    assert out == [Assignment(m.id, full)] + sub + rest;
    if i == j {
      if x == m.id {
        assert out[0] in out;
      } else {
        var e :| e in sub && e.id == x;
        assert e in out;
      }
    } else {
      LevelFromContains(rs, mode, sep, parent, pl, path, i + 1, j, x);
      var e :| e in rest && e.id == x;
      assert e in out;
    }
  }

  /** A record whose chain of first links reaches `parent` in `k >= 1` steps is
      pushed by the call for `parent`, whatever its parent label. */
  lemma {:induction false} Complete(rs: seq<Record>, mode: Mode, sep: string, parent: Option<Id>,
                                    pl: string, path: seq<Id>, x: Id, k: nat)
    requires Frame(rs, parent, path) && k >= 1
    requires Up(rs, At(x), k) == AsAncestor(parent)
    ensures Assigns(Level(rs, mode, sep, parent, pl, path), x)
    decreases k
  {
    UpStep(rs, At(x), k - 1);
    var a := Up(rs, At(x), k - 1);
    if a == Top {
      Complete(rs, mode, sep, parent, pl, path, x, k - 1);
    } else {
      var y := a.id;
      var r := Find(rs, y).value;
      assert AsAncestor(ParentOf(r)) == AsAncestor(parent);
      assert ParentOf(r) == parent;
      MatchesMembers(rs, parent, r);
      var ms := Matches(rs, parent);
      var j :| 0 <= j < |ms| && ms[j] == r;
      if k - 1 != 0 {
        assert Frame(rs, Some(y), path + [y]) by {
          ChainExtend(rs, path, r);
          assert LastOf(path + [y]) == Some(y);
        }
        assert Up(rs, At(x), k - 1) == AsAncestor(Some(y));
        Complete(rs, mode, sep, Some(y), FullLabel(pl, Component(mode, j, r)) + sep, path + [y], x, k - 1);
      }
      LevelFromContains(rs, mode, sep, parent, pl, path, 0, j, x);
    }
  }

  /** Every entry the traversal pushes names a record of the view. */
  lemma EntryIsRecord(rs: seq<Record>, mode: Mode, sep: string, parent: Option<Id>,
                      pl: string, path: seq<Id>, e: Assignment)
    requires Frame(rs, parent, path) && e in Level(rs, mode, sep, parent, pl, path)
    ensures e.id in Ids(rs)
  {
    LevelFromSound(rs, mode, sep, parent, pl, path, 0);
    var ms := Matches(rs, parent);
    var j :| 0 <= j < |ms| && Below(rs, e.id, ms[j].id);
    var k := TopDistance(rs, e.id, ms[j].id);
    MatchStep(rs, parent, j);
    if k == 0 {
      assert ms[j] in rs;
    } else {
      ChainStartIsRecord(rs, e.id, k, ms[j].id);
    }
  }

  /** A chain of one or more steps that reaches a record starts at a record of the view. */
  lemma ChainStartIsRecord(rs: seq<Record>, x: Id, k: nat, y: Id)
    requires k >= 1 && Up(rs, At(x), k) == At(y)
    ensures x in Ids(rs)
  {
    assert Up(rs, At(x), k) == Up(rs, Step(rs, At(x)), k - 1);
    if x !in Ids(rs) {
      assert Step(rs, At(x)) == Lost;
      LostStaysLost(rs, k - 1);
      assert false;
    }
  }

  lemma {:induction false} LostStaysLost(rs: seq<Record>, k: nat)
    ensures Up(rs, Lost, k) == Lost
    decreases k
  {
    if k > 0 {
      LostStaysLost(rs, k - 1);
    }
  }

  /** Child-to-Parent labels exactly the records whose first links lead to a
      record with an empty link cell; records elsewhere (on a cycle of first
      links, or below a link to a record outside the view) get no label. */
  lemma LabelsExactlyRooted(rs: seq<Record>, mode: Mode, sep: string, x: Id)
    requires UniqueIds(rs)
    ensures Assigns(Labels(rs, mode, sep), x) <==> Rooted(rs, x)
  {
    var path: seq<Id> := [];
    if Assigns(Labels(rs, mode, sep), x) {
      LevelFromSound(rs, mode, sep, None, "", path, 0);
      var e :| e in Labels(rs, mode, sep) && e.id == x;
      var j :| 0 <= j < |Matches(rs, None)| && Below(rs, x, Matches(rs, None)[j].id);
      BelowMatchRooted(rs, None, path, j, x);
    }
    if Rooted(rs, x) {
      var n :| Up(rs, At(x), n) == Top;
      assert n != 0;
      Complete(rs, mode, sep, None, "", path, x, n);
    }
  }

  /** Every label is for a record of the view, and no record gets two. */
  lemma LabelsDistinct(rs: seq<Record>, mode: Mode, sep: string)
    requires UniqueIds(rs)
    ensures DistinctIds(Labels(rs, mode, sep))
    ensures forall e :: e in Labels(rs, mode, sep) ==> e.id in Ids(rs)
  {
    LevelFromDistinct(rs, mode, sep, None, "", [], 0);
    forall e | e in Labels(rs, mode, sep) ensures e.id in Ids(rs) {
      EntryIsRecord(rs, mode, sep, None, "", [], e);
    }
  }

  /** A record on a cycle of first links, or whose chain of first links runs
      into one, is never labelled. */
  lemma CycleUnlabelled(rs: seq<Record>, mode: Mode, sep: string, x: Id)
    requires UniqueIds(rs) && ReachesCycle(rs, x)
    ensures !Assigns(Labels(rs, mode, sep), x)
  {
    var j, y :| Up(rs, At(x), j) == At(y) && OnCycle(rs, y);
    var k :| k >= 1 && Up(rs, At(y), k) == At(y);
    forall n: nat ensures Up(rs, At(x), n) != Top {
      CycleNeverRooted(rs, x, j, y, k, n);
    }
    LabelsExactlyRooted(rs, mode, sep, x);
  }

  /** The position of the first record with id `id` in `ms`, or `|ms|`. */
  function Position(ms: seq<Record>, id: Id): (k: nat)
    ensures k <= |ms|
    ensures k < |ms| ==> ms[k].id == id
    ensures forall j :: 0 <= j < k ==> ms[j].id != id
  {
    if ms == [] then 0
    else if ms[0].id == id then 0
    else 1 + Position(ms[1..], id)
  }

  lemma PositionOf(ms: seq<Record>, i: nat)
    requires UniqueIds(ms) && i < |ms|
    ensures Position(ms, ms[i].id) == i
  {
  }

  /** The component a record contributes to its label: its own label source,
      or its 1-based position among the records sharing its parent. */
  function ComponentOf(rs: seq<Record>, mode: Mode, r: Record): string {
    Component(mode, Position(Matches(rs, ParentOf(r)), r.id), r)
  }

  /** Entry `q` of `out`, for record `r`, is a child of `parent` labelled with
      the parent label and its component, or has its parent earlier in `out`
      and that parent's label, the separator and its component. */
  ghost predicate WellPlaced(rs: seq<Record>, mode: Mode, sep: string, out: seq<Assignment>,
                             parent: Option<Id>, pl: string, q: nat, r: Record)
    requires q < |out|
  {
    (ParentOf(r) == parent && out[q].text == pl + ComponentOf(rs, mode, r))
    || (exists p :: 0 <= p < q && ParentOf(r) == Some(out[p].id)
                    && out[q].text == out[p].text + sep + ComponentOf(rs, mode, r))
  }

  /** Every entry of `out` is placed, as `WellPlaced` says. */
  ghost predicate AllPlaced(rs: seq<Record>, mode: Mode, sep: string, out: seq<Assignment>,
                            parent: Option<Id>, pl: string)
  {
    forall q, r :: 0 <= q < |out| && r in rs && r.id == out[q].id ==>
      WellPlaced(rs, mode, sep, out, parent, pl, q, r)
  }

  lemma {:induction false} LevelFromShape(rs: seq<Record>, mode: Mode, sep: string, parent: Option<Id>,
                                          pl: string, path: seq<Id>, i: nat)
    requires Frame(rs, parent, path) && i <= |Matches(rs, parent)|
    ensures AllPlaced(rs, mode, sep, LevelFrom(rs, mode, sep, parent, pl, path, i), parent, pl)
    decreases |rs| - |path|, |Matches(rs, parent)| - i
  {
    var ms := Matches(rs, parent);
    if i < |ms| {
      var m := ms[i];
      var full := FullLabel(pl, Component(mode, i, m));
      ChainExtend(rs, path, m);
      var path' := path + [m.id];
      var sub := Level(rs, mode, sep, Some(m.id), full + sep, path');
      var rest := LevelFrom(rs, mode, sep, parent, pl, path, i + 1);
      var out := LevelFrom(rs, mode, sep, parent, pl, path, i);
      assert out == [Assignment(m.id, full)] + sub + rest;
      LevelFromShape(rs, mode, sep, Some(m.id), full + sep, path', 0);
      LevelFromShape(rs, mode, sep, parent, pl, path, i + 1);
      assert sub == LevelFrom(rs, mode, sep, Some(m.id), full + sep, path', 0);
      PlacedConcat(rs, mode, sep, parent, pl, i, Assignment(m.id, full), sub, rest);
    }
  }

  /** The match's own entry, then what is placed below it, then what is placed
      after it: all of it is placed. */
  lemma PlacedConcat(rs: seq<Record>, mode: Mode, sep: string, parent: Option<Id>, pl: string,
                     i: nat, head: Assignment, sub: seq<Assignment>, rest: seq<Assignment>)
    requires UniqueIds(rs) && i < |Matches(rs, parent)|
    requires head.id == Matches(rs, parent)[i].id
    requires head.text == pl + Component(mode, i, Matches(rs, parent)[i])
    requires AllPlaced(rs, mode, sep, sub, Some(head.id), head.text + sep)
    requires AllPlaced(rs, mode, sep, rest, parent, pl)
    ensures AllPlaced(rs, mode, sep, [head] + sub + rest, parent, pl)
  {
    var out := [head] + sub + rest;
    forall q, r | 0 <= q < |out| && r in rs && r.id == out[q].id
      ensures WellPlaced(rs, mode, sep, out, parent, pl, q, r)
    {
      if q == 0 {
        PlacedHead(rs, mode, sep, parent, pl, i, head, sub, rest, r);
      } else if q <= |sub| {
        PlacedBelowHead(rs, mode, sep, head, sub, rest, parent, pl, q - 1, r);
      } else {
        PlacedAfter(rs, mode, sep, [head] + sub, rest, parent, pl, q - 1 - |sub|, r);
      }
    }
  }

  /** The match's own entry comes first and is placed as a child of `parent`. */
  lemma PlacedHead(rs: seq<Record>, mode: Mode, sep: string, parent: Option<Id>, pl: string,
                   i: nat, head: Assignment, sub: seq<Assignment>, rest: seq<Assignment>, r: Record)
    requires UniqueIds(rs) && i < |Matches(rs, parent)|
    requires head.id == Matches(rs, parent)[i].id
    requires head.text == pl + Component(mode, i, Matches(rs, parent)[i])
    requires r in rs && r.id == head.id
    ensures WellPlaced(rs, mode, sep, [head] + sub + rest, parent, pl, 0, r)
  {
    HeadPlaced(rs, mode, parent, i, r);
    assert ([head] + sub + rest)[0] == head;
  }

  /** The record of match `i` is a child of `parent` whose component is the one match `i` gets. */
  lemma HeadPlaced(rs: seq<Record>, mode: Mode, parent: Option<Id>, i: nat, r: Record)
    requires UniqueIds(rs) && i < |Matches(rs, parent)|
    requires r in rs && r.id == Matches(rs, parent)[i].id
    ensures ParentOf(r) == parent
    ensures Component(mode, i, Matches(rs, parent)[i]) == ComponentOf(rs, mode, r)
  {
    var ms := Matches(rs, parent);
    MatchesMembers(rs, parent, ms[i]);
    assert r == ms[i];
    MatchesUnique(rs, parent);
    PositionOf(ms, i);
  }

  /** An entry placed under the head's frame is placed in the head's list. */
  lemma PlacedBelowHead(rs: seq<Record>, mode: Mode, sep: string, head: Assignment,
                        sub: seq<Assignment>, rest: seq<Assignment>, parent: Option<Id>,
                        pl: string, q: nat, r: Record)
    requires q < |sub| && AllPlaced(rs, mode, sep, sub, Some(head.id), head.text + sep)
    requires r in rs && r.id == ([head] + sub + rest)[q + 1].id
    ensures WellPlaced(rs, mode, sep, [head] + sub + rest, parent, pl, q + 1, r)
  {
    var out := [head] + sub + rest;
    var c := ComponentOf(rs, mode, r);
    assert out[q + 1] == sub[q];
    assert WellPlaced(rs, mode, sep, sub, Some(head.id), head.text + sep, q, r);
    if ParentOf(r) == Some(head.id) && sub[q].text == head.text + sep + c {
      assert out[0] == head;
    } else {
      var p :| 0 <= p < q && ParentOf(r) == Some(sub[p].id) && sub[q].text == sub[p].text + sep + c;
      assert out[p + 1] == sub[p];
    }
  }

  /** Prepending entries keeps an entry placed. */
  lemma PlacedAfter(rs: seq<Record>, mode: Mode, sep: string, pre: seq<Assignment>,
                    rest: seq<Assignment>, parent: Option<Id>, pl: string, q: nat, r: Record)
    requires q < |rest| && AllPlaced(rs, mode, sep, rest, parent, pl)
    requires r in rs && r.id == (pre + rest)[|pre| + q].id
    ensures WellPlaced(rs, mode, sep, pre + rest, parent, pl, |pre| + q, r)
  {
    var out := pre + rest;
    var c := ComponentOf(rs, mode, r);
    assert out[|pre| + q] == rest[q];
    assert WellPlaced(rs, mode, sep, rest, parent, pl, q, r);
    if !(ParentOf(r) == parent && rest[q].text == pl + c) {
      var p :| 0 <= p < q && ParentOf(r) == Some(rest[p].id) && rest[q].text == rest[p].text + sep + c;
      assert out[|pre| + p] == rest[p];
    }
  }

  /** The labels come out in pre-order: a record with an empty link cell is
      labelled with its own component alone; any other record is labelled
      after its parent, with the parent's label, the separator and its own
      component. Under Index the component is the record's 1-based position
      among the records of the view that share its parent. */
  lemma LabelsShape(rs: seq<Record>, mode: Mode, sep: string, q: nat, r: Record)
    requires UniqueIds(rs) && r in rs
    requires q < |Labels(rs, mode, sep)| && Labels(rs, mode, sep)[q].id == r.id
    ensures var out := Labels(rs, mode, sep);
            if ParentOf(r) == None then out[q].text == ComponentOf(rs, mode, r)
            else exists p :: 0 <= p < q && ParentOf(r) == Some(out[p].id)
                               && out[q].text == out[p].text + sep + ComponentOf(rs, mode, r)
  {
    LevelFromShape(rs, mode, sep, None, "", [], 0);
    var out := Labels(rs, mode, sep);
    assert out == Level(rs, mode, sep, None, "", []) == LevelFrom(rs, mode, sep, None, "", [], 0);
    assert WellPlaced(rs, mode, sep, out, None, "", q, r);
    if ParentOf(r) == None {
      assert "" + ComponentOf(rs, mode, r) == ComponentOf(rs, mode, r);
    }
  }

  /** Under Index, the record at position `j` among the children of a parent
      gets the component `j + 1`. */
  lemma IndexComponent(rs: seq<Record>, parent: Option<Id>, j: nat)
    requires UniqueIds(rs) && j < |Matches(rs, parent)|
    ensures ComponentOf(rs, Index, Matches(rs, parent)[j]) == NatToString(j + 1)
  {
    var m := Matches(rs, parent)[j];
    MatchesMembers(rs, parent, m);
    MatchesUnique(rs, parent);
    PositionOf(Matches(rs, parent), j);
  }
}
