/** Following first links upward from a record, the relation that decides
    which records Child-to-Parent labels. From a record id one step leads to
    the id its first link names, past the top when its link cell is empty,
    or nowhere when the id is not in the view. */
module ParentChains {
  import opened HierarchyRecords
  import opened ChildToParent

  datatype Ancestor = Top | At(id: Id) | Lost

  function AsAncestor(parent: Option<Id>): (a: Ancestor)
    ensures a != Lost
  {
    match parent
    case None => Top
    case Some(p) => At(p)
  }

  /** One step up. */
  function Step(rs: seq<Record>, a: Ancestor): Ancestor {
    match a
    case Top => Top
    case Lost => Lost
    case At(x) => if Find(rs, x).None? then Lost else AsAncestor(ParentOf(Find(rs, x).value))
  }

  /** `k` steps up. */
  function Up(rs: seq<Record>, a: Ancestor, k: nat): Ancestor
    decreases k
  {
    if k == 0 then a else Up(rs, Step(rs, a), k - 1)
  }

  /** Following first links from `x` ends at a record with an empty link cell. */
  ghost predicate Rooted(rs: seq<Record>, x: Id) {
    exists n :: Up(rs, At(x), n) == Top
  }

  /** `x` lies on a cycle of first links. */
  ghost predicate OnCycle(rs: seq<Record>, x: Id) {
    exists k :: k >= 1 && Up(rs, At(x), k) == At(x)
  }

  lemma {:induction false} UpStep(rs: seq<Record>, a: Ancestor, k: nat)
    ensures Up(rs, a, k + 1) == Step(rs, Up(rs, a, k))
    decreases k
  {
    if k > 0 {
      UpStep(rs, Step(rs, a), k - 1);
    }
  }

  lemma {:induction false} UpAdd(rs: seq<Record>, a: Ancestor, i: nat, j: nat)
    ensures Up(rs, a, i + j) == Up(rs, Up(rs, a, i), j)
    decreases i
  {
    if i > 0 {
      UpAdd(rs, Step(rs, a), i - 1, j);
    }
  }

  lemma {:induction false} UpFromTop(rs: seq<Record>, k: nat)
    ensures Up(rs, Top, k) == Top
    decreases k
  {
    if k > 0 {
      UpFromTop(rs, k - 1);
    }
  }

  /** Once past the top, every further step stays there. */
  lemma AfterTop(rs: seq<Record>, a: Ancestor, n: nat, m: nat)
    requires Up(rs, a, n) == Top && n <= m
    ensures Up(rs, a, m) == Top
  {
    UpAdd(rs, a, n, m - n);
    UpFromTop(rs, m - n);
  }

  /** A chain that reaches the top never visits the same record twice. */
  lemma {:induction false} NoRepeat(rs: seq<Record>, a: Ancestor, n: nat, i: nat, j: nat)
    requires Up(rs, a, n) == Top && i < j
    ensures Up(rs, a, i) == Up(rs, a, j) ==> Up(rs, a, i) == Top
    decreases n - i
  {
    if Up(rs, a, i) == Up(rs, a, j) {
      if n <= i {
        AfterTop(rs, a, n, i);
      } else {
        UpStep(rs, a, i);
        UpStep(rs, a, j);
        NoRepeat(rs, a, n, i + 1, j + 1);
        AfterTop(rs, a, i + 1, j);
      }
    }
  }

  /** Following first links from `x` runs into a cycle. */
  ghost predicate ReachesCycle(rs: seq<Record>, x: Id) {
    exists j, y :: Up(rs, At(x), j) == At(y) && OnCycle(rs, y)
  }

  /** A record on a cycle of first links never reaches the top. */
  lemma CycleNeverTop(rs: seq<Record>, y: Id, k: nat, n: nat)
    requires k >= 1 && Up(rs, At(y), k) == At(y)
    ensures Up(rs, At(y), n) != Top
  {
    if Up(rs, At(y), n) == Top {
      NoRepeat(rs, At(y), n, 0, k);
    }
  }

  /** A record whose chain of first links runs into a cycle, after `j` steps,
      never reaches the top. */
  lemma CycleNeverRooted(rs: seq<Record>, x: Id, j: nat, y: Id, k: nat, n: nat)
    requires Up(rs, At(x), j) == At(y)
    requires k >= 1 && Up(rs, At(y), k) == At(y)
    ensures Up(rs, At(x), n) != Top
  {
    if Up(rs, At(x), n) == Top {
      if n <= j {
        AfterTop(rs, At(x), n, j);
      } else {
        UpAdd(rs, At(x), j, n - j);
        CycleNeverTop(rs, y, k, n - j);
      }
    }
  }

  /** Two points of a chain that reaches the top, the lower of which steps to
      where the higher one steps: the higher one is already past the top. */
  lemma StepsMeet(rs: seq<Record>, x: Id, i: nat, j: nat, n: nat)
    requires Up(rs, At(x), n) == Top && i < j
    requires Step(rs, Up(rs, At(x), i)) == Step(rs, Up(rs, At(x), j))
    ensures Up(rs, At(x), j) == Top
  {
    UpStep(rs, At(x), i);
    UpStep(rs, At(x), j);
    NoRepeat(rs, At(x), n, i + 1, j + 1);
    AfterTop(rs, At(x), i + 1, j);
  }

  /** Two chains from one record that reach two records with the same parent
      reach the same record, at the same height: siblings' subtrees are disjoint. */
  lemma SameParentSameRecord(rs: seq<Record>, x: Id, a: Id, b: Id, ka: nat, kb: nat, n: nat)
    requires Up(rs, At(x), ka) == At(a) && Up(rs, At(x), kb) == At(b)
    requires Step(rs, At(a)) == Step(rs, At(b))
    requires Up(rs, At(x), n) == Top
    ensures a == b && ka == kb
  {
    if ka < kb {
      StepsMeet(rs, x, ka, kb, n);
      assert false;
    } else if kb < ka {
      StepsMeet(rs, x, kb, ka, n);
      assert false;
    }
  }

  /** One step up from a record of the view is its parent. */
  lemma StepOfRecord(rs: seq<Record>, r: Record)
    requires UniqueIds(rs) && r in rs
    ensures Step(rs, At(r.id)) == AsAncestor(ParentOf(r))
  {
    FindUnique(rs, r);
  }

  /** The ancestor chain of the recursion leads to the top in as many steps as it is long. */
  lemma {:induction false} ChainReachesTop(rs: seq<Record>, path: seq<Id>)
    requires ValidChain(rs, path)
    ensures Up(rs, AsAncestor(LastOf(path)), |path|) == Top
    decreases |path|
  {
    var n := |path|;
    if n > 0 {
      var prefix := path[..n - 1];
      assert ValidChain(rs, prefix) by {
        forall i | 0 <= i < |prefix|
          ensures NamesParent(rs, prefix[i], ChainParent(prefix, i))
        {
          assert prefix[i] == path[i];
          assert i > 0 ==> prefix[i - 1] == path[i - 1];
          assert ChainParent(prefix, i) == ChainParent(path, i);
        }
      }
      ChainReachesTop(rs, prefix);
      assert NamesParent(rs, path[n - 1], ChainParent(path, n - 1));
      assert n > 1 ==> path[n - 2] == prefix[n - 2];
      assert ChainParent(path, n - 1) == LastOf(prefix);
    }
  }
}
