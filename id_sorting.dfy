/** `sortIds` of the Get Table IDs script and the sort that uses it: entry
    lines are ordered by the text before their first `:`. */
module IdSorting {

  /** `a < b` on strings: lexicographic, a proper prefix coming first. */
  predicate StrLess(a: string, b: string)
    decreases |a|
  {
    if a == [] then b != []
    else if b == [] then false
    else if a[0] != b[0] then a[0] < b[0]
    else StrLess(a[1..], b[1..])
  }

  lemma {:induction false} StrLessIrreflexive(a: string)
    ensures !StrLess(a, a)
    decreases |a|
  {
    if a != [] {
      StrLessIrreflexive(a[1..]);
    }
  }

  /** Exactly one of `a < b`, `a == b`, `b < a` holds. */
  lemma {:induction false} StrLessTrichotomy(a: string, b: string)
    ensures StrLess(a, b) || a == b || StrLess(b, a)
    ensures !(StrLess(a, b) && StrLess(b, a))
    decreases |a|
  {
    if a != [] && b != [] && a[0] == b[0] {
      StrLessTrichotomy(a[1..], b[1..]);
      if a[1..] == b[1..] {
        assert a == [a[0]] + a[1..] && b == [b[0]] + b[1..];
      }
    }
  }

  lemma {:induction false} StrLessTransitive(a: string, b: string, c: string)
    requires StrLess(a, b) && StrLess(b, c)
    ensures StrLess(a, c)
    decreases |a|
  {
    if a != [] && b != [] && c != [] && a[0] == b[0] && b[0] == c[0] {
      StrLessTransitive(a[1..], b[1..], c[1..]);
    }
  }

  /** `line.split(":")[0]`: the text before the first `:`, or all of it. */
  function SortKey(line: string): (key: string)
    ensures |key| <= |line| && key == line[..|key|] && ':' !in key
    ensures |key| < |line| ==> line[|key|] == ':'
  {
    if line == [] then []
    else if line[0] == ':' then []
    else
      var rest := SortKey(line[1..]);
      assert [line[0]] + rest == line[..1 + |rest|];
      [line[0]] + rest
  }

  /** `sortIds(a, b)`. */
  function Compare(a: string, b: string): (r: int)
    ensures r == -1 || r == 0 || r == 1
  {
    var aStart := SortKey(a);
    var bStart := SortKey(b);
    if StrLess(aStart, bStart) then -1
    else if StrLess(bStart, aStart) then 1
    else 0
  }

  /** The comparator orders lines by their keys and nothing else: it returns
      -1, 0 or 1 as the first key is smaller than, equal to or greater than
      the second. */
  lemma CompareMeaning(a: string, b: string)
    ensures Compare(a, b) == 0 <==> SortKey(a) == SortKey(b)
    ensures Compare(a, b) < 0 <==> StrLess(SortKey(a), SortKey(b))
    ensures Compare(a, b) > 0 <==> StrLess(SortKey(b), SortKey(a))
  {
    StrLessTrichotomy(SortKey(a), SortKey(b));
    StrLessIrreflexive(SortKey(a));
  }

  /** `sortIds(a, a) == 0` and `sortIds(a, b) == -sortIds(b, a)`. */
  lemma CompareSymmetry(a: string, b: string)
    ensures Compare(a, a) == 0
    ensures Compare(a, b) == -Compare(b, a)
  {
    CompareMeaning(a, b);
    CompareMeaning(b, a);
    CompareMeaning(a, a);
  }

  lemma CompareTransitive(a: string, b: string, c: string)
    requires Compare(a, b) <= 0 && Compare(b, c) <= 0
    ensures Compare(a, c) <= 0
  {
    CompareMeaning(a, b);
    CompareMeaning(b, c);
    CompareMeaning(a, c);
    if StrLess(SortKey(c), SortKey(a)) {
      if SortKey(a) == SortKey(b) {
        StrLessTrichotomy(SortKey(b), SortKey(c));
      } else {
        StrLessTransitive(SortKey(c), SortKey(a), SortKey(b));
        StrLessTrichotomy(SortKey(b), SortKey(c));
      }
    }
  }

  /** No line's key is greater than a later line's. */
  predicate Sorted(lines: seq<string>) {
    forall i, j :: 0 <= i < j < |lines| ==> Compare(lines[i], lines[j]) <= 0
  }

  /** The lines with key `key`, in order. */
  function WithKey(lines: seq<string>, key: string): seq<string>
    decreases |lines|
  {
    if lines == [] then []
    else
      var last := lines[|lines| - 1];
      WithKey(lines[..|lines| - 1], key) + (if SortKey(last) == key then [last] else [])
  }

  /** Puts `x` after every line of the sorted `sorted` whose key is not
      greater than its own: the step of a stable insertion sort. */
  function Insert(sorted: seq<string>, x: string): (r: seq<string>)
    ensures multiset(r) == multiset(sorted) + multiset{x}
    decreases |sorted|
  {
    if sorted == [] then [x]
    else
      var last := sorted[|sorted| - 1];
      if Compare(last, x) <= 0 then sorted + [x]
      else
        var front := sorted[..|sorted| - 1];
        assert sorted == front + [last];
        Insert(front, x) + [last]
  }

  /** `lines.sort(sortIds)`. `Array.prototype.sort` is stable, and the result
      of a stable sort under a given comparator does not depend on the
      algorithm; insertion sort is used here to define it. */
  function SortLines(lines: seq<string>): (sorted: seq<string>)
    decreases |lines|
  {
    if lines == [] then []
    else Insert(SortLines(lines[..|lines| - 1]), lines[|lines| - 1])
  }

  lemma {:induction false} WithKeyConcat(a: seq<string>, b: seq<string>, key: string)
    ensures WithKey(a + b, key) == WithKey(a, key) + WithKey(b, key)
    decreases |b|
  {
    if b == [] {
      assert a + b == a;
    } else {
      var front := b[..|b| - 1];
      assert (a + b)[..|a + b| - 1] == a + front;
      WithKeyConcat(a, front, key);
    }
  }

  /** Appending a line no smaller than the last keeps a sequence sorted. */
  lemma AppendSorted(sorted: seq<string>, x: string)
    requires Sorted(sorted) && sorted != []
    requires Compare(sorted[|sorted| - 1], x) <= 0
    ensures Sorted(sorted + [x])
  {
    var r := sorted + [x];
    forall i, j | 0 <= i < j < |r|
      ensures Compare(r[i], r[j]) <= 0
    {
      if j == |sorted| && i < |sorted| - 1 {
        CompareTransitive(sorted[i], sorted[|sorted| - 1], x);
      }
    }
  }

  /** Appending a line no smaller than every line of a sorted sequence keeps
      it sorted. */
  lemma AppendGreatest(u: seq<string>, y: string)
    requires Sorted(u)
    requires forall z :: z in u ==> Compare(z, y) <= 0
    ensures Sorted(u + [y])
  {
    var r := u + [y];
    forall i, j | 0 <= i < j < |r|
      ensures Compare(r[i], r[j]) <= 0
    {
      if j == |u| {
        assert r[i] == u[i] && u[i] in u;
      }
    }
  }

  lemma {:induction false} InsertSorted(sorted: seq<string>, x: string)
    requires Sorted(sorted)
    ensures Sorted(Insert(sorted, x))
    decreases |sorted|
  {
    if sorted != [] {
      var last := sorted[|sorted| - 1];
      var front := sorted[..|sorted| - 1];
      if Compare(last, x) <= 0 {
        AppendSorted(sorted, x);
      } else {
        var u := Insert(front, x);
        assert Sorted(front);
        InsertSorted(front, x);
        CompareSymmetry(last, x);
        forall z | z in u
          ensures Compare(z, last) <= 0
        {
          assert z in multiset(u);
          if z != x {
            assert z in multiset(front);
            var m :| 0 <= m < |front| && front[m] == z;
            assert sorted[m] == z;
          }
        }
        AppendGreatest(u, last);
      }
    }
  }

  /** Inserting keeps the lines of each key in the order of `sorted + [x]`. */
  lemma {:induction false} InsertStable(sorted: seq<string>, x: string, key: string)
    requires Sorted(sorted)
    ensures WithKey(Insert(sorted, x), key) == WithKey(sorted + [x], key)
    decreases |sorted|
  {
    if sorted != [] {
      var last := sorted[|sorted| - 1];
      var front := sorted[..|sorted| - 1];
      if Compare(last, x) > 0 {
        assert sorted == front + [last];
        InsertStable(front, x, key);
        CompareMeaning(last, x);
        WithKeyConcat(Insert(front, x), [last], key);
        WithKeyConcat(front, [x], key);
        WithKeyConcat(front, [last], key);
        WithKeyConcat(front + [last], [x], key);
      }
    }
  }

  /** The sort returns the same lines, ordered by key. */
  lemma {:induction false} SortLinesSorted(lines: seq<string>)
    ensures Sorted(SortLines(lines))
    ensures multiset(SortLines(lines)) == multiset(lines)
    decreases |lines|
  {
    if lines != [] {
      var front := lines[..|lines| - 1];
      SortLinesSorted(front);
      InsertSorted(SortLines(front), lines[|lines| - 1]);
      assert lines == front + [lines[|lines| - 1]];
    }
  }

  /** The sort is stable: lines with equal keys keep their original order. */
  lemma {:induction false} SortLinesStable(lines: seq<string>, key: string)
    ensures WithKey(SortLines(lines), key) == WithKey(lines, key)
    decreases |lines|
  {
    if lines != [] {
      var front := lines[..|lines| - 1];
      var x := lines[|lines| - 1];
      SortLinesStable(front, key);
      SortLinesSorted(front);
      InsertStable(SortLines(front), x, key);
      WithKeyConcat(SortLines(front), [x], key);
    }
  }

  lemma {:induction false} WithKeyMembers(lines: seq<string>, key: string, x: string)
    ensures x in WithKey(lines, key) <==> x in lines && SortKey(x) == key
    decreases |lines|
  {
    if lines != [] {
      var front := lines[..|lines| - 1];
      WithKeyMembers(front, key, x);
      assert lines == front + [lines[|lines| - 1]];
    }
  }

  /** The last line of a sorted sequence has the greatest key: a line of any
      sorted sequence with the same lines per key compares below it. */
  lemma LastIsGreatest(a: seq<string>, b: seq<string>, y: string)
    requires Sorted(a) && a != []
    requires forall key :: WithKey(a, key) == WithKey(b, key)
    requires y in b
    ensures Compare(y, a[|a| - 1]) <= 0
  {
    WithKeyMembers(b, SortKey(y), y);
    assert y in WithKey(a, SortKey(y));
    WithKeyMembers(a, SortKey(y), y);
    var m :| 0 <= m < |a| && a[m] == y;
    if m == |a| - 1 {
      CompareSymmetry(y, y);
    }
  }

  /** Two sorted sequences with the same lines per key end with the same line. */
  lemma SameLast(a: seq<string>, b: seq<string>)
    requires Sorted(a) && Sorted(b) && a != [] && b != []
    requires forall key :: WithKey(a, key) == WithKey(b, key)
    ensures a[|a| - 1] == b[|b| - 1]
  {
    var la, lb := a[|a| - 1], b[|b| - 1];
    LastIsGreatest(a, b, lb);
    LastIsGreatest(b, a, la);
    CompareMeaning(la, lb);
    CompareSymmetry(la, lb);
    var k := SortKey(la);
    assert WithKey(a, k) == WithKey(a[..|a| - 1], k) + [la];
    assert WithKey(b, k) == WithKey(b[..|b| - 1], k) + [lb];
    assert WithKey(a, k)[|WithKey(a, k)| - 1] == la;
  }

  /** Dropping the same last line from two sequences with the same lines per
      key leaves two sequences with the same lines per key. */
  lemma SameFronts(a: seq<string>, b: seq<string>, fa: seq<string>, fb: seq<string>)
    requires a != [] && b != [] && a[|a| - 1] == b[|b| - 1]
    requires fa == a[..|a| - 1] && fb == b[..|b| - 1]
    requires forall key :: WithKey(a, key) == WithKey(b, key)
    ensures forall key :: WithKey(fa, key) == WithKey(fb, key)
  {
    var last := a[|a| - 1];
    forall key
      ensures WithKey(fa, key) == WithKey(fb, key)
    {
      var wa, wb := WithKey(a, key), WithKey(b, key);
      assert wa == wb;
      if SortKey(last) == key {
        assert WithKey(fa, key) == wa[..|wa| - 1];
        assert WithKey(fb, key) == wb[..|wb| - 1];
      } else {
        assert WithKey(fa, key) == wa;
        assert WithKey(fb, key) == wb;
      }
    }
  }

  /** A sorted sequence is determined by its lines of each key: two sorted
      sequences that agree on every `WithKey` are equal. */
  lemma {:induction false} SortedUnique(a: seq<string>, b: seq<string>)
    requires Sorted(a) && Sorted(b)
    requires forall key :: WithKey(a, key) == WithKey(b, key)
    ensures a == b
    decreases |a| + |b|
  {
    if a == [] || b == [] {
      if a != [] {
        WithKeyMembers(a, SortKey(a[0]), a[0]);
      } else if b != [] {
        WithKeyMembers(b, SortKey(b[0]), b[0]);
      }
    } else {
      var fa, fb := a[..|a| - 1], b[..|b| - 1];
      SameLast(a, b);
      SameFronts(a, b, fa, fb);
      assert Sorted(fa) && Sorted(fb);
      SortedUnique(fa, fb);
      assert a == fa + [a[|a| - 1]] && b == fb + [b[|b| - 1]];
    }
  }

  /** Any sorted arrangement that keeps the order of each key's lines is the
      one `SortLines` returns. */
  lemma SortLinesUnique(lines: seq<string>, out: seq<string>)
    requires Sorted(out)
    requires forall key :: WithKey(out, key) == WithKey(lines, key)
    ensures out == SortLines(lines)
  {
    SortLinesSorted(lines);
    forall key
      ensures WithKey(out, key) == WithKey(SortLines(lines), key)
    {
      SortLinesStable(lines, key);
    }
    SortedUnique(out, SortLines(lines));
  }
}
