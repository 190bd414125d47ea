/** The Get Table IDs script: for the active table it converts the table,
    field and view names with `convertName`, formats one entry line per field
    and per view, and sorts each list of lines with `sortIds`. */
module TableIds {
  import opened Text
  import opened NameConversion
  import opened IdSorting

  datatype Option<T> = None | Some(value: T)

  /** The `mode` setting: output for a script or for a custom extension. */
  datatype Mode = Script | CustomExtension

  /** A field or a view: its name and its id. */
  datatype Item = Item(name: string, id: string)

  datatype Table = Table(name: string, id: string, fields: seq<Item>, views: seq<Item>)

  datatype Settings = Settings(includeFields: bool, includeViews: bool, mode: Mode, indentSize: nat)

  /** What the script prints about a table: its converted name and the sorted
      field and view entry lines. */
  datatype Listing = Listing(tableName: string, fieldLines: seq<string>, viewLines: seq<string>)

  /** `s.repeat(n)`. */
  function Repeat(s: string, n: nat): string {
    if n == 0 then "" else s + Repeat(s, n - 1)
  }

  /** `indent(count)`: the indent unit of `size` spaces, `count` times. */
  function Indent(size: nat, count: nat): (spaces: string) {
    Repeat(Repeat(" ", size), count)
  }

  lemma {:induction false} RepeatSpaces(s: string, n: nat)
    requires forall i :: 0 <= i < |s| ==> s[i] == ' '
    ensures |Repeat(s, n)| == n * |s|
    ensures forall i :: 0 <= i < |Repeat(s, n)| ==> Repeat(s, n)[i] == ' '
  {
    if n > 0 {
      RepeatSpaces(s, n - 1);
      assert |Repeat(s, n)| == |s| + (n - 1) * |s|;
    }
  }

  /** `indent(count)` is exactly `count * size` spaces. */
  lemma IndentSpaces(size: nat, count: nat)
    ensures |Indent(size, count)| == count * size
    ensures forall i :: 0 <= i < |Indent(size, count)| ==> Indent(size, count)[i] == ' '
  {
    RepeatSpaces(" ", size);
    RepeatSpaces(Repeat(" ", size), count);
  }

  /** The text a field id is wrapped in, before and after. */
  function FieldPre(mode: Mode, tableName: string): string {
    if mode == Script then "" else "TB." + tableName + ".getFieldIfExists("
  }

  function FieldPost(mode: Mode): string {
    if mode == Script then "" else ")"
  }

  /** The entry line for a field whose converted name is `name`. */
  function FieldLine(mode: Mode, tableName: string, name: string, id: string): (line: string) {
    name + ": " + FieldPre(mode, tableName) + "\"" + id + "\"" + FieldPost(mode) + ","
  }

  /** The entry line for a view whose converted name is `name`. */
  function ViewLine(name: string, id: string): (line: string) {
    name + ": \"" + id + "\","
  }

  lemma {:induction false} SortKeyColon(name: string, rest: string)
    ensures SortKey(name + ":" + rest) == SortKey(name)
    decreases |name|
  {
    if name == [] {
    } else {
      assert (name + ":" + rest)[1..] == name[1..] + ":" + rest;
      SortKeyColon(name[1..], rest);
    }
  }

  /** An entry line sorts by its converted name, up to any `:` in the name. */
  lemma FieldLineKey(mode: Mode, tableName: string, name: string, id: string)
    ensures SortKey(FieldLine(mode, tableName, name, id)) == SortKey(name)
  {
    var rest := " " + FieldPre(mode, tableName) + "\"" + id + "\"" + FieldPost(mode) + ",";
    assert FieldLine(mode, tableName, name, id) == name + ":" + rest;
    SortKeyColon(name, rest);
  }

  lemma ViewLineKey(name: string, id: string)
    ensures SortKey(ViewLine(name, id)) == SortKey(name)
  {
    var rest := " \"" + id + "\",";
    assert ViewLine(name, id) == name + ":" + rest;
    SortKeyColon(name, rest);
  }

  /** A name without `:` is its own sort key. */
  lemma NoColonKey(name: string)
    requires ':' !in name
    ensures SortKey(name) == name
  {
    assert SortKey(name) == name[..|SortKey(name)|];
  }

  /** In Script mode a field line is formatted like a view line. */
  lemma ScriptFieldLine(tableName: string, name: string, id: string)
    ensures FieldLine(Script, tableName, name, id) == ViewLine(name, id)
  {
    assert FieldPre(Script, tableName) == "" && FieldPost(Script) == "";
    assert FieldLine(Script, tableName, name, id) == name + ": " + "\"" + id + "\"" + ",";
  }

  /** A name in which no ASCII letter or digit occurs: it gets a fallback. */
  predicate NoAlnum(name: string) {
    forall i :: 0 <= i < |name| ==> !IsAlnum(name[i])
  }

  /** How many of `names` get a fallback. */
  function FallbackCount(names: seq<string>): nat {
    if names == [] then 0
    else FallbackCount(names[..|names| - 1]) + (if NoAlnum(names[|names| - 1]) then 1 else 0)
  }

  /** A name conversion that threads a counter, as `convertName` does with
      `unknownCount`. */
  type Conversion = (string, nat) -> (string, nat)

  /** The counter moves on by one exactly for a name that gets a fallback. */
  ghost predicate Counts(conv: Conversion) {
    forall name: string, count: nat :: conv(name, count).1 == count + (if NoAlnum(name) then 1 else 0)
  }

  /** A name without letters or digits becomes its fallback. */
  ghost predicate FallsBack(conv: Conversion) {
    forall name: string, count: nat :: NoAlnum(name) ==> conv(name, count).0 == Fallback(name, count)
  }

  /** Any other name becomes letters and digits only. */
  ghost predicate CamelsAlnum(conv: Conversion) {
    forall name: string, count: nat, k :: !NoAlnum(name) && 0 <= k < |conv(name, count).0| ==> IsAlnum(conv(name, count).0[k])
  }

  /** `conv` applied to each of `names` in order, the counter starting at
      `count`: the converted names and the counter afterwards. */
  function ConvertAll(conv: Conversion, names: seq<string>, count: nat): (r: (seq<string>, nat))
    ensures |r.0| == |names|
  {
    if names == [] then ([], count)
    else
      var (front, c) := ConvertAll(conv, names[..|names| - 1], count);
      var (name, next) := conv(names[|names| - 1], c);
      (front + [name], next)
  }

  function Names(items: seq<Item>): (names: seq<string>)
    ensures |names| == |items|
  {
    seq(|items|, k requires 0 <= k < |items| => items[k].name)
  }

  /** Which entry lines a list produces: field lines for a table in a mode,
      or view lines. */
  datatype Format = Fields(mode: Mode, tableName: string) | Views

  function Line(format: Format, name: string, id: string): string {
    match format
    case Fields(mode, tableName) => FieldLine(mode, tableName, name, id)
    case Views => ViewLine(name, id)
  }

  /** `items.map(...)` building one entry line per item from its converted name. */
  function Lines(format: Format, names: seq<string>, items: seq<Item>): (lines: seq<string>)
    requires |names| == |items|
    ensures |lines| == |items|
  {
    seq(|items|, k requires 0 <= k < |items| => Line(format, names[k], items[k].id))
  }

  lemma NamesSnoc(items: seq<Item>, i: nat)
    requires i < |items|
    ensures Names(items[..i + 1]) == Names(items[..i]) + [items[i].name]
  {
  }

  lemma LinesSnoc(format: Format, names: seq<string>, items: seq<Item>, i: nat, name: string)
    requires i < |items| && |names| == i
    ensures Lines(format, names + [name], items[..i + 1]) == Lines(format, names, items[..i]) + [Line(format, name, items[i].id)]
  {
  }

  /** The fields and the views the settings include. */
  function IncludedFields(settings: Settings, table: Table): seq<Item> {
    if settings.includeFields then table.fields else []
  }

  function IncludedViews(settings: Settings, table: Table): seq<Item> {
    if settings.includeViews then table.views else []
  }

  /** The entry lines before sorting, with the counter starting at `count`:
      the table name is converted first, then the fields, then the views. */
  function Unsorted(settings: Settings, table: Table, count: nat): (r: (Listing, nat)) {
    var (tableName, c1) := Converted(table.name, count);
    var fields := IncludedFields(settings, table);
    var views := IncludedViews(settings, table);
    var (fieldNames, c2) := ConvertAll(Converted, Names(fields), c1);
    var (viewNames, c3) := ConvertAll(Converted, Names(views), c2);
    (Listing(tableName, Lines(Fields(settings.mode, tableName), fieldNames, fields), Lines(Views, viewNames, views)), c3)
  }

  /** What the script lists for `table`: the same, each list sorted with
      `sortIds`. */
  function Listed(settings: Settings, table: Table, count: nat): (r: (Listing, nat)) {
    var (u, next) := Unsorted(settings, table, count);
    (Listing(u.tableName, SortLines(u.fieldLines), SortLines(u.viewLines)), next)
  }

  /** Each printed list holds the lines built from the included items, one
      per item, ordered by key, lines of equal key in item order. */
  lemma ListedSorted(settings: Settings, table: Table, count: nat)
    ensures var (l, _) := Listed(settings, table, count);
            var (u, _) := Unsorted(settings, table, count);
            && l.tableName == u.tableName
            && |l.fieldLines| == |IncludedFields(settings, table)|
            && |l.viewLines| == |IncludedViews(settings, table)|
            && Sorted(l.fieldLines) && multiset(l.fieldLines) == multiset(u.fieldLines)
            && Sorted(l.viewLines) && multiset(l.viewLines) == multiset(u.viewLines)
            && (forall key :: WithKey(l.fieldLines, key) == WithKey(u.fieldLines, key))
            && (forall key :: WithKey(l.viewLines, key) == WithKey(u.viewLines, key))
  {
    var u := Unsorted(settings, table, count).0;
    SortLinesSorted(u.fieldLines);
    SortLinesSorted(u.viewLines);
    assert |SortLines(u.fieldLines)| == |u.fieldLines| by {
      assert |multiset(SortLines(u.fieldLines))| == |multiset(u.fieldLines)|;
    }
    assert |SortLines(u.viewLines)| == |u.viewLines| by {
      assert |multiset(SortLines(u.viewLines))| == |multiset(u.viewLines)|;
    }
    forall key
      ensures WithKey(SortLines(u.fieldLines), key) == WithKey(u.fieldLines, key)
      ensures WithKey(SortLines(u.viewLines), key) == WithKey(u.viewLines, key)
    {
      SortLinesStable(u.fieldLines, key);
      SortLinesStable(u.viewLines, key);
    }
  }

  lemma {:induction false} FallbackCountConcat(a: seq<string>, b: seq<string>)
    ensures FallbackCount(a + b) == FallbackCount(a) + FallbackCount(b)
    decreases |b|
  {
    if b == [] {
      assert a + b == a;
    } else {
      assert (a + b)[..|a + b| - 1] == a + b[..|b| - 1];
      FallbackCountConcat(a, b[..|b| - 1]);
    }
  }

  /** Over a run the counter moves on by one for each converted name, table,
      field or view, that gets a fallback. */
  lemma ListedCounter(settings: Settings, table: Table, count: nat)
    ensures Listed(settings, table, count).1
            == count + FallbackCount([table.name] + Names(IncludedFields(settings, table)) + Names(IncludedViews(settings, table)))
  {
    ConvertedLaws();
    var fields := Names(IncludedFields(settings, table));
    var views := Names(IncludedViews(settings, table));
    var c1 := Converted(table.name, count).1;
    ConvertAllCounter(Converted, fields, c1);
    ConvertAllCounter(Converted, views, ConvertAll(Converted, fields, c1).1);
    FallbackCountConcat([table.name] + fields, views);
    FallbackCountConcat([table.name], fields);
    assert FallbackCount([table.name]) == (if NoAlnum(table.name) then 1 else 0) by {
      assert [table.name][..0] == [];
    }
  }

  /** `convertName` obeys the three laws the lemmas below rely on. */
  lemma ConvertedLaws()
    ensures Counts(Converted) && FallsBack(Converted) && CamelsAlnum(Converted)
  {
    forall name: string, count: nat
      ensures Converted(name, count).1 == count + (if NoAlnum(name) then 1 else 0)
      ensures NoAlnum(name) ==> Converted(name, count).0 == Fallback(name, count)
      ensures !NoAlnum(name) ==> forall k :: 0 <= k < |Converted(name, count).0| ==> IsAlnum(Converted(name, count).0[k])
    {
      ConvertedSpec(name, count);
      if !NoAlnum(name) {
        var i :| 0 <= i < |name| && IsAlnum(name[i]);
      }
    }
  }

  lemma ConvertAllSnoc(conv: Conversion, names: seq<string>, x: string, count: nat)
    ensures ConvertAll(conv, names + [x], count)
            == (ConvertAll(conv, names, count).0 + [conv(x, ConvertAll(conv, names, count).1).0],
                conv(x, ConvertAll(conv, names, count).1).1)
  {
    assert (names + [x])[..|names|] == names;
  }

  /** The counter goes up by one for each name that gets a fallback. */
  lemma {:induction false} ConvertAllCounter(conv: Conversion, names: seq<string>, count: nat)
    requires Counts(conv)
    ensures ConvertAll(conv, names, count).1 == count + FallbackCount(names)
    decreases |names|
  {
    if names != [] {
      ConvertAllCounter(conv, names[..|names| - 1], count);
    }
  }

  /** The name at position `i` is converted with the counter at `count` plus
      the fallbacks before it. */
  lemma {:induction false} ConvertAllAt(conv: Conversion, names: seq<string>, count: nat, i: nat)
    requires Counts(conv) && i < |names|
    ensures ConvertAll(conv, names, count).0[i] == conv(names[i], count + FallbackCount(names[..i])).0
    decreases |names|
  {
    var front := names[..|names| - 1];
    if i == |names| - 1 {
      ConvertAllCounter(conv, front, count);
      assert front == names[..i];
    } else {
      ConvertAllAt(conv, front, count, i);
      assert front[..i] == names[..i];
    }
  }

  lemma {:induction false} FallbackCountMonotone(names: seq<string>, i: nat, j: nat)
    requires i <= j <= |names|
    ensures FallbackCount(names[..i]) <= FallbackCount(names[..j])
    ensures i < j && NoAlnum(names[i]) ==> FallbackCount(names[..i]) < FallbackCount(names[..j])
    decreases j - i
  {
    if i < j {
      FallbackCountMonotone(names, i, j - 1);
      assert names[..j][..j - 1] == names[..j - 1];
    }
  }

  /** A fallback name holds a `_`, which no converted camel name does. */
  lemma FallbackNotAlnum(name: string, k: nat)
    ensures exists i :: 0 <= i < |Fallback(name, k)| && !IsAlnum(Fallback(name, k)[i])
  {
    var f := Fallback(name, k);
    var at := 7 + |NatToString(k)|;
    assert f == ("unknown" + NatToString(k)) + "_" + name;
    assert f[at] == '_';
  }

  lemma FallbacksDiffer(conv: Conversion, names: seq<string>, count: nat, i: nat, j: nat)
    requires Counts(conv) && FallsBack(conv)
    requires i < j < |names|
    requires NoAlnum(names[i]) && NoAlnum(names[j])
    ensures ConvertAll(conv, names, count).0[i] != ConvertAll(conv, names, count).0[j]
  {
    var ci := count + FallbackCount(names[..i]);
    var cj := count + FallbackCount(names[..j]);
    ConvertAllAt(conv, names, count, i);
    ConvertAllAt(conv, names, count, j);
    FallbackCountMonotone(names, i, j);
    FallbackDistinct(names[i], names[j], ci, cj);
  }

  lemma FallbackNotCamel(conv: Conversion, names: seq<string>, count: nat, i: nat, j: nat)
    requires Counts(conv) && FallsBack(conv) && CamelsAlnum(conv)
    requires i < |names| && j < |names|
    requires NoAlnum(names[i]) && !NoAlnum(names[j])
    ensures ConvertAll(conv, names, count).0[i] != ConvertAll(conv, names, count).0[j]
  {
    var ci := count + FallbackCount(names[..i]);
    var cj := count + FallbackCount(names[..j]);
    ConvertAllAt(conv, names, count, i);
    ConvertAllAt(conv, names, count, j);
    FallbackNotAlnum(names[i], ci);
  }

  /** Within one list, a name that gets a fallback never collides with the
      converted name of any other entry. */
  lemma ConvertAllNoClash(names: seq<string>, count: nat, i: nat, j: nat)
    requires i < |names| && j < |names| && i != j
    requires NoAlnum(names[i])
    ensures ConvertAll(Converted, names, count).0[i] != ConvertAll(Converted, names, count).0[j]
  {
    ConvertedLaws();
    if !NoAlnum(names[j]) {
      FallbackNotCamel(Converted, names, count, i, j);
    } else if i < j {
      FallbacksDiffer(Converted, names, count, i, j);
    } else {
      FallbacksDiffer(Converted, names, count, j, i);
    }
  }

  lemma AppendAssoc(a: string, b: string, c: string)
    ensures (a + b) + c == a + (b + c)
  {
  }

  /** The script's state: its settings and the `unknownCount` counter that
      `convertName` advances. */
  class Exporter {
    const settings: Settings
    var unknownCount: nat

    constructor(settings: Settings)
      ensures this.settings == settings && unknownCount == 1
    {
      this.settings := settings;
      unknownCount := 1;
    }

    /** `convertName`: the `forEach` appends each non-empty part, lowered if it
        is the first and with its first character upper-cased otherwise; an
        empty result is replaced by the fallback and the counter moves on. */
    method ConvertName(name: string) returns (newName: string)
      modifies this
      ensures (newName, unknownCount) == Converted(name, old(unknownCount))
    {
      newName := "";
      var nameParts := Parts(name);
      for index := 0 to |nameParts|
        invariant newName + CamelFrom(nameParts, index) == CamelFrom(nameParts, 0)
        invariant unknownCount == old(unknownCount)
      {
        ghost var before := newName;
        var part := nameParts[index];
        if |part| > 0 {
          if index == 0 {
            newName := newName + Lower(part);
          } else {
            newName := newName + ReplaceFirst(part, part[0], [UpperChar(part[0])]);
          }
        }
        assert newName == before + Word(part, index) by {
          if |part| == 0 {
            assert before + [] == before;
          }
        }
        AppendAssoc(before, Word(part, index), CamelFrom(nameParts, index + 1));
      }
      assert newName == CamelFrom(nameParts, 0) by {
        assert newName + "" == newName;
      }
      if newName == "" {
        newName := Fallback(name, unknownCount);
        unknownCount := unknownCount + 1;
      }
    }

    /** The `map` over the fields or the views: converts each name in order
        and formats its entry line. */
    method Entries(items: seq<Item>, format: Format) returns (lines: seq<string>)
      modifies this
      ensures var (names, next) := ConvertAll(Converted, Names(items), old(unknownCount));
              lines == Lines(format, names, items) && unknownCount == next
    {
      lines := [];
      ghost var names: seq<string> := [];
      for i := 0 to |items|
        invariant (names, unknownCount) == ConvertAll(Converted, Names(items[..i]), old(unknownCount))
        invariant |names| == i && lines == Lines(format, names, items[..i])
      {
        NamesSnoc(items, i);
        ConvertAllSnoc(Converted, Names(items[..i]), items[i].name, old(unknownCount));
        var name := ConvertName(items[i].name);
        LinesSnoc(format, names, items, i, name);
        lines := lines + [Line(format, name, items[i].id)];
        names := names + [name];
      }
      assert items[..|items|] == items;
    }

    /** `main`: nothing without an active table; otherwise the converted
        table name and the entry lines of the fields and the views the
        settings include, each list sorted with `sortIds`. */
    method Run(table: Option<Table>) returns (listing: Option<Listing>)
      modifies this
      ensures table.None? ==> listing.None? && unknownCount == old(unknownCount)
      ensures table.Some? ==>
                listing == Some(Listed(settings, table.value, old(unknownCount)).0)
                && unknownCount == Listed(settings, table.value, old(unknownCount)).1
    {
      if table.None? {
        return None;
      }
      var t := table.value;
      var newTableName := ConvertName(t.name);
      var fieldIds := [];
      if settings.includeFields {
        fieldIds := Entries(t.fields, Fields(settings.mode, newTableName));
      }
      var viewIds := [];
      if settings.includeViews {
        viewIds := Entries(t.views, Views);
      }
      if |fieldIds| > 0 {
        fieldIds := SortLines(fieldIds);
      }
      if |viewIds| > 0 {
        viewIds := SortLines(viewIds);
      }
      listing := Some(Listing(newTableName, fieldIds, viewIds));
    }
  }
}
