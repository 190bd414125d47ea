# Airtable scripting-extension scripts, modelled in Dafny

This project models the logic of three Airtable scripting-extension scripts
and proves what their output is.

- **Recursive hierarchy labels** (`recursiveHierarchyLabels.js`). The script
  labels every record of a view with its place in a hierarchy, such as
  `1.2.3` or `Fruit > Apple > Gala`. The hierarchy is given by a linked-record
  field.
  - **Child-to-Parent:** each record links to its parent. The script
    recurses from the records that have no parent.
  - **Parent-to-Child:** each record links to its children. The script
    recurses from the root records. A root is a record that no record links
    to.
  - Every label is pushed onto a shared `updates` list. The list is then
    drained to the store in batches of 50.
- **Get table IDs** (`getTableIds.js`). The script turns the active table's
  name, field names and view names into camelCase identifiers. A name with
  no ASCII letter or digit gets an `unknownN_` fallback from a running
  counter. The script builds one `name: "id",` line per field and per view
  and sorts each list by the text before the first `:`.
- **Reverse attachment order** (`reverseAttachmentOrder.js`). The script
  keeps the records whose attachment cell holds more than one file. It
  writes each such cell back reversed, with each file reduced to its
  filename and URL, in batches of 50.

The code is organised as follows:

- **Records.** A record is a value: an id, the ids in its link cell and its
  label text (`HierarchyRecords.Record`, `AttachmentOrder.Record`).
- **Specification functions.** What each traversal pushes is a function:
  - `ChildToParent.Labels` for the Child-to-Parent traversal.
  - `ParentToChild.Labels` for the Parent-to-Child traversal. It returns
    `None` where the script throws: a linked id that is not in the view,
    or a link cycle, which makes the recursion endless.
- **Mutable state.** The script state that changes is a class whose methods
  mirror the source functions and are proved against those specification
  functions:
  - `HierarchyScript.Script` holds the `updates` list and the log of
    batched writes.
  - `TableIds.Exporter` holds `unknownCount`.
- **Batching.** The 50-record drain loop of both writing scripts is proved
  to send every pending update exactly once, in order
  (`Batching.ChunksFlatten`).

Record ids are unique within a view, because Airtable guarantees it. Members
that search the view by id therefore require `UniqueIds`. Record ids are
also never empty.

## Model

| member | source | states |
|---|---|---|
| HierarchyRecords.Find | scripting-extension/recursiveHierarchyLabels/recursiveHierarchyLabels.js:114 | `query.getRecord(id)`: the record of the view with that id, or none when the view has no such record |
| HierarchyRecords.Component | scripting-extension/recursiveHierarchyLabels/recursiveHierarchyLabels.js:98 | one label component: in Index mode the decimal text of the position plus one, otherwise the record's label text |
| ChildToParent.ParentOf | scripting-extension/recursiveHierarchyLabels/recursiveHierarchyLabels.js:86-90 | the parent a record names: the first id of its link cell, or none when the cell is empty |
| ChildToParent.MatchIsFirstLink | scripting-extension/recursiveHierarchyLabels/recursiveHierarchyLabels.js:86-91 | a record matches a parent exactly when the first id in its link cell is that parent; with no parent, exactly when the cell is empty; later links are ignored |
| ChildToParent.MatchesMembers | scripting-extension/recursiveHierarchyLabels/recursiveHierarchyLabels.js:85-92 | one level's matches are exactly the view's records whose parent is the given one |
| ChildToParent.MatchesConcat | scripting-extension/recursiveHierarchyLabels/recursiveHierarchyLabels.js:85-92 | the filter keeps view order |
| ChildToParent.MatchesUnique | scripting-extension/recursiveHierarchyLabels/recursiveHierarchyLabels.js:85-92 | the matches of a view with unique ids have unique ids |
| ChildToParent.Matches | scripting-extension/recursiveHierarchyLabels/recursiveHierarchyLabels.js:85-92 | a level is never longer than the view |
| ChildToParent.LevelFrom | scripting-extension/recursiveHierarchyLabels/recursiveHierarchyLabels.js:97-108 | what the `matches.forEach` loop pushes from match i on: the match's assignment, everything the recursive call below it pushes, then the later matches |
| ChildToParent.Level | scripting-extension/recursiveHierarchyLabels/recursiveHierarchyLabels.js:83-109 | everything one call of parse_childToParent pushes for a parent and parent label: nothing when no record matches |
| ChildToParent.Labels | scripting-extension/recursiveHierarchyLabels/recursiveHierarchyLabels.js:154 | the whole Child-to-Parent output: the level of the records without a parent, with an empty parent label |
| ChildToParent.FullLabel | scripting-extension/recursiveHierarchyLabels/recursiveHierarchyLabels.js:99 | the label of a match is its parent's label followed by its own component, whether or not the parent label is empty |
| ChildToParent.ChainBound | scripting-extension/recursiveHierarchyLabels/recursiveHierarchyLabels.js:107 | the chain of records the recursion is inside is never longer than the view, which bounds the recursion depth |
| ChildToParent.NotOnChain | scripting-extension/recursiveHierarchyLabels/recursiveHierarchyLabels.js:85-107 | a match of the current level is never already on the recursion chain |
| ChildToParent.ChainExtend | scripting-extension/recursiveHierarchyLabels/recursiveHierarchyLabels.js:107 | recursing into a match keeps the chain valid and shorter than the view, so the recursion terminates |
| ParentChains.CycleNeverRooted | scripting-extension/recursiveHierarchyLabels/recursiveHierarchyLabels.js:83-109 | a record on a cycle of first links, or whose chain of first links runs into one after j steps, never reaches a record without a parent |
| ParentChains.ChainReachesTop | scripting-extension/recursiveHierarchyLabels/recursiveHierarchyLabels.js:83-109 | following parents from a rooted record reaches a record with no parent inside the view |
| ParentChains.SameParentSameRecord | scripting-extension/recursiveHierarchyLabels/recursiveHierarchyLabels.js:90 | on a chain of first links that reaches the top, two ancestors with the same parent are the same record at the same distance |
| ChildToParentProofs.LabelsExactlyRooted | scripting-extension/recursiveHierarchyLabels/recursiveHierarchyLabels.js:83-109 | a record is labelled if and only if following first links from it reaches a record with an empty link cell |
| ChildToParentProofs.LabelsDistinct | scripting-extension/recursiveHierarchyLabels/recursiveHierarchyLabels.js:97-107 | each record is labelled at most once, and only records of the view are labelled |
| ChildToParentProofs.CycleUnlabelled | scripting-extension/recursiveHierarchyLabels/recursiveHierarchyLabels.js:83-109 | records on or leading into a link cycle get no label |
| ChildToParentProofs.LabelsShape | scripting-extension/recursiveHierarchyLabels/recursiveHierarchyLabels.js:97-107 | a record without a parent is labelled with its own component; any other record is labelled after its parent, with the parent's label, the separator and its own component |
| ChildToParentProofs.IndexComponent | scripting-extension/recursiveHierarchyLabels/recursiveHierarchyLabels.js:98 | in Index mode the component of the j-th match of a level is the decimal text of j+1 |
| ChildToParentProofs.Complete | scripting-extension/recursiveHierarchyLabels/recursiveHierarchyLabels.js:94-107 | every record whose chain of first links reaches the level's parent is labelled by that level's recursion |
| ChildToParentProofs.LevelFromDistinct | scripting-extension/recursiveHierarchyLabels/recursiveHierarchyLabels.js:97-108 | the rest of a level's loop pushes each record at most once |
| ChildToParentProofs.LevelFromSound | scripting-extension/recursiveHierarchyLabels/recursiveHierarchyLabels.js:97-108 | everything the rest of a level's loop pushes lies below the level's parent |
| ChildToParentProofs.SiblingsDisjoint | scripting-extension/recursiveHierarchyLabels/recursiveHierarchyLabels.js:97-107 | the records labelled under two different matches are disjoint |
| ChildToParentProofs.MatchNotOwnDescendant | scripting-extension/recursiveHierarchyLabels/recursiveHierarchyLabels.js:107 | a match is not its own ancestor by first links, so it is not labelled again inside its own recursion |
| ChildToParentProofs.LostStaysLost | scripting-extension/recursiveHierarchyLabels/recursiveHierarchyLabels.js:83-109 | once a chain of first links leaves the view, following it further never reaches a record without a parent |
| ParentToChild.Roots | scripting-extension/recursiveHierarchyLabels/recursiveHierarchyLabels.js:126-131 | the root filter over the view's records, in view order |
| ParentToChild.Subtree | scripting-extension/recursiveHierarchyLabels/recursiveHierarchyLabels.js:112-123 | what parseChildren(id, index, labels) pushes: the record's assignment with the joined labels, then its links' subtrees; none when the id is missing from the view or already on the recursion stack |
| ParentToChild.ChildrenFrom | scripting-extension/recursiveHierarchyLabels/recursiveHierarchyLabels.js:122 | the `forEach` over a link cell from position k on: each link's subtree in order, each started at its position; none when one of them fails |
| ParentToChild.RootBlock | scripting-extension/recursiveHierarchyLabels/recursiveHierarchyLabels.js:135-140 | what one root pushes: its links' subtrees, started with the root's label, then the root's own assignment |
| ParentToChild.RootsFrom | scripting-extension/recursiveHierarchyLabels/recursiveHierarchyLabels.js:134-141 | the `roots.forEach` from root i on: each root's block in order, each root labelled by its position; none when one fails |
| ParentToChild.Labels | scripting-extension/recursiveHierarchyLabels/recursiveHierarchyLabels.js:111-142 | the whole Parent-to-Child output, or none where the script throws |
| ParentToChild.Parents | scripting-extension/recursiveHierarchyLabels/recursiveHierarchyLabels.js:127-129 | a record is among the parents of an id exactly when its link cell contains that id |
| ParentToChild.RootsMembers | scripting-extension/recursiveHierarchyLabels/recursiveHierarchyLabels.js:126-131 | a record is a root exactly when no record of the view, itself included, links to it |
| ParentToChild.RootsOfMembers | scripting-extension/recursiveHierarchyLabels/recursiveHierarchyLabels.js:126-131 | the root filter keeps exactly the candidates that nothing links to |
| ParentToChild.PushStack | scripting-extension/recursiveHierarchyLabels/recursiveHierarchyLabels.js:114-122 | descending into a record that is in the view and not yet on the recursion stack keeps the stack valid and shorter than the view |
| ParentToChildProofs.Follow | scripting-extension/recursiveHierarchyLabels/recursiveHierarchyLabels.js:114-122 | a walk along link positions visits one record more than it takes steps, starting at the given id |
| ParentToChildProofs.Comps | scripting-extension/recursiveHierarchyLabels/recursiveHierarchyLabels.js:115-116 | a walk contributes one label component per record visited |
| ParentToChildProofs.ReachedCons | scripting-extension/recursiveHierarchyLabels/recursiveHierarchyLabels.js:115-122 | a walk one step longer yields what the shorter walk yields from the child, with the record's component appended to the labels |
| ParentToChildProofs.SubtreeEntries | scripting-extension/recursiveHierarchyLabels/recursiveHierarchyLabels.js:112-123 | when parseChildren succeeds, it pushes an assignment exactly when some walk from its record ends there, labelled with the components along the walk |
| ParentToChildProofs.ChildrenEntries | scripting-extension/recursiveHierarchyLabels/recursiveHierarchyLabels.js:122 | the loop over a link cell pushes exactly the walks from its links, each started at its link position |
| ParentToChildProofs.SubtreeFails | scripting-extension/recursiveHierarchyLabels/recursiveHierarchyLabels.js:112-123 | parseChildren fails exactly when some walk reaches an id not in the view or one already on the recursion stack |
| ParentToChildProofs.ChildrenFails | scripting-extension/recursiveHierarchyLabels/recursiveHierarchyLabels.js:122 | the loop over a link cell fails exactly when a walk from one of its links does |
| ParentToChildProofs.RootBlockIsSubtree | scripting-extension/recursiveHierarchyLabels/recursiveHierarchyLabels.js:134-141 | a root's block is the whole subtree with the root's own assignment moved from first to last, because the root is pushed after its children |
| ParentToChildProofs.RootsFromEntries | scripting-extension/recursiveHierarchyLabels/recursiveHierarchyLabels.js:134-141 | the loop over the roots pushes exactly the walks from each root, each started at the root's position in the root list |
| ParentToChildProofs.RootsFromFails | scripting-extension/recursiveHierarchyLabels/recursiveHierarchyLabels.js:134-141 | the loop over the roots fails exactly when a walk from one of them does |
| ParentToChildProofs.LabelsEntries | scripting-extension/recursiveHierarchyLabels/recursiveHierarchyLabels.js:111-142 | on success, Parent-to-Child pushes an assignment exactly when a walk from the k-th root, with index k, yields it |
| ParentToChildProofs.LabelsFail | scripting-extension/recursiveHierarchyLabels/recursiveHierarchyLabels.js:111-142 | Parent-to-Child throws exactly when a walk from a root reaches a missing id or revisits a record on its own path |
| HierarchyScript.Planned | scripting-extension/recursiveHierarchyLabels/recursiveHierarchyLabels.js:152-160 | what the `switch` on the direction setting pushes: the Child-to-Parent output, or the Parent-to-Child output or none where it throws |
| HierarchyScript.Script.constructor | scripting-extension/recursiveHierarchyLabels/recursiveHierarchyLabels.js:77-81 | the script starts with the view's records and settings, an empty updates list and nothing written |
| HierarchyScript.Script.ParseChildToParent | scripting-extension/recursiveHierarchyLabels/recursiveHierarchyLabels.js:83-109 | the recursive method appends to updates exactly the level its arguments specify and writes nothing |
| HierarchyScript.Script.ParseChildren | scripting-extension/recursiveHierarchyLabels/recursiveHierarchyLabels.js:112-123 | parseChildren succeeds exactly when its specification does, and then appends exactly that subtree to updates |
| HierarchyScript.Script.ParseLinks | scripting-extension/recursiveHierarchyLabels/recursiveHierarchyLabels.js:122 | the loop over a link cell succeeds exactly when its specification does, and then appends the subtrees of all links in order |
| HierarchyScript.Script.ParseParentToChild | scripting-extension/recursiveHierarchyLabels/recursiveHierarchyLabels.js:111-142 | parse_parentToChild succeeds exactly when the specification ParentToChild.Labels does, and then appends exactly its assignments |
| HierarchyScript.Script.SaveUpdates | scripting-extension/recursiveHierarchyLabels/recursiveHierarchyLabels.js:163-168 | the drain loop empties updates and writes them as consecutive batches of at most 50 |
| HierarchyScript.Script.Run | scripting-extension/recursiveHierarchyLabels/recursiveHierarchyLabels.js:147-175 | a run that throws writes nothing; otherwise it writes the selected traversal's assignments in batches of 50 |
| Batching.Chunks | scripting-extension/recursiveHierarchyLabels/recursiveHierarchyLabels.js:167-168 | the update calls the drain loop issues: each call takes the first ChunkLength of what is still pending |
| Batching.ChunkLength | scripting-extension/recursiveHierarchyLabels/recursiveHierarchyLabels.js:168 | a batch holds at most 50 updates, and fewer only when fewer are left |
| Batching.ChunksFlatten | scripting-extension/recursiveHierarchyLabels/recursiveHierarchyLabels.js:167-168 | the batches, put back together, are exactly the pending updates in order |
| Batching.ChunksCount | scripting-extension/reverseAttachmentOrder/reverseAttachmentOrder.js:69-74 | n updates take ceil(n/50) update calls, and no call is made when nothing is pending |
| Batching.ChunkAt | scripting-extension/reverseAttachmentOrder/reverseAttachmentOrder.js:73 | batch i is updates 50i up to 50(i+1); it is never empty, and every batch but the last is full |
| Text.Join | scripting-extension/recursiveHierarchyLabels/recursiveHierarchyLabels.js:119 | `labels.join(separator)`: the parts with one separator between each pair |
| Text.NatToString | scripting-extension/recursiveHierarchyLabels/recursiveHierarchyLabels.js:98 | `String(index + 1)` is a non-empty string of decimal digits without a leading zero |
| Text.NatToStringRoundTrip | scripting-extension/recursiveHierarchyLabels/recursiveHierarchyLabels.js:115 | reading the decimal text back gives the number |
| Text.NatToStringInjective | scripting-extension/recursiveHierarchyLabels/recursiveHierarchyLabels.js:135 | different positions get different index components |
| Text.JoinConcat | scripting-extension/recursiveHierarchyLabels/recursiveHierarchyLabels.js:119 | joining one more label appends the separator and that label |
| Text.JoinLength | scripting-extension/recursiveHierarchyLabels/recursiveHierarchyLabels.js:119 | a joined label is as long as its parts plus one separator between each pair |
| NameConversion.Trim | scripting-extension/getTableIds/getTableIds.js:56 | `trim()`: leading and trailing spaces removed |
| NameConversion.Parts | scripting-extension/getTableIds/getTableIds.js:56 | the parts of a name: characters other than ASCII letters, digits and spaces dropped, trimmed, lower-cased and split at each space |
| NameConversion.CamelFrom | scripting-extension/getTableIds/getTableIds.js:57-64 | what the `forEach` appends from part i on: nothing for an empty part, the first part as it is, every later part with its first character upper-cased |
| NameConversion.Fallback | scripting-extension/getTableIds/getTableIds.js:66 | the fallback name `unknown<k>_<name>` |
| NameConversion.Converted | scripting-extension/getTableIds/getTableIds.js:54-70 | convertName with the counter at `count`: the camel name and the same counter, or the fallback and the counter plus one when the camel name is empty |
| NameConversion.LowerChar | scripting-extension/getTableIds/getTableIds.js:56 | a lower-cased character is never a capital, and it is a letter or digit, or a space, exactly when the original was |
| NameConversion.Filter | scripting-extension/getTableIds/getTableIds.js:56 | the filtered text is no longer than the original and holds only characters that pass |
| NameConversion.TrimStart | scripting-extension/getTableIds/getTableIds.js:56 | the trimmed text does not start with a space |
| NameConversion.TrimEnd | scripting-extension/getTableIds/getTableIds.js:56 | the trimmed text is no longer than the original and does not end with a space |
| NameConversion.Split | scripting-extension/getTableIds/getTableIds.js:56 | splitting on spaces yields at least one part, and no part holds a space |
| NameConversion.SplitCount | scripting-extension/getTableIds/getTableIds.js:56 | `split(" ")` yields one more part than the text has spaces, empty parts included |
| NameConversion.SplitJoin | scripting-extension/getTableIds/getTableIds.js:56 | joining the parts with single spaces gives the text back, so the parts are exactly the pieces between the spaces |
| NameConversion.SplitChars | scripting-extension/getTableIds/getTableIds.js:56 | every character of a part occurs in the split text |
| NameConversion.PartsChars | scripting-extension/getTableIds/getTableIds.js:56 | the parts of a name hold only small letters and digits |
| NameConversion.PartsLetters | scripting-extension/getTableIds/getTableIds.js:56 | the parts of a name, put together, are its letters and digits, lower-cased |
| NameConversion.FirstPart | scripting-extension/getTableIds/getTableIds.js:56-60 | the first part is empty only when it is the only part, because the trim removed the leading spaces |
| NameConversion.CapitalWord | scripting-extension/getTableIds/getTableIds.js:62 | a later non-empty part is written with its first character upper-cased and the rest as it is |
| NameConversion.FirstWordLower | scripting-extension/getTableIds/getTableIds.js:59-60 | a camel name does not start with a capital |
| NameConversion.CamelWords | scripting-extension/getTableIds/getTableIds.js:57-64 | the loop writes the first non-empty part as it is and capitalises every later non-empty part |
| NameConversion.CamelLetters | scripting-extension/getTableIds/getTableIds.js:56-64 | a camel name, lower-cased, is the name's letters and digits, lower-cased |
| NameConversion.CamelAlnum | scripting-extension/getTableIds/getTableIds.js:56-64 | a camel name holds only ASCII letters and digits |
| NameConversion.ConvertedSpec | scripting-extension/getTableIds/getTableIds.js:54-70 | a name without letters or digits gets `unknown<count>_<name>` and the counter advances; any other name gets a non-empty alphanumeric camel name, equal to its letters and digits up to case, that does not start with a capital, and the counter is unchanged |
| NameConversion.FallbackDistinct | scripting-extension/getTableIds/getTableIds.js:66 | fallbacks for different counter values differ, whatever the names |
| IdSorting.StrLess | scripting-extension/getTableIds/getTableIds.js:75-76 | JavaScript `<` on strings: lexicographic by character, a proper prefix first |
| IdSorting.StrLessTrichotomy | scripting-extension/getTableIds/getTableIds.js:75-76 | string `<` is a strict total order: exactly one of less, equal, greater holds |
| IdSorting.StrLessTransitive | scripting-extension/getTableIds/getTableIds.js:75-76 | string `<` is transitive |
| IdSorting.SortKey | scripting-extension/getTableIds/getTableIds.js:73-74 | the key is the prefix of the line before its first colon, or the whole line if it has none |
| IdSorting.Compare | scripting-extension/getTableIds/getTableIds.js:72-78 | sortIds returns -1, 0 or 1 |
| IdSorting.CompareMeaning | scripting-extension/getTableIds/getTableIds.js:72-78 | sortIds returns 0 exactly for equal keys and a negative value exactly when the first key is less |
| IdSorting.CompareSymmetry | scripting-extension/getTableIds/getTableIds.js:72-78 | sortIds is antisymmetric and returns 0 for a line against itself |
| IdSorting.CompareTransitive | scripting-extension/getTableIds/getTableIds.js:72-78 | sortIds is transitive, so it is a consistent comparator for `sort` |
| IdSorting.Insert | scripting-extension/getTableIds/getTableIds.js:105 | one insertion step adds exactly the inserted line |
| IdSorting.InsertSorted | scripting-extension/getTableIds/getTableIds.js:105 | inserting into a sorted list keeps it sorted |
| IdSorting.InsertStable | scripting-extension/getTableIds/getTableIds.js:105 | inserting a line puts it after every line with an equal key |
| IdSorting.SortLines | scripting-extension/getTableIds/getTableIds.js:105 | `lines.sort(sortIds)` as a stable insertion sort by key |
| IdSorting.SortLinesSorted | scripting-extension/getTableIds/getTableIds.js:105 | the sorted lines are ordered by key and are a permutation of the input |
| IdSorting.SortLinesStable | scripting-extension/getTableIds/getTableIds.js:114 | lines with equal keys keep their input order |
| IdSorting.SortedUnique | scripting-extension/getTableIds/getTableIds.js:105 | two sorted lists with the same lines, and the same order among equal keys, are equal |
| IdSorting.SortLinesUnique | scripting-extension/getTableIds/getTableIds.js:105 | any stable sort by sortIds gives exactly the result of SortLines |
| TableIds.Indent | scripting-extension/getTableIds/getTableIds.js:47 | `indent(count)`: indentSize spaces, repeated count times |
| TableIds.FieldLine | scripting-extension/getTableIds/getTableIds.js:92 | one field entry: the converted name, a colon, the PRE text, the quoted id, the POST text and a comma |
| TableIds.ViewLine | scripting-extension/getTableIds/getTableIds.js:95 | one view entry: the converted name, a colon, the quoted id and a comma |
| TableIds.ConvertAll | scripting-extension/getTableIds/getTableIds.js:91-96 | the names of a list converted in order, the counter threaded from one call to the next |
| TableIds.Lines | scripting-extension/getTableIds/getTableIds.js:92-95 | the entry line of each item with its converted name |
| TableIds.Unsorted | scripting-extension/getTableIds/getTableIds.js:88-96 | the converted table name and the field and view lines of the included lists, the counter threaded through table, fields and views |
| TableIds.Listed | scripting-extension/getTableIds/getTableIds.js:83-114 | the listing main builds: the unsorted lines with each list sorted by sortIds |
| TableIds.IndentSpaces | scripting-extension/getTableIds/getTableIds.js:47 | `indent(count)` is count times indentSize spaces |
| TableIds.RepeatSpaces | scripting-extension/getTableIds/getTableIds.js:47 | repeating a run of spaces gives only spaces, of the product length |
| TableIds.FieldLineKey | scripting-extension/getTableIds/getTableIds.js:92 | a field line sorts by the converted field name up to its first colon |
| TableIds.ViewLineKey | scripting-extension/getTableIds/getTableIds.js:95 | a view line sorts by the converted view name up to its first colon |
| TableIds.NoColonKey | scripting-extension/getTableIds/getTableIds.js:73 | a line whose converted name has no colon sorts by exactly that name |
| TableIds.ScriptFieldLine | scripting-extension/getTableIds/getTableIds.js:89-95 | in Script mode a field line has the same form as a view line |
| TableIds.ConvertedLaws | scripting-extension/getTableIds/getTableIds.js:54-70 | convertName advances the counter exactly for names without letters or digits, gives those a fallback and gives all others an alphanumeric name |
| TableIds.ConvertAllCounter | scripting-extension/getTableIds/getTableIds.js:91-96 | converting a list advances the counter by the number of names without letters or digits |
| TableIds.ConvertAllAt | scripting-extension/getTableIds/getTableIds.js:91-96 | the i-th name is converted with the counter advanced by the fallbacks before it |
| TableIds.FallbackCountMonotone | scripting-extension/getTableIds/getTableIds.js:67 | the counter never goes back |
| TableIds.FallbacksDiffer | scripting-extension/getTableIds/getTableIds.js:65-68 | two names that both fall back get different identifiers |
| TableIds.FallbackNotCamel | scripting-extension/getTableIds/getTableIds.js:65-68 | a fallback identifier never equals a camel identifier |
| TableIds.ConvertAllNoClash | scripting-extension/getTableIds/getTableIds.js:88-96 | a name that falls back gets an identifier no other name in the list gets |
| TableIds.ListedSorted | scripting-extension/getTableIds/getTableIds.js:91-114 | the field lines and view lines are sorted by key, stable, and permutations of the unsorted lines, one per included item |
| TableIds.ListedCounter | scripting-extension/getTableIds/getTableIds.js:88-96 | after main the counter has advanced by the number of fallbacks among the table, field and view names |
| TableIds.Exporter.constructor | scripting-extension/getTableIds/getTableIds.js:52 | the counter starts at 1 |
| TableIds.Exporter.ConvertName | scripting-extension/getTableIds/getTableIds.js:54-70 | the loop over name parts computes the converted name and the new counter value |
| TableIds.Exporter.Entries | scripting-extension/getTableIds/getTableIds.js:91-96 | the mapped lines are the items' lines with their converted names, and the counter is advanced accordingly |
| TableIds.Exporter.Run | scripting-extension/getTableIds/getTableIds.js:83-114 | with no active table nothing is produced and the counter is unchanged; otherwise the listing is the sorted specification listing |
| AttachmentOrder.HasSeveral | scripting-extension/reverseAttachmentOrder/reverseAttachmentOrder.js:48 | a record's cell is non-empty and holds more than one attachment |
| AttachmentOrder.Reverse | scripting-extension/reverseAttachmentOrder/reverseAttachmentOrder.js:59 | `.reverse()`: the same elements in reverse order |
| AttachmentOrder.Reversed | scripting-extension/reverseAttachmentOrder/reverseAttachmentOrder.js:59-64 | the cell written back: the attachments reversed, each reduced to its filename and URL |
| AttachmentOrder.UpdateOf | scripting-extension/reverseAttachmentOrder/reverseAttachmentOrder.js:56-66 | the update for one record: its id, the field name and its reversed cell |
| AttachmentOrder.WithAttachments | scripting-extension/reverseAttachmentOrder/reverseAttachmentOrder.js:48 | every kept record has a non-empty cell with more than one attachment |
| AttachmentOrder.WithAttachmentsMembers | scripting-extension/reverseAttachmentOrder/reverseAttachmentOrder.js:48 | a record is kept exactly when its cell holds more than one attachment |
| AttachmentOrder.WithAttachmentsConcat | scripting-extension/reverseAttachmentOrder/reverseAttachmentOrder.js:48 | the filter keeps record order |
| AttachmentOrder.Project | scripting-extension/reverseAttachmentOrder/reverseAttachmentOrder.js:59-64 | projecting keeps one filename and URL pair per attachment |
| AttachmentOrder.Updates | scripting-extension/reverseAttachmentOrder/reverseAttachmentOrder.js:49-67 | there is one update per kept record |
| AttachmentOrder.UpdatesMembers | scripting-extension/reverseAttachmentOrder/reverseAttachmentOrder.js:48-67 | an update is built exactly for each record with several attachments, holding its reversed and projected cell |
| AttachmentOrder.UpdatesOne | scripting-extension/reverseAttachmentOrder/reverseAttachmentOrder.js:48-67 | a single record yields its update if it has several attachments and nothing otherwise |
| AttachmentOrder.UpdatesConcat | scripting-extension/reverseAttachmentOrder/reverseAttachmentOrder.js:48-67 | updates are built record by record, in record order |
| AttachmentOrder.ReverseAt | scripting-extension/reverseAttachmentOrder/reverseAttachmentOrder.js:59 | element i of the reversal is element n-1-i of the input |
| AttachmentOrder.ReversedAt | scripting-extension/reverseAttachmentOrder/reverseAttachmentOrder.js:59-64 | file i of the written cell is the filename and URL of file n-1-i of the original cell |
| AttachmentOrder.ReverseConcat | scripting-extension/reverseAttachmentOrder/reverseAttachmentOrder.js:59 | reversing a concatenation reverses and swaps the parts |
| AttachmentOrder.ReverseReverse | scripting-extension/reverseAttachmentOrder/reverseAttachmentOrder.js:59 | reversing twice gives the original |
| AttachmentOrder.ProjectReverse | scripting-extension/reverseAttachmentOrder/reverseAttachmentOrder.js:59-64 | projecting and reversing commute |
| AttachmentOrder.ReversedTwice | scripting-extension/reverseAttachmentOrder/reverseAttachmentOrder.js:59-64 | reversing the written cell gives the original order back, as filename and URL pairs |
| AttachmentOrder.Run | scripting-extension/reverseAttachmentOrder/reverseAttachmentOrder.js:33-74 | a non-attachment field writes nothing; otherwise the updates are written in batches of 50 |

## Left out

- Output to the extension panel is not modelled: markdown, progress text,
  "No changes to apply", the `index % 100` progress, and the TB, FL and VW
  blocks, the import line and the Script-mode query lines printed by
  getTableIds.js:98-127. The model stops at the lists those blocks are
  built from (`TableIds.Listing`).
- HierarchyScript.Script.SaveUpdates and AttachmentOrder.Run assume that
  every `updateRecordsAsync` call succeeds. A rejected call throws inside the
  drain loop: the earlier batches stay written and the rest are never sent.
  That partial write is not modelled.
- ParentToChildProofs.LabelsEntries, like `SubtreeEntries`,
  `ChildrenEntries` and `RootsFromEntries`, states which assignments are pushed,
  not how often. A record reached by several walks, for example a record
  linked from two parents, is pushed once per walk. That count is not stated
  as a lemma. The methods that push the updates are still proved equal to
  the specification functions, so the model itself keeps every duplicate.
- `ChildToParent.IsMatch` treats every id as a parent. The source's
  `if (!parent)` at recursiveHierarchyLabels.js:87 would treat an empty-string
  id like "no parent", and would then scan the top level again without end.
  Airtable never issues an empty record id, so that case is not modelled.
- Settings input, `selectRecordsAsync` and the other awaits are not modelled.
  The view's records, the settings and the active table are parameters.
  The store's update calls are a log of batches.
- `HierarchyScript.Script.Run` does not model a direction setting outside
  the two choices. The source then pushes nothing.
- Labels are strings. The model does not separate `getCellValue` from
  `getCellValueAsString` for the label field, or the text a non-text value
  would give in `join`.
- `HierarchyScript.Script.ParseParentToChild`: a throw, from a linked id
  missing from the view or from endless recursion on a cycle, is a failed
  result. The JavaScript stack limit on a very deep but acyclic hierarchy
  is not modelled.
- The model compares, lower-cases and upper-cases characters with ASCII
  rules only, as the source's character class does. The model compares
  characters, where JavaScript `<` compares UTF-16 code units, so the two
  differ only outside the basic multilingual plane.
- `IdSorting.SortLines`: `Array.prototype.sort` is modelled as a stable
  insertion sort on values. The engine's in-place sort is not modelled, but
  `SortLinesUnique` shows that every stable sort by `sortIds` gives the
  same result.
- `AttachmentOrder.Run`: `.reverse()` also reverses the fetched cell value
  in place. The model builds a new sequence and does not model that
  aliasing, which the script never observes.
- `Text.NatToString` models `String(n)` and `toString()` for non-negative
  integers only, the only values the source passes.
