/** The Reverse Attachment Order script: for every record whose attachment
    field holds more than one file, write the files back in reverse order,
    fifty records per store call. */
module AttachmentOrder {
  import opened Batching

  datatype Option<T> = None | Some(value: T)

  /** An attachment as the store returns it. */
  datatype Attachment = Attachment(id: string, filename: string, url: string, size: nat, mimeType: string)

  /** An attachment as the script writes it back: its file name and its URL,
      nothing else. */
  datatype AttachmentRef = AttachmentRef(filename: string, url: string)

  /** A record of the query: its id and the value of the chosen field, which
      is `null` when the field is empty. */
  datatype Record = Record(id: string, files: Option<seq<Attachment>>)

  /** One element of the `updates` list: the record id and the new value of
      the field. */
  datatype Update = Update(id: string, fieldName: string, files: seq<AttachmentRef>)

  /** The field type the script accepts. */
  const AttachmentType: string := "multipleAttachments"

  /** The `filter` condition: the field is not empty and holds more than one
      attachment. */
  predicate HasSeveral(r: Record) {
    r.files.Some? && |r.files.value| > 1
  }

  /** `recordsWithAttachments`: the records that pass the filter, in query order. */
  function WithAttachments(records: seq<Record>): (kept: seq<Record>)
    ensures |kept| <= |records|
    ensures forall i :: 0 <= i < |kept| ==> HasSeveral(kept[i])
  {
    if records == [] then []
    else (if HasSeveral(records[0]) then [records[0]] else []) + WithAttachments(records[1..])
  }

  function Reverse<T>(s: seq<T>): (r: seq<T>)
    ensures |r| == |s|
  {
    if s == [] then [] else Reverse(s[1..]) + [s[0]]
  }

  /** The `map` keeping the file name and URL of each attachment. */
  function Project(atts: seq<Attachment>): (refs: seq<AttachmentRef>)
    ensures |refs| == |atts|
  {
    seq(|atts|, i requires 0 <= i < |atts| => AttachmentRef(atts[i].filename, atts[i].url))
  }

  /** The new field value: `getCellValue(field).reverse().map(...)`. */
  function Reversed(atts: seq<Attachment>): (refs: seq<AttachmentRef>) {
    Project(Reverse(atts))
  }

  /** The update written for a record with several attachments. */
  function UpdateOf(r: Record, fieldName: string): (u: Update)
    requires HasSeveral(r)
  {
    Update(r.id, fieldName, Reversed(r.files.value))
  }

  /** The `updates` list built for the field named `fieldName`. */
  function Updates(records: seq<Record>, fieldName: string): (updates: seq<Update>)
    ensures |updates| == |WithAttachments(records)|
  {
    var kept := WithAttachments(records);
    seq(|kept|, i requires 0 <= i < |kept| => UpdateOf(kept[i], fieldName))
  }

  lemma {:induction false} WithAttachmentsMembers(records: seq<Record>, r: Record)
    ensures r in WithAttachments(records) <==> r in records && HasSeveral(r)
  {
    if records != [] {
      WithAttachmentsMembers(records[1..], r);
      assert records == [records[0]] + records[1..];
    }
  }

  /** The filter keeps the relative order: filtering a concatenation
      concatenates the filtered parts. */
  lemma {:induction false} WithAttachmentsConcat(a: seq<Record>, b: seq<Record>)
    ensures WithAttachments(a + b) == WithAttachments(a) + WithAttachments(b)
  {
    if a == [] {
      assert a + b == b;
    } else {
      assert (a + b)[1..] == a[1..] + b;
      WithAttachmentsConcat(a[1..], b);
    }
  }

  /** The updates follow the order of the records: the updates of a
      concatenation are the updates of the parts, concatenated. */
  lemma UpdatesConcat(a: seq<Record>, b: seq<Record>, fieldName: string)
    ensures Updates(a + b, fieldName) == Updates(a, fieldName) + Updates(b, fieldName)
  {
    WithAttachmentsConcat(a, b);
  }

  /** A record gets exactly one update when it has several attachments and
      none otherwise. */
  lemma UpdatesOne(r: Record, fieldName: string)
    ensures Updates([r], fieldName) == if HasSeveral(r) then [UpdateOf(r, fieldName)] else []
  {
    assert [r][1..] == [];
  }

  lemma UpdatesMembers(records: seq<Record>, fieldName: string, u: Update)
    ensures u in Updates(records, fieldName) <==> exists r :: r in records && HasSeveral(r) && u == UpdateOf(r, fieldName)
  {
    var kept := WithAttachments(records);
    if u in Updates(records, fieldName) {
      var i :| 0 <= i < |kept| && Updates(records, fieldName)[i] == u;
      assert kept[i] in kept;
      WithAttachmentsMembers(records, kept[i]);
    }
    if r :| r in records && HasSeveral(r) && u == UpdateOf(r, fieldName) {
      WithAttachmentsMembers(records, r);
      var i :| 0 <= i < |kept| && kept[i] == r;
      assert Updates(records, fieldName)[i] == u;
    }
  }

  lemma {:induction false} ReverseAt<T>(s: seq<T>, i: nat)
    requires i < |s|
    ensures Reverse(s)[i] == s[|s| - 1 - i]
    decreases |s|
  {
    if i < |s| - 1 {
      ReverseAt(s[1..], i);
    }
  }

  /** Element `i` of the written list is the file name and URL of original
      attachment `n - 1 - i`; the length is kept. */
  lemma ReversedAt(atts: seq<Attachment>, i: nat)
    requires i < |atts|
    ensures |Reversed(atts)| == |atts|
    ensures Reversed(atts)[i] == AttachmentRef(atts[|atts| - 1 - i].filename, atts[|atts| - 1 - i].url)
  {
    ReverseAt(atts, i);
  }

  lemma {:induction false} ReverseConcat<T>(a: seq<T>, b: seq<T>)
    ensures Reverse(a + b) == Reverse(b) + Reverse(a)
    decreases |a|
  {
    if a == [] {
      assert a + b == b;
      assert Reverse(b) + [] == Reverse(b);
    } else {
      assert (a + b)[1..] == a[1..] + b;
      ReverseConcat(a[1..], b);
    }
  }

  lemma {:induction false} ReverseReverse<T>(s: seq<T>)
    ensures Reverse(Reverse(s)) == s
    decreases |s|
  {
    if s != [] {
      ReverseConcat(Reverse(s[1..]), [s[0]]);
      ReverseReverse(s[1..]);
      assert Reverse([s[0]]) == [s[0]];
      assert s == [s[0]] + s[1..];
    }
  }

  lemma ProjectReverse(atts: seq<Attachment>)
    ensures Project(Reverse(atts)) == Reverse(Project(atts))
  {
    forall i | 0 <= i < |atts|
      ensures Project(Reverse(atts))[i] == Reverse(Project(atts))[i]
    {
      ReverseAt(atts, i);
      ReverseAt(Project(atts), i);
    }
  }

  /** Reversing the written list again gives back the original order of the
      files' names and URLs. */
  lemma ReversedTwice(atts: seq<Attachment>)
    ensures Reverse(Reversed(atts)) == Project(atts)
  {
    ProjectReverse(atts);
    ReverseReverse(Project(atts));
  }

  /** `main`: nothing happens unless the field is an attachment field;
      otherwise the updates are built and sent in calls of at most fifty, the
      first fifty still pending each time. Returns the store calls in order. */
  method Run(fieldType: string, fieldName: string, records: seq<Record>) returns (writes: seq<seq<Update>>)
    ensures fieldType != AttachmentType ==> writes == []
    ensures fieldType == AttachmentType ==> writes == Chunks(Updates(records, fieldName))
  {
    writes := [];
    if fieldType != AttachmentType {
      return;
    }
    var updates := Updates(records, fieldName);
    while |updates| > 0
      invariant writes + Chunks(updates) == Chunks(Updates(records, fieldName))
      decreases |updates|
    {
      var k := ChunkLength(|updates|);
      writes := writes + [updates[..k]];
      updates := updates[k..];
    }
    assert writes + [] == writes;
  }
}
