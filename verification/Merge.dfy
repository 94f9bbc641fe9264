/** Merging patch documents: JSON Merge Patch on mappings that keep their key order. */
module Merging {
  import opened Json
  import opened Wrappers

  datatype Value =
    | Null
    | Text(text: string)
    | Scalar(repr: string)
    | Sequence(items: seq<Value>)
    | Mapping(entries: seq<Entry>)

  datatype Entry = Entry(key: string, value: Value)

  // ---- Ordered mappings ----

  function Find(entries: seq<Entry>, key: string): Option<Value> {
    if entries == [] then None
    else if entries[0].key == key then Some(entries[0].value)
    else Find(entries[1..], key)
  }

  function FindOrNull(entries: seq<Entry>, key: string): Value {
    var found := Find(entries, key);
    if found.Some? then found.value else Null
  }

  /** Replaces the value of a key that is there in its place, appends one that is not. */
  function Insert(entries: seq<Entry>, key: string, value: Value): seq<Entry> {
    if entries == [] then [Entry(key, value)]
    else if entries[0].key == key then [Entry(key, value)] + entries[1..]
    else [entries[0]] + Insert(entries[1..], key, value)
  }

  /** Removes a key and closes the gap. */
  function ShiftRemove(entries: seq<Entry>, key: string): seq<Entry> {
    if entries == [] then []
    else if entries[0].key == key then entries[1..]
    else [entries[0]] + ShiftRemove(entries[1..], key)
  }

  function Keys(entries: seq<Entry>): seq<string> {
    seq(|entries|, i requires 0 <= i < |entries| => entries[i].key)
  }

  ghost predicate DistinctKeys(entries: seq<Entry>) {
    forall i, j :: 0 <= i < j < |entries| ==> entries[i].key != entries[j].key
  }

  /** A mapping holds no key twice, at any depth. */
  ghost predicate WellFormed(v: Value) {
    match v
    case Sequence(items) => forall i :: 0 <= i < |items| ==> WellFormed(items[i])
    case Mapping(entries) => DistinctKeys(entries) && forall i :: 0 <= i < |entries| ==> WellFormed(entries[i].value)
    case _ => true
  }

  lemma {:induction false} FindIsThere(entries: seq<Entry>, key: string)
    ensures Find(entries, key).Some? <==> exists i :: 0 <= i < |entries| && entries[i].key == key
    ensures forall i :: 0 <= i < |entries| && entries[i].key == key && DistinctKeys(entries) ==>
      Find(entries, key) == Some(entries[i].value)
  {
    if entries == [] {
    } else {
      var rest := entries[1..];
      FindIsThere(rest, key);
      assert forall i :: 0 <= i < |rest| ==> rest[i] == entries[i + 1];
      assert forall i :: 0 < i < |entries| ==> entries[i] == rest[i - 1];
    }
  }

  lemma {:induction false} InsertFinds(entries: seq<Entry>, key: string, value: Value, other: string)
    ensures Find(Insert(entries, key, value), other) == if other == key then Some(value) else Find(entries, other)
  {
    if entries == [] || entries[0].key == key {
    } else {
      InsertFinds(entries[1..], key, value, other);
    }
  }

  lemma {:induction false} RemoveFinds(entries: seq<Entry>, key: string, other: string)
    requires DistinctKeys(entries)
    ensures Find(ShiftRemove(entries, key), other) == if other == key then None else Find(entries, other)
  {
    if entries == [] {
    } else {
      if entries[0].key == key {
        FindIsThere(entries[1..], key);
      } else {
        RemoveFinds(entries[1..], key, other);
      }
    }
  }

  lemma KeysFirst(entries: seq<Entry>)
    ensures Keys([]) == []
    ensures entries != [] ==> Keys(entries) == [entries[0].key] + Keys(entries[1..])
  {}

  lemma {:induction false} InsertKeys(entries: seq<Entry>, key: string, value: Value)
    ensures Keys(Insert(entries, key, value)) == Keys(entries) + (if Find(entries, key).Some? then [] else [key])
  {
    hide Keys;
    if entries == [] {
      KeysFirst([Entry(key, value)]);
      assert [Entry(key, value)][1..] == [];
    } else {
      var rest := entries[1..];
      KeysFirst(entries);
      if entries[0].key == key {
        KeysFirst([Entry(key, value)] + rest);
      } else {
        InsertKeys(rest, key, value);
        KeysFirst([entries[0]] + Insert(rest, key, value));
      }
    }
  }

  // ---- The merge ----

  function MergeEntry(merged: seq<Entry>, e: Entry): seq<Entry>
    decreases e, 1
  {
    if e.value.Null? then ShiftRemove(merged, e.key)
    else Insert(merged, e.key, Merged(FindOrNull(merged, e.key), e.value))
  }

  function MergeEntries(merged: seq<Entry>, overlay: seq<Entry>): seq<Entry>
    decreases overlay, 0
  {
    if overlay == [] then merged
    else MergeEntry(MergeEntries(merged, overlay[..|overlay| - 1]), overlay[|overlay| - 1])
  }

  function EntriesOf(base: Value): seq<Entry> {
    if base.Mapping? then base.entries else []
  }

  function Merged(base: Value, overlay: Value): Value
    decreases overlay, 1
  {
    if !overlay.Mapping? then overlay
    else Mapping(MergeEntries(EntriesOf(base), overlay.entries))
  }

  method Merge(base: Value, overlay: Value) returns (r: Value)
    ensures r == Merged(base, overlay)
    decreases overlay
  {
    if !overlay.Mapping? {
      return overlay;
    }
    var merged := EntriesOf(base);
    for i := 0 to |overlay.entries|
      invariant merged == MergeEntries(EntriesOf(base), overlay.entries[..i])
    {
      var key, value := overlay.entries[i].key, overlay.entries[i].value;
      assert overlay.entries[..i + 1][..i] == overlay.entries[..i];
      assert overlay.entries[..i + 1][i] == Entry(key, value);
      if value.Null? {
        merged := ShiftRemove(merged, key);
        continue;
      }
      var inner := Merge(FindOrNull(merged, key), value);
      merged := Insert(merged, key, inner);
    }
    assert overlay.entries[..|overlay.entries|] == overlay.entries;
    return Mapping(merged);
  }

  // ---- Keys and their order ----

  function Without(keys: seq<string>, key: string): seq<string> {
    if keys == [] then []
    else Without(keys[..|keys| - 1], key) + (if keys[|keys| - 1] == key then [] else [keys[|keys| - 1]])
  }

  /** The keys the overlay does not null. */
  function Kept(keys: seq<string>, overlay: seq<Entry>): seq<string> {
    if keys == [] then []
    else
      var last := keys[|keys| - 1];
      Kept(keys[..|keys| - 1], overlay) + (if Find(overlay, last) == Some(Null) then [] else [last])
  }

  /** The overlay's keys with a value that the base lacks. */
  function Added(base: seq<Entry>, overlay: seq<Entry>): seq<string> {
    if overlay == [] then []
    else
      var last := overlay[|overlay| - 1];
      Added(base, overlay[..|overlay| - 1])
        + (if last.value.Null? || Find(base, last.key).Some? then [] else [last.key])
  }

  lemma {:induction false} WithoutConcat(xs: seq<string>, ys: seq<string>, key: string)
    ensures Without(xs + ys, key) == Without(xs, key) + Without(ys, key)
  {
    if ys == [] {
      assert xs + ys == xs;
    } else {
      assert (xs + ys)[..|xs + ys| - 1] == xs + ys[..|ys| - 1];
      WithoutConcat(xs, ys[..|ys| - 1], key);
    }
  }

  lemma {:induction false} WithoutAbsent(keys: seq<string>, key: string)
    requires key !in keys
    ensures Without(keys, key) == keys
  {
    if keys == [] {
    } else {
      assert keys == keys[..|keys| - 1] + [keys[|keys| - 1]];
      WithoutAbsent(keys[..|keys| - 1], key);
    }
  }

  lemma KeysIn(entries: seq<Entry>, key: string)
    ensures key in Keys(entries) <==> Find(entries, key).Some?
  {
    FindIsThere(entries, key);
    if key in Keys(entries) {
      var i :| 0 <= i < |entries| && Keys(entries)[i] == key;
    }
    if i :| 0 <= i < |entries| && entries[i].key == key {
      assert Keys(entries)[i] == key;
    }
  }

  lemma {:induction false} RemoveKeys(entries: seq<Entry>, key: string)
    requires DistinctKeys(entries)
    ensures Keys(ShiftRemove(entries, key)) == Without(Keys(entries), key)
  {
    hide Keys;
    if entries == [] {
      KeysFirst([]);
    } else {
      var rest := entries[1..];
      KeysFirst(entries);
      WithoutConcat([entries[0].key], Keys(rest), key);
      if entries[0].key == key {
        KeysIn(rest, key);
        FindIsThere(rest, key);
        WithoutAbsent(Keys(rest), key);
      } else {
        RemoveKeys(rest, key);
        KeysFirst([entries[0]] + ShiftRemove(rest, key));
      }
    }
  }

  lemma KeysDistinct(entries: seq<Entry>)
    ensures DistinctKeys(entries) <==>
      forall i, j :: 0 <= i < j < |Keys(entries)| ==> Keys(entries)[i] != Keys(entries)[j]
  {
    assert forall i :: 0 <= i < |entries| ==> Keys(entries)[i] == entries[i].key;
  }

  lemma InsertDistinct(entries: seq<Entry>, key: string, value: Value)
    requires DistinctKeys(entries)
    ensures DistinctKeys(Insert(entries, key, value))
  {
    hide Find, Insert;
    InsertKeys(entries, key, value);
    KeysIn(entries, key);
    KeysDistinct(entries);
    var keys := Keys(Insert(entries, key, value));
    forall i, j | 0 <= i < j < |keys| ensures keys[i] != keys[j] {
      assert i < |Keys(entries)| ==> keys[i] == Keys(entries)[i];
    }
    KeysDistinct(Insert(entries, key, value));
  }

  lemma {:induction false} RemoveDistinct(entries: seq<Entry>, key: string)
    requires DistinctKeys(entries)
    ensures DistinctKeys(ShiftRemove(entries, key))
  {
    if entries == [] || entries[0].key == key {
    } else {
      var rest := ShiftRemove(entries[1..], key);
      RemoveDistinct(entries[1..], key);
      forall j | 0 <= j < |rest| ensures rest[j].key != entries[0].key {
        FindIsThere(rest, entries[0].key);
        RemoveFinds(entries[1..], key, entries[0].key);
        FindIsThere(entries[1..], entries[0].key);
      }
    }
  }

  lemma MergeEntryFinds(merged: seq<Entry>, e: Entry, key: string)
    requires DistinctKeys(merged)
    ensures DistinctKeys(MergeEntry(merged, e))
    ensures Find(MergeEntry(merged, e), key) ==
      if key != e.key then Find(merged, key)
      else if e.value.Null? then None
      else Some(Merged(FindOrNull(merged, e.key), e.value))
  {
    hide Find, Insert, ShiftRemove, DistinctKeys, Merged;
    if e.value.Null? {
      RemoveFinds(merged, e.key, key);
      RemoveDistinct(merged, e.key);
    } else {
      var value := Merged(FindOrNull(merged, e.key), e.value);
      InsertFinds(merged, e.key, value, key);
      InsertDistinct(merged, e.key, value);
    }
  }

  /** A merge leaves distinct keys, and says for every key what it holds: an overlay's null removes it,
      an overlay's value is merged over the base's, and a key the overlay does not mention keeps what it
      had. */
  lemma {:induction false} FindMerged(base: seq<Entry>, overlay: seq<Entry>, key: string)
    requires DistinctKeys(base) && DistinctKeys(overlay)
    ensures DistinctKeys(MergeEntries(base, overlay))
    ensures Find(MergeEntries(base, overlay), key) ==
      match Find(overlay, key)
      case None => Find(base, key)
      case Some(value) => if value.Null? then None else Some(Merged(FindOrNull(base, key), value))
  {
    hide MergeEntry, Merged;
    if overlay == [] {
    } else {
      var front, last := overlay[..|overlay| - 1], overlay[|overlay| - 1];
      assert overlay == front + [last];
      FindPush(front, last, key);
      FindMerged(base, front, key);
      FindMerged(base, front, last.key);
      MergeEntryFinds(MergeEntries(base, front), last, key);
    }
  }

  lemma FindPush(front: seq<Entry>, last: Entry, key: string)
    requires DistinctKeys(front + [last])
    ensures Find(front + [last], key) == if key == last.key then Some(last.value) else Find(front, key)
    ensures Find(front, last.key) == None
  {
    FindIsThere(front + [last], key);
    FindIsThere(front, key);
    FindIsThere(front, last.key);
    assert forall i :: 0 <= i < |front| ==> (front + [last])[i] == front[i];
    if i :| 0 <= i < |front| && front[i].key == key {
      assert (front + [last])[i].key == key;
    }
    assert (front + [last])[|front|] == last;
  }

  lemma {:induction false} KeptPush(keys: seq<string>, front: seq<Entry>, last: Entry)
    requires DistinctKeys(front + [last])
    ensures Kept(keys, front + [last]) ==
      if last.value.Null? then Without(Kept(keys, front), last.key) else Kept(keys, front)
  {
    hide Find, DistinctKeys;
    if keys == [] {
    } else {
      var key := keys[|keys| - 1];
      KeptPush(keys[..|keys| - 1], front, last);
      FindPush(front, last, key);
      var one := if Find(front, key) == Some(Null) then [] else [key];
      WithoutConcat(Kept(keys[..|keys| - 1], front), one, last.key);
    }
  }

  lemma {:induction false} AddedAreMentioned(base: seq<Entry>, overlay: seq<Entry>, key: string)
    requires key in Added(base, overlay)
    ensures exists i :: 0 <= i < |overlay| && overlay[i].key == key
  {
    if overlay == [] {
    } else {
      var front, last := overlay[..|overlay| - 1], overlay[|overlay| - 1];
      if key in Added(base, front) {
        AddedAreMentioned(base, front, key);
        var i :| 0 <= i < |front| && front[i].key == key;
        assert overlay[i].key == key;
      }
    }
  }

  lemma MergeEntryKeys(merged: seq<Entry>, e: Entry)
    requires DistinctKeys(merged)
    ensures Keys(MergeEntry(merged, e)) ==
      if e.value.Null? then Without(Keys(merged), e.key)
      else Keys(merged) + (if Find(merged, e.key).Some? then [] else [e.key])
  {
    hide Find, Insert, ShiftRemove, DistinctKeys, Merged;
    if e.value.Null? {
      RemoveKeys(merged, e.key);
    } else {
      InsertKeys(merged, e.key, Merged(FindOrNull(merged, e.key), e.value));
    }
  }

  /** The base's keys keep their order, less those the overlay nulls; new keys follow in the overlay's
      order. */
  lemma {:induction false} KeysMerged(base: seq<Entry>, overlay: seq<Entry>)
    requires DistinctKeys(base) && DistinctKeys(overlay)
    ensures Keys(MergeEntries(base, overlay)) == Kept(Keys(base), overlay) + Added(base, overlay)
  {
    hide Find, MergeEntry;
    if overlay == [] {
      KeptAll(Keys(base));
    } else {
      var front, last := overlay[..|overlay| - 1], overlay[|overlay| - 1];
      assert overlay == front + [last];
      var merged := MergeEntries(base, front);
      KeysMerged(base, front);
      FindMerged(base, front, last.key);
      FindPush(front, last, last.key);
      MergeEntryKeys(merged, last);
      KeptPush(Keys(base), front, last);
      if last.value.Null? {
        WithoutConcat(Kept(Keys(base), front), Added(base, front), last.key);
        if last.key in Added(base, front) {
          AddedAreMentioned(base, front, last.key);
          FindIsThere(front, last.key);
          assert false;
        }
        WithoutAbsent(Added(base, front), last.key);
      }
    }
  }

  lemma {:induction false} KeptAll(keys: seq<string>)
    ensures Kept(keys, []) == keys
  {
    if keys == [] {
    } else {
      KeptAll(keys[..|keys| - 1]);
      assert keys == keys[..|keys| - 1] + [keys[|keys| - 1]];
    }
  }

  // ---- Idempotence ----

  /** Merging an entry finds its outcome already there. */
  predicate SaysWhatIsThere(merged: seq<Entry>, e: Entry) {
    var found := Find(merged, e.key);
    if e.value.Null? then found == None
    else found.Some? && Merged(found.value, e.value) == found.value
  }

  /** Merging the same overlay again changes nothing, not even an order, at any depth. */
  lemma {:induction false} MergeIsIdempotent(base: Value, overlay: Value)
    requires WellFormed(base) && WellFormed(overlay)
    ensures Merged(Merged(base, overlay), overlay) == Merged(base, overlay)
    decreases overlay
  {
    if !overlay.Mapping? {
    } else {
      var b, o := EntriesOf(base), overlay.entries;
      var r := MergeEntries(b, o);
      hide MergeEntries, Merged, Find, MergeEntry;
      assert DistinctKeys(r) by {
        FindMerged(b, o, "");
      }
      forall i | 0 <= i < |o|
        ensures SaysWhatIsThere(r, o[i])
      {
        FindIsThere(o, o[i].key);
        FindMerged(b, o, o[i].key);
        FoundIsWellFormed(b, o[i].key);
        if !o[i].value.Null? {
          MergeIsIdempotent(FindOrNull(b, o[i].key), o[i].value);
        }
      }
      NothingToMerge(r, o);
      MergedMapping(base, overlay);
      MergedMapping(Mapping(r), overlay);
    }
  }

  lemma MergedMapping(base: Value, overlay: Value)
    ensures overlay.Mapping? ==> Merged(base, overlay) == Mapping(MergeEntries(EntriesOf(base), overlay.entries))
  {}

  lemma {:induction false} FoundIsWellFormed(entries: seq<Entry>, key: string)
    requires forall i :: 0 <= i < |entries| ==> WellFormed(entries[i].value)
    ensures WellFormed(FindOrNull(entries, key))
  {
    if entries == [] {
    } else {
      assert WellFormed(entries[0].value);
      FoundIsWellFormed(entries[1..], key);
    }
  }

  lemma {:induction false} NothingToMerge(r: seq<Entry>, overlay: seq<Entry>)
    requires DistinctKeys(r)
    requires forall i :: 0 <= i < |overlay| ==> SaysWhatIsThere(r, overlay[i])
    ensures MergeEntries(r, overlay) == r
  {
    hide Find, Merged;
    if overlay == [] {
    } else {
      var front, last := overlay[..|overlay| - 1], overlay[|overlay| - 1];
      assert forall i :: 0 <= i < |front| ==> front[i] == overlay[i];
      NothingToMerge(r, front);
      if last.value.Null? {
        RemoveAbsent(r, last.key);
      } else {
        InsertSame(r, last.key);
      }
    }
  }

  lemma {:induction false} RemoveAbsent(entries: seq<Entry>, key: string)
    requires Find(entries, key) == None
    ensures ShiftRemove(entries, key) == entries
  {
    if entries == [] {
    } else {
      RemoveAbsent(entries[1..], key);
    }
  }

  lemma {:induction false} InsertSame(entries: seq<Entry>, key: string)
    requires Find(entries, key).Some?
    ensures Insert(entries, key, Find(entries, key).value) == entries
  {
    if entries[0].key == key {
    } else {
      InsertSame(entries[1..], key);
    }
  }

  // ---- The unordered meaning ----

  function Abs(v: Value): Json
    decreases v, 1
  {
    match v
    case Null => JNull
    case Text(text) => JText(text)
    case Scalar(repr) => JScalar(repr)
    case Sequence(items) => JArray(seq(|items|, i requires 0 <= i < |items| => Abs(items[i])))
    case Mapping(entries) => JObject(AbsEntries(entries))
  }

  function AbsEntries(entries: seq<Entry>): map<string, Json>
    decreases entries, 0
  {
    if entries == [] then map[]
    else AbsEntries(entries[1..])[entries[0].key := Abs(entries[0].value)]
  }

  lemma {:induction false} AbsFinds(entries: seq<Entry>, key: string)
    ensures key in AbsEntries(entries) <==> Find(entries, key).Some?
    ensures key in AbsEntries(entries) ==> AbsEntries(entries)[key] == Abs(Find(entries, key).value)
  {
    if entries == [] {
    } else {
      AbsFinds(entries[1..], key);
    }
  }

  /** The ordered merge is JSON Merge Patch on keys and values. */
  lemma {:induction false} MergeRefinesPatch(base: Value, overlay: Value)
    requires WellFormed(base) && WellFormed(overlay)
    ensures Abs(Merged(base, overlay)) == MergePatch(Abs(base), Abs(overlay))
    decreases overlay
  {
    if !overlay.Mapping? {
    } else {
      var b, o := EntriesOf(base), overlay.entries;
      var r := MergeEntries(b, o);
      MergedMapping(base, overlay);
      var patched := MergePatch(Abs(base), Abs(overlay));
      assert MembersOf(Abs(base)) == AbsEntries(b);
      hide MergeEntries, Merged, Find, MergeEntry;
      forall key
        ensures key in AbsEntries(r) <==> key in patched.members
        ensures key in AbsEntries(r) ==> AbsEntries(r)[key] == patched.members[key]
      {
        AbsFinds(r, key);
        AbsFinds(b, key);
        AbsFinds(o, key);
        FindMerged(b, o, key);
        if Find(o, key).Some? {
          FoundIsThere(o, key);
          FoundIsWellFormed(o, key);
          FoundIsWellFormed(b, key);
          MergeRefinesPatch(FindOrNull(b, key), Find(o, key).value);
        }
      }
      assert AbsEntries(r) == patched.members;
    }
  }

  lemma {:induction false} FoundIsThere(entries: seq<Entry>, key: string)
    requires Find(entries, key).Some?
    ensures exists i :: 0 <= i < |entries| && entries[i].value == Find(entries, key).value
  {
    if entries[0].key != key {
      FoundIsThere(entries[1..], key);
      var i :| 0 <= i < |entries[1..]| && entries[1..][i].value == Find(entries[1..], key).value;
      assert entries[i + 1].value == Find(entries, key).value;
    } else {
      assert entries[0].value == Find(entries, key).value;
    }
  }

  // ---- Well-formedness ----

  lemma {:induction false} MergedIsWellFormed(base: Value, overlay: Value)
    requires WellFormed(base) && WellFormed(overlay)
    ensures WellFormed(Merged(base, overlay))
    decreases overlay
  {
    if !overlay.Mapping? {
    } else {
      var b, o := EntriesOf(base), overlay.entries;
      var r := MergeEntries(b, o);
      MergedMapping(base, overlay);
      hide MergeEntries, Merged, Find, MergeEntry;
      assert DistinctKeys(r) by {
        FindMerged(b, o, "");
      }
      forall i | 0 <= i < |r| ensures WellFormed(r[i].value) {
        var key := r[i].key;
        FindIsThere(r, key);
        FindMerged(b, o, key);
        FoundIsWellFormed(b, key);
        FoundIsWellFormed(o, key);
        if Find(o, key).Some? {
          FoundIsThere(o, key);
          MergedIsWellFormed(FindOrNull(b, key), Find(o, key).value);
        }
      }
    }
  }

  // ---- Documents ----

  const PATCH_KEY := "$patch"

  /** What a document holds under a key, when that is text. */
  function TextAt(document: Value, key: string): Option<string> {
    if !document.Mapping? then None
    else
      var found := Find(document.entries, key);
      if found.Some? && found.value.Text? then Some(found.value.text) else None
  }

  predicate IsDeletion(document: Value) {
    TextAt(document, PATCH_KEY) == Some("delete")
  }

  /** The document is a mapping that holds this text under the key. */
  ghost predicate Holds(document: Value, key: string, text: string) {
    document.Mapping? && Entry(key, Text(text)) in document.entries
  }

  ghost predicate Mentions(document: Value, key: string) {
    document.Mapping? && exists e :: e in document.entries && e.key == key
  }

  lemma TextAtIff(document: Value, key: string, text: string)
    requires WellFormed(document)
    ensures TextAt(document, key) == Some(text) <==> Holds(document, key, text)
  {
    if document.Mapping? {
      FindIsThere(document.entries, key);
    }
  }

  /** A deletion is a document that says "delete" under "$patch". */
  lemma DeletionMeans(document: Value)
    requires WellFormed(document)
    ensures IsDeletion(document) <==> Holds(document, "$patch", "delete")
  {
    TextAtIff(document, "$patch", "delete");
  }

  lemma NotMentionedNotFound(document: Value, key: string)
    requires document.Mapping?
    ensures Mentions(document, key) <==> Find(document.entries, key).Some?
  {
    FindIsThere(document.entries, key);
    hide Find;
  }

  function MergedDocument(base: Value, overlay: Value): Value {
    if IsDeletion(overlay) || IsDeletion(base) then overlay else Merged(base, overlay)
  }

  method MergeDocument(base: Value, overlay: Value) returns (r: Value)
    ensures r == MergedDocument(base, overlay)
  {
    if IsDeletion(overlay) || IsDeletion(base) {
      return overlay;
    }
    r := Merge(base, overlay);
  }

  lemma MergedDocumentIsWellFormed(base: Value, overlay: Value)
    requires WellFormed(base) && WellFormed(overlay)
    ensures WellFormed(MergedDocument(base, overlay))
  {
    MergedIsWellFormed(base, overlay);
  }

  /** Text both documents hold under a key is still there after the merge, and where neither holds text
      there is still none. */
  lemma MergeKeepsText(base: Value, overlay: Value, key: string)
    requires WellFormed(base) && WellFormed(overlay)
    requires base.Mapping? && overlay.Mapping?
    requires TextAt(base, key) == TextAt(overlay, key)
    ensures MergedDocument(base, overlay).Mapping?
    ensures TextAt(MergedDocument(base, overlay), key) == TextAt(base, key)
  {
    FindMerged(base.entries, overlay.entries, key);
  }

  /** Text the overlay holds is held by the result. */
  lemma OverlayTextWins(base: Value, overlay: Value, key: string)
    requires WellFormed(base) && WellFormed(overlay) && overlay.Mapping? && TextAt(overlay, key).Some?
    ensures TextAt(MergedDocument(base, overlay), key) == TextAt(overlay, key)
  {
    MergedMapping(base, overlay);
    FindMerged(EntriesOf(base), overlay.entries, key);
    hide MergeEntries, IsDeletion;
  }

  /** Text of a key the overlay does not mention stays. */
  lemma UnmentionedTextStays(base: Value, overlay: Value, key: string)
    requires WellFormed(base) && WellFormed(overlay) && base.Mapping? && overlay.Mapping? && !Mentions(overlay, key)
    requires !IsDeletion(base) && !IsDeletion(overlay)
    ensures TextAt(MergedDocument(base, overlay), key) == TextAt(base, key)
  {
    NotMentionedNotFound(overlay, key);
    MergedMapping(base, overlay);
    FindMerged(base.entries, overlay.entries, key);
    hide MergeEntries, IsDeletion;
  }

  /** The merge of two edits is an edit. */
  lemma MergedIsNoDeletion(base: Value, overlay: Value)
    requires WellFormed(base) && WellFormed(overlay)
    requires !IsDeletion(base) && !IsDeletion(overlay)
    ensures !IsDeletion(Merged(base, overlay))
  {
    if overlay.Mapping? {
      MergedMapping(base, overlay);
      FindMerged(EntriesOf(base), overlay.entries, PATCH_KEY);
      hide MergeEntries;
    }
  }
}
