/** Which value a key has in a block mapping with `<<` entries. */
module YamlMerge {
  import opened Wrappers
  import opened YamlScan
  import opened YamlBlock

  /** An entry as the parser meets it. */
  datatype Met = Met(key: string, value: Value, no: nat)

  /** The entries of the mapping at `lines` with their parsed values, as far as they parse. */
  function Entries(lines: seq<Line>, indent: nat, anchors: Anchors): seq<Met>
    decreases |lines|
  {
    var r := SkipBlank(lines);
    if r == [] || IsMarker(r[0].text) || r[0].indent != indent then []
    else
      match SplitKey(r[0].text, r[0].no)
      case Ok(Some((key, text))) =>
        (match ParseValueAfterKey(text, indent, r[0].no, r[1..], anchors)
         case Ok(out) => [Met(key, out.value, r[0].no)] + Entries(out.rest, indent, out.anchors)
         case Err(_) => [])
      case _ => []
  }

  /** `own` and `merged` after all entries. */
  function AddEntries(mets: seq<Met>, own: map<string, Value>, merged: map<string, Value>)
    : Result<(map<string, Value>, map<string, Value>), Error>
    decreases |mets|
  {
    if mets == [] then Ok((own, merged))
    else
      var fields :- AddEntry(mets[0].key, mets[0].value, own, merged, mets[0].no);
      AddEntries(mets[1..], fields.0, fields.1)
  }

  function Lookup(m: map<string, Value>, k: string): Option<Value> {
    if k in m then Some(m[k]) else None
  }

  function Or(a: Option<Value>, b: Option<Value>): Option<Value> {
    if a.Some? then a else b
  }

  /** The last explicit value of the key. */
  function Explicit(mets: seq<Met>, k: string): Option<Value> {
    if mets == [] then None
    else Or(Explicit(mets[1..], k), if mets[0].key != "<<" && mets[0].key == k then Some(mets[0].value) else None)
  }

  /** The mappings that a `<<` entry names. */
  function Sources(value: Value): seq<Value> {
    match value
    case Object(_) => [value]
    case Array(items) => items
    case _ => []
  }

  /** The value of the key in the first source that has it. */
  function FirstIn(sources: seq<Value>, k: string): Option<Value> {
    if sources == [] then None
    else Or(if sources[0].Object? then Lookup(sources[0].fields, k) else None, FirstIn(sources[1..], k))
  }

  /** The same over all `<<` entries. */
  function Merged(mets: seq<Met>, k: string): Option<Value> {
    if mets == [] then None
    else Or(if mets[0].key == "<<" then FirstIn(Sources(mets[0].value), k) else None, Merged(mets[1..], k))
  }

  /** A source that is merged overrides nothing that is there. */
  lemma {:induction false} SourcesAddUp(sources: seq<Value>, merged: map<string, Value>, no: nat, k: string)
    requires MergeSources(sources, merged, no).Ok?
    ensures Lookup(MergeSources(sources, merged, no).value, k) == Or(Lookup(merged, k), FirstIn(sources, k))
    decreases |sources|
  {
    if sources == [] {
    } else {
      SourcesAddUp(sources[1..], sources[0].fields + merged, no, k);
    }
  }

  lemma EntryAddsUp(met: Met, own: map<string, Value>, merged: map<string, Value>, k: string)
    requires AddEntry(met.key, met.value, own, merged, met.no).Ok?
    ensures var fields := AddEntry(met.key, met.value, own, merged, met.no).value;
      && Lookup(fields.0, k) == (if met.key != "<<" && met.key == k then Some(met.value) else Lookup(own, k))
      && Lookup(fields.1, k)
         == Or(Lookup(merged, k), if met.key == "<<" then FirstIn(Sources(met.value), k) else None)
  {
    if met.key == "<<" {
      match met.value
      case Object(m) =>
        var sources := Sources(met.value);
        assert sources[0] == met.value && sources[1..] == [];
        assert FirstIn(sources[1..], k) == None;
      case Array(items) => SourcesAddUp(items, merged, met.no, k);
      case _ =>
    }
  }

  lemma {:induction false} EntriesAddUp(mets: seq<Met>, own: map<string, Value>, merged: map<string, Value>, k: string)
    requires AddEntries(mets, own, merged).Ok?
    ensures var fields := AddEntries(mets, own, merged).value;
      && Lookup(fields.0, k) == Or(Explicit(mets, k), Lookup(own, k))
      && Lookup(fields.1, k) == Or(Lookup(merged, k), Merged(mets, k))
    decreases |mets|
  {
    if mets == [] {
    } else {
      hide AddEntry, FirstIn, Sources;
      EntryAddsUp(mets[0], own, merged, k);
      var fields := AddEntry(mets[0].key, mets[0].value, own, merged, mets[0].no).value;
      EntriesAddUp(mets[1..], fields.0, fields.1, k);
    }
  }

  /** A block mapping is what its entries add up to. */
  lemma {:induction false} EntriesMet(
    lines: seq<Line>, indent: nat, own: map<string, Value>, merged: map<string, Value>, anchors: Anchors)
    requires ParseEntries(lines, indent, own, merged, anchors).Ok?
    ensures AddEntries(Entries(lines, indent, anchors), own, merged).Ok?
    ensures var fields := AddEntries(Entries(lines, indent, anchors), own, merged).value;
      ParseEntries(lines, indent, own, merged, anchors).value.value == Object(fields.1 + fields.0)
    decreases |lines|
  {
    hide ParseValueAfterKey, SplitKey, AddEntry, SkipBlank;
    var r := SkipBlank(lines);
    if !(r == [] || IsMarker(r[0].text) || r[0].indent < indent) {
      var entry := SplitKey(r[0].text, r[0].no).value.value;
      var value := ParseValueAfterKey(entry.1, indent, r[0].no, r[1..], anchors).value;
      var fields := AddEntry(entry.0, value.value, own, merged, r[0].no).value;
      EntriesMet(value.rest, indent, fields.0, fields.1, value.anchors);
      var met := Met(entry.0, value.value, r[0].no);
      var rest := Entries(value.rest, indent, value.anchors);
      assert Entries(lines, indent, anchors) == [met] + rest;
      assert ([met] + rest)[1..] == rest;
    }
  }

  /**
   In every mapping that parses, a key has its last explicit value, and
   without one its value in the first merge source that has it.
   */
  lemma MergePriority(lines: seq<Line>, indent: nat, anchors: Anchors, k: string)
    ensures var r, entries := ParseEntries(lines, indent, map[], map[], anchors), Entries(lines, indent, anchors);
      r.Ok? ==> r.value.value.Object? && Lookup(r.value.value.fields, k) == Or(Explicit(entries, k), Merged(entries, k))
  {
    hide ParseEntries, AddEntries, Explicit, Merged, Entries;
    if ParseEntries(lines, indent, map[], map[], anchors).Ok? {
      EntriesMet(lines, indent, map[], map[], anchors);
      EntriesAddUp(Entries(lines, indent, anchors), map[], map[], k);
    }
  }

  // ---- the object meant -----------------------------------------------

  /** What a `<<` entry accepts: a mapping, or a list of mappings. */
  predicate AreMappings(value: Value) {
    value.Object? || (value.Array? && forall i | 0 <= i < |value.items| :: value.items[i].Object?)
  }

  function SourceKeys(sources: seq<Value>): set<string> {
    if sources == [] then {}
    else (if sources[0].Object? then sources[0].fields.Keys else {}) + SourceKeys(sources[1..])
  }

  /** The keys of the entries and of all that is merged. */
  function MetKeys(mets: seq<Met>): set<string> {
    if mets == [] then {}
    else (if mets[0].key == "<<" then SourceKeys(Sources(mets[0].value)) else {mets[0].key}) + MetKeys(mets[1..])
  }

  /** Each key with its last explicit value or the first that is merged. */
  function FieldsOf(mets: seq<Met>): map<string, Value> {
    map k | k in MetKeys(mets) && Or(Explicit(mets, k), Merged(mets, k)).Some? :: Or(Explicit(mets, k), Merged(mets, k)).value
  }

  lemma {:induction false} FirstInKeys(sources: seq<Value>, k: string)
    ensures FirstIn(sources, k).Some? ==> k in SourceKeys(sources)
  {
    if sources == [] {
    } else {
      FirstInKeys(sources[1..], k);
    }
  }

  lemma {:induction false} MetInKeys(mets: seq<Met>, k: string)
    ensures Explicit(mets, k).Some? || Merged(mets, k).Some? ==> k in MetKeys(mets)
  {
    if mets == [] {
    } else {
      MetInKeys(mets[1..], k);
      FirstInKeys(Sources(mets[0].value), k);
    }
  }

  /** Without merge keys, and with distinct ones, the object holds exactly the entries. */
  lemma {:induction false} DistinctEntries(mets: seq<Met>, k: string)
    requires forall i | 0 <= i < |mets| :: mets[i].key != "<<"
    requires forall i, j | 0 <= i < j < |mets| :: mets[i].key != mets[j].key
    ensures forall i | 0 <= i < |mets| && mets[i].key == k :: Lookup(FieldsOf(mets), k) == Some(mets[i].value)
    ensures (forall i | 0 <= i < |mets| :: mets[i].key != k) ==> Lookup(FieldsOf(mets), k) == None
  {
    MetInKeys(mets, k);
    OnlyExplicit(mets, k);
  }

  lemma {:induction false} OnlyExplicit(mets: seq<Met>, k: string)
    requires forall i | 0 <= i < |mets| :: mets[i].key != "<<"
    requires forall i, j | 0 <= i < j < |mets| :: mets[i].key != mets[j].key
    ensures Merged(mets, k) == None
    ensures forall i | 0 <= i < |mets| && mets[i].key == k :: Explicit(mets, k) == Some(mets[i].value)
    ensures (forall i | 0 <= i < |mets| :: mets[i].key != k) ==> Explicit(mets, k) == None
  {
    if mets == [] {
    } else {
      var rest := mets[1..];
      assert forall i | 0 <= i < |rest| :: rest[i] == mets[i + 1];
      OnlyExplicit(rest, k);
      forall i | 0 <= i < |mets| && mets[i].key == k
        ensures Explicit(mets, k) == Some(mets[i].value)
      {
        if i > 0 {
          assert rest[i - 1] == mets[i];
        }
      }
    }
  }

  /** Where every merge key is given mappings, the entries add up to that object. */
  lemma FieldsAddUp(mets: seq<Met>)
    requires AddEntries(mets, map[], map[]).Ok?
    ensures var fields := AddEntries(mets, map[], map[]).value; fields.1 + fields.0 == FieldsOf(mets)
  {
    hide AddEntries, Explicit, Merged, MetKeys;
    var fields := AddEntries(mets, map[], map[]).value;
    forall k
      ensures Lookup(fields.1 + fields.0, k) == Lookup(FieldsOf(mets), k)
    {
      EntriesAddUp(mets, map[], map[], k);
      MetInKeys(mets, k);
    }
    assert forall k | k in fields.1 + fields.0 :: Lookup(fields.1 + fields.0, k) == Lookup(FieldsOf(mets), k);
    assert forall k | k in FieldsOf(mets) :: Lookup(fields.1 + fields.0, k) == Lookup(FieldsOf(mets), k);
  }

  lemma {:induction false} SourcesMerge(sources: seq<Value>, merged: map<string, Value>, no: nat)
    requires forall i | 0 <= i < |sources| :: sources[i].Object?
    ensures MergeSources(sources, merged, no).Ok?
    ensures forall other :: MergeSources(sources, merged, other) == MergeSources(sources, merged, no)
    decreases |sources|
  {
    if sources == [] {
    } else {
      SourcesMerge(sources[1..], sources[0].fields + merged, no);
    }
  }

  /** The line number matters for errors only. */
  lemma EntryAdds(key: string, value: Value, own: map<string, Value>, merged: map<string, Value>, no: nat, other: nat)
    requires key == "<<" ==> AreMappings(value)
    ensures AddEntry(key, value, own, merged, no).Ok?
    ensures AddEntry(key, value, own, merged, other) == AddEntry(key, value, own, merged, no)
  {
    if key == "<<" && value.Array? {
      SourcesMerge(value.items, merged, no);
    }
  }
}
