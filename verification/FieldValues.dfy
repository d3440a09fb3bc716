/**
 * The values that extraction yields (src/util.rs, src/xml/extract.rs): aggregation per key,
 * one field, all fields with the one-entry cache of parsed sources, and what is read back
 * from them (src/model/extract.rs).
 */
module FieldValues {
  import opened Prelude
  import opened XmlEvents
  import opened XmlDom
  import opened XmlSpans
  import opened Coverage
  import opened Extraction

  datatype Value = Null | Str(text: string) | Array(items: seq<Value>) | Object(entries: Entries)

  datatype Entry = Entry(key: string, value: Value)

  type Entries = seq<Entry>

  // ----- first-seen lists

  function AddNew(seen: seq<string>, s: string): seq<string> {
    if s in seen then seen else seen + [s]
  }

  /** `uniq`: each string where it is first seen. */
  function Uniq(items: seq<string>): seq<string> {
    if items == [] then [] else AddNew(Uniq(items[..|items| - 1]), items[|items| - 1])
  }

  method UniqueStrings(items: seq<string>) returns (seen: seq<string>)
    ensures seen == Uniq(items)
  {
    seen := [];
    for i := 0 to |items|
      invariant seen == Uniq(items[..i])
    {
      assert items[..i + 1][..i] == items[..i];
      if items[i] !in seen {
        seen := seen + [items[i]];
      }
    }
    assert items[..|items|] == items;
  }

  /** The list holds the same strings, each once. */
  lemma {:induction false} UniqKeepsEachOnce(items: seq<string>)
    ensures forall s :: s in Uniq(items) <==> s in items
    ensures forall i, j :: 0 <= i < j < |Uniq(items)| ==> Uniq(items)[i] != Uniq(items)[j]
  {
    if items != [] {
      var before, last := items[..|items| - 1], items[|items| - 1];
      UniqKeepsEachOnce(before);
      assert items == before + [last];
      if last !in before {
        assert Uniq(items) == Uniq(before) + [last];
      }
    }
  }

  // ----- aggregation

  /** A second value for a key makes its entry a list; to a list it is appended. */
  function Merge(existing: Value, value: Value): Value {
    if existing.Array? then Array(existing.items + [value]) else Array([existing, value])
  }

  function AddEntry(entries: Entries, key: string, value: Value): Entries {
    if entries == [] then [Entry(key, value)]
    else if entries[0].key == key then [Entry(key, Merge(entries[0].value, value))] + entries[1..]
    else [entries[0]] + AddEntry(entries[1..], key, value)
  }

  function Zipped(keys: seq<string>, values: seq<Value>, count: nat): Entries
    requires count <= |keys| && count <= |values|
  {
    if count == 0 then [] else AddEntry(Zipped(keys, values, count - 1), keys[count - 1], values[count - 1])
  }

  function Shorter(a: nat, b: nat): nat {
    if a < b then a else b
  }

  /** Index of the first entry with a key. */
  function FindEntry(entries: Entries, key: string): (r: Option<nat>)
    ensures r.Some? ==> r.value < |entries| && entries[r.value].key == key
    ensures r.Some? ==> forall k :: 0 <= k < r.value && k < |entries| ==> entries[k].key != key
    ensures r.None? ==> forall k :: 0 <= k < |entries| ==> entries[k].key != key
  {
    if entries == [] then None
    else if entries[0].key == key then Some(0)
    else
      match FindEntry(entries[1..], key)
      case None => assert forall k :: 1 <= k < |entries| ==> entries[k] == entries[1..][k - 1]; None
      case Some(i) => assert forall k :: 1 <= k < |entries| ==> entries[k] == entries[1..][k - 1]; Some(i + 1)
  }

  lemma {:induction false} AddEntryAt(entries: Entries, key: string, value: Value)
    ensures AddEntry(entries, key, value)
         == match FindEntry(entries, key)
            case None => entries + [Entry(key, value)]
            case Some(i) => entries[i := Entry(key, Merge(entries[i].value, value))]
  {
    hide Merge;
    if entries != [] && entries[0].key != key {
      var rest := entries[1..];
      AddEntryAt(rest, key, value);
      assert entries == [entries[0]] + rest;
      match FindEntry(rest, key)
      case None => Associate([entries[0]], rest, [Entry(key, value)]);
      case Some(i) => UpdateAfterFirst(entries[0], rest, i, Entry(key, Merge(rest[i].value, value)));
    }
  }

  lemma UpdateAfterFirst(first: Entry, rest: Entries, i: nat, e: Entry)
    requires i < |rest|
    ensures [first] + rest[i := e] == ([first] + rest)[i + 1 := e]
  {
  }

  /** `zip_object`, where duplicate keys are kept. */
  method ZipObject(keys: seq<string>, values: seq<Value>) returns (zipped: Value)
    ensures zipped == Object(Zipped(keys, values, Shorter(|keys|, |values|)))
  {
    var out: Entries := [];
    for i := 0 to Shorter(|keys|, |values|)
      invariant out == Zipped(keys, values, i)
    {
      AddEntryAt(out, keys[i], values[i]);
      var slot := FindEntry(out, keys[i]);
      if slot.Some? {
        var existing := out[slot.value].value;
        if existing.Array? {
          out := out[slot.value := Entry(keys[i], Array(existing.items + [values[i]]))];
        } else {
          out := out[slot.value := Entry(keys[i], Array([existing, values[i]]))];
        }
      } else {
        out := out + [Entry(keys[i], values[i])];
      }
    }
    zipped := Object(out);
  }

  /** The strings in a value, in order. */
  function Leaves(v: Value): seq<string> {
    match v
    case Null => []
    case Str(text) => [text]
    case Array(items) => LeavesOf(items)
    case Object(entries) => LeavesIn(entries)
  }

  function LeavesOf(items: seq<Value>): seq<string> {
    if items == [] then [] else Leaves(items[0]) + LeavesOf(items[1..])
  }

  function LeavesIn(entries: Entries): seq<string> {
    if entries == [] then [] else Leaves(entries[0].value) + LeavesIn(entries[1..])
  }

  function EntryLeaves(entries: Entries, key: string): seq<string> {
    if entries == [] then []
    else (if entries[0].key == key then Leaves(entries[0].value) else []) + EntryLeaves(entries[1..], key)
  }

  /** The strings of all values given for a key, in the order given. */
  function GivenLeaves(keys: seq<string>, values: seq<Value>, count: nat, key: string): seq<string>
    requires count <= |keys| && count <= |values|
  {
    if count == 0 then []
    else GivenLeaves(keys, values, count - 1, key) + (if keys[count - 1] == key then Leaves(values[count - 1]) else [])
  }

  function Keys(entries: Entries): seq<string> {
    if entries == [] then [] else [entries[0].key] + Keys(entries[1..])
  }

  lemma {:induction false} LeavesOfSnoc(items: seq<Value>, v: Value)
    ensures LeavesOf(items + [v]) == LeavesOf(items) + Leaves(v)
  {
    hide Leaves;
    if items == [] {
      assert ([] + [v])[1..] == [] && ([] + [v])[0] == v;
      NothingAfter(Leaves(v));
      NothingBefore(Leaves(v));
    } else {
      ConsConcat(items, [v]);
      LeavesOfSnoc(items[1..], v);
      Associate(Leaves(items[0]), LeavesOf(items[1..]), Leaves(v));
    }
  }

  lemma MergeKeepsLeaves(existing: Value, value: Value)
    ensures Leaves(Merge(existing, value)) == Leaves(existing) + Leaves(value)
  {
    if existing.Array? {
      LeavesOfSnoc(existing.items, value);
    } else {
      LeavesOfSnoc([], existing);
      LeavesOfSnoc([existing], value);
      assert [] + [existing] == [existing] && [existing] + [value] == [existing, value];
      NothingBefore(Leaves(existing));
    }
  }

  predicate DistinctEntries(entries: Entries) {
    forall i, j :: 0 <= i < j < |entries| ==> entries[i].key != entries[j].key
  }

  lemma {:induction false} AbsentKeyHasNoLeaves(entries: Entries, key: string)
    requires forall i :: 0 <= i < |entries| ==> entries[i].key != key
    ensures EntryLeaves(entries, key) == [] && key !in Keys(entries)
  {
    if entries != [] {
      assert forall i :: 1 <= i < |entries| ==> entries[i] == entries[1..][i - 1];
      AbsentKeyHasNoLeaves(entries[1..], key);
    }
  }

  lemma DistinctTail(entries: Entries)
    requires DistinctEntries(entries) && entries != []
    ensures DistinctEntries(entries[1..])
    ensures forall i :: 0 <= i < |entries[1..]| ==> entries[1..][i].key != entries[0].key
  {
    var rest := entries[1..];
    assert forall i :: 0 <= i < |rest| ==> rest[i] == entries[i + 1];
  }

  lemma {:induction false} KeysMembers(entries: Entries, key: string)
    ensures key in Keys(entries) <==> exists i :: 0 <= i < |entries| && entries[i].key == key
  {
    if entries != [] {
      KeysMembers(entries[1..], key);
      assert forall i :: 1 <= i < |entries| ==> entries[i] == entries[1..][i - 1];
      if key in Keys(entries[1..]) {
        var i :| 0 <= i < |entries[1..]| && entries[1..][i].key == key;
        assert entries[i + 1].key == key;
      }
    }
  }

  /** Adding an entry appends its strings under its key, and the key if it is new. */
  lemma {:induction false} AddEntryKeepsLeaves(entries: Entries, key: string, value: Value, other: string)
    requires DistinctEntries(entries)
    ensures DistinctEntries(AddEntry(entries, key, value))
    ensures EntryLeaves(AddEntry(entries, key, value), other)
         == EntryLeaves(entries, other) + (if key == other then Leaves(value) else [])
    ensures Keys(AddEntry(entries, key, value)) == AddNew(Keys(entries), key)
  {
    hide Leaves, Merge;
    if entries == [] {
      NothingAfter(if key == other then Leaves(value) else []);
      NothingBefore(if key == other then Leaves(value) else []);
    } else {
      var first, rest := entries[0], entries[1..];
      DistinctTail(entries);
      var own := if first.key == other then Leaves(first.value) else [];
      if first.key == key {
        MergeKeepsLeaves(first.value, value);
        HeadReplaced(entries, key, Merge(first.value, value));
        if key == other {
          AbsentKeyHasNoLeaves(rest, key);
          NothingAfter(Leaves(first.value));
          NothingAfter(Leaves(first.value) + Leaves(value));
        } else {
          NothingAfter(EntryLeaves(entries, other));
        }
      } else {
        AddEntryKeepsLeaves(rest, key, value, other);
        AddedKeysAreDistinct(first, rest, key, value);
        var added := AddEntry(rest, key, value);
        assert ([first] + added)[1..] == added;
        Associate(own, EntryLeaves(rest, other), if key == other then Leaves(value) else []);
        assert [first.key] + AddNew(Keys(rest), key) == AddNew([first.key] + Keys(rest), key);
      }
    }
  }

  lemma HeadReplaced(entries: Entries, key: string, merged: Value)
    requires entries != [] && entries[0].key == key && DistinctEntries(entries)
    ensures var replaced := [Entry(key, merged)] + entries[1..];
            replaced[1..] == entries[1..] && DistinctEntries(replaced) && Keys(replaced) == Keys(entries)
  {
    var replaced := [Entry(key, merged)] + entries[1..];
    assert forall i :: 0 <= i < |entries| ==> replaced[i].key == entries[i].key;
  }

  lemma AddedKeysAreDistinct(first: Entry, rest: Entries, key: string, value: Value)
    requires DistinctEntries(AddEntry(rest, key, value)) && first.key != key
    requires forall i :: 0 <= i < |rest| ==> rest[i].key != first.key
    ensures DistinctEntries([first] + AddEntry(rest, key, value))
  {
    hide AddEntry, Merge;
    AddEntryAt(rest, key, value);
    var added := AddEntry(rest, key, value);
    forall i | 0 <= i < |added|
      ensures added[i].key != first.key
    {
      if i == |rest| {
        assert added[i] == Entry(key, value);
      }
    }
    DistinctWithFirst(first, added);
  }

  lemma DistinctWithFirst(first: Entry, added: Entries)
    requires DistinctEntries(added) && forall i :: 0 <= i < |added| ==> added[i].key != first.key
    ensures DistinctEntries([first] + added)
  {
    var all := [first] + added;
    assert forall i :: 1 <= i < |all| ==> all[i] == added[i - 1];
  }

  /**
   * Aggregation loses and invents nothing: every key holds exactly the strings given for it,
   * in the order given, and keys stand in the order in which they were first seen.
   */
  lemma {:induction false} AggregationConservesLeaves(keys: seq<string>, values: seq<Value>, count: nat, key: string)
    requires count <= |keys| && count <= |values|
    ensures DistinctEntries(Zipped(keys, values, count))
    ensures EntryLeaves(Zipped(keys, values, count), key) == GivenLeaves(keys, values, count, key)
    ensures Keys(Zipped(keys, values, count)) == Uniq(keys[..count])
  {
    hide Leaves;
    if count == 0 {
      assert keys[..0] == [];
    } else {
      AggregationConservesLeaves(keys, values, count - 1, key);
      AddEntryKeepsLeaves(Zipped(keys, values, count - 1), keys[count - 1], values[count - 1], key);
      assert keys[..count][..count - 1] == keys[..count - 1];
    }
  }

  // ----- one field

  datatype LocalPath = Single(path: Path) | Multi(paths: seq<Path>)

  datatype Field = Field(
    key: string,
    localPath: LocalPath,
    attributes: seq<string>,
    index: Option<seq<string>>,
    attributePath: Option<Path>,
    context: bool,
    shortcut: Option<string>)

  function OneOrArray(values: seq<Value>): Value {
    if |values| == 1 then values[0] else Array(values)
  }

  function Strs(texts: seq<string>): seq<Value> {
    if texts == [] then [] else [Str(texts[0])] + Strs(texts[1..])
  }

  function Texts(nodes: seq<Node>): seq<string> {
    if nodes == [] then [] else [nodes[0].text] + Texts(nodes[1..])
  }

  function AttributeTexts(nodes: seq<Node>, name: string): seq<string> {
    if nodes == [] then []
    else (if Attr(nodes[0], name).Some? then [Attr(nodes[0], name).value] else []) + AttributeTexts(nodes[1..], name)
  }

  /** The strings that one indexed node contributes. */
  function Targets(n: Node, attributePath: Path, attributes: seq<string>): seq<string> {
    var targets := Below([n], attributePath);
    if attributes == [] then Texts(targets) else AttributeTexts(targets, attributes[0])
  }

  function KeyOf(n: Node, index: seq<string>): string {
    var key := Attr(n, if index == [] then "" else index[0]);
    if key.Some? then key.value else ""
  }

  function KeysOf(nodes: seq<Node>, index: seq<string>): seq<string> {
    if nodes == [] then [] else [KeyOf(nodes[0], index)] + KeysOf(nodes[1..], index)
  }

  function TargetValues(nodes: seq<Node>, attributePath: Path, attributes: seq<string>): seq<Value> {
    if nodes == [] then []
    else
      var first := OneOrArray(Strs(Targets(nodes[0], attributePath, attributes)));
      [first] + TargetValues(nodes[1..], attributePath, attributes)
  }

  function Aggregated(nodes: seq<Node>, index: seq<string>, attributePath: Path, attributes: seq<string>): Value {
    var keys, values := KeysOf(nodes, index), TargetValues(nodes, attributePath, attributes);
    Object(Zipped(keys, values, Shorter(|keys|, |values|)))
  }

  lemma {:induction false} KeysOfSnoc(nodes: seq<Node>, n: Node, index: seq<string>)
    ensures KeysOf(nodes + [n], index) == KeysOf(nodes, index) + [KeyOf(n, index)]
  {
    hide KeyOf;
    if nodes == [] {
      assert ([] + [n])[1..] == [];
    } else {
      ConsConcat(nodes, [n]);
      KeysOfSnoc(nodes[1..], n, index);
    }
  }

  lemma {:induction false} TargetValuesSnoc(nodes: seq<Node>, n: Node, attributePath: Path, attributes: seq<string>)
    ensures TargetValues(nodes + [n], attributePath, attributes)
         == TargetValues(nodes, attributePath, attributes) + [OneOrArray(Strs(Targets(n, attributePath, attributes)))]
  {
    hide OneOrArray, Targets;
    if nodes == [] {
      assert ([] + [n])[1..] == [];
    } else {
      ConsConcat(nodes, [n]);
      TargetValuesSnoc(nodes[1..], n, attributePath, attributes);
    }
  }

  /** `aggregate`. */
  method Aggregate(nodes: seq<Node>, index: seq<string>, attributePath: Path, attributes: seq<string>)
      returns (v: Value)
    ensures v == Aggregated(nodes, index, attributePath, attributes)
  {
    hide KeyOf, OneOrArray, Texts, AttributeTexts, Strs, KeysOf, TargetValues, Zipped;
    var keys: seq<string>, values: seq<Value> := [], [];
    NothingIsAggregated(index, attributePath, attributes);
    for i := 0 to |nodes|
      invariant keys == KeysOf(nodes[..i], index)
      invariant values == TargetValues(nodes[..i], attributePath, attributes)
    {
      var node := nodes[i];
      TakeOneMore(nodes, i);
      KeysOfSnoc(nodes[..i], node, index);
      TargetValuesSnoc(nodes[..i], node, attributePath, attributes);
      keys := keys + [KeyOf(node, index)];
      var targets := Descend([node], attributePath);
      var texts := if attributes == [] then Texts(targets) else AttributeTexts(targets, attributes[0]);
      values := values + [OneOrArray(Strs(texts))];
    }
    assert nodes[..|nodes|] == nodes;
    v := ZipObject(keys, values);
  }

  lemma NothingIsAggregated(index: seq<string>, attributePath: Path, attributes: seq<string>)
    ensures KeysOf([], index) == [] && TargetValues([], attributePath, attributes) == []
  {
  }

  /** The strings found below the nodes that carry a key, node by node. */
  function TargetsUnder(
      nodes: seq<Node>, index: seq<string>, attributePath: Path, attributes: seq<string>, key: string): seq<string>
  {
    if nodes == [] then []
    else
      var n := nodes[|nodes| - 1];
      TargetsUnder(nodes[..|nodes| - 1], index, attributePath, attributes, key)
      + (if KeyOf(n, index) == key then Targets(n, attributePath, attributes) else [])
  }

  lemma {:induction false} LeavesOfStrs(texts: seq<string>)
    ensures LeavesOf(Strs(texts)) == texts && Leaves(OneOrArray(Strs(texts))) == texts
    ensures |Strs(texts)| == |texts|
  {
    if texts != [] {
      LeavesOfStrs(texts[1..]);
      assert texts == [texts[0]] + texts[1..];
      if |texts| == 1 {
        assert texts[1..] == [];
      }
    }
  }

  lemma {:induction false} GivenLeavesIgnoreTheRest(
      keys: seq<string>, values: seq<Value>, k: string, v: Value, count: nat, key: string)
    requires count <= |keys| && count <= |values|
    ensures GivenLeaves(keys + [k], values + [v], count, key) == GivenLeaves(keys, values, count, key)
  {
    hide Leaves;
    if count > 0 {
      GivenLeavesIgnoreTheRest(keys, values, k, v, count - 1, key);
    }
  }

  lemma {:induction false} GivenAreTargets(
      nodes: seq<Node>, index: seq<string>, attributePath: Path, attributes: seq<string>, key: string)
    ensures |KeysOf(nodes, index)| == |nodes| == |TargetValues(nodes, attributePath, attributes)|
    ensures GivenLeaves(KeysOf(nodes, index), TargetValues(nodes, attributePath, attributes), |nodes|, key)
         == TargetsUnder(nodes, index, attributePath, attributes, key)
    decreases |nodes|
  {
    hide KeyOf, Targets, OneOrArray, Strs, Leaves, KeysOf, TargetValues;
    if nodes == [] {
      NothingIsAggregated(index, attributePath, attributes);
    } else {
      var before, n := nodes[..|nodes| - 1], nodes[|nodes| - 1];
      GivenAreTargets(before, index, attributePath, attributes, key);
      assert nodes == before + [n];
      KeysOfSnoc(before, n, index);
      TargetValuesSnoc(before, n, attributePath, attributes);
      var value := OneOrArray(Strs(Targets(n, attributePath, attributes)));
      GivenLeavesIgnoreTheRest(KeysOf(before, index), TargetValues(before, attributePath, attributes), KeyOf(n, index),
                               value, |before|, key);
      LeavesOfStrs(Targets(n, attributePath, attributes));
    }
  }

  /**
   * An aggregated field holds, under each key, exactly the strings below the nodes with
   * that key, and keys as first seen.
   */
  lemma AggregatedFieldConservesStrings(
      nodes: seq<Node>, index: seq<string>, attributePath: Path, attributes: seq<string>, key: string)
    ensures var entries := Aggregated(nodes, index, attributePath, attributes).entries;
            && DistinctEntries(entries) && Keys(entries) == Uniq(KeysOf(nodes, index))
            && EntryLeaves(entries, key) == TargetsUnder(nodes, index, attributePath, attributes, key)
  {
    hide KeysOf, TargetValues, Zipped, EntryLeaves, GivenLeaves, TargetsUnder, Uniq, DistinctEntries;
    var keys, values := KeysOf(nodes, index), TargetValues(nodes, attributePath, attributes);
    GivenAreTargets(nodes, index, attributePath, attributes, key);
    AggregationConservesLeaves(keys, values, |nodes|, key);
    assert keys[..|nodes|] == keys;
  }

  function MultiTexts(root: Node, paths: seq<Path>): seq<string> {
    if paths == [] then [] else Texts(Select(root, paths[0])) + MultiTexts(root, paths[1..])
  }

  function SourceTexts(source: string, nodes: seq<Node>): seq<Value>
    requires forall n :: n in nodes ==> SpanIn(source, n)
  {
    if nodes == [] then []
    else
      assert nodes[0] in nodes && SpanIn(source, nodes[0]);
      [Str(Cut(source, nodes[0]))] + SourceTexts(source, nodes[1..])
  }

  function Attributes(n: Node, names: seq<string>, camel: string -> string): Entries {
    if names == [] then []
    else
      (if Attr(n, names[0]).Some? then [Entry(camel(names[0]), Str(Attr(n, names[0]).value))] else [])
      + Attributes(n, names[1..], camel)
  }

  function AttributeObjects(nodes: seq<Node>, names: seq<string>, camel: string -> string): seq<Value> {
    if nodes == [] then []
    else [Object(Attributes(nodes[0], names, camel))] + AttributeObjects(nodes[1..], names, camel)
  }

  function Collapsed(values: seq<Value>): Value {
    if values == [] then Null else OneOrArray(values)
  }

  /** A document element whose spans lie in its source. */
  ghost predicate Sound(source: string, root: Node) {
    WellNested(root) && root.end <= |source|
  }

  lemma SelectedSpansLieInSource(source: string, root: Node, path: Path)
    requires Sound(source, root)
    ensures forall n :: n in Select(root, path) ==> SpanIn(source, n)
  {
    SelectionIsInDocumentOrder(root, path);
    assert forall n :: n in Select(root, path) ==> WellNested(n);
  }

  /** `extract_field`. */
  function ExtractField(source: string, root: Node, field: Field, camel: string -> string): Value
    requires Sound(source, root)
  {
    if field.localPath.Multi? then Array(Strs(Uniq(MultiTexts(root, field.localPath.paths))))
    else
      var nodes := Select(root, field.localPath.path);
      if field.index.Some? && field.attributePath.Some? then
        Aggregated(nodes, field.index.value, field.attributePath.value, field.attributes)
      else if field.context then
        SelectedSpansLieInSource(source, root, field.localPath.path);
        Collapsed(SourceTexts(source, nodes))
      else if |field.attributes| > 1 then OneOrArray(AttributeObjects(nodes, field.attributes, camel))
      else if |field.attributes| == 1 then
        var found := AttributeTexts(nodes, field.attributes[0]);
        if found == [] then Null else Str(found[0])
      else Collapsed(Strs(Texts(nodes)))
  }

  // ----- all fields

  function ParseText(read: string -> seq<Token>, xml: string, limits: Limits): (r: Result<Node, SamlError>)
    requires Faithful(read)
    ensures r.Ok? ==> Sound(xml, r.value)
  {
    var parsed := ParseDocument(read(xml), limits);
    if parsed.Ok? then
      assert WellRead(read(xml)) && Source(read(xml)) == xml;
      ParsedSpansLieInSource(read(xml), limits);
      parsed
    else parsed
  }

  /** What extraction means: every field parses its own source anew. */
  function ExtractedField(
      read: string -> seq<Token>, xml: string, root: Node, field: Field, limits: Limits, camel: string -> string)
    : Result<Value, SamlError>
    requires Faithful(read) && Sound(xml, root)
  {
    match field.shortcut
    case None => Ok(ExtractField(xml, root, field, camel))
    case Some(source) =>
      match ParseText(read, source, limits)
      case Err(e) => Err(e)
      case Ok(doc) => Ok(ExtractField(source, doc, field, camel))
  }

  function ExtractedFields(read: string -> seq<Token>, xml: string, root: Node, fields: seq<Field>, limits: Limits,
                           camel: string -> string): Result<Entries, SamlError>
    requires Faithful(read) && Sound(xml, root)
    decreases |fields|
  {
    if fields == [] then Ok([])
    else
      match ExtractedField(read, xml, root, fields[0], limits, camel)
      case Err(e) => Err(e)
      case Ok(value) => Prefixed([Entry(fields[0].key, value)],
                                 ExtractedFields(read, xml, root, fields[1..], limits, camel))
  }

  function Prefixed(first: Entries, rest: Result<Entries, SamlError>): Result<Entries, SamlError> {
    if rest.Ok? then Ok(first + rest.value) else rest
  }

  lemma PrefixedTwice(a: Entries, b: Entries, rest: Result<Entries, SamlError>)
    ensures Prefixed(a, Prefixed(b, rest)) == Prefixed(a + b, rest)
    ensures Prefixed([], rest) == rest && Prefixed(a, Ok([])) == Ok(a)
  {
    NothingAfter(a);
    if rest.Ok? {
      NothingBefore(rest.value);
      Associate(a, b, rest.value);
    }
  }

  function Extracted(
      read: string -> seq<Token>, xml: string, fields: seq<Field>, limits: Limits, camel: string -> string)
    : Result<Value, SamlError>
    requires Faithful(read)
  {
    match ParseText(read, xml, limits)
    case Err(e) => Err(e)
    case Ok(root) =>
      match ExtractedFields(read, xml, root, fields, limits, camel)
      case Err(e) => Err(e)
      case Ok(entries) => Ok(Object(entries))
  }

  /**
   * `extract_with_limits`: the last shortcut source stays parsed, and the result is the one
   * that parsing anew for every field gives, errors included.
   */
  method ExtractWithLimits(
      read: string -> seq<Token>, xml: string, fields: seq<Field>, limits: Limits, camel: string -> string)
    returns (r: Result<Value, SamlError>)
    requires Faithful(read)
    ensures r == Extracted(read, xml, fields, limits, camel)
  {
    hide Faithful, ExtractField, ParseText, Sound;
    var parsed := ParseText(read, xml, limits);
    if parsed.Err? {
      return parsed.PropagateFailure();
    }
    var root := parsed.value;
    var cached: Option<(string, Node)> := None;
    var out: Entries := [];
    PrefixedTwice([], [], ExtractedFields(read, xml, root, fields, limits, camel));
    assert fields[0..] == fields;
    for i := 0 to |fields|
      invariant cached.Some? ==> ParseText(read, cached.value.0, limits) == Ok(cached.value.1)
      invariant ExtractedFields(read, xml, root, fields, limits, camel)
             == Prefixed(out, ExtractedFields(read, xml, root, fields[i..], limits, camel))
    {
      assert fields[i..][0] == fields[i] && fields[i..][1..] == fields[i + 1..];
      var field := fields[i];
      var value: Value;
      if field.shortcut.Some? {
        var source := field.shortcut.value;
        if cached.Some? && cached.value.0 == source {
          value := ExtractField(source, cached.value.1, field, camel);
        } else {
          var doc := ParseText(read, source, limits);
          if doc.Err? {
            return doc.PropagateFailure();
          }
          value := ExtractField(source, doc.value, field, camel);
          cached := Some((source, doc.value));
        }
      } else {
        value := ExtractField(xml, root, field, camel);
      }
      PrefixedTwice(out, [Entry(field.key, value)], ExtractedFields(read, xml, root, fields[i + 1..], limits, camel));
      out := out + [Entry(field.key, value)];
    }
    PrefixedTwice(out, [], Ok([]));
    r := Ok(Object(out));
  }

  // ----- session bounds, read twice

  function GetKey(v: Value, key: string): Option<Value> {
    if !v.Object? then None
    else
      match FindEntry(v.entries, key)
      case None => None
      case Some(i) => Some(v.entries[i].value)
  }

  /** `authn_statement_values`: one object, or a list of objects only. */
  function AuthnStatements(extract: Value): Result<seq<Value>, SamlError> {
    match GetKey(extract, "sessionIndex")
    case None => Ok([])
    case Some(Null) => Ok([])
    case Some(Object(entries)) => Ok([Object(entries)])
    case Some(Str(_)) => Err(Invalid)
    case Some(Array(items)) => if forall v :: v in items ==> v.Object? then Ok(items) else Err(Invalid)
  }

  function OptionalText(statement: Value, field: string): Result<Option<string>, SamlError> {
    match GetKey(statement, field)
    case None => Ok(None)
    case Some(Null) => Ok(None)
    case Some(Str(text)) => Ok(Some(text))
    case Some(_) => Err(Invalid)
  }

  function BoundsOf(statements: seq<Value>): Result<seq<string>, SamlError> {
    if statements == [] then Ok([])
    else
      var bound :- OptionalText(statements[0], "sessionNotOnOrAfter");
      var rest :- BoundsOf(statements[1..]);
      Ok((if bound.Some? then [bound.value] else []) + rest)
  }

  /** `authn_statement_not_on_or_after_values`: the bounds the time checks use. */
  function SessionBounds(extract: Value): Result<seq<string>, SamlError> {
    var statements :- AuthnStatements(extract);
    BoundsOf(statements)
  }

  datatype Session = Session(index: Option<string>, instant: Option<string>, notOnOrAfter: Option<string>)

  /** A constructor that keeps the text it accepts. */
  function Checked(text: Option<string>, accept: string -> bool): Result<Option<string>, SamlError> {
    if text.Some? && !accept(text.value) then Err(Invalid) else Ok(text)
  }

  function SessionsOf(
      statements: seq<Value>, index: string -> bool, instant: string -> bool): Result<seq<Session>, SamlError>
  {
    if statements == [] then Ok([])
    else
      var indexText :- OptionalText(statements[0], "sessionIndex");
      var sessionIndex :- Checked(indexText, index);
      var instantText :- OptionalText(statements[0], "authnInstant");
      var authnInstant :- Checked(instantText, instant);
      var boundText :- OptionalText(statements[0], "sessionNotOnOrAfter");
      var bound :- Checked(boundText, instant);
      var rest :- SessionsOf(statements[1..], index, instant);
      Ok([Session(sessionIndex, authnInstant, bound)] + rest)
  }

  /** `authn_sessions_from_extract`: the sessions the caller, and the replay expiry, see. */
  function Sessions(extract: Value, index: string -> bool, instant: string -> bool): Result<seq<Session>, SamlError> {
    var statements :- AuthnStatements(extract);
    SessionsOf(statements, index, instant)
  }

  function BoundsIn(sessions: seq<Session>): seq<string> {
    if sessions == [] then []
    else (if sessions[0].notOnOrAfter.Some? then [sessions[0].notOnOrAfter.value] else []) + BoundsIn(sessions[1..])
  }

  lemma {:induction false} StatementsGiveTheSameBounds(
      statements: seq<Value>, index: string -> bool, instant: string -> bool)
    requires SessionsOf(statements, index, instant).Ok?
    ensures BoundsOf(statements) == Ok(BoundsIn(SessionsOf(statements, index, instant).value))
  {
    if statements != [] {
      StatementsGiveTheSameBounds(statements[1..], index, instant);
      var sessions := SessionsOf(statements, index, instant).value;
      assert sessions[1..] == SessionsOf(statements[1..], index, instant).value;
    }
  }

  /** The time checks and the replay expiry see the same session bounds, in the same order. */
  lemma BothSidesSeeTheSameBounds(extract: Value, index: string -> bool, instant: string -> bool)
    requires Sessions(extract, index, instant).Ok?
    ensures SessionBounds(extract) == Ok(BoundsIn(Sessions(extract, index, instant).value))
  {
    StatementsGiveTheSameBounds(AuthnStatements(extract).value, index, instant);
  }
}
