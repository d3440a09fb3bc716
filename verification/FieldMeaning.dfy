/**
 * What each kind of field yields (src/xml/extract.rs, extract_field), said of the nodes that
 * its path selects. Indexed fields are aggregated, which has results of its own.
 */
module FieldMeaning {
  import opened Prelude
  import opened XmlDom
  import opened XmlSpans
  import opened Coverage
  import opened Extraction
  import opened FieldValues

  /** A value for a list of texts: nothing, the only one, or all of them in order. */
  ghost predicate Lists(v: Value, texts: seq<string>) {
    if |texts| == 0 then v == Null
    else if |texts| == 1 then v == Str(texts[0])
    else v.Array? && |v.items| == |texts| && forall i :: 0 <= i < |texts| ==> v.items[i] == Str(texts[i])
  }

  predicate Indexed(field: Field) {
    field.index.Some? && field.attributePath.Some?
  }

  lemma {:induction false} StrsAre(texts: seq<string>)
    ensures |Strs(texts)| == |texts| && forall i :: 0 <= i < |texts| ==> Strs(texts)[i] == Str(texts[i])
  {
    if texts != [] {
      StrsAre(texts[1..]);
    }
  }

  lemma {:induction false} TextsAre(nodes: seq<Node>)
    ensures |Texts(nodes)| == |nodes| && forall i :: 0 <= i < |nodes| ==> Texts(nodes)[i] == nodes[i].text
  {
    if nodes != [] {
      TextsAre(nodes[1..]);
    }
  }

  /** A plain field: the text of every selected node, in document order. */
  lemma PlainFieldListsTexts(source: string, root: Node, field: Field, camel: string -> string)
    requires Sound(source, root) && field.localPath.Single? && !Indexed(field)
    requires !field.context && field.attributes == []
    ensures var nodes := Select(root, field.localPath.path);
            Lists(ExtractField(source, root, field, camel), seq(|nodes|, i requires 0 <= i < |nodes| => nodes[i].text))
  {
    var nodes := Select(root, field.localPath.path);
    TextsAre(nodes);
    StrsAre(Texts(nodes));
  }

  lemma {:induction false} SourceTextsAre(source: string, nodes: seq<Node>)
    requires forall n :: n in nodes ==> SpanIn(source, n)
    ensures |SourceTexts(source, nodes)| == |nodes|
    ensures forall i :: 0 <= i < |nodes| ==>
              SpanIn(source, nodes[i]) && SourceTexts(source, nodes)[i] == Str(Cut(source, nodes[i]))
  {
    if nodes != [] {
      assert nodes[0] in nodes;
      SourceTextsAre(source, nodes[1..]);
    }
  }

  /** A context field: the source of every selected node. */
  lemma ContextFieldListsSources(source: string, root: Node, field: Field, camel: string -> string)
    requires Sound(source, root) && field.localPath.Single? && !Indexed(field) && field.context
    ensures var nodes := Select(root, field.localPath.path);
            && (forall i :: 0 <= i < |nodes| ==> SpanIn(source, nodes[i]))
            && Lists(ExtractField(source, root, field, camel),
                     seq(|nodes|, i requires 0 <= i < |nodes| => source[nodes[i].start..nodes[i].end]))
  {
    var nodes := Select(root, field.localPath.path);
    SelectedSpansLieInSource(source, root, field.localPath.path);
    SourceTextsAre(source, nodes);
  }

  ghost predicate FirstWith(nodes: seq<Node>, name: string, value: string, i: int) {
    0 <= i < |nodes| && Attr(nodes[i], name) == Some(value) && forall j :: 0 <= j < i ==> Attr(nodes[j], name).None?
  }

  lemma FirstWithShifts(nodes: seq<Node>, name: string, value: string, i: int)
    requires nodes != [] && Attr(nodes[0], name).None? && FirstWith(nodes[1..], name, value, i)
    ensures FirstWith(nodes, name, value, i + 1)
  {
    hide Attr;
    assert nodes[i + 1] == nodes[1..][i];
    assert forall j :: 0 < j < i + 1 ==> nodes[j] == nodes[1..][j - 1];
  }

  lemma {:induction false} FirstAttributeText(nodes: seq<Node>, name: string)
    ensures AttributeTexts(nodes, name) == [] <==> forall n :: n in nodes ==> Attr(n, name).None?
    ensures AttributeTexts(nodes, name) != [] ==>
              exists i :: FirstWith(nodes, name, AttributeTexts(nodes, name)[0], i)
  {
    hide Attr;
    if nodes != [] {
      FirstAttributeText(nodes[1..], name);
      assert nodes == [nodes[0]] + nodes[1..];
      if Attr(nodes[0], name).Some? {
        assert FirstWith(nodes, name, AttributeTexts(nodes, name)[0], 0);
      } else if AttributeTexts(nodes[1..], name) != [] {
        var i :| FirstWith(nodes[1..], name, AttributeTexts(nodes[1..], name)[0], i);
        FirstWithShifts(nodes, name, AttributeTexts(nodes[1..], name)[0], i);
        NothingBefore(AttributeTexts(nodes[1..], name));
      }
    }
  }

  /** A field of one attribute: its value on the first selected node that has it. */
  lemma AttributeFieldIsTheFirst(source: string, root: Node, field: Field, camel: string -> string)
    requires Sound(source, root) && field.localPath.Single? && !Indexed(field)
    requires !field.context && |field.attributes| == 1
    ensures var nodes, name := Select(root, field.localPath.path), field.attributes[0];
            var v := ExtractField(source, root, field, camel);
            if forall n :: n in nodes ==> Attr(n, name).None? then v == Null
            else v.Str? && exists i :: FirstWith(nodes, name, v.text, i)
  {
    FirstAttributeText(Select(root, field.localPath.path), field.attributes[0]);
  }

  /** An object for a node: an entry for each of the attributes that it has. */
  ghost predicate Describes(v: Value, n: Node, names: seq<string>, camel: string -> string) {
    && v.Object?
    && forall e :: e in v.entries <==>
         exists name :: name in names && Attr(n, name).Some? && e == Entry(camel(name), Str(Attr(n, name).value))
  }

  lemma {:induction false} AttributesDescribe(n: Node, names: seq<string>, camel: string -> string)
    ensures Describes(Object(Attributes(n, names, camel)), n, names, camel)
  {
    hide AttrIn;
    if names != [] {
      AttributesDescribe(n, names[1..], camel);
      assert names == [names[0]] + names[1..];
    }
  }

  lemma {:induction false} AttributeObjectsDescribe(nodes: seq<Node>, names: seq<string>, camel: string -> string)
    ensures var objects := AttributeObjects(nodes, names, camel);
            |objects| == |nodes| && forall i :: 0 <= i < |nodes| ==> Describes(objects[i], nodes[i], names, camel)
  {
    hide Describes, Attributes;
    if nodes != [] {
      AttributesDescribe(nodes[0], names, camel);
      AttributeObjectsDescribe(nodes[1..], names, camel);
    }
  }

  /** A field of several attributes: an object for each selected node. */
  lemma ObjectFieldDescribesNodes(source: string, root: Node, field: Field, camel: string -> string)
    requires Sound(source, root) && field.localPath.Single? && !Indexed(field)
    requires !field.context && |field.attributes| > 1
    ensures var nodes := Select(root, field.localPath.path);
            var v := ExtractField(source, root, field, camel);
            if |nodes| == 1 then Describes(v, nodes[0], field.attributes, camel)
            else v.Array? && |v.items| == |nodes|
                 && forall i :: 0 <= i < |nodes| ==> Describes(v.items[i], nodes[i], field.attributes, camel)
  {
    hide Describes;
    AttributeObjectsDescribe(Select(root, field.localPath.path), field.attributes, camel);
  }

  lemma {:induction false} MultiTextsAre(root: Node, paths: seq<Path>, text: string)
    ensures text in MultiTexts(root, paths) <==>
            exists path, n :: path in paths && n in Select(root, path) && n.text == text
  {
    hide Select;
    if paths != [] {
      MultiTextsAre(root, paths[1..], text);
      assert paths == [paths[0]] + paths[1..];
      var nodes := Select(root, paths[0]);
      TextsAre(nodes);
      assert text in Texts(nodes) <==> exists n :: n in nodes && n.text == text by {
        if n :| n in nodes && n.text == text {
          var i :| 0 <= i < |nodes| && nodes[i] == n;
          assert Texts(nodes)[i] == text;
        }
        if text in Texts(nodes) {
          var i :| 0 <= i < |nodes| && Texts(nodes)[i] == text;
          assert nodes[i] in nodes;
        }
      }
    }
  }

  /** First-seen order: what comes earlier in the list is seen before what comes later. */
  lemma {:induction false} UniqKeepsOrder(items: seq<string>, i: nat, j: nat)
    requires i < j < |Uniq(items)|
    ensures exists p :: 0 <= p < |items| && items[p] == Uniq(items)[i] && Uniq(items)[j] !in items[..p + 1]
  {
    var before, last := items[..|items| - 1], items[|items| - 1];
    UniqKeepsEachOnce(before);
    if j < |Uniq(before)| {
      UniqKeepsOrder(before, i, j);
      var p :| 0 <= p < |before| && before[p] == Uniq(before)[i] && Uniq(before)[j] !in before[..p + 1];
      assert items[..p + 1] == before[..p + 1];
    } else {
      assert Uniq(before)[i] in before;
      var p :| 0 <= p < |before| && before[p] == Uniq(before)[i];
      assert forall s :: s in items[..p + 1] ==> s in before;
    }
  }

  /** A field of several paths: each text that some path selects, once. */
  lemma MultiFieldListsTextsOnce(source: string, root: Node, field: Field, camel: string -> string)
    requires Sound(source, root) && field.localPath.Multi?
    ensures var v := ExtractField(source, root, field, camel);
            && v.Array?
            && (forall i :: 0 <= i < |v.items| ==> v.items[i].Str?)
            && (forall i, j :: 0 <= i < j < |v.items| ==> v.items[i] != v.items[j])
            && (forall text :: Str(text) in v.items <==>
                  exists path, n :: path in field.localPath.paths && n in Select(root, path) && n.text == text)
  {
    var texts := MultiTexts(root, field.localPath.paths);
    UniqKeepsEachOnce(texts);
    StrsAre(Uniq(texts));
    forall text
      ensures text in texts <==>
              exists path, n :: path in field.localPath.paths && n in Select(root, path) && n.text == text
    {
      MultiTextsAre(root, field.localPath.paths, text);
    }
    assert forall text :: text in Uniq(texts) <==> Str(text) in Strs(Uniq(texts)) by {
      forall text | text in Uniq(texts) ensures Str(text) in Strs(Uniq(texts)) {
        var i :| 0 <= i < |Uniq(texts)| && Uniq(texts)[i] == text;
        assert Strs(Uniq(texts))[i] == Str(text);
      }
    }
  }

  // ----- the session bounds of the extracted statements

  const BOUND: string := "SessionNotOnOrAfter"
  const BOUND_KEY: string := "sessionNotOnOrAfter"

  /** The field of AuthnStatement elements, whose spelling of keys tells the bound from the other attributes. */
  predicate StatementField(field: Field, camel: string -> string) {
    && field.localPath.Single? && !Indexed(field) && !field.context && |field.attributes| > 1
    && BOUND in field.attributes
    && forall name :: name in field.attributes ==> (camel(name) == BOUND_KEY <==> name == BOUND)
  }

  lemma BoundOfObject(v: Value, n: Node, names: seq<string>, camel: string -> string)
    requires Describes(v, n, names, camel) && BOUND in names
    requires forall name :: name in names ==> (camel(name) == BOUND_KEY <==> name == BOUND)
    ensures v.Object? && OptionalText(v, BOUND_KEY) == Ok(Attr(n, BOUND))
  {
    hide Attr;
    var found := FindEntry(v.entries, BOUND_KEY);
    assert Attr(n, BOUND).Some? ==> Entry(camel(BOUND), Str(Attr(n, BOUND).value)) in v.entries;
    if found.Some? {
      assert v.entries[found.value] in v.entries;
    }
  }

  lemma {:induction false} BoundsOfObjects(
      values: seq<Value>, nodes: seq<Node>, names: seq<string>, camel: string -> string)
    requires |values| == |nodes| && BOUND in names
    requires forall i :: 0 <= i < |nodes| ==> Describes(values[i], nodes[i], names, camel)
    requires forall name :: name in names ==> (camel(name) == BOUND_KEY <==> name == BOUND)
    ensures BoundsOf(values) == Ok(AttributeTexts(nodes, BOUND))
    decreases |values|
  {
    hide Describes, OptionalText, Attr;
    if values != [] {
      BoundOfObject(values[0], nodes[0], names, camel);
      BoundsOfObjects(values[1..], nodes[1..], names, camel);
    }
  }

  /**
   * Whether one statement, several or none is selected, the time checks read exactly the
   * SessionNotOnOrAfter attributes of the statements that have one, in document order.
   */
  lemma SessionBoundsAreTheAttributes(
      source: string, root: Node, field: Field, camel: string -> string, extract: Value)
    requires Sound(source, root) && StatementField(field, camel)
    requires GetKey(extract, "sessionIndex") == Some(ExtractField(source, root, field, camel))
    ensures SessionBounds(extract) == Ok(AttributeTexts(Select(root, field.localPath.path), BOUND))
  {
    hide Describes, BoundsOf, AttributeTexts, Attributes, Select;
    var nodes := Select(root, field.localPath.path);
    var objects := AttributeObjects(nodes, field.attributes, camel);
    AttributeObjectsDescribe(nodes, field.attributes, camel);
    BoundsOfObjects(objects, nodes, field.attributes, camel);
    forall i | 0 <= i < |nodes|
      ensures objects[i].Object?
    {
      BoundOfObject(objects[i], nodes[i], field.attributes, camel);
    }
    if |objects| == 1 {
      assert objects == [objects[0]];
      assert Object(objects[0].entries) == objects[0];
    }
  }
}
