/**
 * Replacing an Assertion by its EncryptedAssertion and back (src/crypto/enc.rs). The
 * cipher is a parameter; what is proved is that the two splices undo each other.
 */
module XmlEncryption {
  import opened Prelude
  import opened XmlEvents
  import opened XmlDom
  import opened XmlSpans
  import opened XmlSplice

  // ----- the two splices

  function Replace(source: string, n: Node, text: string): string
    requires n.start <= n.end <= |source|
  {
    source[..n.start] + text + source[n.end..]
  }

  /** `encrypt_assertion`: the wrapper is built from the assertion's own text by the cipher. */
  function EncryptAssertion(
      source: string, root: Node, wrap: string -> Result<string, SamlError>): Result<string, SamlError>
    requires SpansIn(source, root.children)
  {
    match FirstNode(root.children, "Assertion")
    case None => Err(Invalid)
    case Some(assertion) =>
      match wrap(Cut(source, assertion))
      case Err(e) => Err(e)
      case Ok(wrapped) => Ok(Replace(source, assertion, wrapped))
  }

  /** Encryption replaces the first Assertion by what the cipher makes of its text, and does nothing else. */
  lemma EncryptsTheFirstAssertion(
      source: string, root: Node, wrap: string -> Result<string, SamlError>, sealed: string)
    requires SpansIn(source, root.children)
    ensures EncryptAssertion(source, root, wrap) == Ok(sealed) <==>
            exists n, wrapped ::
              && FirstChild(root, "Assertion", n) && SpanIn(source, n) && wrap(source[n.start..n.end]) == Ok(wrapped)
              && sealed == source[..n.start] + wrapped + source[n.end..]
  {
    hide FirstNode, FirstChild;
    forall c ensures FirstNode(root.children, "Assertion") == Some(c) <==> FirstChild(root, "Assertion", c) {
      FirstNodeIsFirstChild(root, "Assertion", c);
    }
  }

  function TrimStart(s: string): string {
    if s != "" && CharWhitespace(s[0]) then TrimStart(s[1..]) else s
  }

  /** What follows the first `?>`, if there is one. */
  function AfterClose(s: string): Option<string> {
    if |s| < 2 then None
    else if s[0] == '?' && s[1] == '>' then Some(s[2..])
    else AfterClose(s[1..])
  }

  function StripXmlDeclaration(xml: string): string {
    var trimmed := TrimStart(xml);
    if "<?xml" <= trimmed then
      match AfterClose(trimmed[5..])
      case Some(rest) => TrimStart(rest)
      case None => trimmed
    else trimmed
  }

  /** `decrypt_assertion_with_limits`: the response with the plaintext assertion, and the assertion. */
  function DecryptAssertion(source: string, root: Node, decrypt: string -> Result<string, SamlError>, limits: Limits)
    : Result<(string, string), SamlError>
    requires SpansIn(source, root.children)
  {
    match FirstNode(root.children, "EncryptedAssertion")
    case None => Err(Crypto)
    case Some(encrypted) =>
      match FirstNode(encrypted.children, "EncryptedData")
      case None => Err(Crypto)
      case Some(data) =>
        match decrypt(Cut(source, data))
        case Err(e) => Err(e)
        case Ok(plaintext) =>
          var assertion := StripXmlDeclaration(plaintext);
          var response := Replace(source, encrypted, assertion);
          if |response| > limits.maxBytes || |assertion| > limits.maxBytes then Err(Invalid)
          else Ok((response, assertion))
  }

  // ----- documents with one root

  lemma NothingSpelled()
    ensures SourceOf([]) == ""
  {
  }

  lemma {:induction false} BuildConcat(a: seq<Item>, b: seq<Item>, offset: nat)
    ensures Build(a + b, offset) == Build(a, offset) + Build(b, offset + |SourceOf(a)|)
  {
    hide BuildItem, SourceOf, FlattenItem, Source;
    if a == [] {
      NothingBefore(b);
      NothingBefore(Build(b, offset));
      assert |SourceOf([])| == 0 by { NothingSpelled(); }
    } else {
      ConsConcat(a, b);
      BuildConcat(a[1..], b, offset + Width(a[0]));
      assert a == [a[0]] + a[1..];
      SourceOfCons(a[0], a[1..]);
      Associate(BuildItem(a[0], offset), Build(a[1..], offset + Width(a[0])), Build(b, offset + |SourceOf(a)|));
    }
  }

  lemma {:induction false} NoElementsNoNodes(items: seq<Item>, offset: nat)
    requires forall item :: item in items ==> !IsElement(item)
    ensures Build(items, offset) == []
    decreases items
  {
    if items != [] {
      assert items[0] in items;
      NoElementsNoNodes(items[1..], offset + Width(items[0]));
    }
  }

  /** A document: its root element between miscellaneous content. */
  datatype Doc = Doc(before: seq<Item>, open: Token, body: seq<Item>, close: Token, after: seq<Item>) {
    function Root(): Item {
      Element(open, body, close)
    }

    function Items(): seq<Item> {
      before + [Root()] + after
    }

    predicate WellFormed() {
      && Tagged(before) && Tagged(after) && TaggedItem(Root())
      && (forall item :: item in before + after ==> !IsElement(item))
    }

    function RootNode(): Node
      requires open.event.StartTag?
    {
      BuildItem(Root(), |SourceOf(before)|)[0]
    }

    /** Source text before the content of the root at index `k`. */
    function LeftOf(k: nat): string
      requires k <= |body|
    {
      SourceOf(before) + open.source + SourceOf(body[..k])
    }

    function RightOf(k: nat): string
      requires k < |body|
    {
      SourceOf(body[k + 1..]) + close.source + SourceOf(after)
    }
  }

  lemma DocHasOneRoot(doc: Doc)
    requires doc.WellFormed()
    ensures Build(doc.Items(), 0) == [doc.RootNode()]
    ensures Tagged(doc.Items())
  {
    hide Build, SourceOf;
    BuildConcat(doc.before + [doc.Root()], doc.after, 0);
    BuildConcat(doc.before, [doc.Root()], 0);
    NoElementsNoNodes(doc.before, 0);
    NoElementsNoNodes(doc.after, |SourceOf(doc.before + [doc.Root()])|);
    RootBuildsItsNode(doc);
    NothingBefore([doc.RootNode()]);
    NothingAfter([doc.RootNode()]);
  }

  lemma RootBuildsItsNode(doc: Doc)
    requires doc.WellFormed()
    ensures Build([doc.Root()], |SourceOf(doc.before)|) == [doc.RootNode()]
  {
    assert [doc.Root()][1..] == [];
  }

  lemma Regroup(a: string, b: string, c: string, d: string, e: string, f: string, g: string)
    ensures a + (b + (c + d + e) + f) + g == (a + b + c) + d + (e + f + g)
  {
  }

  lemma DocAround(doc: Doc, k: nat)
    requires k < |doc.body|
    ensures SourceOf(doc.Items()) == doc.LeftOf(k) + Source(FlattenItem(doc.body[k])) + doc.RightOf(k)
  {
    SourceOfThree(doc.before, doc.Root(), doc.after);
    SourceOfElement(doc.Root());
    SourceAround(doc.body, k);
    Regroup(SourceOf(doc.before), doc.open.source, SourceOf(doc.body[..k]), Source(FlattenItem(doc.body[k])),
            SourceOf(doc.body[k + 1..]), doc.close.source, SourceOf(doc.after));
  }

  /** The root's first child of a name stands exactly where its text does. */
  lemma ChildSpan(doc: Doc, name: string, k: nat)
    requires doc.WellFormed() && FirstNamed(doc.body, name) == Some(k)
    ensures var n := FirstNode(doc.RootNode().children, name);
            && n.Some? && n.value.start == |doc.LeftOf(k)| && n.value.end == |doc.LeftOf(k)| + Width(doc.body[k])
            && BuiltAt(doc.body[k], n.value.start, n.value)
  {
    var offset := |SourceOf(doc.before)| + |doc.open.source|;
    assert doc.RootNode().children == Build(doc.body, offset);
    FirstNodeSpan(doc.body, offset, name, k);
  }

  lemma RootSpansIn(doc: Doc)
    requires doc.WellFormed()
    ensures SpansIn(SourceOf(doc.Items()), doc.RootNode().children)
  {
    SourceOfThree(doc.before, doc.Root(), doc.after);
    SourceOfElement(doc.Root());
    var offset := |SourceOf(doc.before)| + |doc.open.source|;
    SpansNest(doc.body, offset);
    forall n | n in Build(doc.body, offset)
      ensures SpanIn(SourceOf(doc.Items()), n) && forall c :: c in n.children ==> SpanIn(SourceOf(doc.Items()), c)
    {
      assert WellNested(n);
      forall c | c in n.children
        ensures SpanIn(SourceOf(doc.Items()), c)
      {
        assert WellNested(c);
      }
    }
  }

  lemma ReplaceBetween(left: string, mid: string, right: string, n: Node, text: string)
    requires n.start == |left| && n.end == |left| + |mid|
    ensures Cut(left + mid + right, n) == mid
    ensures Replace(left + mid + right, n, text) == left + text + right
  {
    var whole := left + mid + right;
    assert whole[..n.start] == left && whole[n.start..n.end] == mid && whole[n.end..] == right;
  }

  /** The document with the item at `k` replaced keeps the text around it. */
  lemma WithChild(doc: Doc, k: nat, x: Item)
    requires doc.WellFormed() && k < |doc.body| && TaggedItem(x)
    ensures var next := doc.(body := doc.body[k := x]);
            && next.WellFormed() && next.LeftOf(k) == doc.LeftOf(k) && next.RightOf(k) == doc.RightOf(k)
  {
    var next := doc.(body := doc.body[k := x]);
    assert next.body[..k] == doc.body[..k] && next.body[k + 1..] == doc.body[k + 1..];
    forall item | item in next.body
      ensures TaggedItem(item)
    {
      if item != x {
        var i :| 0 <= i < |next.body| && next.body[i] == item;
        assert doc.body[i] == item;
      }
    }
  }

  lemma {:induction false} FirstNamedAfterReplacing(items: seq<Item>, name: string, k: nat, x: Item)
    requires k < |items| && FirstNamed(items, name).None? && ElementName(x) == Some(name)
    ensures FirstNamed(items[k := x], name) == Some(k)
    decreases items
  {
    if k > 0 {
      FirstNamedAfterReplacing(items[1..], name, k - 1, x);
      assert items[k := x][1..] == items[1..][k - 1 := x];
    }
  }

  /** Where a wrapper's EncryptedData stands in the document. */
  lemma WrappedDataSpan(doc: Doc, k: nat, d: nat)
    requires doc.WellFormed() && k < |doc.body| && doc.body[k].Element?
    requires FirstNamed(doc.body, "EncryptedAssertion") == Some(k)
    requires FirstNamed(doc.body[k].body, "EncryptedData") == Some(d)
    ensures var encrypted := FirstNode(doc.RootNode().children, "EncryptedAssertion");
            && encrypted.Some?
            && var data := FirstNode(encrypted.value.children, "EncryptedData");
            && data.Some? && SpanIn(SourceOf(doc.Items()), data.value)
            && Cut(SourceOf(doc.Items()), data.value) == Source(FlattenItem(doc.body[k].body[d]))
  {
    ChildSpan(doc, "EncryptedAssertion", k);
    var e := doc.body[k];
    var encrypted := FirstNode(doc.RootNode().children, "EncryptedAssertion").value;
    assert TaggedItem(e);
    DataSpan(e, encrypted.start, d);
    DocAround(doc, k);
    SourceOfElement(e);
    SourceAround(e.body, d);
    Regroup(doc.LeftOf(k), e.open.source, SourceOf(e.body[..d]), Source(FlattenItem(e.body[d])),
            SourceOf(e.body[d + 1..]), e.close.source, doc.RightOf(k));
    ReplaceBetween(doc.LeftOf(k) + e.open.source + SourceOf(e.body[..d]), Source(FlattenItem(e.body[d])),
                   SourceOf(e.body[d + 1..]) + e.close.source + doc.RightOf(k),
                   FirstNode(encrypted.children, "EncryptedData").value, "");
  }

  lemma DataSpan(e: Item, start: nat, d: nat)
    requires TaggedItem(e) && e.Element? && FirstNamed(e.body, "EncryptedData") == Some(d)
    ensures var data := FirstNode(BuildItem(e, start)[0].children, "EncryptedData");
            && data.Some?
            && data.value.start == start + |e.open.source| + |SourceOf(e.body[..d])|
            && data.value.end == data.value.start + Width(e.body[d])
  {
    var offset := start + |e.open.source|;
    assert BuildItem(e, start)[0].children == Build(e.body, offset);
    FirstNodeSpan(e.body, offset, "EncryptedData", d);
  }

  /**
   * Decrypting after encrypting restores the document byte for byte, for a root without
   * another EncryptedAssertion child and a cipher whose decryption gives the text back (an
   * XML declaration in front of it is dropped).
   */
  lemma DecryptAfterEncryptRestores(
    doc: Doc, k: nat, wrapper: Item, d: nat,
    wrap: string -> Result<string, SamlError>, decrypt: string -> Result<string, SamlError>, plaintext: string,
    limits: Limits)
    requires doc.WellFormed() && FirstNamed(doc.body, "Assertion") == Some(k)
    requires FirstNamed(doc.body, "EncryptedAssertion").None?
    requires TaggedItem(wrapper) && wrapper.Element? && ElementName(wrapper) == Some("EncryptedAssertion")
    requires FirstNamed(wrapper.body, "EncryptedData") == Some(d)
    requires wrap(Source(FlattenItem(doc.body[k]))) == Ok(Source(FlattenItem(wrapper)))
    requires decrypt(Source(FlattenItem(wrapper.body[d]))) == Ok(plaintext)
    requires StripXmlDeclaration(plaintext) == Source(FlattenItem(doc.body[k]))
    requires |SourceOf(doc.Items())| <= limits.maxBytes
    ensures Build(doc.Items(), 0) == [doc.RootNode()]
    ensures SpansIn(SourceOf(doc.Items()), doc.RootNode().children)
    ensures var sealed := doc.(body := doc.body[k := wrapper]);
            && EncryptAssertion(SourceOf(doc.Items()), doc.RootNode(), wrap) == Ok(SourceOf(sealed.Items()))
            && Build(sealed.Items(), 0) == [sealed.RootNode()]
            && SpansIn(SourceOf(sealed.Items()), sealed.RootNode().children)
            && DecryptAssertion(SourceOf(sealed.Items()), sealed.RootNode(), decrypt, limits)
               == Ok((SourceOf(doc.Items()), Source(FlattenItem(doc.body[k]))))
  {
    hide StripXmlDeclaration, Source, FlattenItem, SourceOf, Build, FirstNamed;
    var sealed := doc.(body := doc.body[k := wrapper]);
    var text := Source(FlattenItem(doc.body[k]));
    DocHasOneRoot(doc);
    RootSpansIn(doc);
    ChildSpan(doc, "Assertion", k);
    DocAround(doc, k);
    ReplaceBetween(doc.LeftOf(k), text, doc.RightOf(k),
                   FirstNode(doc.RootNode().children, "Assertion").value, Source(FlattenItem(wrapper)));
    WithChild(doc, k, wrapper);
    DocHasOneRoot(sealed);
    RootSpansIn(sealed);
    DocAround(sealed, k);
    FirstNamedAfterReplacing(doc.body, "EncryptedAssertion", k, wrapper);
    ChildSpan(sealed, "EncryptedAssertion", k);
    WrappedDataSpan(sealed, k, d);
    ReplaceBetween(sealed.LeftOf(k), Source(FlattenItem(wrapper)), sealed.RightOf(k),
                   FirstNode(sealed.RootNode().children, "EncryptedAssertion").value, text);
  }

  // ----- the XML declaration

  lemma {:induction false} TrimStartDrops(space: string, rest: string)
    requires forall c :: c in space ==> CharWhitespace(c)
    requires rest == "" || !CharWhitespace(rest[0])
    ensures TrimStart(space + rest) == rest
  {
    if space == "" {
      assert space + rest == rest;
    } else {
      TrimStartDrops(space[1..], rest);
      assert (space + rest)[1..] == space[1..] + rest;
    }
  }

  lemma {:induction false} AfterCloseSkips(inside: string, rest: string)
    requires forall i :: 0 <= i < |inside| ==> inside[i] != '?'
    ensures AfterClose(inside + "?>" + rest) == Some(rest)
  {
    var all := inside + "?>" + rest;
    if inside == "" {
      assert all[2..] == rest;
    } else {
      AfterCloseSkips(inside[1..], rest);
      assert all[1..] == inside[1..] + "?>" + rest;
    }
  }

  /** Element text is untouched, and a declaration with surrounding whitespace is dropped from it. */
  lemma DeclarationIsStripped(space: string, inside: string, gap: string, text: string)
    requires forall c :: c in space + gap ==> CharWhitespace(c)
    requires forall i :: 0 <= i < |inside| ==> inside[i] != '?'
    requires |text| > 1 && text[0] == '<' && text[1] != '?'
    ensures StripXmlDeclaration(space + text) == text
    ensures StripXmlDeclaration(space + "<?xml" + inside + "?>" + gap + text) == text
  {
    TrimStartDrops(space, text);
    assert !("<?xml" <= text) by {
      assert "<?xml"[1] == '?';
    }
    var declared := "<?xml" + inside + "?>" + gap + text;
    TrimStartDrops(space, declared);
    assert space + "<?xml" + inside + "?>" + gap + text == space + declared;
    assert declared[5..] == inside + "?>" + (gap + text);
    AfterCloseSkips(inside, gap + text);
    TrimStartDrops(gap, text);
  }
}
