/** Escaping (src/binding/escape.rs) and placeholder substitution (src/template.rs). */
module Templates {
  import opened Prelude

  // ----- escaping

  function ReplaceChar(s: string, c: char, filler: string): string {
    if s == "" then "" else (if s[0] == c then filler else [s[0]]) + ReplaceChar(s[1..], c, filler)
  }

  /** `xml_escape`: five replacements, the ampersand first. */
  function XmlEscape(s: string): string {
    ReplaceChar(ReplaceChar(ReplaceChar(ReplaceChar(ReplaceChar(s, '&', "&amp;"), '"', "&quot;"), '\'', "&apos;"),
                            '<', "&lt;"), '>', "&gt;")
  }

  function Entity(c: char): string {
    match c
    case '&' => "&amp;"
    case '"' => "&quot;"
    case '\'' => "&apos;"
    case '<' => "&lt;"
    case '>' => "&gt;"
    case _ => [c]
  }

  function Escaped(s: string): string {
    if s == "" then "" else Entity(s[0]) + Escaped(s[1..])
  }

  /** The character that text begins with, entities read, and the length of its spelling. */
  function FirstCharacter(s: string): (r: (char, nat))
    requires s != ""
    ensures 1 <= r.1 <= |s|
  {
    if s[0] != '&' || |s| < 4 then (s[0], 1)
    else if s[1] == 'l' && s[2] == 't' && s[3] == ';' then ('<', 4)
    else if s[1] == 'g' && s[2] == 't' && s[3] == ';' then ('>', 4)
    else if |s| >= 5 && s[1] == 'a' && s[2] == 'm' && s[3] == 'p' && s[4] == ';' then ('&', 5)
    else if |s| < 6 || s[5] != ';' then (s[0], 1)
    else if s[1] == 'q' && s[2] == 'u' && s[3] == 'o' && s[4] == 't' then ('"', 6)
    else if s[1] == 'a' && s[2] == 'p' && s[3] == 'o' && s[4] == 's' then ('\'', 6)
    else (s[0], 1)
  }

  /** Decoding of the predefined entities, as an XML reader does it. */
  function Unescape(s: string): string {
    if s == "" then "" else [FirstCharacter(s).0] + Unescape(s[FirstCharacter(s).1..])
  }

  lemma {:induction false} ReplaceCharConcat(a: string, b: string, c: char, filler: string)
    ensures ReplaceChar(a + b, c, filler) == ReplaceChar(a, c, filler) + ReplaceChar(b, c, filler)
  {
    if a == "" {
      NothingBefore(b);
      NothingBefore(ReplaceChar(b, c, filler));
    } else {
      ConsConcat(a, b);
      ReplaceCharConcat(a[1..], b, c, filler);
      Associate(if a[0] == c then filler else [a[0]], ReplaceChar(a[1..], c, filler), ReplaceChar(b, c, filler));
    }
  }

  lemma XmlEscapeConcat(a: string, b: string)
    ensures XmlEscape(a + b) == XmlEscape(a) + XmlEscape(b)
  {
    hide ReplaceChar;
    var a1, b1 := ReplaceChar(a, '&', "&amp;"), ReplaceChar(b, '&', "&amp;");
    var a2, b2 := ReplaceChar(a1, '"', "&quot;"), ReplaceChar(b1, '"', "&quot;");
    var a3, b3 := ReplaceChar(a2, '\'', "&apos;"), ReplaceChar(b2, '\'', "&apos;");
    var a4, b4 := ReplaceChar(a3, '<', "&lt;"), ReplaceChar(b3, '<', "&lt;");
    ReplaceCharConcat(a, b, '&', "&amp;");
    ReplaceCharConcat(a1, b1, '"', "&quot;");
    ReplaceCharConcat(a2, b2, '\'', "&apos;");
    ReplaceCharConcat(a3, b3, '<', "&lt;");
    ReplaceCharConcat(a4, b4, '>', "&gt;");
  }

  lemma {:induction false} ReplaceAbsent(s: string, c: char, filler: string)
    requires forall i :: 0 <= i < |s| ==> s[i] != c
    ensures ReplaceChar(s, c, filler) == s
  {
    if s != "" {
      ReplaceAbsent(s[1..], c, filler);
      assert s == [s[0]] + s[1..];
    }
  }

  lemma ReplaceOne(c: char, target: char, filler: string)
    ensures ReplaceChar([c], target, filler) == if c == target then filler else [c]
  {
    assert [c][1..] == "";
    NothingAfter(if c == target then filler else [c]);
  }

  /** An entity text is untouched by the replacements that follow its own. */
  lemma EntitiesAreInert(entity: string, target: char, filler: string)
    requires entity in {"&amp;", "&quot;", "&apos;", "&lt;", "&gt;"} && target in {'"', '\'', '<', '>'}
    ensures ReplaceChar(entity, target, filler) == entity
  {
    ReplaceAbsent(entity, target, filler);
  }

  lemma XmlEscapeOne(c: char)
    ensures XmlEscape([c]) == Entity(c)
  {
    hide ReplaceChar;
    ReplaceOne(c, '&', "&amp;");
    ReplaceOne(c, '"', "&quot;");
    ReplaceOne(c, '\'', "&apos;");
    ReplaceOne(c, '<', "&lt;");
    ReplaceOne(c, '>', "&gt;");
    if c == '&' {
      EntitiesAreInert("&amp;", '"', "&quot;");
      EntitiesAreInert("&amp;", '\'', "&apos;");
      EntitiesAreInert("&amp;", '<', "&lt;");
      EntitiesAreInert("&amp;", '>', "&gt;");
    } else if c == '"' {
      EntitiesAreInert("&quot;", '\'', "&apos;");
      EntitiesAreInert("&quot;", '<', "&lt;");
      EntitiesAreInert("&quot;", '>', "&gt;");
    } else if c == '\'' {
      EntitiesAreInert("&apos;", '<', "&lt;");
      EntitiesAreInert("&apos;", '>', "&gt;");
    } else if c == '<' {
      EntitiesAreInert("&lt;", '>', "&gt;");
    }
  }

  /** The five sequential replacements are one map over the characters. */
  lemma {:induction false} EscapingIsACharacterMap(s: string)
    ensures XmlEscape(s) == Escaped(s)
  {
    hide XmlEscape, Entity;
    if s == "" {
      assert XmlEscape("") == "" by { NothingEscapes(); }
    } else {
      assert s == [s[0]] + s[1..];
      XmlEscapeConcat([s[0]], s[1..]);
      XmlEscapeOne(s[0]);
      EscapingIsACharacterMap(s[1..]);
    }
  }

  lemma NothingEscapes()
    ensures XmlEscape("") == ""
  {
  }

  lemma EntityIsFirst(c: char, rest: string)
    ensures FirstCharacter(Entity(c) + rest) == (c, |Entity(c)|)
  {
  }

  lemma UnescapeEntity(c: char, rest: string)
    ensures Unescape(Entity(c) + rest) == [c] + Unescape(rest)
  {
    hide Entity, FirstCharacter;
    EntityIsFirst(c, rest);
    assert (Entity(c) + rest)[|Entity(c)|..] == rest;
  }

  /** Decoding entities gives the text back. */
  lemma {:induction false} UnescapeUndoesEscape(s: string)
    ensures Unescape(XmlEscape(s)) == s
  {
    EscapingIsACharacterMap(s);
    EscapedDecodes(s);
  }

  lemma {:induction false} EscapedDecodes(s: string)
    ensures Unescape(Escaped(s)) == s
  {
    hide Unescape, Entity;
    if s == "" {
      assert Unescape("") == "" by { NothingUnescapes(); }
    } else {
      UnescapeEntity(s[0], Escaped(s[1..]));
      EscapedDecodes(s[1..]);
    }
  }

  lemma NothingUnescapes()
    ensures Unescape("") == ""
  {
  }

  // ----- replacing a text everywhere

  predicate OccursAt(s: string, needle: string, i: nat) {
    i + |needle| <= |s| && s[i..i + |needle|] == needle
  }

  /** Left to right, every occurrence of the needle that does not overlap an earlier one. */
  function ReplaceAll(s: string, needle: string, filler: string): string
    requires needle != ""
    decreases |s|
  {
    if s == "" then ""
    else if OccursAt(s, needle, 0) then filler + ReplaceAll(s[|needle|..], needle, filler)
    else [s[0]] + ReplaceAll(s[1..], needle, filler)
  }

  /** `str::find` from a position on: where the needle first occurs. */
  function Find(s: string, needle: string, from: nat): (r: Option<nat>)
    requires from <= |s|
    ensures r.Some? ==> from <= r.value && OccursAt(s, needle, r.value)
    ensures r.Some? ==> forall i :: from <= i < r.value ==> !OccursAt(s, needle, i)
    ensures r.None? ==> forall i :: from <= i ==> !OccursAt(s, needle, i)
    decreases |s| - from
  {
    if OccursAt(s, needle, from) then Some(from) else if from == |s| then None else Find(s, needle, from + 1)
  }

  lemma OccursInSuffix(s: string, needle: string, i: nat)
    requires i <= |s|
    ensures OccursAt(s[i..], needle, 0) <==> OccursAt(s, needle, i)
  {
    if i + |needle| <= |s| {
      assert s[i..][0..|needle|] == s[i..i + |needle|];
    }
  }

  /** Text before the first occurrence is kept. */
  lemma {:induction false} ReplaceSkips(s: string, needle: string, filler: string, i: nat)
    requires needle != "" && i <= |s| && forall k :: 0 <= k < i ==> !OccursAt(s, needle, k)
    ensures ReplaceAll(s, needle, filler) == s[..i] + ReplaceAll(s[i..], needle, filler)
  {
    if i == 0 {
      assert s[..0] == "" && s[0..] == s;
    } else {
      ReplaceSkips(s, needle, filler, i - 1);
      OccursInSuffix(s, needle, i - 1);
      assert s[i - 1..][1..] == s[i..];
      assert s[..i] == s[..i - 1] + [s[i - 1]];
      Associate(s[..i - 1], [s[i - 1]], ReplaceAll(s[i..], needle, filler));
    }
  }

  lemma ReplaceFromFirst(s: string, needle: string, filler: string)
    requires needle != ""
    ensures Find(s, needle, 0).None? ==> ReplaceAll(s, needle, filler) == s
    ensures Find(s, needle, 0).Some? ==>
              var i := Find(s, needle, 0).value;
              ReplaceAll(s, needle, filler) == s[..i] + (filler + ReplaceAll(s[i + |needle|..], needle, filler))
  {
    hide OccursAt, ReplaceAll;
    match Find(s, needle, 0)
    case None =>
      ReplaceSkips(s, needle, filler, |s|);
      NothingToReplace(needle, filler);
      SplitAt(s, |s|);
    case Some(i) =>
      OccurrencesFit(s, needle, i);
      ReplaceSkips(s, needle, filler, i);
      OccursInSuffix(s, needle, i);
      DropDrop(s, i, |needle|);
      ReplaceAtHead(s[i..], needle, filler);
  }

  lemma ReplaceAtHead(s: string, needle: string, filler: string)
    requires needle != "" && OccursAt(s, needle, 0)
    ensures ReplaceAll(s, needle, filler) == filler + ReplaceAll(s[|needle|..], needle, filler)
  {
  }

  lemma OccurrencesFit(s: string, needle: string, i: nat)
    requires OccursAt(s, needle, i)
    ensures i + |needle| <= |s|
  {
  }

  lemma Regroup(a: string, b: string, c: string, d: string)
    ensures a + (b + (c + d)) == a + b + c + d
  {
  }

  /** `replace_all`. */
  method ReplaceAllOccurrences(s: string, needle: string, filler: string) returns (result: string)
    requires needle != ""
    ensures result == ReplaceAll(s, needle, filler)
  {
    result := "";
    var rest := s;
    while true
      invariant ReplaceAll(s, needle, filler) == result + ReplaceAll(rest, needle, filler)
      decreases |rest|
    {
      var position := Find(rest, needle, 0);
      ReplaceFromFirst(rest, needle, filler);
      if position.None? {
        break;
      }
      var after := rest[position.value + |needle|..];
      Regroup(result, rest[..position.value], filler, ReplaceAll(after, needle, filler));
      result := result + rest[..position.value] + filler;
      rest := after;
    }
    result := result + rest;
  }

  // ----- templates

  /** A template: text and placeholders. */
  datatype Piece = Literal(text: string) | Placeholder(key: string)

  predicate BraceFree(s: string) {
    forall i :: 0 <= i < |s| ==> s[i] != '{' && s[i] != '}'
  }

  predicate WellFormed(pieces: seq<Piece>) {
    forall i :: 0 <= i < |pieces| ==> BraceFree(if pieces[i].Literal? then pieces[i].text else pieces[i].key)
  }

  function Needle(key: string): string {
    "{" + key + "}"
  }

  function PieceText(p: Piece): string {
    match p case Literal(text) => text case Placeholder(key) => Needle(key)
  }

  function Text(pieces: seq<Piece>): string {
    if pieces == [] then "" else PieceText(pieces[0]) + Text(pieces[1..])
  }

  type Tags = seq<(string, string)>

  /** `replace_tags_by_value`: one tag after the other, over the whole text. */
  function ReplaceTags(text: string, tags: Tags): string
    decreases |tags|
  {
    if tags == [] then text
    else ReplaceTags(ReplaceAll(text, Needle(tags[0].0), XmlEscape(tags[0].1)), tags[1..])
  }

  method ReplaceTagsByValue(raw: string, tags: Tags) returns (text: string)
    ensures text == ReplaceTags(raw, tags)
  {
    text := raw;
    for i := 0 to |tags|
      invariant ReplaceTags(raw, tags) == ReplaceTags(text, tags[i..])
    {
      assert tags[i..][0] == tags[i] && tags[i..][1..] == tags[i + 1..];
      text := ReplaceAllOccurrences(text, Needle(tags[i].0), XmlEscape(tags[i].1));
    }
  }

  function Lookup(tags: Tags, key: string): Option<string> {
    if tags == [] then None else if tags[0].0 == key then Some(tags[0].1) else Lookup(tags[1..], key)
  }

  /** Fills all placeholders at once. */
  function Fill(pieces: seq<Piece>, tags: Tags): seq<Piece> {
    if pieces == [] then [] else [FillPiece(pieces[0], tags)] + Fill(pieces[1..], tags)
  }

  function FillPiece(p: Piece, tags: Tags): Piece {
    if p.Placeholder? && Lookup(tags, p.key).Some? then Literal(XmlEscape(Lookup(tags, p.key).value)) else p
  }

  lemma {:induction false} SkipBraceFree(literal: string, rest: string, needle: string, filler: string)
    requires BraceFree(literal) && needle != "" && needle[0] == '{'
    ensures ReplaceAll(literal + rest, needle, filler) == literal + ReplaceAll(rest, needle, filler)
  {
    if literal == "" {
      NothingBefore(rest);
      NothingBefore(ReplaceAll(rest, needle, filler));
    } else {
      ConsConcat(literal, rest);
      SkipBraceFree(literal[1..], rest, needle, filler);
      assert !OccursAt(literal + rest, needle, 0) by {
        assert (literal + rest)[0] != needle[0];
      }
      assert literal == [literal[0]] + literal[1..];
      Associate([literal[0]], literal[1..], ReplaceAll(rest, needle, filler));
    }
  }

  /** Another key's placeholder does not begin with this key's. */
  lemma NeedlesAreApart(key: string, other: string, rest: string)
    requires BraceFree(key) && BraceFree(other) && key != other
    ensures !OccursAt(Needle(other) + rest, Needle(key), 0)
  {
    var text := Needle(other) + rest;
    assert forall i :: 0 <= i < |key| ==> Needle(key)[i + 1] == key[i];
    assert forall i :: 0 <= i < |other| ==> text[i + 1] == other[i];
    var at := if |key| < |other| then |key| else |other|;
    if forall i :: 0 <= i < at ==> key[i] == other[i] {
      assert |key| == |other| ==> key == other;
      assert Needle(key)[at + 1] != text[at + 1];
    } else {
      var i :| 0 <= i < at && key[i] != other[i];
      assert Needle(key)[i + 1] != text[i + 1];
    }
  }

  lemma SkipPlaceholder(other: string, rest: string, key: string, filler: string)
    requires BraceFree(key) && BraceFree(other) && key != other
    ensures ReplaceAll(Needle(other) + rest, Needle(key), filler)
         == Needle(other) + ReplaceAll(rest, Needle(key), filler)
  {
    NeedlesAreApart(key, other, rest);
    var text := Needle(other) + rest;
    var tail := "}" + rest;
    assert text[1..] == other + tail;
    SkipBraceFree(other, tail, Needle(key), filler);
    assert tail[1..] == rest;
    assert !OccursAt(tail, Needle(key), 0) by {
      assert tail[0] != Needle(key)[0];
    }
    assert ReplaceAll(text, Needle(key), filler) == "{" + (other + ("}" + ReplaceAll(rest, Needle(key), filler)));
  }

  lemma ReplaceHere(key: string, rest: string, filler: string)
    ensures ReplaceAll(Needle(key) + rest, Needle(key), filler) == filler + ReplaceAll(rest, Needle(key), filler)
  {
    assert (Needle(key) + rest)[|Needle(key)|..] == rest;
    assert (Needle(key) + rest)[0..|Needle(key)|] == Needle(key);
  }

  /** Replacing one key's placeholder in the text fills it in the pieces. */
  lemma {:induction false} ReplacingOneKeyFillsIt(pieces: seq<Piece>, key: string, value: string)
    requires WellFormed(pieces) && BraceFree(key)
    ensures ReplaceAll(Text(pieces), Needle(key), XmlEscape(value)) == Text(Fill(pieces, [(key, value)]))
  {
    hide ReplaceAll, XmlEscape, BraceFree;
    if pieces == [] {
      NothingToReplace(Needle(key), XmlEscape(value));
    } else {
      var p, rest := pieces[0], Text(pieces[1..]);
      ReplacingOneKeyFillsIt(pieces[1..], key, value);
      assert Lookup([(key, value)][1..], if p.Placeholder? then p.key else "").None?;
      if p.Literal? {
        SkipBraceFree(p.text, rest, Needle(key), XmlEscape(value));
      } else if p.key == key {
        ReplaceHere(key, rest, XmlEscape(value));
      } else {
        SkipPlaceholder(p.key, rest, key, XmlEscape(value));
      }
    }
  }

  lemma NothingToReplace(needle: string, filler: string)
    requires needle != ""
    ensures ReplaceAll("", needle, filler) == ""
  {
  }

  predicate DistinctKeys(tags: Tags) {
    forall i, j :: 0 <= i < j < |tags| ==> tags[i].0 != tags[j].0
  }

  predicate BraceFreeTags(tags: Tags) {
    forall i :: 0 <= i < |tags| ==> BraceFree(tags[i].0) && BraceFree(tags[i].1)
  }

  lemma {:induction false} EscapedIsBraceFree(s: string)
    requires BraceFree(s)
    ensures BraceFree(Escaped(s))
  {
    if s != "" {
      EscapedIsBraceFree(s[1..]);
      assert BraceFree(Entity(s[0]));
    }
  }

  /** Filling one key, then the others, is filling them all. */
  lemma {:induction false} FillOneThenOthers(pieces: seq<Piece>, tag: (string, string), others: Tags)
    ensures Fill(Fill(pieces, [tag]), others) == Fill(pieces, [tag] + others)
  {
    hide XmlEscape, Lookup;
    if pieces != [] {
      var p := pieces[0];
      FillOneThenOthers(pieces[1..], tag, others);
      if p.Placeholder? {
        LookupFirst(tag, [], p.key);
        LookupFirst(tag, others, p.key);
        assert [tag] + [] == [tag];
      }
    }
  }

  lemma LookupFirst(tag: (string, string), others: Tags, key: string)
    ensures Lookup([tag] + others, key) == if tag.0 == key then Some(tag.1) else Lookup(others, key)
    ensures Lookup([], key) == None
  {
    assert ([tag] + others)[1..] == others;
  }

  lemma {:induction false} FillKeepsWellFormed(pieces: seq<Piece>, tags: Tags)
    requires WellFormed(pieces) && BraceFreeTags(tags)
    ensures WellFormed(Fill(pieces, tags))
  {
    hide XmlEscape, BraceFree;
    if pieces != [] {
      FillKeepsWellFormed(pieces[1..], tags);
      if pieces[0].Placeholder? && Lookup(tags, pieces[0].key).Some? {
        var value := Lookup(tags, pieces[0].key).value;
        LookupIsATag(tags, pieces[0].key);
        EscapingIsACharacterMap(value);
        EscapedIsBraceFree(value);
      }
    }
  }

  lemma {:induction false} LookupIsATag(tags: Tags, key: string)
    requires Lookup(tags, key).Some?
    ensures exists i :: 0 <= i < |tags| && tags[i] == (key, Lookup(tags, key).value)
  {
    if tags[0].0 == key {
      assert tags[0] == (key, Lookup(tags, key).value);
    } else {
      LookupIsATag(tags[1..], key);
      var i :| 0 <= i < |tags[1..]| && tags[1..][i] == (key, Lookup(tags[1..], key).value);
      assert tags[i + 1] == (key, Lookup(tags, key).value);
    }
  }

  /**
   * Replacing key by key over the whole text equals filling all placeholders at once with
   * the escaped values.
   */
  lemma {:induction false} SequentialReplacementIsSimultaneous(pieces: seq<Piece>, tags: Tags)
    requires WellFormed(pieces) && BraceFreeTags(tags)
    ensures ReplaceTags(Text(pieces), tags) == Text(Fill(pieces, tags))
    decreases |tags|
  {
    hide ReplaceAll, XmlEscape, BraceFree, Text;
    if tags == [] {
      NothingToFill(pieces);
    } else {
      var one := [tags[0]];
      assert tags == one + tags[1..];
      ReplacingOneKeyFillsIt(pieces, tags[0].0, tags[0].1);
      FillKeepsWellFormed(pieces, one);
      SequentialReplacementIsSimultaneous(Fill(pieces, one), tags[1..]);
      FillOneThenOthers(pieces, tags[0], tags[1..]);
    }
  }

  lemma {:induction false} NothingToFill(pieces: seq<Piece>)
    ensures Fill(pieces, []) == pieces
  {
    if pieces != [] {
      NothingToFill(pieces[1..]);
    }
  }

  lemma {:induction false} LookupByMembership(tags: Tags, key: string, value: string)
    requires DistinctKeys(tags)
    ensures Lookup(tags, key) == Some(value) <==> (key, value) in tags
  {
    if tags != [] {
      assert tags == [tags[0]] + tags[1..];
      LookupByMembership(tags[1..], key, value);
      if (key, value) in tags[1..] {
        assert tags[0].0 != key;
      }
    }
  }

  lemma SameLookups(a: Tags, b: Tags, key: string)
    requires DistinctKeys(a) && DistinctKeys(b) && forall t :: t in a <==> t in b
    ensures Lookup(a, key) == Lookup(b, key)
  {
    if Lookup(a, key).Some? {
      LookupByMembership(a, key, Lookup(a, key).value);
      LookupByMembership(b, key, Lookup(a, key).value);
    } else if Lookup(b, key).Some? {
      LookupByMembership(b, key, Lookup(b, key).value);
      LookupByMembership(a, key, Lookup(b, key).value);
    }
  }

  lemma {:induction false} SameFill(pieces: seq<Piece>, a: Tags, b: Tags)
    requires DistinctKeys(a) && DistinctKeys(b) && forall t :: t in a <==> t in b
    ensures Fill(pieces, a) == Fill(pieces, b)
  {
    hide Lookup, DistinctKeys, XmlEscape;
    if pieces != [] {
      SameFill(pieces[1..], a, b);
      if pieces[0].Placeholder? {
        SameLookups(a, b, pieces[0].key);
      }
    }
  }

  /** With distinct keys the order of the tags does not matter. */
  lemma TagOrderIsIrrelevant(pieces: seq<Piece>, a: Tags, b: Tags)
    requires WellFormed(pieces) && BraceFreeTags(a) && BraceFreeTags(b) && DistinctKeys(a) && DistinctKeys(b)
    requires forall t :: t in a <==> t in b
    ensures ReplaceTags(Text(pieces), a) == ReplaceTags(Text(pieces), b)
  {
    hide ReplaceTags, Text, Fill, WellFormed, BraceFreeTags, DistinctKeys;
    SequentialReplacementIsSimultaneous(pieces, a);
    SequentialReplacementIsSimultaneous(pieces, b);
    SameFill(pieces, a, b);
  }
}
