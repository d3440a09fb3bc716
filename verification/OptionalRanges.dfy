/**
 * Removing absent optional placeholders (src/template.rs): attributes whose whole value,
 * and elements whose whole body, is the placeholder. Text is a sequence of bytes.
 */
module OptionalRanges {
  import opened Prelude
  import opened Templates

  predicate NameByte(c: char) {
    || '0' <= c <= '9' || 'A' <= c <= 'Z' || 'a' <= c <= 'z'
    || c == ':' || c == '_' || c == '-' || c == '.'
  }

  predicate All(s: string, from: nat, to: nat, test: char -> bool)
    requires from <= to <= |s|
  {
    forall i :: from <= i < to ==> test(s[i])
  }

  /** Bytes from `cursor` on pass the test, and no byte just before them does. */
  predicate Run(raw: string, cursor: nat, from: nat, test: char -> bool)
    requires from <= |raw|
  {
    && cursor <= from
    && (forall i :: cursor <= i < from ==> test(raw[i]))
    && (cursor > 0 ==> !test(raw[cursor - 1]))
  }

  /** Where the run of bytes before a position begins. */
  function Back(raw: string, from: nat, test: char -> bool): (cursor: nat)
    requires from <= |raw|
    ensures Run(raw, cursor, from, test)
  {
    if from > 0 && test(raw[from - 1]) then Back(raw, from - 1, test) else from
  }

  method BackOver(raw: string, from: nat, test: char -> bool) returns (cursor: nat)
    requires from <= |raw|
    ensures cursor == Back(raw, from, test) && cursor <= from
  {
    cursor := from;
    while cursor > 0 && test(raw[cursor - 1])
      invariant cursor <= from && Back(raw, cursor, test) == Back(raw, from, test)
    {
      cursor := cursor - 1;
    }
  }

  lemma RunsAreUnique(raw: string, a: nat, b: nat, from: nat, test: char -> bool)
    requires from <= |raw| && Run(raw, a, from, test) && Run(raw, b, from, test)
    ensures a == b
  {
  }

  // ----- attributes

  predicate Quote(c: char) {
    c == '"' || c == '\''
  }

  /** The attribute's pieces: space, name, space, `=`, space, quote, needle, quote. */
  predicate Pieces(raw: string, needleStart: nat, needleEnd: nat, start: nat, nameStart: nat, nameEnd: nat, equals: nat)
    requires needleStart <= needleEnd <= |raw|
  {
    && 0 < needleStart && needleEnd < |raw|
    && Quote(raw[needleStart - 1]) && raw[needleEnd] == raw[needleStart - 1]
    && equals + 1 < needleStart && raw[equals] == '=' && Run(raw, equals + 1, needleStart - 1, AsciiWhitespace)
    && Run(raw, nameEnd, equals, AsciiWhitespace)
    && Run(raw, nameStart, nameEnd, NameByte) && nameStart < nameEnd
    && Run(raw, start, nameStart, AsciiWhitespace)
  }

  /**
   * `[start, end)` is an attribute whose complete value is the placeholder at
   * `[needleStart, needleEnd)`, with the white space before it.
   */
  ghost predicate AttributeAround(raw: string, needleStart: nat, needleEnd: nat, range: (nat, nat))
    requires needleStart <= needleEnd <= |raw|
  {
    && range.1 == needleEnd + 1
    && exists nameStart: nat, nameEnd: nat, equals: nat ::
        Pieces(raw, needleStart, needleEnd, range.0, nameStart, nameEnd, equals)
  }

  /** `optional_attribute_range`. */
  function AttributeRange(raw: string, needleStart: nat, needleEnd: nat): Option<(nat, nat)>
    requires needleStart <= needleEnd <= |raw|
  {
    if needleStart == 0 || needleEnd >= |raw| then None
    else if !Quote(raw[needleStart - 1]) || raw[needleEnd] != raw[needleStart - 1] then None
    else
      var cursor := Back(raw, needleStart - 1, AsciiWhitespace);
      if cursor == 0 || raw[cursor - 1] != '=' then None
      else
        var nameEnd := Back(raw, cursor - 1, AsciiWhitespace);
        var nameStart := Back(raw, nameEnd, NameByte);
        if nameStart == nameEnd then None else Some((Back(raw, nameStart, AsciiWhitespace), needleEnd + 1))
  }

  method OptionalAttributeRange(raw: string, needleStart: nat, needleEnd: nat) returns (range: Option<(nat, nat)>)
    requires needleStart <= needleEnd <= |raw|
    ensures range == AttributeRange(raw, needleStart, needleEnd)
  {
    hide Run;
    if needleStart == 0 || needleEnd >= |raw| {
      return None;
    }
    var quote := raw[needleStart - 1];
    if !Quote(quote) || raw[needleEnd] != quote {
      return None;
    }
    var cursor := BackOver(raw, needleStart - 1, AsciiWhitespace);
    if cursor == 0 || raw[cursor - 1] != '=' {
      return None;
    }
    var nameEnd := BackOver(raw, cursor - 1, AsciiWhitespace);
    var nameStart := BackOver(raw, nameEnd, NameByte);
    if nameStart == nameEnd {
      return None;
    }
    var removeStart := BackOver(raw, nameStart, AsciiWhitespace);
    range := Some((removeStart, needleEnd + 1));
  }

  /** The scan finds an attribute exactly when there is one, and then the only one. */
  lemma AttributeRangeFindsTheAttribute(raw: string, needleStart: nat, needleEnd: nat, range: (nat, nat))
    requires needleStart <= needleEnd <= |raw|
    ensures AttributeRange(raw, needleStart, needleEnd) == Some(range) <==>
        AttributeAround(raw, needleStart, needleEnd, range)
  {
    hide Back, Run;
    if AttributeRange(raw, needleStart, needleEnd) == Some(range) {
      var equals := Back(raw, needleStart - 1, AsciiWhitespace) - 1;
      BackIsBelow(raw, needleStart - 1, AsciiWhitespace);
      var nameEnd := Back(raw, equals, AsciiWhitespace);
      BackIsBelow(raw, equals, AsciiWhitespace);
      var nameStart := Back(raw, nameEnd, NameByte);
      BackIsBelow(raw, nameEnd, NameByte);
      assert Pieces(raw, needleStart, needleEnd, range.0, nameStart, nameEnd, equals);
    }
    if AttributeAround(raw, needleStart, needleEnd, range) {
      var nameStart: nat, nameEnd: nat, equals: nat :|
        Pieces(raw, needleStart, needleEnd, range.0, nameStart, nameEnd, equals);
      RunsAreUnique(raw, equals + 1, Back(raw, needleStart - 1, AsciiWhitespace), needleStart - 1, AsciiWhitespace);
      RunsAreUnique(raw, nameEnd, Back(raw, equals, AsciiWhitespace), equals, AsciiWhitespace);
      BackIsBelow(raw, equals, AsciiWhitespace);
      RunsAreUnique(raw, nameStart, Back(raw, nameEnd, NameByte), nameEnd, NameByte);
      BackIsBelow(raw, nameEnd, NameByte);
      RunsAreUnique(raw, range.0, Back(raw, nameStart, AsciiWhitespace), nameStart, AsciiWhitespace);
    }
  }

  lemma BackIsBelow(raw: string, from: nat, test: char -> bool)
    requires from <= |raw|
    ensures Back(raw, from, test) <= from
  {
  }

  // ----- elements

  predicate EndsName(c: char) {
    AsciiWhitespace(c) || c == '/' || c == '>'
  }

  /** The first position from `from` on whose byte ends an element name, or the end. */
  function NameEnd(raw: string, from: nat): (end: nat)
    requires from <= |raw|
    ensures from <= end <= |raw| && (forall i :: from <= i < end ==> !EndsName(raw[i]))
    ensures end < |raw| ==> EndsName(raw[end])
    decreases |raw| - from
  {
    if from < |raw| && !EndsName(raw[from]) then NameEnd(raw, from + 1) else from
  }

  /** `rfind('<')` before a position. */
  function LastLt(raw: string, before: nat): (r: Option<nat>)
    requires before <= |raw|
    ensures r.Some? ==> r.value < before && raw[r.value] == '<' && forall i :: r.value < i < before ==> raw[i] != '<'
    ensures r.None? ==> forall i :: 0 <= i < before ==> raw[i] != '<'
  {
    if before == 0 then None else if raw[before - 1] == '<' then Some(before - 1) else LastLt(raw, before - 1)
  }

  function CloseTag(name: string): string {
    "</" + name + ">"
  }

  /** `optional_element_range`. */
  function ElementRange(raw: string, needleStart: nat, needleEnd: nat): Option<(nat, nat)>
    requires needleStart <= needleEnd <= |raw|
  {
    if needleStart == 0 || needleEnd >= |raw| || raw[needleStart - 1] != '>' || raw[needleEnd] != '<' then None
    else
      match LastLt(raw, needleStart - 1)
      case None => None
      case Some(open) =>
        var first := raw[open + 1];
        if first == '/' || first == '!' || first == '?' then None
        else
          var nameEnd := NameEnd(raw, open + 1);
          if nameEnd == open + 1 then None
          else
            var close := CloseTag(raw[open + 1..nameEnd]);
            if OccursAt(raw, close, needleEnd) then Some((open, needleEnd + |close|)) else None
  }

  method OptionalElementRange(raw: string, needleStart: nat, needleEnd: nat) returns (range: Option<(nat, nat)>)
    requires needleStart <= needleEnd <= |raw|
    ensures range == ElementRange(raw, needleStart, needleEnd)
  {
    if needleStart == 0 || needleEnd >= |raw| || raw[needleStart - 1] != '>' || raw[needleEnd] != '<' {
      return None;
    }
    var open := LastLt(raw, needleStart - 1);
    if open.None? {
      return None;
    }
    var nameStart := open.value + 1;
    var first := raw[nameStart];
    if first == '/' || first == '!' || first == '?' {
      return None;
    }
    var nameEnd := nameStart;
    while nameEnd < |raw| && !EndsName(raw[nameEnd])
      invariant nameStart <= nameEnd <= |raw| && NameEnd(raw, nameStart) == NameEnd(raw, nameEnd)
    {
      nameEnd := nameEnd + 1;
    }
    if nameStart == nameEnd {
      return None;
    }
    var close := CloseTag(raw[nameStart..nameEnd]);
    range := if OccursAt(raw, close, needleEnd) then Some((open.value, needleEnd + |close|)) else None;
  }

  /**
   * `[start, end)` is an element whose complete body is the placeholder: the tag that ends
   * just before it, the placeholder, and that tag's closing tag.
   */
  ghost predicate ElementAround(raw: string, needleStart: nat, needleEnd: nat, range: (nat, nat))
    requires needleStart <= needleEnd <= |raw|
  {
    var (open, end) := range;
    && 0 < needleStart && needleEnd < |raw| && raw[needleEnd] == '<'
    && open + 1 < needleStart && raw[open] == '<' && raw[needleStart - 1] == '>'
    && (forall i :: open < i < needleStart - 1 ==> raw[i] != '<')
    && raw[open + 1] != '/' && raw[open + 1] != '!' && raw[open + 1] != '?'
    && exists nameEnd: nat :: NamedElement(raw, open, nameEnd, needleStart, needleEnd, end)
  }

  /** The opening tag's name ends at `nameEnd`, and its closing tag follows the placeholder up to `end`. */
  predicate NamedElement(raw: string, open: nat, nameEnd: nat, needleStart: nat, needleEnd: nat, end: nat)
    requires needleStart <= needleEnd <= |raw|
  {
    && open + 1 < nameEnd < needleStart && EndsName(raw[nameEnd])
    && (forall i :: open + 1 <= i < nameEnd ==> !EndsName(raw[i]))
    && OccursAt(raw, CloseTag(raw[open + 1..nameEnd]), needleEnd)
    && end == needleEnd + |CloseTag(raw[open + 1..nameEnd])|
  }

  /** The scan finds an element exactly when there is one, and then the only one. */
  lemma ElementRangeFindsTheElement(raw: string, needleStart: nat, needleEnd: nat, range: (nat, nat))
    requires needleStart <= needleEnd <= |raw|
    ensures ElementRange(raw, needleStart, needleEnd) == Some(range) <==>
        ElementAround(raw, needleStart, needleEnd, range)
  {
    hide ElementRange, ElementAround;
    if ElementRange(raw, needleStart, needleEnd) == Some(range) {
      FoundRangeIsAnElement(raw, needleStart, needleEnd, range);
    }
    if ElementAround(raw, needleStart, needleEnd, range) {
      ElementIsFound(raw, needleStart, needleEnd, range);
    }
  }

  lemma FoundRangeIsAnElement(raw: string, needleStart: nat, needleEnd: nat, range: (nat, nat))
    requires needleStart <= needleEnd <= |raw| && ElementRange(raw, needleStart, needleEnd) == Some(range)
    ensures ElementAround(raw, needleStart, needleEnd, range)
  {
    hide OccursAt, CloseTag, EndsName, NameEnd, LastLt;
    GreaterEndsNames();
    var nameEnd := NameEnd(raw, range.0 + 1);
    NameEndIsFirst(raw, range.0 + 1, nameEnd);
    NameEndsBefore(raw, range.0 + 1, needleStart - 1);
    LastLtIsLast(raw, needleStart - 1, range.0);
    assert NamedElement(raw, range.0, nameEnd, needleStart, needleEnd, range.1);
  }

  lemma ElementIsFound(raw: string, needleStart: nat, needleEnd: nat, range: (nat, nat))
    requires needleStart <= needleEnd <= |raw| && ElementAround(raw, needleStart, needleEnd, range)
    ensures ElementRange(raw, needleStart, needleEnd) == Some(range)
  {
    hide OccursAt, CloseTag, EndsName, NameEnd, LastLt;
    var nameEnd: nat :| NamedElement(raw, range.0, nameEnd, needleStart, needleEnd, range.1);
    LastLtIsLast(raw, needleStart - 1, range.0);
    NameEndIsFirst(raw, range.0 + 1, nameEnd);
  }

  lemma LastLtIsLast(raw: string, before: nat, open: nat)
    requires before <= |raw|
    ensures LastLt(raw, before) == Some(open) <==>
        open < before && raw[open] == '<' && forall i :: open < i < before ==> raw[i] != '<'
  {
  }

  lemma NameEndIsFirst(raw: string, from: nat, end: nat)
    requires from <= end < |raw|
    ensures NameEnd(raw, from) == end <==> EndsName(raw[end]) && forall i :: from <= i < end ==> !EndsName(raw[i])
  {
  }

  lemma GreaterEndsNames()
    ensures EndsName('>')
  {
  }

  // ----- removing ranges

  datatype Kind = Attributes | Elements

  function RangeFor(kind: Kind, raw: string, needleStart: nat, needleEnd: nat): Option<(nat, nat)>
    requires needleStart <= needleEnd <= |raw|
  {
    if kind.Attributes? then AttributeRange(raw, needleStart, needleEnd) else ElementRange(raw, needleStart, needleEnd)
  }

  /** A removed range surrounds its placeholder strictly and lies in the text. */
  lemma RangesSurround(kind: Kind, raw: string, needleStart: nat, needleEnd: nat)
    requires needleStart <= needleEnd <= |raw|
    ensures var range := RangeFor(kind, raw, needleStart, needleEnd);
            range.Some? ==> range.value.0 < needleStart && needleEnd < range.value.1 <= |raw|
  {
  }

  /** What is left of `raw[from..]` when ranges are taken out. */
  function Kept(raw: string, from: nat, removed: seq<(nat, nat)>): string
    requires from <= |raw| && Increasing(raw, from, removed)
    decreases |removed|
  {
    if removed == [] then raw[from..] else raw[from..removed[0].0] + Kept(raw, removed[0].1, removed[1..])
  }

  /** Non-empty ranges of `raw[from..]`, disjoint and in order. */
  predicate Increasing(raw: string, from: nat, removed: seq<(nat, nat)>)
    decreases |removed|
  {
    removed == [] ||
      (from <= removed[0].0 < removed[0].1 <= |raw| && Increasing(raw, removed[0].1, removed[1..]))
  }

  /** The ranges that are taken out of `raw[cursor..]`. */
  function Removed(raw: string, needle: string, kind: Kind, cursor: nat): seq<(nat, nat)>
    requires needle != "" && cursor <= |raw|
    decreases |raw| - cursor
  {
    match Find(raw, needle, cursor)
    case None => []
    case Some(position) =>
      RangesSurround(kind, raw, position, position + |needle|);
      var range := RangeFor(kind, raw, position, position + |needle|);
      if range.Some? && range.value.0 >= cursor then [range.value] + Removed(raw, needle, kind, range.value.1)
      else Removed(raw, needle, kind, position + |needle|)
  }

  lemma {:induction false} RemovedRangesIncrease(raw: string, needle: string, kind: Kind, cursor: nat, from: nat)
    requires needle != "" && from <= cursor <= |raw|
    ensures Increasing(raw, from, Removed(raw, needle, kind, cursor))
    decreases |raw| - cursor
  {
    hide RangeFor, OccursAt;
    var found := Find(raw, needle, cursor);
    if found.Some? {
      var end := found.value + |needle|;
      OccurrencesFit(raw, needle, found.value);
      RangesSurround(kind, raw, found.value, end);
      var range := RangeFor(kind, raw, found.value, end);
      if range.Some? && range.value.0 >= cursor {
        RemovedRangesIncrease(raw, needle, kind, range.value.1, range.value.1);
      } else {
        RemovedRangesIncrease(raw, needle, kind, end, from);
      }
    }
  }

  /** Text before the first removed range is kept as it is. */
  lemma KeptSplits(raw: string, from: nat, mid: nat, removed: seq<(nat, nat)>)
    requires from <= mid <= |raw| && Increasing(raw, from, removed) && Increasing(raw, mid, removed)
    ensures Kept(raw, from, removed) == raw[from..mid] + Kept(raw, mid, removed)
  {
    if removed == [] {
      assert raw[from..] == raw[from..mid] + raw[mid..];
    } else {
      assert raw[from..removed[0].0] == raw[from..mid] + raw[mid..removed[0].0];
      Associate(raw[from..mid], raw[mid..removed[0].0], Kept(raw, removed[0].1, removed[1..]));
    }
  }

  /** `remove_optional_ranges`: terminates on every input and keeps all bytes outside the removed ranges, in order. */
  method RemoveOptionalRanges(raw: string, needle: string, kind: Kind) returns (result: string)
    requires needle != ""
    ensures Increasing(raw, 0, Removed(raw, needle, kind, 0))
    ensures result == Kept(raw, 0, Removed(raw, needle, kind, 0))
  {
    hide Kept, Increasing, OccursAt, RangeFor;
    result := "";
    var cursor := 0;
    ghost var all := Removed(raw, needle, kind, 0);
    RemovedRangesIncrease(raw, needle, kind, 0, 0);
    NothingBefore(Kept(raw, 0, all));
    while true
      invariant cursor <= |raw| && Increasing(raw, cursor, Removed(raw, needle, kind, cursor))
      invariant Kept(raw, 0, all) == result + Kept(raw, cursor, Removed(raw, needle, kind, cursor))
      decreases |raw| - cursor
    {
      var position := Find(raw, needle, cursor);
      if position.None? {
        break;
      }
      var next := position.value + |needle|;
      OccurrencesFit(raw, needle, position.value);
      RangesSurround(kind, raw, position.value, next);
      var range: Option<(nat, nat)>;
      if kind.Attributes? {
        range := OptionalAttributeRange(raw, position.value, next);
      } else {
        range := OptionalElementRange(raw, position.value, next);
      }
      RangesByKind(kind, raw, position.value, next);
      if range.Some? && range.value.0 >= cursor {
        var (start, end) := range.value;
        RemovedRangesIncrease(raw, needle, kind, end, end);
        KeptFirst(raw, cursor, start, end, Removed(raw, needle, kind, end));
        Associate(result, raw[cursor..start], Kept(raw, end, Removed(raw, needle, kind, end)));
        result := result + raw[cursor..start];
        cursor := end;
      } else {
        RemovedRangesIncrease(raw, needle, kind, next, next);
        KeptSplits(raw, cursor, next, Removed(raw, needle, kind, next));
        Associate(result, raw[cursor..next], Kept(raw, next, Removed(raw, needle, kind, next)));
        result := result + raw[cursor..next];
        cursor := next;
      }
    }
    KeptRest(raw, cursor);
    result := result + raw[cursor..];
  }

  lemma RangesByKind(kind: Kind, raw: string, needleStart: nat, needleEnd: nat)
    requires needleStart <= needleEnd <= |raw|
    ensures RangeFor(kind, raw, needleStart, needleEnd)
         == if kind.Attributes? then AttributeRange(raw, needleStart, needleEnd)
            else ElementRange(raw, needleStart, needleEnd)
  {
  }

  lemma KeptRest(raw: string, cursor: nat)
    requires cursor <= |raw|
    ensures Increasing(raw, cursor, []) && Kept(raw, cursor, []) == raw[cursor..]
  {
  }

  lemma KeptFirst(raw: string, cursor: nat, start: nat, end: nat, rest: seq<(nat, nat)>)
    requires cursor <= start < end <= |raw| && Increasing(raw, end, rest)
    ensures Increasing(raw, cursor, [(start, end)] + rest)
    ensures Kept(raw, cursor, [(start, end)] + rest) == raw[cursor..start] + Kept(raw, end, rest)
  {
    assert ([(start, end)] + rest)[1..] == rest;
  }

  // ----- each removed range holds exactly one placeholder

  ghost predicate HoldsOne(raw: string, needle: string, range: (nat, nat)) {
    exists position: nat ::
      && range.0 < position && position + |needle| < range.1 && OccursAt(raw, needle, position)
      && forall i: nat :: range.0 <= i && i + |needle| <= range.1 && OccursAt(raw, needle, i) ==> i == position
  }

  lemma OccurrenceChars(raw: string, needle: string, i: nat, k: nat)
    requires OccursAt(raw, needle, i) && k < |needle|
    ensures i + k < |raw| && raw[i + k] == needle[k]
  {
    assert raw[i..i + |needle|][k] == needle[k];
  }

  lemma CharsMakeAnOccurrence(raw: string, needle: string, q: nat)
    requires q + |needle| <= |raw| && forall m :: 0 <= m < |needle| ==> raw[q + m] == needle[m]
    ensures OccursAt(raw, needle, q)
  {
  }

  /** The characters of a closing tag: its name stands between `</` and `>`. */
  lemma CloseTagChars(name: string, k: nat)
    requires k < |CloseTag(name)|
    ensures |CloseTag(name)| == |name| + 3
    ensures CloseTag(name)[k]
         == if k == 0 then '<' else if k == 1 then '/' else if k == |name| + 2 then '>' else name[k - 2]
  {
  }

  lemma NeedleEnds(key: string)
    ensures |Needle(key)| >= 2 && Needle(key)[0] == '{' && Needle(key)[|Needle(key)| - 1] == '}'
  {
  }

  /** A placeholder in a closing tag stands in its name. */
  lemma PlaceholderIsInTheName(raw: string, key: string, name: string, at: nat, i: nat)
    requires OccursAt(raw, CloseTag(name), at) && OccursAt(raw, Needle(key), i)
    requires at <= i && i + |Needle(key)| <= at + |CloseTag(name)|
    ensures i >= at + 2 && i + |Needle(key)| <= at + 2 + |name|
  {
    hide Needle, CloseTag, OccursAt;
    NeedleEnds(key);
    OccurrenceChars(raw, Needle(key), i, 0);
    OccurrenceChars(raw, Needle(key), i, |Needle(key)| - 1);
    OccurrenceChars(raw, CloseTag(name), at, i - at);
    OccurrenceChars(raw, CloseTag(name), at, i + |Needle(key)| - 1 - at);
    CloseTagChars(name, i - at);
    CloseTagChars(name, i + |Needle(key)| - 1 - at);
  }

  /** A placeholder in the closing tag also stands in the opening one. */
  lemma CloseTagHoldsNone(raw: string, key: string, position: nat, i: nat, open: nat, nameEnd: nat) returns (q: nat)
    requires position + |Needle(key)| <= i && open + 1 < nameEnd < position <= |raw|
    requires OccursAt(raw, CloseTag(raw[open + 1..nameEnd]), position + |Needle(key)|) && OccursAt(raw, Needle(key), i)
    requires i + |Needle(key)| <= position + |Needle(key)| + |CloseTag(raw[open + 1..nameEnd])|
    ensures open < q < position && OccursAt(raw, Needle(key), q)
  {
    hide Needle, CloseTag, OccursAt;
    var name, needle := raw[open + 1..nameEnd], Needle(key);
    var at := position + |needle|;
    NeedleEnds(key);
    PlaceholderIsInTheName(raw, key, name, at, i);
    q := open + 1 + (i - at - 2);
    forall m | 0 <= m < |needle|
      ensures raw[q + m] == needle[m]
    {
      OccurrenceChars(raw, needle, i, m);
      CloseTagChars(name, 0);
      OccurrenceChars(raw, CloseTag(name), at, i + m - at);
      CloseTagChars(name, i + m - at);
    }
    CharsMakeAnOccurrence(raw, needle, q);
  }

  /**
   * Moved on by `shift`, the needle agrees with itself, and what it then lacks of its end
   * can begin the closing tag of an element that an opening tag can name.
   */
  predicate RunsIntoAClosingTag(needle: string, shift: nat) {
    && 2 < shift < |needle| && needle[shift..] == needle[..|needle| - shift]
    && var tail := needle[|needle| - shift..];
       && tail[0] == '<' && tail[1] == '/' && tail[2] != '!' && tail[2] != '?'
       && forall i :: 2 <= i < |tail| ==> !EndsName(tail[i]) && tail[i] != '<'
  }

  ghost predicate NeverRunsOn(needle: string) {
    forall shift: nat :: !RunsIntoAClosingTag(needle, shift)
  }

  /** In an attribute the quote after the placeholder is not its last character. */
  lemma AttributeHoldsNoOther(raw: string, key: string, position: nat, i: nat)
    requires position + |Needle(key)| <= |raw| && OccursAt(raw, Needle(key), position)
    requires AttributeRange(raw, position, position + |Needle(key)|).Some?
    requires i > position && OccursAt(raw, Needle(key), i)
    ensures i + |Needle(key)| > AttributeRange(raw, position, position + |Needle(key)|).value.1
  {
    hide Needle, OccursAt, Back;
    NeedleEnds(key);
    OccurrenceChars(raw, Needle(key), i, |Needle(key)| - 1);
  }

  /** A second placeholder in an element overlaps the first and runs into the closing tag. */
  lemma SecondPlaceholderRunsOn(raw: string, key: string, position: nat, i: nat, range: (nat, nat))
    requires position + |Needle(key)| <= |raw| && OccursAt(raw, Needle(key), position)
    requires ElementRange(raw, position, position + |Needle(key)|) == Some(range)
    requires position < i && i + |Needle(key)| <= range.1 && OccursAt(raw, Needle(key), i)
    requires forall j :: range.0 <= j < position ==> !OccursAt(raw, Needle(key), j)
    ensures RunsIntoAClosingTag(Needle(key), i - position)
  {
    hide Needle, OccursAt, ElementRange, RunsIntoAClosingTag, CloseTag, EndsName;
    var needle := Needle(key);
    FoundRangeIsAnElement(raw, position, position + |needle|, range);
    var nameEnd: nat :| NamedElement(raw, range.0, nameEnd, position, position + |needle|, range.1);
    if position + |needle| <= i {
      var q := CloseTagHoldsNone(raw, key, position, i, range.0, nameEnd);
    } else {
      OverlapIsATag(raw, key, position, i, range.0, nameEnd);
    }
  }

  lemma OverlapIsATag(raw: string, key: string, position: nat, i: nat, open: nat, nameEnd: nat)
    requires position < i < position + |Needle(key)| && open + 1 < nameEnd < position <= |raw|
    requires OccursAt(raw, Needle(key), position) && OccursAt(raw, Needle(key), i)
    requires OccursAt(raw, CloseTag(raw[open + 1..nameEnd]), position + |Needle(key)|)
    requires i + |Needle(key)| <= position + |Needle(key)| + |CloseTag(raw[open + 1..nameEnd])|
    requires raw[open + 1] != '!' && raw[open + 1] != '?'
    requires forall k :: open + 1 <= k < nameEnd ==> !EndsName(raw[k]) && raw[k] != '<'
    ensures RunsIntoAClosingTag(Needle(key), i - position)
  {
    hide Needle, OccursAt, CloseTag, EndsName;
    var name, needle, shift := raw[open + 1..nameEnd], Needle(key), i - position;
    var n := |needle|;
    NeedleEnds(key);
    forall k | shift <= k < n
      ensures needle[k] == needle[k - shift]
    {
      OccurrenceChars(raw, needle, position, k);
      OccurrenceChars(raw, needle, i, k - shift);
    }
    forall k | n - shift <= k < n
      ensures k - (n - shift) < |CloseTag(name)| && needle[k] == CloseTag(name)[k - (n - shift)]
    {
      OccurrenceChars(raw, needle, i, k);
      OccurrenceChars(raw, CloseTag(name), position + n, k - (n - shift));
    }
    forall k | 0 <= k < |CloseTag(name)|
      ensures |CloseTag(name)| == |name| + 3
      ensures CloseTag(name)[k]
           == if k == 0 then '<' else if k == 1 then '/' else if k == |name| + 2 then '>' else raw[open + k - 1]
    {
      CloseTagChars(name, k);
    }
    assert needle[n - 1] == '}';
    assert shift > 2;
    assert needle[shift..] == needle[..n - shift];
    var tail := needle[n - shift..];
    assert forall k :: 0 <= k < |tail| ==> tail[k] == CloseTag(name)[k];
  }

  lemma FoundRangeHoldsOne(raw: string, key: string, kind: Kind, cursor: nat)
    requires kind.Attributes? || NeverRunsOn(Needle(key))
    requires cursor <= |raw| && Find(raw, Needle(key), cursor).Some?
    requires var position := Find(raw, Needle(key), cursor).value;
             position + |Needle(key)| <= |raw|
             && var range := RangeFor(kind, raw, position, position + |Needle(key)|);
                range.Some? && range.value.0 >= cursor
    ensures var position := Find(raw, Needle(key), cursor).value;
            HoldsOne(raw, Needle(key), RangeFor(kind, raw, position, position + |Needle(key)|).value)
  {
    hide OccursAt, Find, AttributeRange, ElementRange, RunsIntoAClosingTag, Needle;
    var needle := Needle(key);
    var position := Find(raw, needle, cursor).value;
    var range := RangeFor(kind, raw, position, position + |needle|).value;
    RangesSurround(kind, raw, position, position + |needle|);
    forall i: nat | range.0 <= i && i + |needle| <= range.1 && OccursAt(raw, needle, i)
      ensures i == position
    {
      if i > position {
        if kind.Attributes? {
          AttributeHoldsNoOther(raw, key, position, i);
        } else {
          SecondPlaceholderRunsOn(raw, key, position, i, range);
        }
      }
    }
  }

  lemma NameEndsBefore(raw: string, from: nat, end: nat)
    requires from <= end < |raw| && EndsName(raw[end])
    ensures NameEnd(raw, from) <= end
  {
  }

  /** The range surrounds a placeholder that no other begins before. */
  ghost predicate HoldsFirst(raw: string, needle: string, range: (nat, nat)) {
    exists position: nat ::
      && range.0 < position && position + |needle| < range.1 && OccursAt(raw, needle, position)
      && forall i: nat :: range.0 <= i < position ==> !OccursAt(raw, needle, i)
  }

  lemma FoundRangeHoldsFirst(raw: string, needle: string, kind: Kind, cursor: nat)
    requires needle != "" && cursor <= |raw| && Find(raw, needle, cursor).Some?
    requires var position := Find(raw, needle, cursor).value;
             position + |needle| <= |raw|
             && var range := RangeFor(kind, raw, position, position + |needle|); range.Some? && range.value.0 >= cursor
    ensures var position := Find(raw, needle, cursor).value;
            HoldsFirst(raw, needle, RangeFor(kind, raw, position, position + |needle|).value)
  {
    hide OccursAt, RangeFor;
    var position := Find(raw, needle, cursor).value;
    RangesSurround(kind, raw, position, position + |needle|);
  }

  /**
   * Every removed range surrounds a placeholder, the first in it. A removed attribute holds
   * no other, and a removed element holds none unless the placeholder can overlap itself by
   * running into a closing tag.
   */
  lemma {:induction false} RemovedRangesHoldOne(raw: string, key: string, kind: Kind, cursor: nat)
    requires cursor <= |raw|
    ensures forall range :: range in Removed(raw, Needle(key), kind, cursor) ==> HoldsFirst(raw, Needle(key), range)
    ensures kind.Attributes? || NeverRunsOn(Needle(key)) ==>
              forall range :: range in Removed(raw, Needle(key), kind, cursor) ==> HoldsOne(raw, Needle(key), range)
    decreases |raw| - cursor
  {
    hide NeverRunsOn, OccursAt, RangeFor, HoldsOne, HoldsFirst, Needle;
    var needle := Needle(key);
    assert needle != "" by { NeedleIsNotEmpty(key); }
    var found := Find(raw, needle, cursor);
    if found.Some? {
      var end := found.value + |needle|;
      OccurrencesFit(raw, needle, found.value);
      RangesSurround(kind, raw, found.value, end);
      var range := RangeFor(kind, raw, found.value, end);
      if range.Some? && range.value.0 >= cursor {
        FoundRangeHoldsFirst(raw, needle, kind, cursor);
        if kind.Attributes? || NeverRunsOn(needle) {
          FoundRangeHoldsOne(raw, key, kind, cursor);
        }
        RemovedRangesHoldOne(raw, key, kind, range.value.1);
      } else {
        RemovedRangesHoldOne(raw, key, kind, end);
      }
    }
  }

  lemma NeedleIsNotEmpty(key: string)
    ensures Needle(key) != ""
  {
  }

  // ----- and only then

  /** An element named by what the needle lacks of its end, around the needle. */
  function RunningText(needle: string, shift: nat): string
    requires 2 < shift < |needle|
  {
    var name := needle[|needle| - shift + 2..];
    "<" + name + ">" + needle + CloseTag(name)
  }

  /** The running text in its three parts: opening tag, needle, closing tag. */
  lemma RunningTextParts(needle: string, shift: nat)
    requires 2 < shift < |needle|
    ensures var raw, n := RunningText(needle, shift), |needle|;
            && |raw| == shift + n + shift + 1 == shift + n + |CloseTag(raw[1..shift - 1])|
            && raw[0] == '<' && raw[shift - 1] == '>'
            && (forall k :: 1 <= k < shift - 1 ==> raw[k] == needle[n - shift + 1 + k])
            && (forall k :: 0 <= k < n ==> raw[shift + k] == needle[k])
            && raw[shift + n] == '<' && raw[shift + n + 1] == '/' && raw[|raw| - 1] == '>'
            && (forall k :: shift + n + 2 <= k < shift + n + shift ==> raw[k] == needle[k - 2 * shift])
            && raw[1..shift - 1] == needle[n - shift + 2..]
            && OccursAt(raw, CloseTag(raw[1..shift - 1]), shift + n)
  {
    var name := needle[|needle| - shift + 2..];
    var raw := RunningText(needle, shift);
    assert raw[1..shift - 1] == name;
    assert raw[shift + |needle|..] == CloseTag(name);
  }

  lemma {:induction false} FirstSlash(s: string) returns (f: nat)
    requires '/' in s
    ensures f < |s| && s[f] == '/' && '/' !in s[..f]
  {
    if s[0] == '/' {
      f := 0;
    } else {
      f := FirstSlash(s[1..]);
      f := f + 1;
      assert s[..f] == [s[0]] + s[1..][..f - 1];
    }
  }

  /** The needle's first slash keeps it from beginning in the opening tag. */
  lemma NothingBeforeTheNeedle(needle: string, shift: nat, j: nat)
    requires RunsIntoAClosingTag(needle, shift) && j < shift
    ensures !OccursAt(RunningText(needle, shift), needle, j)
  {
    hide OccursAt, RunningText, EndsName;
    var raw, n := RunningText(needle, shift), |needle|;
    RunningTextParts(needle, shift);
    assert needle[n - shift..][1] == needle[n - shift + 1];
    var f := FirstSlash(needle);
    SlashEndsNames();
    forall k | 0 <= k < shift + f
      ensures raw[k] != '/'
    {
      if 1 <= k < shift - 1 {
        assert needle[n - shift..][k + 1] == raw[k];
      } else if k >= shift {
        assert raw[shift + (k - shift)] == needle[k - shift];
        assert needle[..f][k - shift] == needle[k - shift];
      }
    }
    if OccursAt(raw, needle, j) {
      OccurrenceChars(raw, needle, j, f);
    }
  }

  lemma SlashEndsNames()
    ensures EndsName('/') && EndsName('>')
  {
  }

  lemma NeedleOccursTwice(needle: string, shift: nat)
    requires RunsIntoAClosingTag(needle, shift)
    ensures OccursAt(RunningText(needle, shift), needle, shift)
    ensures OccursAt(RunningText(needle, shift), needle, 2 * shift)
  {
    hide OccursAt, RunningText, EndsName;
    var raw, n := RunningText(needle, shift), |needle|;
    RunningTextParts(needle, shift);
    CharsMakeAnOccurrence(raw, needle, shift);
    forall m | 0 <= m < n
      ensures raw[2 * shift + m] == needle[m]
    {
      if m < n - shift {
        assert needle[..n - shift][m] == needle[shift..][m];
        assert raw[shift + (shift + m)] == needle[shift + m];
      } else {
        assert needle[n - shift..][m - (n - shift)] == needle[m];
      }
    }
    CharsMakeAnOccurrence(raw, needle, 2 * shift);
  }

  lemma RunningTextIsAnElement(needle: string, shift: nat)
    requires RunsIntoAClosingTag(needle, shift)
    ensures var raw := RunningText(needle, shift);
            shift + |needle| <= |raw| && ElementRange(raw, shift, shift + |needle|) == Some((0, |raw|))
  {
    hide OccursAt, RunningText, EndsName, CloseTag, ElementRange;
    var raw, n := RunningText(needle, shift), |needle|;
    RunningTextParts(needle, shift);
    SlashEndsNames();
    forall k | 1 <= k < shift - 1
      ensures !EndsName(raw[k]) && raw[k] != '<'
    {
      assert raw[k] == needle[n - shift..][k + 1];
    }
    assert raw[1] == needle[n - shift..][2];
    assert NamedElement(raw, 0, shift - 1, shift, shift + n, |raw|);
    ElementIsFound(raw, shift, shift + n, (0, |raw|));
  }

  /** A needle that runs into a closing tag: the running text loses two placeholders at once. */
  lemma ARunRemovesTwo(key: string, shift: nat)
    requires RunsIntoAClosingTag(Needle(key), shift)
    ensures var raw := RunningText(Needle(key), shift);
            && (0, |raw|) in Removed(raw, Needle(key), Elements, 0)
            && !HoldsOne(raw, Needle(key), (0, |raw|))
  {
    hide OccursAt, RunningText, ElementRange, Needle, RunsIntoAClosingTag;
    var needle := Needle(key);
    RunBounds(needle, shift);
    var raw := RunningText(needle, shift);
    NeedleOccursTwice(needle, shift);
    RunningTextIsAnElement(needle, shift);
    RunningTextParts(needle, shift);
    forall j | 0 <= j < shift
      ensures !OccursAt(raw, needle, j)
    {
      NothingBeforeTheNeedle(needle, shift, j);
    }
    assert Find(raw, needle, 0) == Some(shift);
    RangesByKind(Elements, raw, shift, shift + |needle|);
  }

  lemma RunBounds(needle: string, shift: nat)
    requires RunsIntoAClosingTag(needle, shift)
    ensures 2 < shift < |needle|
  {
  }

  /**
   * Exactly which keys lose one placeholder per removed element, in every text: those whose
   * placeholder cannot overlap itself by running into a closing tag.
   */
  lemma ElementsHoldOneIffNeverRunningOn(key: string)
    ensures (forall raw: string, range: (nat, nat) ::
               range in Removed(raw, Needle(key), Elements, 0) ==> HoldsOne(raw, Needle(key), range))
            <==> NeverRunsOn(Needle(key))
  {
    hide HoldsOne, Removed, Needle, RunsIntoAClosingTag, RunningText;
    NeedleIsNotEmpty(key);
    if NeverRunsOn(Needle(key)) {
      forall raw: string, range: (nat, nat) | range in Removed(raw, Needle(key), Elements, 0)
        ensures HoldsOne(raw, Needle(key), range)
      {
        RemovedRangesHoldOne(raw, key, Elements, 0);
      }
    } else {
      var shift: nat :| RunsIntoAClosingTag(Needle(key), shift);
      RunBounds(Needle(key), shift);
      ARunRemovesTwo(key, shift);
    }
  }

  /** The placeholder of a key without opening braces never overlaps itself. */
  lemma OpenBracesAreNeeded(key: string)
    requires '{' !in key
    ensures NeverRunsOn(Needle(key))
  {
    forall shift: nat | 2 < shift < |Needle(key)|
      ensures !RunsIntoAClosingTag(Needle(key), shift)
    {
      assert Needle(key)[shift..][0] != '{' && Needle(key)[..|Needle(key)| - shift][0] == '{';
    }
  }

  const BRACED_KEY: string := "}</{"

  lemma BracedNeedleRunsOn()
    ensures Needle(BRACED_KEY) == "{}</{}" && RunsIntoAClosingTag("{}</{}", 4)
  {
    var needle := "{}</{}";
    assert needle[4..] == "{}" && needle[..2] == "{}" && needle[2..] == "</{}";
  }

  lemma BracedRunningText()
    ensures RunningText("{}</{}", 4) == "<{}>{}</{}</{}>"
  {
    assert "{}</{}"[4..] == "{}" && CloseTag("{}") == "</{}>";
  }

  /** A key with braces whose placeholder runs on, and the element that is removed with two of them. */
  lemma BracedKeyRemovesTwo()
    ensures RunsIntoAClosingTag(Needle(BRACED_KEY), 4)
    ensures (0, 15) in Removed("<{}>{}</{}</{}>", Needle(BRACED_KEY), Elements, 0)
    ensures !HoldsOne("<{}>{}</{}</{}>", Needle(BRACED_KEY), (0, 15))
  {
    hide Removed, HoldsOne, RunningText, RunsIntoAClosingTag, Needle;
    BracedNeedleRunsOn();
    BracedRunningText();
    ARunRemovesTwo(BRACED_KEY, 4);
  }
}
