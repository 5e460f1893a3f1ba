// What the printer's text is: a text of the grammar, the shortest one when it is not formatted, and how
// formatting lays it out.
module JsonText {
  import opened Bytes
  import opened JsonStrings
  import opened JsonSpec
  import opened JsonRoundTrip
  import opened JsonGrammar
  import opened Utf8Text

  // --- Strings

  // One code point as the printer writes it.
  function CharOf(code: Scalar): Char {
    if code == 0x22 || code == 0x5C then TwoChar(code)
    else if code == 0x08 then TwoChar(0x62)
    else if code == 0x0C then TwoChar(0x66)
    else if code == 0x0A then TwoChar(0x6E)
    else if code == 0x0D then TwoChar(0x72)
    else if code == 0x09 then TwoChar(0x74)
    else if code < 0x20 then
      Char.Escaped([0x30, 0x30, 0x30 + code / 16, if code % 16 < 10 then 0x30 + code % 16 else 0x61 + code % 16 - 10])
    else Unescaped(code)
  }

  function CharsOf(codes: seq<Scalar>): (chars: seq<Char>)
    ensures |chars| == |codes| && forall i | 0 <= i < |codes| :: chars[i] == CharOf(codes[i])
  {
    if codes == [] then [] else [CharOf(codes[0])] + CharsOf(codes[1..])
  }

  lemma CharForm(code: Scalar)
    ensures Utf8Text.Grammatical(CharOf(code)) && CharText(CharOf(code)) == EscapeAll(JsonStrings.Utf8(code))
  {
    var bs := JsonStrings.Utf8(code);
    if code < 0x80 {
      assert bs == [code] && bs[1..] == [];
      assert EscapeAll(bs) == Escape(code) + EscapeAll([]);
    } else {
      HighBytes(code);
      PlainBytes(bs);
    }
  }

  lemma HighBytes(code: Scalar)
    requires code >= 0x80
    ensures forall i | 0 <= i < |JsonStrings.Utf8(code)| :: JsonStrings.Utf8(code)[i] >= 0x80
  {
  }

  lemma {:induction false} PlainBytes(bs: seq<byte>)
    requires forall i | 0 <= i < |bs| :: bs[i] >= 0x80
    ensures EscapeAll(bs) == bs
  {
    if bs != [] {
      PlainBytes(bs[1..]);
    }
  }

  lemma {:induction false} EscapeTogether(a: seq<byte>, b: seq<byte>)
    ensures EscapeAll(a + b) == EscapeAll(a) + EscapeAll(b)
  {
    hide Escape;
    if a == [] {
      assert a + b == b;
    } else {
      assert (a + b)[1..] == a[1..] + b;
      EscapeTogether(a[1..], b);
      var x, y, z := Escape(a[0]), EscapeAll(a[1..]), EscapeAll(b);
      assert x + (y + z) == (x + y) + z;
    }
  }

  lemma CodeStep(code: Scalar, chars: seq<Char>)
    requires AllGrammatical(chars)
    ensures AllGrammatical([CharOf(code)] + chars)
    ensures Codes([CharOf(code)] + chars) == Before(code, Codes(chars))
  {
    hide Text, CharText;
    CharForm(code);
    assert ([CharOf(code)] + chars)[1..] == chars;
  }

  // What is printed for a string of UTF-8 is a text of the string grammar, and stands for the string.
  lemma {:induction false} StringWritten(codes: seq<Scalar>)
    ensures AllGrammatical(CharsOf(codes)) && Text(CharsOf(codes)) == EscapeAll(EncodedText(codes))
    ensures Codes(CharsOf(codes)) == Some(codes)
  {
    hide CharOf, CharText, JsonStrings.Utf8, Utf8Text.Grammatical, Codes, EscapeAll;
    if codes == [] {
      NoChars();
    } else {
      StringWritten(codes[1..]);
      CharForm(codes[0]);
      CodeStep(codes[0], CharsOf(codes[1..]));
      var chars := CharsOf(codes);
      assert chars == [CharOf(codes[0])] + CharsOf(codes[1..]);
      assert chars[1..] == CharsOf(codes[1..]);
      EscapeTogether(JsonStrings.Utf8(codes[0]), EncodedText(codes[1..]));
      assert [codes[0]] + codes[1..] == codes;
    }
  }

  lemma NoChars()
    ensures Codes([]) == Some([]) && EscapeAll([]) == []
  {
  }

  // --- Trees

  // The text of a number is one of the grammar that strtod takes, and strings are UTF-8 without zeros.
  ghost predicate Writable(strtod: Strtod, v: Json)
    decreases v
  {
    match v
    case Number(t) => exists n :: WritableNumber(strtod, n, t)
    case String(s) => exists codes :: WritableString(codes, s)
    case Array(items) => forall i | 0 <= i < |items| :: Writable(strtod, items[i])
    case Object(members) => forall i | 0 <= i < |members| :: WritableMember(strtod, members[i])
    case _ => true
  }

  ghost predicate WritableNumber(strtod: Strtod, n: Numeral, t: seq<byte>) {
    IsNumeral(n) && NumeralText(n) == t && TakesAll(strtod, t)
  }

  ghost predicate WritableString(codes: seq<Scalar>, s: seq<byte>) {
    EncodedText(codes) == s && 0 !in s
  }

  ghost predicate WritableMember(strtod: Strtod, m: Member)
    decreases m
  {
    (exists codes :: WritableString(codes, m.key)) && Writable(strtod, m.value)
  }

  lemma NameWritten(codes: seq<Scalar>, s: seq<byte>)
    requires WritableString(codes, s)
    ensures AllGrammatical(CharsOf(codes)) && StringSource(CharsOf(codes)) == Quoted(s)
    ensures StringMeaning(CharsOf(codes)) == Some(s)
  {
    hide CharsOf, Text, Codes, EncodedText, EscapeAll, CString, AllGrammatical;
    StringWritten(codes);
    CStringOfText(s);
  }

  // What is printed, formatted or not, at any depth, is a text of the grammar that stands for the tree.
  lemma {:induction false} PrintedIsGrammatical(strtod: Strtod, v: Json, format: bool, d: nat) returns (s: Syntax)
    requires Writable(strtod, v)
    ensures JsonGrammar.Grammatical(strtod, s) && Source(s) == Render(v, format, d) && Meaning(s) == Some(v)
    decreases v, 2
  {
    hide Elements, ElementsMeaning, RenderItems, Pairs, PairsMeaning, RenderMembers, GrammaticalElement,
         GrammaticalPair, StringSource, StringMeaning, AllGrammatical, CharsOf, Quoted, WritableMember, IsNumeral,
         NumeralText, Lines, Tabs;
    match v
    case Null => s := NullText;
    case False => s := FalseText;
    case True => s := TrueText;
    case Number(t) =>
      var n :| WritableNumber(strtod, n, t);
      s := NumberSyntax(n);
    case String(t) =>
      var codes :| WritableString(codes, t);
      NameWritten(codes, t);
      s := StringSyntax(CharsOf(codes));
    case Array(items) =>
      var elements := ItemsWritten(strtod, items, format, d + 1, []);
      s := ArraySyntax([], elements);
      ArrayWritten(strtod, items, format, d, elements);
    case Object(members) =>
      var pairs := MembersWritten(strtod, members, format, d + 1);
      s := ObjectSyntax(if format then [0x0A] + Tabs(d) else [], pairs);
      ObjectWritten(strtod, members, format, d, pairs);
  }

  lemma ArrayWritten(strtod: Strtod, items: seq<Json>, format: bool, d: nat, elements: seq<Element>)
    requires |elements| == |items| && forall i | 0 <= i < |elements| :: GrammaticalElement(strtod, elements[i])
    requires items != [] ==> Elements(elements) == [] + RenderItems(items, format, d + 1)
    requires ElementsMeaning(elements) == Some(items)
    ensures var s := ArraySyntax([], elements);
      && JsonGrammar.Grammatical(strtod, s) && Source(s) == Render(Array(items), format, d)
      && Meaning(s) == Some(Array(items))
  {
    hide Elements, ElementsMeaning, RenderItems, GrammaticalElement;
    NothingPrinted(format, d + 1);
    assert [] + RenderItems(items, format, d + 1) == RenderItems(items, format, d + 1);
  }

  lemma ObjectWritten(strtod: Strtod, members: seq<Member>, format: bool, d: nat, pairs: seq<Pair>)
    requires |pairs| == |members| && forall i | 0 <= i < |pairs| :: GrammaticalPair(strtod, pairs[i])
    requires members != [] ==> Pairs(pairs) == Lines(members, format, d + 1)
    requires PairsMeaning(pairs) == Some(members)
    ensures var s := ObjectSyntax(if format then [0x0A] + Tabs(d) else [], pairs);
      && JsonGrammar.Grammatical(strtod, s) && Source(s) == Render(Object(members), format, d)
      && Meaning(s) == Some(Object(members))
  {
    hide Pairs, PairsMeaning, RenderMembers, GrammaticalPair, Tabs, Render, Lines;
    NothingPrinted(format, d + 1);
    BlankLines(format, d + 1, true);
    ObjectForm(members, format, d);
    if members == [] {
      assert Lines(members, format, d + 1) == if format then [0x0A] + Tabs(d) else [];
    }
  }

  lemma ObjectForm(members: seq<Member>, format: bool, d: nat)
    ensures Render(Object(members), format, d) == [0x7B] + Lines(members, format, d + 1) + [0x7D]
    ensures members == [] ==> Lines(members, format, d + 1) == if format then [0x0A] + Tabs(d) else []
  {
    hide RenderMembers, Tabs;
    NothingPrinted(format, d + 1);
    var newline, tabs := LineEnd(format), Indent(format, d);
    var lines := RenderMembers(members, format, d + 1);
    assert [0x7B] + newline + lines + tabs + [0x7D] == [0x7B] + (newline + (lines + tabs)) + [0x7D];
  }

  lemma NothingPrinted(format: bool, d: nat)
    ensures RenderItems([], format, d) == [] && RenderMembers([], format, d) == []
    ensures ElementsMeaning([]) == Some([]) && PairsMeaning([]) == Some([])
    ensures Elements([]) == [] && Pairs([]) == []
  {
  }

  // The items behind the blanks in front of the first one.
  lemma {:induction false} ItemsWritten(strtod: Strtod, items: seq<Json>, format: bool, d: nat, gap: seq<byte>)
    returns (elements: seq<Element>)
    requires Blank(gap) && forall i | 0 <= i < |items| :: Writable(strtod, items[i])
    ensures |elements| == |items| && forall i | 0 <= i < |elements| :: GrammaticalElement(strtod, elements[i])
    ensures items != [] ==> Elements(elements) == gap + RenderItems(items, format, d)
    ensures ElementsMeaning(elements) == Some(items)
    decreases items, 1
  {
    hide Writable, Render, Source, Meaning, JsonGrammar.Grammatical;
    if items == [] {
      elements := [];
    } else {
      var s := PrintedIsGrammatical(strtod, items[0], format, d);
      var rest := ItemsWritten(strtod, items[1..], format, d, if format then [0x20] else []);
      elements := [Element(gap, s, [])] + rest;
      assert elements[1..] == rest;
      assert [items[0]] + items[1..] == items;
      var first := Render(items[0], format, d);
      assert first + [] == first;
      assert gap + first + [] == gap + first;
    }
  }

  // What formatting puts at the end of a line, in front of a member and in front of its value.
  function LineEnd(format: bool): seq<byte> { if format then [0x0A] else [] }

  function Indent(format: bool, d: nat): seq<byte> { if format then Tabs(d) else [] }

  function NameGap(format: bool): seq<byte> { if format then [0x09] else [] }

  // The members between the opening brace and the closing one.
  function Lines(members: seq<Member>, format: bool, d: nat): seq<byte>
    requires d > 0
  {
    LineEnd(format) + (RenderMembers(members, format, d) + Indent(format, d - 1))
  }

  lemma LineParts(
    newline: seq<byte>, tabs: seq<byte>, name: seq<byte>, tab: seq<byte>, value: seq<byte>, last: bool,
    others: seq<byte>, close: seq<byte>)
    ensures var comma, behind := if last then [] else [0x2C], newline + (others + close);
      newline + ((((((tabs + name) + ([0x3A] + tab)) + value) + comma) + newline) + others + close)
      == ((newline + tabs) + (name + ([] + ([0x3A] + (tab + (value + (if last then behind else [])))))))
         + (if last then [] else [0x2C] + behind)
  {
  }

  lemma LinesStep(members: seq<Member>, format: bool, d: nat)
    requires members != [] && d > 0
    ensures var m, last := members[0], |members| == 1;
      var newline, tabs, tab := LineEnd(format), Indent(format, d), NameGap(format);
      var value, others := Render(m.value, format, d), RenderMembers(members[1..], format, d);
      var close := Indent(format, d - 1);
      Lines(members, format, d)
      == newline + ((((((tabs + Quoted(m.key)) + ([0x3A] + tab)) + value) + (if last then [] else [0x2C])) + newline)
                    + others + close)
    ensures |members| == 1 ==> RenderMembers(members[1..], format, d) == []
  {
    hide *;
    FirstMember(members, format, d);
    MemberForm(members[0], |members| == 1, format, d);
    LinesForm(members, format, d);
  }

  lemma MemberForm(m: Member, last: bool, format: bool, d: nat)
    ensures var newline, tabs, tab := LineEnd(format), Indent(format, d), NameGap(format);
      RenderMember(m, last, format, d)
      == ((((tabs + Quoted(m.key)) + ([0x3A] + tab)) + Render(m.value, format, d)) + (if last then [] else [0x2C]))
         + newline
  {
    hide Render, Quoted, Tabs;
    assert [0x3A] + NameGap(format) == if format then [COLON, TAB] else [COLON];
  }

  lemma LinesForm(members: seq<Member>, format: bool, d: nat)
    requires members != [] && d > 0
    ensures Lines(members, format, d)
         == LineEnd(format)
            + (RenderMembers(members, format, d) + Indent(format, d - 1))
    ensures |members| == 1 ==> RenderMembers(members[1..], format, d) == []
  {
    hide RenderMember, Tabs;
  }

  lemma PairIs(p: Pair, last: bool, others: seq<byte>)
    requires last ==> others == []
    ensures PairSource(p) + ((if last then [] else [0x2C]) + others)
         == (p.before + (StringSource(p.name) + (p.after + ([0x3A] + (p.element.before + (Source(p.element.value)
            + p.element.after)))))) + (if last then [] else [0x2C] + others)
  {
    hide Source, StringSource;
  }

  lemma {:induction false} MembersWritten(strtod: Strtod, members: seq<Member>, format: bool, d: nat)
    returns (pairs: seq<Pair>)
    requires d > 0 && forall i | 0 <= i < |members| :: WritableMember(strtod, members[i])
    ensures |pairs| == |members| && forall i | 0 <= i < |pairs| :: GrammaticalPair(strtod, pairs[i])
    ensures members != [] ==> Pairs(pairs) == Lines(members, format, d)
    ensures PairsMeaning(pairs) == Some(members)
    decreases members, 1
  {
    hide Writable, Render, Source, Meaning, JsonGrammar.Grammatical, RenderMembers, Lines, Quoted, StringSource,
         StringMeaning, AllGrammatical, CharsOf, Tabs, PairSource, Pairs, PairsMeaning, PairMeaning, GrammaticalPair,
         Blank;
    if members == [] {
      pairs := [];
      NothingPrinted(format, d);
    } else {
      var m, last := members[0], |members| == 1;
      var codes :| WritableString(codes, m.key);
      NameWritten(codes, m.key);
      var s := PrintedIsGrammatical(strtod, m.value, format, d);
      var rest := MembersWritten(strtod, members[1..], format, d);
      var newline, tabs, tab := LineEnd(format), Indent(format, d), NameGap(format);
      var close := Indent(format, d - 1);
      var others := RenderMembers(members[1..], format, d);
      var after := if last then newline + (others + close) else [];
      var p := Pair(newline + tabs, CharsOf(codes), [], Element(tab, s, after));
      pairs := [p] + rest;
      assert pairs[1..] == rest && [m] + members[1..] == members;
      BlankLines(format, d, last);
      LinesForm(members, format, d);
      PairWritten(strtod, p, m);
      FirstPair(pairs);
      LineWritten(members, format, d, p, rest, s, CharsOf(codes));
      PairsMeaningStep(pairs);
    }
  }

  lemma PairWritten(strtod: Strtod, p: Pair, m: Member)
    requires Blank(p.before) && p.after == [] && Blank(p.element.before) && Blank(p.element.after)
    requires AllGrammatical(p.name) && StringMeaning(p.name) == Some(m.key)
    requires JsonGrammar.Grammatical(strtod, p.element.value) && Meaning(p.element.value) == Some(m.value)
    ensures GrammaticalPair(strtod, p) && PairMeaning(p) == Some(m)
  {
    hide JsonGrammar.Grammatical, Meaning, StringMeaning, AllGrammatical;
  }

  lemma LineWritten(
    members: seq<Member>, format: bool, d: nat, p: Pair, rest: seq<Pair>, s: Syntax, name: seq<Char>)
    requires members != [] && d > 0 && |rest| == |members| - 1
    requires StringSource(name) == Quoted(members[0].key) && Source(s) == Render(members[0].value, format, d)
    requires |members| > 1 ==> Pairs(rest) == Lines(members[1..], format, d)
    requires var close := Indent(format, d - 1);
      var newline, tabs, tab := LineEnd(format), Indent(format, d), NameGap(format);
      p == Pair(newline + tabs, name, [], Element(
        tab, s, if |members| == 1 then newline + (RenderMembers(members[1..], format, d) + close) else []))
    ensures PairSource(p) + ((if |members| == 1 then [] else [0x2C]) + Pairs(rest)) == Lines(members, format, d)
  {
    hide Render, Source, RenderMembers, Quoted, StringSource, Tabs, PairSource, Pairs;
    var m, last := members[0], |members| == 1;
    var newline, tabs, tab := LineEnd(format), Indent(format, d), NameGap(format);
    var close := Indent(format, d - 1);
    var others := RenderMembers(members[1..], format, d);
    LinesStep(members, format, d);
    LineParts(newline, tabs, Quoted(m.key), tab, Render(m.value, format, d), last, others, close);
    PairsOfNothing(rest);
    PairIs(p, last, Pairs(rest));
  }

  lemma PairsOfNothing(rest: seq<Pair>)
    ensures rest == [] ==> Pairs(rest) == []
  {
  }

  lemma BlankLines(format: bool, d: nat, last: bool)
    requires d > 0
    ensures var newline, tabs := LineEnd(format), Indent(format, d);
      Blank(newline + tabs)
    ensures Blank(if last then LineEnd(format) + ([] + Indent(format, d - 1)) else [])
    ensures Blank(NameGap(format))
  {
  }

  // --- No text is shorter than the unformatted one

  lemma CharBound(c: Char)
    requires Utf8Text.Grammatical(c)
    ensures c.Unescaped? ==> |EscapeAll(JsonStrings.Utf8(c.code))| <= |CharText(c)|
    ensures c.TwoChar? ==> |EscapeAll(JsonStrings.Utf8(TWO_CHAR[c.letter]))| <= 2
  {
    if c.Unescaped? {
      CharForm(c.code);
    } else if c.TwoChar? {
      CharForm(TWO_CHAR[c.letter]);
    }
  }

  // No escape is longer than six bytes, and behind the basic plane no character.
  lemma CodeBound(code: Scalar)
    ensures |EscapeAll(JsonStrings.Utf8(code))| <= 6
  {
    CharForm(code);
  }

  // What is printed for a string is no longer than any text that stands for it.
  lemma {:induction false} StringShortest(chars: seq<Char>)
    requires AllGrammatical(chars) && Codes(chars).Some?
    ensures |EscapeAll(EncodedText(Codes(chars).value))| <= |Text(chars)|
    decreases |chars|
  {
    hide JsonStrings.Utf8, Utf8Text.Grammatical, EscapeAll, Utf8Text.Number, Surrogate, Paired;
    if chars == [] {
      NoChars();
    } else {
      var codes, c := Codes(chars).value, chars[0];
      assert Utf8Text.Grammatical(c);
      CharBound(c);
      CodeBound(codes[0]);
      if c.Escaped? {
        EscapedGrammatical(c.digits);
      }
      EscapeTogether(JsonStrings.Utf8(codes[0]), EncodedText(codes[1..]));
      if c.Escaped? && Surrogate(Utf8Text.Number(c.digits)) {
        StringShortest(chars[2..]);
        assert chars[1..][1..] == chars[2..] && Utf8Text.Grammatical(chars[1]);
      } else {
        StringShortest(chars[1..]);
      }
    }
  }

  lemma {:induction false} PrefixShorter(s: seq<byte>)
    ensures |EscapeAll(CString(s))| <= |EscapeAll(s)|
  {
    hide Escape;
    if s != [] && s[0] != 0 {
      PrefixShorter(s[1..]);
      assert CString(s)[1..] == CString(s[1..]);
    }
  }

  lemma NameShortest(chars: seq<Char>)
    requires StringMeaning(chars).Some?
    ensures |Quoted(StringMeaning(chars).value)| <= |StringSource(chars)|
  {
    hide CString, EncodedText, Text, Codes, EscapeAll, AllGrammatical;
    StringShortest(chars);
    PrefixShorter(EncodedText(Codes(chars).value));
  }

  // No text with these numbers that stands for the tree is shorter than what is printed unformatted.
  lemma {:induction false} PrintedIsShortest(s: Syntax, d: nat)
    requires Meaning(s).Some?
    ensures |Render(Meaning(s).value, false, d)| <= |Source(s)|
    decreases s, 1
  {
    hide Elements, Pairs, ElementsMeaning, PairsMeaning, RenderItems, RenderMembers, StringMeaning, Quoted,
         StringSource, NumeralText;
    match s
    case StringSyntax(chars) => NameShortest(chars);
    case ArraySyntax(gap, elements) =>
      ElementsShortest(elements, d + 1);
      NothingPrinted(false, d + 1);
    case ObjectSyntax(gap, pairs) =>
      PairsShortest(pairs, d + 1);
      NothingPrinted(false, d + 1);
    case _ =>
  }

  lemma {:induction false} ElementsShortest(elements: seq<Element>, d: nat)
    requires ElementsMeaning(elements).Some?
    ensures |RenderItems(ElementsMeaning(elements).value, false, d)| <= |Elements(elements)|
    decreases elements, 0
  {
    hide Render, Source, Meaning;
    if elements != [] {
      PrintedIsShortest(elements[0].value, d);
      ElementsShortest(elements[1..], d);
      var items := ElementsMeaning(elements).value;
      assert items[1..] == ElementsMeaning(elements[1..]).value;
    }
  }

  lemma {:induction false} PairsShortest(pairs: seq<Pair>, d: nat)
    requires PairsMeaning(pairs).Some?
    ensures |RenderMembers(PairsMeaning(pairs).value, false, d)| <= |Pairs(pairs)|
    decreases pairs, 0
  {
    hide Render, Source, Meaning, Quoted, StringMeaning, StringSource, RenderMember, RenderMembers, PairSource, Pairs;
    if pairs == [] {
      NothingPrinted(false, d);
    } else {
      var p, members := pairs[0], PairsMeaning(pairs).value;
      NameShortest(p.name);
      PrintedIsShortest(p.element.value, d);
      PairsShortest(pairs[1..], d);
      assert members[1..] == PairsMeaning(pairs[1..]).value;
      FirstMember(members, false, d);
      MemberForm(members[0], |members| == 1, false, d);
      FirstPair(pairs);
      PairForms(p, []);
    }
  }

  // --- Formatting

  // A tab behind the end of every line.
  function Indented(s: seq<byte>): seq<byte> {
    if s == [] then [] else (if s[0] == 0x0A then [0x0A, 0x09] else [s[0]]) + Indented(s[1..])
  }

  lemma {:induction false} IndentedTogether(a: seq<byte>, b: seq<byte>)
    ensures Indented(a + b) == Indented(a) + Indented(b)
  {
    if a == [] {
      assert a + b == b;
    } else {
      IndentedTogether(a[1..], b);
      assert (a + b)[1..] == a[1..] + b;
      var x := if a[0] == 0x0A then [0x0A, 0x09] else [a[0]];
      assert x + (Indented(a[1..]) + Indented(b)) == (x + Indented(a[1..])) + Indented(b);
    }
  }

  lemma {:induction false} OneLine(s: seq<byte>)
    requires 0x0A !in s
    ensures Indented(s) == s
  {
    if s != [] {
      OneLine(s[1..]);
    }
  }

  lemma NewLine(d: nat)
    ensures Indented([0x0A] + Tabs(d)) == [0x0A] + Tabs(d + 1)
  {
    OneLine(Tabs(d));
    assert ([0x0A] + Tabs(d))[1..] == Tabs(d);
    assert [0x0A, 0x09] + Tabs(d) == [0x0A] + ([TAB] + Tabs(d));
  }

  lemma QuotedOneLine(s: seq<byte>)
    ensures 0x0A !in Quoted(s)
  {
    EscapeAllPrintable(s);
  }

  lemma {:induction false} TabsForm(d: nat)
    ensures |Tabs(d)| == d && forall i | 0 <= i < d :: Tabs(d)[i] == 0x09
  {
    forall i | 0 <= i < d ensures Tabs(d)[i] == 0x09 {
      assert Tabs(d)[i] in Tabs(d);
    }
  }

  // The elements of an array stand in one line.
  lemma ItemsForward(items: seq<Json>, d: nat)
    ensures items == [] ==> RenderItems(items, true, d) == []
    ensures items != [] ==>
      RenderItems(items, true, d)
      == (Render(items[0], true, d) + (if |items| > 1 then [0x2C, 0x20] else [])) + RenderItems(items[1..], true, d)
  {
    hide Render;
  }

  // The lines of an object: each member on its own, the closing brace behind them.
  lemma LinesForward(members: seq<Member>, d: nat)
    requires d > 0
    ensures members == [] ==> Lines(members, true, d) == [0x0A] + Tabs(d - 1)
    ensures members != [] ==>
      var m := members[0];
      Lines(members, true, d)
      == ([0x0A] + Tabs(d))
         + (Quoted(m.key) + ([0x3A, 0x09] + (Render(m.value, true, d)
            + (if |members| == 1 then [0x0A] + Tabs(d - 1) else [0x2C] + Lines(members[1..], true, d)))))
  {
    hide Render, Quoted, Tabs, RenderMember, RenderMembers;
    if members == [] {
      ObjectForm(members, true, d - 1);
    } else {
      var m, others := members[0], RenderMembers(members[1..], true, d);
      LinesStep(members, true, d);
      LineParts([0x0A], Tabs(d), Quoted(m.key), [0x09], Render(m.value, true, d), |members| == 1, others, Tabs(d - 1));
      Regrouped([0x0A] + Tabs(d), Quoted(m.key), Render(m.value, true, d), [0x0A], others, Tabs(d - 1));
    }
  }

  lemma Regrouped(
    line: seq<byte>, name: seq<byte>, value: seq<byte>, newline: seq<byte>, others: seq<byte>, close: seq<byte>)
    ensures line + (name + ([] + ([0x3A] + ([0x09] + (value + (newline + ([] + close))))))) + []
         == line + (name + ([0x3A, 0x09] + (value + (newline + close))))
    ensures line + (name + ([] + ([0x3A] + ([0x09] + (value + []))))) + ([0x2C] + (newline + (others + close)))
         == line + (name + ([0x3A, 0x09] + (value + ([0x2C] + (newline + (others + close))))))
  {
  }

  // One level deeper, every line is indented by one more tab.
  lemma {:induction false} DeeperIsIndented(strtod: Strtod, v: Json, d: nat)
    requires Printable(strtod, v)
    ensures Render(v, true, d + 1) == Indented(Render(v, true, d))
    decreases v, 1
  {
    hide RenderItems, RenderMembers, Indented, Lines, Quoted;
    match v
    case String(s) =>
      QuotedOneLine(s);
      OneLine(Quoted(s));
    case Array(items) =>
      ItemsIndented(strtod, items, d + 1);
      Bracketed(0x5B, RenderItems(items, true, d + 1), 0x5D);
    case Object(members) =>
      ObjectForm(members, true, d);
      ObjectForm(members, true, d + 1);
      LinesIndented(strtod, members, d + 1);
      Bracketed(0x7B, Lines(members, true, d + 1), 0x7D);
    case _ =>
      OneLine(Render(v, true, d));
  }

  lemma Bracketed(open: byte, inner: seq<byte>, close: byte)
    requires open != 0x0A && close != 0x0A
    ensures Indented([open] + inner + [close]) == [open] + Indented(inner) + [close]
  {
    hide Indented;
    IndentedTogether([open] + inner, [close]);
    IndentedTogether([open], inner);
    OneLine([open]);
    OneLine([close]);
  }

  lemma {:induction false} ItemsIndented(strtod: Strtod, items: seq<Json>, d: nat)
    requires forall i | 0 <= i < |items| :: Printable(strtod, items[i])
    ensures RenderItems(items, true, d + 1) == Indented(RenderItems(items, true, d))
    decreases items, 0
  {
    hide Render, Printable, RenderItems;
    ItemsForward(items, d);
    ItemsForward(items, d + 1);
    if items != [] {
      DeeperIsIndented(strtod, items[0], d);
      ItemsIndented(strtod, items[1..], d);
      var first, rest := Render(items[0], true, d), RenderItems(items[1..], true, d);
      var comma := if |items| > 1 then [0x2C, 0x20] else [];
      IndentedTogether(first + comma, rest);
      IndentedTogether(first, comma);
      OneLine(comma);
    }
  }

  lemma {:induction false} LinesIndented(strtod: Strtod, members: seq<Member>, d: nat)
    requires d > 0 && forall i | 0 <= i < |members| :: PrintableMember(strtod, members[i])
    ensures Lines(members, true, d + 1) == Indented(Lines(members, true, d))
    decreases members, 0
  {
    hide Render, Printable, Lines, Indented, Tabs, Quoted;
    LinesForward(members, d);
    LinesForward(members, d + 1);
    NewLine(d - 1);
    if members != [] {
      var m, last := members[0], |members| == 1;
      var name, value := Quoted(m.key), Render(m.value, true, d);
      var more := if last then [0x0A] + Tabs(d - 1) else [0x2C] + Lines(members[1..], true, d);
      assert PrintableMember(strtod, m);
      DeeperIsIndented(strtod, m.value, d);
      if !last {
        LinesIndented(strtod, members[1..], d);
        IndentedTogether([0x2C], Lines(members[1..], true, d));
        OneLine([0x2C]);
      }
      NewLine(d);
      QuotedOneLine(m.key);
      OneLine(name);
      OneLine([0x3A, 0x09]);
      IndentedTogether([0x0A] + Tabs(d), name + ([0x3A, 0x09] + (value + more)));
      IndentedTogether(name, [0x3A, 0x09] + (value + more));
      IndentedTogether([0x3A, 0x09], value + more);
      IndentedTogether(value, more);
    }
  }
}
