// Texts of the grammar of RFC 8259, with blanks wherever they may stand, and the trees they stand for.
// The bytes of the grammar are written out here.
module JsonGrammar {
  import opened Bytes
  import opened JsonSpec
  import opened JsonRoundTrip
  import JsonStrings
  import Utf8Text

  // --- Section 6: numbers

  datatype Exponent = NoExponent | Exponent(letter: byte, sign: seq<byte>, digits: seq<byte>)

  datatype Numeral = Numeral(minus: bool, whole: seq<byte>, fraction: seq<byte>, exponent: Exponent)

  predicate Digits(s: seq<byte>) {
    forall i | 0 <= i < |s| :: 0x30 <= s[i] <= 0x39
  }

  predicate IsExponent(e: Exponent) {
    e.Exponent? ==>
      && (e.letter == 0x65 || e.letter == 0x45) && (e.sign == [] || e.sign == [0x2B] || e.sign == [0x2D])
      && e.digits != [] && Digits(e.digits)
  }

  predicate IsNumeral(n: Numeral) {
    && n.whole != [] && Digits(n.whole) && (n.whole[0] == 0x30 ==> |n.whole| == 1)
    && Digits(n.fraction) && IsExponent(n.exponent)
  }

  function ExponentText(e: Exponent): seq<byte> {
    match e
    case NoExponent => []
    case Exponent(letter, sign, digits) => [letter] + sign + digits
  }

  function NumeralText(n: Numeral): seq<byte> {
    (if n.minus then [0x2D] else []) + n.whole + (if n.fraction == [] then [] else [0x2E] + n.fraction)
    + ExponentText(n.exponent)
  }

  // A byte that occurs in numbers.
  predicate OfNumbers(b: byte) {
    0x30 <= b <= 0x39 || b == 0x2B || b == 0x2D || b == 0x2E || b == 0x45 || b == 0x65
  }

  lemma NumeralBytes(n: Numeral)
    requires IsNumeral(n)
    ensures var t := NumeralText(n);
      && t != [] && (t[0] == 0x2D || 0x30 <= t[0] <= 0x39)
      && forall i | 0 <= i < |t| :: OfNumbers(t[i])
  {
  }

  lemma NumberBytes(b: byte)
    ensures IsNumberChar(b) <==> OfNumbers(b)
  {
  }

  // The token that is given to strtod is the whole number, or its first 63 characters.
  lemma {:induction false} TokenForm(t: seq<byte>, tail: seq<byte>, n: nat)
    requires forall i | 0 <= i < |t| :: OfNumbers(t[i])
    requires tail != [] ==> !OfNumbers(tail[0])
    ensures TokenLength(t + tail, n) == if |t| <= n then |t| else n
  {
    if t == [] {
      assert t + tail == tail;
    } else if n > 0 {
      assert (t + tail)[1..] == t[1..] + tail;
      TokenForm(t[1..], tail, n - 1);
    }
  }

  lemma NumberParsed(strtod: Strtod, n: Numeral, depth: nat, tail: seq<byte>)
    requires IsNumeral(n) && (tail != [] ==> !OfNumbers(tail[0]))
    ensures var t := NumeralText(n);
      var token := if |t| <= 63 then t else t[..63];
      var k := if token in strtod then strtod[token] else 0;
      && Token(t + tail) == token
      && (k <= |token| ==>
            ParseValue(strtod, t + tail, depth) == if k == 0 then Bad else Got(Number(t[..k]), t[k..] + tail))
  {
    hide NumeralText, TokenLength, ParseValue;
    var t := NumeralText(n);
    var bs := t + tail;
    NumeralBytes(n);
    TokenForm(t, tail, 63);
    assert bs[..|t|] == t && bs[0] == t[0];
    assert |t| > 63 ==> bs[..63] == t[..63];
    ValueCases(strtod, bs, depth);
    var token := if |t| <= 63 then t else t[..63];
    var k := if token in strtod then strtod[token] else 0;
    if k <= |token| {
      assert bs[k..] == t[k..] + tail && token[..k] == t[..k];
    }
  }

  // strtod takes all of the number.
  predicate TakesAll(strtod: Strtod, t: seq<byte>) {
    |t| <= 63 && t in strtod && strtod[t] == |t|
  }

  lemma WholeNumber(strtod: Strtod, n: Numeral, depth: nat, tail: seq<byte>)
    requires IsNumeral(n) && TakesAll(strtod, NumeralText(n)) && (tail != [] ==> !OfNumbers(tail[0]))
    ensures ParseValue(strtod, NumeralText(n) + tail, depth) == Got(Number(NumeralText(n)), tail)
  {
    hide ParseValue, NumeralText, Token;
    var t := NumeralText(n);
    NumberParsed(strtod, n, depth, tail);
    NumeralBytes(n);
    assert t[..|t|] == t && t[|t|..] + tail == tail;
  }

  // --- Texts

  datatype Syntax =
    | NullText
    | FalseText
    | TrueText
    | NumberSyntax(n: Numeral)
    | StringSyntax(chars: seq<Utf8Text.Char>)
    | ArraySyntax(gap: seq<byte>, elements: seq<Element>)
    | ObjectSyntax(gap: seq<byte>, pairs: seq<Pair>)

  datatype Element = Element(before: seq<byte>, value: Syntax, after: seq<byte>)

  datatype Pair = Pair(before: seq<byte>, name: seq<Utf8Text.Char>, after: seq<byte>, element: Element)

  // White space of the grammar, and the control characters that cJSON takes for it.
  predicate Blank(s: seq<byte>) {
    forall b | b in s :: b <= 0x20
  }

  predicate Grammatical(strtod: Strtod, s: Syntax)
    decreases s
  {
    match s
    case NumberSyntax(n) => IsNumeral(n) && TakesAll(strtod, NumeralText(n))
    case StringSyntax(chars) => Utf8Text.AllGrammatical(chars)
    case ArraySyntax(gap, elements) =>
      Blank(gap) && forall i | 0 <= i < |elements| :: GrammaticalElement(strtod, elements[i])
    case ObjectSyntax(gap, pairs) =>
      Blank(gap) && forall i | 0 <= i < |pairs| :: GrammaticalPair(strtod, pairs[i])
    case _ => true
  }

  predicate GrammaticalElement(strtod: Strtod, e: Element)
    decreases e
  {
    Blank(e.before) && Blank(e.after) && Grammatical(strtod, e.value)
  }

  predicate GrammaticalPair(strtod: Strtod, p: Pair)
    decreases p
  {
    && Blank(p.before) && Blank(p.after) && Utf8Text.AllGrammatical(p.name)
    && GrammaticalElement(strtod, p.element)
  }

  function StringSource(chars: seq<Utf8Text.Char>): seq<byte> {
    [0x22] + Utf8Text.Text(chars) + [0x22]
  }

  function Source(s: Syntax): seq<byte>
    decreases s
  {
    match s
    case NullText => [0x6E, 0x75, 0x6C, 0x6C]
    case FalseText => [0x66, 0x61, 0x6C, 0x73, 0x65]
    case TrueText => [0x74, 0x72, 0x75, 0x65]
    case NumberSyntax(n) => NumeralText(n)
    case StringSyntax(chars) => StringSource(chars)
    case ArraySyntax(gap, elements) => [0x5B] + (if elements == [] then gap else Elements(elements)) + [0x5D]
    case ObjectSyntax(gap, pairs) => [0x7B] + (if pairs == [] then gap else Pairs(pairs)) + [0x7D]
  }

  function ElementSource(e: Element): seq<byte>
    decreases e
  {
    e.before + (Source(e.value) + e.after)
  }

  function Elements(elements: seq<Element>): seq<byte>
    decreases elements
  {
    if elements == [] then []
    else ElementSource(elements[0]) + ((if |elements| > 1 then [0x2C] else []) + Elements(elements[1..]))
  }

  function PairSource(p: Pair): seq<byte>
    decreases p
  {
    p.before + (StringSource(p.name) + (p.after + ([0x3A] + ElementSource(p.element))))
  }

  function Pairs(pairs: seq<Pair>): seq<byte>
    decreases pairs
  {
    if pairs == [] then []
    else PairSource(pairs[0]) + ((if |pairs| > 1 then [0x2C] else []) + Pairs(pairs[1..]))
  }

  // --- What they stand for

  // A C string ends at its first zero; a text with half of a surrogate pair alone stands for nothing.
  function StringMeaning(chars: seq<Utf8Text.Char>): Option<seq<byte>> {
    if !Utf8Text.AllGrammatical(chars) || Utf8Text.Codes(chars).None? then None
    else Some(JsonStrings.CString(Utf8Text.EncodedText(Utf8Text.Codes(chars).value)))
  }

  function Meaning(s: Syntax): Option<Json>
    decreases s
  {
    match s
    case NullText => Some(Null)
    case FalseText => Some(False)
    case TrueText => Some(True)
    case NumberSyntax(n) => Some(Number(NumeralText(n)))
    case StringSyntax(chars) =>
      var t := StringMeaning(chars);
      if t.None? then None else Some(String(t.value))
    case ArraySyntax(_, elements) =>
      var items := ElementsMeaning(elements);
      if items.None? then None else Some(Array(items.value))
    case ObjectSyntax(_, pairs) =>
      var members := PairsMeaning(pairs);
      if members.None? then None else Some(Object(members.value))
  }

  function ElementsMeaning(elements: seq<Element>): (r: Option<seq<Json>>)
    ensures r.Some? ==> |r.value| == |elements|
    decreases elements
  {
    if elements == [] then Some([])
    else
      var first, rest := Meaning(elements[0].value), ElementsMeaning(elements[1..]);
      if first.None? || rest.None? then None else Some([first.value] + rest.value)
  }

  function PairMeaning(p: Pair): Option<Member>
    decreases p
  {
    var name, value := StringMeaning(p.name), Meaning(p.element.value);
    if name.None? || value.None? then None else Some(Member(name.value, value.value))
  }

  function PairsMeaning(pairs: seq<Pair>): (r: Option<seq<Member>>)
    ensures r.Some? ==> |r.value| == |pairs|
    decreases pairs
  {
    if pairs == [] then Some([])
    else
      var first, rest := PairMeaning(pairs[0]), PairsMeaning(pairs[1..]);
      if first.None? || rest.None? then None else Some([first.value] + rest.value)
  }

  // What parsing gives: the tree, unless there is none or it is nested too deeply.
  ghost function Parsed(v: Option<Json>, depth: nat, tail: seq<byte>): Parse<Json>
    requires depth <= 1000
  {
    if v.Some? && NestsWithin(v.value, 1000 - depth) then Got(v.value, tail) else Bad
  }

  // --- Parsing

  lemma SourceStarts(strtod: Strtod, s: Syntax)
    requires Grammatical(strtod, s)
    ensures var t := Source(s); t != [] && 0x20 < t[0] < 0x80 && t[0] != 0x5D && t[0] != 0x7D && t[0] != 0x2C
  {
    if s.NumberSyntax? {
      NumeralBytes(s.n);
      hide NumeralText;
    }
  }

  // What may stand behind a value.
  predicate Ends(tail: seq<byte>) {
    tail != [] && !OfNumbers(tail[0])
  }

  lemma ScalarParsed(strtod: Strtod, s: Syntax, depth: nat, tail: seq<byte>)
    requires Grammatical(strtod, s) && !s.ArraySyntax? && !s.ObjectSyntax? && Ends(tail) && depth <= 1000
    ensures ParseValue(strtod, Source(s) + tail, depth) == Parsed(Meaning(s), depth, tail)
  {
    hide ParseValue, JsonStrings.ParseString, Utf8Text.Text, Utf8Text.Codes, Utf8Text.AllGrammatical, NumeralText,
         IsNumeral, Token;
    var bs := Source(s) + tail;
    ValueCases(strtod, bs, depth);
    match s
    case NullText =>
      assert bs[..4] == NULL_TEXT && bs[4..] == tail;
    case FalseText =>
      assert bs[..5] == FALSE_TEXT && bs[5..] == tail;
      assert bs[0] == 0x66;
    case TrueText =>
      assert bs[..4] == TRUE_TEXT && bs[4..] == tail;
      assert bs[0] == 0x74;
    case StringSyntax(chars) =>
      Utf8Text.LiteralIsDecoded(chars, tail);
      assert bs[0] == 0x22;
    case NumberSyntax(n) =>
      WholeNumber(strtod, n, depth, tail);
  }

  lemma {:induction false} ValueParsed(strtod: Strtod, s: Syntax, depth: nat, tail: seq<byte>)
    requires Grammatical(strtod, s) && Ends(tail) && depth <= 1000
    ensures ParseValue(strtod, Source(s) + tail, depth) == Parsed(Meaning(s), depth, tail)
    decreases s, 2
  {
    hide ParseValue, ParseArray, ParseObject, Elements, Pairs, ElementsMeaning, PairsMeaning, Parsed;
    var bs := Source(s) + tail;
    match s
    case ArraySyntax(gap, elements) =>
      assert bs[0] == OPEN_BRACKET;
      ValueCases(strtod, bs, depth);
      ArrayParsed(strtod, gap, elements, depth, tail);
    case ObjectSyntax(gap, pairs) =>
      assert bs[0] == OPEN_BRACE;
      ValueCases(strtod, bs, depth);
      ObjectParsed(strtod, gap, pairs, depth, tail);
    case _ =>
      ScalarParsed(strtod, s, depth, tail);
  }

  // The loop over elements skips white space that has been skipped before.
  lemma ItemsAfterSkip(strtod: Strtod, x: seq<byte>, depth: nat, items: seq<Json>)
    ensures ParseItems(strtod, SkipSpace(x), depth, items) == ParseItems(strtod, x, depth, items)
  {
    hide ParseValue, SkipSpace;
    SkipTwice(x);
  }

  lemma {:induction false} ArrayParsed(
    strtod: Strtod, gap: seq<byte>, elements: seq<Element>, depth: nat, tail: seq<byte>)
    requires Grammatical(strtod, ArraySyntax(gap, elements)) && depth <= 1000
    ensures Begins(Source(ArraySyntax(gap, elements)) + tail, OPEN_BRACKET)
    ensures ParseArray(strtod, Source(ArraySyntax(gap, elements)) + tail, depth)
         == Parsed(Meaning(ArraySyntax(gap, elements)), depth, tail)
    decreases elements, 1
  {
    hide ParseArray, ParseItems, Elements, SkipSpace, ElementsMeaning, GrammaticalElement;
    var bs := Source(ArraySyntax(gap, elements)) + tail;
    var close := [0x5D] + tail;
    var inner := (if elements == [] then gap else Elements(elements)) + close;
    assert bs == [0x5B] + inner && bs[1..] == inner;
    ArrayCases(strtod, bs, depth);
    if depth < 1000 {
      if elements == [] {
        SkipOver(gap, close);
        NoElements();
        assert close[1..] == tail;
      } else {
        ElementsStart(strtod, elements, close);
        ItemsAfterSkip(strtod, inner, depth + 1, []);
        ElementsParsed(strtod, [], elements, depth + 1, tail);
        NoneBefore(elements, depth + 1);
      }
    }
  }

  lemma NoElements()
    ensures ElementsMeaning([]) == Some([]) && PairsMeaning([]) == Some([])
  {
  }

  lemma NoneBefore(elements: seq<Element>, depth: nat)
    ensures ElementsMeaning(elements).Some? ==> [] + ElementsMeaning(elements).value == ElementsMeaning(elements).value
  {
  }

  // What stands behind an element or pair and its blanks: the closing bracket, or a comma and the others.
  function Behind(last: bool, others: seq<byte>, close: seq<byte>): seq<byte> {
    if last then close else [0x2C] + (others + close)
  }

  lemma BehindEnds(after: seq<byte>, last: bool, others: seq<byte>, close: seq<byte>)
    requires Blank(after) && close != [] && (close[0] == 0x5D || close[0] == 0x7D)
    ensures var d := Behind(last, others, close);
      && Ends(after + d) && SkipSpace(after + d) == d && d != [] && d[0] == (if last then close[0] else 0x2C)
      && (if last then d == close else d[1..] == others + close)
  {
    var d := Behind(last, others, close);
    SkipOver(after, d);
    hide SkipSpace;
    if after != [] {
      assert (after + d)[0] == after[0] && after[0] in after;
    } else {
      assert after + d == d;
    }
  }

  lemma ElementParts(
    before: seq<byte>, source: seq<byte>, after: seq<byte>, last: bool, others: seq<byte>, close: seq<byte>)
    requires last ==> others == []
    ensures ((before + (source + after)) + ((if last then [] else [0x2C]) + others)) + close
         == before + (source + (after + Behind(last, others, close)))
  {
  }

  lemma ElementsSplit(elements: seq<Element>, close: seq<byte>)
    requires elements != []
    ensures var e := elements[0];
      Elements(elements) + close
      == e.before + (Source(e.value) + (e.after + Behind(|elements| == 1, Elements(elements[1..]), close)))
    ensures |elements| == 1 ==> Elements(elements[1..]) == []
  {
    hide Source, Behind;
    var e := elements[0];
    ElementParts(e.before, Source(e.value), e.after, |elements| == 1, Elements(elements[1..]), close);
  }

  // Behind the blanks in front of it, the first element starts with its value.
  lemma ElementsStart(strtod: Strtod, elements: seq<Element>, close: seq<byte>)
    requires elements != [] && GrammaticalElement(strtod, elements[0])
    ensures !Begins(SkipSpace(Elements(elements) + close), CLOSE_BRACKET)
  {
    hide SkipSpace, Elements, Source, Grammatical;
    var e := elements[0];
    ElementsSplit(elements, close);
    SourceStarts(strtod, e.value);
    SkipOver(e.before, Source(e.value) + (e.after + Behind(|elements| == 1, Elements(elements[1..]), close)));
  }

  lemma ElementsMeaningStep(elements: seq<Element>)
    requires elements != []
    ensures var first, rest := Meaning(elements[0].value), ElementsMeaning(elements[1..]);
      ElementsMeaning(elements) == if first.None? || rest.None? then None else Some([first.value] + rest.value)
    ensures |elements| == 1 ==> ElementsMeaning(elements[1..]) == Some([])
  {
    hide Meaning;
  }

  ghost function ItemsParsed(before: seq<Json>, items: Option<seq<Json>>, depth: nat, tail: seq<byte>): Parse<Json>
    requires depth <= 1000
  {
    if items.Some? && ItemsNest(items.value, 1000 - depth) then Got(Array(before + items.value), tail) else Bad
  }

  // The first item decides, or the others do.
  lemma ItemsParsedStep(before: seq<Json>, v: Json, rest: Option<seq<Json>>, depth: nat, tail: seq<byte>)
    requires depth <= 1000
    ensures ItemsParsed(before, if rest.None? then None else Some([v] + rest.value), depth, tail)
         == if NestsWithin(v, 1000 - depth) then ItemsParsed(before + [v], rest, depth, tail) else Bad
    ensures ItemsParsed(before + [v], Some([]), depth, tail) == Got(Array(before + [v]), tail)
  {
    hide NestsWithin;
    assert before + [v] + [] == before + [v];
    if rest.Some? {
      var items := [v] + rest.value;
      assert before + items == before + [v] + rest.value;
      assert items[1..] == rest.value;
      ItemsNestSplit(items, 1000 - depth);
    }
  }

  // The elements of an array, behind those before them.
  lemma {:induction false} ElementsParsed(
    strtod: Strtod, before: seq<Json>, elements: seq<Element>, depth: nat, tail: seq<byte>)
    requires elements != [] && depth <= 1000
    requires forall i | 0 <= i < |elements| :: GrammaticalElement(strtod, elements[i])
    ensures ParseItems(strtod, Elements(elements) + ([0x5D] + tail), depth, before)
         == ItemsParsed(before, ElementsMeaning(elements), depth, tail)
    decreases elements, 0
  {
    hide ParseValue, ParseItems, Elements, ElementsMeaning, Meaning, Source, SkipSpace, ItemsParsed, Behind,
         NestsWithin, Grammatical, Ends;
    var e, last, close := elements[0], |elements| == 1, [0x5D] + tail;
    var others := Elements(elements[1..]);
    var behind := Behind(last, others, close);
    assert GrammaticalElement(strtod, e);
    ElementsSplit(elements, close);
    SourceStarts(strtod, e.value);
    SkipOver(e.before, Source(e.value) + (e.after + behind));
    BehindEnds(e.after, last, others, close);
    ItemsCases(strtod, Elements(elements) + close, depth, before);
    ValueParsed(strtod, e.value, depth, e.after + behind);
    ElementsMeaningStep(elements);
    if Meaning(e.value).Some? {
      var v := Meaning(e.value).value;
      ItemsParsedStep(before, v, ElementsMeaning(elements[1..]), depth, tail);
      if last {
        assert close[1..] == tail;
      } else {
        ElementsParsed(strtod, before + [v], elements[1..], depth, tail);
      }
    } else {
      NothingParsed(before, depth, tail);
    }
  }

  lemma NothingParsed(before: seq<Json>, depth: nat, tail: seq<byte>)
    requires depth <= 1000
    ensures ItemsParsed(before, None, depth, tail) == Bad
  {
  }

  lemma {:induction false} ObjectParsed(strtod: Strtod, gap: seq<byte>, pairs: seq<Pair>, depth: nat, tail: seq<byte>)
    requires Grammatical(strtod, ObjectSyntax(gap, pairs)) && depth <= 1000
    ensures Begins(Source(ObjectSyntax(gap, pairs)) + tail, OPEN_BRACE)
    ensures ParseObject(strtod, Source(ObjectSyntax(gap, pairs)) + tail, depth)
         == Parsed(Meaning(ObjectSyntax(gap, pairs)), depth, tail)
    decreases pairs, 4
  {
    hide ParseObject, ParseMembers, Pairs, SkipSpace, PairsMeaning, GrammaticalPair;
    var bs := Source(ObjectSyntax(gap, pairs)) + tail;
    var close := [0x7D] + tail;
    var inner := (if pairs == [] then gap else Pairs(pairs)) + close;
    assert bs == [0x7B] + inner && bs[1..] == inner;
    ObjectCases(strtod, bs, depth);
    if depth < 1000 {
      if pairs == [] {
        SkipOver(gap, close);
        NoElements();
        assert close[1..] == tail;
      } else {
        PairsStart(strtod, pairs, close);
        MembersAfterSkip(strtod, inner, depth + 1, []);
        PairsParsed(strtod, [], pairs, depth + 1, tail);
        NoPairBefore(pairs, depth + 1);
      }
    }
  }

  lemma NoPairBefore(pairs: seq<Pair>, depth: nat)
    ensures PairsMeaning(pairs).Some? ==> [] + PairsMeaning(pairs).value == PairsMeaning(pairs).value
  {
  }

  // A pair up to its value.
  function NameText(p: Pair, behind: seq<byte>): seq<byte> {
    p.before + (StringSource(p.name) + (p.after + ([0x3A] + (p.element.before + behind))))
  }

  lemma PairParts(
    before: seq<byte>, name: seq<byte>, after: seq<byte>, gap: seq<byte>, source: seq<byte>, end: seq<byte>, last: bool,
    others: seq<byte>, close: seq<byte>)
    requires last ==> others == []
    ensures ((before + (name + (after + ([0x3A] + (gap + (source + end))))))
             + ((if last then [] else [0x2C]) + others)) + close
         == before + (name + (after + ([0x3A] + (gap + (source + (end + Behind(last, others, close)))))))
  {
  }

  lemma PairsSplit(pairs: seq<Pair>, close: seq<byte>)
    requires pairs != []
    ensures var p := pairs[0];
      Pairs(pairs) + close
      == NameText(p, Source(p.element.value) + (p.element.after + Behind(|pairs| == 1, Pairs(pairs[1..]), close)))
    ensures |pairs| == 1 ==> Pairs(pairs[1..]) == []
  {
    hide *;
    var p := pairs[0];
    FirstPair(pairs);
    PairForms(p, Source(p.element.value) + (p.element.after + Behind(|pairs| == 1, Pairs(pairs[1..]), close)));
    PairParts(
      p.before, StringSource(p.name), p.after, p.element.before, Source(p.element.value), p.element.after, |pairs| == 1,
      Pairs(pairs[1..]), close);
  }

  lemma FirstPair(pairs: seq<Pair>)
    requires pairs != []
    ensures Pairs(pairs) == PairSource(pairs[0]) + ((if |pairs| == 1 then [] else [0x2C]) + Pairs(pairs[1..]))
    ensures |pairs| == 1 ==> Pairs(pairs[1..]) == []
  {
    hide PairSource;
  }

  lemma PairForms(p: Pair, behind: seq<byte>)
    ensures PairSource(p)
         == p.before + (StringSource(p.name)
            + (p.after + ([0x3A] + (p.element.before + (Source(p.element.value) + p.element.after)))))
    ensures NameText(p, behind)
         == p.before + (StringSource(p.name) + (p.after + ([0x3A] + (p.element.before + behind))))
  {
    hide Source, StringSource;
  }

  lemma PairsStart(strtod: Strtod, pairs: seq<Pair>, close: seq<byte>)
    requires pairs != [] && GrammaticalPair(strtod, pairs[0])
    ensures !Begins(SkipSpace(Pairs(pairs) + close), CLOSE_BRACE)
  {
    hide SkipSpace, Pairs, Source, Grammatical, Utf8Text.Text, Utf8Text.AllGrammatical;
    var p := pairs[0];
    PairsSplit(pairs, close);
    var behind := Source(p.element.value) + (p.element.after + Behind(|pairs| == 1, Pairs(pairs[1..]), close));
    SkipOver(p.before, StringSource(p.name) + (p.after + ([0x3A] + (p.element.before + behind))));
  }

  lemma PairsMeaningStep(pairs: seq<Pair>)
    requires pairs != []
    ensures var first, rest := PairMeaning(pairs[0]), PairsMeaning(pairs[1..]);
      PairsMeaning(pairs) == if first.None? || rest.None? then None else Some([first.value] + rest.value)
    ensures |pairs| == 1 ==> PairsMeaning(pairs[1..]) == Some([])
  {
    hide PairMeaning;
  }

  ghost function MembersParsed(
    before: seq<Member>, members: Option<seq<Member>>, depth: nat, tail: seq<byte>): Parse<Json>
    requires depth <= 1000
  {
    if members.Some? && MembersNest(members.value, 1000 - depth) then Got(Object(before + members.value), tail) else Bad
  }

  lemma MembersParsedStep(before: seq<Member>, m: Member, rest: Option<seq<Member>>, depth: nat, tail: seq<byte>)
    requires depth <= 1000
    ensures MembersParsed(before, if rest.None? then None else Some([m] + rest.value), depth, tail)
         == if NestsWithin(m.value, 1000 - depth) then MembersParsed(before + [m], rest, depth, tail) else Bad
    ensures MembersParsed(before + [m], Some([]), depth, tail) == Got(Object(before + [m]), tail)
    ensures MembersParsed(before, None, depth, tail) == Bad
  {
    hide NestsWithin;
    assert before + [m] + [] == before + [m];
    if rest.Some? {
      var members := [m] + rest.value;
      assert before + members == before + [m] + rest.value;
      assert members[1..] == rest.value;
      MembersNestSplit(members, 1000 - depth);
    }
  }

  // A name and its value, up to what stands behind the value.
  lemma {:induction false} PairParsed(strtod: Strtod, p: Pair, depth: nat, tail: seq<byte>)
    requires GrammaticalPair(strtod, p) && Ends(tail) && depth <= 1000
    ensures ParseMember(strtod, NameText(p, Source(p.element.value) + tail), depth)
         == var m := PairMeaning(p);
            if m.Some? && NestsWithin(m.value.value, 1000 - depth) then Got(m.value, tail) else Bad
    decreases p, 3
  {
    hide ParseValue, ParseMember, Meaning, Source, NestsWithin, NameAndColon, StringMeaning, NameText, SkipSpace,
         Grammatical, Ends;
    var x := Source(p.element.value) + tail;
    NameParsed(p, x);
    MemberCases(strtod, NameText(p, x), depth);
    SourceStarts(strtod, p.element.value);
    SkipOver(p.element.before, x);
    ValueParsed(strtod, p.element.value, depth, tail);
  }

  lemma NameParsed(p: Pair, x: seq<byte>)
    requires Blank(p.before) && Blank(p.after) && Utf8Text.AllGrammatical(p.name)
    ensures var name := NameAndColon(NameText(p, x));
      && (name.Got? <==> StringMeaning(p.name).Some?)
      && (name.Got? ==>
            && name.value == StringMeaning(p.name).value && name.rest != []
            && name.rest[1..] == p.element.before + x)
  {
    hide JsonStrings.ParseString, Utf8Text.Text, Utf8Text.Codes, Utf8Text.AllGrammatical, Utf8Text.EncodedText,
         JsonStrings.CString, SkipSpace;
    var colon := [0x3A] + (p.element.before + x);
    var rest := p.after + colon;
    SkipOver(p.before, StringSource(p.name) + rest);
    Utf8Text.LiteralIsDecoded(p.name, rest);
    SkipOver(p.after, colon);
    assert colon[1..] == p.element.before + x;
  }

  lemma {:induction false} PairsParsed(
    strtod: Strtod, before: seq<Member>, pairs: seq<Pair>, depth: nat, tail: seq<byte>)
    requires pairs != [] && depth <= 1000
    requires forall i | 0 <= i < |pairs| :: GrammaticalPair(strtod, pairs[i])
    ensures ParseMembers(strtod, Pairs(pairs) + ([0x7D] + tail), depth, before)
         == MembersParsed(before, PairsMeaning(pairs), depth, tail)
    decreases pairs, 2
  {
    hide ParseMember, ParseMembers, Pairs, PairsMeaning, PairMeaning, Source, SkipSpace, MembersParsed, Behind,
         NestsWithin, Grammatical, Ends, NameText, Utf8Text.AllGrammatical;
    var p, last, close := pairs[0], |pairs| == 1, [0x7D] + tail;
    var others := Pairs(pairs[1..]);
    var behind := p.element.after + Behind(last, others, close);
    assert GrammaticalPair(strtod, p) && GrammaticalElement(strtod, p.element);
    PairsSplit(pairs, close);
    BehindEnds(p.element.after, last, others, close);
    MembersCases(strtod, Pairs(pairs) + close, depth, before);
    PairParsed(strtod, p, depth, behind);
    PairsMeaningStep(pairs);
    var m := if PairMeaning(p).Some? then PairMeaning(p).value else Member([], Null);
    MembersParsedStep(before, m, PairsMeaning(pairs[1..]), depth, tail);
    if PairMeaning(p).Some? {
      if last {
        assert close[1..] == tail;
      } else {
        PairsParsed(strtod, before + [m], pairs[1..], depth, tail);
      }
    }
  }

  // --- Documents

  function Mark(present: bool): seq<byte> {
    if present then [0xEF, 0xBB, 0xBF] else []
  }

  lemma MarkSkipped(present: bool, text: seq<byte>)
    requires |text| >= 2 && text[0] < 0x80
    ensures SkipByteOrderMark(Mark(present) + text) == text
  {
    var bs := Mark(present) + text;
    if present {
      assert bs[..3] == BYTE_ORDER_MARK && bs[3..] == text;
    } else {
      assert bs == text;
    }
  }

  // A text between blanks, with or without a byte order mark: it is accepted as what it stands for;
  // where the terminator is required, blanks may stand in front of it, but nothing else.
  lemma DocumentParsed(
    strtod: Strtod, mark: bool, before: seq<byte>, s: Syntax, after: seq<byte>, end: seq<byte>, required: bool)
    requires Grammatical(strtod, s) && Blank(before) && Blank(after)
    requires end == [0] || (end != [] && end[0] > 0x20 && !OfNumbers(end[0]))
    ensures ParseDocument(strtod, Mark(mark) + (before + (Source(s) + (after + end))), required)
         == var p := Parsed(Meaning(s), 0, after + end);
            if p.Bad? || !required then p else if end == [0] then Got(p.value, [0]) else Bad
  {
    hide ParseValue, SkipSpace, SkipByteOrderMark, Source, Meaning, Grammatical, NestsWithin;
    var source, tail := Source(s), after + end;
    var text := before + (source + tail);
    SourceStarts(strtod, s);
    TextStarts(before, source + tail);
    MarkSkipped(mark, text);
    SkipOver(before, source + tail);
    EndStarts(after, end);
    ValueParsed(strtod, s, 0, tail);
    DocumentCases(strtod, Mark(mark) + text, required);
  }

  lemma TextStarts(before: seq<byte>, text: seq<byte>)
    requires Blank(before) && |text| >= 2 && text[0] < 0x80
    ensures |before + text| >= 2 && (before + text)[0] < 0x80
  {
    if before != [] {
      assert before[0] in before;
    }
  }

  lemma EndStarts(after: seq<byte>, end: seq<byte>)
    requires Blank(after) && (end == [0] || (end != [] && end[0] > 0x20 && !OfNumbers(end[0])))
    ensures Ends(after + end)
    ensures Begins(SkipSpace(after + end), 0) <==> end == [0]
    ensures end == [0] ==> SkipSpace(after + end) == [0]
  {
    if after != [] {
      assert (after + end)[0] == after[0] && after[0] in after;
    } else {
      assert after + end == end;
    }
    if end == [0] {
      SkipToTerminator(after);
    } else {
      SkipOver(after, end);
    }
  }

  lemma {:induction false} SkipToTerminator(after: seq<byte>)
    requires Blank(after)
    ensures SkipSpace(after + [0]) == [0]
  {
    if after != [] {
      assert (after + [0])[1..] == after[1..] + [0];
      assert after[0] in after && forall b | b in after[1..] :: b in after;
      SkipToTerminator(after[1..]);
    } else {
      assert after + [0] == [0];
    }
  }

  // What starts like no value is none, and the three words are taken whole or not at all.
  lemma NotParsed(strtod: Strtod, bs: seq<byte>, depth: nat)
    ensures bs == [] ==> ParseValue(strtod, bs, depth) == Bad
    ensures
      && bs != [] && bs[0] != 0x22 && bs[0] != 0x2D && !(0x30 <= bs[0] <= 0x39) && bs[0] != 0x5B && bs[0] != 0x7B
      && !([0x6E, 0x75, 0x6C, 0x6C] <= bs) && !([0x66, 0x61, 0x6C, 0x73, 0x65] <= bs)
      && !([0x74, 0x72, 0x75, 0x65] <= bs)
      ==>
      ParseValue(strtod, bs, depth) == Bad
  {
    hide ParseValue;
    ValueCases(strtod, bs, depth);
  }
}
