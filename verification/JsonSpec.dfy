// JSON documents: the text cJSON prints for a tree and the tree it reads from a text.
module JsonSpec {
  import opened Bytes
  import opened JsonStrings

  const NESTING_LIMIT := 1000

  const COMMA: byte := 0x2C
  const COLON: byte := 0x3A
  const OPEN_BRACKET: byte := 0x5B
  const CLOSE_BRACKET: byte := 0x5D
  const OPEN_BRACE: byte := 0x7B
  const CLOSE_BRACE: byte := 0x7D
  const SPACE: byte := 0x20
  const TAB: byte := 0x09
  const NEWLINE: byte := 0x0A
  const MINUS: byte := 0x2D

  const NULL_TEXT: seq<byte> := [0x6E, 0x75, 0x6C, 0x6C]
  const FALSE_TEXT: seq<byte> := [0x66, 0x61, 0x6C, 0x73, 0x65]
  const TRUE_TEXT: seq<byte> := [0x74, 0x72, 0x75, 0x65]

  // A number is represented by its text; which prefix of a text strtod takes is a parameter.
  datatype Json =
    | Null
    | False
    | True
    | Number(text: seq<byte>)
    | String(s: seq<byte>)
    | Array(items: seq<Json>)
    | Object(members: seq<Member>)

  datatype Member = Member(key: seq<byte>, value: Json)

  // --- Printing

  function Tabs(n: nat): (t: seq<byte>)
    ensures |t| == n
    ensures forall b | b in t :: b == TAB
  {
    if n == 0 then [] else [TAB] + Tabs(n - 1)
  }

  // The text print_value produces at the given nesting depth.
  function Render(v: Json, format: bool, depth: nat): seq<byte>
    decreases v
  {
    match v
    case Null => NULL_TEXT
    case False => FALSE_TEXT
    case True => TRUE_TEXT
    case Number(text) => text
    case String(s) => Quoted(s)
    case Array(items) => [OPEN_BRACKET] + RenderItems(items, format, depth + 1) + [CLOSE_BRACKET]
    case Object(members) =>
      [OPEN_BRACE] + (if format then [NEWLINE] else []) + RenderMembers(members, format, depth + 1)
      + (if format then Tabs(depth) else []) + [CLOSE_BRACE]
  }

  function Separator(format: bool): seq<byte> {
    if format then [COMMA, SPACE] else [COMMA]
  }

  function RenderItems(items: seq<Json>, format: bool, depth: nat): seq<byte>
    decreases items
  {
    if items == [] then []
    else
      Render(items[0], format, depth)
      + (if |items| > 1 then Separator(format) else [])
      + RenderItems(items[1..], format, depth)
  }

  function RenderMember(m: Member, last: bool, format: bool, depth: nat): seq<byte>
    decreases m
  {
    (if format then Tabs(depth) else []) + Quoted(m.key) + (if format then [COLON, TAB] else [COLON])
    + Render(m.value, format, depth)
    + (if last then [] else [COMMA]) + (if format then [NEWLINE] else [])
  }

  function RenderMembers(members: seq<Member>, format: bool, depth: nat): seq<byte>
    decreases members
  {
    if members == [] then []
    else RenderMember(members[0], |members| == 1, format, depth) + RenderMembers(members[1..], format, depth)
  }

  // --- Reading

  predicate IsDigit(b: byte) { 0x30 <= b <= 0x39 }

  predicate IsNumberChar(b: byte) {
    IsDigit(b) || b == 0x2B || b == MINUS || b == 0x65 || b == 0x45 || b == 0x2E
  }

  // The characters copied for strtod: at most n of them.
  function TokenLength(bs: seq<byte>, n: nat): (k: nat)
    ensures k <= |bs| && k <= n && forall i | 0 <= i < k :: IsNumberChar(bs[i])
  {
    if n == 0 || bs == [] || !IsNumberChar(bs[0]) then 0 else 1 + TokenLength(bs[1..], n - 1)
  }

  function Token(bs: seq<byte>): seq<byte> {
    bs[..TokenLength(bs, 63)]
  }

  // How many characters strtod takes of each token; a token has at most 63 characters, so that a
  // finite table can hold any strtod.
  type Strtod = map<seq<byte>, nat>

  function Taken(strtod: Strtod, t: seq<byte>): (k: nat)
    ensures k <= |t|
  {
    if t in strtod && strtod[t] <= |t| then strtod[t] else 0
  }

  function ParseNumber(strtod: Strtod, bs: seq<byte>): (p: Parse<Json>)
    ensures p.Got? ==> |p.rest| < |bs|
  {
    var t := Token(bs);
    var k := Taken(strtod, t);
    if k == 0 then Bad else Got(Number(t[..k]), bs[k..])
  }

  // Skipping white space and control characters, but never past the last byte.
  function SkipSpace(bs: seq<byte>): (r: seq<byte>)
    ensures |r| <= |bs| && (bs != [] ==> r != [])
  {
    if |bs| > 1 && bs[0] <= 0x20 then SkipSpace(bs[1..]) else bs
  }

  predicate Begins(bs: seq<byte>, b: byte) {
    bs != [] && bs[0] == b
  }

  function ParseValue(strtod: Strtod, bs: seq<byte>, depth: nat): (p: Parse<Json>)
    ensures p.Got? ==> |p.rest| < |bs|
    decreases |bs|, 2
  {
    if NULL_TEXT <= bs then Got(Null, bs[4..])
    else if FALSE_TEXT <= bs then Got(False, bs[5..])
    else if TRUE_TEXT <= bs then Got(True, bs[4..])
    else if Begins(bs, QUOTE) then
      match ParseString(bs)
      case Bad => Bad
      case Got(s, rest) => Got(String(s), rest)
    else if bs != [] && (bs[0] == MINUS || IsDigit(bs[0])) then ParseNumber(strtod, bs)
    else if Begins(bs, OPEN_BRACKET) then ParseArray(strtod, bs, depth)
    else if Begins(bs, OPEN_BRACE) then ParseObject(strtod, bs, depth)
    else Bad
  }

  function ParseArray(strtod: Strtod, bs: seq<byte>, depth: nat): (p: Parse<Json>)
    requires Begins(bs, OPEN_BRACKET)
    ensures p.Got? ==> |p.rest| < |bs|
    decreases |bs|, 1
  {
    if depth >= NESTING_LIMIT then Bad
    else
      var r := SkipSpace(bs[1..]);
      if Begins(r, CLOSE_BRACKET) then Got(Array([]), r[1..])
      else ParseItems(strtod, r, depth + 1, [])
  }

  // Elements up to the closing bracket, behind those that were read before.
  function ParseItems(strtod: Strtod, bs: seq<byte>, depth: nat, items: seq<Json>): (p: Parse<Json>)
    ensures p.Got? ==> |p.rest| < |bs|
    decreases |bs|, 3
  {
    match ParseValue(strtod, SkipSpace(bs), depth)
    case Bad => Bad
    case Got(v, rest) =>
      var r := SkipSpace(rest);
      if Begins(r, COMMA) then ParseItems(strtod, r[1..], depth, items + [v])
      else if Begins(r, CLOSE_BRACKET) then Got(Array(items + [v]), r[1..])
      else Bad
  }

  function ParseObject(strtod: Strtod, bs: seq<byte>, depth: nat): (p: Parse<Json>)
    requires Begins(bs, OPEN_BRACE)
    ensures p.Got? ==> |p.rest| < |bs|
    decreases |bs|, 1
  {
    if depth >= NESTING_LIMIT then Bad
    else
      var r := SkipSpace(bs[1..]);
      if Begins(r, CLOSE_BRACE) then Got(Object([]), r[1..])
      else ParseMembers(strtod, r, depth + 1, [])
  }

  // A name and its value, up to and not including what follows the value.
  function ParseMember(strtod: Strtod, bs: seq<byte>, depth: nat): (p: Parse<Member>)
    ensures p.Got? ==> |p.rest| < |bs|
    decreases |bs|, 3
  {
    match ParseString(SkipSpace(bs))
    case Bad => Bad
    case Got(key, rest) =>
      var r := SkipSpace(rest);
      if !Begins(r, COLON) then Bad
      else
        match ParseValue(strtod, SkipSpace(r[1..]), depth)
        case Bad => Bad
        case Got(v, rest1) => Got(Member(key, v), rest1)
  }

  function ParseMembers(strtod: Strtod, bs: seq<byte>, depth: nat, members: seq<Member>): (p: Parse<Json>)
    ensures p.Got? ==> |p.rest| < |bs|
    decreases |bs|, 4
  {
    match ParseMember(strtod, bs, depth)
    case Bad => Bad
    case Got(m, rest) =>
      var r := SkipSpace(rest);
      if Begins(r, COMMA) then ParseMembers(strtod, r[1..], depth, members + [m])
      else if Begins(r, CLOSE_BRACE) then Got(Object(members + [m]), r[1..])
      else Bad
  }

  // --- The reading functions, one step at a time

  // What stands behind the last element or member decides.
  ghost function EndOfItems(r: seq<byte>, close: byte, v: Json): Parse<Json> {
    if Begins(r, close) then Got(v, r[1..]) else Bad
  }

  // One of the three words, or nothing.
  ghost function Word(bs: seq<byte>): Parse<Json> {
    if NULL_TEXT <= bs then Got(Null, bs[4..])
    else if FALSE_TEXT <= bs then Got(False, bs[5..])
    else if TRUE_TEXT <= bs then Got(True, bs[4..])
    else Bad
  }

  lemma ValueCases(strtod: Strtod, bs: seq<byte>, depth: nat)
    ensures var p := ParseValue(strtod, bs, depth);
      if Word(bs).Got? then p == Word(bs)
      else if Begins(bs, QUOTE) then
        && (p.Got? <==> ParseString(bs).Got?)
        && (p.Got? ==> p == Got(String(ParseString(bs).value), ParseString(bs).rest))
      else if bs != [] && (bs[0] == MINUS || IsDigit(bs[0])) then p == ParseNumber(strtod, bs)
      else if Begins(bs, OPEN_BRACKET) then p == ParseArray(strtod, bs, depth)
      else if Begins(bs, OPEN_BRACE) then p == ParseObject(strtod, bs, depth)
      else p == Bad
  {
    hide ParseString, ParseArray, ParseObject, ParseNumber;
  }

  // The text behind the opening bracket.
  ghost function ArrayBehind(strtod: Strtod, r: seq<byte>, depth: nat): Parse<Json> {
    if Begins(r, CLOSE_BRACKET) then Got(Array([]), r[1..]) else ParseItems(strtod, r, depth, [])
  }

  lemma ArrayCases(strtod: Strtod, bs: seq<byte>, depth: nat)
    requires Begins(bs, OPEN_BRACKET)
    ensures ParseArray(strtod, bs, depth) ==
      if depth >= NESTING_LIMIT then Bad else ArrayBehind(strtod, SkipSpace(bs[1..]), depth + 1)
  {
    hide ParseItems, SkipSpace;
  }

  // The text behind the opening bracket.
  ghost function ObjectBehind(strtod: Strtod, r: seq<byte>, depth: nat): Parse<Json> {
    if Begins(r, CLOSE_BRACE) then Got(Object([]), r[1..]) else ParseMembers(strtod, r, depth, [])
  }

  lemma ObjectCases(strtod: Strtod, bs: seq<byte>, depth: nat)
    requires Begins(bs, OPEN_BRACE)
    ensures ParseObject(strtod, bs, depth) ==
      if depth >= NESTING_LIMIT then Bad else ObjectBehind(strtod, SkipSpace(bs[1..]), depth + 1)
  {
    hide ParseMembers, SkipSpace;
  }

  lemma ItemsCases(strtod: Strtod, bs: seq<byte>, depth: nat, items: seq<Json>)
    ensures var p := ParseValue(strtod, SkipSpace(bs), depth);
      ParseItems(strtod, bs, depth, items) ==
        if p.Bad? then Bad
        else
          var r := SkipSpace(p.rest);
          if Begins(r, COMMA) then ParseItems(strtod, r[1..], depth, items + [p.value])
          else EndOfItems(r, CLOSE_BRACKET, Array(items + [p.value]))
  {
    hide ParseValue, SkipSpace;
  }

  ghost function NameAndColon(bs: seq<byte>): Parse<seq<byte>> {
    match ParseString(SkipSpace(bs))
    case Bad => Bad
    case Got(key, rest) => if Begins(SkipSpace(rest), COLON) then Got(key, SkipSpace(rest)) else Bad
  }

  lemma MemberCases(strtod: Strtod, bs: seq<byte>, depth: nat)
    ensures var name := NameAndColon(bs);
      if name.Bad? then ParseMember(strtod, bs, depth).Bad?
      else
        && name.rest != []
        && var p := ParseValue(strtod, SkipSpace(name.rest[1..]), depth);
        ParseMember(strtod, bs, depth) == if p.Bad? then Bad else Got(Member(name.value, p.value), p.rest)
  {
    hide ParseValue, SkipSpace, ParseString;
  }

  lemma MembersCases(strtod: Strtod, bs: seq<byte>, depth: nat, members: seq<Member>)
    ensures var p := ParseMember(strtod, bs, depth);
      ParseMembers(strtod, bs, depth, members) ==
        if p.Bad? then Bad
        else
          var r := SkipSpace(p.rest);
          if Begins(r, COMMA) then ParseMembers(strtod, r[1..], depth, members + [p.value])
          else EndOfItems(r, CLOSE_BRACE, Object(members + [p.value]))
  {
    hide ParseMember, SkipSpace;
  }

  // Arrays and objects are nested at most n deep.
  predicate NestsWithin(v: Json, n: nat)
    decreases v
  {
    match v
    case Array(items) => n > 0 && ItemsNest(items, n - 1)
    case Object(members) => n > 0 && MembersNest(members, n - 1)
    case _ => true
  }

  predicate ItemsNest(items: seq<Json>, n: nat)
    decreases items
  {
    forall i | 0 <= i < |items| :: NestsWithin(items[i], n)
  }

  predicate MembersNest(members: seq<Member>, n: nat)
    decreases members
  {
    forall i | 0 <= i < |members| :: NestsWithin(members[i].value, n)
  }

  // --- Whole documents

  const BYTE_ORDER_MARK: seq<byte> := [0xEF, 0xBB, 0xBF]

  function SkipByteOrderMark(bs: seq<byte>): (r: seq<byte>)
    ensures bs != [] ==> r != []
  {
    if |bs| > 4 && BYTE_ORDER_MARK <= bs then bs[3..] else bs
  }

  // The tree in a zero-terminated text and what stands behind it. Trailing text is an error only on
  // request.
  function ParseDocument(strtod: Strtod, bs: seq<byte>, requireNullTerminated: bool): Parse<Json> {
    match ParseValue(strtod, SkipSpace(SkipByteOrderMark(bs)), 0)
    case Bad => Bad
    case Got(v, rest) =>
      if !requireNullTerminated then Got(v, rest)
      else if Begins(SkipSpace(rest), 0) then Got(v, SkipSpace(rest))
      else Bad
  }

  lemma DocumentCases(strtod: Strtod, bs: seq<byte>, requireNullTerminated: bool)
    ensures var p := ParseValue(strtod, SkipSpace(SkipByteOrderMark(bs)), 0);
      ParseDocument(strtod, bs, requireNullTerminated) ==
        if p.Bad? then Bad
        else if !requireNullTerminated then p
        else if Begins(SkipSpace(p.rest), 0) then Got(p.value, SkipSpace(p.rest))
        else Bad
  {
    hide ParseValue, SkipSpace, SkipByteOrderMark, Begins;
  }
}
