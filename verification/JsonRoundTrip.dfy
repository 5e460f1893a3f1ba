// Parsing printed text gives back the tree, and what the parser accepts.
module JsonRoundTrip {
  import opened Bytes
  import opened JsonStrings
  import opened JsonSpec

  // The text of a number that strtod takes as a whole.
  predicate NumberText(strtod: Strtod, t: seq<byte>) {
    && 0 < |t| <= 63 && (t[0] == MINUS || IsDigit(t[0]))
    && (forall i | 0 <= i < |t| :: IsNumberChar(t[i]))
    && Taken(strtod, t) == |t|
  }

  // A tree whose strings are C strings and whose numbers have such a text.
  predicate Printable(strtod: Strtod, v: Json)
    decreases v
  {
    match v
    case Number(t) => NumberText(strtod, t)
    case String(s) => 0 !in s
    case Array(items) => forall i | 0 <= i < |items| :: Printable(strtod, items[i])
    case Object(members) =>
      forall i | 0 <= i < |members| :: PrintableMember(strtod, members[i])
    case _ => true
  }

  predicate PrintableMember(strtod: Strtod, m: Member)
    decreases m
  {
    0 !in m.key && Printable(strtod, m.value)
  }

  // What may stand behind a value.
  predicate Delimits(tail: seq<byte>) {
    tail != [] && !IsNumberChar(tail[0])
  }

  lemma {:induction false} TokenOfNumber(t: seq<byte>, tail: seq<byte>, n: nat)
    requires |t| <= n && Delimits(tail) && forall i | 0 <= i < |t| :: IsNumberChar(t[i])
    ensures TokenLength(t + tail, n) == |t|
  {
    if t == [] {
      assert t + tail == tail;
    } else {
      assert (t + tail)[1..] == t[1..] + tail;
      TokenOfNumber(t[1..], tail, n - 1);
    }
  }

  lemma {:induction false} SkipOver(spaces: seq<byte>, x: seq<byte>)
    requires x != [] && x[0] > 0x20 && forall b | b in spaces :: b <= 0x20
    ensures SkipSpace(spaces + x) == x
  {
    if spaces == [] {
      assert spaces + x == x;
    } else {
      assert (spaces + x)[1..] == spaces[1..] + x;
      assert spaces[0] in spaces && forall b | b in spaces[1..] :: b in spaces;
      SkipOver(spaces[1..], x);
    }
  }

  lemma SkipNothing(x: seq<byte>)
    requires x != [] && x[0] > 0x20
    ensures SkipSpace(x) == x
  {
  }

  // The text of a value starts with a character that is not white space.
  lemma {:induction false} RenderStarts(strtod: Strtod, v: Json, format: bool, depth: nat)
    requires Printable(strtod, v)
    ensures Render(v, format, depth) != [] && 0x20 < Render(v, format, depth)[0] < 0x80
    ensures Render(v, format, depth)[0] != CLOSE_BRACKET
  {
  }

  // What reading makes of a printed value: nothing when it is nested too deeply.
  ghost function Expected(v: Json, depth: nat, tail: seq<byte>): Parse<Json>
    requires depth <= NESTING_LIMIT
  {
    if NestsWithin(v, NESTING_LIMIT - depth) then Got(v, tail) else Bad
  }

  lemma ScalarInverts(strtod: Strtod, v: Json, format: bool, d: nat, depth: nat, tail: seq<byte>)
    requires !v.Array? && !v.Object? && Printable(strtod, v) && Delimits(tail)
    ensures ParseValue(strtod, Render(v, format, d) + tail, depth) == Got(v, tail)
  {
    hide ParseString, EscapeAll, TokenLength;
    var bs := Render(v, format, d) + tail;
    match v
    case Null =>
      assert bs[..4] == NULL_TEXT && bs[4..] == tail;
    case False =>
      assert bs[..5] == FALSE_TEXT && bs[5..] == tail;
      assert bs[0] == 0x66;
    case True =>
      assert bs[..4] == TRUE_TEXT && bs[4..] == tail;
      assert bs[0] == 0x74;
    case String(s) =>
      StringRoundTrip(s, tail);
      assert bs[0] == QUOTE;
    case Number(t) =>
      TokenOfNumber(t, tail, 63);
      assert bs[0] == t[0];
      assert bs[..|t|] == t && t[..|t|] == t && bs[|t|..] == tail;
  }

  // Reading what was printed, formatted or not, gives back the value if it nests no deeper than the
  // limit, and fails otherwise.
  lemma {:induction false} ValueInverts(strtod: Strtod, v: Json, format: bool, d: nat, depth: nat, tail: seq<byte>)
    requires Printable(strtod, v) && Delimits(tail) && depth <= NESTING_LIMIT
    ensures ParseValue(strtod, Render(v, format, d) + tail, depth) == Expected(v, depth, tail)
    decreases v, 2
  {
    hide ParseValue, ParseArray, ParseObject, RenderItems, RenderMembers;
    var bs := Render(v, format, d) + tail;
    match v
    case Array(items) =>
      assert bs[0] == OPEN_BRACKET;
      ValueCases(strtod, bs, depth);
      ArrayInverts(strtod, items, format, d, depth, tail);
    case Object(members) =>
      assert bs[0] == OPEN_BRACE;
      ValueCases(strtod, bs, depth);
      ObjectInverts(strtod, members, format, d, depth, tail);
    case _ =>
      ScalarInverts(strtod, v, format, d, depth, tail);
  }

  lemma {:induction false} SkipTwice(x: seq<byte>)
    ensures SkipSpace(SkipSpace(x)) == SkipSpace(x)
  {
    if |x| > 1 && x[0] <= 0x20 {
      SkipTwice(x[1..]);
    }
  }

  // The loops over elements skip white space that has been skipped before.
  lemma MembersAfterSkip(strtod: Strtod, x: seq<byte>, depth: nat, members: seq<Member>)
    ensures ParseMembers(strtod, SkipSpace(x), depth, members) == ParseMembers(strtod, x, depth, members)
  {
    hide ParseValue, ParseString, SkipSpace;
    SkipTwice(x);
  }

  lemma {:induction false} ArrayInverts(
    strtod: Strtod, items: seq<Json>, format: bool, d: nat, depth: nat, tail: seq<byte>)
    requires depth <= NESTING_LIMIT && Delimits(tail)
    requires forall i | 0 <= i < |items| :: Printable(strtod, items[i])
    ensures Begins(Render(Array(items), format, d) + tail, OPEN_BRACKET)
    ensures ParseArray(strtod, Render(Array(items), format, d) + tail, depth) == Expected(Array(items), depth, tail)
    decreases items, 1
  {
    hide ParseArray, ParseItems, RenderItems, SkipSpace;
    var inner := RenderItems(items, format, d + 1) + ([CLOSE_BRACKET] + tail);
    var bs := Render(Array(items), format, d) + tail;
    assert bs == [OPEN_BRACKET] + inner;
    assert bs[1..] == inner;
    ArrayCases(strtod, bs, depth);
    if depth < NESTING_LIMIT {
      ItemsStart(strtod, items, format, d + 1, tail);
      SkipNothing(inner);
      if items != [] {
        ItemsInvert(strtod, [], items, format, d + 1, depth + 1, tail, []);
        assert [] + inner == inner && [] + items == items;
      }
    }
  }

  lemma ItemsStart(strtod: Strtod, items: seq<Json>, format: bool, d: nat, tail: seq<byte>)
    requires items != [] ==> Printable(strtod, items[0])
    ensures var inner := RenderItems(items, format, d) + ([CLOSE_BRACKET] + tail);
      && inner != [] && inner[0] > 0x20 && (Begins(inner, CLOSE_BRACKET) <==> items == [])
      && (items == [] ==> inner[1..] == tail)
  {
    hide Render, Printable;
    if items == [] {
      assert RenderItems(items, format, d) + ([CLOSE_BRACKET] + tail) == [CLOSE_BRACKET] + tail;
    } else {
      RenderStarts(strtod, items[0], format, d);
    }
  }

  // Elements behind white space, read behind the elements before them.
  lemma {:induction false} ItemsInvert(
    strtod: Strtod, before: seq<Json>, items: seq<Json>, format: bool, d: nat, depth: nat, tail: seq<byte>,
    spaces: seq<byte>)
    requires items != [] && depth <= NESTING_LIMIT && Delimits(tail) && forall b | b in spaces :: b <= 0x20
    requires forall i | 0 <= i < |items| :: Printable(strtod, items[i])
    ensures ParseItems(strtod, spaces + (RenderItems(items, format, d) + ([CLOSE_BRACKET] + tail)), depth, before)
         == if ItemsNest(items, NESTING_LIMIT - depth) then Got(Array(before + items), tail) else Bad
    decreases items, 0
  {
    hide ParseValue, ParseItems, Render, RenderItems, Printable, NestsWithin, ItemsNest, SkipSpace, ItemTail;
    var v, last := items[0], |items| == 1;
    var rest := RenderItems(items[1..], format, d) + ([CLOSE_BRACKET] + tail);
    var behind := ItemTail(last, format, rest, tail);
    var bs := spaces + (RenderItems(items, format, d) + ([CLOSE_BRACKET] + tail));
    ItemParts(items, format, d, tail);
    RenderStarts(strtod, v, format, d);
    SkipOver(spaces, Render(v, format, d) + behind);
    ItemsCases(strtod, bs, depth, before);
    ItemTailStarts(last, format, rest, tail);
    ItemsNestSplit(items, NESTING_LIMIT - depth);
    ValueInverts(strtod, v, format, d, depth, behind);
    if !last {
      var gap := if format then [SPACE] else [];
      ItemsInvert(strtod, before + [v], items[1..], format, d, depth, tail, gap);
      assert before + [v] + items[1..] == before + items;
    } else {
      assert before + [v] == before + items;
    }
  }

  lemma ItemsNestSplit(items: seq<Json>, n: nat)
    requires items != []
    ensures ItemsNest(items, n) <==> NestsWithin(items[0], n) && (|items| > 1 ==> ItemsNest(items[1..], n))
  {
    hide NestsWithin;
    assert forall i | 1 <= i < |items| :: items[i] == items[1..][i - 1];
  }

  lemma MembersNestSplit(members: seq<Member>, n: nat)
    requires members != []
    ensures MembersNest(members, n)
      <==> NestsWithin(members[0].value, n) && (|members| > 1 ==> MembersNest(members[1..], n))
  {
    hide NestsWithin;
    assert forall i | 1 <= i < |members| :: members[i] == members[1..][i - 1];
  }

  // What stands behind an element: the closing bracket, or a separator and the other elements.
  function ItemTail(last: bool, format: bool, rest: seq<byte>, tail: seq<byte>): seq<byte> {
    if last then [CLOSE_BRACKET] + tail else Separator(format) + rest
  }

  lemma ItemParts(items: seq<Json>, format: bool, d: nat, tail: seq<byte>)
    requires items != []
    ensures RenderItems(items, format, d) + ([CLOSE_BRACKET] + tail)
      == Render(items[0], format, d)
         + ItemTail(|items| == 1, format, RenderItems(items[1..], format, d) + ([CLOSE_BRACKET] + tail), tail)
  {
    hide Render;
  }

  lemma ItemTailStarts(last: bool, format: bool, rest: seq<byte>, tail: seq<byte>)
    ensures var behind := ItemTail(last, format, rest, tail);
      && Delimits(behind) && SkipSpace(behind) == behind && Begins(behind, if last then CLOSE_BRACKET else COMMA)
      && behind[1..] == if last then tail else (if format then [SPACE] else []) + rest
  {
  }

  lemma {:induction false} ObjectInverts(
    strtod: Strtod, members: seq<Member>, format: bool, d: nat, depth: nat, tail: seq<byte>)
    requires depth <= NESTING_LIMIT && Delimits(tail)
    requires forall i | 0 <= i < |members| :: PrintableMember(strtod, members[i])
    ensures Begins(Render(Object(members), format, d) + tail, OPEN_BRACE)
    ensures ParseObject(strtod, Render(Object(members), format, d) + tail, depth)
         == Expected(Object(members), depth, tail)
    decreases members, 4
  {
    hide ParseObject, ParseMembers, RenderMembers, SkipSpace, Closing;
    var bs := Render(Object(members), format, d) + tail;
    var newline := if format then [NEWLINE] else [];
    var inner := newline + (RenderMembers(members, format, d + 1) + Closing(format, d + 1, tail));
    ObjectParts(members, format, d, tail);
    ObjectCases(strtod, bs, depth);
    if depth < NESTING_LIMIT {
      MembersStart(members, format, d + 1, newline, tail);
      if members != [] {
        MembersInvert(strtod, [], members, format, d + 1, depth + 1, tail, newline);
        MembersAfterSkip(strtod, inner, depth + 1, []);
        assert [] + members == members;
      }
    }
  }

  lemma ObjectParts(members: seq<Member>, format: bool, d: nat, tail: seq<byte>)
    ensures var bs := Render(Object(members), format, d) + tail;
      && Begins(bs, OPEN_BRACE)
      && bs[1..] == (if format then [NEWLINE] else [])
                    + (RenderMembers(members, format, d + 1) + Closing(format, d + 1, tail))
  {
    hide RenderMembers;
  }

  // Behind white space, printed members start with the quote of a name; if there are none, only the
  // closing brace is left.
  lemma MembersStart(members: seq<Member>, format: bool, d: nat, spaces: seq<byte>, tail: seq<byte>)
    requires d > 0 && forall b | b in spaces :: b <= 0x20
    ensures var r := SkipSpace(spaces + (RenderMembers(members, format, d) + Closing(format, d, tail)));
      && (Begins(r, CLOSE_BRACE) <==> members == [])
      && (members == [] ==> r[1..] == tail)
  {
    hide Render, RenderMember, MemberText, EscapeAll, SkipSpace;
    if members == [] {
      var tabs := if format then Tabs(d - 1) else [];
      assert RenderMembers(members, format, d) == [];
      assert spaces + ([] + Closing(format, d, tail)) == (spaces + tabs) + ([CLOSE_BRACE] + tail);
      assert forall b | b in spaces + tabs :: b in spaces || b in tabs;
      SkipOver(spaces + tabs, [CLOSE_BRACE] + tail);
      assert ([CLOSE_BRACE] + tail)[1..] == tail;
    } else {
      var tabs := if format then Tabs(d) else [];
      var m, last := members[0], |members| == 1;
      var rest := RenderMembers(members[1..], format, d) + Closing(format, d, tail);
      var text := MemberText(m, format, d, MemberTail(last, format, rest));
      MembersParts(members, format, d, tail);
      assert spaces + (tabs + text) == (spaces + tabs) + text;
      assert forall b | b in spaces + tabs :: b in spaces || b in tabs;
      TextStarts(m, format, d, MemberTail(last, format, rest));
      SkipOver(spaces + tabs, text);
    }
  }

  lemma TextStarts(m: Member, format: bool, d: nat, behind: seq<byte>)
    ensures Begins(MemberText(m, format, d, behind), QUOTE)
  {
  }

  // A name, its value, and what is printed behind them.
  lemma {:induction false} MemberInverts(
    strtod: Strtod, m: Member, format: bool, d: nat, depth: nat, spaces: seq<byte>, behind: seq<byte>)
    requires depth <= NESTING_LIMIT && Delimits(behind) && forall b | b in spaces :: b <= 0x20
    requires PrintableMember(strtod, m)
    ensures ParseMember(strtod, spaces + MemberText(m, format, d, behind), depth)
         == if NestsWithin(m.value, NESTING_LIMIT - depth) then Got(m, behind) else Bad
    decreases m, 3
  {
    hide ParseValue, ParseMember, Render, Printable, NestsWithin, MemberText, NameAndColon;
    var gap := if format then [TAB] else [];
    var x := Render(m.value, format, d) + behind;
    MemberCases(strtod, spaces + MemberText(m, format, d, behind), depth);
    NameInverts(m, format, d, spaces, behind);
    RenderStarts(strtod, m.value, format, d);
    SkipOver(gap, x);
    ValueInverts(strtod, m.value, format, d, depth, behind);
  }

  lemma NameInverts(m: Member, format: bool, d: nat, spaces: seq<byte>, behind: seq<byte>)
    requires 0 !in m.key && forall b | b in spaces :: b <= 0x20
    ensures var p := NameAndColon(spaces + MemberText(m, format, d, behind));
      && p.Got? && p.value == m.key && p.rest != []
      && p.rest[1..] == (if format then [TAB] else []) + (Render(m.value, format, d) + behind)
  {
    hide Render, ParseString, EscapeAll;
    var colon := if format then [COLON, TAB] else [COLON];
    var gap := if format then [TAB] else [];
    var rest := colon + (Render(m.value, format, d) + behind);
    SkipOver(spaces, Quoted(m.key) + rest);
    StringRoundTrip(m.key, rest);
    SkipNothing(rest);
    assert rest[1..] == gap + (Render(m.value, format, d) + behind);
  }

  // What is printed behind the last member of an object.
  function Closing(format: bool, d: nat, tail: seq<byte>): seq<byte>
    requires d > 0
  {
    (if format then Tabs(d - 1) else []) + ([CLOSE_BRACE] + tail)
  }

  // The text of a member behind its tabs, with what stands behind its value.
  function MemberText(m: Member, format: bool, d: nat, behind: seq<byte>): seq<byte> {
    Quoted(m.key) + ((if format then [COLON, TAB] else [COLON]) + (Render(m.value, format, d) + behind))
  }

  function MemberTail(last: bool, format: bool, rest: seq<byte>): seq<byte> {
    (if last then [] else [COMMA]) + ((if format then [NEWLINE] else []) + rest)
  }

  // Members behind white space, read behind the members before them.
  lemma {:induction false} MembersInvert(
    strtod: Strtod, before: seq<Member>, members: seq<Member>, format: bool, d: nat, depth: nat, tail: seq<byte>,
    spaces: seq<byte>)
    requires members != [] && 0 < d && depth <= NESTING_LIMIT && Delimits(tail)
    requires forall i | 0 <= i < |members| :: PrintableMember(strtod, members[i])
    requires forall b | b in spaces :: b <= 0x20
    ensures ParseMembers(
              strtod, spaces + (RenderMembers(members, format, d) + Closing(format, d, tail)), depth, before)
         == if MembersNest(members, NESTING_LIMIT - depth) then Got(Object(before + members), tail) else Bad
    decreases members, 2
  {
    hide ParseMember, ParseMembers, RenderMembers, MemberText, PrintableMember, NestsWithin, MembersNest, SkipSpace,
         Closing;
    var m, last := members[0], |members| == 1;
    var tabs := if format then Tabs(d) else [];
    var rest := RenderMembers(members[1..], format, d) + Closing(format, d, tail);
    var behind := MemberTail(last, format, rest);
    var text := MemberText(m, format, d, behind);
    var bs := spaces + (RenderMembers(members, format, d) + Closing(format, d, tail));
    MembersParts(members, format, d, tail);
    assert bs == (spaces + tabs) + text;
    assert forall b | b in spaces + tabs :: b in spaces || b in tabs;
    MembersCases(strtod, bs, depth, before);
    MembersNestSplit(members, NESTING_LIMIT - depth);
    if last {
      LastBehind(format, d, tail);
      MemberInverts(strtod, m, format, d, depth, spaces + tabs, behind);
      assert before + [m] == before + members;
    } else {
      CommaBehind(format, rest);
      MemberInverts(strtod, m, format, d, depth, spaces + tabs, behind);
      MembersInvert(strtod, before + [m], members[1..], format, d, depth, tail, if format then [NEWLINE] else []);
      assert before + [m] + members[1..] == before + members;
    }
  }

  lemma FirstMember(members: seq<Member>, format: bool, d: nat)
    requires members != []
    ensures RenderMembers(members, format, d)
         == RenderMember(members[0], |members| == 1, format, d) + RenderMembers(members[1..], format, d)
  {
    hide RenderMember;
  }

  lemma MembersParts(members: seq<Member>, format: bool, d: nat, tail: seq<byte>)
    requires members != [] && d > 0
    ensures RenderMembers(members, format, d) + Closing(format, d, tail)
      == (if format then Tabs(d) else [])
         + MemberText(
             members[0], format, d,
             MemberTail(|members| == 1, format, RenderMembers(members[1..], format, d) + Closing(format, d, tail)))
  {
    hide *;
    var last := |members| == 1;
    var first, others := RenderMember(members[0], last, format, d), RenderMembers(members[1..], format, d);
    var close := Closing(format, d, tail);
    FirstMember(members, format, d);
    MemberParts(members[0], last, format, d, others + close);
    Associative(first, others, close);
  }

  lemma Associative(a: seq<byte>, b: seq<byte>, c: seq<byte>)
    ensures (a + b) + c == a + (b + c)
  {
  }

  lemma MemberParts(m: Member, last: bool, format: bool, d: nat, rest: seq<byte>)
    ensures RenderMember(m, last, format, d) + rest
         == (if format then Tabs(d) else []) + MemberText(m, format, d, MemberTail(last, format, rest))
  {
    hide Render, Quoted, Tabs;
  }

  lemma LastBehind(format: bool, d: nat, tail: seq<byte>)
    requires d > 0
    ensures var behind := MemberTail(true, format, RenderMembers([], format, d) + Closing(format, d, tail));
      && Delimits(behind) && Begins(SkipSpace(behind), CLOSE_BRACE) && SkipSpace(behind)[1..] == tail
  {
    hide SkipSpace, RenderMembers;
    var gap := if format then [NEWLINE] + Tabs(d - 1) else [];
    var behind := MemberTail(true, format, RenderMembers([], format, d) + Closing(format, d, tail));
    LastParts(format, d, tail);
    assert behind[0] == if format then NEWLINE else CLOSE_BRACE;
    SkipOver(gap, [CLOSE_BRACE] + tail);
    assert ([CLOSE_BRACE] + tail)[1..] == tail;
  }

  lemma LastParts(format: bool, d: nat, tail: seq<byte>)
    requires d > 0
    ensures MemberTail(true, format, RenderMembers([], format, d) + Closing(format, d, tail))
         == (if format then [NEWLINE] + Tabs(d - 1) else []) + ([CLOSE_BRACE] + tail)
  {
    hide Tabs;
    assert RenderMembers([], format, d) == [];
  }

  lemma CommaBehind(format: bool, rest: seq<byte>)
    ensures var behind := MemberTail(false, format, rest);
      && Delimits(behind) && SkipSpace(behind) == behind && Begins(behind, COMMA)
      && behind[1..] == (if format then [NEWLINE] else []) + rest
  {
  }

  // cJSON_Parse of what cJSON_Print printed: the same tree, and nothing left but the terminator,
  // exactly if the tree nests no deeper than the limit.
  lemma DocumentRoundTrip(strtod: Strtod, v: Json, format: bool, requireNullTerminated: bool)
    requires Printable(strtod, v)
    ensures ParseDocument(strtod, Render(v, format, 0) + [0], requireNullTerminated)
         == if NestsWithin(v, 1000) then Got(v, [0]) else Bad
  {
    hide ParseValue, Render, NestsWithin, Printable;
    var bs := Render(v, format, 0) + [0];
    RenderStarts(strtod, v, format, 0);
    assert bs[0] == Render(v, format, 0)[0];
    SkipNothing(bs);
    ValueInverts(strtod, v, format, 0, 0, [0]);
  }

  // --- What the parser accepts nests no deeper than the limit, whatever the text.

  lemma {:induction false} ValueNests(strtod: Strtod, bs: seq<byte>, depth: nat)
    requires depth <= NESTING_LIMIT && ParseValue(strtod, bs, depth).Got?
    ensures NestsWithin(ParseValue(strtod, bs, depth).value, NESTING_LIMIT - depth)
    decreases |bs|, 2
  {
    hide ParseValue, ParseArray, ParseObject, ParseItems, ParseMembers, SkipSpace, ParseString;
    ValueCases(strtod, bs, depth);
    if Word(bs).Got? || Begins(bs, QUOTE) || bs[0] == MINUS || IsDigit(bs[0]) {
    } else if Begins(bs, OPEN_BRACKET) {
      ArrayCases(strtod, bs, depth);
      var r := SkipSpace(bs[1..]);
      if !Begins(r, CLOSE_BRACKET) {
        ItemsNested(strtod, r, depth + 1, []);
      }
    } else if Begins(bs, OPEN_BRACE) {
      ObjectCases(strtod, bs, depth);
      var r := SkipSpace(bs[1..]);
      if !Begins(r, CLOSE_BRACE) {
        MembersNested(strtod, r, depth + 1, []);
      }
    }
  }

  lemma {:induction false} ItemsNested(strtod: Strtod, bs: seq<byte>, depth: nat, items: seq<Json>)
    requires depth <= NESTING_LIMIT && ItemsNest(items, NESTING_LIMIT - depth)
    requires ParseItems(strtod, bs, depth, items).Got?
    ensures var v := ParseItems(strtod, bs, depth, items).value;
      v.Array? && ItemsNest(v.items, NESTING_LIMIT - depth)
    decreases |bs|, 3
  {
    hide ParseValue, ParseItems, SkipSpace, NestsWithin;
    ItemsCases(strtod, bs, depth, items);
    var p := ParseValue(strtod, SkipSpace(bs), depth);
    ValueNests(strtod, SkipSpace(bs), depth);
    if Begins(SkipSpace(p.rest), COMMA) {
      ItemsNested(strtod, SkipSpace(p.rest)[1..], depth, items + [p.value]);
    }
  }

  lemma {:induction false} MembersNested(strtod: Strtod, bs: seq<byte>, depth: nat, members: seq<Member>)
    requires depth <= NESTING_LIMIT && MembersNest(members, NESTING_LIMIT - depth)
    requires ParseMembers(strtod, bs, depth, members).Got?
    ensures var v := ParseMembers(strtod, bs, depth, members).value;
      v.Object? && MembersNest(v.members, NESTING_LIMIT - depth)
    decreases |bs|, 4
  {
    hide ParseMember, ParseMembers, SkipSpace, NestsWithin;
    MembersCases(strtod, bs, depth, members);
    var p := ParseMember(strtod, bs, depth);
    MemberNests(strtod, bs, depth);
    if Begins(SkipSpace(p.rest), COMMA) {
      MembersNested(strtod, SkipSpace(p.rest)[1..], depth, members + [p.value]);
    }
  }

  lemma {:induction false} MemberNests(strtod: Strtod, bs: seq<byte>, depth: nat)
    requires depth <= NESTING_LIMIT && ParseMember(strtod, bs, depth).Got?
    ensures NestsWithin(ParseMember(strtod, bs, depth).value.value, NESTING_LIMIT - depth)
    decreases |bs|, 3
  {
    hide ParseValue, SkipSpace, ParseString, NestsWithin;
    MemberCases(strtod, bs, depth);
    ValueNests(strtod, SkipSpace(NameAndColon(bs).rest[1..]), depth);
  }

  // --- What the parser accepts can be printed and parsed again

  // strtod takes all of a token that it returned.
  ghost predicate TakesItsTokens(strtod: Strtod) {
    forall t | t in strtod && Taken(strtod, t) > 0 :: Taken(strtod, t[..Taken(strtod, t)]) == Taken(strtod, t)
  }

  lemma NumberPrintable(strtod: Strtod, bs: seq<byte>)
    requires TakesItsTokens(strtod) && bs != [] && (bs[0] == MINUS || IsDigit(bs[0]))
    requires ParseNumber(strtod, bs).Got?
    ensures Printable(strtod, ParseNumber(strtod, bs).value)
  {
    hide TokenLength;
    var t := Token(bs);
    var k := Taken(strtod, t);
    assert t in strtod && t[..k][0] == bs[0];
    assert forall i | 0 <= i < k :: t[..k][i] == bs[i];
  }

  lemma {:induction false} ValuePrintable(strtod: Strtod, bs: seq<byte>, depth: nat)
    requires TakesItsTokens(strtod) && ParseValue(strtod, bs, depth).Got?
    ensures Printable(strtod, ParseValue(strtod, bs, depth).value)
    decreases |bs|, 2
  {
    hide ParseValue, ParseArray, ParseObject, ParseItems, ParseMembers, ParseNumber, SkipSpace, TakesItsTokens;
    ValueCases(strtod, bs, depth);
    if Word(bs).Got? {
    } else if Begins(bs, QUOTE) {
      StringPrintable(bs);
    } else if bs[0] == MINUS || IsDigit(bs[0]) {
      NumberPrintable(strtod, bs);
    } else if Begins(bs, OPEN_BRACKET) {
      ArrayCases(strtod, bs, depth);
      var r := SkipSpace(bs[1..]);
      if !Begins(r, CLOSE_BRACKET) {
        ItemsPrintable(strtod, r, depth + 1, []);
      }
    } else if Begins(bs, OPEN_BRACE) {
      ObjectCases(strtod, bs, depth);
      var r := SkipSpace(bs[1..]);
      if !Begins(r, CLOSE_BRACE) {
        MembersPrintable(strtod, r, depth + 1, []);
      }
    }
  }

  lemma StringPrintable(bs: seq<byte>)
    requires ParseString(bs).Got?
    ensures 0 !in ParseString(bs).value
  {
    hide EndOfString, Unescape;
  }

  lemma {:induction false} ItemsPrintable(strtod: Strtod, bs: seq<byte>, depth: nat, items: seq<Json>)
    requires TakesItsTokens(strtod) && (forall i | 0 <= i < |items| :: Printable(strtod, items[i]))
    requires ParseItems(strtod, bs, depth, items).Got?
    ensures Printable(strtod, ParseItems(strtod, bs, depth, items).value)
    decreases |bs|, 3
  {
    hide ParseValue, ParseItems, SkipSpace, TakesItsTokens;
    ItemsCases(strtod, bs, depth, items);
    var p := ParseValue(strtod, SkipSpace(bs), depth);
    ValuePrintable(strtod, SkipSpace(bs), depth);
    if Begins(SkipSpace(p.rest), COMMA) {
      ItemsPrintable(strtod, SkipSpace(p.rest)[1..], depth, items + [p.value]);
    }
  }

  lemma {:induction false} MembersPrintable(strtod: Strtod, bs: seq<byte>, depth: nat, members: seq<Member>)
    requires TakesItsTokens(strtod) && (forall i | 0 <= i < |members| :: PrintableMember(strtod, members[i]))
    requires ParseMembers(strtod, bs, depth, members).Got?
    ensures Printable(strtod, ParseMembers(strtod, bs, depth, members).value)
    decreases |bs|, 4
  {
    hide ParseMember, ParseMembers, SkipSpace, TakesItsTokens, PrintableMember;
    MembersCases(strtod, bs, depth, members);
    var p := ParseMember(strtod, bs, depth);
    MemberPrintable(strtod, bs, depth);
    if Begins(SkipSpace(p.rest), COMMA) {
      MembersPrintable(strtod, SkipSpace(p.rest)[1..], depth, members + [p.value]);
    }
  }

  lemma {:induction false} MemberPrintable(strtod: Strtod, bs: seq<byte>, depth: nat)
    requires TakesItsTokens(strtod) && ParseMember(strtod, bs, depth).Got?
    ensures PrintableMember(strtod, ParseMember(strtod, bs, depth).value)
    decreases |bs|, 3
  {
    hide ParseValue, SkipSpace, ParseString, TakesItsTokens;
    MemberCases(strtod, bs, depth);
    StringPrintable(SkipSpace(bs));
    ValuePrintable(strtod, SkipSpace(NameAndColon(bs).rest[1..]), depth);
  }

  // Whatever document is accepted: its tree, printed formatted or not and parsed again, is the same.
  lemma AcceptedIsReprinted(strtod: Strtod, bs: seq<byte>, required: bool, format: bool, requiredAgain: bool)
    requires TakesItsTokens(strtod) && ParseDocument(strtod, bs, required).Got?
    ensures var v := ParseDocument(strtod, bs, required).value;
      ParseDocument(strtod, Render(v, format, 0) + [0], requiredAgain) == Got(v, [0])
  {
    hide ParseValue, Render, NestsWithin, Printable, SkipSpace, TakesItsTokens;
    var text := SkipSpace(SkipByteOrderMark(bs));
    ValuePrintable(strtod, text, 0);
    ValueNests(strtod, text, 0);
    DocumentRoundTrip(strtod, ParseDocument(strtod, bs, required).value, format, requiredAgain);
  }
}
