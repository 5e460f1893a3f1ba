// The printer: a growing buffer in front of whose cursor the text is built up. Every method is tied
// to the text that JsonSpec gives a tree, and fails exactly when that text does not fit.
module JsonPrinter {
  import opened Bytes
  import opened JsonStrings
  import opened JsonSpec

  const INT_MAX: nat := TWO_31 - 1

  // A tree as it is in memory: strings are C strings, numbers print into a buffer of 26 characters.
  predicate InMemory(v: Json)
    decreases v
  {
    match v
    case Number(t) => 0 !in t && |t| <= 25
    case String(s) => 0 !in s
    case Array(items) => forall i | 0 <= i < |items| :: InMemory(items[i])
    case Object(members) => forall i | 0 <= i < |members| :: MemberInMemory(members[i])
    case _ => true
  }

  predicate MemberInMemory(m: Member)
    decreases m
  {
    0 !in m.key && InMemory(m.value)
  }

  class PrintBuffer {
    var buffer: array<byte>
    var offset: nat
    var depth: nat
    const noalloc: bool
    const format: bool

    ghost predicate Valid()
      reads this
    {
      buffer.Length <= INT_MAX && (if buffer.Length == 0 then offset == 0 else offset < buffer.Length)
    }

    // The number of bytes the buffer can come to have.
    ghost function Limit(): nat
      reads this
    {
      if noalloc then buffer.Length else INT_MAX
    }

    // The text in front of the cursor.
    ghost function Done(): (d: seq<byte>)
      requires offset <= buffer.Length
      reads this, buffer
      ensures |d| == offset
    {
      buffer[..offset]
    }

    // The buffer holds before and, behind it, a zero-terminated text that the cursor is in.
    ghost predicate Printed(before: seq<byte>, text: seq<byte>)
      reads this, buffer
    {
      && |before| <= offset <= |before| + |text| < buffer.Length <= INT_MAX
      && buffer[..|before| + |text|] == before + text && buffer[|before| + |text|] == 0
    }

    constructor (buffer: array<byte>, noalloc: bool, format: bool)
      requires buffer.Length <= INT_MAX
      ensures Valid() && this.buffer == buffer && this.noalloc == noalloc && this.format == format
      ensures offset == 0 && depth == 0
    {
      this.buffer, this.noalloc, this.format := buffer, noalloc, format;
      offset, depth := 0, 0;
    }

    // ensure: room for needed bytes and one more. The text in front of the cursor survives growing.
    method Ensure(needed: nat) returns (ok: bool)
      requires buffer.Length <= INT_MAX && (buffer.Length == 0 ==> offset == 0)
      modifies this`buffer
      ensures buffer == old(buffer) || (fresh(buffer) && !noalloc)
      ensures ok <==> (old(buffer.Length) > 0 ==> offset < old(buffer.Length)) && offset + needed + 1 <= old(Limit())
      ensures Limit() == old(Limit())
      ensures ok ==> offset + needed < buffer.Length <= INT_MAX && Done() == old(buffer[..offset])
      ensures ok && offset + needed + 1 > old(buffer.Length) ==>
        buffer.Length == if offset + needed + 1 <= 0x3FFF_FFFF then 2 * (offset + needed + 1) else 0x7FFF_FFFF
      ensures !ok || offset + needed + 1 <= old(buffer.Length) ==> buffer == old(buffer)
    {
      if buffer.Length > 0 && offset >= buffer.Length {
        return false;
      }
      if needed > INT_MAX {
        return false;
      }
      var total := needed + offset + 1;
      if total <= buffer.Length {
        return true;
      }
      if noalloc {
        return false;
      }
      var newSize;
      if total > INT_MAX / 2 {
        if total <= INT_MAX {
          newSize := INT_MAX;
        } else {
          return false;
        }
      } else {
        newSize := total * 2;
      }
      var newBuffer := new byte[newSize];
      forall k | 0 <= k < buffer.Length {
        newBuffer[k] := buffer[k];
      }
      buffer := newBuffer;
      ok := true;
    }

    // Stores behind the output pointer, which is the cursor.
    method Store(text: seq<byte>)
      requires offset + |text| <= buffer.Length
      modifies buffer
      ensures buffer[..offset + |text|] == old(Done()) + text
      ensures forall k | offset + |text| <= k < buffer.Length :: buffer[k] == old(buffer[k])
    {
      var i := 0;
      while i < |text|
        invariant 0 <= i <= |text|
        invariant forall k | 0 <= k < offset :: buffer[k] == old(buffer[k])
        invariant forall k | offset <= k < offset + i :: buffer[k] == text[k - offset]
        invariant forall k | offset + |text| <= k < buffer.Length :: buffer[k] == old(buffer[k])
      {
        buffer[offset + i] := text[i];
        i := i + 1;
      }
    }

    // Room for needed bytes; text is stored and the cursor moves behind it.
    method Append(text: seq<byte>, needed: nat) returns (ok: bool)
      requires Valid() && |text| <= needed
      modifies this, buffer
      ensures buffer == old(buffer) || (fresh(buffer) && !noalloc)
      ensures Limit() == old(Limit()) && depth == old(depth)
      ensures ok <==> old(offset) + needed + 1 <= old(Limit())
      ensures ok ==> Valid() && offset == old(offset) + |text| < buffer.Length && Done() == old(Done()) + text
    {
      ok := Ensure(needed);
      if ok {
        Store(text);
        offset := offset + |text|;
      }
    }

    // Room for text and a terminator; both are stored and the cursor stays.
    method Put(text: seq<byte>) returns (ok: bool)
      requires Valid()
      modifies this, buffer
      ensures buffer == old(buffer) || (fresh(buffer) && !noalloc)
      ensures Limit() == old(Limit()) && depth == old(depth) && offset == old(offset)
      ensures ok <==> old(offset) + |text| + 2 <= old(Limit())
      ensures ok ==> Printed(old(Done()), text)
    {
      ok := Ensure(|text| + 1);
      if ok {
        ghost var before := Done();
        Store(text + [0]);
        assert buffer[..offset + |text|] == buffer[..offset + |text| + 1][..offset + |text|];
        assert before + (text + [0]) == (before + text) + [0];
      }
    }

    // update_offset: the cursor moves to the terminator.
    method UpdateOffset(ghost before: seq<byte>, ghost text: seq<byte>)
      requires Printed(before, text) && 0 !in text
      modifies this`offset
      ensures Valid() && offset == |before| + |text| < buffer.Length && Done() == before + text
      ensures buffer[offset] == 0
    {
      ghost var end := |before| + |text|;
      forall k | |before| <= k < end ensures buffer[k] != 0 {
        assert buffer[..end][k] == text[k - |before|] && text[k - |before|] in text;
      }
      while buffer[offset] != 0
        invariant |before| <= offset <= end
        decreases end - offset
      {
        assert offset < end;
        offset := offset + 1;
      }
    }

    // The copy that print makes in the end, of the text and its terminator.
    method Shrunk(ghost text: seq<byte>) returns (exact: array<byte>)
      requires offset < buffer.Length && Done() == text && buffer[offset] == 0
      ensures exact[..] == text + [0]
    {
      exact := new byte[offset + 1];
      forall k | 0 <= k < exact.Length {
        exact[k] := buffer[k];
      }
      assert forall k | 0 <= k < offset :: exact[k] == text[k];
    }

    // One character of a string, at position at; next is the position behind it.
    method StoreEscaped(c: byte, at: nat) returns (next: nat)
      requires at + |Escape(c)| <= buffer.Length
      modifies buffer
      ensures next == at + |Escape(c)| && buffer[..next] == old(buffer[..at]) + Escape(c)
    {
      next := at;
      if c > 31 && c != QUOTE && c != BACKSLASH {
        buffer[next] := c;
      } else {
        buffer[next] := BACKSLASH;
        next := next + 1;
        if c == BACKSLASH || c == QUOTE {
          buffer[next] := c;
        } else if c == 0x08 {
          buffer[next] := LETTER_B;
        } else if c == 0x0C {
          buffer[next] := LETTER_F;
        } else if c == 0x0A {
          buffer[next] := LETTER_N;
        } else if c == 0x0D {
          buffer[next] := LETTER_R;
        } else if c == 0x09 {
          buffer[next] := LETTER_T;
        } else {
          buffer[next] := LETTER_U;
          buffer[next + 1] := DIGIT_0;
          buffer[next + 2] := DIGIT_0;
          buffer[next + 3] := HexDigit(c / 16);
          buffer[next + 4] := HexDigit(c % 16);
          next := next + 4;
        }
      }
      next := next + 1;
    }

    // The first loop of print_string_ptr.
    static method CountEscapes(s: seq<byte>) returns (escapeCharacters: nat)
      ensures |EscapeAll(s)| == |s| + escapeCharacters
    {
      escapeCharacters := 0;
      var i := 0;
      while i < |s|
        invariant 0 <= i <= |s| && |EscapeAll(s[..i])| == i + escapeCharacters
      {
        if ShortEscape(s[i]) {
          escapeCharacters := escapeCharacters + 1;
        } else if s[i] < 32 {
          escapeCharacters := escapeCharacters + 5;
        }
        EscapeAllAppend(s[..i], s[i]);
        assert s[..i + 1] == s[..i] + [s[i]];
        i := i + 1;
      }
      assert s[..i] == s;
    }

    // The second loop of print_string_ptr, between the quotes.
    method StoreAllEscaped(s: seq<byte>, at: nat)
      requires at + |EscapeAll(s)| <= buffer.Length
      modifies buffer
      ensures buffer[..at + |EscapeAll(s)|] == old(buffer[..at]) + EscapeAll(s)
    {
      hide Escape, EscapeAll;
      ghost var before := buffer[..at];
      var next := at;
      var i := 0;
      EscapeNothing();
      assert s[..0] == [];
      while i < |s|
        invariant 0 <= i <= |s| && next == at + |EscapeAll(s[..i])| <= buffer.Length
        invariant buffer[..next] == before + EscapeAll(s[..i])
      {
        EscapeAllAppend(s[..i], s[i]);
        assert s[..i + 1] == s[..i] + [s[i]];
        EscapeAllSplit(s, i + 1);
        next := StoreEscaped(s[i], next);
        assert (before + EscapeAll(s[..i])) + Escape(s[i]) == before + (EscapeAll(s[..i]) + Escape(s[i]));
        i := i + 1;
      }
      assert s[..i] == s;
    }

    // print_string_ptr: the second loop writes exactly as many bytes as the first one counted.
    method PrintStringPtr(s: seq<byte>) returns (ok: bool)
      requires Valid()
      modifies this, buffer
      ensures buffer == old(buffer) || (fresh(buffer) && !noalloc)
      ensures Limit() == old(Limit()) && depth == old(depth) && offset == old(offset)
      ensures ok <==> old(offset) + |Quoted(s)| + 2 <= old(Limit())
      ensures ok ==> Printed(old(Done()), Quoted(s))
    {
      hide EscapeAll;
      var escapeCharacters := CountEscapes(s);
      var outputLength := |s| + escapeCharacters;
      ok := Ensure(outputLength + 3);
      if !ok {
        return;
      }
      if escapeCharacters == 0 {
        StorePlain(s);
      } else {
        StoreQuoted(s, outputLength);
      }
    }

    // No characters have to be escaped.
    method StorePlain(s: seq<byte>)
      requires |EscapeAll(s)| == |s| && offset + |s| + 3 <= buffer.Length <= INT_MAX
      modifies buffer
      ensures Printed(old(Done()), Quoted(s))
    {
      ghost var before := Done();
      Store([QUOTE] + s + [QUOTE, 0]);
      NothingEscaped(s);
      hide EscapeAll;
      assert before + ([QUOTE] + s + [QUOTE, 0]) == (before + Quoted(s)) + [0];
      assert buffer[..offset + |s| + 3][..offset + |s| + 2] == buffer[..offset + |s| + 2];
    }

    method StoreQuoted(s: seq<byte>, outputLength: nat)
      requires |EscapeAll(s)| == outputLength && offset + outputLength + 3 <= buffer.Length <= INT_MAX
      modifies buffer
      ensures Printed(old(Done()), Quoted(s))
    {
      hide EscapeAll;
      ghost var before := Done();
      buffer[offset] := QUOTE;
      assert buffer[..offset + 1] == before + [QUOTE];
      StoreAllEscaped(s, offset + 1);
      var end := offset + 1 + outputLength;
      ghost var inside := buffer[..end];
      buffer[end] := QUOTE;
      buffer[end + 1] := 0;
      assert buffer[..end + 1] == inside + [QUOTE];
      assert ((before + [QUOTE]) + EscapeAll(s)) + [QUOTE] == before + Quoted(s);
    }

    method PrintNumber(text: seq<byte>) returns (ok: bool)
      requires Valid()
      modifies this, buffer
      ensures buffer == old(buffer) || (fresh(buffer) && !noalloc)
      ensures Limit() == old(Limit()) && depth == old(depth)
      ensures ok <==> old(offset) + |text| + 2 <= old(Limit())
      ensures ok ==> Printed(old(Done()), text)
    {
      ok := Put(text);
      if ok {
        offset := offset + |text|;
      }
    }

    // print_value. It fails exactly when the text and its terminator, with a byte to spare, do not
    // fit into what the buffer can become.
    method PrintValue(v: Json) returns (ok: bool)
      requires Valid() && InMemory(v)
      modifies this, buffer
      ensures buffer == old(buffer) || (fresh(buffer) && !noalloc)
      ensures Limit() == old(Limit())
      ensures ok <==> old(offset) + |Render(v, format, old(depth))| + 2 <= old(Limit())
      ensures ok ==> depth == old(depth) && Printed(old(Done()), Render(v, format, old(depth)))
      decreases v, 1
    {
      hide RenderItems, RenderMembers, Quoted, Printed;
      match v
      case Null =>
        ok := Put(NULL_TEXT);
      case False =>
        ok := Put(FALSE_TEXT);
      case True =>
        ok := Put(TRUE_TEXT);
      case Number(text) =>
        ok := PrintNumber(text);
      case String(s) =>
        ok := PrintStringPtr(s);
      case Array(items) =>
        ok := PrintArray(items);
      case Object(members) =>
        ok := PrintObject(members);
    }

    // The opening bracket.
    method Begin(open: seq<byte>, needed: nat) returns (ok: bool)
      requires Valid() && |open| <= needed
      modifies this, buffer
      ensures buffer == old(buffer) || (fresh(buffer) && !noalloc)
      ensures Limit() == old(Limit()) && depth == if ok then old(depth) + 1 else old(depth)
      ensures ok <==> old(offset) + needed + 1 <= old(Limit())
      ensures ok ==> Valid() && offset == old(offset) + |open| < buffer.Length && Done() == old(Done()) + open
    {
      ok := Append(open, needed);
      if ok {
        depth := depth + 1;
      }
    }

    // The closing bracket: the whole text is there, and the cursor is in it.
    method Finish(close: seq<byte>, ghost before: seq<byte>, ghost text: seq<byte>) returns (ok: bool)
      requires Valid() && depth > 0 && |before| <= offset && Done() + close == before + text
      modifies this, buffer
      ensures buffer == old(buffer) || (fresh(buffer) && !noalloc)
      ensures Limit() == old(Limit()) && depth == old(depth) - 1
      ensures ok <==> |before| + |text| + 2 <= old(Limit())
      ensures ok ==> Printed(before, text)
    {
      assert offset + |close| == |before| + |text|;
      ok := Put(close);
      depth := depth - 1;
    }

    // print_array
    method PrintArray(items: seq<Json>) returns (ok: bool)
      requires Valid() && forall i | 0 <= i < |items| :: InMemory(items[i])
      modifies this, buffer
      ensures buffer == old(buffer) || (fresh(buffer) && !noalloc)
      ensures Limit() == old(Limit())
      ensures ok <==> old(offset) + |Render(Array(items), format, old(depth))| + 2 <= old(Limit())
      ensures ok ==> depth == old(depth) && Printed(old(Done()), Render(Array(items), format, old(depth)))
      decreases items, 1
    {
      ghost var d := depth;
      ghost var before, text := Done(), Render(Array(items), format, d);
      hide *;
      ArrayAhead(before, items, format, d);
      ok := Begin([OPEN_BRACKET], 1);
      if !ok {
        return;
      }
      ok := PrintElements(items, before + text);
      if !ok {
        return;
      }
      ok := Finish([CLOSE_BRACKET], before, text);
    }

    // The loop in print_array: whole is the text with the closing bracket.
    method PrintElements(items: seq<Json>, ghost whole: seq<byte>) returns (ok: bool)
      requires Valid() && offset < buffer.Length && depth > 0 && forall i | 0 <= i < |items| :: InMemory(items[i])
      requires Done() + (RenderItems(items[0..], format, depth) + [CLOSE_BRACKET]) == whole
      modifies this, buffer
      ensures buffer == old(buffer) || (fresh(buffer) && !noalloc)
      ensures Limit() == old(Limit())
      ensures !ok ==> |whole| + 2 > old(Limit())
      ensures ok ==> Valid() && old(offset) <= offset < buffer.Length && depth == old(depth)
      ensures ok ==> Done() + [CLOSE_BRACKET] == whole
      decreases items, 0
    {
      hide *;
      var i := 0;
      while i < |items|
        invariant 0 <= i <= |items| && Valid() && old(offset) <= offset < buffer.Length
        invariant depth == old(depth) && Limit() == old(Limit())
        invariant buffer == old(buffer) || (fresh(buffer) && !noalloc)
        invariant Done() + (RenderItems(items[i..], format, depth) + [CLOSE_BRACKET]) == whole
      {
        ItemAhead(Done(), items, i, format, depth, whole);
        ok := PrintElement(items[i], i + 1 == |items|);
        if !ok {
          return;
        }
        i := i + 1;
      }
      NothingAhead(Done(), items, format, depth, whole);
      ok := true;
    }

    // The body of the loop in print_array.
    method PrintElement(v: Json, last: bool) returns (ok: bool)
      requires Valid() && InMemory(v)
      modifies this, buffer
      ensures buffer == old(buffer) || (fresh(buffer) && !noalloc)
      ensures Limit() == old(Limit())
      ensures ok <==> old(offset) + |ItemText(v, last, format, old(depth))| + 2 <= old(Limit())
      ensures ok ==> Valid() && depth == old(depth) && offset < buffer.Length
      ensures ok ==> Done() == old(Done()) + ItemText(v, last, format, old(depth))
      decreases v, 2
    {
      ghost var before, text := Done(), Render(v, format, depth);
      TextHasNoZero(v, format, depth);
      hide Render, InMemory;
      ok := PrintValue(v);
      if !ok {
        return;
      }
      UpdateOffset(before, text);
      if !last {
        ok := AppendTerminated(Separator(format));
      }
    }

    // print_object
    method PrintObject(members: seq<Member>) returns (ok: bool)
      requires Valid() && forall i | 0 <= i < |members| :: MemberInMemory(members[i])
      modifies this, buffer
      ensures buffer == old(buffer) || (fresh(buffer) && !noalloc)
      ensures Limit() == old(Limit())
      ensures ok <==> old(offset) + |Render(Object(members), format, old(depth))| + 2 <= old(Limit())
      ensures ok ==> depth == old(depth) && Printed(old(Done()), Render(Object(members), format, old(depth)))
      decreases members, 1
    {
      ghost var d := depth;
      ghost var before, text := Done(), Render(Object(members), format, d);
      hide *;
      ObjectAhead(before, members, format, d);
      var open := [OPEN_BRACE] + (if format then [NEWLINE] else []);
      ok := Begin(open, |open| + 1);
      if !ok {
        return;
      }
      ok := PrintMembers(members, before + text);
      if !ok {
        return;
      }
      ok := Finish(CloseText(format, depth - 1), before, text);
    }

    // The loop in print_object: whole is the text with the closing bracket.
    method PrintMembers(members: seq<Member>, ghost whole: seq<byte>) returns (ok: bool)
      requires Valid() && offset < buffer.Length && depth > 0
      requires forall i | 0 <= i < |members| :: MemberInMemory(members[i])
      requires Done() + (RenderMembers(members[0..], format, depth) + CloseText(format, depth - 1)) == whole
      modifies this, buffer
      ensures buffer == old(buffer) || (fresh(buffer) && !noalloc)
      ensures Limit() == old(Limit())
      ensures !ok ==> |whole| + 2 > old(Limit())
      ensures ok ==> Valid() && old(offset) <= offset < buffer.Length && depth == old(depth)
      ensures ok ==> Done() + CloseText(format, depth - 1) == whole
      decreases members, 0
    {
      hide *;
      var i := 0;
      while i < |members|
        invariant 0 <= i <= |members| && Valid() && old(offset) <= offset < buffer.Length
        invariant depth == old(depth) && Limit() == old(Limit())
        invariant buffer == old(buffer) || (fresh(buffer) && !noalloc)
        invariant Done() + (RenderMembers(members[i..], format, depth) + CloseText(format, depth - 1)) == whole
      {
        MemberAhead(Done(), members, i, format, depth, CloseText(format, depth - 1), whole);
        ok := PrintMember(members[i], i + 1 == |members|);
        if !ok {
          return;
        }
        i := i + 1;
      }
      NoMemberAhead(Done(), members, format, depth, CloseText(format, depth - 1), whole);
      ok := true;
    }

    // The body of the loop in print_object.
    method PrintMember(m: Member, last: bool) returns (ok: bool)
      requires Valid() && MemberInMemory(m)
      modifies this, buffer
      ensures buffer == old(buffer) || (fresh(buffer) && !noalloc)
      ensures Limit() == old(Limit())
      ensures ok <==> old(offset) + |RenderMember(m, last, format, old(depth))| + 2 <= old(Limit())
      ensures ok ==> Valid() && depth == old(depth) && offset < buffer.Length
      ensures ok ==> Done() == old(Done()) + RenderMember(m, last, format, old(depth))
      decreases m, 2
    {
      ghost var d := depth;
      var tail := MemberTail(last, format);
      MemberPieces(Done(), m, last, format, d);
      hide *;
      if format {
        ok := Append(Tabs(depth), depth);
        if !ok {
          return;
        }
      }
      ok := PrintName(m.key);
      if !ok {
        return;
      }
      ok := PrintElement(m.value, true);
      if !ok {
        return;
      }
      ok := AppendTerminated(tail);
    }

    // A separator, with a terminator behind it.
    method AppendTerminated(text: seq<byte>) returns (ok: bool)
      requires Valid()
      modifies this, buffer
      ensures buffer == old(buffer) || (fresh(buffer) && !noalloc)
      ensures Limit() == old(Limit()) && depth == old(depth)
      ensures ok <==> old(offset) + |text| + 2 <= old(Limit())
      ensures ok ==> Valid() && offset == old(offset) + |text| < buffer.Length && Done() == old(Done()) + text
    {
      ok := Append(text, |text| + 1);
      if ok {
        ghost var done := Done();
        buffer[offset] := 0;
        assert Done() == done;
      }
    }

    // A key and the colon behind it.
    method PrintName(key: seq<byte>) returns (ok: bool)
      requires Valid() && 0 !in key
      modifies this, buffer
      ensures buffer == old(buffer) || (fresh(buffer) && !noalloc)
      ensures Limit() == old(Limit()) && depth == old(depth)
      ensures ok <==> old(offset) + |Quoted(key) + Colon(format)| + 1 <= old(Limit())
      ensures ok ==> Valid() && offset < buffer.Length && Done() == old(Done()) + (Quoted(key) + Colon(format))
    {
      ghost var before := Done();
      QuotedHasNoZero(key);
      hide Quoted;
      ok := PrintStringPtr(key);
      if !ok {
        return;
      }
      UpdateOffset(before, Quoted(key));
      ok := Append(Colon(format), |Colon(format)|);
    }
  }

  // print, behind cJSON_Print and cJSON_PrintUnformatted: the text and its terminator, in storage of
  // just that size.
  method Print(v: Json, format: bool) returns (printed: Option<array<byte>>)
    requires InMemory(v)
    ensures printed.Some? <==> |Render(v, format, 0)| + 2 <= 0x7FFF_FFFF
    ensures printed.Some? ==> printed.value[..] == Render(v, format, 0) + [0]
  {
    TextHasNoZero(v, format, 0);
    hide Render, InMemory;
    var storage := new byte[256];
    var p := new PrintBuffer(storage, false, format);
    ghost var text := Render(v, format, 0);
    var ok := p.PrintValue(v);
    if !ok {
      return None;
    }
    assert p.Printed([], text);
    p.UpdateOffset([], text);
    var exact := p.Shrunk(text);
    printed := Some(exact);
  }

  // cJSON_PrintBuffered: the text and its terminator at the start of the storage.
  method PrintBuffered(v: Json, prebuffer: int, format: bool) returns (printed: Option<array<byte>>)
    requires InMemory(v) && prebuffer <= INT_MAX
    ensures printed.Some? <==> prebuffer >= 0 && |Render(v, format, 0)| + 2 <= 0x7FFF_FFFF
    ensures printed.Some? ==> Render(v, format, 0) + [0] <= printed.value[..]
  {
    hide Render, InMemory;
    if prebuffer < 0 {
      return None;
    }
    var storage := new byte[prebuffer];
    var p := new PrintBuffer(storage, false, format);
    var ok := p.PrintValue(v);
    if !ok {
      return None;
    }
    assert p.buffer[..][..|Render(v, format, 0)|] == Render(v, format, 0);
    printed := Some(p.buffer);
  }

  // cJSON_PrintPreallocated: the same, in storage the caller provides.
  method PrintPreallocated(v: Json, storage: array<byte>, format: bool) returns (ok: bool)
    requires InMemory(v) && storage.Length <= INT_MAX
    modifies storage
    ensures ok <==> |Render(v, format, 0)| + 2 <= storage.Length
    ensures ok ==> Render(v, format, 0) + [0] <= storage[..]
  {
    hide Render, InMemory;
    var p := new PrintBuffer(storage, true, format);
    ok := p.PrintValue(v);
    assert ok ==> storage[..][..|Render(v, format, 0)|] == Render(v, format, 0);
  }

  // An element and the separator behind it.
  ghost function ItemText(v: Json, last: bool, format: bool, depth: nat): seq<byte> {
    Render(v, format, depth) + (if last then [] else Separator(format))
  }

  function Colon(format: bool): seq<byte> {
    if format then [COLON, TAB] else [COLON]
  }

  function CloseText(format: bool, d: nat): seq<byte> {
    (if format then Tabs(d) else []) + [CLOSE_BRACE]
  }

  // --- What is still to be printed when some of a text is done

  lemma ArrayAhead(before: seq<byte>, items: seq<Json>, format: bool, d: nat)
    ensures |Render(Array(items), format, d)| >= 2
    ensures (before + [OPEN_BRACKET]) + (RenderItems(items[0..], format, d + 1) + [CLOSE_BRACKET])
         == before + Render(Array(items), format, d)
  {
    hide RenderItems;
    assert items[0..] == items;
  }

  lemma ItemAhead(done: seq<byte>, items: seq<Json>, i: nat, format: bool, d: nat, whole: seq<byte>)
    requires i < |items| && done + (RenderItems(items[i..], format, d) + [CLOSE_BRACKET]) == whole
    ensures var t := ItemText(items[i], i + 1 == |items|, format, d);
      && |done| + |t| < |whole|
      && (done + t) + (RenderItems(items[i + 1..], format, d) + [CLOSE_BRACKET]) == whole
  {
    hide Render;
    var t, rest := ItemText(items[i], i + 1 == |items|, format, d), RenderItems(items[i + 1..], format, d);
    assert items[i..][1..] == items[i + 1..];
    assert RenderItems(items[i..], format, d) == t + rest;
    hide ItemText, RenderItems;
    assert done + ((t + rest) + [CLOSE_BRACKET]) == (done + t) + (rest + [CLOSE_BRACKET]);
  }

  lemma NothingAhead(done: seq<byte>, items: seq<Json>, format: bool, d: nat, whole: seq<byte>)
    requires done + (RenderItems(items[|items|..], format, d) + [CLOSE_BRACKET]) == whole
    ensures done + [CLOSE_BRACKET] == whole
  {
    assert [] + [CLOSE_BRACKET] == [CLOSE_BRACKET];
  }

  lemma ObjectAhead(before: seq<byte>, members: seq<Member>, format: bool, d: nat)
    ensures var open := [OPEN_BRACE] + (if format then [NEWLINE] else []);
      && |Render(Object(members), format, d)| >= |open| + 1
      && (before + open) + (RenderMembers(members[0..], format, d + 1) + CloseText(format, d))
      == before + Render(Object(members), format, d)
  {
    hide RenderMembers;
    assert members[0..] == members;
  }

  lemma MemberAhead(
    done: seq<byte>, members: seq<Member>, i: nat, format: bool, d: nat, close: seq<byte>, whole: seq<byte>)
    requires i < |members| && done + (RenderMembers(members[i..], format, d) + close) == whole
    ensures var t := RenderMember(members[i], i + 1 == |members|, format, d);
      && |done| + |t| + |close| <= |whole|
      && (done + t) + (RenderMembers(members[i + 1..], format, d) + close) == whole
  {
    hide RenderMember;
    var t, rest := RenderMember(members[i], i + 1 == |members|, format, d), RenderMembers(members[i + 1..], format, d);
    assert members[i..][1..] == members[i + 1..];
    assert RenderMembers(members[i..], format, d) == t + rest;
    hide RenderMembers;
    assert done + ((t + rest) + close) == (done + t) + (rest + close);
  }

  lemma NoMemberAhead(
    done: seq<byte>, members: seq<Member>, format: bool, d: nat, close: seq<byte>, whole: seq<byte>)
    requires done + (RenderMembers(members[|members|..], format, d) + close) == whole
    ensures done + close == whole
  {
    assert [] + close == close;
  }

  // What is printed behind the value of a member.
  function MemberTail(last: bool, format: bool): seq<byte> {
    (if last then [] else [COMMA]) + (if format then [NEWLINE] else [])
  }

  lemma MemberPieces(done: seq<byte>, m: Member, last: bool, format: bool, d: nat)
    requires MemberInMemory(m)
    ensures 0 !in m.key && InMemory(m.value)
    ensures var t, name := if format then Tabs(d) else [], Quoted(m.key) + Colon(format);
      var value, tail := ItemText(m.value, true, format, d), MemberTail(last, format);
      && |Tabs(d)| == d
      && (!format ==> done + t == done)
      && |RenderMember(m, last, format, d)| == |t| + |name| + |value| + |tail|
      && (((done + t) + name) + value) + tail == done + RenderMember(m, last, format, d)
  {
    hide Render, Quoted, Tabs;
    assert ItemText(m.value, true, format, d) == Render(m.value, format, d);
    var t, name := if format then Tabs(d) else [], Quoted(m.key) + Colon(format);
    var value, tail := Render(m.value, format, d), MemberTail(last, format);
    assert RenderMember(m, last, format, d) == ((t + name) + value) + tail;
    Appended(done, t, name, value, tail);
  }

  lemma Appended(done: seq<byte>, a: seq<byte>, b: seq<byte>, c: seq<byte>, d: seq<byte>)
    ensures (((done + a) + b) + c) + d == done + (((a + b) + c) + d)
  {
  }

  // --- Printed text is a C string

  lemma QuotedHasNoZero(s: seq<byte>)
    ensures 0 !in Quoted(s)
  {
    EscapeAllPrintable(s);
  }

  lemma {:induction false} TextHasNoZero(v: Json, format: bool, d: nat)
    requires InMemory(v)
    ensures 0 !in Render(v, format, d)
    decreases v, 1
  {
    hide RenderItems, RenderMembers, Quoted;
    match v
    case String(s) => QuotedHasNoZero(s);
    case Array(items) => ItemsHaveNoZero(items, format, d + 1);
    case Object(members) => MembersHaveNoZero(members, format, d + 1);
    case _ =>
  }

  lemma {:induction false} ItemsHaveNoZero(items: seq<Json>, format: bool, d: nat)
    requires forall i | 0 <= i < |items| :: InMemory(items[i])
    ensures 0 !in RenderItems(items, format, d)
    decreases items, 0
  {
    hide Render, InMemory;
    if items != [] {
      TextHasNoZero(items[0], format, d);
      ItemsHaveNoZero(items[1..], format, d);
    }
  }

  lemma {:induction false} MembersHaveNoZero(members: seq<Member>, format: bool, d: nat)
    requires forall i | 0 <= i < |members| :: MemberInMemory(members[i])
    ensures 0 !in RenderMembers(members, format, d)
    decreases members, 0
  {
    hide Render, InMemory, Quoted;
    if members != [] {
      QuotedHasNoZero(members[0].key);
      TextHasNoZero(members[0].value, format, d);
      MembersHaveNoZero(members[1..], format, d);
    }
  }

  lemma EscapeNothing()
    ensures EscapeAll([]) == []
  {
  }

  lemma {:induction false} EscapeAllSplit(s: seq<byte>, i: nat)
    requires i <= |s|
    ensures EscapeAll(s) == EscapeAll(s[..i]) + EscapeAll(s[i..])
  {
    hide Escape;
    if i == 0 {
      assert s[..0] == [] && s[0..] == s && [] + EscapeAll(s) == EscapeAll(s);
    } else {
      EscapeAllSplit(s[1..], i - 1);
      assert s[..i][1..] == s[1..][..i - 1] && s[1..][i - 1..] == s[i..];
      var a, b, c := Escape(s[0]), EscapeAll(s[1..][..i - 1]), EscapeAll(s[i..]);
      assert a + (b + c) == (a + b) + c;
    }
  }

  lemma {:induction false} EscapeNeverShortens(s: seq<byte>)
    ensures |EscapeAll(s)| >= |s|
  {
    if s != [] {
      EscapeNeverShortens(s[1..]);
    }
  }

  lemma {:induction false} NothingEscaped(s: seq<byte>)
    requires |EscapeAll(s)| == |s|
    ensures EscapeAll(s) == s
  {
    if s != [] {
      EscapeNeverShortens(s[1..]);
      NothingEscaped(s[1..]);
    }
  }
}
