// The printer and the parser together.
module JsonDocument {
  import opened Bytes
  import opened JsonSpec
  import opened JsonRoundTrip
  import JsonParser
  import JsonPrinter

  // Printing a tree and parsing the text gives back the tree, whatever the buffer had to do to grow
  // and wherever the cursor of the parser had to step back. It fails for two reasons only: the text
  // does not fit into INT_MAX bytes, or the tree nests too deeply.
  method PrintAndParse(strtod: Strtod, v: Json, format: bool) returns (copy: Option<Json>)
    requires Printable(strtod, v) && JsonPrinter.InMemory(v)
    ensures copy ==
      if |Render(v, format, 0)| + 2 <= 0x7FFF_FFFF && NestsWithin(v, 1000) then Some(v) else None
  {
    hide *;
    var printed := JsonPrinter.Print(v, format);
    if printed.None? {
      return None;
    }
    var text := printed.value[..];
    var end;
    copy, end := JsonParser.ParseWithLengthOpts(strtod, text, true);
    DocumentRoundTrip(strtod, v, format, true);
  }
}
