/** The multipart/form-data printer: `form_data_body::writer`, a step machine that hands
    out one buffer per `get`. */
module MultipartWriter {
  import opened Text
  import opened MultipartHeader

  datatype Step = Header | Content | ContentEnd | Eof

  datatype WriterState = WriterState(index: nat, step: Step)

  /** A buffer, and whether more follow. */
  type Buffer = (string, bool)

  class Writer {
    const boundary: string
    const fields: seq<Field>
    var index: nat
    var step: Step

    ghost function State(): WriterState
      reads this
    {
      WriterState(index, step)
    }

    constructor (boundary: string, fields: seq<Field>)
      ensures this.boundary == boundary && this.fields == fields
      ensures State() == WriterState(0, Header)
    {
      this.boundary, this.fields := boundary, fields;
      index, step := 0, Header;
    }

    method Get() returns (r: Option<Buffer>)
      modifies this
      ensures (r, State()) == Emit(boundary, fields, old(State()))
    {
      hide HeaderText;
      if index >= |fields| {
        return None;
      }
      var field := fields[index];
      match step {
        case Header =>
          var header := "--" + boundary + "\r\n";
          header := header + "Content-Disposition: form-data; name=\"" + field.name + "\"";
          if field.filename != "" {
            header := header + "; filename=\"" + field.filename + "\"";
          }
          header := header + "\r\n";
          if field.contentType != "" {
            header := header + "Content-Type: " + field.contentType + "\r\n";
          }
          header := header + "\r\n";
          step := Content;
          PrintedHeader(boundary, field, header);
          return Some((header, true));
        case Content =>
          step := ContentEnd;
          return Some((field.content, true));
        case ContentEnd =>
          var isEof := index == |fields| - 1;
          var end := "\r\n";
          if isEof {
            end := end + ("--" + boundary + "--\r\n");
            assert end == "\r\n--" + boundary + "--\r\n";
            step := Eof;
          } else {
            step := Header;
            index := index + 1;
          }
          return Some((end, !isEof));
        case Eof =>
          return None;
      }
    }
  }

  function Emit(boundary: string, fields: seq<Field>, w: WriterState): (Option<Buffer>, WriterState) {
    if w.index >= |fields| then (None, w)
    else
      var field := fields[w.index];
      match w.step
      case Header => (Some(("--" + boundary + "\r\n" + HeaderText(field), true)), w.(step := Content))
      case Content => (Some((field.content, true)), w.(step := ContentEnd))
      case ContentEnd =>
        if w.index == |fields| - 1
        then (Some(("\r\n--" + boundary + "--\r\n", false)), w.(step := Eof))
        else (Some(("\r\n", true)), WriterState(w.index + 1, Header))
      case Eof => (None, w)
  }

  /** Buffers still to come. */
  function Remaining(fields: seq<Field>, w: WriterState): nat {
    if w.index >= |fields| || w.step == Eof then 0
    else 3 * (|fields| - w.index) - (match w.step case Header => 0 case Content => 1 case _ => 2)
  }

  /** Everything `get` hands out until it says there is no more. */
  function WriteAll(boundary: string, fields: seq<Field>, w: WriterState): seq<string>
    decreases Remaining(fields, w)
  {
    match Emit(boundary, fields, w)
    case (None, _) => []
    case (Some((buffer, more)), next) =>
      [buffer] + if more then WriteAll(boundary, fields, next) else []
  }

  /** The pieces appended one by one are the header text. */
  lemma {:induction false} PrintedHeader(boundary: string, f: Field, header: string)
    requires header == ("--" + boundary + "\r\n") + "Content-Disposition: form-data; name=\"" + f.name + "\""
      + (if f.filename != "" then "; filename=\"" + f.filename + "\"" else "") + "\r\n"
      + (if f.contentType != "" then "Content-Type: " + f.contentType + "\r\n" else "") + "\r\n"
    ensures header == "--" + boundary + "\r\n" + HeaderText(f)
  {
    hide HeaderText, HeaderLines, DispositionLine;
    PrintedLines(f);
    PrintedDisposition(f);
    var open := "--" + boundary + "\r\n";
    var lit := "Content-Disposition: form-data; name=\"";
    var filename := if f.filename != "" then "; filename=\"" + f.filename + "\"" else "";
    var typed := if f.contentType != "" then "Content-Type: " + f.contentType + "\r\n" else "";
    Prepend(open, lit, f.name, "\"", filename, "\r\n", typed, "\r\n");
  }

  lemma {:induction false} Prepend(o: string, a: string, b: string, c: string, d: string, e: string, g: string, h: string)
    ensures o + a + b + c + d + e + g + h == o + (a + b + c + d + e + g + h)
  {
  }

  lemma {:induction false} PrintedLines(f: Field)
    ensures HeaderText(f) == DispositionLine(f) + "\r\n"
      + (if f.contentType != "" then "Content-Type: " + f.contentType + "\r\n" else "") + "\r\n"
  {
    hide DispositionLine;
    assert BLANK == "\r\n" + "\r\n";
  }

  lemma {:induction false} PrintedDisposition(f: Field)
    ensures DispositionLine(f) == "Content-Disposition: form-data; name=\"" + f.name + "\""
      + (if f.filename != "" then "; filename=\"" + f.filename + "\"" else "")
  {
    hide Quoted;
    PrintedQuoted("Content-Disposition: form-data; ", "name", f.name);
    PrintedQuoted("; ", "filename", f.filename);
    assert "Content-Disposition: form-data; " == "Content-Disposition: form-data;" + " ";
    assert "Content-Disposition: form-data; " + ("name" + "=\"") == "Content-Disposition: form-data; name=\"";
    assert "; " + ("filename" + "=\"") == "; filename=\"";
  }

  lemma {:induction false} PrintedQuoted(before: string, key: string, v: string)
    ensures before + Quoted(key, v) == (before + (key + "=\"")) + v + "\""
  {
  }

  // ---- the format (RFC 7578 section 4, RFC 2046 section 5.1.1) ----

  function Part(boundary: string, f: Field): string {
    "--" + boundary + "\r\n" + HeaderText(f) + f.content + "\r\n"
  }

  /** The body of a message, independently of how it is cut into buffers. */
  function Body(boundary: string, fields: seq<Field>): string {
    if fields == [] then "--" + boundary + "--\r\n"
    else Part(boundary, fields[0]) + Body(boundary, fields[1..])
  }

  /** Three calls of `get` print one field. */
  lemma {:induction false} WriterPrintsField(boundary: string, fields: seq<Field>, i: nat)
    requires i < |fields|
    ensures var f, w := fields[i], WriterState(i, Header);
      var end := if i == |fields| - 1 then "\r\n--" + boundary + "--\r\n" else "\r\n";
      var rest := if i == |fields| - 1 then [] else WriteAll(boundary, fields, WriterState(i + 1, Header));
      WriteAll(boundary, fields, w) == ["--" + boundary + "\r\n" + HeaderText(f), f.content, end] + rest
  {
    hide HeaderText;
    var f, w := fields[i], WriterState(i, Header);
    var head := "--" + boundary + "\r\n" + HeaderText(f);
    var end := if i == |fields| - 1 then "\r\n--" + boundary + "--\r\n" else "\r\n";
    var rest := if i == |fields| - 1 then [] else WriteAll(boundary, fields, WriterState(i + 1, Header));
    assert WriteAll(boundary, fields, w.(step := ContentEnd)) == [end] + rest;
    assert WriteAll(boundary, fields, w.(step := Content)) == [f.content] + ([end] + rest);
    assert WriteAll(boundary, fields, w) == [head] + ([f.content] + ([end] + rest));
  }

  /** The buffers of a non-empty form are the body of the message, three for each field. */
  lemma {:induction false} WriterPrintsBody(boundary: string, fields: seq<Field>, i: nat)
    requires i < |fields|
    ensures var buffers := WriteAll(boundary, fields, WriterState(i, Header));
      && Flatten(buffers) == Body(boundary, fields[i..])
      && |buffers| == 3 * (|fields| - i)
    decreases |fields| - i
  {
    hide HeaderText, WriteAll;
    var f := fields[i];
    var head := "--" + boundary + "\r\n" + HeaderText(f);
    WriterPrintsField(boundary, fields, i);
    assert fields[i..][1..] == fields[i + 1..];
    if i == |fields| - 1 {
      assert fields[i + 1..] == [];
      FlattenThree(head, f.content, "\r\n--" + boundary + "--\r\n", []);
    } else {
      WriterPrintsBody(boundary, fields, i + 1);
      FlattenThree(head, f.content, "\r\n", WriteAll(boundary, fields, WriterState(i + 1, Header)));
    }
  }

  lemma {:induction false} FlattenThree(a: string, b: string, c: string, rest: seq<string>)
    ensures Flatten([a, b, c] + rest) == a + b + c + Flatten(rest)
  {
    assert ([a, b, c] + rest)[1..] == [b, c] + rest;
    assert ([b, c] + rest)[1..] == [c] + rest;
    assert ([c] + rest)[1..] == rest;
    assert Flatten([c] + rest) == c + Flatten(rest);
    assert Flatten([b, c] + rest) == b + (c + Flatten(rest));
    assert a + (b + (c + Flatten(rest))) == a + b + c + Flatten(rest);
  }

  /** An empty form prints nothing at all, not even the closing delimiter. */
  lemma {:induction false} EmptyFormPrintsNothing(boundary: string)
    ensures WriteAll(boundary, [], WriterState(0, Header)) == []
    ensures Body(boundary, []) != ""
  {
  }

  /** `more` is false exactly on a buffer after which nothing is left. */
  lemma {:induction false} MoreIsExact(boundary: string, fields: seq<Field>, w: WriterState)
    requires Emit(boundary, fields, w).0.Some?
    ensures var (r, next) := Emit(boundary, fields, w);
      && Remaining(fields, next) == Remaining(fields, w) - 1
      && (r.value.1 <==> Remaining(fields, next) > 0)
  {
  }

  /** The bytes of a form with one field, without and with a file name and a type. */
  lemma {:induction false} OneFieldMessage(boundary: string, name: string, content: string, filename: string, contentType: string)
    ensures Body(boundary, [Field(name, "", "", content)])
      == "--" + boundary + "\r\n" + ("Content-Disposition: form-data; name=\"" + name + "\"\r\n\r\n")
         + content + ("\r\n--" + boundary + "--\r\n")
    ensures filename != "" && contentType != "" ==>
      Body(boundary, [Field(name, filename, contentType, content)])
        == "--" + boundary + "\r\n" + ("Content-Disposition: form-data; name=\"" + name + "\"; filename=\"" + filename
           + "\"\r\nContent-Type: " + contentType + "\r\n\r\n") + content + ("\r\n--" + boundary + "--\r\n")
  {
    hide HeaderText;
    BodyOfOne(boundary, Field(name, "", "", content));
    PlainHeader(name, content);
    if filename != "" && contentType != "" {
      BodyOfOne(boundary, Field(name, filename, contentType, content));
      FileHeader(name, filename, contentType, content);
    }
  }

  lemma {:induction false} BodyOfOne(boundary: string, f: Field)
    ensures Body(boundary, [f]) == "--" + boundary + "\r\n" + HeaderText(f) + f.content + ("\r\n--" + boundary + "--\r\n")
  {
    hide HeaderText;
    assert [f][1..] == [] && Body(boundary, []) == "--" + boundary + "--\r\n";
    assert "\r\n" + ("--" + boundary + "--\r\n") == "\r\n--" + boundary + "--\r\n";
  }

  lemma {:induction false} PlainHeader(name: string, content: string)
    ensures HeaderText(Field(name, "", "", content)) == "Content-Disposition: form-data; name=\"" + name + "\"\r\n\r\n"
  {
    PrintedDisposition(Field(name, "", "", content));
    PrintedLines(Field(name, "", "", content));
  }

  lemma {:induction false} FileHeader(name: string, filename: string, contentType: string, content: string)
    requires filename != "" && contentType != ""
    ensures HeaderText(Field(name, filename, contentType, content))
      == "Content-Disposition: form-data; name=\"" + name + "\"; filename=\"" + filename
         + "\"\r\nContent-Type: " + contentType + "\r\n\r\n"
  {
    PrintedDisposition(Field(name, filename, contentType, content));
    PrintedLines(Field(name, filename, contentType, content));
  }
}
