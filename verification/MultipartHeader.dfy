/** The part headers of a multipart/form-data body (RFC 7578, section 4): the quoted
    parameters of Content-Disposition and the header lines around them. */
module MultipartHeader {
  import opened Text
  import opened Splitter

  datatype Field = Field(name: string, filename: string, contentType: string, content: string)

  const NO_FIELD := Field("", "", "", "")

  // ---- Content-Disposition parameters ----

  /** The length of a quoted value: up to the first quote that no backslash escapes,
      or everything when there is none. */
  function QuoteEnd(q: string, escape: bool): (n: nat)
    ensures n <= |q|
  {
    if q == "" then 0
    else if q[0] == '\\' && !escape then 1 + QuoteEnd(q[1..], true)
    else if q[0] == '"' && !escape then 0
    else 1 + QuoteEnd(q[1..], false)
  }

  function SkipSpaces(h: string): (r: string)
    ensures |r| <= |h|
  {
    if h != "" && Space(h[0]) then SkipSpaces(h[1..]) else h
  }

  function SkipSeparator(h: string): (r: string)
    ensures |r| <= |h|
  {
    SkipSpaces(if h != "" && h[0] == ';' then h[1..] else h)
  }

  /** The end of an unquoted value. */
  function BareEnd(v: string): (n: nat)
    ensures n <= |v|
  {
    FindFirst(v, ";", Find(v, ";"));
    match Find(v, ";")
    case Some(i) => i
    case None => |v|
  }

  /** The `key=value` pairs of a parameter list, quotes removed, escapes kept. */
  function Parameters(h: string): seq<(string, string)>
    decreases |h|
  {
    match Find(h, "=")
    case None => []
    case Some(eq) =>
      FindFirst(h, "=", Some(eq));
      var key, v := Trim(h[..eq]), h[eq + 1..];
      if v != "" && v[0] == '"' then
        var q := v[1..];
        var end := QuoteEnd(q, false);
        [(key, q[..end])] + Parameters(SkipSeparator(if end < |q| then q[end + 1..] else ""))
      else
        [(key, Trim(v[..BareEnd(v)]))] + Parameters(SkipSeparator(v[BareEnd(v)..]))
  }

  lemma {:induction false} ParametersNone(header: string, pos: nat)
    requires pos <= |header| && FindFrom(header, "=", pos).None?
    ensures Parameters(header[pos..]) == []
  {
    FindFromDrop(header, "=", pos);
  }

  lemma {:induction false} ParametersQuoted(header: string, pos: nat, eq: nat, end: nat)
    requires pos <= |header| && FindFrom(header, "=", pos) == Some(eq)
    requires eq + 1 < |header| && header[eq + 1] == '"'
    requires end == eq + 2 + QuoteEnd(header[eq + 2..], false)
    ensures pos <= eq && Parameters(header[pos..]) == [(Trim(header[pos..eq]), header[eq + 2..end])]
      + Parameters(SkipSeparator(header[if end < |header| then end + 1 else end..]))
  {
    hide Find, FindFrom, Trim, QuoteEnd, SkipSpaces;
    FindFromDrop(header, "=", pos);
    var rest := header[pos..];
    assert rest[..eq - pos] == header[pos..eq] && rest[eq - pos + 1..][1..] == header[eq + 2..];
    assert header[eq + 2..][..end - eq - 2] == header[eq + 2..end];
    if end < |header| {
      assert header[eq + 2..][end - eq - 2 + 1..] == header[end + 1..];
    } else {
      assert header[end..] == "";
    }
  }

  lemma {:induction false} ParametersBare(header: string, pos: nat, eq: nat, end: nat)
    requires pos <= |header| && FindFrom(header, "=", pos) == Some(eq)
    requires eq + 1 <= |header| && (eq + 1 < |header| ==> header[eq + 1] != '"')
    requires end == match FindFrom(header, ";", eq + 1) case Some(i) => i case None => |header|
    ensures pos <= eq && eq + 1 <= end <= |header|
    ensures Parameters(header[pos..])
      == [(Trim(header[pos..eq]), Trim(header[eq + 1..end]))] + Parameters(SkipSeparator(header[end..]))
  {
    hide Find, FindFrom, Trim, QuoteEnd, SkipSpaces;
    FindFromDrop(header, "=", pos);
    FindFromDrop(header, ";", eq + 1);
    var rest, v := header[pos..], header[eq + 1..];
    assert rest[..eq - pos] == header[pos..eq] && rest[eq - pos + 1..] == v;
    assert BareEnd(v) == end - (eq + 1);
    assert v[..end - (eq + 1)] == header[eq + 1..end] && v[end - (eq + 1)..] == header[end..];
  }

  /** `parse_content_disposition`: one index `pos` runs over the header. */
  method ParseContentDisposition(header: string) returns (results: seq<(string, string)>)
    ensures results == Parameters(header)
  {
    hide Find, FindFrom, Trim, QuoteEnd, SkipSpaces, Parameters, SkipSeparator;
    results := [];
    var pos := 0;
    assert header[0..] == header;
    while pos < |header|
      invariant pos <= |header|
      invariant results + Parameters(header[pos..]) == Parameters(header)
    {
      ghost var before, start := results, pos;
      var found := FindFrom(header, "=", pos);
      FindFromFirst(header, "=", pos);
      if found.None? {
        ParametersNone(header, pos);
        return;
      }
      var eq := found.value;
      var key := Trim(header[pos..eq]);
      pos := eq + 1;
      var value;
      if pos < |header| && header[pos] == '"' {
        pos := pos + 1;
        var end := ScanQuoted(header, pos);
        ParametersQuoted(header, start, eq, end);
        value := header[pos..end];
        pos := if end < |header| then end + 1 else end;
      } else {
        var semicolon := FindFrom(header, ";", pos);
        var end := if semicolon.None? then |header| else semicolon.value;
        ParametersBare(header, start, eq, end);
        value := Trim(header[pos..end]);
        pos := end;
      }
      results := results + [(key, value)];
      ghost var next := Parameters(SkipSeparator(header[pos..]));
      assert before + ([(key, value)] + next) == results + next;
      pos := SkipSeparatorFrom(header, pos);
    }
    ParametersEmpty(header, pos);
  }

  lemma {:induction false} ParametersEmpty(header: string, pos: nat)
    requires pos == |header|
    ensures Parameters(header[pos..]) == []
  {
    FindFirst("", "=", None);
  }

  /** The scan for the closing quote, with its `escape` flag. */
  method ScanQuoted(header: string, pos: nat) returns (end: nat)
    requires pos <= |header|
    ensures end == pos + QuoteEnd(header[pos..], false)
    ensures end <= |header|
  {
    end := pos;
    var escape := false;
    while end < |header|
      invariant pos <= end <= |header|
      invariant end + QuoteEnd(header[end..], escape) == pos + QuoteEnd(header[pos..], false)
    {
      assert header[end..][1..] == header[end + 1..];
      if header[end] == '\\' && !escape {
        escape := true;
      } else if header[end] == '"' && !escape {
        break;
      } else {
        escape := false;
      }
      end := end + 1;
    }
  }

  method SkipSeparatorFrom(header: string, from: nat) returns (pos: nat)
    requires from <= |header|
    ensures from <= pos <= |header| && header[pos..] == SkipSeparator(header[from..])
  {
    pos := from;
    if pos < |header| && header[pos] == ';' {
      pos := pos + 1;
    }
    while pos < |header| && Space(header[pos])
      invariant from <= pos <= |header|
      invariant SkipSpaces(header[pos..]) == SkipSeparator(header[from..])
    {
      assert header[pos..][1..] == header[pos + 1..];
      pos := pos + 1;
    }
  }

  // ---- header lines ----

  const CRLF := "\r\n"
  const BLANK := "\r\n\r\n"

  /** The `key: value` lines; a non-empty line without a colon is an error. */
  function HeaderItems(lines: seq<string>): Option<seq<(string, string)>> {
    if lines == [] then Some([])
    else if lines[0] == "" then HeaderItems(lines[1..])
    else
      match Find(lines[0], ":")
      case None => None
      case Some(k) =>
        FindFirst(lines[0], ":", Some(k));
        match HeaderItems(lines[1..])
        case None => None
        case Some(items) => Some([(Trim(lines[0][..k]), Trim(lines[0][k + 1..]))] + items)
  }

  /** `split_header_field_value`. */
  method SplitHeaderFieldValue(header: string) returns (results: Option<seq<(string, string)>>)
    ensures results == HeaderItems(Splits(header, CRLF))
  {
    hide Find, FindFrom, Trim, Splits;
    var lines := Split(header, CRLF);
    var items := [];
    var i := 0;
    assert lines[0..] == lines;
    assert forall rest: seq<(string, string)> :: items + rest == rest;
    while i < |lines|
      invariant i <= |lines|
      invariant HeaderItems(lines) == match HeaderItems(lines[i..]) case None => None case Some(rest) => Some(items + rest)
    {
      var line := lines[i];
      assert lines[i..][1..] == lines[i + 1..];
      i := i + 1;
      if line == "" { continue; }
      var pos := Find(line, ":");
      FindFirst(line, ":", pos);
      if pos.None? { return None; }
      var item := (Trim(line[..pos.value]), Trim(line[pos.value + 1..]));
      assert forall rest: seq<(string, string)> :: items + ([item] + rest) == (items + [item]) + rest;
      items := items + [item];
    }
    assert items + [] == items;
    return Some(items);
  }

  function ApplyParameter(f: Field, p: (string, string)): Field {
    if p.0 == "name" then f.(name := p.1)
    else if p.0 == "filename" then f.(filename := p.1)
    else f
  }

  function ApplyParameters(f: Field, ps: seq<(string, string)>): Field
    decreases ps
  {
    if ps == [] then f else ApplyParameters(ApplyParameter(f, ps[0]), ps[1..])
  }

  function ApplyItem(f: Field, item: (string, string)): Option<Field> {
    if item.0 == "Content-Disposition" then
      match Find(item.1, ";")
      case None => None
      case Some(k) =>
        FindFirst(item.1, ";", Some(k));
        if Trim(item.1[..k]) != "form-data" then None
        else Some(ApplyParameters(f, Parameters(item.1[k + 1..])))
    else if item.0 == "Content-Type" then Some(f.(contentType := item.1))
    else Some(f)
  }

  function ApplyItems(f: Field, items: seq<(string, string)>): Option<Field>
    decreases items
  {
    if items == [] then Some(f)
    else
      match ApplyItem(f, items[0])
      case None => None
      case Some(g) => ApplyItems(g, items[1..])
  }

  /** What the reader makes of a header block; None is `unexpected_body`. */
  function HeaderField(header: string): Option<Field> {
    match HeaderItems(Splits(header, CRLF))
    case None => None
    case Some(items) => ApplyItems(NO_FIELD, items)
  }

  /** The header branch of `reader::put`: two nested loops fill a fresh field. */
  method ReadHeaderField(header: string) returns (r: Option<Field>)
    ensures r == HeaderField(header)
  {
    hide Find, FindFrom, Trim, Splits, Parameters, HeaderItems;
    var results := SplitHeaderFieldValue(header);
    if results.None? { return None; }
    var items := results.value;
    var field := NO_FIELD;
    var i := 0;
    while i < |items|
      invariant i <= |items|
      invariant HeaderField(header) == ApplyItems(field, items[i..])
    {
      var item := items[i];
      assert items[i..][1..] == items[i + 1..];
      if item.0 == "Content-Disposition" {
        var pos := Find(item.1, ";");
        FindFirst(item.1, ";", pos);
        if pos.None? { return None; }
        if Trim(item.1[..pos.value]) != "form-data" { return None; }
        ghost var before := field;
        var pairs := ParseContentDisposition(item.1[pos.value + 1..]);
        var j := 0;
        while j < |pairs|
          invariant j <= |pairs|
          invariant ApplyParameters(before, pairs) == ApplyParameters(field, pairs[j..])
        {
          assert pairs[j..][1..] == pairs[j + 1..];
          if pairs[j].0 == "name" {
            field := field.(name := pairs[j].1);
          } else if pairs[j].0 == "filename" {
            field := field.(filename := pairs[j].1);
          }
          j := j + 1;
        }
      } else if item.0 == "Content-Type" {
        field := field.(contentType := item.1);
      }
      i := i + 1;
    }
    return Some(field);
  }

  // ---- what the writer prints ----

  function Quoted(key: string, v: string): string {
    key + "=\"" + v + "\""
  }

  function ParameterText(f: Field): string {
    " " + Quoted("name", f.name) + if f.filename != "" then "; " + Quoted("filename", f.filename) else ""
  }

  function DispositionLine(f: Field): string {
    "Content-Disposition: form-data;" + ParameterText(f)
  }

  /** The header lines without the blank line that closes them. */
  function HeaderLines(f: Field): string {
    DispositionLine(f) + if f.contentType != "" then CRLF + ("Content-Type: " + f.contentType) else ""
  }

  function HeaderText(f: Field): string {
    HeaderLines(f) + BLANK
  }

  // ---- which headers survive being printed and read back ----

  /** Every quote in `n` is escaped, and `n` does not end in the middle of an escape. */
  predicate QuoteClosed(n: string, escape: bool) {
    if n == "" then !escape
    else if n[0] == '\\' && !escape then QuoteClosed(n[1..], true)
    else if n[0] == '"' && !escape then false
    else QuoteClosed(n[1..], false)
  }

  predicate ReadableName(n: string) {
    QuoteClosed(n, false) && Lacks(n, CRLF)
  }

  predicate Readable(f: Field) {
    && ReadableName(f.name) && ReadableName(f.filename)
    && Trimmed(f.contentType) && Lacks(f.contentType, CRLF)
  }
}
