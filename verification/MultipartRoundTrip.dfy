/** What the reader and the writer of multipart/form-data promise together: chunking
    does not matter, the streaming delimiter search is the naive one, and a form is read
    back as it was written exactly when every field of it is clean. */
module MultipartRoundTrip {
  import opened Text
  import opened MultipartHeader
  import opened MultipartHeaderProofs
  import opened MultipartReader
  import opened MultipartWriter

  // ---- chunk independence ----

  /** A `put` that stops for a hard error stops on any longer buffer too; one that goes on
      outside `boundary_content` takes the same bytes of a longer buffer. */
  lemma {:induction false} TakeExtend(boundary: string, s: ReaderState, x: string, y: string)
    requires x != ""
    ensures var t := Take(boundary, s, x);
      t.error != NeedMore && (s.step != BoundaryContent || "\r" <= x) ==> Take(boundary, s, x + y) == t
  {
    hide FindFrom, HeaderField, Find;
    match s.step {
      case BoundaryHeader =>
        if Find(x, BLANK).Some? {
          FindFirst(x, BLANK, Find(x, BLANK));
          FindExtend(x, y, BLANK);
          var k := Find(x, BLANK).value;
          assert (x + y)[..k + 4] == x[..k + 4];
        }
      case _ =>
        PrefixExtend(x, y, OpenLine(boundary));
        PrefixExtend(x, y, CloseLine(boundary));
        PrefixExtend(x, y, Delimiter(boundary));
        PrefixExtend(x, y, CRLF);
        PrefixExtend(x, y, "\r");
    }
  }

  lemma {:induction false} PrefixExtend(x: string, y: string, p: string)
    ensures |p| <= |x| ==> (p <= x <==> p <= x + y)
  {
  }

  lemma {:induction false} GrowTwice(s: ReaderState, a: string, b: string)
    ensures Grow(Grow(s, a), b) == Grow(s, a + b)
  {
    assert s.partial.content + a + b == s.partial.content + (a + b);
  }

  /** Bytes without a carriage return are content, however they are cut. */
  lemma {:induction false} ContentPrefix(boundary: string, s: ReaderState, x: string, y: string)
    requires s.step == BoundaryContent && x != "" && Find(x, "\r").None?
    ensures Drive(boundary, s, x + y) == Drive(boundary, Grow(s, x), y)
  {
    hide FindFrom, HeaderField;
    var u := x + y;
    LacksChar(x, '\r');
    assert u[0] == x[0] && !("\r" <= u);
    if y == "" {
      assert u == x;
    } else {
      FindPastPrefix(x, y);
      match Find(y, "\r") {
        case None =>
          LacksChar(y, '\r');
          assert y[0] != '\r';
          GrowTwice(s, x, y);
          assert u[|u|..] == y[|y|..];
        case Some(k) =>
          FindFirst(y, "\r", Some(k));
          assert u[..|x| + k] == x + y[..k] && u[|x| + k..] == y[k..];
          GrowTwice(s, x, y[..k]);
          if k == 0 {
            assert x + y[..k] == x;
          } else {
            assert y[0..1] != "\r" by { assert !OccursAt(y, "\r", 0); }
          }
      }
    }
  }

  lemma {:induction false} FindPastPrefix(x: string, y: string)
    requires Find(x, "\r").None?
    ensures Find(x + y, "\r") == match Find(y, "\r") case None => None case Some(k) => Some(|x| + k)
  {
    var u := x + y;
    LacksChar(x, '\r');
    forall j: nat | j < |x| ensures !OccursAt(u, "\r", j) {
      if j + 1 <= |u| { assert u[j..j + 1][0] == x[j]; }
    }
    FindDrop(u, "\r", |x|);
    assert u[|x|..] == y;
  }

  /** Driving with `x` and then `y` is driving with `x + y`. */
  lemma {:induction false} DriveSplit(boundary: string, s: ReaderState, x: string, y: string)
    ensures Drive(boundary, s, x + y) == Feed(boundary, Drive(boundary, s, x), y)
    decreases |x|
  {
    hide FindFrom, HeaderField;
    if x == "" {
      assert x + y == y && "" + y == y;
    } else {
      var t := Take(boundary, s, x);
      TakeProgress(boundary, s, x);
      TakeExtend(boundary, s, x, y);
      if t.error == NoError {
        if s.step == BoundaryContent && !("\r" <= x) && Find(x, "\r").None? {
          ContentPrefix(boundary, s, x, y);
          assert x[t.count..] == "" && "" + y == y;
        } else {
          if s.step == BoundaryContent && !("\r" <= x) {
            TakeContentExtend(boundary, s, x, y);
          }
          assert Take(boundary, s, x + y) == t;
          assert (x + y)[t.count..] == x[t.count..] + y;
          DriveSplit(boundary, t.state, x[t.count..], y);
        }
      }
    }
  }

  lemma {:induction false} TakeContentExtend(boundary: string, s: ReaderState, x: string, y: string)
    requires s.step == BoundaryContent && x != "" && !("\r" <= x) && Find(x, "\r").Some?
    ensures Take(boundary, s, x + y) == Take(boundary, s, x)
  {
    hide FindFrom, Find;
    FindFirst(x, "\r", Find(x, "\r"));
    FindExtend(x, y, "\r");
    var k := Find(x, "\r").value;
    assert (x + y)[..k] == x[..k];
    assert (x + y)[0] == x[0];
  }

  /** Chunk independence: from every parser configuration, on every input, feeding two
      chunks gives the same step, fields, partial field, error and tail as feeding their
      concatenation. */
  lemma {:induction false} ChunkIndependence(boundary: string, c: Config, a: string, b: string)
    ensures Feed(boundary, Feed(boundary, c, a), b) == Feed(boundary, c, a + b)
  {
    hide Drive;
    assert c.tail + (a + b) == c.tail + a + b;
    if c.error == NoError || c.error == NeedMore {
      DriveSplit(boundary, c.state, c.tail + a, b);
    }
  }

  /** Any way of cutting a message into chunks gives the same parse. */
  lemma {:induction false} AnyChunking(boundary: string, c: Config, chunks: seq<string>)
    requires chunks != []
    ensures FeedAll(boundary, c, chunks) == Feed(boundary, c, Flatten(chunks))
    decreases |chunks|
  {
    hide Drive, Feed;
    var next := Feed(boundary, c, chunks[0]);
    if |chunks| == 1 {
      assert chunks[1..] == [] && Flatten(chunks) == chunks[0] + "" == chunks[0];
      assert FeedAll(boundary, next, []) == next;
    } else {
      AnyChunking(boundary, next, chunks[1..]);
      ChunkIndependence(boundary, c, chunks[0], Flatten(chunks[1..]));
    }
  }

  // ---- the delimiter search ----

  /** What driving the reader over content does, told with one search for the delimiter. */
  predicate SearchedNaively(boundary: string, s: ReaderState, data: string) {
    match Find(data, Delimiter(boundary))
    case Some(k) =>
      k + 2 <= |data| && Drive(boundary, s, data)
        == Drive(boundary, ReaderState(BoundaryLine, s.fields + [Grow(s, data[..k]).partial], NO_FIELD), data[k + 2..])
    case None =>
      var c := Drive(boundary, s, data);
      && |c.tail| <= |data| && c.tail == data[|data| - |c.tail|..]
      && c.state == Grow(s, data[..|data| - |c.tail|])
      && |c.tail| < |Delimiter(boundary)|
      && c.error == (if c.tail == "" then NoError else NeedMore)
      && (c.tail == "" || c.tail[0] == '\r')
  }

  /** The streaming search is the naive one: the content read is exactly what stands
      before the first delimiter; without one, all data is content or a possible start of
      a delimiter kept for the next chunk. */
  lemma {:induction false} ContentSearch(boundary: string, s: ReaderState, data: string)
    requires s.step == BoundaryContent
    ensures SearchedNaively(boundary, s, data)
    decreases |data|
  {
    hide FindFrom, HeaderField, Find;
    var d := Delimiter(boundary);
    FindFirst(data, d, Find(data, d));
    if data == "" {
      assert Grow(s, data[..0]) == s;
    } else if "\r" <= data {
      if |data| < |d| {
        assert Grow(s, data[..0]) == s;
      } else if d <= data {
        assert OccursAt(data, d, 0);
        assert Grow(s, data[..0]) == s;
      } else {
        assert data[..1] == "\r";
        SearchStep(boundary, s, data, 1);
      }
    } else {
      FindFirst(data, "\r", Find(data, "\r"));
      match Find(data, "\r") {
        case None =>
          if Find(data, d).Some? { DelimiterStarts(boundary, data, Find(data, d).value); }
          assert data[..|data|] == data && data[|data|..] == "";
          assert Drive(boundary, s, data) == Config(Grow(s, data), "", NoError);
        case Some(k) =>
          forall j: nat | j < k ensures !OccursAt(data, d, j) { DelimiterStarts(boundary, data, j); }
          assert data[0..1] != "\r";
          SearchStep(boundary, s, data, k);
      }
    }
  }

  lemma {:induction false} DelimiterStarts(boundary: string, data: string, j: nat)
    ensures OccursAt(data, Delimiter(boundary), j) ==> OccursAt(data, "\r", j)
  {
    var d := Delimiter(boundary);
    if OccursAt(data, d, j) {
      assert data[j] == data[j..j + |d|][0];
      assert data[j..j + 1] == "\r";
    }
  }

  /** One `put` that takes `n` bytes of content, followed by the rest of the search. */
  lemma {:induction false} SearchStep(boundary: string, s: ReaderState, data: string, n: nat)
    requires s.step == BoundaryContent && 0 < n <= |data|
    requires Take(boundary, s, data) == Taken(Grow(s, data[..n]), n, NoError)
    requires forall j: nat | j < n :: !OccursAt(data, Delimiter(boundary), j)
    ensures SearchedNaively(boundary, s, data)
    decreases |data|, 0
  {
    hide FindFrom, HeaderField, Find, Take;
    var d := Delimiter(boundary);
    FindDrop(data, d, n);
    var s', rest := Grow(s, data[..n]), data[n..];
    ContentSearch(boundary, s', rest);
    match Find(rest, d) {
      case Some(k) =>
        GrowTwice(s, data[..n], rest[..k]);
        assert data[..n] + rest[..k] == data[..n + k] && rest[k + 2..] == data[n + k + 2..];
      case None =>
        var c := Drive(boundary, s', rest);
        var m := |rest| - |c.tail|;
        GrowTwice(s, data[..n], rest[..m]);
        assert data[..n] + rest[..m] == data[..n + m];
    }
  }

  // ---- the round trip ----

  /** Everything the reader has read stays read. */
  lemma {:induction false} FieldsOnlyGrow(boundary: string, s: ReaderState, data: string)
    ensures s.fields <= Drive(boundary, s, data).state.fields
    decreases |data|
  {
    hide FindFrom, HeaderField, Find;
    if data != "" {
      var t := Take(boundary, s, data);
      TakeProgress(boundary, s, data);
      if t.error == NoError {
        assert s.fields <= t.state.fields;
        FieldsOnlyGrow(boundary, t.state, data[t.count..]);
      }
    }
  }

  /** Whatever content follows, the next field keeps the header it was given. */
  lemma {:induction false} NextFieldKeepsHeader(boundary: string, s: ReaderState, data: string)
    requires s.step == BoundaryContent
    ensures var r := Drive(boundary, s, data).state.fields;
      && s.fields <= r
      && (|r| > |s.fields| ==> r[|s.fields|].(content := "") == s.partial.(content := ""))
  {
    hide FindFrom, HeaderField, Find, Drive;
    ContentSearch(boundary, s, data);
    match Find(data, Delimiter(boundary)) {
      case None =>
      case Some(k) =>
        var f := Grow(s, data[..k]).partial;
        FieldsOnlyGrow(boundary, ReaderState(BoundaryLine, s.fields + [f], NO_FIELD), data[k + 2..]);
    }
  }

  /** The content ends where the writer ended it: no delimiter starts inside it. */
  predicate CleanContent(boundary: string, content: string) {
    Find(content + Delimiter(boundary), Delimiter(boundary)) == Some(|content|)
  }

  predicate CleanField(boundary: string, f: Field) {
    Readable(f) && CleanContent(boundary, f.content)
  }

  predicate CleanFields(boundary: string, fields: seq<Field>) {
    forall i | 0 <= i < |fields| :: CleanField(boundary, fields[i])
  }

  lemma {:induction false} DriveOpenLine(boundary: string, s: ReaderState, rest: string)
    requires s.step == BoundaryLine
    ensures Drive(boundary, s, OpenLine(boundary) + rest) == Drive(boundary, s.(step := BoundaryHeader), rest)
  {
    var data := OpenLine(boundary) + rest;
    assert data[|OpenLine(boundary)|..] == rest;
  }

  lemma {:induction false} DriveCloseLine(boundary: string, s: ReaderState)
    requires s.step == BoundaryLine
    ensures Drive(boundary, s, CloseLine(boundary) + CRLF) == Config(s.(step := MultipartReader.Step.Eof), "", NoError)
  {
    var data := CloseLine(boundary) + CRLF;
    assert data[|boundary| + 2] == '-';
    assert data[..|CloseLine(boundary)|] == CloseLine(boundary);
    assert OpenLine(boundary)[|boundary| + 2] == '\r';
    assert !(OpenLine(boundary) <= data);
    assert data[|CloseLine(boundary)|..] == CRLF;
    assert CRLF[2..] == "";
  }

  /** The header of a part leads to its content exactly when it is readable; otherwise no
      later field can take its place. */
  lemma {:induction false} DriveHeader(boundary: string, s: ReaderState, f: Field, rest: string)
    requires s.step == BoundaryHeader
    ensures var c := Drive(boundary, s, HeaderText(f) + rest);
      if Readable(f)
      then c == Drive(boundary, ReaderState(BoundaryContent, s.fields, f.(content := "")), rest)
      else |c.state.fields| > |s.fields| ==> c.state.fields[|s.fields|] != f
  {
    hide FindFrom, HeaderField, Find, HeaderText, Readable;
    var data := HeaderText(f) + rest;
    HeaderExact(f, rest);
    var k := Find(data, BLANK).value;
    match HeaderField(data[..k + 4]) {
      case None =>
      case Some(g) =>
        var t := s.(step := BoundaryContent, partial := g);
        assert Drive(boundary, s, data) == Drive(boundary, t, data[k + 4..]);
        if Readable(f) {
          assert data[k + 4..] == rest;
        } else {
          HeaderFieldOneLine(data[..k + 4]);
          NextFieldKeepsHeader(boundary, t, data[k + 4..]);
        }
    }
  }

  /** The content of a part is read whole exactly when it is clean. */
  lemma {:induction false} DriveContent(boundary: string, s: ReaderState, f: Field, rest: string)
    requires s.step == BoundaryContent && s.partial == f.(content := "")
    ensures var c := Drive(boundary, s, f.content + Delimiter(boundary) + rest);
      if CleanContent(boundary, f.content)
      then c == Drive(boundary, ReaderState(BoundaryLine, s.fields + [f], NO_FIELD), "--" + boundary + rest)
      else |c.state.fields| > |s.fields| && c.state.fields[|s.fields|] != f
  {
    hide FindFrom, Find, Drive;
    var d := Delimiter(boundary);
    var data := f.content + d + rest;
    var n := |f.content|;
    FindFirst(f.content + d, d, Find(f.content + d, d));
    assert (f.content + d)[n..n + |d|] == d;
    assert OccursAt(f.content + d, d, n);
    FindExtend(f.content + d, rest, d);
    ContentSearch(boundary, s, data);
    var k := Find(data, d).value;
    assert k <= n;
    var g := Grow(s, data[..k]).partial;
    assert data[..k] == f.content[..k];
    assert g.content == data[..k];
    FieldsOnlyGrow(boundary, ReaderState(BoundaryLine, s.fields + [g], NO_FIELD), data[k + 2..]);
    if k == n {
      assert g == f;
      assert data[k + 2..] == "--" + boundary + rest;
    }
  }

  /** Reading what is left of a message after its first `|done|` fields. */
  lemma {:induction false} DriveBody(boundary: string, done: seq<Field>, fields: seq<Field>, partial: Field)
    ensures var c := Drive(boundary, ReaderState(BoundaryLine, done, partial), Body(boundary, fields));
      if CleanFields(boundary, fields)
      then c == Config(ReaderState(MultipartReader.Step.Eof, done + fields, if fields == [] then partial else NO_FIELD), "", NoError)
      else c.state.fields != done + fields
    decreases |fields|
  {
    hide Drive, HeaderText, Readable, CleanContent;
    var s := ReaderState(BoundaryLine, done, partial);
    if fields == [] {
      DriveCloseLine(boundary, s);
      assert Body(boundary, fields) == CloseLine(boundary) + CRLF;
      assert done + [] == done;
    } else {
      var f, later := fields[0], fields[1..];
      DrivePart(boundary, s, f, later);
      assert done + [f] + later == done + fields;
      DriveBody(boundary, done + [f], later, NO_FIELD);
      assert (done + fields)[|done|] == f;
    }
  }

  lemma {:induction false} BodyShape(boundary: string, f: Field, later: seq<Field>) returns (rest: string)
    ensures Body(boundary, [f] + later)
      == OpenLine(boundary) + (HeaderText(f) + (f.content + Delimiter(boundary) + rest))
    ensures "--" + boundary + rest == Body(boundary, later)
  {
    hide HeaderText;
    var b := Body(boundary, later);
    assert ([f] + later)[1..] == later;
    if later == [] {
      rest := "--\r\n";
      assert b == "--" + boundary + rest;
    } else {
      rest := CRLF + HeaderText(later[0]) + later[0].content + "\r\n" + Body(boundary, later[1..]);
      assert b == "--" + boundary + rest;
    }
    assert "\r\n" + b == Delimiter(boundary) + rest;
    assert Part(boundary, f) + b
      == OpenLine(boundary) + (HeaderText(f) + (f.content + ("\r\n" + b)));
  }

  /** One part of a message. */
  lemma {:induction false} DrivePart(boundary: string, s: ReaderState, f: Field, later: seq<Field>)
    requires s.step == BoundaryLine
    ensures var c := Drive(boundary, s, Body(boundary, [f] + later));
      if CleanField(boundary, f)
      then c == Drive(boundary, ReaderState(BoundaryLine, s.fields + [f], NO_FIELD), Body(boundary, later))
      else |c.state.fields| > |s.fields| ==> c.state.fields[|s.fields|] != f
  {
    hide Drive, HeaderText, Readable, CleanContent, Body;
    var rest := BodyShape(boundary, f, later);
    var body := f.content + Delimiter(boundary) + rest;
    DriveOpenLine(boundary, s, HeaderText(f) + body);
    DriveHeader(boundary, s.(step := BoundaryHeader), f, body);
    if Readable(f) {
      DriveContent(boundary, ReaderState(BoundaryContent, s.fields, f.(content := "")), f, rest);
    }
  }

  /** The parser has taken a whole message, and this is the form it read. */
  predicate ReadsAs(c: Config, fields: seq<Field>) {
    c.state.step == MultipartReader.Step.Eof && c.state.fields == fields && c.tail == "" && c.error == NoError
  }

  /** The round trip: however the writer's buffers are cut up on the way, the reader ends
      with exactly the fields written, in order, if and only if the form has a field and
      every field is clean. */
  lemma {:induction false} RoundTrip(boundary: string, fields: seq<Field>, chunks: seq<string>)
    requires Flatten(chunks) == Flatten(WriteAll(boundary, fields, WriterState(0, Header)))
    ensures ReadsAs(FeedAll(boundary, OPENED, chunks), fields)
      <==> fields != [] && CleanFields(boundary, fields)
  {
    hide Drive, HeaderText, CleanFields, Body;
    var written := WriteAll(boundary, fields, WriterState(0, Header));
    if fields == [] {
      EmptyFormPrintsNothing(boundary);
      if chunks != [] {
        AnyChunking(boundary, OPENED, chunks);
        DriveNothing(boundary);
      }
    } else {
      WriterPrintsBody(boundary, fields, 0);
      assert fields[0..] == fields;
      BodyNonEmpty(boundary, fields);
      AnyChunking(boundary, OPENED, chunks);
      assert "" + Flatten(chunks) == Flatten(chunks);
      DriveBody(boundary, [], fields, NO_FIELD);
      assert [] + fields == fields;
    }
  }

  lemma {:induction false} DriveNothing(boundary: string)
    ensures Feed(boundary, OPENED, "") == OPENED
  {
  }

  lemma {:induction false} BodyNonEmpty(boundary: string, fields: seq<Field>)
    ensures Body(boundary, fields) != ""
  {
  }

  /** Conditions a caller can check on each string alone: they make a field clean. */
  lemma {:induction false} SimpleFieldIsClean(boundary: string, f: Field)
    requires '\r' !in boundary && Lacks(f.content, Delimiter(boundary))
    requires forall n | n in [f.name, f.filename] :: '\r' !in n && '"' !in n && '\\' !in n
    requires Trimmed(f.contentType) && Lacks(f.contentType, CRLF)
    ensures CleanField(boundary, f)
  {
    hide Find, FindFrom;
    FindAfter(f.content, Delimiter(boundary), "");
    assert f.content + Delimiter(boundary) + "" == f.content + Delimiter(boundary);
    forall n | n in [f.name, f.filename] ensures ReadableName(n) {
      PlainQuoteClosed(n);
      LacksSimple(n);
    }
    assert f.name in [f.name, f.filename] && f.filename in [f.name, f.filename];
  }

  lemma {:induction false} PlainQuoteClosed(n: string)
    requires '"' !in n && '\\' !in n
    ensures QuoteClosed(n, false)
  {
    if n != "" { PlainQuoteClosed(n[1..]); }
  }
}
