/** The incremental multipart/form-data parser: `form_data_body::reader`, and the loop
    that feeds it (keep the unconsumed tail, call `put` while there is one). */
module MultipartReader {
  import opened Text
  import opened Splitter
  import opened MultipartHeader

  datatype Step = BoundaryLine | BoundaryHeader | BoundaryContent | Finished | Eof

  datatype Error = NoError | NeedMore | UnexpectedBody | BadField | PartialMessage

  datatype ReaderState = ReaderState(step: Step, fields: seq<Field>, partial: Field)

  const START := ReaderState(BoundaryLine, [], NO_FIELD)

  /** The outcome of one `put`: the state after it, the bytes it took, its error. */
  datatype Taken = Taken(state: ReaderState, count: nat, error: Error)

  function Delimiter(boundary: string): string {
    CRLF + "--" + boundary
  }

  function OpenLine(boundary: string): string {
    "--" + boundary + CRLF
  }

  function CloseLine(boundary: string): string {
    "--" + boundary + "--"
  }

  /** One `put` on `data`. */
  function Take(boundary: string, s: ReaderState, data: string): Taken {
    match s.step
    case BoundaryLine =>
      if |data| < |OpenLine(boundary)| then Taken(s, 0, NeedMore)
      else if OpenLine(boundary) <= data then Taken(s.(step := BoundaryHeader), |OpenLine(boundary)|, NoError)
      else if CloseLine(boundary) <= data then Taken(s.(step := Finished), |CloseLine(boundary)|, NoError)
      else Taken(s, 0, UnexpectedBody)
    case BoundaryHeader =>
      FindFirst(data, BLANK, Find(data, BLANK));
      (match Find(data, BLANK)
       case None => Taken(s, 0, NeedMore)
       case Some(k) =>
         match HeaderField(data[..k + 4])
         case None => Taken(s, 0, UnexpectedBody)
         case Some(f) => Taken(s.(step := BoundaryContent, partial := f), k + 4, NoError))
    case BoundaryContent =>
      if "\r" <= data then
        if |data| < |Delimiter(boundary)| then Taken(s, 0, NeedMore)
        else if Delimiter(boundary) <= data then
          Taken(ReaderState(BoundaryLine, s.fields + [s.partial], NO_FIELD), 2, NoError)
        else Taken(Grow(s, "\r"), 1, NoError)
      else
        FindFirst(data, "\r", Find(data, "\r"));
        (match Find(data, "\r")
         case None => Taken(Grow(s, data), |data|, NoError)
         case Some(k) => Taken(Grow(s, data[..k]), k, NoError))
    case Finished =>
      if |data| < 2 then Taken(s, 0, NeedMore)
      else if CRLF <= data then Taken(s.(step := Eof), 2, NoError)
      else Taken(s, 0, UnexpectedBody)
    case Eof => Taken(s, 0, UnexpectedBody)
  }

  function Grow(s: ReaderState, text: string): ReaderState {
    s.(partial := s.partial.(content := s.partial.content + text))
  }

  /** Progress: a `put` on bytes takes at least one and no more than it was given, or it
      takes none, changes nothing, and says why. */
  lemma {:induction false} TakeProgress(boundary: string, s: ReaderState, data: string)
    requires data != ""
    ensures var t := Take(boundary, s, data);
      if t.error == NoError then 1 <= t.count <= |data| else t.count == 0 && t.state == s
  {
    hide HeaderField;
    FindFirst(data, BLANK, Find(data, BLANK));
    FindFirst(data, "\r", Find(data, "\r"));
    assert Find(data, "\r") == Some(0) ==> data[0..1] == "\r";
  }

  /** A parser between two chunks. */
  datatype Config = Config(state: ReaderState, tail: string, error: Error)

  /** Calls `put` for as long as there is data and no error. */
  function Drive(boundary: string, s: ReaderState, data: string): Config
    decreases |data|
  {
    if data == "" then Config(s, "", NoError)
    else
      var t := Take(boundary, s, data);
      TakeProgress(boundary, s, data);
      if t.error != NoError then Config(s, data, t.error)
      else Drive(boundary, t.state, data[t.count..])
  }

  /** A chunk arrives; after a hard error nothing more is parsed. */
  function Feed(boundary: string, c: Config, chunk: string): Config {
    if c.error == NoError || c.error == NeedMore then Drive(boundary, c.state, c.tail + chunk)
    else c.(tail := c.tail + chunk)
  }

  function FeedAll(boundary: string, c: Config, chunks: seq<string>): Config
    decreases |chunks|
  {
    if chunks == [] then c else FeedAll(boundary, Feed(boundary, c, chunks[0]), chunks[1..])
  }

  const OPENED := Config(START, "", NoError)

  /** The boundary that `init` finds in the parts of a Content-Type value: the last one
      given. None found is "", which is `bad_field`. */
  function BoundaryIn(parts: seq<string>, found: string): string
    decreases |parts|
  {
    if parts == [] then found
    else
      var pair := Splits(Trim(parts[0]), "=");
      BoundaryIn(parts[1..], if "boundary" <= Trim(parts[0]) && |pair| == 2 then Trim(pair[1]) else found)
  }

  /** `form_data_body::reader`. */
  class Reader {
    const contentType: string
    var boundary: string
    var step: Step
    var fieldData: Field
    var fields: seq<Field>

    ghost function State(): ReaderState
      reads this
    {
      ReaderState(step, fields, fieldData)
    }

    constructor (contentType: string)
      ensures this.contentType == contentType && boundary == "" && State() == START
    {
      this.contentType := contentType;
      boundary, step, fieldData, fields := "", BoundaryLine, NO_FIELD, [];
    }

    method Init() returns (error: Error)
      modifies `boundary
      ensures boundary == BoundaryIn(Splits(contentType, ";"), old(boundary))
      ensures error == if boundary == "" then BadField else NoError
    {
      hide Find, FindFrom, Trim, Splits;
      var parts := Split(contentType, ";");
      var i := 0;
      while i < |parts|
        invariant i <= |parts|
        invariant BoundaryIn(parts[i..], boundary) == BoundaryIn(parts, old(boundary))
      {
        assert parts[i..][1..] == parts[i + 1..];
        var part := Trim(parts[i]);
        i := i + 1;
        var pair := Split(part, "=");
        if !("boundary" <= part) || |pair| != 2 {
          continue;
        }
        boundary := Trim(pair[1]);
      }
      return if boundary == "" then BadField else NoError;
    }

    method Put(data: string) returns (count: nat, error: Error)
      modifies `step, `fieldData, `fields
      ensures Taken(State(), count, error) == Take(boundary, old(State()), data)
    {
      hide FindFrom, HeaderField;
      match step {
        case BoundaryLine =>
          var open, close := OpenLine(boundary), CloseLine(boundary);
          if |data| < (if |open| < |close| then |close| else |open|) {
            return 0, NeedMore;
          }
          if open <= data {
            step := BoundaryHeader;
            return |open|, NoError;
          } else if close <= data {
            step := Finished;
            return |close|, NoError;
          }
          return 0, UnexpectedBody;
        case BoundaryHeader =>
          var pos := Find(data, BLANK);
          FindFirst(data, BLANK, pos);
          if pos.None? {
            return 0, NeedMore;
          }
          var header := data[..pos.value + 4];
          var parsed := ReadHeaderField(header);
          if parsed.None? {
            return 0, UnexpectedBody;
          }
          fieldData := parsed.value;
          step := BoundaryContent;
          return |header|, NoError;
        case BoundaryContent =>
          if "\r" <= data {
            var eofBoundaryLine := Delimiter(boundary);
            if |data| < |eofBoundaryLine| {
              return 0, NeedMore;
            }
            if eofBoundaryLine <= data {
              step := BoundaryLine;
              fields := fields + [fieldData];
              fieldData := NO_FIELD;
              return 2, NoError;
            }
            fieldData := fieldData.(content := fieldData.content + "\r");
            return 1, NoError;
          }
          var pos := Find(data, "\r");
          FindFirst(data, "\r", pos);
          if pos.None? {
            fieldData := fieldData.(content := fieldData.content + data);
            return |data|, NoError;
          }
          fieldData := fieldData.(content := fieldData.content + data[..pos.value]);
          return pos.value, NoError;
        case Finished =>
          if |data| < 2 {
            return 0, NeedMore;
          }
          if !(CRLF <= data) {
            return 0, UnexpectedBody;
          }
          step := Eof;
          return 2, NoError;
        case Eof =>
          return 0, UnexpectedBody;
      }
    }

    method Finish() returns (error: Error)
      ensures error == NoError <==> State().step == Eof
      ensures error != NoError ==> error == PartialMessage
    {
      error := NoError;
      if step != Eof {
        error := PartialMessage;
      }
    }

    /** The feeding loop; `count` never passes the data, so it ends. */
    method FeedChunk(tail: string, chunk: string) returns (rest: string, error: Error)
      modifies `step, `fieldData, `fields
      ensures Config(State(), rest, error) == Drive(boundary, old(State()), tail + chunk)
    {
      hide Take;
      rest, error := tail + chunk, NoError;
      while rest != ""
        invariant error == NoError
        invariant Drive(boundary, State(), rest) == Drive(boundary, old(State()), tail + chunk)
        decreases |rest|
      {
        TakeProgress(boundary, State(), rest);
        var count, e := Put(rest);
        if e != NoError {
          return rest, e;
        }
        rest := rest[count..];
      }
    }
  }
}
