/** `file_body::writer::get` for a whole file or a single range, against the Content-Length
    that `response::set_file_content` announces. Positions are 64-bit: a range is a pair of
    signed integers, and what is left of it is computed without sign. */
module FileTransfer {
  import opened Text

  /** Inclusive, as in a Range header; the parser may leave any two integers. */
  type Range = (int, int)

  const TWO_64 := 0x1_0000_0000_0000_0000
  const TWO_63 := 0x8000_0000_0000_0000

  /** Conversion to an unsigned 64-bit integer. */
  function Unsigned(x: int): nat {
    x % TWO_64
  }

  datatype Got = Buffer(data: string, more: bool) | End | ShortRead

  function Min(a: nat, b: nat): nat {
    if a < b then a else b
  }

  /** The bytes to send: from `Start` up to, not including, `Stop`. */
  function Start(ranges: seq<Range>): int {
    if ranges == [] then 0 else ranges[0].0
  }

  function Stop(ranges: seq<Range>, size: nat): int {
    if ranges == [] then size else ranges[0].1 + 1
  }

  /** What `set_file_content` sets: the file size, or the size of the part, without sign. */
  function ContentLength(ranges: seq<Range>, size: nat): nat {
    if ranges == [] then size else Unsigned(ranges[0].1 + 1 - ranges[0].0)
  }

  /** A range whose computations stay within signed 64 bits. */
  predicate Fits(r: Range) {
    -TWO_63 <= r.0 < TWO_63 && -TWO_63 <= r.1 < TWO_63 - 1
  }

  /** The opened file and its stream position; a seek to before the start leaves the stream
      failed. */
  class File {
    const content: string
    var cursor: nat
    var failed: bool

    constructor (content: string)
      requires |content| < TWO_63
      ensures this.content == content && cursor == 0 && !failed
    {
      this.content, cursor, failed := content, 0, false;
    }

    /** `seekg(off, std::ios::cur)`: relative to where the stream is. */
    method Seekg(off: int)
      modifies this
      ensures if old(cursor) + off >= 0 then cursor == old(cursor) + off && failed == old(failed)
        else cursor == old(cursor) && failed
    {
      if cursor + off >= 0 {
        cursor := cursor + off;
      } else {
        failed := true;
      }
    }

    method Read(n: nat) returns (data: string)
      modifies this
      ensures data == if old(failed) then "" else ReadAt(content, old(cursor), n)
      ensures cursor == old(cursor) + |data| && failed == old(failed)
    {
      data := if failed then "" else ReadAt(content, cursor, n);
      cursor := cursor + |data|;
    }
  }

  /** Up to `n` bytes from `at`; fewer at the end of the file. */
  function ReadAt(content: string, at: nat, n: nat): (data: string)
    ensures |data| == if at <= |content| then Min(n, |content| - at) else 0
  {
    if at <= |content| then content[at..at + Min(n, |content| - at)] else ""
  }

  class Writer {
    const ranges: seq<Range>
    const file: File
    const bufferSize: nat
    var pos: Option<nat>

    /** One file, just opened, and at most one range, whatever its ends. */
    constructor (file: File, ranges: seq<Range>, bufferSize: nat)
      requires |file.content| < TWO_63 && file.cursor == 0 && !file.failed
      requires |ranges| <= 1 && forall r | r in ranges :: Fits(r)
      ensures Valid() && this.file == file && this.ranges == ranges && this.bufferSize == bufferSize
      ensures Position() == Unsigned(Start(ranges))
    {
      this.file, this.ranges, this.bufferSize, pos := file, ranges, bufferSize, None;
    }

    /** The stream stands where `pos` says; a range that starts before the file has failed
        the stream, and its position is beyond any file. */
    ghost predicate Valid()
      reads this, file
    {
      && |file.content| < TWO_63
      && |ranges| <= 1 && (forall r | r in ranges :: Fits(r))
      && match pos
         case None => file.cursor == 0 && !file.failed
         case Some(p) => if file.failed then p >= TWO_63 else file.cursor == p
    }

    /** Where the next byte comes from. */
    ghost function Position(): nat
      reads this
    {
      match pos case None => Unsigned(Start(ranges)) case Some(p) => p
    }

    method Get() returns (r: Got)
      requires Valid()
      modifies `pos, file
      ensures Valid()
      ensures r == GotAt(file.content, bufferSize, old(Position()), Stop(ranges, |file.content|))
      ensures Position() == old(Position()) + if r.Buffer? then |r.data| else 0
    {
      hide Unsigned, ReadAt;
      var first, last := 0, |file.content| as int;
      if ranges != [] {
        assert Fits(ranges[0]);
        first, last := ranges[0].0, ranges[0].1 + 1;
      }
      UnsignedOf(first);
      if pos.None? {
        pos := Some(Unsigned(first));
        file.Seekg(first);
      }
      var n := Min(bufferSize, Unsigned(last - pos.value));
      if n == 0 {
        return End;
      }
      var data := file.Read(n);
      if data == "" {
        return ShortRead;
      }
      pos := Some(pos.value + |data|);
      return Buffer(data, pos.value < Unsigned(last));
    }
  }

  lemma {:induction false} UnsignedOf(x: int)
    requires -TWO_63 <= x < TWO_63
    ensures if x >= 0 then Unsigned(x) == x else Unsigned(x) >= TWO_63
  {
  }

  /** One `get` at an unsigned position; nothing can be read beyond the file. */
  function GotAt(content: string, bufferSize: nat, pos: nat, stop: int): Got {
    var n := Min(bufferSize, Unsigned(stop - pos));
    var data := ReadAt(content, pos, n);
    if n == 0 then End
    else if data == "" then ShortRead
    else Buffer(data, pos + |data| < Unsigned(stop))
  }

  /** What a serializer collects: it asks again for as long as there is more. */
  datatype Sent = Sent(buffers: seq<string>, mores: seq<bool>, failed: bool)

  function SendAll(content: string, bufferSize: nat, pos: nat, stop: int): Sent
    decreases |content| - pos
  {
    match GotAt(content, bufferSize, pos, stop)
    case End => Sent([], [], false)
    case ShortRead => Sent([], [], true)
    case Buffer(data, more) =>
      if !more then Sent([data], [false], false)
      else
        var rest := SendAll(content, bufferSize, pos + |data|, stop);
        Sent([data] + rest.buffers, [true] + rest.mores, rest.failed)
  }

  // ---- ranges that do not end before they start ----

  lemma {:induction false} ReadAtSplit(content: string, at: nat, n: nat, k: nat)
    requires k <= n
    ensures ReadAt(content, at, n) == ReadAt(content, at, k) + ReadAt(content, at + |ReadAt(content, at, k)|, n - k)
  {
    var d := ReadAt(content, at, k);
    if |d| == k && at + k <= |content| {
      assert content[at..at + Min(n, |content| - at)] == content[at..at + k] + content[at + k..at + Min(n, |content| - at)];
    }
  }

  /** What a transfer from `pos` to `last` should be. */
  predicate Exact(s: Sent, content: string, bufferSize: nat, pos: nat, last: nat)
    requires pos <= last
  {
    && Flatten(s.buffers) == ReadAt(content, pos, last - pos)
    && (forall b | b in s.buffers :: 0 < |b| <= bufferSize)
    && (forall i | 0 <= i < |s.buffers| - 1 :: |s.buffers[i]| == bufferSize)
    && (s.failed <==> pos < last && |content| < last)
    && (s.buffers == [] <==> pos == last || |content| <= pos)
    && |s.mores| == |s.buffers|
    && (forall i | 0 <= i < |s.mores| :: s.mores[i] <==> s.failed || i < |s.mores| - 1)
  }

  /** One `get` within a range, told without the unsigned arithmetic. */
  lemma {:induction false} GotWithin(content: string, bufferSize: nat, pos: nat, last: nat)
    requires pos <= last < TWO_63 && bufferSize > 0
    ensures var k := Min(bufferSize, last - pos); var data := ReadAt(content, pos, k);
      GotAt(content, bufferSize, pos, last)
        == if pos == last then End else if data == "" then ShortRead else Buffer(data, pos + |data| < last)
  {
    hide ReadAt;
    assert Unsigned(last - pos) == last - pos && Unsigned(last) == last;
  }

  lemma {:induction false} SentNothing(content: string, bufferSize: nat, pos: nat, last: nat)
    requires pos <= last && (pos == last || |content| <= pos)
    ensures Exact(Sent([], [], pos < last), content, bufferSize, pos, last)
  {
    hide ReadAt;
    assert |ReadAt(content, pos, last - pos)| == 0;
  }

  lemma {:induction false} SentLast(data: string, content: string, bufferSize: nat, pos: nat, last: nat)
    requires pos < last && 0 < |data| <= bufferSize && data == ReadAt(content, pos, last - pos)
    requires pos + |data| == last
    ensures Exact(Sent([data], [false], false), content, bufferSize, pos, last)
  {
    hide ReadAt;
    assert [data][1..] == [] && data + "" == data && Flatten([data]) == data;
  }

  lemma {:induction false} SentMore(data: string, rest: Sent, content: string, bufferSize: nat, pos: nat, last: nat)
    requires 0 < |data| <= bufferSize && pos + |data| < last && pos + |data| <= |content|
    requires |data| == bufferSize || pos + |data| == |content|
    requires ReadAt(content, pos, last - pos) == data + ReadAt(content, pos + |data|, last - (pos + |data|))
    requires Exact(rest, content, bufferSize, pos + |data|, last)
    ensures Exact(Sent([data] + rest.buffers, [true] + rest.mores, rest.failed), content, bufferSize, pos, last)
  {
    hide ReadAt;
    assert ([data] + rest.buffers)[1..] == rest.buffers;
  }

  /** The transfer, for every file, range and buffer size: the buffers are the bytes asked
      for, in order and as far as the file goes; none is empty or larger than the buffer, and
      all but the last are full;
      the transfer fails exactly when the file ends too early; and otherwise `more` is
      false on the last buffer and nowhere else. */
  lemma {:induction false} TransferIsExact(content: string, bufferSize: nat, pos: nat, last: nat)
    requires pos <= last < TWO_63 && bufferSize > 0
    ensures Exact(SendAll(content, bufferSize, pos, last), content, bufferSize, pos, last)
    decreases last - pos
  {
    hide ReadAt, GotAt, Exact;
    GotWithin(content, bufferSize, pos, last);
    var k := Min(bufferSize, last - pos);
    var data := ReadAt(content, pos, k);
    if data == "" {
      SentNothing(content, bufferSize, pos, last);
    } else if pos + |data| < last {
      ReadAtSplit(content, pos, last - pos, k);
      ReadAtEnd(content, pos + |data|, last - pos - k, last - (pos + |data|), k - |data|);
      TransferIsExact(content, bufferSize, pos + |data|, last);
      SentMore(data, SendAll(content, bufferSize, pos + |data|, last), content, bufferSize, pos, last);
    } else {
      SentLast(data, content, bufferSize, pos, last);
    }
  }

  /** At the end of the file it does not matter how much is asked for. */
  lemma {:induction false} ReadAtEnd(content: string, at: nat, n: nat, m: nat, missing: nat)
    requires m == n + missing && (missing > 0 ==> at >= |content|)
    ensures ReadAt(content, at, n) == ReadAt(content, at, m)
  {
  }

  // ---- ranges that do ----

  /** A range that ends more than one byte before it starts: what is left of it wraps, so one
      buffer goes out from its start, as far as the file goes, and no more. */
  lemma {:induction false} InvertedTransfer(content: string, bufferSize: nat, first: nat, stop: nat)
    requires stop < first < TWO_63 && 0 < bufferSize < TWO_63
    ensures var s := SendAll(content, bufferSize, first, stop);
      && Flatten(s.buffers) == ReadAt(content, first, bufferSize)
      && (s.failed <==> |content| <= first)
  {
    hide ReadAt;
    assert Unsigned(stop - first) == TWO_64 + stop - first && Unsigned(stop) == stop;
    var data := ReadAt(content, first, bufferSize);
    assert [data][1..] == [] && data + "" == data && Flatten([data]) == data;
  }

  /** A range that ends before the file starts: the end wraps, and the transfer goes on to
      the end of the file and fails there. */
  lemma {:induction false} NegativeTransfer(content: string, bufferSize: nat, pos: nat, stop: int)
    requires pos < TWO_63 && -TWO_63 <= stop < 0 && bufferSize > 0 && |content| < TWO_63
    ensures var s := SendAll(content, bufferSize, pos, stop);
      s.failed && |Flatten(s.buffers)| == if pos <= |content| then |content| - pos else 0
    decreases |content| - pos
  {
    hide ReadAt;
    assert Unsigned(stop) == TWO_64 + stop && Unsigned(stop - pos) > 0;
    var data := ReadAt(content, pos, Min(bufferSize, Unsigned(stop - pos)));
    if data != "" {
      NegativeTransfer(content, bufferSize, pos + |data|, stop);
      var rest := SendAll(content, bufferSize, pos + |data|, stop);
      assert ([data] + rest.buffers)[1..] == rest.buffers;
    }
  }

  /** A range that starts before the file: the seek fails, and nothing goes out. */
  lemma {:induction false} UnseekableTransfer(content: string, bufferSize: nat, first: int, stop: int)
    requires -TWO_63 <= first < 0 && bufferSize > 0 && |content| < TWO_63
    ensures var s := SendAll(content, bufferSize, Unsigned(first), stop);
      s.buffers == [] && (s.failed <==> Unsigned(stop - first) != 0)
  {
    assert Unsigned(first) == TWO_64 + first;
    assert Unsigned(stop - Unsigned(first)) == Unsigned(stop - first) by { UnsignedShift(stop - first); }
  }

  lemma {:induction false} UnsignedShift(x: int)
    ensures Unsigned(x - TWO_64) == Unsigned(x)
  {
  }

  // ---- Content-Length ----

  /** The whole file: what is sent is the file, and as long as Content-Length says. */
  lemma {:induction false} WholeFileServed(content: string, bufferSize: nat)
    requires bufferSize > 0 && |content| < TWO_63
    ensures var s := SendAll(content, bufferSize, Unsigned(Start([])), Stop([], |content|));
      && !s.failed && Flatten(s.buffers) == content
      && |Flatten(s.buffers)| == ContentLength([], |content|)
  {
    hide SendAll, Exact;
    TransferIsExact(content, bufferSize, 0, |content|);
    ExactLength(SendAll(content, bufferSize, 0, |content|), content, bufferSize, 0, |content|);
    assert content[0..|content|] == content;
  }

  /** The ranges that are served: inside the file, or ending one byte before they start. */
  predicate Servable(r: Range, size: nat) {
    0 <= r.0 <= r.1 < size || r.1 + 1 == r.0
  }

  /** A single range, whatever its ends: as many bytes are sent as Content-Length says if and
      only if the range is inside the file or empty, and then they are the bytes of the
      range and the transfer does not fail. */
  lemma {:induction false} ServedExactly(content: string, r: Range, bufferSize: nat)
    requires 0 < bufferSize < TWO_63 && |content| < TWO_63 && Fits(r)
    ensures var s := SendAll(content, bufferSize, Unsigned(Start([r])), Stop([r], |content|));
      && (|Flatten(s.buffers)| == ContentLength([r], |content|) <==> Servable(r, |content|))
      && (Servable(r, |content|) ==>
            !s.failed && Flatten(s.buffers) == if r.1 + 1 == r.0 then "" else content[r.0..r.1 + 1])
  {
    hide SendAll, Exact, ReadAt;
    var first, stop, size := r.0, r.1 + 1, |content|;
    if first < 0 {
      UnseekableTransfer(content, bufferSize, first, stop);
      NoDifference(first, stop);
      FlattenNothing();
    } else if stop < 0 {
      NegativeTransfer(content, bufferSize, first, stop);
    } else if stop < first {
      InvertedTransfer(content, bufferSize, first, stop);
    } else {
      TransferIsExact(content, bufferSize, first, stop);
      ExactLength(SendAll(content, bufferSize, first, stop), content, bufferSize, first, stop);
    }
  }

  /** Unsigned, two signed ends differ by nothing only when they are equal. */
  lemma {:induction false} NoDifference(first: int, stop: int)
    requires -TWO_63 <= first < TWO_63 && -TWO_63 <= stop < TWO_63
    ensures Unsigned(stop - first) == 0 <==> stop == first
  {
  }

  lemma {:induction false} FlattenNothing()
    ensures Flatten([]) == ""
  {
  }

  lemma {:induction false} ExactLength(s: Sent, content: string, bufferSize: nat, pos: nat, last: nat)
    requires pos <= last < TWO_63 && Exact(s, content, bufferSize, pos, last)
    ensures |Flatten(s.buffers)| == Unsigned(last - pos) <==> pos == last || last <= |content|
    ensures pos == last || last <= |content| ==> !s.failed
    ensures pos == last ==> Flatten(s.buffers) == ""
    ensures last <= |content| ==> Flatten(s.buffers) == content[pos..last]
  {
  }
}
