/** A Range header served from a file: what the parser leaves, sent by the file writer under
    the Content-Length that goes with it. */
module RangeService {
  import opened Text
  import opened Splitter
  import opened HttpRanges
  import FT = FileTransfer

  lemma {:induction false} ToIntBounds(x: int)
    ensures -0x8000_0000 <= ToInt(x) <= INT_MAX && (x < 0 || x > INT_MAX || ToInt(x) == x)
  {
  }

  lemma {:induction false} ItemFits(item: string, size: nat)
    ensures ParseItem(item, size).Some? ==> FT.Fits(ParseItem(item, size).value)
  {
    hide Find, FindFrom, Trim, Splits, DigitPrefix, ValueOf, ToInt;
    ToIntBounds(size - 1);
    forall x: int ensures -0x8000_0000 <= ToInt(x) <= INT_MAX { ToIntBounds(x); }
  }

  lemma {:induction false} ItemsFit(items: seq<string>, size: nat)
    ensures ParseItems(items, size).Some? ==> forall r | r in ParseItems(items, size).value :: FT.Fits(r)
    decreases |items|
  {
    hide ParseItem, FT.Fits;
    if items != [] {
      ItemFits(items[0], size);
      ItemsFit(items[1..], size);
    }
  }

  /** Whatever header is parsed, the writer's 64-bit arithmetic on its ranges is defined. */
  lemma {:induction false} ParsedFits(header: string, size: nat)
    requires size < FT.TWO_63
    ensures Parsed(header, size).Some? ==> forall r | r in Parsed(header, size).value :: FT.Fits(r)
  {
    hide Find, FindFrom, Trim, Splits, ParseItems, Lacks;
    ItemsFit(Splits(ListOf(header), ","), size);
  }

  /** For every header that parses to one range: as many bytes are sent as Content-Length
      says if and only if the range is inside the file or ends one byte before it starts. */
  lemma {:induction false} ParsedRangeServed(header: string, content: string, bufferSize: nat)
    requires |content| < FT.TWO_63 && 0 < bufferSize < FT.TWO_63
    requires Parsed(header, |content|).Some? && |Parsed(header, |content|).value| == 1
    ensures var r := Parsed(header, |content|).value[0];
      var s := FT.SendAll(content, bufferSize, FT.Unsigned(FT.Start([r])), FT.Stop([r], |content|));
      |Flatten(s.buffers)| == FT.ContentLength([r], |content|) <==> FT.Servable(r, |content|)
  {
    hide Parsed, FT.SendAll, FT.Fits, FT.Servable, Flatten;
    ParsedFits(header, |content|);
    var r := Parsed(header, |content|).value[0];
    assert r in Parsed(header, |content|).value;
    FT.ServedExactly(content, r, bufferSize);
  }

  /** One printed range, for every file whose last byte has an `int` for its number: an acceptable one is parsed
      and its bytes are sent, as many as announced; an inverted one inside the file is parsed
      too, and served, with nothing, only when it ends one byte before it starts. */
  lemma {:induction false} PrintedRangeServed(r: Spec, content: string, bufferSize: nat)
    requires 0 < |content| <= INT_MAX + 1 && 0 < bufferSize < FT.TWO_63
    ensures var p := Parsed(Header([r]), |content|);
      && (p.Some? <==> Acceptable(r, |content|) || TakenInverted(r, |content|))
      && (p.Some? ==>
            && |p.value| == 1
            && var s := FT.SendAll(content, bufferSize, FT.Unsigned(FT.Start(p.value)), FT.Stop(p.value, |content|));
               && (|Flatten(s.buffers)| == FT.ContentLength(p.value, |content|)
                   <==> Acceptable(r, |content|) || r.last + 1 == r.first)
               && (Acceptable(r, |content|) ==>
                     !s.failed && Flatten(s.buffers) == content[r.first..Clamped(r, |content|).1 + 1]))
  {
    hide FT.SendAll, Flatten, Parsed, Header, ParseItem;
    OneRangeParsed(r, |content|);
    var p := Parsed(Header([r]), |content|);
    if p.Some? {
      var x := p.value[0];
      assert p.value == [x];
      FT.ServedExactly(content, x, bufferSize);
    }
  }

  lemma {:induction false} OneRangeParsed(r: Spec, size: nat)
    requires 0 < size <= INT_MAX + 1
    ensures Parsed(Header([r]), size)
      == if Acceptable(r, size) then Some([Clamped(r, size)])
         else if TakenInverted(r, size) then Some([(r.first, r.last)])
         else None
  {
    hide Find, FindFrom, Trim, Splits, Join, Printed, Lacks, ParseItem, Acceptable, TakenInverted, WellFormed, Clamped;
    ParsedHeader([r], size);
    ParseText(r, size);
    var items := AllPrinted([r]);
    assert [r][1..] == [] && items == [Printed(r)] && items[1..] == [];
    assert ParseItems([], size) == Some([]);
    assert forall x: Range :: [x] + [] == [x];
  }

  /** Without a Range header, or with a blank one, the file is sent whole, as long as
      Content-Length says. */
  lemma {:induction false} NoRangeServed(header: string, content: string, bufferSize: nat)
    requires AllSpace(header) && |content| < FT.TWO_63 && bufferSize > 0
    ensures var p := Parsed(header, |content|);
      && p.Some? && p.value == []
      && var s := FT.SendAll(content, bufferSize, FT.Unsigned(FT.Start(p.value)), FT.Stop(p.value, |content|));
         !s.failed && Flatten(s.buffers) == content && |content| == FT.ContentLength(p.value, |content|)
  {
    hide Parsed, FT.SendAll, Flatten;
    BlankHeader(header, |content|);
    FT.WholeFileServed(content, bufferSize);
  }

  /** So is it for `bytes=-`, as a range. */
  lemma {:induction false} LoneDashServed(content: string, bufferSize: nat)
    requires |content| < FT.TWO_63 && 0 < bufferSize < FT.TWO_63
    ensures var p := Parsed("bytes=-", |content|);
      && p.Some? && |p.value| == 1
      && var s := FT.SendAll(content, bufferSize, FT.Unsigned(FT.Start(p.value)), FT.Stop(p.value, |content|));
         !s.failed && Flatten(s.buffers) == content && |content| == FT.ContentLength(p.value, |content|)
  {
    hide Parsed, FT.SendAll, Flatten;
    LoneDashHeader(|content|);
    FT.ServedExactly(content, (0, |content| - 1), bufferSize);
    assert content[0..|content|] == content;
  }

  /** In an empty file `0-` is served, with nothing; `0-0` is taken, and announces a byte
      that is not there. */
  lemma {:induction false} EmptyFileServed(bufferSize: nat)
    requires 0 < bufferSize < FT.TWO_63
    ensures ParseItem(Printed(From(0)), 0) == Some((0, -1)) && FT.Servable((0, -1), 0)
    ensures ParseItem(Printed(Span(0, 0)), 0) == Some((0, 0)) && !FT.Servable((0, 0), 0)
    ensures FT.ContentLength([(0, 0)], 0) == 1 && FT.SendAll("", bufferSize, 0, 1).failed
  {
    hide ParseItem, Printed, FT.SendAll;
    EmptyFile(From(0));
    EmptyFile(Span(0, 0));
    FT.TransferIsExact("", bufferSize, 0, 1);
  }
}
