/** `http_ranges::parse`: the byte ranges of a Range header (section 14.1.2 of RFC 9110),
    in the form this parser gives them. */
module HttpRanges {
  import opened Text
  import opened Splitter

  /** First and last byte, as the parser leaves them: two 64-bit integers. */
  type Range = (int, int)

  const INT_MAX := 0x7fff_ffff

  /** Conversion to `int`: two's complement, 32 bits. */
  function ToInt(x: int): int {
    var m := x % 0x1_0000_0000;
    if m > INT_MAX then m - 0x1_0000_0000 else m
  }

  /** Conversion to `int64_t`. */
  function ToInt64(x: int): int {
    var m := x % 0x1_0000_0000_0000_0000;
    if m >= 0x8000_0000_0000_0000 then m - 0x1_0000_0000_0000_0000 else m
  }

  // ---- numbers ----

  predicate IsDigit(c: char) {
    '0' <= c <= '9'
  }

  /** The digits at the front of a string. */
  function DigitPrefix(s: string): string {
    if s != "" && IsDigit(s[0]) then [s[0]] + DigitPrefix(s[1..]) else ""
  }

  function ValueOf(digits: string): nat
    requires forall i | 0 <= i < |digits| :: IsDigit(digits[i])
  {
    if digits == "" then 0
    else
      assert IsDigit(digits[|digits| - 1]);
      10 * ValueOf(digits[..|digits| - 1]) + (digits[|digits| - 1] as int - '0' as int)
  }

  lemma {:induction false} DigitPrefixIsDigits(s: string)
    ensures forall i | 0 <= i < |DigitPrefix(s)| :: IsDigit(DigitPrefix(s)[i])
  {
    if s != "" && IsDigit(s[0]) { DigitPrefixIsDigits(s[1..]); }
  }

  /** `std::from_chars` into an `int`. The parts it is given are cut at every `-`, so the
      sign it also knows cannot occur; whatever follows the digits is ignored. */
  function FromChars(s: string): Option<nat> {
    var digits := DigitPrefix(s);
    DigitPrefixIsDigits(s);
    if digits == "" then None
    else if ValueOf(digits) > INT_MAX then None
    else Some(ValueOf(digits))
  }

  // ---- parsing ----

  /** One item of the list; None makes the whole header unsatisfiable. An empty item gives
      `split` nothing to return, and the parser would index it. */
  function ParseItem(item: string, size: nat): Option<Range> {
    var sub := Splits(item, "-");
    if sub == [] then None
    else
      var first := Trim(sub[0]);
      var start := if first == "" then Some(-1) else FromChars(first);
      var second := if |sub| == 1 then "" else Trim(sub[1]);
      var end := if second == "" then Some(ToInt(size - 1)) else FromChars(second);
      if start.None? || end.None? then None
      else if start.value > 0 && (start.value >= size || start.value == end.value) then None
      else
        var clamped := if end.value > 0 && end.value >= size then ToInt(size - 1) else end.value;
        if start.value == -1 then Some((ToInt(size - clamped), ToInt(size - 1)))
        else Some((start.value, clamped))
  }

  function ParseItems(items: seq<string>, size: nat): Option<seq<Range>> {
    if items == [] then Some([])
    else
      match ParseItem(items[0], size)
      case None => None
      case Some(r) =>
        match ParseItems(items[1..], size)
        case None => None
        case Some(rest) => Some([r] + rest)
  }

  const PREFIX := "bytes="

  function ListOf(header: string): string {
    if PREFIX <= Trim(header) then Trim(header)[|PREFIX|..] else ""
  }

  /** None is `false`: 416, range not satisfiable. */
  function Parsed(header: string, size: nat): Option<seq<Range>> {
    if Trim(header) == "" then Some([])
    else if !(PREFIX <= Trim(header)) then None
    else if !Lacks(ListOf(header), "--") then None
    else if ListOf(header) == "-" then Some([(0, ToInt64(size - 1))])
    else ParseItems(Splits(ListOf(header), ","), size)
  }

  /** What is done already, and the rest of the list. */
  function Onto(done: seq<Range>, rest: Option<seq<Range>>): Option<seq<Range>> {
    match rest case None => None case Some(rs) => Some(done + rs)
  }

  lemma {:induction false} OntoNothing(rest: Option<seq<Range>>)
    ensures Onto([], rest) == rest
  {
    if rest.Some? { assert [] + rest.value == rest.value; }
  }

  /** One turn of the loop over the items. */
  lemma {:induction false} ItemsStep(items: seq<string>, i: nat, done: seq<Range>, size: nat)
    requires i < |items|
    ensures Onto(done, ParseItems(items[i..], size)) == match ParseItem(items[i], size)
      case None => None
      case Some(r) => Onto(done + [r], ParseItems(items[i + 1..], size))
  {
    hide ParseItem;
    assert items[i..][1..] == items[i + 1..];
    var r, rest := ParseItem(items[i], size), ParseItems(items[i + 1..], size);
    if r.Some? && rest.Some? { assert done + ([r.value] + rest.value) == done + [r.value] + rest.value; }
  }

  lemma {:induction false} ItemsEnd(items: seq<string>, done: seq<Range>, size: nat)
    ensures Onto(done, ParseItems(items[|items|..], size)) == Some(done)
  {
    assert done + [] == done;
  }

  class Ranges {
    var ranges: seq<Range>

    constructor ()
      ensures ranges == []
    {
      ranges := [];
    }

    method Parse(header: string, size: nat) returns (ok: bool)
      requires forall item | item in Splits(ListOf(header), ",") :: item != ""
      modifies this
      ensures ok <==> Parsed(header, size).Some?
      ensures ranges == if ok then Parsed(header, size).value else []
    {
      hide FindFrom, Find, Splits, Trim, ParseItem, ParseItems, Onto, ToInt64;
      ranges := [];
      var rangeStr := Trim(header);
      if rangeStr == "" { return true; }
      if !(PREFIX <= rangeStr) { return false; }
      rangeStr := rangeStr[|PREFIX|..];
      if Find(rangeStr, "--").Some? { return false; }
      if rangeStr == "-" {
        ranges := [(0, ToInt64(size - 1))];
        return true;
      }
      var items := Split(rangeStr, ",");
      assert Parsed(header, size) == ParseItems(items, size);
      var i := 0;
      assert items[0..] == items;
      OntoNothing(ParseItems(items, size));
      while i < |items|
        invariant i <= |items|
        invariant Onto(ranges, ParseItems(items[i..], size)) == ParseItems(items, size)
      {
        assert items[i] in items;
        ItemsStep(items, i, ranges, size);
        var range := ParseOne(items[i], size);
        if range.None? {
          ranges := [];
          return false;
        }
        ranges := ranges + [range.value];
        i := i + 1;
      }
      ItemsEnd(items, ranges, size);
      return true;
    }
  }

  /** The body of the loop over the items. */
  method ParseOne(item: string, size: nat) returns (range: Option<Range>)
    requires item != ""
    ensures range == ParseItem(item, size)
  {
    hide Splits, Trim, FromChars, ToInt;
    var subRange := Split(item, "-");
    SplitsSomething(item);
    var firstRange := Trim(subRange[0]);
    var start: int := 0;
    if firstRange == "" {
      start := -1;
    } else {
      var parsed := FromChars(firstRange);
      if parsed.None? { return None; }
      start := parsed.value;
    }
    var end: int := 0;
    if |subRange| == 1 {
      end := ToInt(size - 1);
    } else {
      var secondRange := Trim(subRange[1]);
      if secondRange == "" {
        end := ToInt(size - 1);
      } else {
        var parsed := FromChars(secondRange);
        if parsed.None? { return None; }
        end := parsed.value;
      }
    }
    if start > 0 && (start >= size || start == end) {
      return None;
    }
    if end > 0 && end >= size {
      end := ToInt(size - 1);
    }
    if start == -1 {
      start := ToInt(size - end);
      end := ToInt(size - 1);
    }
    return Some((start, end));
  }

  lemma {:induction false} SplitsSomething(s: string)
    requires s != ""
    ensures Splits(s, "-") != []
  {
    hide Find, FindFrom, Trim;
    var ps := DropTrailing(Pieces(DropLeading(s, "-"), "-"));
    assert ps != [];
    assert TrimAll(ps) == [Trim(ps[0])] + TrimAll(ps[1..]);
  }

  // ---- printing ----

  function Decimal(n: nat): (s: string)
    ensures s != "" && forall i | 0 <= i < |s| :: IsDigit(s[i])
  {
    if n < 10 then [('0' as int + n) as char] else Decimal(n / 10) + [('0' as int + n % 10) as char]
  }

  lemma {:induction false} ValueOfDecimal(n: nat)
    ensures ValueOf(Decimal(n)) == n
  {
    var s := Decimal(n);
    if n < 10 {
      assert s[..|s| - 1] == "";
    } else {
      assert s[..|s| - 1] == Decimal(n / 10);
      ValueOfDecimal(n / 10);
    }
  }

  lemma {:induction false} DigitPrefixAll(s: string)
    requires forall i | 0 <= i < |s| :: IsDigit(s[i])
    ensures DigitPrefix(s) == s
  {
    if s != "" { DigitPrefixAll(s[1..]); }
  }

  lemma {:induction false} FromCharsDecimal(n: nat)
    ensures FromChars(Decimal(n)) == if n > INT_MAX then None else Some(n)
  {
    hide ValueOf, Decimal;
    DigitPrefixAll(Decimal(n));
    ValueOfDecimal(n);
  }

  /** A range as a client writes it. */
  datatype Spec = Span(first: nat, last: nat) | From(first: nat)

  function Printed(r: Spec): string {
    match r
    case Span(a, b) => Decimal(a) + "-" + Decimal(b)
    case From(a) => Decimal(a) + "-"
  }

  function AllPrinted(rs: seq<Spec>): (r: seq<string>)
    ensures |r| == |rs|
  {
    if rs == [] then [] else [Printed(rs[0])] + AllPrinted(rs[1..])
  }

  function Header(rs: seq<Spec>): string {
    PREFIX + Join(AllPrinted(rs), ",")
  }

  /** The bytes a range asks for, its end moved back to the end of the file. */
  function Clamped(r: Spec, size: nat): Range {
    match r
    case Span(a, b) => (a, if b < size then b else size - 1)
    case From(a) => (a, size - 1)
  }

  function AllClamped(rs: seq<Spec>, size: nat): seq<Range> {
    if rs == [] then [] else [Clamped(rs[0], size)] + AllClamped(rs[1..], size)
  }

  /** The ranges this parser takes: in order, starting inside the file, their numbers
      fitting an `int`, and of a single byte only when that is the first byte. */
  predicate Acceptable(r: Spec, size: nat) {
    match r
    case Span(a, b) => a <= b && a < size && b <= INT_MAX && (a == b ==> a == 0)
    case From(a) => a < size && (a == size - 1 ==> a == 0)
  }

  /** A range that starts inside the file and ends before it starts: taken as it stands. */
  predicate TakenInverted(r: Spec, size: nat) {
    r.Span? && r.last < r.first < size
  }

  predicate WellFormed(r: Range, size: nat) {
    0 <= r.0 <= r.1 < size
  }

  lemma {:induction false} SplitsRange(r: Spec)
    ensures Splits(Printed(r), "-") == match r case Span(a, b) => [Decimal(a), Decimal(b)] case From(a) => [Decimal(a)]
  {
    hide Find, FindFrom, Trim, Tokens, Decimal;
    var a := Decimal(r.first);
    LacksChar(a, '-');
    TrimId(a);
    assert !("-" <= Printed(r)) by { assert Printed(r)[0] == a[0]; }
    match r {
      case Span(_, last) =>
        var b := Decimal(last);
        LacksChar(b, '-');
        TrimId(b);
        FindAfter(a, "-", b);
        assert (a + "-" + b)[..|a|] == a && (a + "-" + b)[|a| + 1..] == b;
        TokensMore(a + "-" + b, "-", |a|);
        TokensLast(b, "-");
      case From(_) =>
        FindAfter(a, "-", "");
        assert a + "-" + "" == a + "-";
        assert (a + "-")[..|a|] == a;
        TokensLast(a + "-", "-");
    }
  }

  /** One printed range, parsed. */
  lemma {:induction false} ParseText(r: Spec, size: nat)
    requires 0 < size <= INT_MAX + 1
    ensures Acceptable(r, size) ==> ParseItem(Printed(r), size) == Some(Clamped(r, size)) && WellFormed(Clamped(r, size), size)
    ensures !Acceptable(r, size) ==> ParseItem(Printed(r), size).None? || !WellFormed(ParseItem(Printed(r), size).value, size)
    ensures TakenInverted(r, size) ==> ParseItem(Printed(r), size) == Some((r.first, r.last))
    ensures !Acceptable(r, size) && !TakenInverted(r, size) ==> ParseItem(Printed(r), size) == None
  {
    hide Find, FindFrom, Trim, Decimal, Splits, FromChars;
    SplitsRange(r);
    var a := Decimal(r.first);
    TrimId(a);
    FromCharsDecimal(r.first);
    assert ToInt(size - 1) == size - 1;
    if r.Span? {
      TrimId(Decimal(r.last));
      FromCharsDecimal(r.last);
    }
  }

  lemma {:induction false} ParseTexts(rs: seq<Spec>, size: nat)
    requires 0 < size <= INT_MAX + 1
    ensures var p := ParseItems(AllPrinted(rs), size);
      (p.Some? && forall r | r in p.value :: WellFormed(r, size)) <==> forall i | 0 <= i < |rs| :: Acceptable(rs[i], size)
    ensures ParseItems(AllPrinted(rs), size).Some?
      <==> forall i | 0 <= i < |rs| :: Acceptable(rs[i], size) || TakenInverted(rs[i], size)
    ensures (forall i | 0 <= i < |rs| :: Acceptable(rs[i], size)) ==>
      ParseItems(AllPrinted(rs), size) == Some(AllClamped(rs, size))
  {
    hide ParseItem, Printed, Acceptable, TakenInverted, Clamped, WellFormed;
    if rs != [] {
      ParseText(rs[0], size);
      ParseTexts(rs[1..], size);
      assert AllPrinted(rs)[1..] == AllPrinted(rs[1..]);
      var p, q := ParseItem(Printed(rs[0]), size), ParseItems(AllPrinted(rs[1..]), size);
      if p.Some? && q.Some? {
        var all := [p.value] + q.value;
        assert all[0] in all;
        assert forall r | r in q.value :: r in all;
      }
      assert forall i | 0 <= i < |rs| - 1 :: rs[1..][i] == rs[i + 1];
      if forall i | 0 <= i < |rs| :: Acceptable(rs[i], size) || TakenInverted(rs[i], size) {
        assert Acceptable(rs[0], size) || TakenInverted(rs[0], size);
      }
    }
  }

  lemma {:induction false} TextShape(r: Spec)
    ensures var t := Printed(r);
      && t != "" && IsDigit(t[0]) && (IsDigit(t[|t| - 1]) || t[|t| - 1] == '-')
      && ',' !in t && Trimmed(t) && Lacks(t, "--")
  {
    hide Find, FindFrom, Decimal;
    var t, a := Printed(r), Decimal(r.first);
    assert t[0] == a[0];
    forall j: nat | j <= |t| ensures !OccursAt(t, "--", j) {
      if j + 2 <= |t| {
        assert t[j..j + 2][0] == t[j] && t[j..j + 2][1] == t[j + 1];
        if j != |a| { assert IsDigit(t[j]); } else { assert IsDigit(t[j + 1]); }
      }
    }
    LacksAll(t, "--");
  }

  lemma {:induction false} AllPrintedShape(rs: seq<Spec>)
    ensures forall i | 0 <= i < |rs| :: AllPrinted(rs)[i] == Printed(rs[i])
  {
    if rs != [] { AllPrintedShape(rs[1..]); }
  }

  /** The list in a printed header. */
  lemma {:induction false} JoinShape(rs: seq<Spec>)
    requires rs != []
    ensures var s := Join(AllPrinted(rs), ",");
      && s != "" && IsDigit(s[0]) && Trimmed(s) && Lacks(s, "--")
  {
    hide Find, FindFrom, Printed, IsDigit, Lacks;
    var ts := AllPrinted(rs);
    TextShape(rs[0]);
    if |rs| == 1 {
      assert ts == [Printed(rs[0])];
      assert Trimmed(ts[0]);
    } else {
      JoinShape(rs[1..]);
      assert ts[1..] == AllPrinted(rs[1..]);
      NoDouble(ts[0], Join(ts[1..], ","));
      JoinEnds(ts[0], Join(ts[1..], ","));
    }
  }

  lemma {:induction false} JoinEnds(a: string, b: string)
    requires a != "" && b != "" && Trimmed(a) && Trimmed(b)
    ensures Trimmed(a + "," + b) && (a + "," + b)[0] == a[0]
  {
  }

  lemma {:induction false} NoDouble(a: string, b: string)
    requires Lacks(a, "--") && Lacks(b, "--")
    ensures Lacks(a + "," + b, "--")
  {
    hide Find, FindFrom;
    var s := a + "," + b;
    LacksAll(a, "--");
    LacksAll(b, "--");
    forall j: nat | j <= |s| ensures !OccursAt(s, "--", j) {
      if j + 2 <= |s| {
        assert s[j..j + 2][0] == s[j] && s[j..j + 2][1] == s[j + 1];
        if j + 2 <= |a| {
          assert a[j..j + 2] == s[j..j + 2];
          assert !OccursAt(a, "--", j);
        } else if j > |a| {
          assert b[j - |a| - 1..j - |a| + 1] == s[j..j + 2];
          assert !OccursAt(b, "--", j - |a| - 1);
        }
      }
    }
    LacksAll(s, "--");
  }

  /** A printed list is cut back into its ranges. */
  lemma {:induction false} ItemsOfHeader(rs: seq<Spec>)
    requires rs != []
    ensures Splits(Join(AllPrinted(rs), ","), ",") == AllPrinted(rs)
    ensures forall t | t in AllPrinted(rs) :: t != ""
  {
    hide Find, FindFrom, Trim, Printed, Pieces, Join, Lacks;
    var ts := AllPrinted(rs);
    AllPrintedShape(rs);
    forall i | 0 <= i < |ts| ensures ts[i] != "" && ',' !in ts[i] && Trimmed(ts[i]) && IsDigit(ts[i][0]) {
      TextShape(rs[i]);
    }
    JoinShape(rs);
    PiecesJoin(ts, ',');
    assert ts[|ts| - 1] != "";
    TrimAllId(ts);
  }

  /** A printed header goes to the loop over its ranges. */
  lemma {:induction false} ParsedHeader(rs: seq<Spec>, size: nat)
    requires rs != []
    ensures Parsed(Header(rs), size) == ParseItems(AllPrinted(rs), size)
  {
    hide Find, FindFrom, Trim, Splits, Join, Printed, Lacks, ParseItems;
    var list := Join(AllPrinted(rs), ",");
    JoinShape(rs);
    ItemsOfHeader(rs);
    var h := Header(rs);
    assert h == PREFIX + list && h[0] == 'b' && h[|h| - 1] == list[|list| - 1];
    TrimId(h);
    assert h[|PREFIX|..] == list && PREFIX <= h;
    assert list != "-" by { assert IsDigit(list[0]); }
  }

  /** Printing and parsing, for every file up to the largest `int` and every non-empty list
      of `a-b` and `a-`: the parser takes the header if and only if every range is acceptable
      or inverted inside the file; it gives only ranges inside the file if and only if every
      range is acceptable, and then exactly the ranges written, their ends clamped. */
  lemma {:induction false} RangeRoundTrip(rs: seq<Spec>, size: nat)
    requires rs != [] && 0 < size <= INT_MAX + 1
    ensures var p := Parsed(Header(rs), size);
      && (p.Some? <==> forall i | 0 <= i < |rs| :: Acceptable(rs[i], size) || TakenInverted(rs[i], size))
      && ((p.Some? && forall r | r in p.value :: WellFormed(r, size)) <==> forall i | 0 <= i < |rs| :: Acceptable(rs[i], size))
      && ((forall i | 0 <= i < |rs| :: Acceptable(rs[i], size)) ==> p == Some(AllClamped(rs, size)))
  {
    hide Parsed, Header, ParseItems, Acceptable, TakenInverted, WellFormed;
    ParsedHeader(rs, size);
    ParseTexts(rs, size);
  }

  // ---- headers that name no list of ranges ----

  /** No header, or a blank one, asks for no range. */
  lemma {:induction false} BlankHeader(header: string, size: nat)
    requires AllSpace(header)
    ensures Parsed(header, size) == Some([])
  {
    TrimIs(header, "", "");
    assert header + "" + "" == header;
  }

  /** A header in any other unit is refused, whatever white space is around it. */
  lemma {:induction false} OtherUnit(l: string, h: string, r: string, size: nat)
    requires AllSpace(l) && AllSpace(r) && Trimmed(h) && h != "" && !("bytes=" <= h)
    ensures Parsed(l + h + r, size) == None
  {
    hide Trim;
    TrimIs(l, h, r);
  }

  /** White space around a header makes no difference. */
  lemma {:induction false} PaddedHeader(l: string, h: string, r: string, size: nat)
    requires AllSpace(l) && AllSpace(r) && Trimmed(h)
    ensures Parsed(l + h + r, size) == Parsed(h, size)
  {
    hide Trim, ParseItems, Splits, Lacks;
    TrimIs(l, h, r);
    TrimId(h);
  }

  /** Two hyphens in a row are refused. */
  lemma {:induction false} DoubleDash(list: string, size: nat)
    requires Trimmed(list) && list != "" && !Lacks(list, "--")
    ensures Parsed("bytes=" + list, size) == None
  {
    hide Trim, Lacks, ParseItems;
    TrimId("bytes=" + list);
    assert ("bytes=" + list)[|PREFIX|..] == list;
  }

  /** `bytes=-` is the whole file. */
  lemma {:induction false} LoneDashHeader(size: nat)
    requires size <= 0x8000_0000_0000_0000
    ensures Parsed("bytes=-", size) == Some([(0, size - 1)])
  {
    hide Trim, ParseItems;
    TrimId("bytes=-");
    assert "bytes=-"[|PREFIX|..] == "-";
    LacksAll("-", "--");
  }

  // ---- suffixes ----

  /** What `-n` means: the last `n` bytes (section 14.1.2 of RFC 9110). */
  function LastBytes(n: nat, size: nat): Range {
    (if n < size then size - n else 0, size - 1)
  }

  /** `split` drops a leading hyphen, so `-n` is read as `n-`. */
  lemma {:induction false} SuffixIsFrom(n: nat, size: nat)
    ensures ParseItem("-" + Decimal(n), size) == ParseItem(Printed(From(n)), size)
  {
    hide Find, FindFrom, Trim, Tokens, Decimal, FromChars;
    var a := Decimal(n);
    SplitsRange(From(n));
    LacksChar(a, '-');
    TrimId(a);
    TokensLast(a, "-");
    assert ("-" + a)[1..] == a;
    assert Splits("-" + a, "-") == [a];
  }

  /** A suffix gets what it asks for if and only if it is half of the file, and of more than
      one byte. */
  lemma {:induction false} SuffixExactly(n: nat, size: nat)
    requires n > 0 && 0 < size <= INT_MAX + 1
    ensures ParseItem("-" + Decimal(n), size) == Some(LastBytes(n, size)) <==> 2 * n == size && n > 1
  {
    hide ParseItem, Decimal;
    SuffixIsFrom(n, size);
    ParseText(From(n), size);
  }

  /** Only with a blank between two hyphens does a suffix count from the end. */
  lemma {:induction false} SpacedSuffix(n: nat, size: nat)
    requires 0 < size <= INT_MAX + 1
    ensures ParseItem("- -" + Decimal(n), size)
      == if n > INT_MAX then None else Some((if n < size then ToInt(size - n) else 1, size - 1))
    ensures 0 < n < size ==> ToInt(size - n) == size - n
  {
    hide Find, FindFrom, Trim, Tokens, Decimal, FromChars;
    var a := Decimal(n);
    var item, rest := "- -" + a, " -" + a;
    assert item[1..] == rest;
    LacksChar(" ", '-');
    LacksChar(a, '-');
    FindAfter(" ", "-", a);
    assert rest == " " + "-" + a && rest[..1] == " " && rest[2..] == a;
    TokensMore(rest, "-", 1);
    TokensLast(a, "-");
    TrimIs(" ", "", "");
    assert " " + "" + "" == " ";
    TrimId("");
    TrimId(a);
    assert Splits(item, "-") == ["", a];
    FromCharsDecimal(n);
  }

  /** A hyphen alone among other items is everything but the first byte. */
  lemma {:induction false} LoneDashItem(size: nat)
    requires 0 < size <= INT_MAX + 1
    ensures ParseItem("-", size) == Some((1, size - 1))
  {
    hide FindFrom, Trim, FromChars;
    LacksChar("", '-');
    TokensLast("", "-");
    TrimId("");
    assert "-"[1..] == "" && Splits("-", "-") == [""];
  }

  // ---- text around the numbers ----

  lemma {:induction false} DigitPrefixStops(a: string, junk: string)
    requires forall i | 0 <= i < |a| :: IsDigit(a[i])
    requires junk == "" || !IsDigit(junk[0])
    ensures DigitPrefix(a + junk) == a
  {
    if a == "" {
      assert a + junk == junk;
    } else {
      assert (a + junk)[1..] == a[1..] + junk;
      DigitPrefixStops(a[1..], junk);
    }
  }

  /** Text without a digit in front is no number; after the digits anything is ignored. */
  lemma {:induction false} NumberOnly(n: nat, junk: string)
    requires junk == "" || !IsDigit(junk[0])
    ensures FromChars(junk) == None
    ensures FromChars(Decimal(n) + junk) == if n > INT_MAX then None else Some(n)
  {
    hide ValueOf, Decimal;
    DigitPrefixStops("", junk);
    assert "" + junk == junk;
    DigitPrefixStops(Decimal(n), junk);
    ValueOfDecimal(n);
  }

  lemma {:induction false} TrimAfter(a: string, junk: string)
    requires a != "" && forall i | 0 <= i < |a| :: IsDigit(a[i])
    requires junk == "" || !IsDigit(junk[0])
    ensures exists k: nat :: k <= |junk| && Trim(a + junk) == a + junk[..k]
  {
    var back := TrimRightSplit(junk);
    var k := |TrimRight(junk)|;
    hide Trim, TrimRight;
    assert a + junk == "" + (a + junk[..k]) + back;
    TrimIs("", a + junk[..k], back);
  }

  /** The value of a part that starts with a number. */
  lemma {:induction false} NumberPart(n: nat, junk: string)
    requires junk == "" || !IsDigit(junk[0])
    ensures var t := Trim(Trim(Decimal(n) + junk));
      t != "" && FromChars(t) == if n > INT_MAX then None else Some(n)
  {
    hide Trim, Decimal, FromChars;
    TrimAfter(Decimal(n), junk);
    var k: nat :| k <= |junk| && Trim(Decimal(n) + junk) == Decimal(n) + junk[..k];
    TrimAfter(Decimal(n), junk[..k]);
    var m: nat :| m <= k && Trim(Decimal(n) + junk[..k]) == Decimal(n) + junk[..k][..m];
    NumberOnly(n, junk[..k][..m]);
  }

  /** Text after either number, and a third part, are ignored. */
  lemma {:induction false} JunkIgnored(a: nat, p: string, b: nat, q: string, third: string, size: nat)
    requires '-' !in p && '-' !in q && (p == "" || !IsDigit(p[0])) && (q == "" || !IsDigit(q[0]))
    requires third == "" || third[0] == '-'
    ensures ParseItem(Decimal(a) + p + "-" + (Decimal(b) + q + third), size) == ParseItem(Printed(Span(a, b)), size)
  {
    hide Find, FindFrom, Trim, Splits, Decimal, FromChars, ToInt;
    NumberPart(a, p);
    NumberPart(b, q);
    NumberPart(a, "");
    NumberPart(b, "");
    assert Decimal(a) + "" == Decimal(a) && Decimal(b) + "" == Decimal(b);
    SplitsRange(Span(a, b));
    TrimId(Decimal(a));
    TrimId(Decimal(b));
    FirstTwo(Decimal(a) + p, Decimal(b) + q, third);
  }

  /** A blank second part is none. */
  lemma {:induction false} BlankEnd(a: nat, blank: string, third: string, size: nat)
    requires blank != "" && AllSpace(blank) && third != "" && third[0] == '-'
    ensures ParseItem(Decimal(a) + "-" + (blank + third), size) == ParseItem(Printed(From(a)), size)
  {
    hide Find, FindFrom, Trim, Splits, Decimal, FromChars, ToInt;
    SplitsRange(From(a));
    TrimId(Decimal(a));
    TrimIs(blank, "", "");
    assert blank + "" + "" == blank;
    TrimId("");
    FirstTwo(Decimal(a), blank, third);
  }

  lemma {:induction false} FirstTwo(x: string, y: string, third: string)
    requires x != "" && y != "" && '-' !in x && '-' !in y && (third == "" || third[0] == '-')
    ensures var ts := Splits(x + "-" + (y + third), "-");
      |ts| >= 2 && ts[0] == Trim(x) && ts[1] == Trim(y)
  {
    hide Find, FindFrom, Trim, Tokens;
    var s := x + "-" + (y + third);
    LacksChar(x, '-');
    LacksChar(y, '-');
    FindAfter(x, "-", y + third);
    TokensMore(s, "-", |x|);
    assert s[..|x|] == x && s[|x| + 1..] == y + third && s[0] == x[0];
    if third == "" {
      assert y + third == y;
      TokensLast(y, "-");
    } else {
      FindAfter(y, "-", third[1..]);
      assert y + third == y + "-" + third[1..];
      assert (y + third)[..|y|] == y;
      if |third| == 1 {
        TokensLast(y + third, "-");
      } else {
        TokensMore(y + third, "-", |y|);
      }
    }
  }

  // ---- files at the edges ----

  /** In an empty file only ranges from byte 0 are taken; they are empty, but for `0-0`,
      which is taken as it stands. */
  lemma {:induction false} EmptyFile(r: Spec)
    ensures ParseItem(Printed(r), 0) ==
      if r.first > 0 || (r.Span? && r.last > INT_MAX) then None
      else if r == Span(0, 0) then Some((0, 0))
      else Some((0, -1))
  {
    hide Find, FindFrom, Trim, Decimal, Splits, FromChars;
    SplitsRange(r);
    TrimId(Decimal(r.first));
    FromCharsDecimal(r.first);
    if r.Span? {
      TrimId(Decimal(r.last));
      FromCharsDecimal(r.last);
    }
  }

  /** A file whose last byte has no `int` for its number: a range with an end is taken as it
      stands, one without an end never reaches the end of the file. */
  lemma {:induction false} LargeFile(r: Spec, size: nat)
    requires size > INT_MAX + 1
    ensures ParseItem(Printed(r), size) ==
      var last := if r.Span? then r.last else ToInt(size - 1);
      if r.first > INT_MAX || last > INT_MAX || (r.first > 0 && r.first == last) then None
      else Some((r.first, last))
    ensures r.From? ==> ParseItem(Printed(r), size) != Some(Clamped(r, size))
  {
    hide Find, FindFrom, Trim, Decimal, Splits, FromChars;
    SplitsRange(r);
    TrimId(Decimal(r.first));
    FromCharsDecimal(r.first);
    if r.Span? {
      TrimId(Decimal(r.last));
      FromCharsDecimal(r.last);
    }
  }
}
