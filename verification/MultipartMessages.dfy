/** What the reader makes of messages that this writer did not print: other header lines,
    parameters in other forms and orders, headers that are refused, and bodies that are
    cut off or go on after their end. */
module MultipartMessages {
  import opened Text
  import opened Splitter
  import opened MultipartHeader
  import opened MultipartHeaderProofs
  import opened MultipartReader
  import opened MultipartWriter
  import opened MultipartRoundTrip

  // ---- header blocks, line by line ----

  /** Header lines and the blank line that closes them. */
  function BlockText(lines: seq<string>): string {
    if lines == [] then CRLF else lines[0] + CRLF + BlockText(lines[1..])
  }

  /** Lines of a block: neither empty nor broken. */
  predicate WholeLines(lines: seq<string>) {
    lines != [] && forall i | 0 <= i < |lines| :: lines[i] != "" && Lacks(lines[i], CRLF)
  }

  lemma {:induction false} WholeStart(line: string, t: string)
    requires line != "" && Lacks(line, CRLF)
    ensures !(CRLF <= line + CRLF + t)
  {
    hide Find, FindFrom;
    LacksAll(line, CRLF);
    var s := line + CRLF + t;
    if |line| >= 2 {
      assert !OccursAt(line, CRLF, 0);
      assert s[..2] == line[0..2];
    } else {
      assert s[1] == '\r';
    }
  }

  lemma {:induction false} BlankStep(line: string, t: string)
    requires Lacks(line, CRLF) && !(CRLF <= t)
    ensures Find(line + CRLF + t, BLANK) == match Find(t, BLANK) case None => None case Some(m) => Some(|line| + 2 + m)
  {
    hide Find, FindFrom;
    var s := line + CRLF + t;
    LacksAll(line, CRLF);
    forall j: nat | j < |line| + 2 ensures !OccursAt(s, BLANK, j) {
      if j + 4 <= |s| {
        NotBlank(s[j..j + 4]);
        if j + 2 <= |line| {
          assert !OccursAt(line, CRLF, j);
          assert line[j..j + 2] == s[j..j + 2] && s[j..j + 2] == s[j..j + 4][..2];
        } else if j == |line| {
          assert s[j..j + 4][2..] == t[..2];
        } else {
          assert s[j..j + 4][0] == s[j] && s[j..j + 4][1] == s[j + 1];
        }
      }
    }
    FindDrop(s, BLANK, |line| + 2);
    assert s[|line| + 2..] == t;
  }

  lemma {:induction false} NotBlank(b: string)
    requires |b| == 4
    ensures b[..2] != CRLF || b[2..] != CRLF || b[0] != '\r' || b[1] != '\n' ==> b != BLANK
  {
  }

  /** The reader cuts a block of whole lines at its blank line, whatever follows. */
  lemma {:induction false} BlockEnds(lines: seq<string>, rest: string)
    requires WholeLines(lines)
    ensures |BlockText(lines)| >= 4
    ensures Find(BlockText(lines) + rest, BLANK) == Some(|BlockText(lines)| - 4)
    decreases |lines|
  {
    hide Find, FindFrom, Lacks;
    var line := lines[0];
    if |lines| == 1 {
      assert lines[1..] == [] && BlockText([]) == CRLF;
      assert BlockText(lines) == line + CRLF + CRLF;
      assert BlockText(lines) + rest == line + BLANK + rest;
      BlankAfter(line, rest);
    } else {
      BlockEnds(lines[1..], rest);
      var more := BlockText(lines[1..]);
      assert more + rest == lines[1] + CRLF + (BlockText(lines[1..][1..]) + rest);
      WholeStart(lines[1], BlockText(lines[1..][1..]) + rest);
      BlankStep(line, more + rest);
      assert BlockText(lines) + rest == line + CRLF + (more + rest);
    }
  }

  lemma {:induction false} BlankAfter(line: string, rest: string)
    requires Lacks(line, CRLF)
    ensures Find(line + BLANK + rest, BLANK) == Some(|line|)
  {
    hide Find, FindFrom;
    LacksAll(line, CRLF);
    var s := line + BLANK + rest;
    assert s[|line|..|line| + 4] == BLANK;
    forall j: nat | j < |line| ensures !OccursAt(s, BLANK, j) {
      NotBlank(s[j..j + 4]);
      if j + 2 <= |line| {
        assert !OccursAt(line, CRLF, j);
        assert line[j..j + 2] == s[j..j + 2] && s[j..j + 2] == s[j..j + 4][..2];
      } else {
        assert s[j..j + 4][1] == s[j + 1];
      }
    }
    FindFirst(s, BLANK, Some(|line|));
  }

  lemma {:induction false} BlockTokens(lines: seq<string>)
    requires WholeLines(lines)
    ensures Tokens(BlockText(lines), CRLF) == TrimAll(lines) + [""]
    decreases |lines|
  {
    hide Find, FindFrom, Lacks, Trim, Tokens;
    var rest := BlockText(lines[1..]);
    assert BlockText(lines) == lines[0] + CRLF + rest;
    SplitsLine(lines[0], rest);
    if |lines| == 1 {
      assert lines[1..] == [];
      SplitsBlank();
    } else {
      BlockTokens(lines[1..]);
      assert [Trim(lines[0])] + (TrimAll(lines[1..]) + [""]) == TrimAll(lines) + [""];
    }
  }

  lemma {:induction false} BlockLines(lines: seq<string>)
    requires WholeLines(lines)
    ensures Splits(BlockText(lines), CRLF) == TrimAll(lines) + [""]
  {
    hide Tokens, TrimAll, Lacks;
    WholeStart(lines[0], BlockText(lines[1..]));
    BlockTokens(lines);
  }

  // ---- one line ----

  lemma {:induction false} TrimAround(k: string, v: string)
    ensures Trim(k + ":" + v) == TrimLeft(k) + ":" + TrimRight(v)
  {
    hide Trim, TrimLeft, TrimRight;
    var front := TrimLeftSplit(k);
    var back := TrimRightSplit(v);
    var a, b := TrimLeft(k), TrimRight(v);
    var m := a + ":" + b;
    assert k + ":" + v == front + m + back;
    assert m[0] == if a == "" then ':' else a[0];
    assert m[|m| - 1] == if b == "" then ':' else b[|b| - 1];
    TrimIs(front, m, back);
  }

  /** Trimming one side first makes no difference. */
  lemma {:induction false} TrimSides(s: string)
    ensures Trim(TrimLeft(s)) == Trim(s) && Trim(TrimRight(s)) == Trim(s)
  {
    hide Trim, TrimLeft, TrimRight;
    var front := TrimLeftSplit(s);
    assert front + TrimLeft(s) + "" == s;
    TrimPadded(front, TrimLeft(s), "");
    var back := TrimRightSplit(s);
    assert "" + TrimRight(s) + back == s;
    TrimPadded("", TrimRight(s), back);
  }

  lemma {:induction false} TrimPadded(front: string, s: string, back: string)
    requires AllSpace(front) && AllSpace(back)
    ensures Trim(front + s + back) == Trim(s)
  {
    hide Trim, TrimLeft, TrimRight;
    var l, r := TrimSplits(s);
    assert front + s + back == (front + l) + Trim(s) + (r + back);
    TrimIs(front + l, Trim(s), r + back);
  }

  /** A line is cut at its first colon, and both sides are trimmed. */
  lemma {:induction false} LineItem(k: string, v: string) returns (i: nat)
    requires ':' !in k
    ensures var t := Trim(k + ":" + v);
      Find(t, ":") == Some(i) && i < |t| && Trim(t[..i]) == Trim(k) && Trim(t[i + 1..]) == Trim(v)
  {
    hide Find, FindFrom, Trim, TrimLeft, TrimRight;
    var front := TrimLeftSplit(k);
    var a, b := TrimLeft(k), TrimRight(v);
    forall j | 0 <= j < |a| ensures a[j] != ':' { assert a[j] == k[|front| + j]; }
    TrimAround(k, v);
    LacksChar(a, ':');
    FindAfter(a, ":", b);
    i := |a|;
    assert (a + ":" + b)[..i] == a && (a + ":" + b)[i + 1..] == b;
    TrimSides(k);
    TrimSides(v);
  }

  /** A header line: key and value, with white space as it was written. */
  type Line = (string, string)

  function LineTexts(ls: seq<Line>): (r: seq<string>)
    ensures |r| == |ls| && forall i | 0 <= i < |ls| :: r[i] == ls[i].0 + ":" + ls[i].1
  {
    if ls == [] then [] else [ls[0].0 + ":" + ls[0].1] + LineTexts(ls[1..])
  }

  function Items(ls: seq<Line>): (r: seq<(string, string)>)
    ensures |r| == |ls| && forall i | 0 <= i < |ls| :: r[i] == (Trim(ls[i].0), Trim(ls[i].1))
  {
    if ls == [] then [] else [(Trim(ls[0].0), Trim(ls[0].1))] + Items(ls[1..])
  }

  predicate LinesCut(ls: seq<Line>) {
    forall i | 0 <= i < |ls| :: ':' !in ls[i].0
  }

  lemma {:induction false} ItemsOfLines(ls: seq<Line>)
    requires LinesCut(ls)
    ensures HeaderItems(TrimAll(LineTexts(ls)) + [""]) == Some(Items(ls))
    decreases |ls|
  {
    hide Find, FindFrom, Trim;
    if ls == [] {
      ItemsOfBlank();
    } else {
      var t := Trim(ls[0].0 + ":" + ls[0].1);
      var i := LineItem(ls[0].0, ls[0].1);
      var tokens := TrimAll(LineTexts(ls)) + [""];
      assert tokens[0] == t && tokens[1..] == TrimAll(LineTexts(ls[1..])) + [""];
      ItemsOfLines(ls[1..]);
    }
  }

  /** A block of `key: value` lines is read as its keys and values, trimmed, in order. */
  lemma {:induction false} BlockRead(ls: seq<Line>)
    requires LinesCut(ls) && WholeLines(LineTexts(ls))
    ensures HeaderField(BlockText(LineTexts(ls))) == ApplyItems(NO_FIELD, Items(ls))
  {
    hide Find, FindFrom, Trim, Splits, HeaderItems, TrimAll, LinesCut;
    BlockLines(LineTexts(ls));
    ItemsOfLines(ls);
  }

  lemma {:induction false} NoColonItems(tokens: seq<string>, i: nat)
    requires i < |tokens| && tokens[i] != "" && ':' !in tokens[i]
    ensures HeaderItems(tokens) == None
    decreases i
  {
    hide Find, FindFrom, Trim;
    if i == 0 {
      LacksChar(tokens[0], ':');
    } else {
      assert tokens[1..][i - 1] == tokens[i];
      NoColonItems(tokens[1..], i - 1);
    }
  }

  /** A line that is not blank and has no colon makes the whole block unreadable. */
  lemma {:induction false} NoColonRefused(lines: seq<string>, i: nat)
    requires WholeLines(lines) && i < |lines| && ':' !in lines[i] && !AllSpace(lines[i])
    ensures HeaderField(BlockText(lines)) == None
  {
    hide Find, FindFrom, Trim, Splits, HeaderItems, Lacks;
    BlockLines(lines);
    TrimAllAt(lines, i);
    var l, r := TrimSplits(lines[i]);
    var t := Trim(lines[i]);
    assert t != "";
    forall j | 0 <= j < |t| ensures t[j] != ':' { assert t[j] == lines[i][|l| + j]; }
    NoColonItems(TrimAll(lines) + [""], i);
  }

  lemma {:induction false} TrimAllAt(ps: seq<string>, i: nat)
    requires i < |ps|
    ensures |TrimAll(ps)| == |ps| && TrimAll(ps)[i] == Trim(ps[i])
    decreases |ps|
  {
    hide Trim;
    if i > 0 { TrimAllAt(ps[1..], i - 1); } else if |ps| > 1 { TrimAllAt(ps[1..], 0); }
  }

  // ---- what the items add up to ----

  /** The value of the last pair with a given key. */
  function LastValue(pairs: seq<(string, string)>, key: string, none: string): string {
    if pairs == [] then none
    else if pairs[|pairs| - 1].0 == key then pairs[|pairs| - 1].1
    else LastValue(pairs[..|pairs| - 1], key, none)
  }

  lemma {:induction false} LastValueConcat(a: seq<(string, string)>, b: seq<(string, string)>, key: string, none: string)
    ensures LastValue(a + b, key, none) == LastValue(b, key, LastValue(a, key, none))
    decreases |b|
  {
    if b == [] {
      assert a + b == a;
    } else {
      assert (a + b)[..|a + b| - 1] == a + b[..|b| - 1];
      LastValueConcat(a, b[..|b| - 1], key, none);
    }
  }

  /** The text before the first semicolon says `form-data`. */
  ghost predicate FormData(value: string) {
    exists a, b :: value == a + ";" + b && ';' !in a && Trim(a) == "form-data"
  }

  /** The parameters after the first semicolon. */
  function ParametersIn(value: string): seq<(string, string)> {
    FindFirst(value, ";", Find(value, ";"));
    match Find(value, ";") case None => [] case Some(k) => Parameters(value[k + 1..])
  }

  /** All Content-Disposition parameters of a part, in order. */
  function AllParameters(items: seq<(string, string)>): seq<(string, string)> {
    if items == [] then []
    else (if items[0].0 == "Content-Disposition" then ParametersIn(items[0].1) else []) + AllParameters(items[1..])
  }

  lemma {:induction false} FormDataCut(a: string, b: string)
    requires ';' !in a
    ensures Find(a + ";" + b, ";") == Some(|a|) && (a + ";" + b)[..|a|] == a && (a + ";" + b)[|a| + 1..] == b
  {
    LacksChar(a, ';');
    FindAfter(a, ";", b);
  }

  lemma {:induction false} FormDataIs(value: string)
    ensures FormData(value) <==> match Find(value, ";")
      case None => false
      case Some(k) => k < |value| && Trim(value[..k]) == "form-data"
  {
    hide Find, FindFrom, Trim;
    match Find(value, ";") {
      case None => LacksChar(value, ';');
      case Some(k) =>
        LacksBefore(value, ";", k);
        LacksChar(value[..k], ';');
        assert value == value[..k] + ";" + value[k + 1..];
        forall a, b | value == a + ";" + b && ';' !in a ensures a == value[..k] { FormDataCut(a, b); }
    }
  }

  lemma {:induction false} ApplyParametersIs(f: Field, ps: seq<(string, string)>)
    ensures ApplyParameters(f, ps)
      == f.(name := LastValue(ps, "name", f.name), filename := LastValue(ps, "filename", f.filename))
    decreases |ps|
  {
    if ps != [] {
      var g := ApplyParameter(f, ps[0]);
      ApplyParametersIs(g, ps[1..]);
      assert [ps[0]] + ps[1..] == ps && [ps[0]][..0] == [];
      LastValueConcat([ps[0]], ps[1..], "name", f.name);
      LastValueConcat([ps[0]], ps[1..], "filename", f.filename);
      LastOfOne(ps[0], "name", f.name);
      LastOfOne(ps[0], "filename", f.filename);
    }
  }

  lemma {:induction false} LastOfOne(p: (string, string), key: string, none: string)
    ensures LastValue([p], key, none) == if p.0 == key then p.1 else none
  {
    assert [p][..0] == [];
  }

  /** What a block comes to: it is refused exactly when some Content-Disposition is not
      form-data; otherwise name and filename are the last such parameters, the content type
      is the last one given, and every other line is skipped. */
  lemma {:induction false} ItemsMeaning(f: Field, items: seq<(string, string)>)
    ensures ApplyItems(f, items) ==
      if forall i | 0 <= i < |items| && items[i].0 == "Content-Disposition" :: FormData(items[i].1)
      then Some(Field(LastValue(AllParameters(items), "name", f.name), LastValue(AllParameters(items), "filename", f.filename),
                      LastValue(items, "Content-Type", f.contentType), f.content))
      else None
    decreases |items|
  {
    hide Find, FindFrom, Trim, FormData, ParametersIn, ApplyItem, LastValue, AllParameters;
    if items == [] {
      NoValue(f.name, f.filename, f.contentType);
    } else {
      var item, rest := items[0], items[1..];
      ItemMeaning(f, item);
      assert forall i | 0 <= i < |rest| :: rest[i] == items[i + 1];
      TypeStep(items, f.contentType);
      ParametersStep(items, "name", f.name);
      ParametersStep(items, "filename", f.filename);
      if ApplyItem(f, item).Some? { ItemsMeaning(ApplyItem(f, item).value, rest); }
    }
  }

  lemma {:induction false} NoValue(name: string, filename: string, contentType: string)
    ensures LastValue(AllParameters([]), "name", name) == name
    ensures LastValue(AllParameters([]), "filename", filename) == filename
    ensures LastValue([], "Content-Type", contentType) == contentType
  {
  }

  lemma {:induction false} TypeStep(items: seq<(string, string)>, none: string)
    requires items != []
    ensures LastValue(items, "Content-Type", none)
      == LastValue(items[1..], "Content-Type", if items[0].0 == "Content-Type" then items[0].1 else none)
  {
    hide LastValue;
    assert [items[0]] + items[1..] == items;
    LastValueConcat([items[0]], items[1..], "Content-Type", none);
    LastOfOne(items[0], "Content-Type", none);
  }

  lemma {:induction false} ParametersStep(items: seq<(string, string)>, key: string, none: string)
    requires items != []
    ensures LastValue(AllParameters(items), key, none) == LastValue(AllParameters(items[1..]), key,
      if items[0].0 == "Content-Disposition" then LastValue(ParametersIn(items[0].1), key, none) else none)
  {
    hide LastValue, ParametersIn;
    if items[0].0 == "Content-Disposition" {
      LastValueConcat(ParametersIn(items[0].1), AllParameters(items[1..]), key, none);
    } else {
      assert [] + AllParameters(items[1..]) == AllParameters(items[1..]);
    }
  }

  lemma {:induction false} ItemMeaning(f: Field, item: (string, string))
    ensures ApplyItem(f, item) ==
      if item.0 == "Content-Disposition" then
        (if FormData(item.1)
         then Some(f.(name := LastValue(ParametersIn(item.1), "name", f.name),
                      filename := LastValue(ParametersIn(item.1), "filename", f.filename)))
         else None)
      else if item.0 == "Content-Type" then Some(f.(contentType := item.1))
      else Some(f)
  {
    hide Find, FindFrom, Trim, Parameters, FormData, ApplyParameters;
    if item.0 == "Content-Disposition" {
      FormDataIs(item.1);
      FindFirst(item.1, ";", Find(item.1, ";"));
      if FormData(item.1) { ApplyParametersIs(f, ParametersIn(item.1)); }
    }
  }

  // ---- parameters in any form ----

  /** A parameter with the text before it, its key and its value as they are written. */
  datatype Parameter = Parameter(before: string, key: string, value: string, quoted: bool)

  function ParameterTextOf(p: Parameter): string {
    p.before + (p.key + AfterKey(p))
  }

  function AfterKey(p: Parameter): string {
    if p.quoted then "=\"" + p.value + "\"" else "=" + p.value
  }

  function ParametersText(ps: seq<Parameter>): string {
    if ps == [] then "" else ParameterTextOf(ps[0]) + ParametersText(ps[1..])
  }

  /** A key starts where the white space ends. A quoted value closes its quotes; another one
      has no semicolon. */
  predicate WellWritten(p: Parameter) {
    && p.key != "" && !Space(p.key[0]) && '=' !in p.key
    && if p.quoted then QuoteClosed(p.value, false) else ';' !in p.value && !("\"" <= p.value)
  }

  /** What stands before a parameter: white space, with a semicolon in front of it after a
      value without quotes, and possibly after one with quotes. */
  predicate Separated(quoted: bool, p: Parameter) {
    if ";" <= p.before then AllSpace(p.before[1..])
    else quoted && AllSpace(p.before) && (p.before == "" ==> p.key != "" && p.key[0] != ';')
  }

  predicate AllWritten(ps: seq<Parameter>) {
    && (forall i | 0 <= i < |ps| :: WellWritten(ps[i]))
    && (forall i | 0 < i < |ps| :: Separated(ps[i - 1].quoted, ps[i]))
    && (ps != [] ==> AllSpace(ps[0].before))
  }

  /** Keys are trimmed, and so are values without quotes. */
  function PairOf(p: Parameter): (string, string) {
    (Trim(p.key), if p.quoted then p.value else Trim(p.value))
  }

  function Pairs(ps: seq<Parameter>): (r: seq<(string, string)>)
    ensures |r| == |ps| && forall i | 0 <= i < |ps| :: r[i] == PairOf(ps[i])
  {
    if ps == [] then [] else [PairOf(ps[0])] + Pairs(ps[1..])
  }

  lemma {:induction false} BareEndIs(v: string, tail: string)
    requires ';' !in v && (tail == "" || tail[0] == ';')
    ensures BareEnd(v + tail) == |v|
  {
    hide Find, FindFrom;
    LacksChar(v, ';');
    if tail == "" {
      assert v + tail == v;
    } else {
      FindAfter(v, ";", tail[1..]);
      assert v + tail == v + ";" + tail[1..];
    }
  }

  lemma {:induction false} EqualsAt(l: string, key: string, u: string)
    requires AllSpace(l) && '=' !in key
    ensures var h := l + (key + ("=" + u));
      && Find(h, "=") == Some(|l + key|)
      && Trim(h[..|l + key|]) == Trim(key) && h[|l + key| + 1..] == u
  {
    hide Find, FindFrom, Trim;
    var k := l + key;
    assert '=' !in k by { assert '=' !in l; }
    LacksChar(k, '=');
    FindAfter(k, "=", u);
    var h := k + "=" + u;
    assert l + (key + ("=" + u)) == h && h[..|k|] == k && h[|k| + 1..] == u;
    TrimPadded(l, key, "");
    assert l + key + "" == k;
  }

  /** A quoted value ends at its closing quote. */
  lemma {:induction false} QuotedFirst(h: string, eq: nat, key: string, v: string, tail: string)
    requires Find(h, "=") == Some(eq) && eq < |h| && Trim(h[..eq]) == key && h[eq + 1..] == "\"" + (v + "\"" + tail)
    requires QuoteClosed(v, false)
    ensures Parameters(h) == [(key, v)] + Parameters(SkipSeparator(tail))
  {
    hide Find, FindFrom, Trim, QuoteEnd, SkipSeparator, BareEnd, QuoteClosed;
    var q := v + "\"" + tail;
    assert ("\"" + q)[0] == '"' && ("\"" + q)[1..] == q;
    QuoteEndClosed(v, tail, false);
    assert q[..|v|] == v && q[|v| + 1..] == tail;
  }

  /** A value without quotes ends before the next semicolon. */
  lemma {:induction false} PlainFirst(h: string, eq: nat, key: string, v: string, tail: string)
    requires Find(h, "=") == Some(eq) && eq < |h| && Trim(h[..eq]) == key && h[eq + 1..] == v + tail
    requires ';' !in v && !("\"" <= v) && (tail == "" || tail[0] == ';')
    ensures Parameters(h) == [(key, Trim(v))] + Parameters(SkipSeparator(tail))
  {
    hide Find, FindFrom, Trim, QuoteEnd, SkipSeparator, BareEnd;
    BareEndIs(v, tail);
    var w := v + tail;
    assert w[..|v|] == v && w[|v|..] == tail;
    assert w != "" ==> w[0] != '"';
  }

  /** The first parameter of a text, and what is left. */
  lemma {:induction false} FirstParameter(l: string, p: Parameter, tail: string)
    requires AllSpace(l) && WellWritten(p) && (p.quoted || tail == "" || tail[0] == ';')
    ensures Parameters(l + (p.key + (AfterKey(p) + tail))) == [PairOf(p)] + Parameters(SkipSeparator(tail))
  {
    hide Find, FindFrom, Trim, SkipSeparator, QuoteClosed, Parameters;
    var u := if p.quoted then "\"" + (p.value + "\"" + tail) else p.value + tail;
    assert AfterKey(p) + tail == "=" + u;
    EqualsAt(l, p.key, u);
    var h := l + (p.key + ("=" + u));
    if p.quoted {
      QuotedFirst(h, |l + p.key|, Trim(p.key), p.value, tail);
    } else {
      PlainFirst(h, |l + p.key|, Trim(p.key), p.value, tail);
    }
  }

  lemma {:induction false} SkipsAll(l: string, u: string)
    requires AllSpace(l) && (u == "" || !Space(u[0]))
    ensures SkipSpaces(l + u) == u
  {
    if l == "" {
      assert l + u == u;
    } else {
      assert (l + u)[1..] == l[1..] + u;
      SkipsAll(l[1..], u);
    }
  }

  /** What stands before the next parameter is skipped. */
  lemma {:induction false} SeparatorSkipped(quoted: bool, p: Parameter, u: string)
    requires WellWritten(p) && Separated(quoted, p)
    ensures SkipSeparator(p.before + (p.key + u)) == p.key + u
    ensures !quoted ==> p.before + (p.key + u) != "" && (p.before + (p.key + u))[0] == ';'
  {
    hide SkipSpaces;
    var h := p.before + (p.key + u);
    assert (p.key + u)[0] == p.key[0];
    if ";" <= p.before {
      assert h[1..] == p.before[1..] + (p.key + u);
      SkipsAll(p.before[1..], p.key + u);
    } else {
      assert h[0] == if p.before == "" then p.key[0] else p.before[0];
      SkipsAll(p.before, p.key + u);
    }
  }

  lemma {:induction false} SkipsNothing()
    ensures SkipSeparator("") == "" && Parameters("") == []
  {
    FindFirst("", "=", None);
  }

  lemma {:induction false} TextCons(p: Parameter, tail: string)
    ensures ParameterTextOf(p) + tail == p.before + (p.key + (AfterKey(p) + tail))
  {
    hide AfterKey;
  }

  /** Parameters are read in any order and number, quoted or not, however they are spaced. */
  lemma {:induction false} ParametersRead(ps: seq<Parameter>)
    requires AllWritten(ps)
    ensures Parameters(ParametersText(ps)) == Pairs(ps)
  {
    hide Parameters, WellWritten;
    if ps == [] {
      SkipsNothing();
    } else {
      var tail := ParametersText(ps[1..]);
      TextCons(ps[0], tail);
      ParametersFrom(ps[0].before, ps);
    }
  }

  lemma {:induction false} ParametersFrom(l: string, ps: seq<Parameter>)
    requires ps != [] && AllSpace(l)
    requires forall i | 0 <= i < |ps| :: WellWritten(ps[i])
    requires forall i | 0 < i < |ps| :: Separated(ps[i - 1].quoted, ps[i])
    ensures Parameters(l + (ps[0].key + (AfterKey(ps[0]) + ParametersText(ps[1..])))) == Pairs(ps)
    decreases |ps|
  {
    hide Parameters, SkipSeparator, WellWritten, Separated, AfterKey, ParameterTextOf, PairOf;
    var tail := ParametersText(ps[1..]);
    if |ps| == 1 {
      assert ps[1..] == [];
      SkipsNothing();
    } else {
      var p, after := ps[1], ParametersText(ps[2..]);
      assert ps[1..][1..] == ps[2..];
      TextCons(p, after);
      SeparatorSkipped(ps[0].quoted, p, AfterKey(p) + after);
      ParametersFrom("", ps[1..]);
      assert "" + (p.key + (AfterKey(p) + after)) == p.key + (AfterKey(p) + after);
    }
    FirstParameter(l, ps[0], tail);
  }

  /** A Content-Disposition value with parameters in any form. */
  lemma {:induction false} DispositionRead(ps: seq<Parameter>)
    requires AllWritten(ps)
    ensures var value := "form-data;" + ParametersText(ps);
      FormData(value) && ParametersIn(value) == Pairs(ps)
  {
    hide Find, FindFrom, Trim, Parameters, ParametersText, FormData, AllWritten;
    var text := ParametersText(ps);
    var value := "form-data" + ";" + text;
    assert "form-data;" + text == value;
    FormDataCut("form-data", text);
    FormDataIs(value);
    TrimId("form-data");
    ParametersRead(ps);
  }

  // ---- lines the reader does not know ----

  lemma {:induction false} ItemsConcat(a: seq<Line>, b: seq<Line>)
    ensures Items(a + b) == Items(a) + Items(b)
  {
    hide Trim;
  }

  lemma {:induction false} AllParametersConcat(a: seq<(string, string)>, b: seq<(string, string)>)
    ensures AllParameters(a + b) == AllParameters(a) + AllParameters(b)
    decreases |a|
  {
    hide ParametersIn;
    if a == [] {
      assert a + b == b;
    } else {
      assert (a + b)[1..] == a[1..] + b;
      AllParametersConcat(a[1..], b);
      var first := if a[0].0 == "Content-Disposition" then ParametersIn(a[0].1) else [];
      assert first + (AllParameters(a[1..]) + AllParameters(b)) == first + AllParameters(a[1..]) + AllParameters(b);
    }
  }

  /** A line with any key but the two makes no difference, wherever it stands. */
  lemma {:induction false} UnknownLineSkipped(a: seq<Line>, line: Line, b: seq<Line>)
    requires LinesCut(a + [line] + b) && WholeLines(LineTexts(a + [line] + b)) && a + b != []
    requires Trim(line.0) != "Content-Disposition" && Trim(line.0) != "Content-Type"
    ensures WholeLines(LineTexts(a + b))
    ensures HeaderField(BlockText(LineTexts(a + [line] + b))) == HeaderField(BlockText(LineTexts(a + b)))
  {
    hide HeaderField, Trim, Find, FindFrom, Lacks, BlockText, ApplyItems;
    var all, less := a + [line] + b, a + b;
    assert forall i | 0 <= i < |less| :: less[i] == all[if i < |a| then i else i + 1];
    assert forall i | 0 <= i < |less| :: LineTexts(less)[i] == LineTexts(all)[if i < |a| then i else i + 1];
    BlockRead(all);
    BlockRead(less);
    ItemsConcat(a, [line]);
    ItemsConcat(a + [line], b);
    ItemsConcat(a, b);
    OneItem(line);
    ItemSkipped(NO_FIELD, Items(a), (Trim(line.0), Trim(line.1)), Items(b));
  }

  lemma {:induction false} OneItem(line: Line)
    ensures Items([line]) == [(Trim(line.0), Trim(line.1))]
  {
    assert [line][1..] == [];
  }

  lemma {:induction false} ItemSkipped(f: Field, a: seq<(string, string)>, item: (string, string), b: seq<(string, string)>)
    requires item.0 != "Content-Disposition" && item.0 != "Content-Type"
    ensures ApplyItems(f, a + [item] + b) == ApplyItems(f, a + b)
    decreases |a|
  {
    hide Find, FindFrom, Trim, Parameters, ApplyParameters;
    if a == [] {
      assert [] + [item] + b == [item] + b && ([item] + b)[1..] == b && [] + b == b;
    } else {
      hide ApplyItem;
      assert (a + [item] + b)[1..] == a[1..] + [item] + b && (a + b)[1..] == a[1..] + b;
      assert (a + [item] + b)[0] == a[0] && (a + b)[0] == a[0];
      if ApplyItem(f, a[0]).Some? { ItemSkipped(ApplyItem(f, a[0]).value, a[1..], item, b); }
    }
  }

  /** The header lines this writer prints. */
  function WrittenLines(f: Field): seq<Line> {
    [("Content-Disposition", " form-data;" + ParameterText(f))]
    + if f.contentType != "" then [("Content-Type", " " + f.contentType)] else []
  }

  lemma {:induction false} WrittenBlock(f: Field)
    ensures BlockText(LineTexts(WrittenLines(f))) == HeaderText(f)
  {
    hide ParameterText;
    var d: Line := ("Content-Disposition", " form-data;" + ParameterText(f));
    assert d.0 + ":" + d.1 == DispositionLine(f);
    if f.contentType != "" {
      var c: Line := ("Content-Type", " " + f.contentType);
      assert c.0 + ":" + c.1 == "Content-Type: " + f.contentType;
      TwoLineBlock(d, c);
      assert HeaderText(f) == DispositionLine(f) + CRLF + (("Content-Type: " + f.contentType) + CRLF + CRLF);
    } else {
      OneLineBlock(d);
      assert WrittenLines(f) == [d];
    }
  }

  lemma {:induction false} OneLineBlock(d: Line)
    ensures BlockText(LineTexts([d])) == d.0 + ":" + d.1 + CRLF + CRLF
  {
    assert [d][1..] == [];
    var text := d.0 + ":" + d.1;
    assert LineTexts([d]) == [text] && [text][1..] == [];
    assert BlockText([text]) == text + CRLF + BlockText([]);
  }

  lemma {:induction false} TwoLineBlock(d: Line, c: Line)
    ensures BlockText(LineTexts([d] + [c])) == d.0 + ":" + d.1 + CRLF + (c.0 + ":" + c.1 + CRLF + CRLF)
  {
    hide BlockText;
    OneLineBlock(c);
    assert ([d] + [c])[1..] == [c];
    var texts := LineTexts([d] + [c]);
    assert texts == [d.0 + ":" + d.1] + LineTexts([c]) && texts[1..] == LineTexts([c]);
    BlockCons(texts);
  }

  lemma {:induction false} BlockCons(lines: seq<string>)
    requires lines != []
    ensures BlockText(lines) == lines[0] + CRLF + BlockText(lines[1..])
  {
  }

  /** A header as this writer prints it, with a line of another kind put in anywhere, is read
      as it is without that line. */
  lemma {:induction false} ExtraLineRead(f: Field, a: seq<Line>, line: Line, b: seq<Line>)
    requires Readable(f) && WrittenLines(f) == a + b
    requires LinesCut(a + [line] + b) && WholeLines(LineTexts(a + [line] + b))
    requires Trim(line.0) != "Content-Disposition" && Trim(line.0) != "Content-Type"
    ensures HeaderField(BlockText(LineTexts(a + [line] + b))) == Some(f.(content := ""))
  {
    hide HeaderField, Trim, Find, FindFrom, WrittenLines, BlockText, LineTexts, LinesCut, WholeLines, HeaderText;
    assert a + b != [] by { WrittenSomething(f); }
    UnknownLineSkipped(a, line, b);
    WrittenBlock(f);
    HeaderTextExact(f);
  }

  lemma {:induction false} WrittenSomething(f: Field)
    ensures WrittenLines(f) != []
  {
    hide ParameterText;
  }

  // ---- whole messages ----

  /** A part as any client may write it. */
  datatype Part = Part(lines: seq<Line>, content: string)

  predicate Printable(boundary: string, p: Part) {
    && LinesCut(p.lines) && WholeLines(LineTexts(p.lines))
    && CleanContent(boundary, p.content)
  }

  ghost predicate Accepted(p: Part) {
    forall i | 0 <= i < |p.lines| && Trim(p.lines[i].0) == "Content-Disposition" :: FormData(Trim(p.lines[i].1))
  }

  /** The field a part stands for. */
  function FieldOf(p: Part): Field {
    var items := Items(p.lines);
    Field(LastValue(AllParameters(items), "name", ""), LastValue(AllParameters(items), "filename", ""),
          LastValue(items, "Content-Type", ""), p.content)
  }

  function FieldsOf(ps: seq<Part>): (r: seq<Field>)
    ensures |r| == |ps| && forall i | 0 <= i < |ps| :: r[i] == FieldOf(ps[i])
  {
    seq(|ps|, i requires 0 <= i < |ps| => FieldOf(ps[i]))
  }

  function MessageText(boundary: string, ps: seq<Part>): string {
    if ps == [] then CloseLine(boundary) + CRLF
    else OpenLine(boundary) + (BlockText(LineTexts(ps[0].lines)) + (ps[0].content + (CRLF + MessageText(boundary, ps[1..]))))
  }

  lemma {:induction false} BlockMeaning(p: Part)
    requires LinesCut(p.lines) && WholeLines(LineTexts(p.lines))
    ensures HeaderField(BlockText(LineTexts(p.lines)))
      == if Accepted(p) then Some(FieldOf(p).(content := "")) else None
  {
    hide HeaderField, Trim, ApplyItems, FormData, AllParameters, WholeLines, LinesCut, BlockText;
    BlockRead(p.lines);
    ItemsMeaning(NO_FIELD, Items(p.lines));
    var items := Items(p.lines);
    assert forall i | 0 <= i < |items| :: items[i] == (Trim(p.lines[i].0), Trim(p.lines[i].1));
  }

  /** A header block leads to its content, or stops the reader for good. */
  lemma {:induction false} DriveBlock(boundary: string, s: ReaderState, lines: seq<string>, rest: string)
    requires s.step == BoundaryHeader && WholeLines(lines)
    ensures Drive(boundary, s, BlockText(lines) + rest) == match HeaderField(BlockText(lines))
      case Some(f) => Drive(boundary, ReaderState(BoundaryContent, s.fields, f), rest)
      case None => Config(s, BlockText(lines) + rest, UnexpectedBody)
  {
    hide FindFrom, HeaderField, Find, BlockText;
    BlockEnds(lines, rest);
    var data, k := BlockText(lines) + rest, |BlockText(lines)| - 4;
    assert data[..k + 4] == BlockText(lines) && data[k + 4..] == rest;
  }

  /** A line without a colon stops the reader for good. */
  lemma {:induction false} NoColonStops(boundary: string, s: ReaderState, lines: seq<string>, i: nat, rest: string)
    requires s.step == BoundaryHeader && WholeLines(lines)
    requires i < |lines| && ':' !in lines[i] && !AllSpace(lines[i])
    ensures Drive(boundary, s, BlockText(lines) + rest) == Config(s, BlockText(lines) + rest, UnexpectedBody)
  {
    hide HeaderField, BlockText, Drive, WholeLines;
    NoColonRefused(lines, i);
    DriveBlock(boundary, s, lines, rest);
  }

  lemma {:induction false} MessageStarts(boundary: string, ps: seq<Part>) returns (rest: string)
    ensures CRLF + MessageText(boundary, ps) == Delimiter(boundary) + rest
    ensures MessageText(boundary, ps) == "--" + boundary + rest
  {
    hide BlockText;
    var m := MessageText(boundary, ps);
    if ps == [] {
      rest := "--" + CRLF;
      assert m == "--" + boundary + rest;
    } else {
      rest := CRLF + (BlockText(LineTexts(ps[0].lines)) + (ps[0].content + (CRLF + MessageText(boundary, ps[1..]))));
      assert m == "--" + boundary + rest;
    }
    assert CRLF + ("--" + boundary + rest) == CRLF + "--" + boundary + rest;
  }

  /** One part of a message by any client. */
  lemma {:induction false} DriveAnyPart(boundary: string, s: ReaderState, p: Part, later: seq<Part>)
    requires s.step == BoundaryLine && Printable(boundary, p)
    ensures var c := Drive(boundary, s, MessageText(boundary, [p] + later));
      if Accepted(p)
      then c == Drive(boundary, ReaderState(BoundaryLine, s.fields + [FieldOf(p)], NO_FIELD), MessageText(boundary, later))
      else c.error == UnexpectedBody && c.state.fields == s.fields
  {
    hide Drive, BlockText, CleanContent, WholeLines, LinesCut, FieldOf, Accepted, HeaderField, MessageText;
    var block := BlockText(LineTexts(p.lines));
    var rest := MessageStarts(boundary, later);
    var body := p.content + (CRLF + MessageText(boundary, later));
    MessageCons(boundary, p, later);
    DriveOpenLine(boundary, s, block + body);
    BlockMeaning(p);
    DriveBlock(boundary, s.(step := BoundaryHeader), LineTexts(p.lines), body);
    if Accepted(p) {
      var f := FieldOf(p);
      FieldContent(p);
      assert body == f.content + Delimiter(boundary) + rest;
      DriveContent(boundary, ReaderState(BoundaryContent, s.fields, f.(content := "")), f, rest);
    }
  }

  lemma {:induction false} FieldContent(p: Part)
    ensures FieldOf(p).content == p.content
  {
  }

  lemma {:induction false} MessageCons(boundary: string, p: Part, later: seq<Part>)
    ensures MessageText(boundary, [p] + later)
      == OpenLine(boundary) + (BlockText(LineTexts(p.lines)) + (p.content + (CRLF + MessageText(boundary, later))))
  {
    assert ([p] + later)[1..] == later;
  }

  ghost predicate AllAccepted(ps: seq<Part>) {
    forall i | 0 <= i < |ps| :: Accepted(ps[i])
  }

  /** The parser has stopped for good in the first part that is not accepted, with the
      fields of those before it. */
  ghost predicate StoppedIn(c: Config, before: seq<Field>, ps: seq<Part>) {
    c.error == UnexpectedBody && exists n | 0 <= n < |ps| ::
      !Accepted(ps[n]) && AllAccepted(ps[..n]) && c.state.fields == before + FieldsOf(ps[..n])
  }

  lemma {:induction false} StoppedLater(c: Config, before: seq<Field>, p: Part, later: seq<Part>)
    requires Accepted(p) && StoppedIn(c, before + [FieldOf(p)], later)
    ensures StoppedIn(c, before, [p] + later)
  {
    hide Accepted, FieldOf;
    var ps := [p] + later;
    var n :| 0 <= n < |later| && !Accepted(later[n]) && AllAccepted(later[..n])
      && c.state.fields == before + [FieldOf(p)] + FieldsOf(later[..n]);
    assert ps[..n + 1] == [p] + later[..n] && ps[n + 1] == later[n];
    FieldsCons(before, p, later[..n]);
  }

  lemma {:induction false} FieldsCons(before: seq<Field>, p: Part, later: seq<Part>)
    ensures before + [FieldOf(p)] + FieldsOf(later) == before + FieldsOf([p] + later)
  {
    hide FieldOf;
  }

  lemma {:induction false} AcceptedCons(p: Part, later: seq<Part>)
    ensures AllAccepted([p] + later) <==> Accepted(p) && AllAccepted(later)
  {
    hide Accepted;
    assert ([p] + later)[0] == p && forall i | 0 <= i < |later| :: ([p] + later)[i + 1] == later[i];
  }

  lemma {:induction false} StoppedNow(c: Config, before: seq<Field>, p: Part, later: seq<Part>)
    requires !Accepted(p) && c.error == UnexpectedBody && c.state.fields == before
    ensures StoppedIn(c, before, [p] + later)
  {
    hide Accepted, FieldOf;
    var ps := [p] + later;
    assert ps[0] == p && ps[..0] == [] && before + FieldsOf([]) == before;
  }

  /** A message by any client, from a boundary line on: all accepted parts are read, in
      order, up to the first one that is not, which stops the reader. */
  lemma {:induction false} DriveMessage(boundary: string, s: ReaderState, ps: seq<Part>)
    requires s.step == BoundaryLine && s.partial == NO_FIELD
    requires forall i | 0 <= i < |ps| :: Printable(boundary, ps[i])
    ensures var c := Drive(boundary, s, MessageText(boundary, ps));
      if AllAccepted(ps) then c == Config(ReaderState(MultipartReader.Step.Eof, s.fields + FieldsOf(ps), NO_FIELD), "", NoError)
      else StoppedIn(c, s.fields, ps)
    decreases |ps|
  {
    hide Drive, MessageText, Printable, Accepted, FieldOf, AllAccepted, StoppedIn;
    if ps == [] {
      MessageNil(boundary);
      DriveCloseLine(boundary, s);
      assert s.fields + FieldsOf(ps) == s.fields;
      assert AllAccepted([]) by { NothingToAccept(); }
    } else {
      var p, later := ps[0], ps[1..];
      assert [p] + later == ps;
      DriveAnyPart(boundary, s, p, later);
      AcceptedCons(p, later);
      if Accepted(p) {
        var t := ReaderState(BoundaryLine, s.fields + [FieldOf(p)], NO_FIELD);
        DriveMessage(boundary, t, later);
        FieldsCons(s.fields, p, later);
        if !AllAccepted(later) { StoppedLater(Drive(boundary, t, MessageText(boundary, later)), s.fields, p, later); }
      } else {
        StoppedNow(Drive(boundary, s, MessageText(boundary, ps)), s.fields, p, later);
      }
    }
  }

  lemma {:induction false} NothingToAccept()
    ensures AllAccepted([])
  {
  }

  lemma {:induction false} MessageNil(boundary: string)
    ensures MessageText(boundary, []) == CloseLine(boundary) + CRLF
  {
  }

  /** However a message by any client is cut into chunks: it is read whole, as the fields its
      header lines describe, if and only if every Content-Disposition in it is form-data;
      otherwise the reader stops in the first part with another one. */
  lemma {:induction false} AnyClient(boundary: string, ps: seq<Part>, chunks: seq<string>)
    requires Flatten(chunks) == MessageText(boundary, ps)
    requires forall i | 0 <= i < |ps| :: Printable(boundary, ps[i])
    ensures var c := FeedAll(boundary, OPENED, chunks);
      if AllAccepted(ps) then ReadsAs(c, FieldsOf(ps)) else StoppedIn(c, [], ps)
  {
    hide Drive, MessageText, Printable, AllAccepted, StoppedIn, FieldOf;
    var rest := MessageStarts(boundary, ps);
    AnyChunking(boundary, OPENED, chunks);
    assert "" + Flatten(chunks) == Flatten(chunks);
    DriveMessage(boundary, START, ps);
    assert [] + FieldsOf(ps) == FieldsOf(ps);
  }

  // ---- bodies that are cut off, or go on ----

  /** A body cut off anywhere is not complete: the reader is not at its end, so `finish`
      reports a partial message, and no further field was made up. */
  lemma {:induction false} CutOffIsPartial(boundary: string, fields: seq<Field>, n: nat)
    requires CleanFields(boundary, fields) && n < |Body(boundary, fields)|
    ensures var c := Drive(boundary, START, Body(boundary, fields)[..n]);
      && c.state.step != MultipartReader.Step.Eof && c.state.fields <= fields
      && (c.error == NoError || c.error == NeedMore)
  {
    hide Drive, CleanFields, Body;
    var text := Body(boundary, fields);
    var x, y := text[..n], text[n..];
    assert x + y == text;
    DriveBody(boundary, [], fields, NO_FIELD);
    assert [] + fields == fields;
    DriveSplit(boundary, START, x, y);
    var c := Drive(boundary, START, x);
    if c.error == NoError || c.error == NeedMore {
      FieldsOnlyGrow(boundary, c.state, c.tail + y);
      if c.state.step == MultipartReader.Step.Eof { AfterTheEnd(boundary, c.state, c.tail + y); }
    }
  }

  lemma {:induction false} AfterTheEnd(boundary: string, s: ReaderState, x: string)
    requires s.step == MultipartReader.Step.Eof && x != ""
    ensures Drive(boundary, s, x) == Config(s, x, UnexpectedBody)
  {
  }

  /** Whatever follows a complete body is refused. */
  lemma {:induction false} TrailingIsRefused(boundary: string, fields: seq<Field>, x: string)
    requires CleanFields(boundary, fields) && x != ""
    ensures var c := Drive(boundary, START, Body(boundary, fields) + x);
      c.error == UnexpectedBody && c.state.step == MultipartReader.Step.Eof && c.state.fields == fields
  {
    hide Drive, CleanFields, Body;
    DriveBody(boundary, [], fields, NO_FIELD);
    assert [] + fields == fields;
    DriveSplit(boundary, START, Body(boundary, fields), x);
    assert "" + x == x;
    AfterTheEnd(boundary, Drive(boundary, START, Body(boundary, fields)).state, x);
  }

  /** Where a boundary line is due, anything as long as one that is none is refused, and so
      is anything but a line break after the closing one. */
  lemma {:induction false} NoBoundaryLineRefused(boundary: string, s: ReaderState, x: string)
    requires s.step == BoundaryLine || s.step == Finished
    requires if s.step == BoundaryLine
      then |x| >= |boundary| + 4 && !("--" + boundary + CRLF <= x) && !("--" + boundary + "--" <= x)
      else |x| >= 2 && !(CRLF <= x)
    ensures Drive(boundary, s, x) == Config(s, x, UnexpectedBody)
  {
  }
}
