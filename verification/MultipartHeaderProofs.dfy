/** Which part headers survive being written by `writer::get` and read by
    `reader::put`: exactly the `Readable` ones. */
module MultipartHeaderProofs {
  import opened Text
  import opened Splitter
  import opened MultipartHeader

  /** Nothing in the field spans a line break, and its content is still empty. */
  predicate OneLine(f: Field) {
    && Lacks(f.name, CRLF) && Lacks(f.filename, CRLF)
    && Lacks(f.contentType, CRLF) && Trimmed(f.contentType) && f.content == ""
  }

  // ---- quoted values ----

  lemma {:induction false} QuoteEndClosed(n: string, t: string, escape: bool)
    ensures QuoteEnd(n + "\"" + t, escape) == |n| <==> QuoteClosed(n, escape)
    decreases n
  {
    var q := n + "\"" + t;
    if n != "" {
      assert q[1..] == n[1..] + "\"" + t;
      QuoteEndClosed(n[1..], t, true);
      QuoteEndClosed(n[1..], t, false);
    }
  }

  /** A parameter whose value is quoted, with white space before its key. */
  lemma {:induction false} ParametersKey(l: string, key: string, q: string)
    requires AllSpace(l) && Trimmed(key) && '=' !in l && '=' !in key
    ensures var end := QuoteEnd(q, false);
      Parameters(l + key + "=\"" + q)
      == [(key, q[..end])] + Parameters(SkipSeparator(if end < |q| then q[end + 1..] else ""))
  {
    hide Find, FindFrom, Trim, QuoteEnd, SkipSeparator;
    var h := l + key + "=\"" + q;
    LacksChar(l + key, '=');
    FindAfter(l + key, "=", "\"" + q);
    assert h == (l + key) + "=" + ("\"" + q);
    TrimIs(l, key, "");
    assert l + key + "" == l + key == h[..|l + key|];
    assert h[|l + key| + 1..] == "\"" + q && h[|l + key| + 1..][1..] == q;
  }

  function Weight(ps: seq<(string, string)>): nat {
    if ps == [] then 0 else |ps[0].0| + 1 + |ps[0].1| + Weight(ps[1..])
  }

  /** The first parameter of a list, and what is left: disjoint parts of the header. */
  ghost predicate Cut(h: string, p: (string, string), rest: string) {
    && Parameters(h) == [p] + Parameters(rest)
    && |p.0| + 1 + |p.1| + |rest| <= |h|
    && (Lacks(h, CRLF) ==> Lacks(p.1, CRLF) && Lacks(rest, CRLF))
  }

  lemma {:induction false} LacksTail(s: string, k: nat)
    requires k <= |s|
    ensures Lacks(s, CRLF) ==> Lacks(s[k..], CRLF)
  {
    hide Lacks;
    if Lacks(s, CRLF) {
      LacksPart(s, CRLF, k, |s|);
      assert s[k..|s|] == s[k..];
    }
  }

  lemma {:induction false} LacksFront(s: string, k: nat)
    requires k <= |s|
    ensures Lacks(s, CRLF) ==> Lacks(s[..k], CRLF)
  {
    hide Lacks;
    if Lacks(s, CRLF) {
      LacksPart(s, CRLF, 0, k);
      assert s[0..k] == s[..k];
    }
  }

  lemma {:induction false} CutQuoted(h: string, eq: nat) returns (p: (string, string), rest: string)
    requires Find(h, "=") == Some(eq) && eq + 1 < |h| && h[eq + 1] == '"'
    ensures Cut(h, p, rest)
  {
    hide Find, FindFrom, Trim, QuoteEnd, SkipSeparator, Lacks;
    FindFirst(h, "=", Some(eq));
    var q := h[eq + 2..];
    assert h[eq + 1..][1..] == q;
    var end := QuoteEnd(q, false);
    var tail := if end < |q| then q[end + 1..] else "";
    assert tail == q[if end < |q| then end + 1 else end..];
    p, rest := (Trim(h[..eq]), q[..end]), SkipSeparator(tail);
    TrimShorter(h[..eq]);
    LacksTail(h, eq + 2);
    LacksFront(q, end);
    LacksTail(q, if end < |q| then end + 1 else end);
    if Lacks(h, CRLF) { SkipSeparatorLacks(tail); }
  }

  lemma {:induction false} CutBare(h: string, eq: nat) returns (p: (string, string), rest: string)
    requires Find(h, "=") == Some(eq) && eq + 1 <= |h| && (eq + 1 < |h| ==> h[eq + 1] != '"')
    ensures Cut(h, p, rest)
  {
    hide Find, FindFrom, Trim, BareEnd, SkipSeparator, Lacks;
    FindFirst(h, "=", Some(eq));
    var v := h[eq + 1..];
    var end := BareEnd(v);
    p, rest := (Trim(h[..eq]), Trim(v[..end])), SkipSeparator(v[end..]);
    TrimShorter(h[..eq]);
    TrimShorter(v[..end]);
    LacksTail(h, eq + 1);
    LacksFront(v, end);
    LacksTail(v, end);
    if Lacks(h, CRLF) {
      TrimLacks(v[..end], CRLF);
      SkipSeparatorLacks(v[end..]);
    }
  }

  /** A list with an equals sign has a first parameter. */
  lemma {:induction false} CutFirst(h: string) returns (p: (string, string), rest: string)
    requires Find(h, "=").Some?
    ensures Cut(h, p, rest)
  {
    hide Find, FindFrom, Cut;
    var eq := Find(h, "=").value;
    FindFirst(h, "=", Some(eq));
    if eq + 1 < |h| && h[eq + 1] == '"' {
      p, rest := CutQuoted(h, eq);
    } else {
      p, rest := CutBare(h, eq);
    }
  }

  /** Keys, values and their `=` are disjoint parts of the header. */
  lemma {:induction false} ParametersWeight(h: string)
    ensures Weight(Parameters(h)) <= |h|
    decreases |h|
  {
    hide FindFrom, Lacks;
    if Find(h, "=").Some? {
      hide Find, Parameters;
      var p, rest := CutFirst(h);
      ParametersWeight(rest);
      assert ([p] + Parameters(rest))[1..] == Parameters(rest);
    }
  }

  /** Values are cut out of the header: they hold no line break it does not hold. */
  lemma {:induction false} ParametersLack(h: string)
    requires Lacks(h, CRLF)
    ensures forall p | p in Parameters(h) :: Lacks(p.1, CRLF)
    decreases |h|
  {
    hide FindFrom, Lacks;
    if Find(h, "=").Some? {
      hide Find, Parameters;
      var p, rest := CutFirst(h);
      ParametersLack(rest);
    }
  }

  lemma {:induction false} TrimShorter(s: string)
    ensures |Trim(s)| <= |s|
  {
    var l, r := TrimSplits(s);
  }

  /** A parameter list that sets the name or the filename is at least that long. */
  lemma {:induction false} ApplyWeight(f: Field, ps: seq<(string, string)>)
    ensures var g := ApplyParameters(f, ps);
      && g.contentType == f.contentType && g.content == f.content
      && (if g.name != f.name then 5 + |g.name| else 0)
         + (if g.filename != f.filename then 9 + |g.filename| else 0) <= Weight(ps)
    decreases ps
  {
    if ps != [] {
      ApplyWeight(ApplyParameter(f, ps[0]), ps[1..]);
    }
  }

  /** The printed parameters are read back exactly when both values close their quotes. */
  lemma {:induction false} ParametersExact(f: Field, g: Field)
    requires g == ApplyParameters(NO_FIELD, Parameters(ParameterText(f)))
    ensures g.name == f.name && g.filename == f.filename
      <==> QuoteClosed(f.name, false) && QuoteClosed(f.filename, false)
    ensures g.contentType == "" && g.content == ""
  {
    hide Find, FindFrom, Trim, QuoteEnd, SkipSeparator, Parameters, Weight;
    var t := if f.filename != "" then "; " + Quoted("filename", f.filename) else "";
    var q := f.name + "\"" + t;
    assert ParameterText(f) == " " + "name" + "=\"" + q;
    ParametersKey(" ", "name", q);
    QuoteEndClosed(f.name, t, false);
    var end := QuoteEnd(q, false);
    var rest := SkipSeparator(if end < |q| then q[end + 1..] else "");
    var named := NO_FIELD.(name := q[..end]);
    AfterFirst(NO_FIELD, ("name", q[..end]), Parameters(rest));
    ApplyWeight(named, Parameters(rest));
    ParametersWeight(rest);
    if QuoteClosed(f.name, false) {
      assert q[..end] == f.name && q[end + 1..] == t;
      if f.filename != "" {
        FilenameExact(f, named, g);
      } else {
        ParametersOfNothing();
      }
    }
  }

  lemma {:induction false} AfterFirst(f: Field, p: (string, string), ps: seq<(string, string)>)
    ensures ApplyParameters(f, [p] + ps) == ApplyParameters(ApplyParameter(f, p), ps)
  {
    assert ([p] + ps)[1..] == ps;
  }

  lemma {:induction false} ParametersOfNothing()
    ensures Parameters(SkipSeparator("")) == []
  {
    FindFirst("", "=", None);
  }

  lemma {:induction false} SkipsToKey(key: string, u: string)
    requires key != "" && !Space(key[0])
    ensures SkipSeparator("; " + key + u) == key + u
  {
    var a, b := "; " + key + u, " " + key + u;
    assert a[0] == ';' && a[1..] == b;
    assert b[0] == ' ' && b[1..] == key + u;
    assert (key + u)[0] == key[0] && SkipSpaces(key + u) == key + u;
    assert SkipSpaces(b) == SkipSpaces(b[1..]);
  }

  lemma {:induction false} FilenameExact(f: Field, named: Field, g: Field)
    requires f.filename != "" && named == NO_FIELD.(name := f.name)
    requires g == ApplyParameters(named, Parameters(SkipSeparator("; " + Quoted("filename", f.filename))))
    ensures g.filename == f.filename && g.name == f.name <==> QuoteClosed(f.filename, false)
  {
    hide Find, FindFrom, Trim, QuoteEnd, SkipSeparator, Parameters, Weight;
    var q := f.filename + "\"";
    assert "; " + Quoted("filename", f.filename) == "; " + "filename" + ("=\"" + q);
    SkipsToKey("filename", "=\"" + q);
    assert "filename" + ("=\"" + q) == "" + "filename" + "=\"" + q;
    ParametersKey("", "filename", q);
    QuoteEndClosed(f.filename, "", false);
    assert f.filename + "\"" + "" == q;
    var end := QuoteEnd(q, false);
    var rest := SkipSeparator(if end < |q| then q[end + 1..] else "");
    var filed := named.(filename := q[..end]);
    AfterFirst(named, ("filename", q[..end]), Parameters(rest));
    ApplyWeight(filed, Parameters(rest));
    ParametersWeight(rest);
    if QuoteClosed(f.filename, false) {
      assert q[end + 1..] == "";
      ParametersOfNothing();
    }
  }

  // ---- header lines ----

  /** One line off the front of a header block. */
  lemma {:induction false} SplitsLine(line: string, rest: string)
    requires Lacks(line, CRLF) && rest != ""
    ensures Tokens(line + CRLF + rest, CRLF) == [Trim(line)] + Tokens(rest, CRLF)
  {
    hide Find, FindFrom, Trim, Tokens;
    var s := line + CRLF + rest;
    FindAfter(line, CRLF, rest);
    TokensMore(s, CRLF, |line|);
    assert s[..|line|] == line && s[|line| + 2..] == rest;
  }

  lemma {:induction false} SplitsBlank()
    ensures Tokens(CRLF, CRLF) == [""]
  {
    FindFirst(CRLF, CRLF, Some(0));
    TokensLast(CRLF, CRLF);
  }

  lemma {:induction false} LacksConcat(a: string, b: string)
    requires Lacks(a, CRLF) && Lacks(b, CRLF)
    requires a == "" || a[|a| - 1] != '\r'
    ensures Lacks(a + b, CRLF)
  {
    hide Find, FindFrom;
    LacksAll(a, CRLF);
    LacksAll(b, CRLF);
    forall j: nat | j <= |a + b| ensures !OccursAt(a + b, CRLF, j) {
      if j + 2 <= |a| {
        OccursAtExtend(a, b, CRLF, j);
      } else if j >= |a| {
        OccursAtDrop(a + b, CRLF, |a|, j - |a|);
        assert (a + b)[|a|..] == b;
      } else if j + 2 <= |a + b| {
        assert (a + b)[j..j + 2][0] == a[|a| - 1];
      }
    }
    LacksAll(a + b, CRLF);
  }

  lemma {:induction false} LacksSimple(s: string)
    requires '\r' !in s
    ensures Lacks(s, CRLF)
  {
    LacksAll(s, CRLF);
    forall j: nat | j <= |s| ensures !OccursAt(s, CRLF, j) {
      if j + 2 <= |s| { assert s[j..j + 2][0] == s[j]; }
    }
  }

  lemma {:induction false} QuotedLacks(key: string, v: string)
    requires '\r' !in key && Lacks(v, CRLF)
    ensures Lacks(Quoted(key, v), CRLF)
  {
    hide Find, FindFrom, Lacks;
    LacksSimple(key + "=\"");
    LacksConcat(key + "=\"", v);
    LacksSimple("\"");
    var s := key + "=\"" + v;
    LacksQuoteAfter(s);
  }

  lemma {:induction false} LacksQuoteAfter(s: string)
    requires Lacks(s, CRLF)
    ensures Lacks(s + "\"", CRLF)
  {
    hide Find, FindFrom;
    LacksAll(s, CRLF);
    forall j: nat | j <= |s| + 1 ensures !OccursAt(s + "\"", CRLF, j) {
      if j + 2 <= |s| {
        OccursAtExtend(s, "\"", CRLF, j);
      } else if j + 2 <= |s| + 1 {
        assert (s + "\"")[j..j + 2][1] == '"';
      }
    }
    LacksAll(s + "\"", CRLF);
  }

  lemma {:induction false} DispositionLacks(f: Field)
    requires Lacks(f.name, CRLF) && Lacks(f.filename, CRLF)
    ensures Lacks(DispositionLine(f), CRLF)
    ensures Trimmed(DispositionLine(f))
  {
    hide Find, FindFrom, Lacks;
    var head := "Content-Disposition: form-data; ";
    var name := Quoted("name", f.name);
    QuotedLacks("name", f.name);
    LacksSimple(head);
    LacksConcat(head, name);
    if f.filename != "" {
      var filename := Quoted("filename", f.filename);
      QuotedLacks("filename", f.filename);
      LacksSimple("; ");
      LacksConcat("; ", filename);
      LacksConcat(head + name, "; " + filename);
      assert DispositionLine(f) == (head + name) + ("; " + filename);
    } else {
      assert DispositionLine(f) == head + name;
    }
  }

  lemma {:induction false} TypeLacks(t: string)
    requires Lacks(t, CRLF) && Trimmed(t) && t != ""
    ensures Lacks("Content-Type: " + t, CRLF) && Trimmed("Content-Type: " + t)
  {
    LacksSimple("Content-Type: ");
    LacksConcat("Content-Type: ", t);
  }

  lemma {:induction false} DispositionStarts(f: Field)
    ensures DispositionLine(f) != "" && DispositionLine(f)[0] == 'C'
  {
  }

  lemma {:induction false} SplitsHeader(f: Field)
    requires OneLine(f.(content := ""))
    ensures Splits(HeaderText(f), CRLF)
      == [DispositionLine(f)] + (if f.contentType != "" then ["Content-Type: " + f.contentType] else []) + [""]
  {
    hide Find, FindFrom, Trim, Tokens, Lacks, DispositionLine;
    var line := DispositionLine(f);
    DispositionLacks(f);
    TrimId(line);
    SplitsBlank();
    DispositionStarts(f);
    assert HeaderText(f)[0] == 'C';
    if f.contentType != "" {
      var typed := "Content-Type: " + f.contentType;
      TypeLacks(f.contentType);
      TrimId(typed);
      assert HeaderText(f) == line + CRLF + (typed + CRLF + CRLF);
      SplitsLine(line, typed + CRLF + CRLF);
      SplitsLine(typed, CRLF);
    } else {
      assert HeaderText(f) == line + CRLF + CRLF;
      SplitsLine(line, CRLF);
    }
  }

  /** A `key: value` line. */
  lemma {:induction false} ItemOf(key: string, value: string, rest: seq<string>)
    requires key != "" && Trimmed(key) && ':' !in key && Trimmed(value)
    ensures HeaderItems([key + ": " + value] + rest) == match HeaderItems(rest)
      case None => None
      case Some(items) => Some([(key, value)] + items)
  {
    hide Find, FindFrom, Trim, Lacks;
    var line := key + ": " + value;
    LacksChar(key, ':');
    FindAfter(key, ":", " " + value);
    assert line == key + ":" + (" " + value);
    assert line[..|key|] == key && line[|key| + 1..] == " " + value;
    TrimId(key);
    TrimIs(" ", value, "");
    assert " " + value + "" == " " + value;
    assert ([line] + rest)[1..] == rest;
  }

  lemma {:induction false} ItemsOfHeader(f: Field)
    requires OneLine(f.(content := ""))
    ensures HeaderItems(Splits(HeaderText(f), CRLF))
      == Some([("Content-Disposition", "form-data;" + ParameterText(f))]
         + if f.contentType != "" then [("Content-Type", f.contentType)] else [])
  {
    hide Find, FindFrom, Trim, Splits, Lacks, ParameterText, HeaderText, HeaderItems;
    SplitsHeader(f);
    var value := "form-data;" + ParameterText(f);
    assert Trimmed(value) by { ParameterTextEnds(f); }
    assert DispositionLine(f) == "Content-Disposition" + ": " + value;
    assert HeaderItems([""]) == Some([]) by { ItemsOfBlank(); }
    if f.contentType != "" {
      ItemOf("Content-Type", f.contentType, [""]);
      assert [("Content-Type", f.contentType)] + [] == [("Content-Type", f.contentType)];
      var typed := "Content-Type: " + f.contentType;
      assert typed == "Content-Type" + ": " + f.contentType;
      ItemOf("Content-Disposition", value, [typed] + [""]);
      assert [DispositionLine(f)] + [typed] + [""] == [DispositionLine(f)] + ([typed] + [""]);
    } else {
      ItemOf("Content-Disposition", value, [""]);
      assert [DispositionLine(f)] + [] + [""] == [DispositionLine(f)] + [""];
    }
  }

  lemma {:induction false} ItemsOfBlank()
    ensures HeaderItems([""]) == Some([])
  {
  }

  lemma {:induction false} ParameterTextEnds(f: Field)
    ensures var t := ParameterText(f); t != "" && t[|t| - 1] == '"'
  {
  }

  /** A block whose lines are intact is read back exactly when its quotes close. */
  lemma {:induction false} HeaderTextExact(f: Field)
    requires OneLine(f.(content := ""))
    ensures HeaderField(HeaderText(f)).Some?
    ensures HeaderField(HeaderText(f)) == Some(f.(content := "")) <==> Readable(f)
    ensures HeaderField(HeaderText(f)).value.(content := f.content) == f ==> Readable(f)
  {
    hide Find, FindFrom, Trim, Splits, Parameters, Lacks, ParameterText, HeaderText, HeaderItems, ApplyParameters;
    ItemsOfHeader(f);
    var t := ParameterText(f);
    var value := "form-data;" + t;
    LacksSimpleChar();
    FindAfter("form-data", ";", t);
    assert value == "form-data" + ";" + t;
    assert value[..9] == "form-data" && value[10..] == t;
    TrimId("form-data");
    var g := ApplyParameters(NO_FIELD, Parameters(t));
    ParametersExact(f, g);
    assert ApplyItem(NO_FIELD, ("Content-Disposition", value)) == Some(g);
    if f.contentType != "" {
      ItemsTwo(NO_FIELD, ("Content-Disposition", value), ("Content-Type", f.contentType));
    } else {
      ItemsOne(NO_FIELD, ("Content-Disposition", value));
    }
  }

  lemma {:induction false} LacksSimpleChar()
    ensures Lacks("form-data", ";")
  {
    LacksChar("form-data", ';');
  }

  lemma {:induction false} ItemsOne(f: Field, a: (string, string))
    ensures ApplyItems(f, [a] + []) == ApplyItem(f, a)
  {
    hide ApplyItem;
    assert ([a] + [])[1..] == [];
  }

  lemma {:induction false} ItemsTwo(f: Field, a: (string, string), b: (string, string))
    ensures ApplyItems(f, [a] + [b]) == match ApplyItem(f, a) case None => None case Some(g) => ApplyItem(g, b)
  {
    hide ApplyItem;
    assert ([a] + [b])[1..] == [b];
    if ApplyItem(f, a).Some? {
      var g := ApplyItem(f, a).value;
      assert [b][0] == b && [b][1..] == [];
      assert ApplyItems(g, [b]) == ApplyItem(g, b);
    }
  }

  // ---- what a header block can yield ----

  lemma {:induction false} SkipSpacesSuffix(h: string)
    ensures SkipSpaces(h) == h[|h| - |SkipSpaces(h)|..]
  {
    if h != "" && Space(h[0]) { SkipSpacesSuffix(h[1..]); }
  }

  lemma {:induction false} SkipSeparatorLacks(h: string)
    requires Lacks(h, CRLF)
    ensures Lacks(SkipSeparator(h), CRLF)
  {
    hide Find, FindFrom, Lacks;
    var t := if h != "" && h[0] == ';' then h[1..] else h;
    LacksPart(h, CRLF, |h| - |t|, |h|);
    assert h[|h| - |t|..|h|] == t;
    SkipSpacesSuffix(t);
    LacksPart(t, CRLF, |t| - |SkipSpaces(t)|, |t|);
    assert t[|t| - |SkipSpaces(t)|..|t|] == SkipSpaces(t);
  }

  lemma {:induction false} ApplyParametersOneLine(f: Field, ps: seq<(string, string)>)
    requires OneLine(f) && forall p | p in ps :: Lacks(p.1, CRLF)
    ensures OneLine(ApplyParameters(f, ps))
    decreases ps
  {
    hide Lacks;
    if ps != [] {
      assert ps[0] in ps;
      ApplyParametersOneLine(ApplyParameter(f, ps[0]), ps[1..]);
    }
  }

  lemma {:induction false} ApplyItemsOneLine(f: Field, items: seq<(string, string)>)
    requires OneLine(f) && forall t | t in items :: Lacks(t.1, CRLF) && Trimmed(t.1)
    ensures ApplyItems(f, items).Some? ==> OneLine(ApplyItems(f, items).value)
    decreases items
  {
    hide Find, FindFrom, Trim, Lacks, Parameters, OneLine, ApplyParameters, ApplyItem;
    if items != [] && ApplyItem(f, items[0]).Some? {
      assert items[0] in items;
      ApplyItemOneLine(f, items[0]);
      ApplyItemsOneLine(ApplyItem(f, items[0]).value, items[1..]);
    }
  }

  lemma {:induction false} ApplyItemOneLine(f: Field, item: (string, string))
    requires OneLine(f) && Lacks(item.1, CRLF) && Trimmed(item.1)
    ensures ApplyItem(f, item).Some? ==> OneLine(ApplyItem(f, item).value)
  {
    hide Find, FindFrom, Trim, Lacks, Parameters;
    if item.0 == "Content-Disposition" && ApplyItem(f, item).Some? {
      var k := Find(item.1, ";").value;
      FindFirst(item.1, ";", Some(k));
      LacksPart(item.1, CRLF, k + 1, |item.1|);
      assert item.1[k + 1..|item.1|] == item.1[k + 1..];
      ParametersLack(item.1[k + 1..]);
      ApplyParametersOneLine(f, Parameters(item.1[k + 1..]));
    }
  }

  lemma {:induction false} HeaderItemsOneLine(lines: seq<string>)
    requires forall line | line in lines :: Lacks(line, CRLF)
    ensures HeaderItems(lines).Some? ==> forall t | t in HeaderItems(lines).value :: Lacks(t.1, CRLF) && Trimmed(t.1)
  {
    hide Find, FindFrom, Trim, Lacks;
    if lines != [] {
      HeaderItemsOneLine(lines[1..]);
      var line := lines[0];
      assert line in lines;
      match Find(line, ":") {
        case None =>
        case Some(k) =>
          FindFirst(line, ":", Some(k));
          LacksPart(line, CRLF, k + 1, |line|);
          assert line[k + 1..|line|] == line[k + 1..];
          TrimLacks(line[k + 1..], CRLF);
      }
    }
  }

  lemma {:induction false} HeaderFieldOneLine(header: string)
    ensures HeaderField(header).Some? ==> OneLine(HeaderField(header).value)
  {
    hide Find, FindFrom, Trim, Lacks, Splits, HeaderItems, ApplyItems;
    TokensLack(header, CRLF);
    var lines := Splits(header, CRLF);
    HeaderItemsOneLine(lines);
    assert OneLine(NO_FIELD) by { LacksSimple(""); }
    match HeaderItems(lines) {
      case None =>
      case Some(items) => ApplyItemsOneLine(NO_FIELD, items);
    }
  }

  // ---- where the block ends ----

  lemma {:induction false} LinesLackBlank(f: Field)
    requires OneLine(f.(content := ""))
    ensures Lacks(HeaderLines(f), BLANK)
    ensures HeaderLines(f) != "" && !Space(HeaderLines(f)[|HeaderLines(f)| - 1])
  {
    hide Find, FindFrom, Lacks, DispositionLine;
    var line := DispositionLine(f);
    DispositionLacks(f);
    DispositionStarts(f);
    if f.contentType != "" {
      TypeLacks(f.contentType);
      TwoLinesLackBlank(line, "Content-Type: " + f.contentType);
      assert HeaderLines(f) == line + CRLF + ("Content-Type: " + f.contentType);
    } else {
      assert HeaderLines(f) == line;
      LacksAll(line, CRLF);
      forall j: nat | j <= |line| ensures !OccursAt(line, BLANK, j) {
        if j + 4 <= |line| { assert line[j..j + 2] == line[j..j + 4][..2]; assert !OccursAt(line, CRLF, j); }
      }
      LacksAll(line, BLANK);
    }
  }

  lemma {:induction false} TwoLinesLackBlank(a: string, b: string)
    requires Lacks(a, CRLF) && Lacks(b, CRLF) && b != "" && b[0] != '\r'
    ensures Lacks(a + CRLF + b, BLANK)
  {
    hide Find, FindFrom, Lacks;
    var s := a + CRLF + b;
    LacksAll(a, CRLF);
    LacksAll(b, CRLF);
    FindAfter(a, CRLF, b);
    FindFirst(s, CRLF, Some(|a|));
    assert s[|a| + 2..] == b;
    forall j: nat | j <= |s| ensures !OccursAt(s, BLANK, j) {
      if j + 4 <= |s| && s[j..j + 4] == BLANK {
        assert s[j..j + 4][2] == s[j + 2] && s[j..j + 4][0] == s[j];
        assert s[j..j + 2] == s[j..j + 4][..2] && OccursAt(s, CRLF, j);
        assert j != |a| + 1 && j != |a|;
        OccursAtDrop(s, CRLF, |a| + 2, j - |a| - 2);
      }
    }
    LacksAll(s, BLANK);
  }

  /** The reader cuts a header block of intact lines where the writer ended it. */
  lemma {:induction false} HeaderEnds(f: Field, rest: string)
    requires OneLine(f.(content := ""))
    ensures Find(HeaderText(f) + rest, BLANK) == Some(|HeaderLines(f)|)
  {
    hide Find, FindFrom, Lacks, HeaderLines;
    LinesLackBlank(f);
    FindAfter(HeaderLines(f), BLANK, rest);
  }

  lemma {:induction false} HeaderFound(f: Field, rest: string)
    ensures Find(HeaderText(f) + rest, BLANK).Some?
    ensures Find(HeaderText(f) + rest, BLANK).value + 4 <= |HeaderText(f) + rest|
  {
    hide HeaderLines;
    var t := HeaderText(f) + rest;
    var n := |HeaderLines(f)|;
    FindFirst(t, BLANK, Find(t, BLANK));
    assert t[n..n + 4] == BLANK && OccursAt(t, BLANK, n);
  }

  /** The header theorem: reading back what was written, whatever follows it, gives the
      same name, filename and content type exactly when the field is readable. */
  lemma {:induction false} HeaderExact(f: Field, rest: string)
    ensures Find(HeaderText(f) + rest, BLANK).Some?
    ensures var k := Find(HeaderText(f) + rest, BLANK).value;
      && k + 4 <= |HeaderText(f) + rest|
      && (Readable(f) ==> k + 4 == |HeaderText(f)|)
      && (HeaderField((HeaderText(f) + rest)[..k + 4]) == Some(f.(content := "")) <==> Readable(f))
  {
    hide Find, FindFrom, Lacks, HeaderLines, HeaderField;
    HeaderFound(f, rest);
    var t := HeaderText(f) + rest;
    var k := Find(t, BLANK).value;
    HeaderFieldOneLine(t[..k + 4]);
    if Readable(f) || HeaderField(t[..k + 4]) == Some(f.(content := "")) {
      HeaderEnds(f, rest);
      assert t[..k + 4] == HeaderText(f);
      HeaderTextExact(f);
    }
  }
}
