/** The boundary travels in the Content-Type header: what `set_form_data_content` writes
    there against what `reader::init` finds, and the whole way of a form from there. */
module MultipartBoundary {
  import opened Text
  import opened Splitter
  import opened MultipartHeader
  import opened MultipartReader
  import opened MultipartWriter
  import opened MultipartRoundTrip

  function ContentTypeFor(boundary: string): string {
    "multipart/form-data; boundary=" + boundary
  }

  lemma {:induction false} PiecesInherit(s: string, d: string, e: string)
    requires d != "" && Lacks(s, e)
    ensures forall p | p in Pieces(s, d) :: Lacks(p, e)
    decreases |s|
  {
    hide FindFrom, Lacks;
    match Find(s, d) {
      case None =>
      case Some(k) =>
        FindFirst(s, d, Some(k));
        LacksPart(s, e, 0, k);
        LacksPart(s, e, k + |d|, |s|);
        assert s[0..k] == s[..k] && s[k + |d|..|s|] == s[k + |d|..];
        PiecesInherit(s[k + |d|..], d, e);
    }
  }

  /** A token holds nothing its string does not hold. */
  lemma {:induction false} SplitsInherit(s: string, d: string, e: string)
    requires d != "" && Lacks(s, e)
    ensures forall p | p in Splits(s, d) :: Lacks(p, e)
  {
    hide Find, FindFrom, Lacks, Trim, Pieces;
    var body := DropLeading(s, d);
    LacksPart(s, e, |s| - |body|, |s|);
    assert s[|s| - |body|..|s|] == body;
    PiecesInherit(body, d, e);
    var ps := DropTrailing(Pieces(body, d));
    forall i | 0 <= i < |ps| ensures Lacks(ps[i], e) { assert ps[i] in Pieces(body, d); }
    TrimAllLack(ps, e);
  }

  /** A boundary that is found is trimmed and holds neither `;` nor `=`. */
  lemma {:induction false} FoundBoundary(parts: seq<string>, found: string)
    requires forall p | p in parts :: Lacks(p, ";")
    requires Trimmed(found) && Lacks(found, ";") && Lacks(found, "=")
    ensures var b := BoundaryIn(parts, found); Trimmed(b) && Lacks(b, ";") && Lacks(b, "=")
    decreases |parts|
  {
    hide Find, FindFrom, Lacks, Trim, Splits;
    if parts != [] {
      var part := Trim(parts[0]);
      assert parts[0] in parts;
      TrimLacks(parts[0], ";");
      var pair := Splits(part, "=");
      if "boundary" <= part && |pair| == 2 {
        assert pair[1] in pair;
        TokensLack(part, "=");
        SplitsInherit(part, "=", ";");
        TrimLacks(pair[1], ";");
        TrimLacks(pair[1], "=");
        FoundBoundary(parts[1..], Trim(pair[1]));
      } else {
        FoundBoundary(parts[1..], found);
      }
    }
  }

  lemma {:induction false} TwoTokens(a: string, c: char, b: string)
    requires a != "" && c !in a && c !in b && b != ""
    ensures Splits(a + [c] + b, [c]) == [Trim(a), Trim(b)]
  {
    hide Find, FindFrom, Trim, Tokens;
    var s := a + [c] + b;
    LacksChar(a, c);
    LacksChar(b, c);
    FindAfter(a, [c], b);
    TokensMore(s, [c], |a|);
    assert s[..|a|] == a && s[|a| + 1..] == b;
    TokensLast(b, [c]);
    assert !([c] <= s) by { assert s[0] == a[0]; }
  }

  lemma {:induction false} ContentTypeParts(boundary: string)
    requires Trimmed(boundary) && ';' !in boundary && boundary != ""
    ensures Splits(ContentTypeFor(boundary), ";") == ["multipart/form-data", "boundary=" + boundary]
  {
    hide Find, FindFrom, Trim, Splits, Lacks;
    var part, trimmed := " boundary=" + boundary, "boundary=" + boundary;
    assert ContentTypeFor(boundary) == "multipart/form-data" + ";" + part;
    TwoTokens("multipart/form-data", ';', part);
    TrimIs(" ", trimmed, "");
    assert " " + trimmed + "" == part;
    TrimId("multipart/form-data");
  }

  lemma {:induction false} BoundaryFound(boundary: string)
    requires Trimmed(boundary) && ';' !in boundary && '=' !in boundary && boundary != ""
    ensures InitBoundary(ContentTypeFor(boundary)) == boundary
  {
    hide Find, FindFrom, Trim, Splits, Lacks, ContentTypeFor;
    var trimmed := "boundary=" + boundary;
    ContentTypeParts(boundary);
    assert trimmed == "boundary" + "=" + boundary;
    assert trimmed[..8] == "boundary";
    TwoTokens("boundary", '=', boundary);
    TrimId(boundary);
    LastPart("multipart/form-data", trimmed, boundary);
  }

  /** The boundary `init` takes from a Content-Type; "" means none, which is `bad_field`. */
  function InitBoundary(contentType: string): string {
    BoundaryIn(Splits(contentType, ";"), "")
  }

  /** Boundaries that survive the header. */
  predicate Announceable(boundary: string) {
    boundary != "" && Trimmed(boundary) && ';' !in boundary && '=' !in boundary
  }

  /** `init` succeeds with the boundary the writer announced if and only if that boundary is
      not empty, is trimmed, and holds neither `;` nor `=`. */
  lemma {:induction false} BoundaryAgreed(boundary: string)
    ensures var b := InitBoundary(ContentTypeFor(boundary));
      b != "" && b == boundary <==> Announceable(boundary)
  {
    hide Find, FindFrom, Trim, Splits, Lacks, BoundaryIn, ContentTypeFor;
    var t := ContentTypeFor(boundary);
    TokensLack(t, ";");
    LacksChar("", ';');
    LacksChar("", '=');
    FoundBoundary(Splits(t, ";"), "");
    LacksChar(boundary, ';');
    LacksChar(boundary, '=');
    if Announceable(boundary) {
      BoundaryFound(boundary);
    }
  }

  /** The whole way of a form. The reader is made from the header the writer's side sends
      and fed the writer's buffers, however they are cut: `init` succeeds with the boundary
      announced, and the parse ends with exactly the fields written, in order, if and only
      if the boundary can be announced, the form has a field, and every field is clean. */
  lemma {:induction false} FormRoundTrip(boundary: string, fields: seq<Field>, chunks: seq<string>)
    requires Flatten(chunks) == Flatten(WriteAll(boundary, fields, WriterState(0, Header)))
    ensures var b := InitBoundary(ContentTypeFor(boundary));
      b != "" && b == boundary && ReadsAs(FeedAll(b, OPENED, chunks), fields)
      <==> Announceable(boundary) && fields != [] && CleanFields(boundary, fields)
  {
    hide InitBoundary, FeedAll, CleanFields, Announceable;
    BoundaryAgreed(boundary);
    RoundTrip(boundary, fields, chunks);
  }

  lemma {:induction false} LastPart(a: string, b: string, boundary: string)
    requires Trimmed(a) && Trimmed(b) && !("boundary" <= a) && "boundary" <= b
    requires |Splits(b, "=")| == 2 && Trim(Splits(b, "=")[1]) == boundary
    ensures BoundaryIn([a, b], "") == boundary
  {
    hide Find, FindFrom, Trim, Splits, Lacks;
    TrimId(a);
    TrimId(b);
    assert [a, b][1..] == [b] && [b][1..] == [];
    assert BoundaryIn([b], "") == boundary;
  }

  /** An empty boundary is announced, but `init` finds none and reports `bad_field`. */
  lemma {:induction false} NoBoundary()
    ensures InitBoundary(ContentTypeFor("")) == ""
  {
    hide Find, FindFrom, Trim, Splits, Lacks;
    var t, part := ContentTypeFor(""), " boundary=";
    assert t == "multipart/form-data" + ";" + part;
    TwoTokens("multipart/form-data", ';', part);
    TrimIs(" ", "boundary=", "");
    assert " " + "boundary=" + "" == part;
    TrimId("multipart/form-data");
    TrimId("boundary=");
    OneToken();
    assert Splits(t, ";") == ["multipart/form-data", "boundary="];
    var b := ["boundary="];
    assert ["multipart/form-data", "boundary="][1..] == b && b[1..] == [];
    assert BoundaryIn(b, "") == "";
  }

  lemma {:induction false} OneToken()
    ensures |Splits("boundary=", "=")| == 1
  {
    hide FindFrom, Trim;
    LacksChar("boundary", '=');
    FindAfter("boundary", "=", "");
    assert "boundary" + "=" + "" == "boundary=";
    TokensLast("boundary=", "=");
    assert "boundary="[0] != '=';
  }

  // ---- other parameters ----

  /** A parameter that names a boundary: `boundary`, perhaps more, one equals sign, a value. */
  ghost predicate Names(part: string, boundary: string) {
    exists t, v :: part == "boundary" + t + "=" + v && '=' !in t && '=' !in v && v != "" && Trim(v) == boundary
  }

  lemma {:induction false} NamedBoundary(part: string, boundary: string, more: seq<string>, found: string)
    requires Trimmed(part) && Names(part, boundary)
    ensures BoundaryIn([part] + more, found) == BoundaryIn(more, boundary)
  {
    hide Find, FindFrom, Trim, Splits, Lacks;
    var t, v :| part == "boundary" + t + "=" + v && '=' !in t && '=' !in v && v != "" && Trim(v) == boundary;
    TwoTokens("boundary" + t, '=', v);
    TrimId(part);
    assert part[..8] == "boundary";
    TrimLacks(v, "=");
    TrimId(boundary);
    assert ([part] + more)[1..] == more;
  }

  /** Parameters that do not begin like the boundary's make no difference. */
  lemma {:induction false} OthersSkipped(parts: seq<string>, found: string)
    requires forall i | 0 <= i < |parts| :: Trimmed(parts[i]) && !("boundary" <= parts[i])
    ensures BoundaryIn(parts, found) == found
    decreases |parts|
  {
    hide Find, FindFrom, Trim, Splits;
    if parts != [] {
      TrimId(parts[0]);
      OthersSkipped(parts[1..], found);
    }
  }

  lemma {:induction false} BoundaryConcat(a: seq<string>, b: seq<string>, found: string)
    ensures BoundaryIn(a + b, found) == BoundaryIn(b, BoundaryIn(a, found))
    decreases |a|
  {
    hide Find, FindFrom, Trim, Splits;
    if a == [] {
      assert a + b == b;
    } else {
      assert (a + b)[1..] == a[1..] + b;
      BoundaryConcat(a[1..], b, if "boundary" <= Trim(a[0]) && |Splits(Trim(a[0]), "=")| == 2
                                then Trim(Splits(Trim(a[0]), "=")[1]) else found);
    }
  }

  /** Parts of a header value joined by semicolons: not empty, not padded, none within. */
  predicate HeaderParts(parts: seq<string>) {
    forall i | 0 <= i < |parts| :: parts[i] != "" && Trimmed(parts[i]) && ';' !in parts[i]
  }

  /** Whatever parameters stand before it and whatever others after it, the last boundary
      given is the one found. */
  lemma {:induction false} LastBoundaryFound(before: seq<string>, part: string, boundary: string, after: seq<string>)
    requires HeaderParts(before + [part] + after) && Names(part, boundary)
    requires forall i | 0 <= i < |after| :: !("boundary" <= after[i])
    ensures InitBoundary(Join(before + [part] + after, ";")) == boundary
  {
    hide Find, FindFrom, Trim, Splits, BoundaryIn, Names, Join;
    var parts := before + [part] + after;
    SplitsTidyJoin(parts, ';');
    assert parts == before + ([part] + after);
    assert parts[|before|] == part;
    assert forall i | 0 <= i < |after| :: parts[|before| + 1 + i] == after[i];
    BoundaryConcat(before, [part] + after, "");
    NamedBoundary(part, boundary, after, BoundaryIn(before, ""));
    OthersSkipped(after, boundary);
  }
}
