/** `util::split`: the tokenizer under the multipart headers, the router, the
    query string and the Range header. */
module Splitter {
  import opened Text

  /** The textbook split: cut at every delimiter, keep every piece. */
  function Pieces(s: string, d: string): (ps: seq<string>)
    requires d != ""
    ensures ps != []
    decreases |s|
  {
    FindFirst(s, d, Find(s, d));
    match Find(s, d)
    case None => [s]
    case Some(k) => [s[..k]] + Pieces(s[k + |d|..], d)
  }

  function DropLeading(s: string, d: string): string {
    if d <= s then s[|d|..] else s
  }

  function DropTrailing(ps: seq<string>): seq<string> {
    if |ps| >= 2 && ps[|ps| - 1] == "" then ps[..|ps| - 1] else ps
  }

  function TrimAll(ps: seq<string>): seq<string>
  {
    if ps == [] then [] else [Trim(ps[0])] + TrimAll(ps[1..])
  }

  /** The tokens of a string that is past its leading delimiter. */
  function Tokens(s: string, d: string): seq<string>
    requires d != ""
  {
    TrimAll(DropTrailing(Pieces(s, d)))
  }

  /** What `util::split` computes, told in terms of the textbook split: one leading
      and one trailing delimiter are forgotten, and every piece is trimmed. */
  function Splits(s: string, d: string): seq<string> {
    if s == "" then []
    else if d == "" then [s]
    else Tokens(DropLeading(s, d), d)
  }

  lemma {:induction false} TokensLast(s: string, d: string)
    requires d != ""
    ensures Find(s, d).None? ==> Tokens(s, d) == [Trim(s)]
    ensures Find(s, d).Some? && Find(s, d).value + |d| == |s| ==> Tokens(s, d) == [Trim(s[..Find(s, d).value])]
  {
    hide FindFrom, Trim;
    FindFirst("", d, None);
    match Find(s, d) {
      case None =>
        assert TrimAll([s]) == [Trim(s)] + TrimAll([]);
      case Some(k) =>
        if k + |d| == |s| {
          assert s[k + |d|..] == "";
          assert Pieces("", d) == [""];
          assert Pieces(s, d) == [s[..k], ""];
          assert DropTrailing([s[..k], ""]) == [s[..k]];
          assert TrimAll([s[..k]]) == [Trim(s[..k])] + TrimAll([]);
        }
    }
  }

  lemma {:induction false} TokensMore(s: string, d: string, k: nat)
    requires d != "" && Find(s, d) == Some(k) && k + |d| < |s|
    ensures Tokens(s, d) == [Trim(s[..k])] + Tokens(s[k + |d|..], d)
  {
    hide FindFrom, Trim;
    var p, ps := s[..k], Pieces(s[k + |d|..], d);
    PiecesNotNothing(s[k + |d|..], d);
    assert Pieces(s, d) == [p] + ps;
    assert DropTrailing([p] + ps) == [p] + DropTrailing(ps);
    assert ([p] + DropTrailing(ps))[1..] == DropTrailing(ps);
  }

  lemma {:induction false} PiecesNotNothing(s: string, d: string)
    requires d != "" && s != ""
    ensures Pieces(s, d) != [""]
  {
    hide FindFrom;
  }

  /** `util::split` (misc.hpp), with its `pos`, its two `break`s and its `continue`. */
  method Split(str: string, delimiter: string) returns (parts: seq<string>)
    ensures parts == Splits(str, delimiter)
  {
    hide Find, FindFrom, Trim, Tokens;
    if str == "" { return []; }
    if delimiter == "" { return [str]; }
    parts := [];
    var pos := 0;
    assert str[0..] == str;
    while true
      invariant pos <= |str|
      invariant pos == 0 ==> parts == []
      invariant !(pos == 0 && delimiter <= str) ==> parts + Tokens(str[pos..], delimiter) == Splits(str, delimiter)
      decreases |str| - pos
    {
      var found := FindFrom(str, delimiter, pos);
      FindFromFirst(str, delimiter, pos);
      if found == Some(0) {
        pos := pos + |delimiter|;
        continue;
      }
      var end := if found.Some? then found.value else |str|;
      TokensStep(str, delimiter, pos, found);
      assert !(pos == 0 && OccursAt(str, delimiter, 0));
      ghost var token, rest := [Trim(str[pos..end])],
        if found.Some? && end + |delimiter| < |str| then Tokens(str[end + |delimiter|..], delimiter) else [];
      assert parts + (token + rest) == (parts + token) + rest;
      parts := parts + [Trim(str[pos..end])];
      if found.None? || end + |delimiter| >= |str| {
        break;
      }
      pos := end + |delimiter|;
    }
  }

  /** One turn of the loop peels one token off. */
  lemma {:induction false} TokensStep(s: string, d: string, pos: nat, found: Option<nat>)
    requires d != "" && pos <= |s| && found == FindFrom(s, d, pos)
    ensures var end := if found.Some? then found.value else |s|;
      && pos <= end <= |s|
      && Tokens(s[pos..], d) == [Trim(s[pos..end])]
         + if found.Some? && end + |d| < |s| then Tokens(s[end + |d|..], d) else []
  {
    hide Find, FindFrom, Trim, Pieces, TrimAll;
    var end := if found.Some? then found.value else |s|;
    FindFromDrop(s, d, pos);
    TokensLast(s[pos..], d);
    assert s[pos..][..end - pos] == s[pos..end] && s[pos..|s|] == s[pos..];
    if found.Some? && end + |d| < |s| {
      TokensMore(s[pos..], d, end - pos);
      assert s[pos..][end - pos + |d|..] == s[end + |d|..];
    }
  }

  // ---- the textbook split and `join` are inverse ----

  lemma {:induction false} JoinPieces(s: string, d: string)
    requires d != ""
    ensures Join(Pieces(s, d), d) == s
    decreases |s|
  {
    match Find(s, d) {
      case None =>
      case Some(k) =>
        FindFirst(s, d, Some(k));
        JoinPieces(s[k + |d|..], d);
        assert s == s[..k] + d + s[k + |d|..];
    }
  }

  /** Splitting a join on a one-character delimiter gives the parts back exactly when
      no part holds the delimiter. */
  lemma {:induction false} PiecesJoin(ps: seq<string>, c: char)
    requires ps != []
    ensures Pieces(Join(ps, [c]), [c]) == ps <==> forall i | 0 <= i < |ps| :: c !in ps[i]
  {
    if forall i | 0 <= i < |ps| :: c !in ps[i] {
      LacksChar(ps[0], c);
      if |ps| > 1 {
        PiecesJoin(ps[1..], c);
        FindAfter(ps[0], [c], Join(ps[1..], [c]));
        var j := Join(ps, [c]);
        assert j[..|ps[0]|] == ps[0] && j[|ps[0]| + 1..] == Join(ps[1..], [c]);
      }
    } else {
      PiecesLack(Join(ps, [c]), [c]);
      forall p: string ensures Lacks(p, [c]) <==> c !in p { LacksChar(p, c); }
    }
  }

  lemma {:induction false} PiecesLack(s: string, d: string)
    requires d != ""
    ensures forall i | 0 <= i < |Pieces(s, d)| :: Lacks(Pieces(s, d)[i], d)
    decreases |s|
  {
    match Find(s, d) {
      case None =>
      case Some(k) =>
        LacksBefore(s, d, k);
        PiecesLack(s[k + |d|..], d);
    }
  }

  /** No token holds the delimiter, and each is trimmed. */
  lemma {:induction false} TokensLack(s: string, d: string)
    requires d != ""
    ensures forall t | t in Splits(s, d) :: Lacks(t, d) && Trimmed(t)
  {
    var body := DropLeading(s, d);
    PiecesLack(body, d);
    TrimAllLack(DropTrailing(Pieces(body, d)), d);
  }

  lemma {:induction false} TrimAllLack(ps: seq<string>, d: string)
    requires forall i | 0 <= i < |ps| :: Lacks(ps[i], d)
    ensures forall t | t in TrimAll(ps) :: Lacks(t, d) && Trimmed(t)
  {
    if ps != [] {
      TrimLacks(ps[0], d);
      TrimAllLack(ps[1..], d);
    }
  }

  lemma {:induction false} TrimLacks(s: string, d: string)
    ensures Trimmed(Trim(s)) && (Lacks(s, d) ==> Lacks(Trim(s), d))
  {
    var l, r := TrimSplits(s);
    if Lacks(s, d) {
      LacksPart(s, d, |l|, |l| + |Trim(s)|);
      assert s[|l|..|l| + |Trim(s)|] == Trim(s);
    }
  }

  lemma {:induction false} TrimAllId(ps: seq<string>)
    requires forall i | 0 <= i < |ps| :: Trimmed(ps[i])
    ensures TrimAll(ps) == ps
  {
    hide Trim;
    if ps != [] {
      TrimId(ps[0]);
      TrimAllId(ps[1..]);
    }
  }

  /** What `split` makes of parts joined by one character: a leading and a trailing empty
      part are forgotten, and the others come back trimmed. */
  lemma {:induction false} SplitsJoin(ps: seq<string>, c: char)
    requires ps != [] && forall i | 0 <= i < |ps| :: c !in ps[i]
    requires |ps| > 1 || ps[0] != ""
    ensures Splits(Join(ps, [c]), [c]) == TrimAll(DropTrailing(if |ps| > 1 && ps[0] == "" then ps[1..] else ps))
  {
    hide Find, FindFrom, Trim, Pieces, TrimAll;
    var s := Join(ps, [c]);
    PiecesJoin(ps, c);
    if |ps| > 1 && ps[0] == "" {
      assert [c] <= s && s[1..] == Join(ps[1..], [c]);
      PiecesJoin(ps[1..], c);
    } else {
      assert s[0] == ps[0][0];
      assert !([c] <= s);
    }
  }

  /** Parts that are neither empty nor padded come back as they were. */
  lemma {:induction false} SplitsTidyJoin(ps: seq<string>, c: char)
    requires ps != [] && forall i | 0 <= i < |ps| :: c !in ps[i] && ps[i] != "" && Trimmed(ps[i])
    ensures Splits(Join(ps, [c]), [c]) == ps
  {
    hide Splits, TrimAll;
    SplitsJoin(ps, c);
    TrimAllId(ps);
  }
}
