/** `html::query_params`: a multimap written as `key=value&...` and read back. */
module QueryParams {
  import opened Text
  import opened Splitter
  import opened UrlCodec

  type Pair = (string, string)

  // ---- reading ----

  /** The parts of a query string that are decoded do not end in the middle of an escape. */
  predicate ItemDecodable(item: string) {
    var kv := Splits(item, "=");
    (|kv| == 1 ==> Decodable(kv[0])) && (|kv| == 2 ==> Decodable(kv[0]) && Decodable(kv[1]))
  }

  predicate QueryDecodable(items: seq<string>) {
    forall i | 0 <= i < |items| :: ItemDecodable(items[i])
  }

  /** One `key=value` item; one with two or more `=` inside is dropped. */
  function PairsOf(item: string): seq<Pair>
    requires ItemDecodable(item)
  {
    var kv := Splits(item, "=");
    if |kv| == 1 then [(Decoded(kv[0]), "")]
    else if |kv| == 2 then [(Decoded(kv[0]), Decoded(kv[1]))]
    else []
  }

  function AllPairs(items: seq<string>): seq<Pair>
    requires QueryDecodable(items)
  {
    if items == [] then [] else PairsOf(items[0]) + AllPairs(items[1..])
  }

  function Items(content: string): seq<string> {
    if content == "" then [] else Splits(content, "&")
  }

  // ---- writing ----

  function Token(p: Pair): string {
    Encoded(p.0) + "=" + Encoded(p.1)
  }

  function PairTokens(pairs: seq<Pair>): (r: seq<string>)
    ensures |r| == |pairs|
  {
    if pairs == [] then [] else [Token(pairs[0])] + PairTokens(pairs[1..])
  }

  function Written(pairs: seq<Pair>): string {
    Join(PairTokens(pairs), "&")
  }

  // ---- the container ----

  class Params {
    /** `std::unordered_multimap`: no order among its pairs. */
    var params: multiset<Pair>

    constructor ()
      ensures params == multiset{}
    {
      params := multiset{};
    }

    method Add(key: string, value: string)
      modifies this
      ensures params == old(params) + multiset{(key, value)}
    {
      params := params + multiset{(key, value)};
    }

    method Decode(content: string)
      requires QueryDecodable(Items(content))
      modifies this
      ensures params == multiset(AllPairs(Items(content)))
    {
      hide Splits, Decoded, Decodable, AllPairs;
      params := multiset{};
      AllPairsEnd([]);
      if content == "" { return; }
      var items := Split(content, "&");
      var i := 0;
      assert items[0..] == items;
      while i < |items|
        invariant i <= |items|
        invariant params + multiset(AllPairs(items[i..])) == multiset(AllPairs(items))
      {
        var item := items[i];
        AllPairsStep(items, i);
        var keyVal := Split(item, "=");
        if |keyVal| == 1 {
          var key := UrlDecode(keyVal[0]);
          params := params + multiset{(key, "")};
        } else if |keyVal| == 2 {
          var key := UrlDecode(keyVal[0]);
          var val := UrlDecode(keyVal[1]);
          params := params + multiset{(key, val)};
        }
        i := i + 1;
      }
      AllPairsEnd(items);
    }

    /** The order in which the pairs are visited is the container's own. */
    method Encode() returns (encoded: string)
      ensures exists order: seq<Pair> :: multiset(order) == params && encoded == Written(order)
    {
      hide Join, Encoded;
      var tokens := [];
      ghost var order: seq<Pair> := [];
      var rest := params;
      while rest != multiset{}
        invariant multiset(order) + rest == params
        invariant tokens == PairTokens(order)
        decreases |rest|
      {
        var item :| item in rest;
        rest := rest - multiset{item};
        var key := UrlEncode(item.0);
        var value := UrlEncode(item.1);
        TokensSnoc(order, item);
        tokens := tokens + [key + "=" + value];
        order := order + [item];
      }
      encoded := Join(tokens, "&");
      assert multiset(order) == params && encoded == Written(order);
    }
  }

  lemma {:induction false} AllPairsStep(items: seq<string>, i: nat)
    requires i < |items| && QueryDecodable(items)
    ensures QueryDecodable(items[i..]) && QueryDecodable(items[i + 1..]) && ItemDecodable(items[i])
    ensures multiset(AllPairs(items[i..])) == multiset(PairsOf(items[i])) + multiset(AllPairs(items[i + 1..]))
  {
    hide PairsOf, ItemDecodable;
    assert items[i..][1..] == items[i + 1..];
  }

  lemma {:induction false} AllPairsEnd(items: seq<string>)
    ensures items[|items|..] == [] && AllPairs([]) == []
  {
  }

  lemma {:induction false} TokensSnoc(pairs: seq<Pair>, p: Pair)
    ensures PairTokens(pairs + [p]) == PairTokens(pairs) + [Token(p)]
  {
    if pairs == [] {
      assert [] + [p] == [p] && [p][1..] == [];
    } else {
      assert (pairs + [p])[1..] == pairs[1..] + [p];
      TokensSnoc(pairs[1..], p);
    }
  }

  // ---- the round trip ----

  predicate BytePairs(pairs: seq<Pair>) {
    forall i | 0 <= i < |pairs| :: Bytes(pairs[i].0) && Bytes(pairs[i].1)
  }

  /** What one pair comes back as: spaces as `+`, and under an empty key the value takes
      the place of the key. */
  function Returned(p: Pair): Pair {
    if p.0 == "" then (PlusForSpace(p.1), "") else (PlusForSpace(p.0), PlusForSpace(p.1))
  }

  function AllReturned(pairs: seq<Pair>): (r: seq<Pair>)
    ensures |r| == |pairs| && forall i | 0 <= i < |pairs| :: r[i] == Returned(pairs[i])
  {
    if pairs == [] then [] else [Returned(pairs[0])] + AllReturned(pairs[1..])
  }

  predicate Plain(s: string) {
    forall i | 0 <= i < |s| :: s[i] != '&' && s[i] != '=' && !Space(s[i])
  }

  lemma {:induction false} EncodedPlain(s: string)
    ensures Plain(Encoded(s)) && (Encoded(s) == "" <==> s == "")
  {
    EncodedAlphabet(s);
  }

  lemma {:induction false} PlainTrimmed(s: string)
    requires Plain(s)
    ensures Trim(s) == s
  {
    TrimId(s);
  }

  /** How `split` cuts `k=v` when neither side needs quoting. */
  lemma {:induction false} SplitsToken(k: string, v: string)
    requires Plain(k) && Plain(v)
    ensures Splits(k + "=" + v, "=") == if k == "" || v == "" then [k + v] else [k, v]
  {
    hide Find, FindFrom, Trim, Tokens;
    var t := k + "=" + v;
    LacksChar(k, '=');
    LacksChar(v, '=');
    PlainTrimmed(k);
    PlainTrimmed(v);
    if k == "" {
      assert t == "=" + v && t[1..] == v && k + v == v;
      TokensLast(v, "=");
    } else {
      FindAfter(k, "=", v);
      assert t[0] == k[0];
      assert t[..|k|] == k && t[|k| + 1..] == v;
      if v == "" {
        assert k + v == k;
        TokensLast(t, "=");
      } else {
        TokensMore(t, "=", |k|);
        TokensLast(v, "=");
      }
    }
  }

  lemma {:induction false} TokenReturns(p: Pair)
    requires Bytes(p.0) && Bytes(p.1)
    ensures ItemDecodable(Token(p)) && PairsOf(Token(p)) == [Returned(p)]
  {
    hide Splits, Decoded, Decodable, Encoded, PlusForSpace;
    EncodedPlain(p.0);
    EncodedPlain(p.1);
    SplitsToken(Encoded(p.0), Encoded(p.1));
    DecodeEncode(p.0);
    DecodeEncode(p.1);
    assert "" + Encoded(p.1) == Encoded(p.1) && Encoded(p.0) + "" == Encoded(p.0);
    PlusForNothing();
  }

  lemma {:induction false} PlusForNothing()
    ensures PlusForSpace("") == ""
  {
  }

  lemma {:induction false} TokensReturn(pairs: seq<Pair>)
    requires BytePairs(pairs)
    ensures QueryDecodable(PairTokens(pairs)) && AllPairs(PairTokens(pairs)) == AllReturned(pairs)
  {
    hide ItemDecodable, PairsOf, Returned, Token;
    if pairs != [] {
      TokenReturns(pairs[0]);
      TokensReturn(pairs[1..]);
      assert PairTokens(pairs)[1..] == PairTokens(pairs[1..]);
      forall i | 0 <= i < |pairs| ensures ItemDecodable(PairTokens(pairs)[i]) {
        if i > 0 { assert PairTokens(pairs)[i] == PairTokens(pairs[1..])[i - 1]; }
      }
    }
  }

  lemma {:induction false} TokenShape(p: Pair)
    ensures var t := Token(p); t != "" && '&' !in t && Trimmed(t) && t[0] != '&'
  {
    EncodedPlain(p.0);
    EncodedPlain(p.1);
  }

  lemma {:induction false} TokensShape(pairs: seq<Pair>)
    ensures forall i | 0 <= i < |pairs| :: PairTokens(pairs)[i] == Token(pairs[i])
  {
    if pairs != [] { TokensShape(pairs[1..]); }
  }

  lemma {:induction false} JoinStarts(ps: seq<string>, d: string)
    requires ps != [] && ps[0] != ""
    ensures Join(ps, d) != "" && Join(ps, d)[0] == ps[0][0]
  {
  }

  /** The written string is cut back into the tokens it was joined from. */
  lemma {:induction false} ItemsOfWritten(pairs: seq<Pair>)
    ensures Items(Written(pairs)) == PairTokens(pairs)
  {
    hide Find, FindFrom, Trim, Token, Pieces, Join;
    var ts := PairTokens(pairs);
    if pairs == [] {
      JoinNothing();
    } else {
      TokensShape(pairs);
      forall i | 0 <= i < |ts| ensures ts[i] != "" && '&' !in ts[i] && Trimmed(ts[i]) && ts[i][0] != '&' {
        TokenShape(pairs[i]);
      }
      JoinStarts(ts, "&");
      PiecesJoin(ts, '&');
      assert ts[|ts| - 1] != "";
      TrimAllId(ts);
    }
  }

  lemma {:induction false} JoinNothing()
    ensures Join([], "&") == ""
  {
  }

  /** A pair that comes back as itself. */
  predicate Faithful(p: Pair) {
    ' ' !in p.0 && ' ' !in p.1 && (p.0 == "" ==> p.1 == "")
  }

  /** Reading what was written gives every pair back as `Returned` says, in order. */
  lemma {:induction false} DecodeWritten(pairs: seq<Pair>)
    requires BytePairs(pairs)
    ensures QueryDecodable(Items(Written(pairs)))
    ensures AllPairs(Items(Written(pairs))) == AllReturned(pairs)
  {
    hide Items, Written, PairTokens, ItemDecodable, PairsOf, Returned;
    ItemsOfWritten(pairs);
    TokensReturn(pairs);
  }

  lemma {:induction false} ReturnedFaithful(p: Pair, q: Pair)
    ensures Faithful(Returned(q))
    ensures Faithful(p) ==> Returned(p) == p
  {
    if Faithful(p) { assert PlusForSpace(p.0) == p.0 && PlusForSpace(p.1) == p.1; }
  }

  /** The multimap round trip: in whatever order the container is written, reading it
      back gives the same multimap if and only if no key or value has a space and no value
      stands under an empty key. */
  lemma {:induction false} QueryRoundTrip(pairs: seq<Pair>)
    requires BytePairs(pairs)
    ensures QueryDecodable(Items(Written(pairs)))
    ensures multiset(AllPairs(Items(Written(pairs)))) == multiset(pairs)
      <==> forall i | 0 <= i < |pairs| :: Faithful(pairs[i])
  {
    hide Items, Written, ItemDecodable, PairsOf, Returned, Faithful, AllPairs;
    DecodeWritten(pairs);
    var back := AllReturned(pairs);
    if multiset(back) == multiset(pairs) {
      forall i | 0 <= i < |pairs| ensures Faithful(pairs[i]) {
        assert pairs[i] in multiset(back);
        var j :| 0 <= j < |back| && back[j] == pairs[i];
        ReturnedFaithful(pairs[i], pairs[j]);
      }
    }
    if forall i | 0 <= i < |pairs| :: Faithful(pairs[i]) {
      forall i | 0 <= i < |pairs| ensures back[i] == pairs[i] {
        ReturnedFaithful(pairs[i], pairs[i]);
      }
      assert back == pairs;
    }
  }

  // ---- query strings by any client ----

  predicate Parts(ps: seq<string>, c: char) {
    forall i | 0 <= i < |ps| :: c !in ps[i] && Trimmed(ps[i])
  }

  /** What an item makes, told from its parts between equals signs: a key alone, or a key and
      a value, and nothing at all when there are more; one empty part in front and one at the
      end do not count. */
  lemma {:induction false} ItemOfParts(ps: seq<string>)
    requires |ps| > 1 || (|ps| == 1 && ps[0] != "")
    requires Parts(ps, '=') && ItemDecodable(Join(ps, "="))
    ensures var kv := DropTrailing(if |ps| > 1 && ps[0] == "" then ps[1..] else ps);
      && Splits(Join(ps, "="), "=") == kv
      && (|kv| == 1 ==> Decodable(kv[0]) && PairsOf(Join(ps, "=")) == [(Decoded(kv[0]), "")])
      && (|kv| == 2 ==> Decodable(kv[0]) && Decodable(kv[1]) && PairsOf(Join(ps, "=")) == [(Decoded(kv[0]), Decoded(kv[1]))])
      && (|kv| > 2 ==> PairsOf(Join(ps, "=")) == [])
  {
    hide Splits, Decoded, Decodable, TrimAll;
    SplitsJoin(ps, '=');
    var kv := DropTrailing(if |ps| > 1 && ps[0] == "" then ps[1..] else ps);
    TrimAllId(kv);
  }

  /** A query string is read item by item. */
  lemma {:induction false} QueryOfItems(items: seq<string>)
    requires items != [] && Parts(items, '&') && forall i | 0 <= i < |items| :: items[i] != ""
    ensures Items(Join(items, "&")) == items
  {
    hide Splits;
    JoinStarts(items, "&");
    SplitsTidyJoin(items, '&');
  }
}
