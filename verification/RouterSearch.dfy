/** The trie is an index over a flat table of routes: the search, its priority, what it
    binds and which verbs it sees. */
module RouterSearch {
  import opened Text
  import opened RouterTrie
  import opened RouterTable

  // ---- matching, without a trie ----

  predicate ElemMatches(re: RegexMatch, e: Elem, seg: string) {
    match e
    case Lit(t) => seg == t
    case Rx(t) => re(RxRegex(t), seg)
    case Par(_) => true
    case Rest => false
  }

  /** A pattern against the segments of a request; a final `*` wants at least one. */
  predicate Matches(re: RegexMatch, path: seq<Elem>, segs: seq<string>)
    decreases |path|
  {
    if path == [] then segs == []
    else if path[0] == Rest then |path| == 1 && segs != []
    else segs != [] && ElemMatches(re, path[0], segs[0]) && Matches(re, path[1..], segs[1..])
  }

  /** A pattern that leads to a node, matches, and whose node the callback accepts. */
  predicate Candidate(re: RegexMatch, q: Query, n: Node, path: seq<Elem>, segs: seq<string>) {
    NodeAt(n, path).Some? && Matches(re, path, segs) && Accepts(q, NodeAt(n, path).value.endpoint)
  }

  lemma {:induction false} CandidateBelow(re: RegexMatch, q: Query, n: Node, e: Elem, path: seq<Elem>, segs: seq<string>)
    requires segs != [] && e != Rest && Child(n, e).Some? && ElemMatches(re, e, segs[0])
    ensures Candidate(re, q, n, [e] + path, segs) <==> Candidate(re, q, Child(n, e).value, path, segs[1..])
  {
    NodeAtCons(n, e, path);
    assert ([e] + path)[1..] == path;
  }

  lemma {:induction false} CandidateRest(re: RegexMatch, q: Query, n: Node, segs: seq<string>)
    requires segs != [] && n.wildcard.Some?
    ensures Candidate(re, q, n, [Rest], segs) <==> Accepts(q, n.wildcard.value.endpoint)
  {
    NodeAtCons(n, Rest, []);
    assert [Rest] + [] == [Rest];
  }

  /** The child at a place in a list, seen as a child under its element. */
  lemma {:induction false} ListChild(n: Node, isRegex: bool, i: nat)
    requires Tidy(n) && i < |ListOf(n, isRegex)|
    ensures var c := ListOf(n, isRegex)[i];
      && Child(n, ElemOf(isRegex, c)) == Some(c)
      && Position(n, ElemOf(isRegex, c)) == i
      && Binds(ElemOf(isRegex, c)) == Some(c.paramName)
      && (forall re: RegexMatch, seg: string :: Tries(re, isRegex, c, seg) <==> ElemMatches(re, ElemOf(isRegex, c), seg))
  {
    IndexOfIs(ListOf(n, isRegex), i);
    assert ListOf(n, isRegex)[i].paramName == NodeFor(ElemOf(isRegex, ListOf(n, isRegex)[i])).paramName;
  }

  // ---- soundness ----

  lemma {:induction false} BestSound(re: RegexMatch, q: Query, n: Node, segs: seq<string>)
    requires Good(n)
    ensures Best(re, q, n, segs).Some? ==> Candidate(re, q, n, Best(re, q, n, segs).value, segs)
    decreases |segs|, 1, 0
  {
    hide Matches, Accepts;
    if segs == [] {
      assert Matches(re, [], []) by { MatchesNothing(re); }
    } else {
      GoodSelf(n);
      var seg := segs[0];
      if seg in n.statics {
        GoodChild(n, Lit(seg));
        var c := n.statics[seg];
        BestSound(re, q, c, segs[1..]);
        var b := Best(re, q, c, segs[1..]);
        if b.Some? { CandidateBelow(re, q, n, Lit(seg), b.value, segs); }
      }
      BestInSound(re, q, n, true, 0, segs);
      BestInSound(re, q, n, false, 0, segs);
      assert n.regexes[0..] == n.regexes && n.params[0..] == n.params;
      if n.wildcard.Some? {
        CandidateRest(re, q, n, segs);
        assert [Rest] + [] == [Rest];
      }
    }
  }

  lemma {:induction false} MatchesNothing(re: RegexMatch)
    ensures Matches(re, [], [])
  {
  }

  lemma {:induction false} BestInSound(re: RegexMatch, q: Query, n: Node, isRegex: bool, i: nat, segs: seq<string>)
    requires Good(n) && segs != [] && i <= |ListOf(n, isRegex)|
    ensures var b := BestIn(re, q, isRegex, ListOf(n, isRegex)[i..], segs);
      b.Some? ==> Candidate(re, q, n, b.value, segs)
    decreases |segs|, 0, |ListOf(n, isRegex)| - i
  {
    hide Matches, Accepts, Candidate;
    GoodSelf(n);
    var cs := ListOf(n, isRegex);
    if i < |cs| {
      var c := cs[i];
      ListChild(n, isRegex, i);
      GoodChild(n, ElemOf(isRegex, c));
      assert cs[i..][1..] == cs[i + 1..];
      BestInSound(re, q, n, isRegex, i + 1, segs);
      if Tries(re, isRegex, c, segs[0]) {
        BestSound(re, q, c, segs[1..]);
        var b := Best(re, q, c, segs[1..]);
        if b.Some? { CandidateBelow(re, q, n, ElemOf(isRegex, c), b.value, segs); }
      }
    }
  }

  // ---- completeness and priority ----

  function Class(e: Elem): nat {
    match e case Lit(_) => 0 case Rx(_) => 1 case Par(_) => 2 case Rest => 3
  }

  /** The place of a regex or param child among its siblings. */
  function Position(n: Node, e: Elem): nat {
    match e
    case Rx(t) => IndexOf(n.regexes, t)
    case Par(t) => IndexOf(n.params, t)
    case _ => 0
  }

  /** `p` is tried before `r`: at the first element in which they differ, its class comes
      first, or the class is the same and it was created first. */
  predicate Before(n: Node, p: seq<Elem>, r: seq<Elem>)
    decreases |p|
  {
    && p != [] && r != []
    && (if p[0] == r[0] then Child(n, p[0]).Some? && Before(Child(n, p[0]).value, p[1..], r[1..])
        else Class(p[0]) < Class(r[0]) || (Class(p[0]) == Class(r[0]) && Position(n, p[0]) < Position(n, r[0])))
  }

  predicate AtLeastAsGood(n: Node, b: Option<seq<Elem>>, r: seq<Elem>) {
    b.Some? && (b.value == r || Before(n, b.value, r))
  }

  lemma {:induction false} GoodBelow(n: Node, e: Elem, b: Option<seq<Elem>>, r: seq<Elem>)
    requires Child(n, e).Some? && AtLeastAsGood(Child(n, e).value, b, r)
    ensures AtLeastAsGood(n, Under(e, b), [e] + r)
  {
    assert ([e] + b.value)[1..] == b.value && ([e] + r)[1..] == r;
  }

  lemma {:induction false} ClassFirst(n: Node, e: Elem, b: Option<seq<Elem>>, r: seq<Elem>)
    requires b.Some? && r != [] && b.value != [] && b.value[0] == e
    requires Class(e) < Class(r[0]) || (Class(e) == Class(r[0]) && e != r[0] && Position(n, e) < Position(n, r[0]))
    ensures AtLeastAsGood(n, b, r)
  {
  }

  /** The four attempts of the search at a node, in the order in which they are made. */
  lemma {:induction false} BestChoice(re: RegexMatch, q: Query, n: Node, segs: seq<string>)
    requires segs != []
    ensures var seg := segs[0];
      var bs := if seg in n.statics then Under(Lit(seg), Best(re, q, n.statics[seg], segs[1..])) else None;
      var br, bp := BestIn(re, q, true, n.regexes[0..], segs), BestIn(re, q, false, n.params[0..], segs);
      Best(re, q, n, segs) == if bs.Some? then bs else if br.Some? then br else if bp.Some? then bp
        else if n.wildcard.Some? && Accepts(q, n.wildcard.value.endpoint) then Some([Rest]) else None
  {
    hide BestIn;
    assert n.regexes[0..] == n.regexes && n.params[0..] == n.params;
    assert [Rest] + [] == [Rest];
  }

  /** The first step of a candidate. */
  lemma {:induction false} CandidateHead(re: RegexMatch, q: Query, n: Node, r: seq<Elem>, segs: seq<string>)
    requires segs != [] && Candidate(re, q, n, r, segs)
    ensures r != [] && Child(n, r[0]).Some? && r == [r[0]] + r[1..]
    ensures r[0] == Rest ==> r == [Rest] && Accepts(q, n.wildcard.value.endpoint)
    ensures r[0] != Rest ==> ElemMatches(re, r[0], segs[0]) && Candidate(re, q, Child(n, r[0]).value, r[1..], segs[1..])
  {
    if r[0] == Rest {
      CandidateRest(re, q, n, segs);
    } else {
      CandidateBelow(re, q, n, r[0], r[1..], segs);
    }
  }

  /** Every candidate is at most as good as the pattern the search settles on. */
  lemma {:induction false} BestLeast(re: RegexMatch, q: Query, n: Node, segs: seq<string>, r: seq<Elem>)
    requires Good(n) && Candidate(re, q, n, r, segs)
    ensures AtLeastAsGood(n, Best(re, q, n, segs), r)
    decreases |segs|, 1, 0
  {
    if segs == [] {
      assert r == [];
    } else {
      hide AtLeastAsGood, Accepts, Candidate, Best, BestIn;
      GoodSelf(n);
      CandidateHead(re, q, n, r, segs);
      BestChoice(re, q, n, segs);
      var seg, e := segs[0], r[0];
      var bs := if seg in n.statics then Under(Lit(seg), Best(re, q, n.statics[seg], segs[1..])) else None;
      var br, bp := BestIn(re, q, true, n.regexes[0..], segs), BestIn(re, q, false, n.params[0..], segs);
      BestInHead(re, q, true, n.regexes[0..], segs);
      BestInHead(re, q, false, n.params[0..], segs);
      if e.Lit? {
        GoodChild(n, e);
        BestLeast(re, q, n.statics[seg], segs[1..], r[1..]);
        GoodBelow(n, e, Best(re, q, n.statics[seg], segs[1..]), r[1..]);
        GoodIsSome(n, bs, r);
      } else if bs.Some? {
        ClassFirst(n, Lit(seg), bs, r);
      } else if e.Rx? {
        ListMember(re, n, true, e, segs[0]);
        BestInLeast(re, q, n, true, 0, segs, Position(n, e), r[1..]);
        GoodIsSome(n, br, r);
      } else if br.Some? {
        ClassFirst(n, br.value[0], br, r);
      } else if e.Par? {
        ListMember(re, n, false, e, segs[0]);
        BestInLeast(re, q, n, false, 0, segs, Position(n, e), r[1..]);
        GoodIsSome(n, bp, r);
      } else if bp.Some? {
        ClassFirst(n, bp.value[0], bp, r);
      } else {
        SameIsGood(n, r);
      }
    }
  }

  /** A regex or param child is in its list. */
  lemma {:induction false} ListMember(re: RegexMatch, n: Node, isRegex: bool, e: Elem, seg: string)
    requires Tidy(n) && Child(n, e).Some? && e == ListElem(isRegex, Key(e)) && ElemMatches(re, e, seg)
    ensures var i := Position(n, e);
      && i < |ListOf(n, isRegex)| && ListOf(n, isRegex)[i] == Child(n, e).value
      && ElemOf(isRegex, ListOf(n, isRegex)[i]) == e
      && Tries(re, isRegex, ListOf(n, isRegex)[i], seg)
  {
    ListChild(n, isRegex, Position(n, e));
  }

  lemma {:induction false} SameIsGood(n: Node, r: seq<Elem>)
    ensures AtLeastAsGood(n, Some(r), r)
  {
  }

  lemma {:induction false} GoodIsSome(n: Node, b: Option<seq<Elem>>, r: seq<Elem>)
    requires AtLeastAsGood(n, b, r)
    ensures b.Some?
  {
  }

  lemma {:induction false} BestInHead(re: RegexMatch, q: Query, isRegex: bool, children: seq<Node>, segs: seq<string>)
    requires segs != []
    ensures var b := BestIn(re, q, isRegex, children, segs);
      b.Some? ==> b.value != [] && b.value[0] == ListElem(isRegex, Key(b.value[0]))
    decreases |children|
  {
    hide Best;
    if children != [] { BestInHead(re, q, isRegex, children[1..], segs); }
  }

  lemma {:induction false} BestInLeast(re: RegexMatch, q: Query, n: Node, isRegex: bool, i: nat, segs: seq<string>, j: nat, r: seq<Elem>)
    requires Good(n) && segs != [] && i <= j < |ListOf(n, isRegex)|
    requires var c := ListOf(n, isRegex)[j];
      Tries(re, isRegex, c, segs[0]) && Candidate(re, q, c, r, segs[1..])
    ensures AtLeastAsGood(n, BestIn(re, q, isRegex, ListOf(n, isRegex)[i..], segs),
                          [ElemOf(isRegex, ListOf(n, isRegex)[j])] + r)
    decreases |segs|, 0, |ListOf(n, isRegex)| - i
  {
    hide AtLeastAsGood, Candidate;
    GoodSelf(n);
    var cs := ListOf(n, isRegex);
    var c := cs[i];
    ListChild(n, isRegex, i);
    ListChild(n, isRegex, j);
    GoodChild(n, ElemOf(isRegex, c));
    assert cs[i..][1..] == cs[i + 1..];
    var b := if Tries(re, isRegex, c, segs[0]) then Under(ElemOf(isRegex, c), Best(re, q, c, segs[1..])) else None;
    if i == j {
      BestLeast(re, q, c, segs[1..], r);
      GoodBelow(n, ElemOf(isRegex, c), Best(re, q, c, segs[1..]), r);
      GoodIsSome(n, b, [ElemOf(isRegex, c)] + r);
    } else if b.Some? {
      assert cs[i].key != cs[j].key;
      ClassFirst(n, ElemOf(isRegex, c), b, [ElemOf(isRegex, cs[j])] + r);
    } else {
      BestInLeast(re, q, n, isRegex, i + 1, segs, j, r);
    }
  }

  // ---- the verbs seen ----

  /** A pattern that leads to a node with a handler for `v`, and matches. */
  predicate Offers(re: RegexMatch, n: Node, path: seq<Elem>, segs: seq<string>, v: Verb) {
    NodeAt(n, path).Some? && Matches(re, path, segs) && v in NodeAt(n, path).value.endpoint.handlers
  }

  lemma {:induction false} OffersBelow(re: RegexMatch, n: Node, e: Elem, path: seq<Elem>, segs: seq<string>, v: Verb)
    requires segs != [] && e != Rest && Child(n, e).Some? && ElemMatches(re, e, segs[0])
    ensures Offers(re, n, [e] + path, segs, v) <==> Offers(re, Child(n, e).value, path, segs[1..], v)
  {
    NodeAtCons(n, e, path);
    assert ([e] + path)[1..] == path;
  }

  lemma {:induction false} OffersRest(re: RegexMatch, n: Node, segs: seq<string>, v: Verb)
    requires segs != [] && n.wildcard.Some?
    ensures Offers(re, n, [Rest], segs, v) <==> v in n.wildcard.value.endpoint.handlers
  {
    NodeAtCons(n, Rest, []);
    assert [Rest] + [] == [Rest];
  }

  /** A verb is seen only at a node whose pattern matches. */
  lemma {:induction false} SeenSound(re: RegexMatch, q: Query, n: Node, segs: seq<string>, v: Verb) returns (path: seq<Elem>)
    requires Good(n) && v in Seen(re, q, n, segs)
    ensures Offers(re, n, path, segs, v)
    decreases |segs|, 1, 0
  {
    hide Best, BestIn, SeenIn;
    if segs == [] {
      path := [];
    } else {
      hide Offers;
      GoodSelf(n);
      var seg := segs[0];
      assert n.regexes[0..] == n.regexes && n.params[0..] == n.params;
      if seg in n.statics && v in Seen(re, q, n.statics[seg], segs[1..]) {
        GoodChild(n, Lit(seg));
        var p := SeenSound(re, q, n.statics[seg], segs[1..], v);
        OffersBelow(re, n, Lit(seg), p, segs, v);
        path := [Lit(seg)] + p;
      } else if v in SeenIn(re, q, true, n.regexes, segs) {
        path := SeenInSound(re, q, n, true, 0, segs, v);
      } else if v in SeenIn(re, q, false, n.params, segs) {
        path := SeenInSound(re, q, n, false, 0, segs, v);
      } else {
        OffersRest(re, n, segs, v);
        path := [Rest];
      }
    }
  }

  lemma {:induction false} SeenInSound(re: RegexMatch, q: Query, n: Node, isRegex: bool, i: nat, segs: seq<string>, v: Verb)
    returns (path: seq<Elem>)
    requires Good(n) && segs != [] && i <= |ListOf(n, isRegex)|
    requires v in SeenIn(re, q, isRegex, ListOf(n, isRegex)[i..], segs)
    ensures Offers(re, n, path, segs, v)
    decreases |segs|, 0, |ListOf(n, isRegex)| - i
  {
    hide Offers, Best, Seen;
    GoodSelf(n);
    var cs := ListOf(n, isRegex);
    var c := cs[i];
    ListChild(n, isRegex, i);
    assert cs[i..][1..] == cs[i + 1..];
    if Tries(re, isRegex, c, segs[0]) && v in Seen(re, q, c, segs[1..]) {
      GoodChild(n, ElemOf(isRegex, c));
      var p := SeenSound(re, q, c, segs[1..], v);
      OffersBelow(re, n, ElemOf(isRegex, c), p, segs, v);
      path := [ElemOf(isRegex, c)] + p;
    } else {
      path := SeenInSound(re, q, n, isRegex, i + 1, segs, v);
    }
  }

  lemma {:induction false} OffersHead(re: RegexMatch, n: Node, r: seq<Elem>, segs: seq<string>, v: Verb)
    requires segs != [] && Offers(re, n, r, segs, v)
    ensures r != [] && Child(n, r[0]).Some? && r == [r[0]] + r[1..]
    ensures r[0] == Rest ==> v in n.wildcard.value.endpoint.handlers
    ensures r[0] != Rest ==> ElemMatches(re, r[0], segs[0]) && Offers(re, Child(n, r[0]).value, r[1..], segs[1..], v)
  {
    if r[0] == Rest {
      OffersRest(re, n, segs, v);
      assert r == [Rest];
    } else {
      OffersBelow(re, n, r[0], r[1..], segs, v);
    }
  }

  /** A search that finds nothing has seen every verb of every matching pattern. */
  lemma {:induction false} SeenComplete(re: RegexMatch, q: Query, n: Node, segs: seq<string>, path: seq<Elem>, v: Verb)
    requires Good(n) && Best(re, q, n, segs).None? && Offers(re, n, path, segs, v)
    ensures v in Seen(re, q, n, segs)
    decreases |segs|, 1, 0
  {
    if segs == [] {
      assert path == [];
    } else {
      hide Offers, Accepts, BestIn, SeenIn;
      GoodSelf(n);
      OffersHead(re, n, path, segs, v);
      BestChoice(re, q, n, segs);
      assert n.regexes[0..] == n.regexes && n.params[0..] == n.params;
      var e := path[0];
      if e.Lit? {
        GoodChild(n, e);
        SeenComplete(re, q, Child(n, e).value, segs[1..], path[1..], v);
      } else if e.Rx? || e.Par? {
        ListMember(re, n, e.Rx?, e, segs[0]);
        SeenInComplete(re, q, n, e.Rx?, 0, segs, Position(n, e), path[1..], v);
      }
    }
  }

  lemma {:induction false} SeenInComplete(re: RegexMatch, q: Query, n: Node, isRegex: bool, i: nat, segs: seq<string>,
                                          j: nat, path: seq<Elem>, v: Verb)
    requires Good(n) && segs != [] && i <= j < |ListOf(n, isRegex)|
    requires BestIn(re, q, isRegex, ListOf(n, isRegex)[i..], segs).None?
    requires Tries(re, isRegex, ListOf(n, isRegex)[j], segs[0]) && Offers(re, ListOf(n, isRegex)[j], path, segs[1..], v)
    ensures v in SeenIn(re, q, isRegex, ListOf(n, isRegex)[i..], segs)
    decreases |segs|, 0, |ListOf(n, isRegex)| - i
  {
    hide Offers, Best, Seen;
    GoodSelf(n);
    var cs := ListOf(n, isRegex);
    ListChild(n, isRegex, i);
    GoodChild(n, ElemOf(isRegex, cs[i]));
    assert cs[i..][1..] == cs[i + 1..];
    if i == j {
      SeenComplete(re, q, cs[i], segs[1..], path, v);
    } else {
      SeenInComplete(re, q, n, isRegex, i + 1, segs, j, path, v);
    }
  }
}
