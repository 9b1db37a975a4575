/** What the search leaves in its `params` map: bindings are set on the way down and erased
    on the way back, and an erased name is gone even if an outer element had bound it. */
module RouterBindings {
  import opened Text
  import opened RouterTrie
  import opened RouterTable
  import opened RouterSearch

  /** The names a pattern binds. */
  function Names(path: seq<Elem>): set<string> {
    if path == [] then {}
    else (match Binds(path[0]) case None => {} case Some(x) => {x}) + Names(path[1..])
  }

  /** No name is bound twice along a pattern; a final `*` binds the name `*`. */
  predicate DistinctNames(path: seq<Elem>) {
    path == [] || ((Binds(path[0]).Some? ==> Binds(path[0]).value !in Names(path[1..])) && DistinctNames(path[1..]))
  }

  /** What a matching pattern binds: each parameter its segment, `*` the rest. */
  function Bindings(path: seq<Elem>, segs: seq<string>): Params
    decreases |path|
  {
    if path == [] || segs == [] then map[]
    else if path[0] == Rest then map["*" := JoinRest(segs)]
    else
      match Binds(path[0])
      case None => Bindings(path[1..], segs[1..])
      case Some(x) => map[x := segs[0]] + Bindings(path[1..], segs[1..])
  }

  lemma {:induction false} ChildrenEnd(re: RegexMatch, q: Query, isRegex: bool, segs: seq<string>, params: Params)
    requires segs != []
    ensures BestIn(re, q, isRegex, [], segs) == None
    ensures ParamsAfterIn(re, q, isRegex, [], segs, params) == params
    ensures SeenIn(re, q, isRegex, [], segs) == {}
  {
  }

  /** One turn of the loop over the children. */
  lemma {:induction false} ChildrenStep(re: RegexMatch, q: Query, isRegex: bool, children: seq<Node>, i: nat, segs: seq<string>, params: Params)
    requires segs != [] && i < |children|
    ensures var c, rest := children[i], children[i + 1..];
      var b := if Tries(re, isRegex, c, segs[0]) then Under(ElemOf(isRegex, c), Best(re, q, c, segs[1..])) else None;
      && BestIn(re, q, isRegex, children[i..], segs) == (if b.Some? then b else BestIn(re, q, isRegex, rest, segs))
      && (!Tries(re, isRegex, c, segs[0]) ==>
            && ParamsAfterIn(re, q, isRegex, children[i..], segs, params) == ParamsAfterIn(re, q, isRegex, rest, segs, params)
            && SeenIn(re, q, isRegex, children[i..], segs) == SeenIn(re, q, isRegex, rest, segs))
      && (Tries(re, isRegex, c, segs[0]) ==>
            var p := ParamsAfter(re, q, c, segs[1..], params[c.paramName := segs[0]]);
            && ParamsAfterIn(re, q, isRegex, children[i..], segs, params)
               == (if b.Some? then p else ParamsAfterIn(re, q, isRegex, rest, segs, p - {c.paramName}))
            && SeenIn(re, q, isRegex, children[i..], segs)
               == Seen(re, q, c, segs[1..]) + if b.Some? then {} else SeenIn(re, q, isRegex, rest, segs))
  {
    hide Best, Seen, ParamsAfter;
    assert children[i..][1..] == children[i + 1..];
  }

  // ---- what failed attempts erase ----

  /** The search gets as far as `r` when it tries it on these segments. */
  predicate Tried(re: RegexMatch, r: seq<Elem>, segs: seq<string>)
    decreases |r|
  {
    || r == []
    || (segs != [] && (r[0] == Rest || ElemMatches(re, r[0], segs[0]))
        && (if r[0] == Rest then |r| == 1 else Tried(re, r[1..], segs[1..])))
  }

  /** A path below `n` that is tried and binds `x`. */
  predicate Touching(re: RegexMatch, n: Node, segs: seq<string>, r: seq<Elem>, x: string) {
    NodeAt(n, r).Some? && Tried(re, r, segs) && x in Names(r)
  }

  /** The names that some attempt below `n` binds, and erases when it fails. */
  ghost predicate IsTouched(re: RegexMatch, n: Node, segs: seq<string>, x: string) {
    exists r: seq<Elem> :: Touching(re, n, segs, r, x)
  }

  ghost function Touched(re: RegexMatch, n: Node, segs: seq<string>): iset<string> {
    iset x: string | IsTouched(re, n, segs, x)
  }

  ghost function Minus(m: Params, names: iset<string>): Params {
    map k | k in m && k !in names :: m[k]
  }

  function BoundBy(e: Elem): set<string> {
    match Binds(e) case None => {} case Some(x) => {x}
  }

  /** The name `x` is touched through the child `e`. */
  ghost predicate TouchedVia(re: RegexMatch, n: Node, e: Elem, segs: seq<string>, x: string) {
    exists r: seq<Elem> :: Touching(re, n, segs, [e] + r, x)
  }

  /** Child `a` is tried before child `b`. */
  predicate Sooner(n: Node, a: Elem, b: Elem) {
    Class(a) < Class(b) || (Class(a) == Class(b) && Position(n, a) < Position(n, b))
  }

  /** The name `x` is touched by an attempt made before child `e`. */
  ghost predicate IsTouchedBefore(re: RegexMatch, n: Node, e: Elem, segs: seq<string>, x: string) {
    exists a: Elem :: Sooner(n, a, e) && TouchedVia(re, n, a, segs, x)
  }

  ghost function TouchedBefore(re: RegexMatch, n: Node, e: Elem, segs: seq<string>): iset<string> {
    iset x: string | IsTouchedBefore(re, n, e, segs, x)
  }

  lemma {:induction false} TouchingBelow(re: RegexMatch, n: Node, e: Elem, segs: seq<string>, r: seq<Elem>, x: string)
    requires segs != [] && Child(n, e).Some? && e != Rest
    ensures Touching(re, n, segs, [e] + r, x) <==>
      ElemMatches(re, e, segs[0]) && NodeAt(Child(n, e).value, r).Some? && Tried(re, r, segs[1..]) && x in BoundBy(e) + Names(r)
  {
    NodeAtCons(n, e, r);
    assert ([e] + r)[1..] == r;
  }

  /** Going through a child touches its own name and what is touched below it. */
  lemma {:induction false} TouchedViaIs(re: RegexMatch, n: Node, e: Elem, segs: seq<string>, x: string)
    requires segs != []
    ensures TouchedVia(re, n, e, segs, x) <==>
      Child(n, e).Some? &&
      if e == Rest then x == "*"
      else ElemMatches(re, e, segs[0]) && (x in BoundBy(e) || IsTouched(re, Child(n, e).value, segs[1..], x))
  {
    hide Touching;
    if TouchedVia(re, n, e, segs, x) {
      var r: seq<Elem> :| Touching(re, n, segs, [e] + r, x);
      TouchingHead(re, n, e, segs, r, x);
    }
    if Child(n, e).Some? && e == Rest && x == "*" {
      RestTouches(re, n, segs);
      assert [Rest] + [] == [Rest];
    } else if Child(n, e).Some? && e != Rest && ElemMatches(re, e, segs[0]) {
      var c := Child(n, e).value;
      if x in BoundBy(e) {
        TouchingBelow(re, n, e, segs, [], x);
      } else if IsTouched(re, c, segs[1..], x) {
        var r: seq<Elem> :| Touching(re, c, segs[1..], r, x);
        TouchingParts(re, c, segs[1..], r, x);
        TouchingBelow(re, n, e, segs, r, x);
      }
    }
  }

  lemma {:induction false} TouchingParts(re: RegexMatch, n: Node, segs: seq<string>, r: seq<Elem>, x: string)
    ensures Touching(re, n, segs, r, x) <==> NodeAt(n, r).Some? && Tried(re, r, segs) && x in Names(r)
  {
  }

  lemma {:induction false} RestTouches(re: RegexMatch, n: Node, segs: seq<string>)
    requires segs != [] && n.wildcard.Some?
    ensures Touching(re, n, segs, [Rest], "*")
  {
    NodeAtCons(n, Rest, []);
    assert [Rest] + [] == [Rest] && [Rest][1..] == [];
  }

  lemma {:induction false} TouchingHead(re: RegexMatch, n: Node, e: Elem, segs: seq<string>, r: seq<Elem>, x: string)
    requires segs != [] && Touching(re, n, segs, [e] + r, x)
    ensures Child(n, e).Some?
    ensures if e == Rest then x == "*"
      else ElemMatches(re, e, segs[0]) && (x in BoundBy(e) || IsTouched(re, Child(n, e).value, segs[1..], x))
  {
    NodeAtCons(n, e, r);
    assert ([e] + r)[1..] == r;
    if e == Rest {
      assert r == [];
      assert Names([e] + r) == {"*"} + Names(r);
    } else {
      TouchingBelow(re, n, e, segs, r, x);
      if x !in BoundBy(e) {
        assert Touching(re, Child(n, e).value, segs[1..], r, x);
      }
    }
  }

  /** What is touched is touched through some child. */
  lemma {:induction false} TouchedIsVia(re: RegexMatch, n: Node, segs: seq<string>, x: string)
    ensures IsTouched(re, n, segs, x) <==> exists e: Elem :: TouchedVia(re, n, e, segs, x)
  {
    hide Touching;
    if IsTouched(re, n, segs, x) {
      var r: seq<Elem> :| Touching(re, n, segs, r, x);
      TouchingParts(re, n, segs, r, x);
      assert r == [r[0]] + r[1..];
      assert TouchedVia(re, n, r[0], segs, x);
    }
  }

  // ---- the lists ----

  /** The name `x` is touched through a child of a list, from place `i` up to `k`. */
  ghost predicate Between(re: RegexMatch, n: Node, isRegex: bool, i: nat, k: nat, segs: seq<string>, x: string) {
    exists j: nat :: i <= j < k && InList(re, n, isRegex, j, segs, x)
  }

  ghost predicate InList(re: RegexMatch, n: Node, isRegex: bool, j: nat, segs: seq<string>, x: string) {
    j < |ListOf(n, isRegex)| && TouchedVia(re, n, ElemOf(isRegex, ListOf(n, isRegex)[j]), segs, x)
  }

  ghost function TouchedBetween(re: RegexMatch, n: Node, isRegex: bool, i: nat, k: nat, segs: seq<string>): iset<string> {
    iset x: string | Between(re, n, isRegex, i, k, segs, x)
  }

  /** The names touched through the child at a place of a list. */
  ghost function AtPlace(re: RegexMatch, n: Node, isRegex: bool, j: nat, segs: seq<string>): iset<string> {
    iset x: string | InList(re, n, isRegex, j, segs, x)
  }

  lemma {:induction false} BetweenStep(re: RegexMatch, n: Node, isRegex: bool, i: nat, k: nat, segs: seq<string>)
    requires i < k
    ensures TouchedBetween(re, n, isRegex, i, k, segs) == AtPlace(re, n, isRegex, i, segs) + TouchedBetween(re, n, isRegex, i + 1, k, segs)
  {
    hide InList;
    forall x: string
      ensures Between(re, n, isRegex, i, k, segs, x)
        <==> InList(re, n, isRegex, i, segs, x) || Between(re, n, isRegex, i + 1, k, segs, x)
    {
      if Between(re, n, isRegex, i, k, segs, x) {
        var j: nat :| i <= j < k && InList(re, n, isRegex, j, segs, x);
      }
    }
  }

  lemma {:induction false} BetweenNothing(re: RegexMatch, n: Node, isRegex: bool, i: nat, segs: seq<string>)
    ensures TouchedBetween(re, n, isRegex, i, i, segs) == iset{}
  {
  }

  lemma {:induction false} MinusMinus(m: Params, a: iset<string>, b: iset<string>)
    ensures Minus(Minus(m, a), b) == Minus(m, a + b)
    ensures Minus(m, iset{}) == m
  {
  }

  /** Setting a name, losing others, and erasing it again. */
  lemma {:induction false} MinusBound(m: Params, x: string, v: string, t: iset<string>)
    ensures Minus(m[x := v], t) - {x} == Minus(m, t + iset{x})
  {
  }

  /** A child that is tried touches its name and what is touched below it; one that is not
      tried touches nothing. */
  lemma {:induction false} AtPlaceIs(re: RegexMatch, n: Node, isRegex: bool, j: nat, segs: seq<string>)
    requires Tidy(n) && segs != [] && j < |ListOf(n, isRegex)|
    ensures var c := ListOf(n, isRegex)[j];
      AtPlace(re, n, isRegex, j, segs)
        == if Tries(re, isRegex, c, segs[0]) then Touched(re, c, segs[1..]) + iset{c.paramName} else iset{}
  {
    hide TouchedVia, IsTouched;
    ListChild(n, isRegex, j);
    var c := ListOf(n, isRegex)[j];
    forall x: string { TouchedViaIs(re, n, ElemOf(isRegex, c), segs, x); }
  }

  /** A list that fails erases exactly what is touched through its children. */
  lemma {:induction false} ListErases(re: RegexMatch, q: Query, n: Node, isRegex: bool, i: nat, segs: seq<string>, params: Params)
    requires Good(n) && segs != [] && i <= |ListOf(n, isRegex)|
    requires BestIn(re, q, isRegex, ListOf(n, isRegex)[i..], segs).None?
    ensures ParamsAfterIn(re, q, isRegex, ListOf(n, isRegex)[i..], segs, params)
      == Minus(params, TouchedBetween(re, n, isRegex, i, |ListOf(n, isRegex)|, segs))
    decreases |segs|, 0, |ListOf(n, isRegex)| - i
  {
    hide Good, Best, BestIn, ParamsAfter, ParamsAfterIn, Seen, SeenIn, TouchedBetween, AtPlace, Touched, Minus, Under;
    GoodSelf(n);
    var cs := ListOf(n, isRegex);
    if i == |cs| {
      assert cs[i..] == [];
      ChildrenEnd(re, q, isRegex, segs, params);
      BetweenNothing(re, n, isRegex, i, segs);
      MinusMinus(params, iset{}, iset{});
    } else {
      var c := cs[i];
      ListChild(n, isRegex, i);
      ChildrenStep(re, q, isRegex, cs, i, segs, params);
      AtPlaceIs(re, n, isRegex, i, segs);
      BetweenStep(re, n, isRegex, i, |cs|, segs);
      var later := TouchedBetween(re, n, isRegex, i + 1, |cs|, segs);
      UnderSome(ElemOf(isRegex, c), Best(re, q, c, segs[1..]));
      if Tries(re, isRegex, c, segs[0]) {
        GoodChild(n, ElemOf(isRegex, c));
        NodeErases(re, q, c, segs[1..], params[c.paramName := segs[0]]);
        var t := Touched(re, c, segs[1..]);
        MinusBound(params, c.paramName, segs[0], t);
        ListErases(re, q, n, isRegex, i + 1, segs, Minus(params, t + iset{c.paramName}));
        MinusMinus(params, t + iset{c.paramName}, later);
      } else {
        ListErases(re, q, n, isRegex, i + 1, segs, params);
        assert iset{} + later == later;
      }
    }
  }

  lemma {:induction false} UnderSome(e: Elem, b: Option<seq<Elem>>)
    ensures Under(e, b).Some? <==> b.Some?
  {
  }

  /** The names touched through the literal child, if there is one. */
  ghost function ViaLit(re: RegexMatch, n: Node, segs: seq<string>): iset<string>
    requires segs != []
  {
    if segs[0] in n.statics then Touched(re, n.statics[segs[0]], segs[1..]) else iset{}
  }

  ghost function InWhole(re: RegexMatch, n: Node, isRegex: bool, segs: seq<string>): iset<string> {
    TouchedBetween(re, n, isRegex, 0, |ListOf(n, isRegex)|, segs)
  }

  /** The attempts at a node, put together. */
  lemma {:induction false} TouchedIs(re: RegexMatch, n: Node, segs: seq<string>)
    requires Tidy(n) && segs != []
    ensures Touched(re, n, segs) == ViaLit(re, n, segs) + InWhole(re, n, true, segs) + InWhole(re, n, false, segs)
      + if n.wildcard.Some? then iset{"*"} else iset{}
  {
    hide IsTouched, TouchedVia, Tidy;
    forall x: string
      ensures IsTouched(re, n, segs, x) <==> (x in ViaLit(re, n, segs) || x in InWhole(re, n, true, segs)
                                              || x in InWhole(re, n, false, segs) || (n.wildcard.Some? && x == "*"))
    {
      TouchedIsVia(re, n, segs, x);
      ViaByClass(re, n, segs, x);
    }
  }

  lemma {:induction false} ViaByClass(re: RegexMatch, n: Node, segs: seq<string>, x: string)
    requires Tidy(n) && segs != []
    ensures (exists e: Elem :: TouchedVia(re, n, e, segs, x)) <==>
      x in ViaLit(re, n, segs) || x in InWhole(re, n, true, segs)
      || x in InWhole(re, n, false, segs) || (n.wildcard.Some? && x == "*")
  {
    hide TouchedVia, IsTouched;
    var lit := Lit(segs[0]);
    TouchedViaIs(re, n, lit, segs, x);
    TouchedViaIs(re, n, Rest, segs, x);
    if e: Elem :| TouchedVia(re, n, e, segs, x) {
      TouchedViaIs(re, n, e, segs, x);
      if e.Rx? || e.Par? { ListVia(re, n, e, segs, x); }
    }
    if x in InWhole(re, n, true, segs) { ViaList(re, n, true, segs, x); }
    if x in InWhole(re, n, false, segs) { ViaList(re, n, false, segs, x); }
  }

  lemma {:induction false} ListVia(re: RegexMatch, n: Node, e: Elem, segs: seq<string>, x: string)
    requires Tidy(n) && segs != [] && (e.Rx? || e.Par?) && TouchedVia(re, n, e, segs, x)
    ensures x in InWhole(re, n, e.Rx?, segs)
    ensures InList(re, n, e.Rx?, Position(n, e), segs, x)
  {
    hide TouchedVia, IsTouched;
    TouchedViaIs(re, n, e, segs, x);
    ListMember(re, n, e.Rx?, e, segs[0]);
    assert InList(re, n, e.Rx?, Position(n, e), segs, x);
  }

  lemma {:induction false} ViaList(re: RegexMatch, n: Node, isRegex: bool, segs: seq<string>, x: string)
    requires x in InWhole(re, n, isRegex, segs)
    ensures exists e: Elem :: TouchedVia(re, n, e, segs, x)
  {
    hide TouchedVia;
    var j: nat :| 0 <= j < |ListOf(n, isRegex)| && InList(re, n, isRegex, j, segs, x);
    assert TouchedVia(re, n, ElemOf(isRegex, ListOf(n, isRegex)[j]), segs, x);
  }

  /** A search that fails erases exactly the names its attempts have bound. */
  lemma {:induction false} NodeErases(re: RegexMatch, q: Query, n: Node, segs: seq<string>, params: Params)
    requires Good(n) && Best(re, q, n, segs).None?
    ensures ParamsAfter(re, q, n, segs, params) == Minus(params, Touched(re, n, segs))
    decreases |segs|, 1, 0
  {
    hide Good, BestIn, ParamsAfterIn, TouchedBetween, Minus, Touched;
    if segs == [] {
      TouchedNothing(re, n);
      MinusMinus(params, iset{}, iset{});
    } else {
      GoodSelf(n);
      TouchedIs(re, n, segs);
      assert n.regexes[0..] == n.regexes && n.params[0..] == n.params;
      var t1, t2, t3 := ViaLit(re, n, segs), InWhole(re, n, true, segs), InWhole(re, n, false, segs);
      MinusMinus(params, iset{}, iset{});
      if segs[0] in n.statics {
        GoodChild(n, Lit(segs[0]));
        NodeErases(re, q, n.statics[segs[0]], segs[1..], params);
      }
      ListErases(re, q, n, true, 0, segs, Minus(params, t1));
      MinusMinus(params, t1, t2);
      ListErases(re, q, n, false, 0, segs, Minus(params, t1 + t2));
      MinusMinus(params, t1 + t2, t3);
      MinusMinus(Minus(params, t1 + t2 + t3), iset{}, iset{});
      MinusBound(Minus(params, t1 + t2 + t3), "*", JoinRest(segs), iset{});
      MinusMinus(params, t1 + t2 + t3, iset{"*"});
      MinusMinus(Minus(params, t1 + t2 + t3)["*" := JoinRest(segs)], iset{}, iset{});
      assert iset{} + iset{"*"} == iset{"*"} && t1 + t2 + t3 + iset{} == t1 + t2 + t3;
    }
  }

  lemma {:induction false} TouchedNothing(re: RegexMatch, n: Node)
    ensures Touched(re, n, []) == iset{}
  {
    forall x: string ensures !IsTouched(re, n, [], x) {
      forall r: seq<Elem> ensures !Touching(re, n, [], r, x) { TouchingParts(re, n, [], r, x); }
    }
  }

  // ---- what a successful search leaves ----

  lemma {:induction false} InListVia(re: RegexMatch, n: Node, a: Elem, segs: seq<string>, x: string)
    requires Tidy(n) && segs != [] && TouchedVia(re, n, a, segs, x)
    ensures match a
      case Lit(_) => x in ViaLit(re, n, segs)
      case Rest => n.wildcard.Some?
      case _ => Position(n, a) < |ListOf(n, a.Rx?)| && InList(re, n, a.Rx?, Position(n, a), segs, x)
  {
    hide TouchedVia, IsTouched;
    TouchedViaIs(re, n, a, segs, x);
    if a.Rx? || a.Par? { ListVia(re, n, a, segs, x); }
  }

  lemma {:induction false} ViaInList(re: RegexMatch, n: Node, isRegex: bool, k: nat, segs: seq<string>, x: string)
    requires Tidy(n) && k <= |ListOf(n, isRegex)| && x in TouchedBetween(re, n, isRegex, 0, k, segs)
    ensures exists a: Elem :: Class(a) == (if isRegex then 1 else 2) && Position(n, a) < k && TouchedVia(re, n, a, segs, x)
  {
    hide TouchedVia;
    var j: nat :| 0 <= j < k && InList(re, n, isRegex, j, segs, x);
    ListChild(n, isRegex, j);
    assert TouchedVia(re, n, ElemOf(isRegex, ListOf(n, isRegex)[j]), segs, x);
  }

  /** The attempts before a child: all of the classes before its own, and its elder
      siblings. */
  lemma {:induction false} BeforeIs(re: RegexMatch, n: Node, e: Elem, segs: seq<string>)
    requires Tidy(n) && segs != [] && Child(n, e).Some?
    ensures TouchedBefore(re, n, e, segs)
      == (if e.Lit? then iset{} else ViaLit(re, n, segs))
         + (if e.Rx? then TouchedBetween(re, n, true, 0, Position(n, e), segs)
            else if e.Lit? then iset{} else InWhole(re, n, true, segs))
         + (if e.Par? then TouchedBetween(re, n, false, 0, Position(n, e), segs)
            else if e.Rest? then InWhole(re, n, false, segs) else iset{})
  {
    hide TouchedVia, IsTouched, InList, Tidy;
    forall x: string
      ensures IsTouchedBefore(re, n, e, segs, x) <==>
        ((!e.Lit? && x in ViaLit(re, n, segs))
         || (e.Rx? && x in TouchedBetween(re, n, true, 0, Position(n, e), segs))
         || ((e.Par? || e.Rest?) && x in InWhole(re, n, true, segs))
         || (e.Par? && x in TouchedBetween(re, n, false, 0, Position(n, e), segs))
         || (e.Rest? && x in InWhole(re, n, false, segs)))
    {
      if IsTouchedBefore(re, n, e, segs, x) {
        var a: Elem :| Sooner(n, a, e) && TouchedVia(re, n, a, segs, x);
        InListVia(re, n, a, segs, x);
      }
      var lit := Lit(segs[0]);
      if !e.Lit? && x in ViaLit(re, n, segs) {
        TouchedViaIs(re, n, lit, segs, x);
        assert Sooner(n, lit, e) && TouchedVia(re, n, lit, segs, x);
      }
      if e.Rx? && x in TouchedBetween(re, n, true, 0, Position(n, e), segs) {
        ViaInList(re, n, true, Position(n, e), segs, x);
        var a: Elem :| Class(a) == 1 && Position(n, a) < Position(n, e) && TouchedVia(re, n, a, segs, x);
        assert Sooner(n, a, e);
      }
      if (e.Par? || e.Rest?) && x in InWhole(re, n, true, segs) {
        ViaInList(re, n, true, |n.regexes|, segs, x);
        var a: Elem :| Class(a) == 1 && Position(n, a) < |n.regexes| && TouchedVia(re, n, a, segs, x);
        assert Sooner(n, a, e);
      }
      if e.Par? && x in TouchedBetween(re, n, false, 0, Position(n, e), segs) {
        ViaInList(re, n, false, Position(n, e), segs, x);
        var a: Elem :| Class(a) == 2 && Position(n, a) < Position(n, e) && TouchedVia(re, n, a, segs, x);
        assert Sooner(n, a, e);
      }
      if e.Rest? && x in InWhole(re, n, false, segs) {
        ViaInList(re, n, false, |n.params|, segs, x);
        var a: Elem :| Class(a) == 2 && Position(n, a) < |n.params| && TouchedVia(re, n, a, segs, x);
        assert Sooner(n, a, e);
      }
    }
  }

  function Bind(m: Params, e: Elem, v: string): Params {
    match Binds(e) case None => m case Some(x) => m[x := v]
  }

  /** The child of a list through which the search succeeds. */
  lemma {:induction false} ListWins(re: RegexMatch, q: Query, n: Node, isRegex: bool, i: nat, segs: seq<string>, params: Params)
    returns (k: nat)
    requires Good(n) && segs != [] && i <= |ListOf(n, isRegex)|
    requires BestIn(re, q, isRegex, ListOf(n, isRegex)[i..], segs).Some?
    ensures i <= k < |ListOf(n, isRegex)|
    ensures var c := ListOf(n, isRegex)[k];
      && Best(re, q, c, segs[1..]).Some?
      && BestIn(re, q, isRegex, ListOf(n, isRegex)[i..], segs) == Under(ElemOf(isRegex, c), Best(re, q, c, segs[1..]))
      && ParamsAfterIn(re, q, isRegex, ListOf(n, isRegex)[i..], segs, params)
         == ParamsAfter(re, q, c, segs[1..], Minus(params, TouchedBetween(re, n, isRegex, i, k, segs))[c.paramName := segs[0]])
    decreases |ListOf(n, isRegex)| - i
  {
    hide Good, Best, BestIn, ParamsAfter, ParamsAfterIn, Seen, SeenIn, TouchedBetween, AtPlace, Touched, Minus, Under;
    GoodSelf(n);
    var cs := ListOf(n, isRegex);
    if i == |cs| {
      assert cs[i..] == [];
      ChildrenEnd(re, q, isRegex, segs, params);
      assert false;
    }
    var c := cs[i];
    ListChild(n, isRegex, i);
    ChildrenStep(re, q, isRegex, cs, i, segs, params);
    UnderSome(ElemOf(isRegex, c), Best(re, q, c, segs[1..]));
    BetweenNothing(re, n, isRegex, i, segs);
    MinusMinus(params, iset{}, iset{});
    if Tries(re, isRegex, c, segs[0]) && Best(re, q, c, segs[1..]).Some? {
      return i;
    }
    AtPlaceIs(re, n, isRegex, i, segs);
    var lost := AtPlace(re, n, isRegex, i, segs);
    if Tries(re, isRegex, c, segs[0]) {
      GoodChild(n, ElemOf(isRegex, c));
      NodeErases(re, q, c, segs[1..], params[c.paramName := segs[0]]);
      MinusBound(params, c.paramName, segs[0], Touched(re, c, segs[1..]));
    }
    k := ListWins(re, q, n, isRegex, i + 1, segs, Minus(params, lost));
    BetweenStep(re, n, isRegex, i, k, segs);
    MinusMinus(params, lost, TouchedBetween(re, n, isRegex, i + 1, k, segs));
  }

  /** The child through which a search succeeds, and the map it is entered with. */
  lemma {:induction false} NodeWins(re: RegexMatch, q: Query, n: Node, segs: seq<string>, params: Params)
    requires Good(n) && segs != [] && Best(re, q, n, segs).Some?
    ensures var p := Best(re, q, n, segs).value;
      && p != [] && Child(n, p[0]).Some?
      && var m := Minus(params, TouchedBefore(re, n, p[0], segs));
         if p[0] == Rest then p == [Rest] && ParamsAfter(re, q, n, segs, params) == m["*" := JoinRest(segs)]
         else Best(re, q, Child(n, p[0]).value, segs[1..]) == Some(p[1..])
              && ParamsAfter(re, q, n, segs, params)
                 == ParamsAfter(re, q, Child(n, p[0]).value, segs[1..], Bind(m, p[0], segs[0]))
  {
    hide Good, BestIn, ParamsAfterIn, TouchedBetween, TouchedBefore, Minus, Touched;
    GoodSelf(n);
    BestChoice(re, q, n, segs);
    assert n.regexes[0..] == n.regexes && n.params[0..] == n.params;
    var none: iset<string> := iset{};
    var t1, t2, t3 := ViaLit(re, n, segs), InWhole(re, n, true, segs), InWhole(re, n, false, segs);
    MinusMinus(params, none, none);
    if segs[0] in n.statics {
      var c := n.statics[segs[0]];
      GoodChild(n, Lit(segs[0]));
      var b := Best(re, q, c, segs[1..]);
      if b.Some? {
        assert ([Lit(segs[0])] + b.value)[1..] == b.value;
        BeforeIs(re, n, Lit(segs[0]), segs);
        assert none + none + none == none;
        return;
      }
      NodeErases(re, q, c, segs[1..], params);
    }
    if BestIn(re, q, true, n.regexes[0..], segs).Some? {
      var k := ListWins(re, q, n, true, 0, segs, Minus(params, t1));
      WinnerIn(re, q, n, true, k, segs, params, t1, none);
      return;
    }
    ListErases(re, q, n, true, 0, segs, Minus(params, t1));
    MinusMinus(params, t1, t2);
    if BestIn(re, q, false, n.params[0..], segs).Some? {
      var k := ListWins(re, q, n, false, 0, segs, Minus(params, t1 + t2));
      WinnerIn(re, q, n, false, k, segs, params, t1, t2);
      return;
    }
    ListErases(re, q, n, false, 0, segs, Minus(params, t1 + t2));
    MinusMinus(params, t1 + t2, t3);
    BeforeIs(re, n, Rest, segs);
    BestOf(re, q, n.wildcard.value);
  }

  lemma {:induction false} BestOf(re: RegexMatch, q: Query, n: Node)
    ensures Best(re, q, n, []).Some? <==> Accepts(q, n.endpoint)
    ensures forall params: Params :: ParamsAfter(re, q, n, [], params) == params
  {
  }

  /** The place in a list read as an element, for `NodeWins`. */
  lemma {:induction false} WinnerIn(re: RegexMatch, q: Query, n: Node, isRegex: bool, k: nat, segs: seq<string>,
                                    params: Params, t1: iset<string>, t2: iset<string>)
    requires Good(n) && segs != [] && k < |ListOf(n, isRegex)|
    requires t1 == ViaLit(re, n, segs) && t2 == if isRegex then iset{} else InWhole(re, n, true, segs)
    ensures var c := ListOf(n, isRegex)[k]; var e := ElemOf(isRegex, c);
      && Child(n, e) == Some(c) && e != Rest
      && Bind(Minus(params, TouchedBefore(re, n, e, segs)), e, segs[0])
         == Minus(Minus(params, t1 + t2), TouchedBetween(re, n, isRegex, 0, k, segs))[c.paramName := segs[0]]
      && t1 + iset{} == t1
      && forall b: Option<seq<Elem>> :: b.Some? ==> Under(e, b).value[0] == e && Under(e, b).value[1..] == b.value
  {
    hide Good, TouchedBetween, TouchedBefore, Minus, Touched;
    GoodSelf(n);
    ListChild(n, isRegex, k);
    var e := ElemOf(isRegex, ListOf(n, isRegex)[k]);
    BeforeIs(re, n, e, segs);
    var t := TouchedBetween(re, n, isRegex, 0, k, segs);
    MinusMinus(params, t1 + t2, t);
    assert t1 + t2 + t == TouchedBefore(re, n, e, segs);
    forall b: Option<seq<Elem>> | b.Some? ensures Under(e, b).value[1..] == b.value {
      assert ([e] + b.value)[1..] == b.value;
    }
  }

  /** Along the pattern, no attempt that fails touches a name bound so far, unless the
      pattern binds it again from there on. */
  ghost predicate Keeps(re: RegexMatch, n: Node, p: seq<Elem>, segs: seq<string>, held: set<string>)
    decreases |p|
  {
    p == [] || segs == [] ||
    (&& (forall x: string | x in held && IsTouchedBefore(re, n, p[0], segs, x) :: x in Names(p))
     && (p[0] != Rest ==>
           Child(n, p[0]).Some? && Keeps(re, Child(n, p[0]).value, p[1..], segs[1..], held + BoundBy(p[0]))))
  }

  /** Names that the pattern binds again do not matter. */
  lemma {:induction false} KeepsRebound(re: RegexMatch, n: Node, p: seq<Elem>, segs: seq<string>, held: set<string>, more: set<string>)
    requires more <= Names(p)
    ensures Keeps(re, n, p, segs, held) <==> Keeps(re, n, p, segs, held + more)
    decreases |p|
  {
    hide IsTouchedBefore;
    if p != [] && segs != [] && p[0] != Rest && Child(n, p[0]).Some? {
      var later := more - BoundBy(p[0]);
      KeepsRebound(re, Child(n, p[0]).value, p[1..], segs[1..], held + BoundBy(p[0]), later);
      assert held + BoundBy(p[0]) + later == held + more + BoundBy(p[0]);
    }
  }

  lemma {:induction false} BindingsKeys(re: RegexMatch, p: seq<Elem>, segs: seq<string>)
    requires Matches(re, p, segs)
    ensures Bindings(p, segs).Keys == Names(p)
    decreases |p|
  {
    if p != [] {
      if p[0] == Rest {
        assert p[1..] == [];
      } else {
        BindingsKeys(re, p[1..], segs[1..]);
      }
    }
  }

  /** One step down: what is held below, and what the bindings are made of. */
  lemma {:induction false} BindStep(m: Params, e: Elem, v: string, t: iset<string>)
    ensures Bind(Minus(m, t), e, v).Keys == (set k | k in m && k !in t) + BoundBy(e)
    ensures forall k | k in m && k !in t && k !in BoundBy(e) :: Bind(Minus(m, t), e, v)[k] == m[k]
    ensures forall k | k in BoundBy(e) :: Bind(Minus(m, t), e, v)[k] == v
  {
  }

  lemma {:induction false} BindingsStep(p: seq<Elem>, segs: seq<string>)
    requires p != [] && segs != [] && p[0] != Rest
    ensures Bindings(p, segs) == Bind(map[], p[0], segs[0]) + Bindings(p[1..], segs[1..])
  {
    assert map[] + Bindings(p[1..], segs[1..]) == Bindings(p[1..], segs[1..]);
  }

  /** The bindings, exactly: a search that succeeds adds to the map the bindings of the
      pattern it settles on if and only if that pattern keeps its names. */
  lemma {:induction false} BindingsExactly(re: RegexMatch, q: Query, n: Node, segs: seq<string>, params: Params)
    requires Good(n) && Best(re, q, n, segs).Some?
    ensures var p, after := Best(re, q, n, segs).value, ParamsAfter(re, q, n, segs, params);
      && after.Keys <= params.Keys + Names(p)
      && (after == params + Bindings(p, segs) <==> Keeps(re, n, p, segs, params.Keys))
    decreases |segs|
  {
    hide Best, ParamsAfter, Good, IsTouchedBefore, Minus, Names, Bindings, Bind;
    BestSound(re, q, n, segs);
    var p, after := Best(re, q, n, segs).value, ParamsAfter(re, q, n, segs, params);
    if segs == [] {
      BestOf(re, q, n);
      BindingsOfNothing(p);
      assert params + map[] == params;
    } else {
      NodeWins(re, q, n, segs, params);
      BindingsKeys(re, p, segs);
      var e, t := p[0], TouchedBefore(re, n, p[0], segs);
      if e == Rest {
        RestExactly(params, t, segs);
      } else {
        var c, m := Child(n, e).value, Bind(Minus(params, t), e, segs[0]);
        GoodChild(n, e);
        BindStep(params, e, segs[0], t);
        BindingsExactly(re, q, c, segs[1..], m);
        BindingsKeys(re, p[1..], segs[1..]);
        BindingsStep(p, segs);
        StepExactly(params, e, segs[0], t, Bindings(p[1..], segs[1..]), after);
        var lost := set k | k in params && k in t && k !in BoundBy(e);
        assert Names(p) == BoundBy(e) + Names(p[1..]) by { NamesStep(p); }
        if lost <= Names(p[1..]) {
          KeepsRebound(re, c, p[1..], segs[1..], m.Keys, lost);
          assert m.Keys + lost == params.Keys + BoundBy(e);
        }
      }
    }
  }

  lemma {:induction false} NamesStep(p: seq<Elem>)
    requires p != []
    ensures Names(p) == BoundBy(p[0]) + Names(p[1..])
  {
  }

  lemma {:induction false} BindingsOfNothing(p: seq<Elem>)
    ensures Bindings(p, []) == map[]
  {
  }

  lemma {:induction false} RestExactly(m: Params, t: iset<string>, segs: seq<string>)
    requires segs != []
    ensures var after := Minus(m, t)["*" := JoinRest(segs)];
      && after.Keys <= m.Keys + Names([Rest])
      && (after == m + Bindings([Rest], segs) <==> forall x | x in m && x in t :: x in Names([Rest]))
  {
    hide JoinRest;
    assert [Rest][1..] == [];
    assert Names([Rest]) == {"*"};
    var after := Minus(m, t)["*" := JoinRest(segs)];
    if after == m + Bindings([Rest], segs) {
      forall x | x in m && x in t ensures x == "*" {
        assert x in m + Bindings([Rest], segs);
      }
    }
  }

  /** Losing the names in `t` before one binding `e`, and then binding `b`, is harmless
      exactly when `e` or `b` binds every name lost. */
  lemma {:induction false} StepExactly(m: Params, e: Elem, v: string, t: iset<string>, b: Params, after: Params)
    requires after.Keys <= Bind(Minus(m, t), e, v).Keys + b.Keys
    ensures var lost := set k | k in m && k in t && k !in BoundBy(e);
      after == m + (Bind(map[], e, v) + b) <==> lost <= b.Keys && after == Bind(Minus(m, t), e, v) + b
  {
    BindStep(m, e, v, t);
    var lost := set k | k in m && k in t && k !in BoundBy(e);
    var whole := m + (Bind(map[], e, v) + b);
    if after == whole {
      forall k | k in lost ensures k in b { assert k in whole; }
    }
    if lost <= b.Keys {
      assert whole == Bind(Minus(m, t), e, v) + b;
    }
  }
}
