/** `router_impl` as its callers see it: registering routes by path, and deciding a
    request by the flat table of the routes registered. */
module Router {
  import opened Text
  import opened Splitter
  import opened RouterTrie
  import opened RouterTable
  import opened RouterSearch
  import opened RouterBindings

  // ---- paths ----

  /** `split_segments`. */
  function SegmentsOf(path: string): seq<string> {
    Splits(path, "/") + if EndsWithSlash(path) then [""] else []
  }

  predicate EndsWithSlash(path: string) {
    path != "" && path[|path| - 1] == '/'
  }

  method SplitSegments(path: string) returns (segments: seq<string>)
    ensures segments == SegmentsOf(path)
  {
    hide Splits;
    segments := Split(path, "/");
    if EndsWithSlash(path) {
      segments := segments + [""];
    }
  }

  lemma {:induction false} PiecesEnd(s: string)
    ensures var ps := Pieces(s, "/");
      (|ps| >= 2 && ps[|ps| - 1] == "") <==> EndsWithSlash(s)
    decreases |s|
  {
    hide FindFrom;
    FindFirst(s, "/", Find(s, "/"));
    match Find(s, "/") {
      case None => LacksChar(s, '/');
      case Some(k) =>
        var rest := s[k + 1..];
        assert s[k..k + 1] == "/";
        PiecesEnd(rest);
        PiecesOfEmpty(rest);
        if rest != "" { assert rest[|rest| - 1] == s[|s| - 1]; }
    }
  }

  lemma {:induction false} PiecesOfEmpty(s: string)
    ensures Pieces(s, "/") == [""] <==> s == ""
  {
    hide FindFrom;
    JoinPieces(s, "/");
    FindFirst("", "/", None);
  }

  lemma {:induction false} TrimAllSnoc(ps: seq<string>, p: string)
    ensures TrimAll(ps + [p]) == TrimAll(ps) + [Trim(p)]
    decreases |ps|
  {
    if ps == [] {
      assert [] + [p] == [p] && [p][1..] == [];
    } else {
      assert (ps + [p])[1..] == ps[1..] + [p];
      TrimAllSnoc(ps[1..], p);
    }
  }

  /** Although `split` drops a leading and a trailing delimiter, the segments of a path are
      the trimmed textbook split of the path without one leading slash: on every path but
      the empty one and `/`. */
  lemma {:induction false} SegmentsAreTextbook(path: string)
    ensures SegmentsOf(path) == TrimAll(Pieces(DropLeading(path, "/"), "/")) <==> path != "" && path != "/"
  {
    hide Find, FindFrom, TrimLeft, TrimRight;
    var body := DropLeading(path, "/");
    var ps := Pieces(body, "/");
    PiecesEnd(body);
    PiecesOfEmpty(body);
    assert TrimAll([""]) == [""] by { TrimAllSnoc([], ""); assert [] + [""] == [""]; TrimId(""); }
    if path == "" {
      assert ps == [""];
    } else if path == "/" {
      assert body == "" && ps == [""];
      assert DropTrailing(ps) == ps;
    } else if EndsWithSlash(path) {
      assert "/" <= path <==> path[0] == '/';
      assert body != "" && body[|body| - 1] == path[|path| - 1];
      assert ps == DropTrailing(ps) + [""];
      TrimAllSnoc(DropTrailing(ps), "");
      TrimId("");
    } else {
      assert body != "" ==> body[|body| - 1] == path[|path| - 1];
      assert DropTrailing(ps) == ps;
    }
  }

  /** And these two: no segment, and two empty ones. */
  lemma {:induction false} ShortestPaths()
    ensures SegmentsOf("") == [] && SegmentsOf("/") == ["", ""]
  {
    hide Find, FindFrom, Trim;
    LacksChar("", '/');
    TokensLast("", "/");
    TrimId("");
    assert "/"[1..] == "" && Splits("/", "/") == [""];
  }

  // ---- the flat table ----

  /** A registered pattern that matches and whose endpoint the callback accepts. */
  ghost predicate TableCandidate(routes: seq<Route>, re: RegexMatch, q: Query, path: seq<Elem>, segs: seq<string>) {
    Matches(re, path, segs) && Accepts(q, Lookup(routes, path))
  }

  predicate FirstTried(routes: seq<Route>, at: seq<Elem>, a: Elem, b: Elem) {
    || Class(a) < Class(b)
    || (Class(a) == Class(b) && FirstUse(routes, at + [a]) < FirstUse(routes, at + [b]))
  }

  /** The priority of two patterns, told from the list of registrations alone: at the first
      element in which they differ, literal before regex before parameter before `*`, and
      among regexes or parameters the one registered first below the common prefix. */
  predicate Outranks(routes: seq<Route>, at: seq<Elem>, p: seq<Elem>, r: seq<Elem>)
    decreases |p|
  {
    && p != [] && r != []
    && (if p[0] == r[0] then Outranks(routes, at + [p[0]], p[1..], r[1..])
        else FirstTried(routes, at, p[0], r[0]))
  }

  lemma {:induction false} OutranksAsymmetric(routes: seq<Route>, at: seq<Elem>, p: seq<Elem>, r: seq<Elem>)
    requires Outranks(routes, at, p, r)
    ensures !Outranks(routes, at, r, p) && p != r
    decreases |p|
  {
    if p[0] == r[0] {
      OutranksAsymmetric(routes, at + [p[0]], p[1..], r[1..]);
      assert p == [p[0]] + p[1..] && r == [r[0]] + r[1..];
    }
  }

  /** Where two patterns part, text goes before a regex, a regex before a parameter, and a
      parameter before `*`, whatever follows and whenever they were registered. */
  lemma {:induction false} KindsInOrder(routes: seq<Route>, common: seq<Elem>, a: Elem, p: seq<Elem>, b: Elem, r: seq<Elem>)
    requires (a.Lit? && !b.Lit?) || (a.Rx? && (b.Par? || b.Rest?)) || (a.Par? && b.Rest?)
    ensures Outranks(routes, [], common + ([a] + p), common + ([b] + r))
  {
    OutranksBelow(routes, [], common, [a] + p, [b] + r);
    assert ([a] + p)[0] == a && ([b] + r)[0] == b;
  }

  /** Elements of one kind go by who was registered first below what the patterns share. */
  lemma {:induction false} OlderFirst(routes: seq<Route>, common: seq<Elem>, a: Elem, p: seq<Elem>, b: Elem, r: seq<Elem>)
    requires a != b && ((a.Rx? && b.Rx?) || (a.Par? && b.Par?))
    ensures Outranks(routes, [], common + ([a] + p), common + ([b] + r))
      <==> FirstUse(routes, common + [a]) < FirstUse(routes, common + [b])
  {
    OutranksBelow(routes, [], common, [a] + p, [b] + r);
    assert ([a] + p)[0] == a && ([b] + r)[0] == b && [] + common == common;
  }

  lemma {:induction false} OutranksBelow(routes: seq<Route>, at: seq<Elem>, common: seq<Elem>, p: seq<Elem>, r: seq<Elem>)
    ensures Outranks(routes, at, common + p, common + r) <==> Outranks(routes, at + common, p, r)
    decreases |common|
  {
    if common == [] {
      assert common + p == p && common + r == r && at + common == at;
    } else {
      assert (common + p)[1..] == common[1..] + p && (common + r)[1..] == common[1..] + r;
      assert at + [common[0]] + common[1..] == at + common;
      OutranksBelow(routes, at + [common[0]], common[1..], p, r);
    }
  }

  lemma {:induction false} BeforeOutranks(routes: seq<Route>, at: seq<Elem>, n: Node, p: seq<Elem>, r: seq<Elem>)
    requires NodeAt(Build(routes), at) == Some(n) && NodeAt(n, p).Some? && NodeAt(n, r).Some?
    requires Before(n, p, r)
    ensures Outranks(routes, at, p, r)
    decreases |p|
  {
    hide Build;
    if p[0] == r[0] {
      NodeAtSnoc(Build(routes), at, p[0]);
      BeforeOutranks(routes, at + [p[0]], Child(n, p[0]).value, p[1..], r[1..]);
    } else if Class(p[0]) == Class(r[0]) && (p[0].Rx? || p[0].Par?) {
      var isRegex := p[0].Rx?;
      CreationOrder(routes, at, isRegex);
      var keys := KeysAt(Build(routes), at, isRegex);
      var i, j := Position(n, p[0]), Position(n, r[0]);
      assert keys[i] == Key(p[0]) && keys[j] == Key(r[0]);
      assert Created(routes, at, isRegex, keys[i]) < Created(routes, at, isRegex, keys[j]);
    }
  }

  lemma {:induction false} CandidateIsTable(routes: seq<Route>, re: RegexMatch, q: Query, path: seq<Elem>, segs: seq<string>)
    ensures Candidate(re, q, Build(routes), path, segs) <==> TableCandidate(routes, re, q, path, segs)
  {
    hide Matches, Build, Lookup;
    TrieIsTable(routes, path);
  }

  /** The search against the table: it fails exactly when no registered pattern is a
      candidate, and otherwise finds the one candidate that outranks all others. */
  lemma {:induction false} SearchIsTable(routes: seq<Route>, re: RegexMatch, q: Query, segs: seq<string>)
    ensures match Best(re, q, Build(routes), segs)
      case None => forall path: seq<Elem> :: !TableCandidate(routes, re, q, path, segs)
      case Some(p) =>
        && TableCandidate(routes, re, q, p, segs)
        && forall r: seq<Elem> | TableCandidate(routes, re, q, r, segs) && r != p :: Outranks(routes, [], p, r)
  {
    hide Best, Build, Outranks, Matches;
    var root := Build(routes);
    TrieIsTable(routes, []);
    BestSound(re, q, root, segs);
    var b := Best(re, q, root, segs);
    if b.Some? { CandidateIsTable(routes, re, q, b.value, segs); }
    forall r: seq<Elem> | TableCandidate(routes, re, q, r, segs)
      ensures b.Some? && (r != b.value ==> Outranks(routes, [], b.value, r))
    {
      CandidateIsTable(routes, re, q, r, segs);
      BestLeast(re, q, root, segs, r);
      assert NodeAt(root, []) == Some(root);
      if r != b.value { BeforeOutranks(routes, [], root, b.value, r); }
    }
  }

  // ---- deciding a request ----

  datatype Decision = Dispatch(handler: Handler, params: Params) | MethodNotAllowed(allow: set<Verb>) | NotFound

  /** `proc_routing`: run the handler found, or answer 405 with the verbs seen, or 404. */
  function Decide(re: RegexMatch, root: Node, verb: Verb, segs: seq<string>): Decision {
    var b := Best(re, ForVerb(verb), root, segs);
    var seen := Seen(re, ForVerb(verb), root, segs);
    if b.Some? && NodeAt(root, b.value).Some? && verb in NodeAt(root, b.value).value.endpoint.handlers then
      Dispatch(NodeAt(root, b.value).value.endpoint.handlers[verb], ParamsAfter(re, ForVerb(verb), root, segs, map[]))
    else if seen != {} then MethodNotAllowed(seen)
    else NotFound
  }

  /** A registered pattern matches the request and has a handler for `v`. */
  ghost predicate Allowed(routes: seq<Route>, re: RegexMatch, segs: seq<string>, v: Verb) {
    exists path: seq<Elem> :: Matches(re, path, segs) && v in Lookup(routes, path).handlers
  }

  // ---- the bindings, told from the table ----

  /** A registration passes through a path that is tried before the element `e` below `at`,
      gets somewhere on these segments, and binds `x`. */
  ghost predicate ErasedFirst(routes: seq<Route>, re: RegexMatch, at: seq<Elem>, e: Elem, segs: seq<string>, x: string) {
    exists a: Elem, r: seq<Elem> ::
      FirstTried(routes, at, a, e) && Used(routes, at + ([a] + r)) && Tried(re, [a] + r, segs) && x in Names([a] + r)
  }

  /** Below every element of the pattern, no path tried in vain before it binds a name that
      the pattern has bound by then and does not bind again. */
  ghost predicate KeepsNames(routes: seq<Route>, re: RegexMatch, at: seq<Elem>, p: seq<Elem>, segs: seq<string>, held: set<string>)
    decreases |p|
  {
    p == [] || segs == [] ||
    (&& (forall x: string | x in held && ErasedFirst(routes, re, at, p[0], segs, x) :: x in Names(p))
     && (p[0] != Rest ==> KeepsNames(routes, re, at + [p[0]], p[1..], segs[1..], held + BoundBy(p[0]))))
  }

  lemma {:induction false} NodeAtConcat(n: Node, at: seq<Elem>, r: seq<Elem>)
    ensures NodeAt(n, at + r) == match NodeAt(n, at) case None => None case Some(c) => NodeAt(c, r)
    decreases |at|
  {
    if at == [] {
      assert at + r == r;
    } else {
      assert (at + r)[1..] == at[1..] + r;
      if Child(n, at[0]).Some? { NodeAtConcat(Child(n, at[0]).value, at[1..], r); }
    }
  }

  /** Siblings are tried in the order the table gives them. */
  lemma {:induction false} SoonerIsFirstTried(routes: seq<Route>, at: seq<Elem>, n: Node, a: Elem, b: Elem)
    requires NodeAt(Build(routes), at) == Some(n) && Child(n, a).Some? && Child(n, b).Some?
    requires a.Lit? && b.Lit? ==> a == b
    ensures Sooner(n, a, b) <==> FirstTried(routes, at, a, b)
  {
    hide Build;
    if Class(a) == Class(b) && (a.Rx? || a.Par?) {
      var isRegex := a.Rx?;
      CreationOrder(routes, at, isRegex);
      var keys := KeysAt(Build(routes), at, isRegex);
      var i, j := Position(n, a), Position(n, b);
      assert keys[i] == Key(a) && keys[j] == Key(b);
      assert i < j ==> Created(routes, at, isRegex, keys[i]) < Created(routes, at, isRegex, keys[j]);
      assert j < i ==> Created(routes, at, isRegex, keys[j]) < Created(routes, at, isRegex, keys[i]);
    }
  }

  lemma {:induction false} TouchedIsErased(routes: seq<Route>, re: RegexMatch, at: seq<Elem>, n: Node, e: Elem, segs: seq<string>, x: string)
    requires NodeAt(Build(routes), at) == Some(n) && Child(n, e).Some? && segs != []
    requires e == Rest || ElemMatches(re, e, segs[0])
    ensures IsTouchedBefore(re, n, e, segs, x) <==> ErasedFirst(routes, re, at, e, segs, x)
  {
    hide Build, Tried, Names, Sooner, FirstTried, Used;
    forall a: Elem, r: seq<Elem>
      ensures (Sooner(n, a, e) && Touching(re, n, segs, [a] + r, x)) <==>
        (FirstTried(routes, at, a, e) && Used(routes, at + ([a] + r)) && Tried(re, [a] + r, segs) && x in Names([a] + r))
    {
      NodeAtConcat(Build(routes), at, [a] + r);
      TrieIsTable(routes, at + ([a] + r));
      NodeAtCons(n, a, r);
      if Child(n, a).Some? && Tried(re, [a] + r, segs) {
        TriedHead(re, a, r, segs);
        SoonerIsFirstTried(routes, at, n, a, e);
      }
    }
    if IsTouchedBefore(re, n, e, segs, x) {
      var a: Elem :| Sooner(n, a, e) && TouchedVia(re, n, a, segs, x);
      var r: seq<Elem> :| Touching(re, n, segs, [a] + r, x);
    }
    if ErasedFirst(routes, re, at, e, segs, x) {
      var a: Elem, r: seq<Elem> :| FirstTried(routes, at, a, e) && Used(routes, at + ([a] + r)) && Tried(re, [a] + r, segs) && x in Names([a] + r);
      assert TouchedVia(re, n, a, segs, x);
    }
  }

  lemma {:induction false} TriedHead(re: RegexMatch, a: Elem, r: seq<Elem>, segs: seq<string>)
    requires Tried(re, [a] + r, segs)
    ensures segs != [] && (a == Rest || ElemMatches(re, a, segs[0]))
  {
  }

  lemma {:induction false} KeepsIsFlat(routes: seq<Route>, re: RegexMatch, at: seq<Elem>, n: Node, p: seq<Elem>, segs: seq<string>, held: set<string>)
    requires NodeAt(Build(routes), at) == Some(n) && NodeAt(n, p).Some? && Matches(re, p, segs)
    ensures Keeps(re, n, p, segs, held) <==> KeepsNames(routes, re, at, p, segs, held)
    decreases |p|
  {
    hide Build, IsTouchedBefore, ErasedFirst;
    if p != [] {
      forall x: string { TouchedIsErased(routes, re, at, n, p[0], segs, x); }
      if p[0] != Rest {
        NodeAtSnoc(Build(routes), at, p[0]);
        KeepsIsFlat(routes, re, at + [p[0]], Child(n, p[0]).value, p[1..], segs[1..], held + BoundBy(p[0]));
      }
    }
  }

  predicate AllDistinct(routes: seq<Route>) {
    forall i | 0 <= i < |routes| :: DistinctNames(routes[i].path)
  }

  lemma {:induction false} DistinctConcat(a: seq<Elem>, b: seq<Elem>)
    ensures Names(a + b) == Names(a) + Names(b)
    ensures DistinctNames(a + b) ==> Names(a) !! Names(b)
    decreases |a|
  {
    if a == [] {
      assert a + b == b;
    } else {
      assert (a + b)[1..] == a[1..] + b;
      DistinctConcat(a[1..], b);
    }
  }

  lemma {:induction false} DistinctPrefix(p: seq<Elem>, r: seq<Elem>)
    requires p <= r && DistinctNames(r)
    ensures DistinctNames(p)
    decreases |p|
  {
    if p != [] {
      DistinctPrefix(p[1..], r[1..]);
      assert r[1..] == p[1..] + r[|p|..];
      DistinctConcat(p[1..], r[|p|..]);
    }
  }

  /** A table in which no pattern repeats a name keeps the names of all its patterns. */
  lemma {:induction false} DistinctKeeps(routes: seq<Route>, re: RegexMatch, at: seq<Elem>, p: seq<Elem>, segs: seq<string>, held: set<string>)
    requires AllDistinct(routes) && held <= Names(at)
    ensures KeepsNames(routes, re, at, p, segs, held)
    decreases |p|
  {
    if p != [] && segs != [] {
      forall x: string | x in held ensures !ErasedFirst(routes, re, at, p[0], segs, x) {
        forall a: Elem, r: seq<Elem> | Used(routes, at + ([a] + r)) ensures x !in Names([a] + r) {
          var i :| 0 <= i < |routes| && at + ([a] + r) <= routes[i].path;
          DistinctPrefix(at + ([a] + r), routes[i].path);
          DistinctConcat(at, [a] + r);
        }
      }
      DistinctConcat(at, [p[0]]);
      assert Names([p[0]]) == BoundBy(p[0]) + Names([p[0]][1..]);
      DistinctKeeps(routes, re, at + [p[0]], p[1..], segs[1..], held + BoundBy(p[0]));
    }
  }

  /** When no pattern repeats a name, a search below `at` that fails, entered with names
      bound on the way there, leaves the map as it was. */
  lemma {:induction false} FailureRestores(routes: seq<Route>, re: RegexMatch, q: Query, at: seq<Elem>, n: Node,
                                           segs: seq<string>, params: Params)
    requires AllDistinct(routes) && NodeAt(Build(routes), at) == Some(n) && params.Keys <= Names(at)
    requires Best(re, q, n, segs).None?
    ensures ParamsAfter(re, q, n, segs, params) == params
  {
    hide Build, Best, ParamsAfter;
    TrieIsTable(routes, at);
    BelowIsGood(Build(routes), at);
    NodeErases(re, q, n, segs, params);
    forall x: string | x in params ensures !IsTouched(re, n, segs, x) {
      forall r: seq<Elem> ensures !Touching(re, n, segs, r, x) {
        NodeAtConcat(Build(routes), at, r);
        TrieIsTable(routes, at + r);
        if r != [] && Used(routes, at + r) {
          var i :| 0 <= i < |routes| && at + r <= routes[i].path;
          DistinctPrefix(at + r, routes[i].path);
          DistinctConcat(at, r);
        }
      }
    }
    assert Minus(params, Touched(re, n, segs)) == params;
  }

  lemma {:induction false} BelowIsGood(n: Node, at: seq<Elem>)
    requires Good(n) && NodeAt(n, at).Some?
    ensures Good(NodeAt(n, at).value)
  {
    var c := NodeAt(n, at).value;
    forall r: seq<Elem> | NodeAt(c, r).Some? ensures Tidy(NodeAt(c, r).value) {
      NodeAtConcat(n, at, r);
    }
  }

  lemma {:induction false} SeenIsAllowed(routes: seq<Route>, re: RegexMatch, verb: Verb, segs: seq<string>, v: Verb)
    requires Best(re, ForVerb(verb), Build(routes), segs).None?
    ensures v in Seen(re, ForVerb(verb), Build(routes), segs) <==> Allowed(routes, re, segs, v)
  {
    hide Best, Build, Matches, Seen, Lookup;
    var root := Build(routes);
    TrieIsTable(routes, []);
    if v in Seen(re, ForVerb(verb), root, segs) {
      var path := SeenSound(re, ForVerb(verb), root, segs, v);
      TrieIsTable(routes, path);
    }
    if Allowed(routes, re, segs, v) {
      var path: seq<Elem> :| Matches(re, path, segs) && v in Lookup(routes, path).handlers;
      TrieIsTable(routes, path);
      SeenComplete(re, ForVerb(verb), root, segs, path, v);
    }
  }

  /** The decision, over the whole table of registrations (sections 15.5.5 and 15.5.6 of
      RFC 9110). A handler runs exactly when some matching pattern has one for the verb,
      and it is the last one registered for the best such pattern, with precisely that
      pattern's bindings if and only if the pattern keeps its names. Otherwise the answer is 405 with
      exactly the verbs of all matching patterns when there are any, and 404 when not. */
  lemma {:induction false} DecisionIsTable(routes: seq<Route>, re: RegexMatch, verb: Verb, segs: seq<string>)
    ensures match Decide(re, Build(routes), verb, segs)
      case Dispatch(h, params) =>
        exists p: seq<Elem> ::
          && TableCandidate(routes, re, ForVerb(verb), p, segs)
          && (forall r: seq<Elem> | TableCandidate(routes, re, ForVerb(verb), r, segs) && r != p :: Outranks(routes, [], p, r))
          && h == Lookup(routes, p).handlers[verb]
          && (params == Bindings(p, segs) <==> KeepsNames(routes, re, [], p, segs, {}))
      case MethodNotAllowed(allow) =>
        && !Allowed(routes, re, segs, verb)
        && allow != {} && forall v: Verb :: v in allow <==> Allowed(routes, re, segs, v)
      case NotFound => forall v: Verb :: !Allowed(routes, re, segs, v)
  {
    hide Best, Build, Matches, Seen, Lookup, Outranks, ParamsAfter, Bindings, Keeps, KeepsNames;
    var q, root := ForVerb(verb), Build(routes);
    SearchIsTable(routes, re, q, segs);
    var b := Best(re, q, root, segs);
    if b.Some? {
      var none: Params := map[];
      TrieIsTable(routes, b.value);
      BindingsExactly(re, q, root, segs, none);
      assert NodeAt(root, []) == Some(root) && none.Keys == {} && none + Bindings(b.value, segs) == Bindings(b.value, segs);
      BestSound(re, q, root, segs);
      KeepsIsFlat(routes, re, [], root, b.value, segs, {});
      assert TableCandidate(routes, re, q, b.value, segs);
    } else {
      forall v: Verb ensures v in Seen(re, q, root, segs) <==> Allowed(routes, re, segs, v) {
        SeenIsAllowed(routes, re, verb, segs, v);
      }
      forall path: seq<Elem> ensures !(Matches(re, path, segs) && verb in Lookup(routes, path).handlers) {
        assert !TableCandidate(routes, re, q, path, segs);
      }
    }
  }

  /** The verbs `pre_routing` lets through without a search. */
  predicate Bypasses(verb: Verb) {
    verb.Get? || verb.Head? || verb.Trace? || verb.Connect? || verb.Options?
  }

  /** `pre_routing`: whether the request goes on, and if not, the answer. */
  function PreDecide(re: RegexMatch, root: Node, verb: Verb, segs: seq<string>): Option<Decision> {
    if Bypasses(verb) then None
    else
      var b := Best(re, ForVerb(verb), root, segs);
      var seen := Seen(re, ForVerb(verb), root, segs);
      if b.Some? && NodeAt(root, b.value).Some? && verb in NodeAt(root, b.value).value.endpoint.handlers then None
      else if seen != {} then Some(MethodNotAllowed(seen))
      else Some(NotFound)
  }

  /** The check before the body is read agrees with the one after: a verb that is searched
      for goes on exactly when some matching pattern has a handler for it, and is refused
      with the very answer it would get; the others always go on. */
  lemma {:induction false} PreRoutingAgrees(routes: seq<Route>, re: RegexMatch, verb: Verb, segs: seq<string>)
    ensures match PreDecide(re, Build(routes), verb, segs)
      case None => Bypasses(verb) || Allowed(routes, re, segs, verb)
      case Some(d) => !Bypasses(verb) && !Allowed(routes, re, segs, verb) && d == Decide(re, Build(routes), verb, segs)
  {
    hide Best, Build, Matches, Seen, Lookup, Outranks, ParamsAfter, Bindings;
    DecisionIsTable(routes, re, verb, segs);
    match Decide(re, Build(routes), verb, segs) {
      case Dispatch(h, params) =>
        var p: seq<Elem> :| TableCandidate(routes, re, ForVerb(verb), p, segs);
        assert Matches(re, p, segs) && verb in Lookup(routes, p).handlers;
      case _ =>
    }
  }

  // ---- a repeated name ----

  function Leaf(text: string, handler: Handler): Node {
    NewNode(text, "", "").(endpoint := Endpoint(map[Other(0) := handler], None))
  }

  /** A parameter node with one literal below it. */
  function ParamNode(key: string, text: string, handler: Handler): Node {
    NodeFor(Par(key)).(statics := map[text := Leaf(text, handler)])
  }

  function TwoParams(text: string, second: string, handler: Handler): Route {
    Route([Par(":x")] + ([Par(second)] + [Lit(text)]), Http(Other(0), handler))
  }

  /** `:x/:x/q` registered before `:x/:y/z`. */
  function TwiceXTrie(): Node {
    ROOT.(params := [NodeFor(Par(":x")).(params := [ParamNode(":x", "q", 1), ParamNode(":y", "z", 2)])])
  }

  lemma {:induction false} InsertCons(n: Node, e: Elem, path: seq<Elem>, entry: Entry)
    ensures Insert(n, [e] + path, entry) == PutChild(n, e, Insert(ChildOrNew(n, e), path, entry))
  {
    assert ([e] + path)[1..] == path;
  }

  lemma {:induction false} InsertLit(key: string, text: string, handler: Handler)
    ensures Insert(NodeFor(Par(key)), [Lit(text)], Http(Other(0), handler)) == ParamNode(key, text, handler)
  {
    InsertCons(NodeFor(Par(key)), Lit(text), [], Http(Other(0), handler));
    assert [Lit(text)] + [] == [Lit(text)];
  }

  /** A new parameter child goes to the end of the list. */
  lemma {:induction false} InsertParam(n: Node, key: string, text: string, handler: Handler)
    requires IndexOf(n.params, key) == |n.params|
    ensures Insert(n, [Par(key)] + [Lit(text)], Http(Other(0), handler))
      == n.(params := n.params + [ParamNode(key, text, handler)])
  {
    InsertCons(n, Par(key), [Lit(text)], Http(Other(0), handler));
    InsertLit(key, text, handler);
  }

  lemma {:induction false} TwiceXBuilt()
    ensures Build([TwoParams("q", ":x", 1), TwoParams("z", ":y", 2)]) == TwiceXTrie()
  {
    hide Insert, PutChild, ParamNode, Leaf, TwoParams;
    var a, b := TwoParams("q", ":x", 1), TwoParams("z", ":y", 2);
    FirstBuilt();
    SecondBuilt();
    assert [a, b][..1] == [a] && [a][..0] == [];
    assert Build([a]) == FirstTrie();
  }

  function FirstTrie(): Node {
    ROOT.(params := [NodeFor(Par(":x")).(params := [ParamNode(":x", "q", 1)])])
  }

  lemma {:induction false} FirstBuilt()
    ensures var a := TwoParams("q", ":x", 1); Insert(ROOT, a.path, a.entry) == FirstTrie()
  {
    hide Insert, PutChild, ParamNode, Leaf;
    var a, x, q := TwoParams("q", ":x", 1), NodeFor(Par(":x")), ParamNode(":x", "q", 1);
    InsertParam(x, ":x", "q", 1);
    assert [] + [q] == [q];
    InsertCons(ROOT, Par(":x"), [Par(":x")] + [Lit("q")], a.entry);
    PutOnly(ROOT, x.(params := [q]));
  }

  lemma {:induction false} SecondBuilt()
    ensures var b := TwoParams("z", ":y", 2); Insert(FirstTrie(), b.path, b.entry) == TwiceXTrie()
  {
    hide Insert, PutChild, ParamNode, Leaf;
    var b, x := TwoParams("z", ":y", 2), NodeFor(Par(":x"));
    var q, z := ParamNode(":x", "q", 1), ParamNode(":y", "z", 2);
    ParamNodeKey(":x", "q", 1);
    InsertParam(x.(params := [q]), ":y", "z", 2);
    assert [q] + [z] == [q, z];
    InsertCons(FirstTrie(), Par(":x"), [Par(":y")] + [Lit("z")], b.entry);
    PutOnly(FirstTrie(), x.(params := [q, z]));
  }

  lemma {:induction false} ParamNodeKey(key: string, text: string, handler: Handler)
    ensures ParamNode(key, text, handler).key == key
  {
  }

  lemma {:induction false} PutOnly(n: Node, c: Node)
    requires c.key == ":x" && (n.params == [] || (|n.params| == 1 && n.params[0].key == ":x"))
    ensures PutChild(n, Par(":x"), c) == n.(params := [c])
  {
  }

  /** The search below `:x`, entered with `x` bound: it comes back with `y` alone. */
  lemma {:induction false} BelowX(re: RegexMatch, a: string, b: string)
    ensures var x := NodeFor(Par(":x")).(params := [ParamNode(":x", "q", 1), ParamNode(":y", "z", 2)]);
      && Best(re, ForVerb(Other(0)), x, [b, "z"]) == Some([Par(":y")] + ([Lit("z")] + []))
      && ParamsAfter(re, ForVerb(Other(0)), x, [b, "z"], map["x" := a]) == map["y" := b]
  {
    var q, z := ParamNode(":x", "q", 1), ParamNode(":y", "z", 2);
    var x := NodeFor(Par(":x")).(params := [q, z]);
    assert [b, "z"][1..] == ["z"] && ["z"][1..] == [];
    var verb := ForVerb(Other(0));
    var none: Params := map[];
    var p := none["x" := a];
    assert q.paramName == "x" && z.paramName == "y";
    assert Best(re, verb, q, ["z"]) == None && ParamsAfter(re, verb, q, ["z"], p["x" := b]) == p["x" := b];
    assert Best(re, verb, z.statics["z"], []) == Some([]);
    assert Best(re, verb, z, ["z"]) == Some([Lit("z")] + []);
    assert p["x" := b] - {"x"} == none && [q, z][1..] == [z];
    assert ParamsAfterIn(re, verb, false, [z], [b, "z"], none) == none["y" := b];
    assert BestIn(re, verb, false, [z], [b, "z"]) == Some([Par(":y")] + ([Lit("z")] + []));
    assert ParamsAfterIn(re, verb, false, [q, z], [b, "z"], p) == none["y" := b];
    assert BestIn(re, verb, false, [q, z], [b, "z"]) == Some([Par(":y")] + ([Lit("z")] + []));
  }

  /** The same from the root. */
  lemma {:induction false} FromRoot(re: RegexMatch, a: string, b: string)
    ensures Best(re, ForVerb(Other(0)), TwiceXTrie(), [a, b, "z"]) == Some([Par(":x")] + ([Par(":y")] + ([Lit("z")] + [])))
    ensures ParamsAfter(re, ForVerb(Other(0)), TwiceXTrie(), [a, b, "z"], map[]) == map["y" := b]
  {
    hide ParamNode, Leaf;
    BelowX(re, a, b);
    var x := NodeFor(Par(":x")).(params := [ParamNode(":x", "q", 1), ParamNode(":y", "z", 2)]);
    var verb := ForVerb(Other(0));
    var none: Params := map[];
    assert [a, b, "z"][1..] == [b, "z"];
    assert TwiceXTrie().params == [x] && [x][1..] == [] && x.paramName == "x";
    assert BestIn(re, verb, false, [x], [a, b, "z"]) == Some([Par(":x")] + ([Par(":y")] + ([Lit("z")] + [])));
    assert ParamsAfterIn(re, verb, false, [x], [a, b, "z"], none) == none["y" := b];
  }

  lemma {:induction false} EndOfPath()
    ensures NodeAt(TwiceXTrie(), [Par(":x")] + ([Par(":y")] + ([Lit("z")] + []))) == Some(Leaf("z", 2))
  {
    var z := ParamNode(":y", "z", 2);
    var x := NodeFor(Par(":x")).(params := [ParamNode(":x", "q", 1), z]);
    NodeAtCons(TwiceXTrie(), Par(":x"), [Par(":y")] + ([Lit("z")] + []));
    NodeAtCons(x, Par(":y"), [Lit("z")] + []);
    NodeAtCons(z, Lit("z"), []);
  }

  /** Why the condition on the names is needed: trying `:x/:x/q` first erases the outer `x`,
      so a request `a/b/z` reaches the handler of `:x/:y/z` without its `x`. */
  lemma {:induction false} RepeatedNameLosesBinding(re: RegexMatch, a: string, b: string)
    ensures var routes := [TwoParams("q", ":x", 1), TwoParams("z", ":y", 2)];
      Decide(re, Build(routes), Other(0), [a, b, "z"]) == Dispatch(2, map["y" := b])
    ensures Bindings(TwoParams("z", ":y", 2).path, [a, b, "z"]) == map["x" := a, "y" := b]
  {
    hide Build, Best, Seen, ParamsAfter, TwiceXTrie, NodeAt;
    TwiceXBuilt();
    FromRoot(re, a, b);
    EndOfPath();
    assert [a, b, "z"][1..] == [b, "z"] && [b, "z"][1..] == ["z"];
  }
}
