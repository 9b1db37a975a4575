/** The imperative side of `router_impl`: a router whose trie grows by registrations, and a
    search that changes one `params` map and one `allows` set in place. */
module RouterImpl {
  import opened Text
  import opened RouterTrie
  import opened RouterTable
  import opened RouterSearch
  import opened RouterBindings
  import opened Router

  /** One run of `match_nodes`, with the map and the set it works on. */
  class Matcher {
    const re: RegexMatch
    const query: Query
    var params: Params
    var allows: set<Verb>

    constructor (re: RegexMatch, query: Query)
      ensures this.re == re && this.query == query && params == map[] && allows == {}
    {
      this.re, this.query := re, query;
      params, allows := map[], {};
    }

    /** What a search below `n` adds to `allows`. */
    ghost function Noted(n: Node, segs: seq<string>): set<Verb> {
      if query.ForVerb? then Seen(re, query, n, segs) else {}
    }

    ghost function NotedIn(isRegex: bool, children: seq<Node>, segs: seq<string>): set<Verb>
      requires segs != []
    {
      if query.ForVerb? then SeenIn(re, query, isRegex, children, segs) else {}
    }

    /** The callback of `proc_routing`, `pre_routing` or `query_ws_handler`. */
    method Callback(n: Node) returns (accepted: bool)
      modifies `allows
      ensures accepted == Accepts(query, n.endpoint)
      ensures allows == old(allows) + Noted(n, [])
    {
      if query.ForVerb? {
        allows := allows + n.endpoint.handlers.Keys;
        return query.verb in n.endpoint.handlers;
      }
      return n.endpoint.ws.Some?;
    }

    /** `match_nodes`: static child, regex children, param children, wildcard. */
    method MatchNodes(parent: Node, segments: seq<string>, index: nat) returns (found: Option<Node>)
      requires Good(parent) && index <= |segments|
      modifies this
      ensures found == At(parent, Best(re, query, parent, segments[index..]))
      ensures params == ParamsAfter(re, query, parent, segments[index..], old(params))
      ensures allows == old(allows) + Noted(parent, segments[index..])
      decreases |segments| - index, 1
    {
      hide Accepts, Best, BestIn, ParamsAfterIn, SeenIn, Good;
      ghost var segs := segments[index..];
      if index == |segments| {
        assert segs == [];
        BestOfNothing(re, query, parent);
        var accepted := Callback(parent);
        return if accepted then Some(parent) else None;
      }
      GoodSelf(parent);
      var seg := segments[index];
      assert segs[1..] == segments[index + 1..];
      BestChoice(re, query, parent, segs);
      assert parent.regexes[0..] == parent.regexes && parent.params[0..] == parent.params;

      if seg in parent.statics {
        GoodChild(parent, Lit(seg));
        found := MatchNodes(parent.statics[seg], segments, index + 1);
        AtFound(re, query, parent.statics[seg], segs[1..]);
        AtUnder(parent, Lit(seg), Best(re, query, parent.statics[seg], segs[1..]));
        if found.Some? { return; }
      }
      found := MatchChildren(true, parent, segments, index);
      AtFoundIn(re, query, parent, true, segs);
      if found.Some? { return; }
      found := MatchChildren(false, parent, segments, index);
      AtFoundIn(re, query, parent, false, segs);
      if found.Some? { return; }
      if parent.wildcard.Some? {
        var rest := RestOf(segments, index);
        params := params["*" := rest];
        BestOfNothing(re, query, parent.wildcard.value);
        GoodChild(parent, Rest);
        assert segments[|segments|..] == [];
        found := MatchNodes(parent.wildcard.value, segments, |segments|);
        AtUnder(parent, Rest, Some([]));
        assert [Rest] + [] == [Rest];
        if found.Some? { return; }
        params := params - {"*"};
      }
      return None;
    }

    /** The loop over the regex or the param children. */
    method MatchChildren(isRegex: bool, parent: Node, segments: seq<string>, index: nat) returns (found: Option<Node>)
      requires Good(parent) && index < |segments|
      modifies this
      ensures found == At(parent, BestIn(re, query, isRegex, ListOf(parent, isRegex)[0..], segments[index..]))
      ensures params == ParamsAfterIn(re, query, isRegex, ListOf(parent, isRegex), segments[index..], old(params))
      ensures allows == old(allows) + NotedIn(isRegex, ListOf(parent, isRegex), segments[index..])
      decreases |segments| - index, 0
    {
      hide Accepts, Best, BestIn, ParamsAfter, ParamsAfterIn, Seen, SeenIn, Good;
      GoodSelf(parent);
      var seg := segments[index];
      ghost var segs := segments[index..];
      assert segs[1..] == segments[index + 1..];
      var children := ListOf(parent, isRegex);
      assert children[0..] == children;
      var i := 0;
      while i < |children|
        invariant i <= |children|
        invariant BestIn(re, query, isRegex, children[i..], segs) == BestIn(re, query, isRegex, children[0..], segs)
        invariant ParamsAfterIn(re, query, isRegex, children[i..], segs, params)
          == ParamsAfterIn(re, query, isRegex, children, segs, old(params))
        invariant allows + NotedIn(isRegex, children[i..], segs) == old(allows) + NotedIn(isRegex, children, segs)
      {
        var child := children[i];
        assert children[i..][1..] == children[i + 1..];
        ListChild(parent, isRegex, i);
        ChildrenStep(re, query, isRegex, children, i, segs, params);
        if !isRegex || re(child.regex, seg) {
          GoodChild(parent, ElemOf(isRegex, child));
          params := params[child.paramName := seg];
          found := MatchNodes(child, segments, index + 1);
          AtFound(re, query, child, segs[1..]);
          AtUnder(parent, ElemOf(isRegex, child), Best(re, query, child, segs[1..]));
          if found.Some? { return; }
          params := params - {child.paramName};
        }
        i := i + 1;
      }
      assert children[i..] == [];
      ChildrenEnd(re, query, isRegex, segs, params);
      return None;
    }
  }

  /** The node a search settles on. */
  function At(n: Node, b: Option<seq<Elem>>): Option<Node> {
    match b case None => None case Some(path) => NodeAt(n, path)
  }

  lemma {:induction false} AtUnder(n: Node, e: Elem, b: Option<seq<Elem>>)
    requires Child(n, e).Some?
    ensures At(n, Under(e, b)) == At(Child(n, e).value, b)
  {
    if b.Some? { NodeAtCons(n, e, b.value); }
  }

  lemma {:induction false} AtFound(re: RegexMatch, q: Query, n: Node, segs: seq<string>)
    requires Good(n)
    ensures At(n, Best(re, q, n, segs)).Some? <==> Best(re, q, n, segs).Some?
  {
    BestSound(re, q, n, segs);
  }

  lemma {:induction false} AtFoundIn(re: RegexMatch, q: Query, n: Node, isRegex: bool, segs: seq<string>)
    requires Good(n) && segs != []
    ensures var b := BestIn(re, q, isRegex, ListOf(n, isRegex)[0..], segs); At(n, b).Some? <==> b.Some?
  {
    BestInSound(re, q, n, isRegex, 0, segs);
  }

  lemma {:induction false} BestOfNothing(re: RegexMatch, q: Query, n: Node)
    ensures Best(re, q, n, []) == if Accepts(q, n.endpoint) then Some([]) else None
  {
  }

  /** The loop that builds the value of `*`. */
  method RestOf(segments: seq<string>, index: nat) returns (rest: string)
    requires index <= |segments|
    ensures rest == JoinRest(segments[index..])
  {
    rest := "";
    var i := index;
    while i < |segments|
      invariant index <= i <= |segments|
      invariant JoinRest(segments[index..]) == if rest == "" then JoinRest(segments[i..])
        else if i == |segments| then rest else rest + "/" + Join(segments[i..], "/")
    {
      assert segments[i..][1..] == segments[i + 1..];
      ghost var before := rest;
      if rest != "" {
        rest := rest + "/";
      }
      rest := rest + segments[i];
      if before == "" {
        assert segments[i] != "" ==> JoinRest(segments[i..]) == Join(segments[i..], "/");
        assert rest == segments[i];
      } else {
        assert rest == before + "/" + segments[i];
      }
      i := i + 1;
    }
  }

  /** `router_impl`. */
  class RouterImpl {
    const re: RegexMatch
    var root: Node
    /** Every registration made, in order. */
    ghost var routes: seq<Route>

    ghost predicate Valid()
      reads this
    {
      root == Build(routes)
    }

    constructor (re: RegexMatch)
      ensures Valid() && routes == [] && this.re == re
    {
      this.re := re;
      root, routes := ROOT, [];
    }

    method SetHttpHandler(verb: Verb, path: string, handler: Handler)
      requires Valid()
      modifies this
      ensures Valid()
      ensures routes == old(routes) + [Route(Elems(SegmentsOf(path)), Http(verb, handler))]
    {
      var segments := SplitSegments(path);
      root := InsertSegments(root, segments, 0, Http(verb, handler));
      assert segments[0..] == segments;
      routes := routes + [Route(Elems(segments), Http(verb, handler))];
      assert routes[..|routes| - 1] == old(routes);
    }

    method SetWsHandler(path: string, handler: Handler)
      requires Valid()
      modifies this
      ensures Valid()
      ensures routes == old(routes) + [Route(Elems(SegmentsOf(path)), WebSocket(handler))]
    {
      var segments := SplitSegments(path);
      root := InsertSegments(root, segments, 0, WebSocket(handler));
      assert segments[0..] == segments;
      routes := routes + [Route(Elems(segments), WebSocket(handler))];
      assert routes[..|routes| - 1] == old(routes);
    }

    method ProcRouting(verb: Verb, path: string) returns (d: Decision)
      requires Valid()
      ensures d == Decide(re, Build(routes), verb, SegmentsOf(path))
    {
      hide Best, Build, ParamsAfter, Seen, SegmentsOf;
      var segments := SplitSegments(path);
      assert segments[0..] == segments;
      TrieIsTable(routes, []);
      var m := new Matcher(re, ForVerb(verb));
      var node := m.MatchNodes(root, segments, 0);
      assert m.allows == Seen(re, ForVerb(verb), root, segments);
      if node.Some? && verb in node.value.endpoint.handlers {
        return Dispatch(node.value.endpoint.handlers[verb], m.params);
      }
      if m.allows != {} {
        return MethodNotAllowed(m.allows);
      }
      return NotFound;
    }

    method PreRouting(verb: Verb, path: string) returns (refusal: Option<Decision>)
      requires Valid()
      ensures refusal == PreDecide(re, Build(routes), verb, SegmentsOf(path))
    {
      hide Best, Build, ParamsAfter, Seen, SegmentsOf;
      match verb {
        case Get => return None;
        case Head => return None;
        case Trace => return None;
        case Connect => return None;
        case Options => return None;
        case Other(_) =>
      }
      var segments := SplitSegments(path);
      assert segments[0..] == segments;
      TrieIsTable(routes, []);
      var m := new Matcher(re, ForVerb(verb));
      var node := m.MatchNodes(root, segments, 0);
      assert m.allows == Seen(re, ForVerb(verb), root, segments);
      if node.Some? && verb in node.value.endpoint.handlers {
        return None;
      }
      if m.allows != {} {
        return Some(MethodNotAllowed(m.allows));
      }
      return Some(NotFound);
    }

    method QueryWsHandler(path: string) returns (handler: Option<Handler>)
      requires Valid()
      ensures match Best(re, ForWebSocket, Build(routes), SegmentsOf(path))
        case None => handler == None
        case Some(p) => handler == Lookup(routes, p).ws
    {
      hide Best, Build, ParamsAfter, Seen, SegmentsOf, Lookup;
      var segments := SplitSegments(path);
      assert segments[0..] == segments;
      TrieIsTable(routes, []);
      var m := new Matcher(re, ForWebSocket);
      var node := m.MatchNodes(root, segments, 0);
      BestSound(re, ForWebSocket, root, segments);
      if node.None? {
        return None;
      }
      TrieIsTable(routes, Best(re, ForWebSocket, root, segments).value);
      return node.value.endpoint.ws;
    }
  }

  /** `insert`: goes down one segment at a time, making the children that are missing. */
  method InsertSegments(parent: Node, segments: seq<string>, index: nat, entry: Entry) returns (r: Node)
    requires index <= |segments|
    ensures r == Insert(parent, Elems(segments[index..]), entry)
    decreases |segments| - index
  {
    hide RxName, RxRegex, Insert, Elems;
    if index >= |segments| {
      InsertEnd(parent, segments, entry);
      return parent.(endpoint := Attach(parent.endpoint, entry));
    }
    var seg := segments[index];
    var child: Node;
    InsertStep(parent, segments, index, entry);
    if |segments| - 1 == index && seg == "*" {
      child := if parent.wildcard.Some? then parent.wildcard.value else NewNode("*", "", "");
      var c := InsertSegments(child, segments, index + 1, entry);
      return parent.(wildcard := Some(c));
    }
    if seg != "" && seg[0] == ':' {
      var i := IndexOf(parent.params, seg);
      child := if i < |parent.params| then parent.params[i] else NewNode(seg, seg[1..], "");
      var c := InsertSegments(child, segments, index + 1, entry);
      return parent.(params := if i < |parent.params| then parent.params[i := c] else parent.params + [c]);
    }
    if seg != "" && seg[0] == '{' && seg[|seg| - 1] == '}' {
      var i := IndexOf(parent.regexes, seg);
      child := if i < |parent.regexes| then parent.regexes[i] else NewNode(seg, RxName(seg), RxRegex(seg));
      var c := InsertSegments(child, segments, index + 1, entry);
      return parent.(regexes := if i < |parent.regexes| then parent.regexes[i := c] else parent.regexes + [c]);
    }
    child := if seg in parent.statics then parent.statics[seg] else NewNode(seg, "", "");
    var c := InsertSegments(child, segments, index + 1, entry);
    return parent.(statics := parent.statics[seg := c]);
  }

  lemma {:induction false} InsertEnd(parent: Node, segments: seq<string>, entry: Entry)
    ensures Insert(parent, Elems(segments[|segments|..]), entry) == parent.(endpoint := Attach(parent.endpoint, entry))
  {
  }

  lemma {:induction false} InsertStep(parent: Node, segments: seq<string>, index: nat, entry: Entry)
    requires index < |segments|
    ensures var e := Classify(segments[index], index == |segments| - 1);
      Insert(parent, Elems(segments[index..]), entry)
        == PutChild(parent, e, Insert(ChildOrNew(parent, e), Elems(segments[index + 1..]), entry))
  {
    hide ChildOrNew, PutChild;
    var rest := segments[index..];
    assert rest[1..] == segments[index + 1..];
    assert Elems(rest)[1..] == Elems(segments[index + 1..]);
  }
}
