/** The trie is an index over a flat table of routes: registration. */
module RouterTable {
  import opened Text
  import opened RouterTrie

  // ---- tidy tries ----

  ghost predicate TidyList(nodes: seq<Node>, isRegex: bool) {
    && (forall i, j | 0 <= i < j < |nodes| :: nodes[i].key != nodes[j].key)
    && (forall i | 0 <= i < |nodes| ::
          nodes[i].paramName == NodeFor(ElemOf(isRegex, nodes[i])).paramName
          && nodes[i].regex == NodeFor(ElemOf(isRegex, nodes[i])).regex)
  }

  ghost predicate Tidy(n: Node) {
    TidyList(n.regexes, true) && TidyList(n.params, false)
  }

  /** What `insert` keeps true of every node of the trie. */
  ghost predicate Good(n: Node) {
    forall path: seq<Elem> :: NodeAt(n, path).Some? ==> Tidy(NodeAt(n, path).value)
  }

  function ListOf(n: Node, isRegex: bool): seq<Node> {
    if isRegex then n.regexes else n.params
  }

  lemma {:induction false} GoodSelf(n: Node)
    requires Good(n)
    ensures Tidy(n)
  {
    assert NodeAt(n, []) == Some(n);
  }

  lemma {:induction false} NodeAtCons(n: Node, e: Elem, path: seq<Elem>)
    ensures NodeAt(n, [e] + path) == match Child(n, e) case None => None case Some(c) => NodeAt(c, path)
  {
    assert ([e] + path)[1..] == path;
  }

  lemma {:induction false} GoodChild(n: Node, e: Elem)
    requires Good(n) && Child(n, e).Some?
    ensures Good(Child(n, e).value)
  {
    var c := Child(n, e).value;
    forall path: seq<Elem> | NodeAt(c, path).Some? ensures Tidy(NodeAt(c, path).value) {
      NodeAtCons(n, e, path);
    }
  }

  // ---- one registration ----

  lemma {:induction false} IndexOfIs(nodes: seq<Node>, i: nat)
    requires i < |nodes| && forall a, b | 0 <= a < b < |nodes| :: nodes[a].key != nodes[b].key
    ensures IndexOf(nodes, nodes[i].key) == i
  {
  }

  lemma {:induction false} PutInIndex(nodes: seq<Node>, key: string, c: Node, other: string)
    requires c.key == key
    ensures var i, r := IndexOf(nodes, other), PutIn(nodes, key, c);
      && (other == key ==> IndexOf(r, other) == i && i < |r| && r[i] == c)
      && (other != key && i < |nodes| ==> IndexOf(r, other) == i && r[i] == nodes[i])
      && (other != key && i == |nodes| ==> IndexOf(r, other) == |r|)
  {
    var i, r := IndexOf(nodes, other), PutIn(nodes, key, c);
    IndexOfFirst(r, other, if other != key && i == |nodes| then |r| else i);
  }

  lemma {:induction false} IndexOfFirst(nodes: seq<Node>, key: string, i: nat)
    requires i <= |nodes| && (i < |nodes| ==> nodes[i].key == key)
    requires forall j | 0 <= j < i :: nodes[j].key != key
    ensures IndexOf(nodes, key) == i
  {
  }

  lemma {:induction false} ChildPut(n: Node, a: Elem, c: Node, b: Elem)
    requires a.Rx? || a.Par? ==> c.key == Key(a)
    ensures Child(PutChild(n, a, c), b) == if a == b then Some(c) else Child(n, b)
  {
    match (a, b) {
      case (Rx(t), Rx(u)) => PutInIndex(n.regexes, t, c, u);
      case (Par(t), Par(u)) => PutInIndex(n.params, t, c, u);
      case _ =>
    }
  }

  lemma {:induction false} InsertKeeps(n: Node, path: seq<Elem>, e: Entry)
    ensures var m := Insert(n, path, e); m.key == n.key && m.paramName == n.paramName && m.regex == n.regex
    decreases |path|
  {
  }

  lemma {:induction false} ChildOrNewKey(n: Node, e: Elem)
    ensures e.Rx? || e.Par? ==> ChildOrNew(n, e).key == Key(e)
  {
  }

  /** The endpoint under a pattern; nothing when no node is there. */
  function EndpointAt(n: Node, path: seq<Elem>): Endpoint {
    match NodeAt(n, path) case None => NOTHING case Some(c) => c.endpoint
  }

  lemma {:induction false} NewNodeEmpty(e: Elem, path: seq<Elem>)
    ensures EndpointAt(NodeFor(e), path) == NOTHING
    ensures NodeAt(NodeFor(e), path).Some? <==> path == []
  {
  }

  lemma {:induction false} EndpointAtChild(n: Node, path: seq<Elem>)
    requires path != []
    ensures EndpointAt(n, path) == EndpointAt(ChildOrNew(n, path[0]), path[1..])
  {
    NewNodeEmpty(path[0], path[1..]);
  }

  lemma {:induction false} NodeAtInsert(n: Node, path: seq<Elem>, e: Entry, q: seq<Elem>)
    requires path != [] && q != []
    ensures NodeAt(Insert(n, path, e), q)
      == if q[0] == path[0] then NodeAt(Insert(ChildOrNew(n, path[0]), path[1..], e), q[1..]) else NodeAt(n, q)
  {
    var c := Insert(ChildOrNew(n, path[0]), path[1..], e);
    InsertKeeps(ChildOrNew(n, path[0]), path[1..], e);
    ChildOrNewKey(n, path[0]);
    ChildPut(n, path[0], c, q[0]);
  }

  /** A registration changes the endpoint of its own pattern, and of no other. */
  lemma {:induction false} InsertEndpoint(n: Node, path: seq<Elem>, e: Entry, q: seq<Elem>)
    ensures EndpointAt(Insert(n, path, e), q)
      == if q == path then Attach(EndpointAt(n, path), e) else EndpointAt(n, q)
    decreases |path|
  {
    if path == [] {
      if q != [] { assert Child(Insert(n, path, e), q[0]) == Child(n, q[0]); }
    } else if q != [] {
      NodeAtInsert(n, path, e, q);
      if q[0] == path[0] {
        EndpointAtChild(n, q);
        EndpointAtChild(n, path);
        assert q == [q[0]] + q[1..] && path == [path[0]] + path[1..];
        InsertEndpoint(ChildOrNew(n, path[0]), path[1..], e, q[1..]);
      }
    }
  }

  /** It makes the nodes along its pattern, and no other. */
  lemma {:induction false} InsertNodes(n: Node, path: seq<Elem>, e: Entry, q: seq<Elem>)
    ensures NodeAt(Insert(n, path, e), q).Some? <==> NodeAt(n, q).Some? || q <= path
    decreases |path|
  {
    if path == [] {
      if q != [] { assert Child(Insert(n, path, e), q[0]) == Child(n, q[0]); }
    } else if q != [] {
      NodeAtInsert(n, path, e, q);
      if q[0] == path[0] {
        InsertNodes(ChildOrNew(n, path[0]), path[1..], e, q[1..]);
        NewNodeEmpty(path[0], q[1..]);
        assert q <= path <==> q[1..] <= path[1..];
      }
    }
  }

  // ---- child lists ----

  function Keys(nodes: seq<Node>): (r: seq<string>)
    ensures |r| == |nodes| && forall i | 0 <= i < |nodes| :: r[i] == nodes[i].key
  {
    if nodes == [] then [] else [nodes[0].key] + Keys(nodes[1..])
  }

  /** The keys of the regex or param children under a pattern, in creation order. */
  function KeysAt(n: Node, path: seq<Elem>, isRegex: bool): seq<string> {
    match NodeAt(n, path) case None => [] case Some(c) => Keys(ListOf(c, isRegex))
  }

  function ListElem(isRegex: bool, key: string): Elem {
    if isRegex then Rx(key) else Par(key)
  }

  lemma {:induction false} IndexOfKeys(nodes: seq<Node>, key: string)
    ensures IndexOf(nodes, key) < |nodes| <==> key in Keys(nodes)
  {
    var i := IndexOf(nodes, key);
    if i < |nodes| { assert Keys(nodes)[i] == key; }
  }

  lemma {:induction false} KeysPutIn(nodes: seq<Node>, key: string, c: Node)
    requires c.key == key
    ensures Keys(PutIn(nodes, key, c)) == if key in Keys(nodes) then Keys(nodes) else Keys(nodes) + [key]
  {
    IndexOfKeys(nodes, key);
  }

  /** The keys after a registration of `path`: one more, at the end, when it passes
      through a child that is new. */
  function KeysAfter(ks: seq<string>, path: seq<Elem>, at: seq<Elem>, isRegex: bool): seq<string> {
    if at < path && path[|at|] == ListElem(isRegex, Key(path[|at|])) && Key(path[|at|]) !in ks
    then ks + [Key(path[|at|])] else ks
  }

  lemma {:induction false} InsertKeysHere(n: Node, path: seq<Elem>, e: Entry, isRegex: bool)
    requires path != []
    ensures Keys(ListOf(Insert(n, path, e), isRegex)) == KeysAfter(Keys(ListOf(n, isRegex)), path, [], isRegex)
  {
    var c := Insert(ChildOrNew(n, path[0]), path[1..], e);
    InsertKeeps(ChildOrNew(n, path[0]), path[1..], e);
    ChildOrNewKey(n, path[0]);
    if path[0] == ListElem(isRegex, Key(path[0])) {
      KeysPutIn(ListOf(n, isRegex), Key(path[0]), c);
    }
  }

  /** A registration adds at most one child under each pattern: at the end, and only when
      the child is new. */
  lemma {:induction false} InsertKeys(n: Node, path: seq<Elem>, e: Entry, at: seq<Elem>, isRegex: bool)
    ensures KeysAt(Insert(n, path, e), at, isRegex) == KeysAfter(KeysAt(n, at, isRegex), path, at, isRegex)
    decreases |path|
  {
    hide Keys, ChildOrNew, PutChild, KeysAfter;
    KeysAfterCases(KeysAt(n, at, isRegex), path, at, isRegex);
    if path == [] {
      if at != [] { assert Child(Insert(n, path, e), at[0]) == Child(n, at[0]); }
    } else if at == [] {
      InsertKeysHere(n, path, e, isRegex);
    } else {
      NodeAtInsert(n, path, e, at);
      if at[0] == path[0] {
        InsertKeys(ChildOrNew(n, path[0]), path[1..], e, at[1..], isRegex);
        KeysAtChild(n, at, isRegex);
      }
    }
  }

  lemma {:induction false} KeysAfterCases(ks: seq<string>, path: seq<Elem>, at: seq<Elem>, isRegex: bool)
    ensures path == [] ==> KeysAfter(ks, path, at, isRegex) == ks
    ensures path != [] && at != [] ==>
      KeysAfter(ks, path, at, isRegex) == if at[0] == path[0] then KeysAfter(ks, path[1..], at[1..], isRegex) else ks
  {
    if path != [] && at != [] && at[0] == path[0] {
      assert at < path <==> at[1..] < path[1..];
    }
  }

  lemma {:induction false} KeysAtChild(n: Node, at: seq<Elem>, isRegex: bool)
    requires at != []
    ensures KeysAt(n, at, isRegex) == KeysAt(ChildOrNew(n, at[0]), at[1..], isRegex)
  {
    NewNodeKeys(at[0], at[1..], isRegex);
  }

  lemma {:induction false} NewNodeKeys(e: Elem, at: seq<Elem>, isRegex: bool)
    ensures KeysAt(NodeFor(e), at, isRegex) == []
  {
  }

  // ---- what stays tidy ----

  lemma {:induction false} TidyPut(n: Node, a: Elem, c: Node)
    requires Tidy(n) && (a.Rx? || a.Par? ==> c.key == Key(a) && c.paramName == NodeFor(a).paramName && c.regex == NodeFor(a).regex)
    ensures Tidy(PutChild(n, a, c))
  {
    hide PutIn, TidyList;
    match a {
      case Rx(t) => TidyPutIn(n.regexes, true, t, c);
      case Par(t) => TidyPutIn(n.params, false, t, c);
      case _ =>
    }
  }

  lemma {:induction false} TidyPutIn(nodes: seq<Node>, isRegex: bool, key: string, c: Node)
    requires TidyList(nodes, isRegex) && c.key == key
    requires c.paramName == NodeFor(ElemOf(isRegex, c)).paramName && c.regex == NodeFor(ElemOf(isRegex, c)).regex
    ensures TidyList(PutIn(nodes, key, c), isRegex)
  {
    hide NodeFor;
  }

  lemma {:induction false} InsertGood(n: Node, path: seq<Elem>, e: Entry)
    requires Good(n)
    ensures Good(Insert(n, path, e))
    decreases |path|
  {
    GoodSelf(n);
    var m := Insert(n, path, e);
    if path != [] {
      var c := ChildOrNew(n, path[0]);
      ChildGood(n, path[0]);
      InsertGood(c, path[1..], e);
      InsertKeeps(c, path[1..], e);
      ChildOrNewKey(n, path[0]);
      TidyPut(n, path[0], Insert(c, path[1..], e));
    }
    forall q: seq<Elem> | NodeAt(m, q).Some? ensures Tidy(NodeAt(m, q).value) {
      if q != [] {
        if path == [] {
          assert Child(m, q[0]) == Child(n, q[0]);
          assert NodeAt(m, q) == NodeAt(n, q);
        } else {
          NodeAtInsert(n, path, e, q);
        }
      }
    }
  }

  /** The node an insertion goes down into is good and carries what its element says. */
  lemma {:induction false} ChildGood(n: Node, e: Elem)
    requires Good(n)
    ensures Good(ChildOrNew(n, e))
    ensures e.Rx? || e.Par? ==> ChildOrNew(n, e).paramName == NodeFor(e).paramName && ChildOrNew(n, e).regex == NodeFor(e).regex
  {
    GoodSelf(n);
    if Child(n, e).Some? {
      GoodChild(n, e);
    } else {
      forall q: seq<Elem> | NodeAt(NodeFor(e), q).Some? ensures Tidy(NodeAt(NodeFor(e), q).value) {
        NewNodeEmpty(e, q);
      }
    }
  }

  // ---- all registrations ----

  /** A registration: the pattern and what is attached to it. */
  datatype Route = Route(path: seq<Elem>, entry: Entry)

  function Build(routes: seq<Route>): Node {
    if routes == [] then ROOT
    else Insert(Build(routes[..|routes| - 1]), routes[|routes| - 1].path, routes[|routes| - 1].entry)
  }

  /** The flat table: what the registrations of one pattern add up to, in order. */
  function Lookup(routes: seq<Route>, path: seq<Elem>): Endpoint {
    if routes == [] then NOTHING
    else
      var before, r := Lookup(routes[..|routes| - 1], path), routes[|routes| - 1];
      if r.path == path then Attach(before, r.entry) else before
  }

  lemma {:induction false} BuildGood(routes: seq<Route>)
    ensures Good(Build(routes))
    decreases |routes|
  {
    hide Good, Insert;
    if routes == [] {
      RootGood();
    } else {
      BuildGood(routes[..|routes| - 1]);
      InsertGood(Build(routes[..|routes| - 1]), routes[|routes| - 1].path, routes[|routes| - 1].entry);
    }
  }

  lemma {:induction false} RootGood()
    ensures Good(ROOT) && forall q: seq<Elem> :: NodeAt(ROOT, q).Some? <==> q == []
  {
    forall q: seq<Elem> ensures NodeAt(ROOT, q).Some? <==> q == [] { }
  }

  /** Some registration passes through `path`. */
  predicate Used(routes: seq<Route>, path: seq<Elem>) {
    exists i | 0 <= i < |routes| :: path <= routes[i].path
  }

  lemma {:induction false} UsedSnoc(init: seq<Route>, r: Route, path: seq<Elem>)
    ensures Used(init + [r], path) <==> Used(init, path) || path <= r.path
  {
    var all := init + [r];
    assert all[|init|] == r && forall i | 0 <= i < |init| :: all[i] == init[i];
    if Used(init, path) {
      var i :| 0 <= i < |init| && path <= init[i].path;
      assert path <= all[i].path;
    }
  }

  /** The trie answers as the flat table does, for every pattern; a node stands exactly
      where some registration passes. */
  lemma {:induction false} TrieIsTable(routes: seq<Route>, path: seq<Elem>)
    ensures EndpointAt(Build(routes), path) == Lookup(routes, path)
    ensures NodeAt(Build(routes), path).Some? <==> path == [] || Used(routes, path)
    ensures Good(Build(routes))
    decreases |routes|
  {
    hide Good, Insert, Used, NodeAt;
    BuildGood(routes);
    if routes == [] {
      RootGood();
      RootEmpty(path);
    } else {
      var init, r := routes[..|routes| - 1], routes[|routes| - 1];
      TrieIsTable(init, path);
      InsertEndpoint(Build(init), r.path, r.entry, path);
      InsertNodes(Build(init), r.path, r.entry, path);
      UsedSnoc(init, r, path);
      assert init + [r] == routes;
    }
  }

  lemma {:induction false} RootEmpty(path: seq<Elem>)
    ensures EndpointAt(ROOT, path) == NOTHING && !Used([], path)
  {
  }

  /** The last registration of a (pattern, verb) wins. */
  lemma {:induction false} LastHandlerWins(routes: seq<Route>, i: nat, verb: Verb, handler: Handler)
    requires i < |routes| && routes[i].entry == Http(verb, handler)
    requires forall j | i < j < |routes| :: routes[j].path == routes[i].path && routes[j].entry.Http? ==> routes[j].entry.verb != verb
    ensures var h := EndpointAt(Build(routes), routes[i].path).handlers; verb in h && h[verb] == handler
    decreases |routes|
  {
    TrieIsTable(routes, routes[i].path);
    if i < |routes| - 1 {
      var init := routes[..|routes| - 1];
      assert init[i] == routes[i];
      LastHandlerWins(init, i, verb, handler);
      TrieIsTable(init, routes[i].path);
    }
  }

  /** A registration of `path` for a verb, or for WebSocket connections. */
  predicate Registers(r: Route, path: seq<Elem>, q: Query) {
    r.path == path && match q case ForVerb(v) => r.entry.Http? && r.entry.verb == v case ForWebSocket => r.entry.WebSocket?
  }

  function Registered(p: Endpoint, q: Query): Option<Handler> {
    match q
    case ForVerb(v) => if v in p.handlers then Some(p.handlers[v]) else None
    case ForWebSocket => p.ws
  }

  /** What stands at a pattern, for a verb or for WebSocket connections: nothing if it was
      never registered for that, and otherwise the handler of the last such registration,
      whatever else is registered there. */
  lemma {:induction false} LastRegistrationWins(routes: seq<Route>, path: seq<Elem>, q: Query)
    ensures match Registered(Lookup(routes, path), q)
      case None => forall i | 0 <= i < |routes| :: !Registers(routes[i], path, q)
      case Some(h) => exists i | 0 <= i < |routes| ::
        && Registers(routes[i], path, q) && routes[i].entry.handler == h
        && forall j | i < j < |routes| :: !Registers(routes[j], path, q)
    decreases |routes|
  {
    if routes != [] {
      var init, last := routes[..|routes| - 1], |routes| - 1;
      LastRegistrationWins(init, path, q);
      assert forall i | 0 <= i < last :: init[i] == routes[i];
      if Registers(routes[last], path, q) {
        assert Registered(Lookup(routes, path), q) == Some(routes[last].entry.handler);
      } else {
        assert Registered(Lookup(routes, path), q) == Registered(Lookup(init, path), q);
        if Registered(Lookup(init, path), q).Some? {
          var i :| 0 <= i < |init| && Registers(init[i], path, q)
            && init[i].entry.handler == Registered(Lookup(init, path), q).value
            && forall j | i < j < |init| :: !Registers(init[j], path, q);
          assert Registers(routes[i], path, q);
        }
      }
    }
  }

  // ---- creation order ----

  /** The first registration that passes below a pattern. */
  function FirstUse(routes: seq<Route>, prefix: seq<Elem>): (i: nat)
    ensures i <= |routes|
    ensures i < |routes| ==> prefix <= routes[i].path
    ensures forall j | 0 <= j < i :: !(prefix <= routes[j].path)
  {
    if routes == [] || prefix <= routes[0].path then 0 else 1 + FirstUse(routes[1..], prefix)
  }

  /** `keys` are in the order in which they were first registered below `at`. */
  ghost predicate InCreationOrder(routes: seq<Route>, at: seq<Elem>, isRegex: bool, keys: seq<string>) {
    && (forall i | 0 <= i < |keys| :: Created(routes, at, isRegex, keys[i]) < |routes|)
    && (forall i, j | 0 <= i < j < |keys| ::
          Created(routes, at, isRegex, keys[i]) < Created(routes, at, isRegex, keys[j]))
  }

  /** When the child `key` below `at` came to be. */
  function Created(routes: seq<Route>, at: seq<Elem>, isRegex: bool, key: string): nat {
    FirstUse(routes, at + [ListElem(isRegex, key)])
  }

  /** Regex and param children stand in the order in which they were first registered. */
  lemma {:induction false} CreationOrder(routes: seq<Route>, at: seq<Elem>, isRegex: bool)
    ensures InCreationOrder(routes, at, isRegex, KeysAt(Build(routes), at, isRegex))
    decreases |routes|
  {
    hide KeysAfter, InCreationOrder;
    if routes == [] {
      if at != [] { assert Child(ROOT, at[0]) == None; }
      assert InCreationOrder(routes, at, isRegex, []) by { NothingCreated(at, isRegex); }
    } else {
      var init, r := routes[..|routes| - 1], routes[|routes| - 1];
      assert routes == init + [r];
      CreationOrder(init, at, isRegex);
      InsertKeys(Build(init), r.path, r.entry, at, isRegex);
      var kept := KeysAt(Build(init), at, isRegex);
      if |at| < |r.path| && Key(r.path[|at|]) !in kept {
        NotUsedBefore(init, at, isRegex, Key(r.path[|at|]));
      }
      CreationOrderSnoc(init, r, at, isRegex, kept);
    }
  }

  lemma {:induction false} NothingCreated(at: seq<Elem>, isRegex: bool)
    ensures InCreationOrder([], at, isRegex, [])
  {
  }

  lemma {:induction false} CreationOrderSnoc(init: seq<Route>, r: Route, at: seq<Elem>, isRegex: bool, keys: seq<string>)
    requires InCreationOrder(init, at, isRegex, keys)
    requires |at| < |r.path| && Key(r.path[|at|]) !in keys ==> Created(init, at, isRegex, Key(r.path[|at|])) == |init|
    ensures InCreationOrder(init + [r], at, isRegex, KeysAfter(keys, r.path, at, isRegex))
  {
    hide FirstUse;
    var all, after := init + [r], KeysAfter(keys, r.path, at, isRegex);
    forall i | 0 <= i < |keys|
      ensures after[i] == keys[i] && Created(all, at, isRegex, keys[i]) == Created(init, at, isRegex, keys[i])
    {
      FirstUseSnoc(init, r, at + [ListElem(isRegex, keys[i])]);
    }
    if |after| > |keys| {
      var prefix := at + [ListElem(isRegex, Key(r.path[|at|]))];
      assert prefix <= r.path;
      FirstUseSnoc(init, r, prefix);
    }
  }

  lemma {:induction false} FirstUseSnoc(init: seq<Route>, r: Route, prefix: seq<Elem>)
    ensures FirstUse(init + [r], prefix) ==
      if FirstUse(init, prefix) < |init| then FirstUse(init, prefix)
      else if prefix <= r.path then |init| else |init| + 1
  {
    var all := init + [r];
    var i, j := FirstUse(init, prefix), FirstUse(all, prefix);
    assert forall k | 0 <= k < |init| :: all[k] == init[k];
    assert all[|init|] == r;
  }

  /** A child that is not there was never passed. */
  lemma {:induction false} NotUsedBefore(routes: seq<Route>, at: seq<Elem>, isRegex: bool, key: string)
    requires key !in KeysAt(Build(routes), at, isRegex)
    ensures FirstUse(routes, at + [ListElem(isRegex, key)]) == |routes|
  {
    var prefix := at + [ListElem(isRegex, key)];
    TrieIsTable(routes, prefix);
    NodeAtSnoc(Build(routes), at, ListElem(isRegex, key));
    match NodeAt(Build(routes), at) {
      case None =>
      case Some(c) => IndexOfKeys(ListOf(c, isRegex), key);
    }
  }

  lemma {:induction false} NodeAtSnoc(n: Node, at: seq<Elem>, e: Elem)
    ensures NodeAt(n, at + [e]) == match NodeAt(n, at) case None => None case Some(c) => Child(c, e)
    decreases |at|
  {
    if at == [] {
      NodeAtCons(n, e, []);
      assert [] + [e] == [e] + [];
    } else {
      assert (at + [e])[1..] == at[1..] + [e];
      if Child(n, at[0]).Some? { NodeAtSnoc(Child(n, at[0]).value, at[1..], e); }
    }
  }

  /** Patterns are the same exactly when their segment lists are, so two registrations
      share a node exactly then. */
  lemma {:induction false} ElemsInjective(a: seq<string>, b: seq<string>)
    ensures Elems(a) == Elems(b) <==> a == b
    decreases |a|
  {
    if Elems(a) == Elems(b) && a != [] {
      assert b != [];
      assert Elems(a)[0] == Elems(b)[0] && Elems(a)[1..] == Elems(b)[1..];
      assert Key(Elems(a)[0]) == a[0] && Key(Elems(b)[0]) == b[0];
      ElemsInjective(a[1..], b[1..]);
      assert a == [a[0]] + a[1..] && b == [b[0]] + b[1..];
    }
  }
}
