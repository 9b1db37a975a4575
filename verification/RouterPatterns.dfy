/** What the text of a route means: its segments against those of a request, the names it
    binds, and the decision on a request told from the registered texts alone. */
module RouterPatterns {
  import opened Text
  import opened Splitter
  import opened RouterTrie
  import opened RouterTable
  import opened RouterSearch
  import opened RouterBindings
  import opened Router

  // ---- one segment ----

  /** `{name:rx}`, cut at its first colon, or `{rx}`, which is its own name. */
  predicate IsRegexText(seg: string, name: string, rx: string) {
    || (seg == "{" + name + ":" + rx + "}" && ':' !in name)
    || (seg == "{" + rx + "}" && ':' !in rx && name == rx)
  }

  lemma {:induction false} InsideOf(inner: string)
    ensures Inside("{" + inner + "}") == inner
    ensures forall last :: Classify("{" + inner + "}", last) == Rx("{" + inner + "}")
  {
    var seg := "{" + inner + "}";
    assert seg[0] == '{' && seg[|seg| - 1] == '}' && seg != "*" && seg[1..|seg| - 1] == inner;
  }

  /** A segment in braces is a regex child with that name and that expression. */
  lemma {:induction false} RegexText(seg: string, name: string, rx: string, last: bool)
    requires IsRegexText(seg, name, rx)
    ensures Classify(seg, last) == Rx(seg)
    ensures NodeFor(Rx(seg)).paramName == name && NodeFor(Rx(seg)).regex == rx
    ensures Binds(Rx(seg)) == Some(name)
  {
    hide Find, FindFrom, Inside;
    if seg == "{" + name + ":" + rx + "}" && ':' !in name {
      var inner := name + ":" + rx;
      assert seg == "{" + inner + "}";
      InsideOf(inner);
      LacksChar(name, ':');
      FindAfter(name, ":", rx);
      assert inner[..|name|] == name && inner[|name| + 1..] == rx;
    } else {
      InsideOf(rx);
      LacksChar(rx, ':');
    }
  }

  /** Every regex child has a name and an expression in that sense. */
  lemma {:induction false} RegexTextOf(seg: string, last: bool) returns (name: string, rx: string)
    requires Classify(seg, last).Rx?
    ensures IsRegexText(seg, name, rx)
  {
    hide Find, FindFrom;
    assert |seg| >= 2;
    var inner := seg[1..|seg| - 1];
    assert seg == "{" + inner + "}";
    match Find(inner, ":") {
      case None =>
        LacksChar(inner, ':');
        name, rx := inner, inner;
      case Some(k) =>
        LacksBefore(inner, ":", k);
        LacksChar(inner[..k], ':');
        name, rx := inner[..k], inner[k + 1..];
        assert inner == name + ":" + rx;
        assert seg == "{" + name + ":" + rx + "}";
    }
  }

  /** `:name` is a parameter with that name. */
  lemma {:induction false} ParameterText(name: string, last: bool)
    ensures Classify(":" + name, last) == Par(":" + name)
    ensures NodeFor(Par(":" + name)).paramName == name && Binds(Par(":" + name)) == Some(name)
  {
  }

  /** `*` is everything that is left when it comes last, and plain text elsewhere. */
  lemma {:induction false} StarText(last: bool)
    ensures Classify("*", last) == if last then Rest else Lit("*")
    ensures NodeFor(Rest).key == "*" && Binds(Rest) == Some("*")
  {
  }

  /** All other text is taken literally, and no other. */
  lemma {:induction false} PlainText(seg: string, last: bool)
    ensures Classify(seg, last) == Lit(seg)
      <==> !(last && seg == "*") && !(":" <= seg) && !exists name, rx :: IsRegexText(seg, name, rx)
  {
    hide IsRegexText;
    if exists name, rx :: IsRegexText(seg, name, rx) {
      var name, rx :| IsRegexText(seg, name, rx);
      RegexText(seg, name, rx, last);
    } else if Classify(seg, last).Rx? {
      var name, rx := RegexTextOf(seg, last);
    }
  }

  // ---- patterns against requests ----

  /** One segment of a route that is not a final `*`, against one of a request. */
  ghost predicate SegmentFits(re: RegexMatch, pattern: string, seg: string) {
    || ":" <= pattern
    || (exists name, rx :: IsRegexText(pattern, name, rx) && re(rx, seg))
    || (pattern == seg && !exists name, rx :: IsRegexText(pattern, name, rx))
  }

  /** A route against a request, both as segments. */
  ghost predicate Fits(re: RegexMatch, patterns: seq<string>, segs: seq<string>)
    decreases |patterns|
  {
    if patterns == [] then segs == []
    else if patterns == ["*"] then segs != []
    else segs != [] && SegmentFits(re, patterns[0], segs[0]) && Fits(re, patterns[1..], segs[1..])
  }

  lemma {:induction false} SegmentMeaning(re: RegexMatch, pattern: string, last: bool, seg: string)
    requires !(last && pattern == "*")
    ensures ElemMatches(re, Classify(pattern, last), seg) <==> SegmentFits(re, pattern, seg)
    ensures Classify(pattern, last) != Rest
  {
    hide RxRegex;
    PlainText(pattern, last);
    if Classify(pattern, last).Rx? {
      var name, rx := RegexTextOf(pattern, last);
      RegexText(pattern, name, rx, last);
      forall n, r | IsRegexText(pattern, n, r) ensures r == rx { RegexText(pattern, n, r, last); }
    } else if Classify(pattern, last).Par? {
      forall n, r ensures !IsRegexText(pattern, n, r) { }
    }
  }

  /** The trie's reading of a route is that of its text. */
  lemma {:induction false} PatternMeaning(re: RegexMatch, patterns: seq<string>, segs: seq<string>)
    ensures Matches(re, Elems(patterns), segs) <==> Fits(re, patterns, segs)
    decreases |patterns|
  {
    hide SegmentFits, ElemMatches, Classify;
    if patterns != [] {
      var last := |patterns| == 1;
      assert Elems(patterns)[0] == Classify(patterns[0], last) && Elems(patterns)[1..] == Elems(patterns[1..]);
      if last && patterns[0] == "*" {
        StarText(true);
        assert patterns == ["*"];
      } else {
        if segs != [] {
          SegmentMeaning(re, patterns[0], last, segs[0]);
          PatternMeaning(re, patterns[1..], segs[1..]);
        } else {
          SegmentMeaning(re, patterns[0], last, "");
        }
      }
    }
  }

  // ---- what a route binds ----

  /** The `i`th segment of a route binds `x`. */
  ghost predicate BindsAt(patterns: seq<string>, i: nat, x: string)
    requires i < |patterns|
  {
    if i == |patterns| - 1 && patterns[i] == "*" then x == "*"
    else patterns[i] == ":" + x || exists rx :: IsRegexText(patterns[i], x, rx)
  }

  lemma {:induction false} BindsMeaning(patterns: seq<string>, i: nat, x: string)
    requires i < |patterns|
    ensures Elems(patterns)[i] == Classify(patterns[i], i == |patterns| - 1)
    ensures Binds(Elems(patterns)[i]) == Some(x) <==> BindsAt(patterns, i, x)
  {
    hide IsRegexText, RxName;
    ElemsAt(patterns, i);
    var p, last := patterns[i], i == |patterns| - 1;
    match Classify(p, last) {
      case Rx(_) =>
        var name, rx := RegexTextOf(p, last);
        RegexText(p, name, rx, last);
        forall n, r | IsRegexText(p, n, r) ensures n == name { RegexText(p, n, r, last); }
      case Par(_) =>
        assert p == ":" + p[1..];
        if p == ":" + x { assert x == p[1..]; }
        forall n, r | IsRegexText(p, n, r) ensures false { RegexText(p, n, r, last); }
      case Rest =>
      case Lit(_) => PlainText(p, last);
    }
  }

  lemma {:induction false} ElemsAt(patterns: seq<string>, i: nat)
    requires i < |patterns|
    ensures Elems(patterns)[i] == Classify(patterns[i], i == |patterns| - 1)
    decreases i
  {
    hide Classify;
    if i > 0 { ElemsAt(patterns[1..], i - 1); }
  }

  /** The value a route's `i`th segment binds. */
  function ValueAt(patterns: seq<string>, i: nat, segs: seq<string>): string
    requires i < |patterns| && i < |segs|
  {
    if i == |patterns| - 1 && patterns[i] == "*" then JoinRest(segs[i..]) else segs[i]
  }

  /** What a route binds on a request that fits it: exactly the names in its text, each to
      the segment at its last place, and a final `*` to the rest. */
  lemma {:induction false} BindingsMeaning(re: RegexMatch, patterns: seq<string>, segs: seq<string>, x: string)
    requires Fits(re, patterns, segs)
    ensures var b := Bindings(Elems(patterns), segs);
      if x in b then exists i: nat :: BoundLastAt(patterns, i, x, segs, b[x])
      else forall i: nat | i < |patterns| :: !BindsAt(patterns, i, x)
    decreases |patterns|
  {
    hide SegmentFits, BindsAt, Classify, JoinRest, BoundLastAt, ValueAt;
    if patterns == ["*"] {
      BoundByStar(patterns, segs, x);
    } else if patterns != [] {
      SegmentMeaning(re, patterns[0], |patterns| == 1, segs[0]);
      BindsMeaning(patterns, 0, x);
      BindingsMeaning(re, patterns[1..], segs[1..], x);
      var later := Bindings(Elems(patterns[1..]), segs[1..]);
      assert Elems(patterns)[1..] == Elems(patterns[1..]);
      if x in later {
        var i: nat :| BoundLastAt(patterns[1..], i, x, segs[1..], later[x]);
        BoundLater(patterns, i, x, segs, later[x]);
      } else {
        forall i: nat | 0 < i < |patterns| ensures !BindsAt(patterns, i, x) {
          BindsLater(patterns, i, x);
          assert !BindsAt(patterns[1..], i - 1, x);
        }
        BoundHere(patterns, x, segs);
      }
    }
  }

  /** `x` is bound at the `i`th segment, to `value`, and not after it. */
  ghost predicate BoundLastAt(patterns: seq<string>, i: nat, x: string, segs: seq<string>, value: string) {
    && i < |patterns| && i < |segs|
    && BindsAt(patterns, i, x) && value == ValueAt(patterns, i, segs)
    && forall j: nat | i < j < |patterns| :: !BindsAt(patterns, j, x)
  }

  lemma {:induction false} BoundByStar(patterns: seq<string>, segs: seq<string>, x: string)
    requires patterns == ["*"] && segs != []
    ensures Bindings(Elems(patterns), segs) == map["*" := JoinRest(segs)]
    ensures if x == "*" then BoundLastAt(patterns, 0, x, segs, JoinRest(segs)) else !BindsAt(patterns, 0, x)
  {
    hide JoinRest;
    StarText(true);
    assert segs[0..] == segs;
  }

  lemma {:induction false} BoundHere(patterns: seq<string>, x: string, segs: seq<string>)
    requires patterns != [] && segs != [] && patterns != ["*"]
    requires forall i: nat | 0 < i < |patterns| :: !BindsAt(patterns, i, x)
    ensures BindsAt(patterns, 0, x) ==> BoundLastAt(patterns, 0, x, segs, segs[0])
  {
    hide BindsAt;
    assert |patterns| == 1 ==> patterns == [patterns[0]];
  }

  lemma {:induction false} BoundLater(patterns: seq<string>, i: nat, x: string, segs: seq<string>, value: string)
    requires patterns != [] && segs != [] && BoundLastAt(patterns[1..], i, x, segs[1..], value)
    ensures BoundLastAt(patterns, i + 1, x, segs, value)
  {
    hide BindsAt, JoinRest;
    assert segs[1..][i..] == segs[i + 1..];
    BindsLater(patterns, i + 1, x);
    forall j: nat | i + 1 < j < |patterns| ensures !BindsAt(patterns, j, x) {
      BindsLater(patterns, j, x);
      assert !BindsAt(patterns[1..], j - 1, x);
    }
  }

  lemma {:induction false} BindsLater(patterns: seq<string>, i: nat, x: string)
    requires 0 < i < |patterns|
    ensures BindsAt(patterns, i, x) <==> BindsAt(patterns[1..], i - 1, x)
  {
    hide IsRegexText;
  }

  // ---- a request against the registered texts ----

  /** One call of `set_http_handler` or `set_ws_handler`. */
  datatype Registration = Registration(path: string, entry: Entry)

  function Routes(table: seq<Registration>): (r: seq<Route>)
    ensures |r| == |table|
    ensures forall i | 0 <= i < |table| :: r[i] == Route(Elems(SegmentsOf(table[i].path)), table[i].entry)
  {
    seq(|table|, i requires 0 <= i < |table| => Route(Elems(SegmentsOf(table[i].path)), table[i].entry))
  }

  /** A registration for a verb whose text fits the request. */
  ghost predicate Serves(re: RegexMatch, r: Registration, verb: Verb, request: string) {
    r.entry.Http? && r.entry.verb == verb && Fits(re, SegmentsOf(r.path), SegmentsOf(request))
  }

  lemma {:induction false} AllowedMeaning(table: seq<Registration>, re: RegexMatch, verb: Verb, request: string)
    ensures Allowed(Routes(table), re, SegmentsOf(request), verb)
      <==> exists i | 0 <= i < |table| :: Serves(re, table[i], verb, request)
  {
    hide SegmentsOf, Fits, Matches, Lookup, Elems;
    var routes, segs := Routes(table), SegmentsOf(request);
    if Allowed(routes, re, segs, verb) {
      var path: seq<Elem> :| Matches(re, path, segs) && verb in Lookup(routes, path).handlers;
      LastRegistrationWins(routes, path, ForVerb(verb));
      var i :| 0 <= i < |routes| && Registers(routes[i], path, ForVerb(verb));
      PatternMeaning(re, SegmentsOf(table[i].path), segs);
      assert Serves(re, table[i], verb, request);
    }
    if exists i | 0 <= i < |table| :: Serves(re, table[i], verb, request) {
      var i :| 0 <= i < |table| && Serves(re, table[i], verb, request);
      PatternMeaning(re, SegmentsOf(table[i].path), segs);
      LastRegistrationWins(routes, routes[i].path, ForVerb(verb));
      assert Registers(routes[i], routes[i].path, ForVerb(verb));
      assert Matches(re, routes[i].path, segs) && verb in Lookup(routes, routes[i].path).handlers;
    }
  }

  /** The decision, told from the texts of the routes: a handler runs if and only if some
      route registered for the verb fits, and it is the one registered last for its route;
      otherwise 405 names exactly the verbs of the routes that fit, and 404 means that
      there are none. */
  lemma {:induction false} RequestIsRouted(table: seq<Registration>, re: RegexMatch, verb: Verb, request: string)
    ensures match Decide(re, Build(Routes(table)), verb, SegmentsOf(request))
      case Dispatch(h, _) => exists i | 0 <= i < |table| ::
        && Serves(re, table[i], verb, request) && table[i].entry.handler == h
        && forall j | i < j < |table| && SegmentsOf(table[j].path) == SegmentsOf(table[i].path) ::
             !(table[j].entry.Http? && table[j].entry.verb == verb)
      case MethodNotAllowed(allow) =>
        && (forall i | 0 <= i < |table| :: !Serves(re, table[i], verb, request))
        && allow != {}
        && forall v: Verb :: v in allow <==> exists i | 0 <= i < |table| :: Serves(re, table[i], v, request)
      case NotFound => forall i, v: Verb | 0 <= i < |table| :: !Serves(re, table[i], v, request)
  {
    hide SegmentsOf, Fits, Matches, Lookup, Elems, Build, Decide, Outranks, KeepsNames, Bindings, Serves, Allowed;
    var routes, segs := Routes(table), SegmentsOf(request);
    DecisionIsTable(routes, re, verb, segs);
    forall v: Verb { AllowedMeaning(table, re, v, request); }
    match Decide(re, Build(routes), verb, segs) {
      case Dispatch(h, params) =>
        var p: seq<Elem> :| TableCandidate(routes, re, ForVerb(verb), p, segs) && h == Lookup(routes, p).handlers[verb];
        var i := LastOf(table, re, verb, request, p, h);
      case NotFound =>
        forall i, v: Verb | 0 <= i < |table| ensures !Serves(re, table[i], v, request) {
          AllowedMeaning(table, re, v, request);
        }
      case _ =>
    }
  }

  lemma {:induction false} LastOf(table: seq<Registration>, re: RegexMatch, verb: Verb, request: string, p: seq<Elem>, h: Handler)
    returns (i: nat)
    requires TableCandidate(Routes(table), re, ForVerb(verb), p, SegmentsOf(request))
    requires h == Lookup(Routes(table), p).handlers[verb]
    ensures i < |table| && Serves(re, table[i], verb, request) && table[i].entry.handler == h
    ensures forall j | i < j < |table| && SegmentsOf(table[j].path) == SegmentsOf(table[i].path) ::
      !(table[j].entry.Http? && table[j].entry.verb == verb)
  {
    hide SegmentsOf, Fits, Matches, Lookup, Elems;
    var routes := Routes(table);
    LastRegistrationWins(routes, p, ForVerb(verb));
    i :| 0 <= i < |routes| && Registers(routes[i], p, ForVerb(verb)) && routes[i].entry.handler == h
      && forall j | i < j < |routes| :: !Registers(routes[j], p, ForVerb(verb));
    PatternMeaning(re, SegmentsOf(table[i].path), SegmentsOf(request));
    forall j | i < j < |table| && SegmentsOf(table[j].path) == SegmentsOf(table[i].path)
      ensures !(table[j].entry.Http? && table[j].entry.verb == verb)
    {
      assert !Registers(routes[j], p, ForVerb(verb));
    }
  }

  /** A WebSocket registration whose text fits the request. */
  ghost predicate Connects(re: RegexMatch, r: Registration, request: string) {
    r.entry.WebSocket? && Fits(re, SegmentsOf(r.path), SegmentsOf(request))
  }

  /** A WebSocket request finds a handler if and only if some WebSocket route fits, and then
      one that was registered last for its route. */
  lemma {:induction false} SocketIsRouted(table: seq<Registration>, re: RegexMatch, request: string)
    ensures match Best(re, ForWebSocket, Build(Routes(table)), SegmentsOf(request))
      case None => forall i | 0 <= i < |table| :: !Connects(re, table[i], request)
      case Some(p) => exists i | 0 <= i < |table| ::
        && Connects(re, table[i], request) && Lookup(Routes(table), p).ws == Some(table[i].entry.handler)
        && forall j | i < j < |table| && SegmentsOf(table[j].path) == SegmentsOf(table[i].path) :: !table[j].entry.WebSocket?
  {
    hide SegmentsOf, Fits, Matches, Lookup, Elems, Build, Outranks, Best;
    var routes, segs := Routes(table), SegmentsOf(request);
    SearchIsTable(routes, re, ForWebSocket, segs);
    match Best(re, ForWebSocket, Build(routes), segs) {
      case None =>
        forall i | 0 <= i < |table| ensures !Connects(re, table[i], request) {
          var path := routes[i].path;
          assert !TableCandidate(routes, re, ForWebSocket, path, segs);
          PatternMeaning(re, SegmentsOf(table[i].path), segs);
          LastRegistrationWins(routes, path, ForWebSocket);
          assert Registers(routes[i], path, ForWebSocket) <==> table[i].entry.WebSocket?;
        }
      case Some(p) =>
        LastRegistrationWins(routes, p, ForWebSocket);
        var i :| 0 <= i < |routes| && Registers(routes[i], p, ForWebSocket)
          && Lookup(routes, p).ws == Some(routes[i].entry.handler)
          && forall j | i < j < |routes| :: !Registers(routes[j], p, ForWebSocket);
        PatternMeaning(re, SegmentsOf(table[i].path), segs);
        assert Connects(re, table[i], request);
        forall j | i < j < |table| && SegmentsOf(table[j].path) == SegmentsOf(table[i].path)
          ensures !table[j].entry.WebSocket?
        {
          assert !Registers(routes[j], p, ForWebSocket);
        }
    }
  }

  /** The check before the body is read, verb by verb. */
  lemma {:induction false} SearchedVerbs(table: seq<Registration>, re: RegexMatch, verb: Verb, request: string)
    ensures PreDecide(re, Build(Routes(table)), verb, SegmentsOf(request)) == None
      <==> verb in {Verb.Get, Head, Trace, Connect, Options} || exists i | 0 <= i < |table| :: Serves(re, table[i], verb, request)
  {
    hide SegmentsOf, Build, PreDecide, Serves, Allowed, Decide;
    PreRoutingAgrees(Routes(table), re, verb, SegmentsOf(request));
    AllowedMeaning(table, re, verb, request);
  }

  // ---- `*` and the path ----

  function StripSlashes(s: string): string {
    if s != "" && s[0] == '/' then StripSlashes(s[1..]) else s
  }

  /** Joining what is left without leading empty segments is joining it and stripping the
      leading slashes. */
  lemma {:induction false} RestIsStripped(segs: seq<string>)
    requires segs != [] && forall i | 0 <= i < |segs| :: '/' !in segs[i]
    ensures JoinRest(segs) == StripSlashes(Join(segs, "/"))
  {
    var j := Join(segs, "/");
    if segs[0] == "" {
      if |segs| > 1 {
        RestIsStripped(segs[1..]);
        assert j == "/" + Join(segs[1..], "/") && j[1..] == Join(segs[1..], "/");
      } else {
        assert segs[1..] == [] && DropEmpty(segs) == [];
      }
    } else {
      assert j[0] == segs[0][0];
    }
  }

  lemma {:induction false} TrimmedJoin(ps: seq<string>)
    ensures |Join(TrimAll(ps), "/")| <= |Join(ps, "/")|
    ensures (exists i | 0 <= i < |ps| :: !Trimmed(ps[i])) ==> |Join(TrimAll(ps), "/")| < |Join(ps, "/")|
    ensures |TrimAll(ps)| == |ps|
  {
    hide Trim;
    if ps != [] {
      var l, r := TrimSplits(ps[0]);
      TrimmedJoin(ps[1..]);
      if Trimmed(ps[0]) { TrimId(ps[0]); }
      assert TrimAll(ps)[1..] == TrimAll(ps[1..]);
    }
  }

  /** Padded segments make what `*` is bound to shorter. */
  lemma {:induction false} TrimmedRest(ps: seq<string>)
    ensures |JoinRest(TrimAll(ps))| <= |JoinRest(ps)|
    ensures (exists i | 0 <= i < |ps| :: !Trimmed(ps[i])) ==> |JoinRest(TrimAll(ps))| < |JoinRest(ps)|
  {
    hide Trim, Join;
    if ps != [] {
      var ts := TrimAll(ps);
      assert ts[1..] == TrimAll(ps[1..]) && ts[0] == Trim(ps[0]);
      TrimmedRest(ps[1..]);
      TrimmedJoin(ps);
      if ps[0] == "" {
        TrimId("");
        assert JoinRest(ts) == JoinRest(ts[1..]) && JoinRest(ps) == JoinRest(ps[1..]);
      } else {
        assert JoinRest(ps) == Join(ps, "/");
        if ts[0] == "" {
          assert JoinRest(ts) == JoinRest(ts[1..]);
          RestShorter(ps[1..]);
          JoinLonger(ps);
        } else {
          assert JoinRest(ts) == Join(ts, "/");
        }
      }
    }
  }

  lemma {:induction false} RestShorter(ps: seq<string>)
    ensures |JoinRest(ps)| <= |Join(ps, "/")|
  {
    if ps != [] { RestShorter(ps[1..]); }
  }

  lemma {:induction false} JoinLonger(ps: seq<string>)
    requires ps != [] && ps[0] != ""
    ensures |Join(ps[1..], "/")| < |Join(ps, "/")|
  {
  }

  /** The text that a final `*` is bound to below one segment: the path after that segment's
      slash without its leading slashes, if and only if no segment of it is padded with
      white space. */
  lemma {:induction false} StarBindsRest(re: RegexMatch, first: string, name: string, x: string)
    requires name != "" && '/' !in name && Trimmed(name) && SegmentFits(re, first, name)
    ensures var segs := SegmentsOf("/" + name + "/" + x);
      && segs == [name] + TrimAll(Pieces(x, "/"))
      && Fits(re, [first, "*"], segs)
      && (ValueAt([first, "*"], 1, segs) == StripSlashes(x)
          <==> forall i | 0 <= i < |Pieces(x, "/")| :: Trimmed(Pieces(x, "/")[i]))
  {
    hide Find, FindFrom, Trim, Pieces, Splits, SegmentFits, JoinRest;
    var path, body, ps := "/" + name + "/" + x, name + "/" + x, Pieces(x, "/");
    SegmentsAreTextbook(path);
    assert path == "/" + body && path[1..] == body;
    PiecesMore(name, x);
    TrimId(name);
    assert ([name] + ps)[1..] == ps;
    var segs := SegmentsOf(path);
    assert segs[1..] == TrimAll(ps);
    assert [first, "*"][1..] == ["*"];
    TrimmedJoin(ps);
    SplitsPieces(x);
    JoinPieces(x, "/");
    RestIsStripped(ps);
    TrimmedRest(ps);
    if forall i | 0 <= i < |ps| :: Trimmed(ps[i]) { TrimAllId(ps); }
  }

  lemma {:induction false} SplitsPieces(x: string)
    ensures forall i | 0 <= i < |Pieces(x, "/")| :: '/' !in Pieces(x, "/")[i]
  {
    hide FindFrom, Pieces;
    PiecesLack(x, "/");
    forall p: string ensures Lacks(p, "/") <==> '/' !in p { LacksChar(p, '/'); }
  }

  lemma {:induction false} PiecesMore(name: string, x: string)
    requires '/' !in name
    ensures Pieces(name + "/" + x, "/") == [name] + Pieces(x, "/")
  {
    hide Find, FindFrom;
    LacksChar(name, '/');
    FindAfter(name, "/", x);
    var s := name + "/" + x;
    assert s[..|name|] == name && s[|name| + 1..] == x;
  }
}
