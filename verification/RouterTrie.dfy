/** The routing trie of `router_impl`: registration and the backtracking search. */
module RouterTrie {
  import opened Text

  datatype Verb = Get | Head | Trace | Connect | Options | Other(code: nat)

  /** The identity of a registered callback. */
  type Handler = nat

  /** What is attached to a node; a node that only leads somewhere has nothing. */
  datatype Endpoint = Endpoint(handlers: map<Verb, Handler>, ws: Option<Handler>)

  const NOTHING := Endpoint(map[], None)

  /** Nodes own their children; `statics` is keyed, the two lists keep creation order. */
  datatype Node = Node(key: string, paramName: string, regex: string, endpoint: Endpoint,
                       statics: map<string, Node>, regexes: seq<Node>, params: seq<Node>,
                       wildcard: Option<Node>)

  function NewNode(key: string, paramName: string, regex: string): Node {
    Node(key, paramName, regex, NOTHING, map[], [], [], None)
  }

  const ROOT := NewNode("", "", "")

  // ---- pattern elements ----

  /** How a pattern segment is treated: literally, as `{name:regex}`, as `:name`, or, for
      a final `*`, as everything that is left. */
  datatype Elem = Lit(text: string) | Rx(text: string) | Par(text: string) | Rest

  function Classify(seg: string, last: bool): Elem {
    if last && seg == "*" then Rest
    else if seg != "" && seg[0] == ':' then Par(seg)
    else if seg != "" && seg[0] == '{' && seg[|seg| - 1] == '}' then Rx(seg)
    else Lit(seg)
  }

  function Elems(segments: seq<string>): (r: seq<Elem>)
    ensures |r| == |segments|
  {
    if segments == [] then [] else [Classify(segments[0], |segments| == 1)] + Elems(segments[1..])
  }

  /** The parts of `{name:regex}`; without a colon the inside is both. */
  function Inside(seg: string): string {
    if |seg| < 2 then "" else seg[1..|seg| - 1]
  }

  function RxName(seg: string): string {
    FindFirst(Inside(seg), ":", Find(Inside(seg), ":"));
    match Find(Inside(seg), ":") case Some(k) => Inside(seg)[..k] case None => Inside(seg)
  }

  function RxRegex(seg: string): string {
    FindFirst(Inside(seg), ":", Find(Inside(seg), ":"));
    match Find(Inside(seg), ":") case Some(k) => Inside(seg)[k + 1..] case None => Inside(seg)
  }

  function Key(e: Elem): string {
    match e case Rest => "*" case _ => e.text
  }

  /** The parameter an element binds. */
  function Binds(e: Elem): Option<string> {
    match e
    case Lit(_) => None
    case Rx(t) => Some(RxName(t))
    case Par(t) => Some(if t == "" then "" else t[1..])
    case Rest => Some("*")
  }

  function NodeFor(e: Elem): Node {
    match e
    case Rx(t) => NewNode(t, RxName(t), RxRegex(t))
    case Par(t) => NewNode(t, if t == "" then "" else t[1..], "")
    case _ => NewNode(Key(e), "", "")
  }

  // ---- registration ----

  datatype Entry = Http(verb: Verb, handler: Handler) | WebSocket(handler: Handler)

  function Attach(p: Endpoint, e: Entry): Endpoint {
    match e
    case Http(v, h) => p.(handlers := p.handlers[v := h])
    case WebSocket(h) => p.(ws := Some(h))
  }

  /** The first child with a given key. */
  function IndexOf(nodes: seq<Node>, key: string): (i: nat)
    ensures i <= |nodes|
    ensures i < |nodes| ==> nodes[i].key == key
    ensures forall j | 0 <= j < i :: nodes[j].key != key
  {
    if nodes == [] || nodes[0].key == key then 0 else 1 + IndexOf(nodes[1..], key)
  }

  function Child(n: Node, e: Elem): Option<Node> {
    match e
    case Lit(t) => if t in n.statics then Some(n.statics[t]) else None
    case Rx(t) => var i := IndexOf(n.regexes, t); if i < |n.regexes| then Some(n.regexes[i]) else None
    case Par(t) => var i := IndexOf(n.params, t); if i < |n.params| then Some(n.params[i]) else None
    case Rest => n.wildcard
  }

  /** The child an insertion goes down into: the one there is, or a new one. */
  function ChildOrNew(n: Node, e: Elem): Node {
    match Child(n, e) case Some(c) => c case None => NodeFor(e)
  }

  function PutIn(nodes: seq<Node>, key: string, c: Node): seq<Node> {
    var i := IndexOf(nodes, key);
    if i < |nodes| then nodes[i := c] else nodes + [c]
  }

  function PutChild(n: Node, e: Elem, c: Node): Node {
    match e
    case Lit(t) => n.(statics := n.statics[t := c])
    case Rx(t) => n.(regexes := PutIn(n.regexes, t, c))
    case Par(t) => n.(params := PutIn(n.params, t, c))
    case Rest => n.(wildcard := Some(c))
  }

  /** `insert`, followed by attaching the entry to the node it returns. */
  function Insert(n: Node, path: seq<Elem>, e: Entry): Node
    decreases |path|
  {
    if path == [] then n.(endpoint := Attach(n.endpoint, e))
    else PutChild(n, path[0], Insert(ChildOrNew(n, path[0]), path[1..], e))
  }

  // ---- the search ----

  datatype Query = ForVerb(verb: Verb) | ForWebSocket

  /** The callback's verdict on a fully matched node. */
  predicate Accepts(q: Query, p: Endpoint) {
    match q
    case ForVerb(v) => v in p.handlers
    case ForWebSocket => p.ws.Some?
  }

  /** `std::regex_match` on (regex, segment), left uninterpreted. */
  type RegexMatch = (string, string) -> bool

  function DropEmpty(segs: seq<string>): seq<string> {
    if segs != [] && segs[0] == "" then DropEmpty(segs[1..]) else segs
  }

  /** What `*` is bound to. */
  function JoinRest(segs: seq<string>): string {
    Join(DropEmpty(segs), "/")
  }

  /** The pattern `match_nodes` settles on, below `n`. */
  function Best(re: RegexMatch, q: Query, n: Node, segs: seq<string>): Option<seq<Elem>>
    decreases |segs|, 1, 0
  {
    if segs == [] then
      if Accepts(q, n.endpoint) then Some([]) else None
    else
      var seg := segs[0];
      var bs := if seg in n.statics then Under(Lit(seg), Best(re, q, n.statics[seg], segs[1..])) else None;
      if bs.Some? then bs
      else
        var br := BestIn(re, q, true, n.regexes, segs);
        if br.Some? then br
        else
          var bp := BestIn(re, q, false, n.params, segs);
          if bp.Some? then bp
          else if n.wildcard.Some? then Under(Rest, Best(re, q, n.wildcard.value, []))
          else None
  }

  function Under(e: Elem, p: Option<seq<Elem>>): Option<seq<Elem>> {
    match p case Some(path) => Some([e] + path) case None => None
  }

  function ElemOf(isRegex: bool, c: Node): Elem {
    if isRegex then Rx(c.key) else Par(c.key)
  }

  predicate Tries(re: RegexMatch, isRegex: bool, c: Node, seg: string) {
    isRegex ==> re(c.regex, seg)
  }

  /** The same over a list of regex or param children, in order. */
  function BestIn(re: RegexMatch, q: Query, isRegex: bool, children: seq<Node>, segs: seq<string>): Option<seq<Elem>>
    requires segs != []
    decreases |segs|, 0, |children|
  {
    if children == [] then None
    else
      var c := children[0];
      var b := if Tries(re, isRegex, c, segs[0]) then Under(ElemOf(isRegex, c), Best(re, q, c, segs[1..])) else None;
      if b.Some? then b else BestIn(re, q, isRegex, children[1..], segs)
  }

  type Params = map<string, string>

  /** The `params` map after the search: set on the way down, erased on the way back. */
  function ParamsAfter(re: RegexMatch, q: Query, n: Node, segs: seq<string>, params: Params): Params
    decreases |segs|, 1, 0
  {
    if segs == [] then params
    else
      var seg := segs[0];
      var p1 := if seg in n.statics then ParamsAfter(re, q, n.statics[seg], segs[1..], params) else params;
      if seg in n.statics && Best(re, q, n.statics[seg], segs[1..]).Some? then p1
      else
        var p2 := ParamsAfterIn(re, q, true, n.regexes, segs, p1);
        if BestIn(re, q, true, n.regexes, segs).Some? then p2
        else
          var p3 := ParamsAfterIn(re, q, false, n.params, segs, p2);
          if BestIn(re, q, false, n.params, segs).Some? then p3
          else if n.wildcard.Some? then
            var p4 := p3["*" := JoinRest(segs)];
            if Best(re, q, n.wildcard.value, []).Some? then p4 else p4 - {"*"}
          else p3
  }

  function ParamsAfterIn(re: RegexMatch, q: Query, isRegex: bool, children: seq<Node>, segs: seq<string>, params: Params): Params
    requires segs != []
    decreases |segs|, 0, |children|
  {
    if children == [] then params
    else
      var c := children[0];
      if Tries(re, isRegex, c, segs[0]) then
        var p := ParamsAfter(re, q, c, segs[1..], params[c.paramName := segs[0]]);
        if Best(re, q, c, segs[1..]).Some? then p
        else ParamsAfterIn(re, q, isRegex, children[1..], segs, p - {c.paramName})
      else ParamsAfterIn(re, q, isRegex, children[1..], segs, params)
  }

  /** The verbs seen by the callback during the search. */
  function Seen(re: RegexMatch, q: Query, n: Node, segs: seq<string>): set<Verb>
    decreases |segs|, 1, 0
  {
    if segs == [] then n.endpoint.handlers.Keys
    else
      var seg := segs[0];
      var s1 := if seg in n.statics then Seen(re, q, n.statics[seg], segs[1..]) else {};
      if seg in n.statics && Best(re, q, n.statics[seg], segs[1..]).Some? then s1
      else
        var s2 := s1 + SeenIn(re, q, true, n.regexes, segs);
        if BestIn(re, q, true, n.regexes, segs).Some? then s2
        else
          var s3 := s2 + SeenIn(re, q, false, n.params, segs);
          if BestIn(re, q, false, n.params, segs).Some? then s3
          else if n.wildcard.Some? then s3 + n.wildcard.value.endpoint.handlers.Keys
          else s3
  }

  function SeenIn(re: RegexMatch, q: Query, isRegex: bool, children: seq<Node>, segs: seq<string>): set<Verb>
    requires segs != []
    decreases |segs|, 0, |children|
  {
    if children == [] then {}
    else
      var c := children[0];
      if Tries(re, isRegex, c, segs[0]) then
        var s := Seen(re, q, c, segs[1..]);
        if Best(re, q, c, segs[1..]).Some? then s
        else s + SeenIn(re, q, isRegex, children[1..], segs)
      else SeenIn(re, q, isRegex, children[1..], segs)
  }

  function NodeAt(n: Node, path: seq<Elem>): Option<Node>
    decreases |path|
  {
    if path == [] then Some(n)
    else match Child(n, path[0]) case None => None case Some(c) => NodeAt(c, path[1..])
  }
}
