/** The decision-graph engine of libecryptfs (src/libecryptfs/decision_graph.c).

    C pointers to parameter nodes become node ids in a map, so that nodes can be
    shared and edges rewired while an evaluation runs. Everything the engine
    reads or writes is one `World` value; class `Engine` holds it and edits it in
    place with the loops of the source, each proved against the function of the
    same name. */
module DecisionGraph {
  import opened Common

  type NodeId = nat

  datatype Callback =
    | EnterLinear | LinearVal | ExitLinear
    | FnekSig | EnableFilenameCrypto
    | Other(id: nat)

  datatype Transition = Transition(
    val: Option<string>, prettyVal: Option<string>,
    next: Option<NodeId>, func: Option<Callback>)

  datatype Flags = Flags(
    allowImplicit: bool, noValue: bool, displayVals: bool, verifyValue: bool,
    stdinRequired: bool, parameterSet: bool, forceDisplay: bool,
    noAutoTransition: bool, implicitOverride: bool, nonemptyRequired: bool)

  /** Only ECRYPTFS_PARAM_FLAG_ECHO_INPUT (which affects the terminal alone) or nothing. */
  const PLAIN := Flags(false, false, false, false, false, false, false, false, false, false)

  datatype ParamNode = ParamNode(
    names: seq<string>, val: Option<string>, defaultVal: Option<string>,
    suggestedVal: Option<string>, flags: Flags, tl: seq<Transition>)
  {
    function PrimaryName(): string { if names == [] then "(null)" else names[0] }
  }

  type Graph = map<NodeId, ParamNode>

  /** The private pointer `foo` while a linear subgraph is being walked. */
  datatype SubgraphCtx = SubgraphCtx(keyMod: string, vals: seq<string>)

  /** Pair number `pair` was handed to node `node` by retrieve_val. */
  datatype Delivery = Delivery(pair: nat, node: NodeId)

  /** `answers` is what the user will still type, one entry per prompt; the end
      of the sequence is end-of-file. `repeated` and `last` are do_transition's
      static variables. `paramVals` is key_mod->param_vals by module alias.
      `delivered` is a history of retrieve_val's deliveries. */
  datatype World = World(
    verbosity: int, canPrompt: bool, nodes: Graph, pairs: seq<Pair>,
    answers: seq<string>, stack: seq<string>, repeated: nat, last: Option<NodeId>,
    foo: Option<SubgraphCtx>, paramVals: map<string, seq<string>>,
    delivered: seq<Delivery>)

  const NULL_TOK := 1
  const DEFAULT_TOK := 2
  const MOUNT_ERROR := 3
  const WRONG_VALUE := 4
  const MAX_REPEATS := 5
  const MAX_TRIES := 3

  /** A transition callback: what it does to the world, and its return code. */
  type Callbacks = (Callback, World, NodeId) -> (World, int)

  /* ---- well-formedness ---- */

  /** Every edge leads to a node of the graph. */
  ghost predicate Closed(g: Graph) {
    forall n, i :: n in g && 0 <= i < |g[n].tl| && g[n].tl[i].next.Some? ==> g[n].tl[i].next.value in g
  }

  /** What a callback run at node n never changes: the set of nodes, the pair
      list, the input, the engine's statics, and the arity of n. */
  ghost predicate Frame(w: World, n: NodeId, w': World)
    requires n in w.nodes
  {
    && Closed(w'.nodes)
    && w'.nodes.Keys == w.nodes.Keys
    && |w'.nodes[n].tl| == |w.nodes[n].tl|
    && w'.pairs == w.pairs && w'.delivered == w.delivered
    && w'.answers == w.answers
    && w'.repeated == w.repeated && w'.last == w.last
    && w'.verbosity == w.verbosity && w'.canPrompt == w.canPrompt
  }

  ghost predicate Sane(cb: Callbacks) {
    forall f: Callback, w: World, n: NodeId {:trigger cb(f, w, n)} ::
      Closed(w.nodes) && n in w.nodes ==> Frame(w, n, cb(f, w, n).0)
  }

  /** Same nodes with the same edges. */
  ghost predicate SameEdges(g: Graph, h: Graph) {
    && h.Keys == g.Keys
    && (forall n :: n in g ==> |h[n].tl| == |g[n].tl|)
    && (forall n, i :: n in g && 0 <= i < |g[n].tl| ==> h[n].tl[i].next == g[n].tl[i].next)
  }

  ghost predicate NonRewiring(cb: Callbacks) {
    forall f: Callback, w: World, n: NodeId {:trigger cb(f, w, n)} ::
      Closed(w.nodes) && n in w.nodes ==> SameEdges(w.nodes, cb(f, w, n).0.nodes)
  }

  ghost predicate EdgeTo(g: Graph, n: NodeId, m: NodeId) {
    n in g && exists i :: 0 <= i < |g[n].tl| && g[n].tl[i].next == Some(m)
  }

  /** A topological order: every edge goes to a node of smaller rank. */
  ghost predicate Ranked(g: Graph, rank: NodeId -> nat) {
    forall n, i :: n in g && 0 <= i < |g[n].tl| && g[n].tl[i].next.Some? ==> rank(g[n].tl[i].next.value) < rank(n)
  }

  /* ---- retrieve_val ---- */

  /** The first unprocessed pair called `name` at or after position j. */
  function FindPair(pairs: seq<Pair>, name: string, j: nat): Option<nat>
    requires j <= |pairs|
    decreases |pairs| - j
  {
    if j == |pairs| then None
    else if pairs[j].name == Some(name) && !pairs[j].processed then Some(j)
    else FindPair(pairs, name, j + 1)
  }

  /** The pair for the last of the first i aliases that has one. */
  function ChoosePair(pairs: seq<Pair>, names: seq<string>, i: nat): Option<nat>
    requires i <= |names|
  {
    if i == 0 then None
    else
      var found := FindPair(pairs, names[i - 1], 0);
      if found.Some? then found else ChoosePair(pairs, names, i - 1)
  }

  predicate HasValue(p: Pair) {
    p.value.Some? && p.value.value != "(null)"
  }

  function SetVal(w: World, n: NodeId, v: Option<string>): World
    requires n in w.nodes
  {
    w.(nodes := w.nodes[n := w.nodes[n].(val := v)])
  }

  /** Marks pair j as processed and hands it to node n. */
  function Deliver(w: World, n: NodeId, j: nat): World
    requires n in w.nodes && j < |w.pairs|
  {
    var p := w.pairs[j];
    var node := w.nodes[n];
    w.(pairs := w.pairs[j := p.(processed := true)],
       delivered := w.delivered + [Delivery(j, n)],
       nodes := w.nodes[n := if HasValue(p) then node.(val := p.value)
                             else node.(flags := node.flags.(parameterSet := true))])
  }

  predicate HasDefault(node: ParamNode) {
    node.defaultVal.Some? && node.defaultVal.value != "NULL"
  }

  function RetrieveVal(w: World, n: NodeId): (r: (World, bool))
    requires n in w.nodes
    ensures Fetched(w, r.0)
  {
    var node := w.nodes[n];
    ChoosePairInRange(w.pairs, node.names, |node.names|);
    match ChoosePair(w.pairs, node.names, |node.names|)
    case Some(j) => (Deliver(w, n, j), true)
    case None => if HasDefault(node) then (SetVal(w, n, node.defaultVal), true) else (w, false)
  }

  lemma FindPairInRange(pairs: seq<Pair>, name: string, j: nat)
    requires j <= |pairs|
    ensures FindPair(pairs, name, j).Some? ==> FindPair(pairs, name, j).value < |pairs|
    decreases |pairs| - j
  {
  }

  lemma ChoosePairInRange(pairs: seq<Pair>, names: seq<string>, i: nat)
    requires i <= |names|
    ensures ChoosePair(pairs, names, i).Some? ==> ChoosePair(pairs, names, i).value < |pairs|
  {
    if i > 0 {
      FindPairInRange(pairs, names[i - 1], 0);
      ChoosePairInRange(pairs, names, i - 1);
    }
  }

  /** Evaluation up to the transition changes node values and flags, marks pairs
      and uses up answers; it never touches an edge, the stack or the statics. */
  ghost predicate Fetched(w: World, w': World) {
    && w'.nodes.Keys == w.nodes.Keys
    && (forall n :: n in w.nodes ==> w'.nodes[n].tl == w.nodes[n].tl && w'.nodes[n].names == w.nodes[n].names
                                     && w'.nodes[n].defaultVal == w.nodes[n].defaultVal)
    && |w'.pairs| == |w.pairs|
    && w'.stack == w.stack && w'.repeated == w.repeated && w'.last == w.last
    && w'.foo == w.foo && w'.paramVals == w.paramVals
    && w'.verbosity == w.verbosity && w'.canPrompt == w.canPrompt
    && |w'.answers| <= |w.answers|
  }

  /* ---- alloc_and_get_val ---- */

  /** The loop over successor nodes that an implicit transition performs: None
      when it falls through, otherwise the return code. */
  function ImplicitScan(w: World, n: NodeId, i: nat, got: bool): (r: (World, Option<int>))
    requires n in w.nodes && Closed(w.nodes) && i <= |w.nodes[n].tl|
    ensures Fetched(w, r.0)
    decreases |w.nodes[n].tl| - i
  {
    if i == |w.nodes[n].tl| then (w, None)
    else
      var next := w.nodes[n].tl[i].next;
      if next.None? then
        if got then (w, Some(FAULT)) else ImplicitScan(w, n, i + 1, got)
      else
        var (w1, got1) := RetrieveVal(w, next.value);
        if got1 then (SetVal(w1, n, Some(w1.nodes[next.value].PrimaryName())), Some(0))
        else ImplicitScan(w1, n, i + 1, false)
  }

  datatype MenuCheck = Valid | Invalid | Crash

  /** Compares v with every branch value in turn; a branch without one is a NULL argument to strcmp. */
  function CheckMenu(tl: seq<Transition>, v: string, i: nat): MenuCheck
    requires i <= |tl|
    decreases |tl| - i
  {
    if i == |tl| then Invalid
    else if tl[i].val.None? then Crash
    else if tl[i].val.value == v then Valid
    else CheckMenu(tl, v, i + 1)
  }

  /** What one line typed at a menu makes of the node's value, and whether the
      menu accepts it. */
  function MenuReply(node: ParamNode, a: string): (string, MenuCheck) {
    var k := Atoi(a);
    if 0 < k <= |node.tl| then (Printed(node.tl[k - 1].val), Valid)
    else if a == "" && node.suggestedVal.None? then (a, Invalid)
    else
      var v := if a == "" then node.suggestedVal.value else a;
      (v, CheckMenu(node.tl, v, 0))
  }

  /** After `used` lines from the user, which leave node n with value v. */
  function Typed(w: World, n: NodeId, used: nat, v: Option<string>): (r: World)
    requires n in w.nodes && used <= |w.answers|
    ensures Fetched(w, r) && r.pairs == w.pairs && r.delivered == w.delivered
  {
    SetVal(w.(answers := w.answers[used..]), n, v)
  }

  /** The menu prompt: asked again until the answer names a branch. */
  function AskMenu(w: World, n: NodeId): (r: (World, int))
    requires n in w.nodes
    ensures Fetched(w, r.0)
    ensures r.0.pairs == w.pairs && r.0.delivered == w.delivered
    decreases |w.answers|
  {
    if w.answers == [] then (Typed(w, n, 0, None), -EIO)
    else
      var (v, check) := MenuReply(w.nodes[n], w.answers[0]);
      var w1 := Typed(w, n, 1, Some(v));
      match check
      case Valid => (w1, 0)
      case Invalid => AskMenu(w1, n)
      case Crash => (w1, FAULT)
  }

  /** One line typed at a menu. */
  lemma AskMenuStep(w: World, n: NodeId)
    requires n in w.nodes
    ensures AskMenu(w, n) ==
      if w.answers == [] then (Typed(w, n, 0, None), -EIO)
      else
        var (v, check) := MenuReply(w.nodes[n], w.answers[0]);
        var w1 := SetVal(w.(answers := w.answers[1..]), n, Some(v));
        match check { case Valid => (w1, 0) case Invalid => AskMenu(w1, n) case Crash => (w1, FAULT) }
  {
    hide MenuReply, Fetched;
    assert w.answers[0..] == w.answers;
  }

  /** One round of the plain prompt: the new state, and the return code unless
      the user is asked again. */
  function AskOnce(w: World, n: NodeId): (r: (World, Option<int>))
    requires n in w.nodes
    ensures Fetched(w, r.0)
    ensures r.0.pairs == w.pairs && r.0.delivered == w.delivered
  {
    var node := w.nodes[n];
    if w.answers == [] then (Typed(w, n, 0, None), Some(-EIO))
    else
      var a := w.answers[0];
      if a == "" && node.flags.nonemptyRequired then (Typed(w, n, 1, Some(a)), None)
      else if node.flags.verifyValue && |w.answers| == 1 then (Typed(w, n, 1, Some(a)), Some(-EIO))
      else if node.flags.verifyValue && w.answers[1] != a then (Typed(w, n, 2, None), None)
      else
        (Typed(w, n, if node.flags.verifyValue then 2 else 1, if a == "" then node.suggestedVal else Some(a)), Some(0))
  }

  /** The plain prompt, at most three times. */
  function AskPlain(w: World, n: NodeId, tries: nat): (r: (World, int))
    requires n in w.nodes
    ensures Fetched(w, r.0)
    ensures r.0.pairs == w.pairs && r.0.delivered == w.delivered
    decreases MAX_TRIES - tries, w.answers
  {
    if tries >= MAX_TRIES then (w, EINVAL)
    else
      var (w1, rc) := AskOnce(w, n);
      if rc.Some? then (w1, rc.value) else AskPlain(w1, n, tries + 1)
  }

  lemma AskPlainStep(w: World, n: NodeId, tries: nat)
    requires n in w.nodes
    ensures var (w1, once) := AskOnce(w, n);
      AskPlain(w, n, tries) ==
        if tries >= MAX_TRIES then (w, EINVAL)
        else if once.Some? then (w1, once.value) else AskPlain(w1, n, tries + 1)
  {
    hide AskOnce;
  }

  /** Decides, once no pair supplied the value, whether and how to ask. */
  function Ask(w: World, n: NodeId): (r: (World, int))
    requires n in w.nodes
    ensures Fetched(w, r.0)
    ensures r.0.pairs == w.pairs && r.0.delivered == w.delivered
  {
    var node := w.nodes[n];
    if node.flags.noValue then (w, 0)
    else if w.verbosity == 0 && !node.flags.stdinRequired then (w, 0)
    else if node.flags.parameterSet && !node.flags.stdinRequired then (w, 0)
    else if !w.canPrompt then (w, MOUNT_ERROR)
    else if !node.flags.displayVals then AskPlain(w, n, 0)
    else if |node.tl| == 1 && !node.flags.forceDisplay then (SetVal(w, n, Some(Printed(node.tl[0].val))), 0)
    else AskMenu(w, n)
  }

  function AllocAndGetVal(w: World, n: NodeId): (r: (World, int))
    requires n in w.nodes && Closed(w.nodes)
    ensures Fetched(w, r.0)
  {
    var node := w.nodes[n];
    if node.val.Some? then (w, 0)
    else
      var (w1, got) := RetrieveVal(w, n);
      if got && !(node.flags.allowImplicit && node.flags.implicitOverride) then (w1, 0)
      else if node.flags.allowImplicit && !node.flags.noAutoTransition then
        var (w2, done) := ImplicitScan(w1, n, 0, got);
        if done.Some? then (w2, done.value) else Ask(w2, n)
      else Ask(w1, n)
  }

  /* ---- do_transition ---- */

  /** The result of a transition attempt: *next is meaningful when rc is zero. */
  datatype Move = Move(w: World, rc: int, next: Option<NodeId>)

  datatype Scan = Decided(move: Move) | Undecided(w: World)

  /** Runs the callback of branch i of node n, if it has one. */
  function Call(cb: Callbacks, w: World, n: NodeId, i: nat, otherwise: int): (r: (World, int))
    requires n in w.nodes && i < |w.nodes[n].tl|
  {
    var f := w.nodes[n].tl[i].func;
    if f.Some? then cb(f.value, w, n) else (w, otherwise)
  }

  /** Follows branch i, read after its callback ran. */
  function Follow(w: World, n: NodeId, i: nat, rc: int, dead: int): Move
    requires n in w.nodes && i < |w.nodes[n].tl|
  {
    var next := w.nodes[n].tl[i].next;
    Move(w, if next.Some? then rc else dead, next)
  }

  /** A scan that started in w keeps the frame, and a zero code comes with a target. */
  ghost predicate ScanOk(w: World, n: NodeId, s: Scan)
    requires n in w.nodes
  {
    match s
    case Undecided(w') => Frame(w, n, w')
    case Decided(m) =>
      && Frame(w, n, m.w.(repeated := w.repeated))
      && (m.rc == 0 ==> m.next.Some? && m.next.value in m.w.nodes)
  }

  /** Branch i against the pair list from position j on. */
  function ScanPairs(cb: Callbacks, w: World, n: NodeId, i: nat, j: nat): (s: Scan)
    requires Sane(cb) && Closed(w.nodes) && n in w.nodes && i < |w.nodes[n].tl| && j <= |w.pairs|
    ensures ScanOk(w, n, s)
    decreases |w.pairs| - j
  {
    if j == |w.pairs| then Undecided(w)
    else
      var tn := w.nodes[n].tl[i];
      if tn.val.Some? && w.pairs[j].name != tn.val then ScanPairs(cb, w, n, i, j + 1)
      else
        var (w1, tok) := Call(cb, w, n, i, NULL_TOK);
        if tok == MOUNT_ERROR || tok == FAULT then Decided(Move(w1, tok, None))
        else if tok == DEFAULT_TOK || tok == NULL_TOK then Decided(Follow(w1, n, i, 0, -EINVAL))
        else ScanPairs(cb, w1, n, i, j + 1)
  }

  /** The first loop of do_transition, from branch i on. */
  function ScanBranches(cb: Callbacks, w: World, n: NodeId, i: nat): (s: Scan)
    requires Sane(cb) && Closed(w.nodes) && n in w.nodes && i <= |w.nodes[n].tl|
    ensures ScanOk(w, n, s)
    decreases |w.nodes[n].tl| - i
  {
    if i == |w.nodes[n].tl| then Undecided(w)
    else if w.nodes[n].tl[i].val.Some? && w.nodes[n].val == w.nodes[n].tl[i].val then
      var (w1, rc) := Call(cb, w, n, i, 0);
      Decided(Follow(w1, n, i, rc, if rc == FAULT then rc else EINVAL))
    else
      match ScanPairs(cb, w, n, i, 0)
      case Decided(m) => Decided(m)
      case Undecided(w1) => ScanBranches(cb, w1, n, i + 1)
  }

  /** Branch i taken as the default one. */
  function TakeDefault(cb: Callbacks, w: World, n: NodeId, i: nat): (m: Move)
    requires Sane(cb) && Closed(w.nodes) && n in w.nodes && i < |w.nodes[n].tl|
    ensures ScanOk(w, n, Decided(m))
  {
    var (w1, tok) := Call(cb, w, n, i, NULL_TOK);
    if tok == WRONG_VALUE then
      if w1.verbosity != 0 || w1.nodes[n].flags.stdinRequired then
        var w2 := w1.(repeated := w1.repeated + 1);
        if w2.repeated >= MAX_REPEATS then Move(w2, -EINVAL, None) else Move(w2, 0, Some(n))
      else Move(w1, -EINVAL, None)
    else if tok == MOUNT_ERROR || tok < 0 then Move(w1, tok, None)
    else Follow(w1, n, i, 0, -EINVAL)
  }

  /** The second loop of do_transition, from branch i on. */
  function ScanDefaults(cb: Callbacks, w: World, n: NodeId, i: nat): (s: Scan)
    requires Sane(cb) && Closed(w.nodes) && n in w.nodes && i <= |w.nodes[n].tl|
    ensures ScanOk(w, n, s)
    decreases |w.nodes[n].tl| - i
  {
    if i == |w.nodes[n].tl| then Undecided(w)
    else if w.nodes[n].tl[i].val == Some("default") then Decided(TakeDefault(cb, w, n, i))
    else ScanDefaults(cb, w, n, i + 1)
  }

  /** The statics on entry: a new node starts with no re-asks. */
  function Enter(w: World, n: NodeId): World {
    w.(repeated := if w.last == Some(n) then w.repeated else 0, last := Some(n))
  }

  function DoTransition(cb: Callbacks, w: World, n: NodeId): (m: Move)
    requires Sane(cb) && Closed(w.nodes) && n in w.nodes
    ensures ScanOk(Enter(w, n), n, Decided(m))
  {
    match ScanBranches(cb, Enter(w, n), n, 0)
    case Decided(m) => m
    case Undecided(w1) =>
      match ScanDefaults(cb, w1, n, 0)
      case Decided(m) => m
      case Undecided(w2) => Move(w2, if |w2.nodes[n].tl| > 0 then MOUNT_ERROR else NULL_TOK, None)
  }

  /* ---- eval_param_tree ---- */

  datatype Outcome = Running(w: World, at: NodeId) | Stopped(w: World, rc: int)

  ghost predicate Live(o: Outcome) {
    && Closed(o.w.nodes)
    && (o.Running? ==> o.at in o.w.nodes)
  }

  /** ecryptfs_eval_decision_graph: every positive code but one is a success. */
  predicate Succeeds(rc: int) { rc > 0 && rc != MOUNT_ERROR }

  /** One iteration of the evaluation loop. */
  function Step(cb: Callbacks, w: World, n: NodeId): (o: Outcome)
    requires Sane(cb) && Closed(w.nodes) && n in w.nodes
    ensures Live(o) && o.w.nodes.Keys == w.nodes.Keys
  {
    var (w1, rc) := AllocAndGetVal(w, n);
    if rc != 0 then Stopped(w1, rc)
    else
      var m := DoTransition(cb, w1, n);
      if m.rc != 0 then Stopped(m.w, m.rc) else Running(m.w, m.next.value)
  }

  /** The evaluation after at most k iterations. */
  function RunFor(cb: Callbacks, w: World, n: NodeId, k: nat): (o: Outcome)
    requires Sane(cb) && Closed(w.nodes) && n in w.nodes
    ensures Live(o) && o.w.nodes.Keys == w.nodes.Keys
    decreases k
  {
    if k == 0 then Running(w, n)
    else
      match Step(cb, w, n)
      case Stopped(w', rc) => Stopped(w', rc)
      case Running(w', n') => RunFor(cb, w', n', k - 1)
  }
}
