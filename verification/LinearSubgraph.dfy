/** Linear subgraphs generated from a key module's parameter list, and what
    evaluating one leaves in the module
    (ecryptfs_build_linear_subgraph and its three callbacks in
    src/libecryptfs/decision_graph.c). */
module LinearSubgraph {
  import opened Common
  import opened DecisionGraph
  import opened DecisionGraphRuns
  import opened PlainNodes

  datatype Param = Param(option: string, defaultVal: Option<string>, suggestedVal: Option<string>)

  const EXIT_NAME := "linear_subgraph_exit_dummy_node"

  /** The registered key modules, by alias, and the keyring: the return code and
      the signature of adding a module's key built from the given values. */
  datatype KeyModules = KeyModules(aliases: seq<string>, addKey: (string, seq<string>) -> (int, string))

  /** ecryptfs_find_key_mod: the first module whose alias is a prefix of v. */
  function FindKeyMod(aliases: seq<string>, v: string): Option<string> {
    if aliases == [] then None
    else if aliases[0] <= v then Some(aliases[0])
    else FindKeyMod(aliases[1..], v)
  }

  /* ---- the callbacks ---- */

  /** ecryptfs_enter_linear_subgraph_tf */
  function EnterSubgraph(mods: KeyModules, w: World, n: NodeId): (World, int)
    requires n in w.nodes
  {
    if w.nodes[n].val.None? then (w, FAULT)
    else
      match FindKeyMod(mods.aliases, w.nodes[n].val.value)
      case None => (w, 1)
      case Some(alias) => (w.(foo := Some(SubgraphCtx(alias, []))), 0)
  }

  /** ecryptfs_linear_subgraph_val_tf */
  function TakeVal(w: World, n: NodeId): (World, int)
    requires n in w.nodes
  {
    var v := w.nodes[n].val;
    if v.None? then (w, 0)
    else if w.foo.None? then (w, FAULT)
    else (w.(foo := Some(w.foo.value.(vals := w.foo.value.vals + [v.value]))), 0)
  }

  /** ecryptfs_exit_linear_subgraph_tf, which frees the context: `foo` then
      dangles, and using it again is fatal. */
  function Leave(mods: KeyModules, w: World): (World, int) {
    if w.foo.None? then (w, FAULT)
    else
      var SubgraphCtx(alias, vals) := w.foo.value;
      var w1 := w.(foo := None, paramVals := w.paramVals[alias := vals]);
      if vals == [] then (w1, 0)
      else
        var (rc, sig) := mods.addKey(alias, vals);
        if rc < 0 then (w1, rc) else (w1.(stack := ["ecryptfs_sig=" + sig] + w1.stack), 0)
  }

  function Run(mods: KeyModules, f: Callback, w: World, n: NodeId): (World, int) {
    if n !in w.nodes then (w, FAULT)
    else
      match f
      case EnterLinear => EnterSubgraph(mods, w, n)
      case LinearVal => TakeVal(w, n)
      case ExitLinear => Leave(mods, w)
      case _ => (w, 0)
  }

  function LinearCallbacks(mods: KeyModules): Callbacks {
    (f: Callback, w: World, n: NodeId) => Run(mods, f, w, n)
  }

  lemma LinearCallbacksSane(mods: KeyModules)
    ensures Sane(LinearCallbacks(mods)) && NonRewiring(LinearCallbacks(mods))
  {
    var cb := LinearCallbacks(mods);
    forall f: Callback, w: World, n: NodeId | Closed(w.nodes) && n in w.nodes
      ensures Frame(w, n, cb(f, w, n).0) && SameEdges(w.nodes, cb(f, w, n).0.nodes)
    {
      assert cb(f, w, n).0.nodes == w.nodes;
    }
  }

  /* ---- building ---- */

  function ParamNodeOf(p: Param, next: Option<NodeId>): ParamNode {
    ParamNode([p.option], None, p.defaultVal, p.suggestedVal, PLAIN,
              [Transition(Some("default"), None, next, Some(LinearVal))])
  }

  function ExitNode(next: Option<NodeId>): ParamNode {
    ParamNode([EXIT_NAME], None, None, None, PLAIN.(noValue := true),
              [Transition(Some("default"), None, next, Some(ExitLinear))])
  }

  /** The exit node, as built or as exit patching leaves it. */
  ghost predicate IsExitNode(node: ParamNode, next: Option<NodeId>) {
    && |node.tl| == 1
    && node == ExitNode(next).(tl := [Transition(Some("default"), node.tl[0].prettyVal, next, Some(ExitLinear))])
  }

  /** g holds, from id `base` on, one node per parameter, each leading to the
      next, and the exit node, which leads to `exit`. */
  ghost predicate IsChain(g: Graph, params: seq<Param>, base: NodeId, exit: Option<NodeId>) {
    && (forall i :: base <= i < base + |params| ==> i in g && g[i] == ParamNodeOf(params[i - base], Some(i + 1)))
    && base + |params| in g && IsExitNode(g[base + |params|], exit)
  }

  /** Node k while i nodes have been chained. */
  function PartialNode(params: seq<Param>, base: NodeId, i: nat, k: NodeId): ParamNode
    requires base <= k < base + i <= base + |params|
  {
    ParamNodeOf(params[k - base], if k + 1 < base + i then Some(k + 1) else None)
  }

  /** g0 extended by i chained nodes, the last of which leads nowhere yet. */
  ghost predicate IsPartialChain(g0: Graph, g: Graph, params: seq<Param>, base: NodeId, i: nat)
    requires i <= |params|
  {
    && (forall k :: k in g <==> k in g0 || base <= k < base + i)
    && (forall k :: k in g0 ==> k < base && g[k] == g0[k])
    && (forall k :: base <= k < base + i ==> g[k] == PartialNode(params, base, i, k))
  }

  /** The node allocated as id base + i, hung on the transition of node base + i - 1 if there is one. */
  function Append(g: Graph, base: NodeId, i: nat, node: ParamNode): Graph
    requires i > 0 ==> base + i - 1 in g && |g[base + i - 1].tl| == 1
  {
    var id := base + i;
    var g1 := g[id := node];
    if i == 0 then g1
    else g1[id - 1 := g1[id - 1].(tl := [g1[id - 1].tl[0].(next := Some(id))])]
  }

  /** The last node so far has one transition, which the next node is hung on. */
  lemma LastNode(g0: Graph, g: Graph, params: seq<Param>, base: NodeId, i: nat)
    requires i <= |params| && IsPartialChain(g0, g, params, base, i)
    ensures base + i !in g
    ensures i > 0 ==>
      base + i - 1 in g && g[base + i - 1] == ParamNodeOf(params[i - 1], None) && |g[base + i - 1].tl| == 1
  {
    if i > 0 { assert g[base + i - 1] == PartialNode(params, base, i, base + i - 1); }
  }

  lemma FreshExit()
    ensures IsExitNode(ExitNode(None), None)
  {
  }

  /** What appending changes. */
  lemma AppendedNodes(g: Graph, base: NodeId, i: nat, p: Param, node: ParamNode)
    requires base + i !in g && (i > 0 ==> base + i - 1 in g && g[base + i - 1] == ParamNodeOf(p, None))
    ensures var g' := Append(g, base, i, node);
      && g'.Keys == g.Keys + {base + i} && g'[base + i] == node
      && (i > 0 ==> g'[base + i - 1] == ParamNodeOf(p, Some(base + i)))
      && (forall k :: k in g && (i == 0 || k != base + i - 1) ==> g'[k] == g[k])
  {
  }

  lemma AppendStep(g0: Graph, g: Graph, params: seq<Param>, base: NodeId, i: nat)
    requires i < |params| && IsPartialChain(g0, g, params, base, i)
    ensures i > 0 ==> base + i - 1 in g && |g[base + i - 1].tl| == 1
    ensures IsPartialChain(g0, Append(g, base, i, ParamNodeOf(params[i], None)), params, base, i + 1)
  {
    hide Append, ParamNodeOf;
    LastNode(g0, g, params, base, i);
    var g' := Append(g, base, i, ParamNodeOf(params[i], None));
    AppendedNodes(g, base, i, if i > 0 then params[i - 1] else params[i], ParamNodeOf(params[i], None));
    forall k | base <= k <= base + i
      ensures g'[k] == PartialNode(params, base, i + 1, k)
    {
      if k < base + i {
        assert g[k] == PartialNode(params, base, i, k);
      }
    }
  }

  lemma AppendExit(g0: Graph, g: Graph, params: seq<Param>, base: NodeId)
    requires IsPartialChain(g0, g, params, base, |params|)
    ensures |params| > 0 ==> base + |params| - 1 in g && |g[base + |params| - 1].tl| == 1
    ensures var g' := Append(g, base, |params|, ExitNode(None));
      && IsChain(g', params, base, None)
      && (forall i :: i in g' <==> i in g0 || base <= i <= base + |params|)
      && (forall i :: i in g0 ==> g'[i] == g0[i])
  {
    hide Append, ParamNodeOf, ExitNode, IsExitNode;
    var n := |params|;
    LastNode(g0, g, params, base, n);
    FreshExit();
    var g' := Append(g, base, n, ExitNode(None));
    AppendedNodes(g, base, n, if n > 0 then params[n - 1] else Param("", None, None), ExitNode(None));
    forall k | base <= k < base + n
      ensures g'[k] == ParamNodeOf(params[k - base], Some(k + 1))
    {
      assert g[k] == PartialNode(params, base, n, k);
    }
  }

  class SubgraphBuilder {
    var nodes: Graph

    constructor (g: Graph)
      ensures nodes == g
    {
      nodes := g;
    }

    /** ecryptfs_build_linear_subgraph: the loop allocates one node per parameter
        and hangs it on the transition of the previous one. */
    method BuildLinearSubgraph(alias: string, params: seq<Param>, base: NodeId) returns (entry: Transition)
      requires forall i :: i in nodes ==> i < base
      modifies this
      ensures IsChain(nodes, params, base, None)
      ensures forall i :: i in nodes <==> i in old(nodes) || base <= i <= base + |params|
      ensures forall i :: i in old(nodes) ==> nodes[i] == old(nodes)[i]
      ensures entry == Transition(Some(alias), Some(alias), Some(base), Some(EnterLinear))
    {
      entry := Transition(Some(alias), Some(alias), None, Some(EnterLinear));
      assert IsPartialChain(nodes, nodes, params, base, 0);
      AppendParams(params, base);
      if params != [] {
        entry := entry.(next := Some(base));
      }
      AppendExit(old(nodes), nodes, params, base);
      hide IsPartialChain, IsChain, Append;
      nodes := Append(nodes, base, |params|, ExitNode(None));
      if params == [] {
        entry := entry.(next := Some(base));
      }
    }

    /** The loop over the parameters. */
    method AppendParams(params: seq<Param>, base: NodeId)
      requires IsPartialChain(nodes, nodes, params, base, 0)
      modifies this
      ensures IsPartialChain(old(nodes), nodes, params, base, |params|)
    {
      hide IsPartialChain, Append;
      var i := 0;
      while i < |params|
        invariant 0 <= i <= |params| && IsPartialChain(old(nodes), nodes, params, base, i)
      {
        AppendStep(old(nodes), nodes, params, base, i);
        nodes := Append(nodes, base, i, ParamNodeOf(params[i], None));
        i := i + 1;
      }
    }
  }

  /* ---- evaluating ---- */

  /** Where values come from while a chain is walked. */
  datatype Input = Input(pairs: seq<Pair>, answers: seq<string>)

  datatype Resolved = Value(val: Option<string>, rest: Input) | Failed(rc: int)

  /** The value of one parameter: the first unused pair of its name, else its
      default, else (when prompting is on) what the user types, an empty line
      standing for the suggested value. */
  function Resolve(p: Param, input: Input, verbosity: int, canPrompt: bool): (r: Resolved) {
    var j := FindPair(input.pairs, p.option, 0);
    FindPairInRange(input.pairs, p.option, 0);
    if j.Some? then
      var pair := input.pairs[j.value];
      Value(if HasValue(pair) then pair.value else None,
            input.(pairs := input.pairs[j.value := pair.(processed := true)]))
    else if p.defaultVal.Some? && p.defaultVal.value != "NULL" then Value(p.defaultVal, input)
    else if verbosity == 0 then Value(None, input)
    else if !canPrompt then Failed(MOUNT_ERROR)
    else if input.answers == [] then Failed(-EIO)
    else Value(if input.answers[0] == "" then p.suggestedVal else Some(input.answers[0]),
               input.(answers := input.answers[1..]))
  }

  /** What a value adds to the list with d pairs called "default" around: each of
      them makes the callback run once more, unless the value is that very word. */
  function Taken(v: Option<string>, d: nat): seq<string> {
    if v.None? then [] else if v.value == "default" then [v.value] else Copies(v.value, d + 1)
  }

  datatype Collected = Values(vals: seq<string>, rest: Input) | Broken(rc: int)

  /** The values of all parameters in order, those without one left out. */
  function ResolveAll(params: seq<Param>, input: Input, verbosity: int, canPrompt: bool, d: nat): Collected {
    if params == [] then Values([], input)
    else
      match Resolve(params[0], input, verbosity, canPrompt)
      case Failed(rc) => Broken(rc)
      case Value(v, rest) =>
        match ResolveAll(params[1..], rest, verbosity, canPrompt, d)
        case Broken(rc) => Broken(rc)
        case Values(vals, rest') => Values(Taken(v, d) + vals, rest')
  }

  /** What AllocAndGetVal does at a parameter node, in terms of Resolve. */
  lemma AllocResolves(w: World, n: NodeId, p: Param, next: Option<NodeId>)
    requires Closed(w.nodes) && n in w.nodes && w.nodes[n] == ParamNodeOf(p, next)
    ensures var (w1, rc) := AllocAndGetVal(w, n);
      match Resolve(p, Input(w.pairs, w.answers), w.verbosity, w.canPrompt)
      case Failed(c) => c != 0 && rc == c
      case Value(v, rest) =>
        && rc == 0 && w1.pairs == rest.pairs && w1.answers == rest.answers
        && w1.nodes == w.nodes[n := w1.nodes[n]]
        && w1.nodes[n].val == v
  {
    hide AllocAndGetVal, FindPair, Fetched, Closed;
    PlainAlloc(w, n, p.option);
  }

  function WithVals(w: World, more: seq<string>): World
    requires w.foo.Some?
  {
    w.(foo := Some(w.foo.value.(vals := w.foo.value.vals + more)))
  }

  /** The pairs called "default" from j on, at a parameter node with value x. */
  lemma {:induction false} TakenPerDefault(mods: KeyModules, w: World, n: NodeId, j: nat)
    requires Sane(LinearCallbacks(mods)) && Closed(w.nodes) && n in w.nodes && w.foo.Some? && j <= |w.pairs|
    requires |w.nodes[n].tl| == 1 && w.nodes[n].tl[0].val == Some("default") && w.nodes[n].tl[0].func == Some(LinearVal)
    ensures var v := w.nodes[n].val;
      ScanPairs(LinearCallbacks(mods), w, n, 0, j)
      == Undecided(WithVals(w, if v.None? then [] else Copies(v.value, Defaults(w.pairs, j))))
    decreases |w.pairs| - j
  {
    var v := w.nodes[n].val;
    NothingTaken(w);
    hide Closed;
    if j < |w.pairs| {
      if w.pairs[j].name != Some("default") || v.None? {
        TakenPerDefault(mods, w, n, j + 1);
      } else {
        var w1, d := WithVals(w, [v.value]), Defaults(w.pairs, j + 1);
        TakenPerDefault(mods, w1, n, j + 1);
        CopiesFront(v.value, d);
        hide Copies, ScanPairs;
        assert w1.foo.value.vals + Copies(v.value, d) == w.foo.value.vals + Copies(v.value, d + 1);
        OneTaken(mods, w, n, j);
      }
    }
  }

  lemma NothingTaken(w: World)
    requires w.foo.Some?
    ensures WithVals(w, []) == w
  {
    assert w.foo.value.vals + [] == w.foo.value.vals;
  }

  /** One hit takes the value once more. */
  lemma OneTaken(mods: KeyModules, w: World, n: NodeId, j: nat)
    requires Sane(LinearCallbacks(mods)) && Closed(w.nodes) && n in w.nodes && w.foo.Some? && j < |w.pairs|
    requires |w.nodes[n].tl| == 1 && w.nodes[n].tl[0].val == Some("default") && w.nodes[n].tl[0].func == Some(LinearVal)
    requires w.pairs[j].name == Some("default") && w.nodes[n].val.Some?
    ensures ScanPairs(LinearCallbacks(mods), w, n, 0, j)
         == ScanPairs(LinearCallbacks(mods), WithVals(w, [w.nodes[n].val.value]), n, 0, j + 1)
  {
  }

  /** The transition out of a parameter node. */
  lemma TakeValMoves(mods: KeyModules, w: World, n: NodeId, next: NodeId)
    requires Sane(LinearCallbacks(mods)) && Closed(w.nodes) && n in w.nodes && w.foo.Some?
    requires w.nodes[n].tl == [Transition(Some("default"), None, Some(next), Some(LinearVal))]
    ensures DoTransition(LinearCallbacks(mods), w, n)
         == Move(WithVals(Enter(w, n), Taken(w.nodes[n].val, Defaults(w.pairs, 0))), 0, Some(next))
  {
    var cb, v := LinearCallbacks(mods), w.nodes[n].val;
    if v == Some("default") {
      ValueDecidesBranch(cb, w, n, 0);
      hide DoTransition;
    } else {
      var w0, d := Enter(w, n), Defaults(w.pairs, 0);
      TakenPerDefault(mods, w0, n, 0);
      SoleDefaultScan(cb, w, n);
      hide ScanPairs, Copies, DoTransition;
      if v.Some? {
        var w1 := WithVals(w0, Copies(v.value, d));
        CopiesBack(v.value, d);
        assert w1.foo.value.vals + [v.value] == w0.foo.value.vals + Copies(v.value, d + 1);
      } else {
        NothingTaken(w0);
      }
    }
  }

  lemma CopiesBack(x: string, d: nat)
    ensures Copies(x, d + 1) == Copies(x, d) + [x]
  {
  }

  /** The word "default" as the value of the exit node makes its callback run only once. */
  predicate RunsOnce(pairs: seq<Pair>) {
    var j := FindPair(pairs, EXIT_NAME, 0);
    FindPairInRange(pairs, EXIT_NAME, 0);
    Defaults(pairs, 0) == 0 || (j.Some? && pairs[j.value].value == Some("default"))
  }

  /** The transition out of the exit node: the context is used once, or it is
      used again after it was freed. */
  lemma LeaveMoves(mods: KeyModules, w: World, n: NodeId, exit: Option<NodeId>)
    requires Sane(LinearCallbacks(mods)) && Closed(w.nodes) && n in w.nodes && w.foo.Some?
    requires |w.nodes[n].tl| == 1 && w.nodes[n].tl[0].val == Some("default")
    requires w.nodes[n].tl[0].next == exit && w.nodes[n].tl[0].func == Some(ExitLinear)
    ensures var m := DoTransition(LinearCallbacks(mods), w, n);
      var (w1, rc) := Leave(mods, Enter(w, n));
      && m.w.paramVals == w1.paramVals
      && if w.nodes[n].val == Some("default") || Defaults(w.pairs, 0) == 0 then
           m.w == w1 && (m.rc == 0 <==> rc == 0 && exit.Some?) && (m.rc == 0 ==> m.next == exit)
         else m.rc == FAULT
  {
    var cb, w0 := LinearCallbacks(mods), Enter(w, n);
    var (w1, rc) := Leave(mods, w0);
    if w.nodes[n].val == Some("default") {
      ValueDecidesBranch(cb, w, n, 0);
      hide DoTransition;
    } else {
      LeavePerDefault(mods, w0, n, 0);
      LeaveClosed(mods, w0, n);
      SoleDefaultScan(cb, w, n);
      hide ScanPairs, DoTransition;
    }
  }

  lemma {:induction false} LeavePerDefault(mods: KeyModules, w: World, n: NodeId, j: nat)
    requires Sane(LinearCallbacks(mods)) && Closed(w.nodes) && n in w.nodes && j <= |w.pairs|
    requires |w.nodes[n].tl| == 1 && w.nodes[n].tl[0].val == Some("default")
    requires w.nodes[n].tl[0].func == Some(ExitLinear)
    ensures var s := ScanPairs(LinearCallbacks(mods), w, n, 0, j);
      if Defaults(w.pairs, j) == 0 then s == Undecided(w)
      else if w.foo.None? then s == Decided(Move(w, FAULT, None))
      else
        var w1 := Leave(mods, w).0;
        s == Undecided(w1) || s == Decided(Move(w1, FAULT, None))
    decreases |w.pairs| - j
  {
    hide Sane, Closed;
    if j < |w.pairs| {
      if w.pairs[j].name != Some("default") {
        LeavePerDefault(mods, w, n, j + 1);
      } else if w.foo.Some? {
        var (w1, rc) := Leave(mods, w);
        LeaveClosed(mods, w, n);
        if rc != FAULT {
          LeavePerDefault(mods, w1, n, j + 1);
        }
      }
    }
  }

  lemma LeaveClosed(mods: KeyModules, w: World, n: NodeId)
    requires w.foo.Some?
    ensures var (w1, rc) := Leave(mods, w);
      w1.nodes == w.nodes && w1.pairs == w.pairs && w1.foo.None? && rc <= 0
  {
  }

  /** One iteration at the node of parameter p: its resolved value, if any, is appended to the list. */
  ghost predicate Took(w: World, n: NodeId, p: Param, o: Outcome)
    requires w.foo.Some? && n in w.nodes
  {
    match Resolve(p, Input(w.pairs, w.answers), w.verbosity, w.canPrompt)
    case Failed(c) => o.Stopped? && o.rc == c != 0 && o.w.paramVals == w.paramVals
    case Value(v, rest) =>
      && o.Running? && o.at == n + 1
      && o.w.pairs == rest.pairs && o.w.answers == rest.answers && Defaults(rest.pairs, 0) == Defaults(w.pairs, 0)
      && o.w.verbosity == w.verbosity && o.w.canPrompt == w.canPrompt
      && n in o.w.nodes && o.w.nodes == w.nodes[n := o.w.nodes[n]]
      && o.w.stack == w.stack && o.w.paramVals == w.paramVals
      && o.w.foo == Some(w.foo.value.(vals := w.foo.value.vals + Taken(v, Defaults(w.pairs, 0))))
  }

  lemma ParamStep(mods: KeyModules, w: World, n: NodeId, p: Param)
    requires Sane(LinearCallbacks(mods))
    requires Closed(w.nodes) && n in w.nodes && w.nodes[n] == ParamNodeOf(p, Some(n + 1)) && w.foo.Some?
    ensures Took(w, n, p, Step(LinearCallbacks(mods), w, n))
  {
    var cb := LinearCallbacks(mods);
    AllocResolves(w, n, p, Some(n + 1));
    StillDefaults(w, n);
    var (w1, rc) := AllocAndGetVal(w, n);
    hide AllocAndGetVal, Resolve, DoTransition, Defaults, Taken;
    if rc == 0 {
      TakeValMoves(mods, w1, n, n + 1);
    }
  }

  /** The exit node's own value decides whether its callback runs once. */
  lemma ExitFetch(w: World, n: NodeId, exit: Option<NodeId>)
    requires Closed(w.nodes) && n in w.nodes && IsExitNode(w.nodes[n], exit)
    ensures var (w1, rc) := AllocAndGetVal(w, n);
      && rc == 0 && Defaults(w1.pairs, 0) == Defaults(w.pairs, 0)
      && (RunsOnce(w.pairs) <==> w1.nodes[n].val == Some("default") || Defaults(w.pairs, 0) == 0)
  {
    PlainAlloc(w, n, EXIT_NAME);
    StillDefaults(w, n);
    FindPairInRange(w.pairs, EXIT_NAME, 0);
    hide AllocAndGetVal, Defaults, FindPair;
  }

  /** The exit node: the collected list becomes the module's parameter values. */
  lemma ExitStep(mods: KeyModules, w: World, n: NodeId, exit: Option<NodeId>)
    requires Sane(LinearCallbacks(mods))
    requires Closed(w.nodes) && n in w.nodes && IsExitNode(w.nodes[n], exit) && w.foo.Some?
    ensures Finished(mods, w, RunsOnce(w.pairs), exit, w.foo.value, Step(LinearCallbacks(mods), w, n))
  {
    hide AllocAndGetVal, DoTransition, RunsOnce, Defaults;
    ExitFetch(w, n, exit);
    LeaveMoves(mods, AllocAndGetVal(w, n).0, n, exit);
    assert [] + w.stack == w.stack;
  }

  /** The values in `ctx` have been stored. If the callback ran `once`, evaluation
      goes on at `exit` with the key's signature pushed, unless there is no such
      node or the keyring refused the key; otherwise the process dies. */
  ghost predicate Finished(mods: KeyModules, w: World, once: bool, exit: Option<NodeId>, ctx: SubgraphCtx, o: Outcome) {
    var (rc, sig) := mods.addKey(ctx.keyMod, ctx.vals);
    && o.w.paramVals == w.paramVals[ctx.keyMod := ctx.vals]
    && (o.Running? <==> once && exit.Some? && (ctx.vals == [] || rc >= 0))
    && (o.Running? ==>
          && o.at == exit.value
          && o.w.stack == (if ctx.vals == [] then [] else ["ecryptfs_sig=" + sig]) + w.stack)
    && (o.Stopped? ==> o.rc != 0 && (!once ==> o.rc == FAULT))
  }

  /** The end of a walk along `params` that started in w. */
  ghost predicate Collects(mods: KeyModules, w: World, params: seq<Param>, exit: Option<NodeId>, o: Outcome)
    requires w.foo.Some?
  {
    match ResolveAll(params, Input(w.pairs, w.answers), w.verbosity, w.canPrompt, Defaults(w.pairs, 0))
    case Broken(rc) => o.Stopped? && o.rc == rc != 0 && o.w.paramVals == w.paramVals
    case Values(vals, rest) =>
      Finished(mods, w, RunsOnce(rest.pairs), exit, w.foo.value.(vals := w.foo.value.vals + vals), o)
  }

  /** One step followed by the walk along the rest. */
  lemma TookThenCollects(mods: KeyModules, w: World, n: NodeId, params: seq<Param>, exit: Option<NodeId>,
                         o: Outcome, end: Outcome)
    requires w.foo.Some? && n in w.nodes && params != [] && Took(w, n, params[0], o)
    requires o.Stopped? ==> end == o
    requires o.Running? ==> o.w.foo.Some? && Collects(mods, o.w, params[1..], exit, end)
    ensures Collects(mods, w, params, exit, end)
  {
    hide Resolve, Taken, Defaults, RunsOnce;
    var d := Defaults(w.pairs, 0);
    var r := Resolve(params[0], Input(w.pairs, w.answers), w.verbosity, w.canPrompt);
    if r.Value? {
      var now := Taken(r.val, d);
      match ResolveAll(params[1..], r.rest, w.verbosity, w.canPrompt, d)
      case Broken(_) =>
      case Values(vals, _) =>
        assert (w.foo.value.vals + now) + vals == w.foo.value.vals + (now + vals);
    }
  }

  lemma ChainTail(w: World, w': World, params: seq<Param>, base: NodeId, exit: Option<NodeId>)
    requires IsChain(w.nodes, params, base, exit) && params != []
    requires base in w'.nodes && w'.nodes == w.nodes[base := w'.nodes[base]]
    ensures IsChain(w'.nodes, params[1..], base + 1, exit)
  {
    hide ParamNodeOf;
  }

  /** Evaluating a chain of n parameters takes n + 1 iterations and leaves in the
      key module exactly the resolved values, in parameter order, skipping the
      parameters without one; if a value cannot be had, evaluation stops with
      that error and the module keeps what it had. Every pair called "default"
      repeats the values and kills the process at the exit node. */
  lemma {:induction false} ChainCollects(mods: KeyModules, w: World, params: seq<Param>, base: NodeId,
                                         exit: Option<NodeId>)
    requires Sane(LinearCallbacks(mods))
    requires Closed(w.nodes) && IsChain(w.nodes, params, base, exit) && base in w.nodes && w.foo.Some?
    ensures Collects(mods, w, params, exit, RunFor(LinearCallbacks(mods), w, base, |params| + 1))
    decreases |params|
  {
    hide Step, RunFor, Resolve, Finished, Defaults, RunsOnce, Taken, Sane, Closed, ParamNodeOf;
    var cb := LinearCallbacks(mods);
    RunForStep(cb, w, base, |params| + 1);
    var o := Step(cb, w, base);
    if params == [] {
      ExitStep(mods, w, base, exit);
      assert w.foo.value.vals + [] == w.foo.value.vals;
      if o.Running? {
        RunForStep(cb, o.w, o.at, 0);
      }
    } else {
      assert w.nodes[base] == ParamNodeOf(params[0], Some(base + 1));
      ParamStep(mods, w, base, params[0]);
      if o.Running? {
        ChainTail(w, o.w, params, base, exit);
        hide IsChain, Collects;
        ChainCollects(mods, o.w, params[1..], base + 1, exit);
      }
      hide Collects, Took;
      TookThenCollects(mods, w, base, params, exit, o, RunFor(cb, w, base, |params| + 1));
    }
  }
}
