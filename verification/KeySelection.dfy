/** The selection of a key module: the graph that the program assembles out of
    linear subgraphs (ecryptfs_process_decision_graph in
    src/libecryptfs/module_mgr.c), and its evaluation from the selection node to
    the module's parameter values. */
module KeySelection {
  import opened Common
  import opened DecisionGraph
  import opened DecisionGraphRuns
  import opened ExitPatching
  import opened PlainNodes
  import opened Prompts
  import opened LinearSubgraph

  const MAX_NUM_TRANSITIONS := 64

  /* ---- whose module ---- */

  /** A value that starts with an alias finds a module: the first such. */
  lemma {:induction false} FindKeyModFinds(aliases: seq<string>, v: string, i: nat) returns (k: nat)
    requires i < |aliases| && aliases[i] <= v
    ensures k <= i && aliases[k] <= v && FindKeyMod(aliases, v) == Some(aliases[k])
    ensures forall l :: 0 <= l < k ==> !(aliases[l] <= v)
  {
    if aliases[0] <= v {
      k := 0;
    } else {
      var rest := FindKeyModFinds(aliases[1..], v, i - 1);
      k := rest + 1;
    }
  }

  /** The alias of module i, the first of that name, finds this module if and only
      if no module registered earlier has an alias that is a prefix of it. */
  lemma SelectsItselfIff(aliases: seq<string>, i: nat)
    requires i < |aliases| && aliases[i] !in aliases[..i]
    ensures FindKeyMod(aliases, aliases[i]).Some?
    ensures FindKeyMod(aliases, aliases[i]) == Some(aliases[i])
      <==> forall k :: 0 <= k < i ==> !(aliases[k] <= aliases[i])
  {
    var k := FindKeyModFinds(aliases, aliases[i], i);
    if k < i {
      assert aliases[..i][k] == aliases[k];
    }
  }

  /* ---- evaluation from the selection node ---- */

  /** A linear subgraph: the module's alias and parameters, and its first node. */
  datatype Chain = Chain(alias: string, params: seq<Param>, base: NodeId) {
    function Entry(): Transition { Transition(Some(alias), Some(alias), Some(base), Some(EnterLinear)) }

    /** Its exit node. */
    function Last(): NodeId { base + |params| }
  }

  /** Branch b of the selection node leads into a chain. */
  ghost predicate IsEntry(g: Graph, sel: NodeId, b: nat, c: Chain, exit: Option<NodeId>) {
    && sel in g && b < |g[sel].tl| && !(c.base <= sel <= c.Last())
    && g[sel].tl[b] == c.Entry() && IsChain(g, c.params, c.base, exit)
  }

  /** The selection node has got the chain's alias as its value in w1, and no
      branch before b is hit. */
  ghost predicate Selects(w1: World, sel: NodeId, b: nat, c: Chain) {
    && sel in w1.nodes && b <= |w1.nodes[sel].tl| && w1.nodes[sel].val == Some(c.alias)
    && forall k :: 0 <= k < b ==> Missed(w1, sel, k)
  }

  /** The world at the first node of the subgraph. */
  function Entered(mods: KeyModules, w1: World, sel: NodeId, alias: string): World
    requires FindKeyMod(mods.aliases, alias).Some?
  {
    Enter(w1, sel).(foo := Some(SubgraphCtx(FindKeyMod(mods.aliases, alias).value, [])))
  }

  lemma EntryMoves(mods: KeyModules, w1: World, sel: NodeId, b: nat, c: Chain)
    requires Sane(LinearCallbacks(mods)) && Closed(w1.nodes) && Selects(w1, sel, b, c)
    requires b < |w1.nodes[sel].tl| && w1.nodes[sel].tl[b] == c.Entry() && FindKeyMod(mods.aliases, c.alias).Some?
    ensures DoTransition(LinearCallbacks(mods), w1, sel)
         == Move(Entered(mods, w1, sel, c.alias), 0, Some(c.base))
  {
    ValueDecidesBranch(LinearCallbacks(mods), w1, sel, b);
    hide DoTransition, FindKeyMod, Missed;
  }

  lemma {:induction false} FindsNothing(aliases: seq<string>, v: string)
    requires forall i :: 0 <= i < |aliases| ==> !(aliases[i] <= v)
    ensures FindKeyMod(aliases, v).None?
  {
    if aliases != [] { FindsNothing(aliases[1..], v); }
  }

  /** A branch whose name no alias is a prefix of ends the evaluation with code 1,
      which counts as a success, although no module was entered. */
  lemma UnknownModuleEndsIt(mods: KeyModules, w1: World, sel: NodeId, b: nat)
    requires Sane(LinearCallbacks(mods)) && Closed(w1.nodes) && sel in w1.nodes && b < |w1.nodes[sel].tl|
    requires forall k :: 0 <= k < b ==> Missed(w1, sel, k)
    requires var t := w1.nodes[sel].tl[b]; t.func == Some(EnterLinear) && t.val.Some? && w1.nodes[sel].val == t.val
    requires forall i :: 0 <= i < |mods.aliases| ==> !(mods.aliases[i] <= w1.nodes[sel].val.value)
    requires w1.nodes[sel].tl[b].next.Some?
    ensures DoTransition(LinearCallbacks(mods), w1, sel) == Move(Enter(w1, sel), 1, w1.nodes[sel].tl[b].next)
    ensures Succeeds(1)
  {
    FindsNothing(mods.aliases, w1.nodes[sel].val.value);
    ValueDecidesBranch(LinearCallbacks(mods), w1, sel, b);
    hide DoTransition, FindKeyMod, Missed;
  }

  lemma SelectionStep(mods: KeyModules, w: World, sel: NodeId, b: nat, c: Chain, exit: Option<NodeId>)
    requires Sane(LinearCallbacks(mods)) && Closed(w.nodes) && IsEntry(w.nodes, sel, b, c, exit)
    requires !w.nodes[sel].flags.allowImplicit && FindKeyMod(mods.aliases, c.alias).Some?
    requires AllocAndGetVal(w, sel).1 == 0 && Selects(AllocAndGetVal(w, sel).0, sel, b, c)
    ensures var w2 := Entered(mods, AllocAndGetVal(w, sel).0, sel, c.alias);
      && Step(LinearCallbacks(mods), w, sel) == Running(w2, c.base) && IsChain(w2.nodes, c.params, c.base, exit)
      && Closed(w2.nodes) && c.base in w2.nodes && w2.foo.Some?
  {
    var w1 := AllocAndGetVal(w, sel).0;
    AllocOnlyAt(w, sel);
    ChainUntouched(w, w1, sel, b, c, exit);
    hide AllocAndGetVal, DoTransition, FindKeyMod, Selects, IsChain, OnlyAt, Sane;
    EntryMoves(mods, w1, sel, b, c);
  }

  /** Fetching the selection node's value leaves the chain alone. */
  lemma ChainUntouched(w: World, w1: World, sel: NodeId, b: nat, c: Chain, exit: Option<NodeId>)
    requires IsEntry(w.nodes, sel, b, c, exit) && OnlyAt(w, w1, sel)
    ensures IsChain(w1.nodes, c.params, c.base, exit) && c.base in w1.nodes
  {
    forall n | c.base <= n <= c.Last()
      ensures n in w1.nodes && w1.nodes[n] == w.nodes[n]
    {
    }
  }

  /** Selecting a module by its alias, from a pair or by the user, leaves the
      resolved values of that branch's parameters in the module that the alias
      finds; every other module keeps its own. */
  lemma SelectionCollects(mods: KeyModules, w: World, sel: NodeId, b: nat, c: Chain, exit: Option<NodeId>)
    requires Sane(LinearCallbacks(mods)) && Closed(w.nodes) && IsEntry(w.nodes, sel, b, c, exit)
    requires !w.nodes[sel].flags.allowImplicit && FindKeyMod(mods.aliases, c.alias).Some?
    requires AllocAndGetVal(w, sel).1 == 0 && Selects(AllocAndGetVal(w, sel).0, sel, b, c)
    ensures var w2 := Entered(mods, AllocAndGetVal(w, sel).0, sel, c.alias);
      Collects(mods, w2, c.params, exit, RunFor(LinearCallbacks(mods), w, sel, |c.params| + 2))
  {
    hide AllocAndGetVal, Step, RunFor, Collects, FindKeyMod, IsChain, Selects, Closed, Entered, Sane;
    var cb := LinearCallbacks(mods);
    var w2 := Entered(mods, AllocAndGetVal(w, sel).0, sel, c.alias);
    SelectionStep(mods, w, sel, b, c, exit);
    RunForStep(cb, w, sel, |c.params| + 2);
    ChainCollects(mods, w2, c.params, c.base, exit);
  }

  /* ---- the assembled graph ---- */

  /** A registered module: without a subgraph of its own, with one that is entered
      by the given transition, or one whose parameter list could not be had. */
  datatype KeyModule = Linear(alias: string, params: seq<Param>) | Own(entry: Transition) | Excluded

  /** A branch of the selection node. */
  datatype Hook = ChainHook(chain: Chain) | OwnHook(entry: Transition)

  /** The branches for some modules, in order, leaving out the excluded ones. */
  ghost predicate HooksFor(mods: seq<KeyModule>, hooks: seq<Hook>)
    decreases |mods|
  {
    if mods == [] then hooks == []
    else
      var front := mods[..|mods| - 1];
      match mods[|mods| - 1]
      case Excluded => HooksFor(front, hooks)
      case Own(entry) =>
        hooks != [] && hooks[|hooks| - 1] == OwnHook(entry) && HooksFor(front, hooks[..|hooks| - 1])
      case Linear(alias, params) =>
        && hooks != [] && hooks[|hooks| - 1].ChainHook?
        && hooks[|hooks| - 1].chain.alias == alias && hooks[|hooks| - 1].chain.params == params
        && HooksFor(front, hooks[..|hooks| - 1])
  }

  /** Branch i of the selection node as built (exit None) or patched. */
  ghost predicate HookAt(g: Graph, sel: NodeId, h: Hook, i: nat, exit: Option<NodeId>) {
    match h
    case ChainHook(c) => IsEntry(g, sel, i, c, exit)
    case OwnHook(entry) =>
      && sel in g && i < |g[sel].tl|
      && g[sel].tl[i] == if exit.Some? then PatchTransition(entry, exit.value) else entry
  }

  /** A chain lies between the ids `first` and `free`. */
  predicate Within(h: Hook, first: NodeId, free: NodeId) {
    h.ChainHook? ==> first <= h.chain.base && h.chain.Last() < free
  }

  /** The hooks hang on the selection node, in g0 extended by nodes from `first`
      to below `free`. */
  ghost predicate Hung(g0: Graph, g: Graph, sel: NodeId, hooks: seq<Hook>, first: NodeId, free: NodeId) {
    && first <= free
    && sel in g0 && sel in g && g[sel] == g0[sel].(tl := g[sel].tl) && |g[sel].tl| == |hooks|
    && (forall m :: m in g <==> m in g0 || first <= m < free)
    && (forall m :: m in g0 ==> m < first && (m != sel ==> g[m] == g0[m]))
    && (forall i :: 0 <= i < |hooks| ==> HookAt(g, sel, hooks[i], i, None) && Within(hooks[i], first, free))
  }

  /** Every edge of an added node goes to a later added node. */
  ghost predicate Forward(g: Graph, first: NodeId, free: NodeId) {
    forall m, i :: first <= m < free && m in g && 0 <= i < |g[m].tl| && g[m].tl[i].next.Some? ==>
      m < g[m].tl[i].next.value < free
  }

  /** h with one more transition on the selection node. */
  function Hang(h: Graph, sel: NodeId, entry: Transition): Graph
    requires sel in h
  {
    h[sel := h[sel].(tl := h[sel].tl + [entry])]
  }

  /** h is g with a chain built behind all its nodes. */
  ghost predicate Extends(g: Graph, h: Graph, c: Chain) {
    && IsChain(h, c.params, c.base, None)
    && (forall k :: k in h <==> k in g || c.base <= k <= c.Last())
    && (forall k :: k in g ==> h[k] == g[k])
  }

  /** A hook stays where it is when nodes and a transition are added. */
  lemma StillHooked(g: Graph, h: Graph, sel: NodeId, entry: Transition, hook: Hook, i: nat, first: NodeId, free: NodeId)
    requires HookAt(g, sel, hook, i, None) && Within(hook, first, free) && sel < first && sel in h
    requires forall k :: k in g ==> k in h && h[k] == g[k]
    ensures HookAt(Hang(h, sel, entry), sel, hook, i, None)
  {
    var h' := Hang(h, sel, entry);
    if hook.ChainHook? {
      forall k | hook.chain.base <= k <= hook.chain.Last()
        ensures k in h' && h'[k] == g[k]
      {
      }
    }
  }

  lemma StillForward(g: Graph, h: Graph, sel: NodeId, c: Chain, first: NodeId)
    requires Forward(g, first, c.base) && Extends(g, h, c) && sel in g && sel < first <= c.base
    requires forall k :: first <= k < c.base ==> k in g
    ensures Forward(Hang(h, sel, c.Entry()), first, c.Last() + 1)
  {
    var h' := Hang(h, sel, c.Entry());
    forall k, i | first <= k <= c.Last() && k in h' && 0 <= i < |h'[k].tl| && h'[k].tl[i].next.Some?
      ensures k < h'[k].tl[i].next.value <= c.Last()
    {
      if k < c.base {
        assert k in g && h'[k] == g[k];
      } else {
        assert k == c.Last() || h'[k] == ParamNodeOf(c.params[k - c.base], Some(k + 1));
      }
    }
  }

  /** One more linear module: its chain is built behind the others and hung on the
      selection node. */
  lemma HangChain(g0: Graph, g: Graph, h: Graph, sel: NodeId, hooks: seq<Hook>, c: Chain, first: NodeId)
    requires Hung(g0, g, sel, hooks, first, c.base) && Extends(g, h, c)
    ensures Hung(g0, Hang(h, sel, c.Entry()), sel, hooks + [ChainHook(c)], first, c.Last() + 1)
  {
    var h', all := Hang(h, sel, c.Entry()), hooks + [ChainHook(c)];
    forall i | 0 <= i < |all|
      ensures HookAt(h', sel, all[i], i, None) && Within(all[i], first, c.Last() + 1)
    {
      if i < |hooks| {
        StillHooked(g, h, sel, c.Entry(), hooks[i], i, first, c.base);
      }
    }
    hide IsChain, HookAt;
  }

  /** One more module with a subgraph of its own. */
  lemma HangOwn(g0: Graph, g: Graph, sel: NodeId, hooks: seq<Hook>, entry: Transition, first: NodeId, free: NodeId)
    requires Hung(g0, g, sel, hooks, first, free)
    ensures Hung(g0, Hang(g, sel, entry), sel, hooks + [OwnHook(entry)], first, free)
  {
    var g', all := Hang(g, sel, entry), hooks + [OwnHook(entry)];
    forall i | 0 <= i < |all|
      ensures HookAt(g', sel, all[i], i, None) && Within(all[i], first, free)
    {
      if i < |hooks| {
        StillHooked(g, g, sel, entry, hooks[i], i, first, free);
      }
    }
    hide IsChain, HookAt;
  }

  lemma OwnStillForward(g: Graph, sel: NodeId, entry: Transition, first: NodeId, free: NodeId)
    requires Forward(g, first, free) && sel in g && sel < first
    ensures Forward(Hang(g, sel, entry), first, free)
  {
  }

  /* ---- the order of the assembled graph ---- */

  /** The subgraphs that modules bring along lie below the selection node. */
  ghost predicate OwnBelow(g0: Graph, sel: NodeId, hooks: seq<Hook>, rank: NodeId -> nat) {
    forall i :: 0 <= i < |hooks| && hooks[i].OwnHook? && hooks[i].entry.next.Some? ==>
      hooks[i].entry.next.value in g0 && rank(hooks[i].entry.next.value) < rank(sel)
  }

  /** A topological order of the assembled graph: the new chains below everything else. */
  function AssembledRank(rank: NodeId -> nat, first: NodeId, free: NodeId): NodeId -> nat {
    (m: NodeId) => if m < first then rank(m) + free + 1 else if m < free then free - m else 0
  }

  /** Where an edge of the assembled graph leads. */
  lemma AssembledEdge(g0: Graph, g: Graph, sel: NodeId, hooks: seq<Hook>, first: NodeId, free: NodeId,
                      rank: NodeId -> nat, n: NodeId, i: nat)
    requires Hung(g0, g, sel, hooks, first, free) && Forward(g, first, free) && OwnBelow(g0, sel, hooks, rank)
    requires n in g && i < |g[n].tl| && g[n].tl[i].next.Some?
    ensures var c := g[n].tl[i].next.value;
      if n == sel then first <= c < free || (hooks[i].OwnHook? && c in g0 && rank(c) < rank(sel))
      else if n < first then n in g0 && g[n] == g0[n]
      else n < c < free
  {
    if n == sel {
      assert HookAt(g, sel, hooks[i], i, None) && Within(hooks[i], first, free);
    }
  }

  lemma AssembledIsRanked(g0: Graph, g: Graph, sel: NodeId, hooks: seq<Hook>, first: NodeId, free: NodeId,
                          rank: NodeId -> nat)
    requires Hung(g0, g, sel, hooks, first, free) && Forward(g, first, free) && OwnBelow(g0, sel, hooks, rank)
    requires Closed(g0) && Ranked(g0, rank)
    ensures Closed(g) && Ranked(g, AssembledRank(rank, first, free))
  {
    var r := AssembledRank(rank, first, free);
    forall n, i | n in g && 0 <= i < |g[n].tl| && g[n].tl[i].next.Some?
      ensures g[n].tl[i].next.value in g && r(g[n].tl[i].next.value) < r(n)
    {
      AssembledEdge(g0, g, sel, hooks, first, free, rank, n, i);
      if n != sel && n < first {
        assert rank(g0[n].tl[i].next.value) < rank(n);
      }
    }
  }

  lemma AssembledExitSide(g0: Graph, g: Graph, sel: NodeId, hooks: seq<Hook>, first: NodeId, free: NodeId,
                          side: set<NodeId>, exit: NodeId)
    requires Hung(g0, g, sel, hooks, first, free) && ExitSide(g0, side, exit) && sel !in side
    ensures ExitSide(g, side, exit)
  {
    hide HookAt;
  }

  /** Without subgraphs that modules bring along, only the selection node and the
      chains are reachable from it. */
  lemma {:induction false} ReachesChains(g0: Graph, g: Graph, sel: NodeId, hooks: seq<Hook>, first: NodeId,
                                         free: NodeId, p: seq<NodeId>, n: NodeId, m: NodeId)
    requires Hung(g0, g, sel, hooks, first, free) && Forward(g, first, free)
    requires forall i :: 0 <= i < |hooks| ==> hooks[i].ChainHook?
    requires Joins(g, p, n, m) && (n == sel || n >= first)
    ensures m == sel || m >= first
    decreases |p|
  {
    if |p| > 1 {
      PathTail(g, p, n, m);
      var i :| 0 <= i < |g[n].tl| && g[n].tl[i].next == Some(p[1]);
      AssembledEdge(g0, g, sel, hooks, first, free, _ => 0, n, i);
      ReachesChains(g0, g, sel, hooks, first, free, p[1..], p[1], m);
    }
  }

  /** Every node of a chain is reachable from the selection node. */
  lemma {:induction false} ChainIsReached(g: Graph, sel: NodeId, c: Chain, i: nat, k: nat)
    requires IsEntry(g, sel, i, c, None) && k <= |c.params|
    ensures Reaches(g, sel, c.base + k)
  {
    if k == 0 {
      ReachesSelf(g, sel);
      assert g[sel].tl[i].next == Some(c.base);
      ReachesBeyond(g, sel, sel, c.base);
    } else {
      ChainIsReached(g, sel, c, i, k - 1);
      var n := c.base + (k - 1);
      assert g[n] == ParamNodeOf(c.params[n - c.base], Some(n + 1));
      assert g[n].tl[0].next == Some(c.base + k);
      ReachesBeyond(g, sel, n, c.base + k);
    }
  }

  /* ---- patching ---- */

  /** What exit patching from the selection node does, as its contract states it. */
  ghost predicate PatchedFrom(g: Graph, h: Graph, sel: NodeId, exit: NodeId) {
    && h.Keys == g.Keys
    && (forall m :: m in h && !Reaches(g, sel, m) ==> h[m] == g[m])
    && (forall m :: m in h && Reaches(g, sel, m) ==> PatchedNode(g[m], h[m], exit))
  }

  ghost predicate PatchedNode(before: ParamNode, after: ParamNode, exit: NodeId) {
    && after == before.(tl := after.tl) && |after.tl| == |before.tl|
    && forall i :: 0 <= i < |after.tl| ==> after.tl[i] == PatchTransition(before.tl[i], exit)
  }

  /** Patching a built subgraph gives the chain that leads to the exit node. */
  lemma PatchedEntry(g: Graph, h: Graph, sel: NodeId, c: Chain, i: nat, exit: NodeId)
    requires IsEntry(g, sel, i, c, None) && PatchedFrom(g, h, sel, exit)
    ensures IsEntry(h, sel, i, c, Some(exit))
  {
    ReachesSelf(g, sel);
    hide Reaches;
    assert PatchedNode(g[sel], h[sel], exit);
    forall n | c.base <= n <= c.Last()
      ensures n in h && PatchedNode(g[n], h[n], exit)
    {
      ChainIsReached(g, sel, c, i, n - c.base);
    }
    forall n | c.base <= n < c.Last()
      ensures h[n] == ParamNodeOf(c.params[n - c.base], Some(n + 1))
    {
      assert PatchedNode(g[n], h[n], exit);
      assert h[n].tl == g[n].tl;
    }
    var last := c.Last();
    assert PatchedNode(g[last], h[last], exit);
    assert h[last].tl == [PatchTransition(g[last].tl[0], exit)];
  }

  /** A NULL branch without a name becomes the one that is taken by default: a node
      with nothing else leads to the exit node, after its callback if it has one. */
  lemma PatchedBranchLeads(cb: Callbacks, w: World, n: NodeId, t: Transition, exit: NodeId)
    requires Sane(cb) && Closed(w.nodes) && n in w.nodes && NoDefaultPair(w.pairs)
    requires t.next.None? && w.nodes[n].tl == [PatchTransition(t, exit)]
    ensures PatchTransition(t, exit) == Transition(Some("default"), Some("default"), Some(exit), t.func)
    ensures var (w1, tok) := Call(cb, Enter(w, n), n, 0, 0);
      tok == 0 && w1.nodes[n].tl == w.nodes[n].tl ==> DoTransition(cb, w, n) == Move(w1, 0, Some(exit))
  {
    SoleDefaultBranch(cb, w, n);
    hide DoTransition;
  }

  /** The assembled graph: all branches on the selection node, every chain leading
      to the exit node; any other node as it was or, inside a subgraph that a
      module brought along, with its NULL edges patched. */
  ghost predicate Assembled(g0: Graph, g: Graph, sel: NodeId, hooks: seq<Hook>, exit: NodeId) {
    && sel in g && sel in g0 && g[sel] == g0[sel].(tl := g[sel].tl) && |g[sel].tl| == |hooks|
    && (forall i :: 0 <= i < |hooks| ==> HookAt(g, sel, hooks[i], i, Some(exit)))
    && (forall m :: m in g0 && m != sel ==> m in g && (g[m] == g0[m] || PatchedNode(g0[m], g[m], exit)))
    && ((forall i :: 0 <= i < |hooks| ==> hooks[i].ChainHook?) ==> forall m :: m in g0 && m != sel ==> g[m] == g0[m])
  }

  lemma PatchedHook(g: Graph, h: Graph, sel: NodeId, hook: Hook, i: nat, exit: NodeId)
    requires HookAt(g, sel, hook, i, None) && PatchedFrom(g, h, sel, exit)
    ensures HookAt(h, sel, hook, i, Some(exit))
  {
    match hook
    case ChainHook(c) => PatchedEntry(g, h, sel, c, i, exit);
    case OwnHook(entry) =>
      ReachesSelf(g, sel);
      assert PatchedNode(g[sel], h[sel], exit);
  }

  lemma PatchedIsAssembled(g0: Graph, g: Graph, h: Graph, sel: NodeId, hooks: seq<Hook>, first: NodeId, free: NodeId,
                           exit: NodeId)
    requires Hung(g0, g, sel, hooks, first, free) && Forward(g, first, free) && PatchedFrom(g, h, sel, exit)
    ensures Assembled(g0, h, sel, hooks, exit)
  {
    ReachesSelf(g, sel);
    assert PatchedNode(g[sel], h[sel], exit);
    forall i | 0 <= i < |hooks|
      ensures HookAt(h, sel, hooks[i], i, Some(exit))
    {
      PatchedHook(g, h, sel, hooks[i], i, exit);
    }
    hide HookAt, PatchedNode;
    if forall i :: 0 <= i < |hooks| ==> hooks[i].ChainHook? {
      forall m | m in g0 && m != sel
        ensures h[m] == g0[m]
      {
        if Reaches(g, sel, m) {
          var p :| Joins(g, p, sel, m);
          ReachesChains(g0, g, sel, hooks, first, free, p, sel, m);
        }
      }
    }
  }

  /* ---- assembling ---- */

  function KeptCount(mods: seq<KeyModule>): nat {
    if mods == [] then 0 else KeptCount(mods[..|mods| - 1]) + if mods[|mods| - 1].Excluded? then 0 else 1
  }

  /** The loop over the key modules: a chain for each that has no subgraph of its
      own, and its entry on the selection node, up to the limit of branches. */
  method HangModules(g0: Graph, sel: NodeId, mods: seq<KeyModule>, first: NodeId)
    returns (rc: int, nodes: Graph, ghost hooks: seq<Hook>, ghost free: NodeId)
    requires sel in g0 && Hung(g0, g0, sel, [], first, first) && Forward(g0, first, first)
    ensures rc == 0 || rc == -ENOMEM
    ensures rc == 0 <==> KeptCount(mods) <= MAX_NUM_TRANSITIONS
    ensures rc == 0 ==>
      HooksFor(mods, hooks) && Hung(g0, nodes, sel, hooks, first, free) && Forward(nodes, first, free)
  {
    hooks, free := [], first;
    var next := first;
    var builder := new SubgraphBuilder(g0);
    hide Hung, Forward, IsChain;
    var i := 0;
    assert mods[..0] == [];
    while i < |mods|
      invariant 0 <= i <= |mods| && next == free && sel in builder.nodes
      invariant |hooks| == KeptCount(mods[..i]) <= MAX_NUM_TRANSITIONS && HooksFor(mods[..i], hooks)
      invariant Hung(g0, builder.nodes, sel, hooks, first, next) && Forward(builder.nodes, first, next)
    {
      assert mods[..i + 1][..i] == mods[..i];
      HungFacts(g0, builder.nodes, sel, hooks, first, next);
      if !mods[i].Excluded? {
        if |builder.nodes[sel].tl| >= MAX_NUM_TRANSITIONS {
          KeptGrows(mods, i + 1);
          return -ENOMEM, builder.nodes, hooks, free;
        }
        ghost var hook;
        next, hook := HangModule(builder, sel, mods[i], next, g0, hooks, first);
        assert (hooks + [hook])[..|hooks|] == hooks;
        hooks := hooks + [hook];
        free := next;
      }
      i := i + 1;
    }
    assert mods[..i] == mods;
    rc, nodes := 0, builder.nodes;
  }

  lemma {:induction false} KeptGrows(mods: seq<KeyModule>, i: nat)
    requires i <= |mods|
    ensures KeptCount(mods[..i]) <= KeptCount(mods)
    decreases |mods| - i
  {
    if i < |mods| {
      assert mods[..i + 1][..i] == mods[..i];
      KeptGrows(mods, i + 1);
    } else {
      assert mods[..i] == mods;
    }
  }

  /** One module that is kept. */
  method HangModule(builder: SubgraphBuilder, sel: NodeId, m: KeyModule, next: NodeId, ghost g0: Graph,
                    ghost hooks: seq<Hook>, ghost first: NodeId)
    returns (next': NodeId, ghost hook: Hook)
    requires !m.Excluded? && sel in builder.nodes
    requires Hung(g0, builder.nodes, sel, hooks, first, next) && Forward(builder.nodes, first, next)
    modifies builder
    ensures sel in builder.nodes
    ensures Hung(g0, builder.nodes, sel, hooks + [hook], first, next') && Forward(builder.nodes, first, next')
    ensures match m
      case Own(entry) => hook == OwnHook(entry)
      case Linear(alias, params) => hook == ChainHook(Chain(alias, params, next))
      case Excluded => true
  {
    hide Hung, Forward, IsChain;
    HungFacts(g0, builder.nodes, sel, hooks, first, next);
    ghost var before := builder.nodes;
    if m.Own? {
      HangOwn(g0, before, sel, hooks, m.entry, first, next);
      OwnStillForward(before, sel, m.entry, first, next);
      builder.nodes := Hang(builder.nodes, sel, m.entry);
      return next, OwnHook(m.entry);
    }
    ghost var c := Chain(m.alias, m.params, next);
    var entry := builder.BuildLinearSubgraph(m.alias, m.params, next);
    assert Extends(before, builder.nodes, c);
    HangChain(g0, before, builder.nodes, sel, hooks, c, first);
    StillForward(before, builder.nodes, sel, c, first);
    builder.nodes := Hang(builder.nodes, sel, entry);
    return next + |m.params| + 1, ChainHook(c);
  }

  /** The subgraphs that modules bring along are in g, below the selection node. */
  ghost predicate OwnModulesBelow(g: Graph, sel: NodeId, mods: seq<KeyModule>, rank: NodeId -> nat) {
    forall i :: 0 <= i < |mods| && mods[i].Own? && mods[i].entry.next.Some? ==>
      mods[i].entry.next.value in g && rank(mods[i].entry.next.value) < rank(sel)
  }

  lemma {:induction false} HooksBelow(g: Graph, sel: NodeId, mods: seq<KeyModule>, hooks: seq<Hook>,
                                      rank: NodeId -> nat)
    requires HooksFor(mods, hooks) && OwnModulesBelow(g, sel, mods, rank)
    ensures OwnBelow(g, sel, hooks, rank)
    decreases |mods|
  {
    if mods != [] {
      var front, n := mods[..|mods| - 1], |hooks|;
      if mods[|mods| - 1].Excluded? {
        HooksBelow(g, sel, front, hooks, rank);
      } else {
        HooksBelow(g, sel, front, hooks[..n - 1], rank);
        assert forall i :: 0 <= i < n - 1 ==> hooks[i] == hooks[..n - 1][i];
      }
    }
  }

  /** The part of ecryptfs_process_decision_graph that assembles the graph, new
      nodes getting ids from `first` on. */
  method AssembleSelection(g: Graph, sel: NodeId, mods: seq<KeyModule>, first: NodeId, exit: NodeId,
                           ghost rank: NodeId -> nat, ghost side: set<NodeId>)
    returns (rc: int, nodes: Graph, ghost hooks: seq<Hook>)
    requires Closed(g) && Ranked(g, rank) && ExitSide(g, side, exit) && sel in g && sel !in side
    requires OwnModulesBelow(g, sel, mods, rank) && forall m :: m in g ==> m < first
    ensures rc == if KeptCount(mods) <= MAX_NUM_TRANSITIONS then 0 else -ENOMEM
    ensures rc == 0 ==> HooksFor(mods, hooks) && Assembled(g, nodes, sel, hooks, exit) && Closed(nodes)
  {
    var g0 := g[sel := g[sel].(tl := [])];
    Emptied(g, g0, sel, mods, first, exit, rank, side);
    hide Hung, Forward, Closed, Ranked, ExitSide, Assembled, PatchedFrom, Reaches, AssembledRank, PatchedRank,
         PatchTransition;
    ghost var free;
    rc, nodes, hooks, free := HangModules(g0, sel, mods, first);
    if rc != 0 {
      return;
    }
    ghost var hung := nodes;
    HungFacts(g0, hung, sel, hooks, first, free);
    HooksBelow(g0, sel, mods, hooks, rank);
    hide OwnBelow, OwnModulesBelow, HooksFor;
    AssembledIsRanked(g0, hung, sel, hooks, first, free, rank);
    AssembledExitSide(g0, hung, sel, hooks, first, free, side, exit);
    var store := new GraphStore(nodes);
    rc := store.SetExitParamOnGraph(sel, exit, AssembledRank(rank, first, free), side);
    nodes := store.nodes;
    FromContract(hung, nodes, sel, exit, side);
    PatchedIsAssembled(g0, hung, nodes, sel, hooks, first, free, exit);
    SameBase(g, g0, nodes, sel, hooks, exit);
  }

  /** The selection node without its transitions. */
  lemma Emptied(g: Graph, g0: Graph, sel: NodeId, mods: seq<KeyModule>, first: NodeId, exit: NodeId,
                rank: NodeId -> nat, side: set<NodeId>)
    requires Closed(g) && Ranked(g, rank) && ExitSide(g, side, exit) && sel in g && sel !in side
    requires OwnModulesBelow(g, sel, mods, rank)
    requires (forall m :: m in g ==> m < first) && g0 == g[sel := g[sel].(tl := [])]
    ensures Closed(g0) && Ranked(g0, rank) && ExitSide(g0, side, exit) && OwnModulesBelow(g0, sel, mods, rank)
    ensures Hung(g0, g0, sel, [], first, first) && Forward(g0, first, first)
  {
  }

  lemma HungFacts(g0: Graph, g: Graph, sel: NodeId, hooks: seq<Hook>, first: NodeId, free: NodeId)
    requires Hung(g0, g, sel, hooks, first, free)
    ensures sel in g && sel < first <= free && |g[sel].tl| == |hooks|
    ensures (forall m :: m in g ==> m < free) && (forall k :: first <= k < free ==> k in g)
  {
  }

  lemma FromContract(g: Graph, h: Graph, sel: NodeId, exit: NodeId, side: set<NodeId>)
    requires h.Keys == g.Keys && Closed(g) && ExitSide(g, side, exit)
    requires forall m :: m in h && !Reaches(g, sel, m) ==> h[m] == g[m]
    requires forall m :: m in h && Reaches(g, sel, m) ==>
      && h[m] == g[m].(tl := h[m].tl) && |h[m].tl| == |g[m].tl|
      && forall i :: 0 <= i < |h[m].tl| ==> h[m].tl[i] == PatchTransition(g[m].tl[i], exit)
    ensures PatchedFrom(g, h, sel, exit) && Closed(h)
  {
    hide Reaches;
    forall n, i | n in h && 0 <= i < |h[n].tl| && h[n].tl[i].next.Some?
      ensures h[n].tl[i].next.value in h
    {
      assert g[n].tl[i].next.Some? ==> g[n].tl[i].next.value in g;
    }
  }

  lemma SameBase(g: Graph, g0: Graph, h: Graph, sel: NodeId, hooks: seq<Hook>, exit: NodeId)
    requires sel in g && g0 == g[sel := g[sel].(tl := [])] && Assembled(g0, h, sel, hooks, exit)
    ensures Assembled(g, h, sel, hooks, exit)
  {
    hide HookAt, PatchedNode;
  }

  /* ---- the whole way ---- */

  /** From the selection node of an assembled graph, with the linear module of
      branch b selected by its alias: its parameters' values are stored and
      evaluation goes on at the exit node, as `Collects` says. Whatever other
      modules are registered, they are stored in this one, at place r of the
      registered aliases, if and only if no alias before it is a prefix of its own. */
  lemma AssembledSelectionCollects(mods: KeyModules, w: World, g0: Graph, sel: NodeId, hooks: seq<Hook>,
                                   exit: NodeId, b: nat, r: nat)
    requires Sane(LinearCallbacks(mods)) && Closed(w.nodes) && Assembled(g0, w.nodes, sel, hooks, exit)
    requires b < |hooks| && hooks[b].ChainHook? && !w.nodes[sel].flags.allowImplicit
    requires r < |mods.aliases| && mods.aliases[r] == hooks[b].chain.alias
    requires mods.aliases[r] !in mods.aliases[..r]
    requires AllocAndGetVal(w, sel).1 == 0 && Selects(AllocAndGetVal(w, sel).0, sel, b, hooks[b].chain)
    ensures FindKeyMod(mods.aliases, hooks[b].chain.alias).Some?
    ensures var c := hooks[b].chain;
      var w2 := Entered(mods, AllocAndGetVal(w, sel).0, sel, c.alias);
      && Collects(mods, w2, c.params, Some(exit), RunFor(LinearCallbacks(mods), w, sel, |c.params| + 2))
      && (w2.foo.value.keyMod == c.alias <==> forall k :: 0 <= k < r ==> !(mods.aliases[k] <= c.alias))
  {
    SelectsItselfIff(mods.aliases, r);
    hide AllocAndGetVal, FindKeyMod, Collects, RunFor, IsChain, Selects;
    assert HookAt(w.nodes, sel, hooks[b], b, Some(exit));
    hide Assembled;
    SelectionCollects(mods, w, sel, b, hooks[b].chain, Some(exit));
  }

  /** Typing the number b + 1 at the selection node selects the chain of branch b. */
  lemma TypedSelection(w: World, sel: NodeId, b: nat, c: Chain, exit: Option<NodeId>)
    requires Closed(w.nodes) && IsEntry(w.nodes, sel, b, c, exit) && IsAsked(w, sel) && ValuedMenu(w.nodes[sel])
    requires w.answers != [] && w.answers[0] == Decimal(b + 1) && NoEarlierName(w, sel, b)
    ensures AllocAndGetVal(w, sel) == (Left(w, sel, c.alias), 0) && Selects(Left(w, sel, c.alias), sel, b, c)
  {
    NumberPicks(w, sel, b + 1);
    AskedMenu(w, sel);
    hide AskMenu, AllocAndGetVal, IsChain, IsAsked;
  }
}
