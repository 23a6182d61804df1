/** Properties of whole evaluations of a decision graph: which pair a node gets,
    that a pair is used once, that evaluation ends, and which branch a menu with
    implicit transitions takes. */
module DecisionGraphRuns {
  import opened Common
  import opened DecisionGraph

  /* ---- the choice of a pair ---- */

  /** Pair j is unprocessed and called `name`. */
  predicate Offers(pairs: seq<Pair>, j: int, name: string) {
    0 <= j < |pairs| && pairs[j].name == Some(name) && !pairs[j].processed
  }

  lemma {:induction false} FindPairIsFirst(pairs: seq<Pair>, name: string, j: nat)
    requires j <= |pairs|
    ensures var f := FindPair(pairs, name, j);
      if f.None? then forall k :: j <= k ==> !Offers(pairs, k, name)
      else j <= f.value && Offers(pairs, f.value, name) && forall k :: j <= k < f.value ==> !Offers(pairs, k, name)
    decreases |pairs| - j
  {
    if j < |pairs| {
      FindPairIsFirst(pairs, name, j + 1);
    }
  }

  /** Pair j is the first on offer for alias a, and no alias between a and i has any. */
  ghost predicate IsBestOffer(pairs: seq<Pair>, names: seq<string>, i: nat, a: int, j: int)
    requires i <= |names|
  {
    && 0 <= a < i && Offers(pairs, j, names[a])
    && (forall k :: 0 <= k < j ==> !Offers(pairs, k, names[a]))
    && (forall a', k :: a < a' < i ==> !Offers(pairs, k, names[a']))
  }

  /** retrieve_val takes the first unprocessed pair of the highest-index alias
      that has any; it finds nothing exactly when no alias has one. */
  lemma {:induction false} ChoosePairIsFirstForHighestAlias(pairs: seq<Pair>, names: seq<string>, i: nat)
    requires i <= |names|
    ensures var c := ChoosePair(pairs, names, i);
      if c.None? then forall a, k :: 0 <= a < i ==> !Offers(pairs, k, names[a])
      else exists a :: IsBestOffer(pairs, names, i, a, c.value)
  {
    if i > 0 {
      FindPairIsFirst(pairs, names[i - 1], 0);
      ChoosePairIsFirstForHighestAlias(pairs, names, i - 1);
      if FindPair(pairs, names[i - 1], 0).None? && ChoosePair(pairs, names, i - 1).Some? {
        var c := ChoosePair(pairs, names, i - 1);
        var a :| IsBestOffer(pairs, names, i - 1, a, c.value);
        assert IsBestOffer(pairs, names, i, a, c.value);
      } else if FindPair(pairs, names[i - 1], 0).Some? {
        assert IsBestOffer(pairs, names, i, i - 1, ChoosePair(pairs, names, i).value);
      }
    }
  }

  /* ---- single consumption ---- */

  /** Pair j occurs in the delivery history from position `from` on. */
  ghost predicate DeliveredSince(log: seq<Delivery>, from: nat, j: int) {
    exists k :: from <= k < |log| && log[k].pair == j
  }

  /** The books balance between w0 and w: names and values are untouched, a pair
      is marked PROCESSED exactly when it was so already or has been delivered
      since, no pair has been delivered twice, and none that was already marked. */
  ghost predicate Ledger(w0: World, w: World) {
    && |w.pairs| == |w0.pairs|
    && w0.delivered <= w.delivered
    && (forall j :: 0 <= j < |w.pairs| ==>
          w.pairs[j].name == w0.pairs[j].name && w.pairs[j].value == w0.pairs[j].value)
    && (forall j :: 0 <= j < |w.pairs| ==>
          (w.pairs[j].processed <==> w0.pairs[j].processed || DeliveredSince(w.delivered, |w0.delivered|, j)))
    && (forall k :: |w0.delivered| <= k < |w.delivered| ==>
          w.delivered[k].pair < |w0.pairs| && !w0.pairs[w.delivered[k].pair].processed)
    && (forall k, l :: |w0.delivered| <= k < l < |w.delivered| ==> w.delivered[k].pair != w.delivered[l].pair)
  }

  lemma DeliverKeepsLedger(w0: World, w: World, n: NodeId, j: nat)
    requires n in w.nodes && j < |w.pairs| && !w.pairs[j].processed
    requires Ledger(w0, w)
    ensures Ledger(w0, Deliver(w, n, j))
  {
    var w' := Deliver(w, n, j);
    var b := |w0.delivered|;
    assert w'.delivered[|w.delivered|].pair == j;
    assert DeliveredSince(w'.delivered, b, j);
    forall i | 0 <= i < |w.pairs| && i != j
      ensures DeliveredSince(w'.delivered, b, i) <==> DeliveredSince(w.delivered, b, i)
    {
      if DeliveredSince(w.delivered, b, i) {
        var k :| b <= k < |w.delivered| && w.delivered[k].pair == i;
        assert w'.delivered[k].pair == i;
      }
    }
    assert !DeliveredSince(w.delivered, b, j);
  }

  lemma RetrieveKeepsLedger(w0: World, w: World, n: NodeId)
    requires n in w.nodes && Ledger(w0, w)
    ensures Ledger(w0, RetrieveVal(w, n).0)
  {
    var names := w.nodes[n].names;
    ChoosePairIsFirstForHighestAlias(w.pairs, names, |names|);
    var c := ChoosePair(w.pairs, names, |names|);
    if c.Some? {
      var a :| IsBestOffer(w.pairs, names, |names|, a, c.value);
      DeliverKeepsLedger(w0, w, n, c.value);
    }
  }

  lemma SameBooks(w0: World, w: World, w': World)
    requires Ledger(w0, w) && w'.pairs == w.pairs && w'.delivered == w.delivered
    ensures Ledger(w0, w')
  {
  }

  lemma {:induction false} ImplicitScanKeepsLedger(w0: World, w: World, n: NodeId, i: nat, got: bool)
    requires n in w.nodes && Closed(w.nodes) && i <= |w.nodes[n].tl| && Ledger(w0, w)
    ensures Ledger(w0, ImplicitScan(w, n, i, got).0)
    decreases |w.nodes[n].tl| - i
  {
    hide Ledger, RetrieveVal;
    if i < |w.nodes[n].tl| {
      var next := w.nodes[n].tl[i].next;
      if next.None? {
        if !got { ImplicitScanKeepsLedger(w0, w, n, i + 1, got); }
      } else {
        RetrieveKeepsLedger(w0, w, next.value);
        var (w1, got1) := RetrieveVal(w, next.value);
        if got1 {
          SameBooks(w0, w1, SetVal(w1, n, Some(w1.nodes[next.value].PrimaryName())));
        } else {
          ImplicitScanKeepsLedger(w0, w1, n, i + 1, false);
        }
      }
    }
  }

  lemma AllocKeepsLedger(w0: World, w: World, n: NodeId)
    requires n in w.nodes && Closed(w.nodes) && Ledger(w0, w)
    ensures Ledger(w0, AllocAndGetVal(w, n).0)
  {
    hide Ledger, RetrieveVal, ImplicitScan, Ask;
    if w.nodes[n].val.None? {
      RetrieveKeepsLedger(w0, w, n);
      var (w1, got) := RetrieveVal(w, n);
      SameBooks(w0, w1, Ask(w1, n).0);
      ImplicitScanKeepsLedger(w0, w1, n, 0, got);
      var w2 := ImplicitScan(w1, n, 0, got).0;
      SameBooks(w0, w2, Ask(w2, n).0);
    }
  }

  lemma StepKeepsLedger(cb: Callbacks, w0: World, w: World, n: NodeId)
    requires Sane(cb) && Closed(w.nodes) && n in w.nodes && Ledger(w0, w)
    ensures Ledger(w0, Step(cb, w, n).w)
  {
    hide Ledger, AllocAndGetVal, DoTransition;
    AllocKeepsLedger(w0, w, n);
    var w1 := AllocAndGetVal(w, n).0;
    SameBooks(w0, w1, DoTransition(cb, w1, n).w);
  }

  lemma RunForStep(cb: Callbacks, w: World, n: NodeId, k: nat)
    requires Sane(cb) && Closed(w.nodes) && n in w.nodes
    ensures var o := Step(cb, w, n);
      RunFor(cb, w, n, k) ==
        if k == 0 then Running(w, n) else if o.Running? then RunFor(cb, o.w, o.at, k - 1) else o
  {
    hide Step;
  }

  /** Over a whole evaluation, of any length and with any callbacks, every pair
      is delivered to at most one node and PROCESSED marks only grow. */
  lemma {:induction false} EachPairConsumedOnce(cb: Callbacks, w0: World, w: World, n: NodeId, k: nat)
    requires Sane(cb) && Closed(w.nodes) && n in w.nodes && Ledger(w0, w)
    ensures Ledger(w0, RunFor(cb, w, n, k).w)
    decreases k
  {
    hide Step, RunFor, Ledger;
    RunForStep(cb, w, n, k);
    if k > 0 {
      var o := Step(cb, w, n);
      StepKeepsLedger(cb, w0, w, n);
      if o.Running? {
        EachPairConsumedOnce(cb, w0, o.w, o.at, k - 1);
      }
    }
  }

  /* ---- termination ---- */

  lemma EdgeToSame(g: Graph, h: Graph, n: NodeId, m: NodeId)
    requires n in g && SameEdges(g, h) && EdgeTo(h, n, m)
    ensures EdgeTo(g, n, m)
  {
    var i :| 0 <= i < |h[n].tl| && h[n].tl[i].next == Some(m);
    assert g[n].tl[i].next == Some(m);
  }

  /** Nothing is rewired, and a decided move goes along an edge of n or, counting
      one more re-ask below the limit, back to n itself. */
  ghost predicate MoveOk(w: World, n: NodeId, s: Scan)
    requires n in w.nodes
  {
    match s
    case Undecided(w') => SameEdges(w.nodes, w'.nodes) && w'.repeated == w.repeated
    case Decided(m) =>
      && SameEdges(w.nodes, m.w.nodes)
      && (m.rc == 0 && m.next.Some? ==>
            || EdgeTo(w.nodes, n, m.next.value)
            || (m.next.value == n && m.w.repeated == w.repeated + 1 < MAX_REPEATS))
  }

  lemma FollowOk(w: World, w1: World, n: NodeId, i: nat, rc: int, dead: int)
    requires n in w.nodes && SameEdges(w.nodes, w1.nodes) && i < |w.nodes[n].tl|
    ensures MoveOk(w, n, Decided(Follow(w1, n, i, rc, dead)))
  {
    if w1.nodes[n].tl[i].next.Some? {
      assert w.nodes[n].tl[i].next == Some(w1.nodes[n].tl[i].next.value);
    }
  }

  lemma {:induction false} ScanPairsMoves(cb: Callbacks, w: World, n: NodeId, i: nat, j: nat)
    requires Sane(cb) && NonRewiring(cb)
    requires Closed(w.nodes) && n in w.nodes && i < |w.nodes[n].tl| && j <= |w.pairs|
    ensures MoveOk(w, n, ScanPairs(cb, w, n, i, j))
    decreases |w.pairs| - j
  {
    if j < |w.pairs| {
      var tn := w.nodes[n].tl[i];
      if tn.val.Some? && w.pairs[j].name != tn.val {
        ScanPairsMoves(cb, w, n, i, j + 1);
      } else {
        var (w1, tok) := Call(cb, w, n, i, NULL_TOK);
        FollowOk(w, w1, n, i, 0, -EINVAL);
        if tok !in {MOUNT_ERROR, FAULT, DEFAULT_TOK, NULL_TOK} {
          ScanPairsMoves(cb, w1, n, i, j + 1);
          MoveOkFrom(w, w1, n, ScanPairs(cb, w1, n, i, j + 1));
        }
      }
    }
  }

  lemma MoveOkFrom(w: World, w1: World, n: NodeId, s: Scan)
    requires n in w.nodes && SameEdges(w.nodes, w1.nodes) && w1.repeated == w.repeated
    requires MoveOk(w1, n, s)
    ensures MoveOk(w, n, s)
  {
    if s.Decided? && s.move.rc == 0 && s.move.next.Some? && EdgeTo(w1.nodes, n, s.move.next.value) {
      EdgeToSame(w.nodes, w1.nodes, n, s.move.next.value);
    }
  }

  lemma {:induction false} ScanBranchesMoves(cb: Callbacks, w: World, n: NodeId, i: nat)
    requires Sane(cb) && NonRewiring(cb)
    requires Closed(w.nodes) && n in w.nodes && i <= |w.nodes[n].tl|
    ensures MoveOk(w, n, ScanBranches(cb, w, n, i))
    decreases |w.nodes[n].tl| - i
  {
    if i < |w.nodes[n].tl| {
      if w.nodes[n].tl[i].val.Some? && w.nodes[n].val == w.nodes[n].tl[i].val {
        var (w1, rc) := Call(cb, w, n, i, 0);
        FollowOk(w, w1, n, i, rc, if rc == FAULT then rc else EINVAL);
      } else {
        ScanPairsMoves(cb, w, n, i, 0);
        match ScanPairs(cb, w, n, i, 0)
        case Decided(_) =>
        case Undecided(w1) =>
          ScanBranchesMoves(cb, w1, n, i + 1);
          MoveOkFrom(w, w1, n, ScanBranches(cb, w1, n, i + 1));
      }
    }
  }

  lemma {:induction false} ScanDefaultsMoves(cb: Callbacks, w: World, n: NodeId, i: nat)
    requires Sane(cb) && NonRewiring(cb)
    requires Closed(w.nodes) && n in w.nodes && i <= |w.nodes[n].tl|
    ensures MoveOk(w, n, ScanDefaults(cb, w, n, i))
    decreases |w.nodes[n].tl| - i
  {
    if i < |w.nodes[n].tl| {
      if w.nodes[n].tl[i].val == Some("default") {
        var (w1, tok) := Call(cb, w, n, i, NULL_TOK);
        FollowOk(w, w1, n, i, 0, -EINVAL);
      } else {
        ScanDefaultsMoves(cb, w, n, i + 1);
      }
    }
  }

  lemma TransitionMoves(cb: Callbacks, w: World, n: NodeId)
    requires Sane(cb) && NonRewiring(cb) && Closed(w.nodes) && n in w.nodes
    ensures MoveOk(Enter(w, n), n, Decided(DoTransition(cb, w, n)))
  {
    var w0 := Enter(w, n);
    ScanBranchesMoves(cb, w0, n, 0);
    match ScanBranches(cb, w0, n, 0)
    case Decided(_) =>
    case Undecided(w1) =>
      ScanDefaultsMoves(cb, w1, n, 0);
      MoveOkFrom(w0, w1, n, ScanDefaults(cb, w1, n, 0));
  }

  /** Iterations left: five for every rank still below, and what is left of five at this node. */
  function Budget(w: World, n: NodeId, rank: NodeId -> nat): (b: nat)
    ensures 0 < b <= MAX_REPEATS * (rank(n) + 1)
  {
    MAX_REPEATS * rank(n)
    + (if w.last == Some(n) then if w.repeated < MAX_REPEATS then MAX_REPEATS - w.repeated else 1 else MAX_REPEATS)
  }

  lemma RankedSame(g: Graph, h: Graph, rank: NodeId -> nat)
    requires Ranked(g, rank) && SameEdges(g, h)
    ensures Ranked(h, rank)
  {
  }

  lemma StepSpendsBudget(cb: Callbacks, w: World, n: NodeId, rank: NodeId -> nat)
    requires Sane(cb) && NonRewiring(cb)
    requires Closed(w.nodes) && n in w.nodes && Ranked(w.nodes, rank)
    ensures var o := Step(cb, w, n);
      o.Running? ==> Ranked(o.w.nodes, rank) && Budget(o.w, o.at, rank) < Budget(w, n, rank)
  {
    var (w1, rc) := AllocAndGetVal(w, n);
    RankedSame(w.nodes, w1.nodes, rank);
    if rc == 0 {
      TransitionMoves(cb, w1, n);
      var m := DoTransition(cb, w1, n);
      RankedSame(w1.nodes, m.w.nodes, rank);
      if m.rc == 0 && EdgeTo(w1.nodes, n, m.next.value) {
        assert rank(m.next.value) < rank(n);
        assert Budget(m.w, m.next.value, rank) <= MAX_REPEATS * (rank(m.next.value) + 1);
      }
    }
  }

  /** Evaluation of an acyclic graph whose callbacks rewire nothing stops after
      at most five iterations per rank, whatever the pairs and the answers. */
  lemma {:induction false} EvaluationTerminates(cb: Callbacks, w: World, n: NodeId, rank: NodeId -> nat, k: nat)
    requires Sane(cb) && NonRewiring(cb)
    requires Closed(w.nodes) && n in w.nodes && Ranked(w.nodes, rank)
    requires k >= MAX_REPEATS * (rank(n) + 1) || k >= Budget(w, n, rank)
    ensures RunFor(cb, w, n, k).Stopped?
    decreases k
  {
    hide Step, RunFor, Budget;
    StepSpendsBudget(cb, w, n, rank);
    RunForStep(cb, w, n, k);
    var o := Step(cb, w, n);
    if o.Running? {
      EvaluationTerminates(cb, o.w, o.at, rank, k - 1);
    }
  }

  /* ---- implicit transitions ---- */

  predicate NameInList(pairs: seq<Pair>, v: Option<string>) {
    exists j :: 0 <= j < |pairs| && pairs[j].name == v
  }

  /** Branch i is passed over: its value differs from the node's and names no pair of the list. */
  predicate Missed(w: World, n: NodeId, i: nat)
    requires n in w.nodes && i < |w.nodes[n].tl|
  {
    var v := w.nodes[n].tl[i].val;
    v.Some? && w.nodes[n].val != v && !NameInList(w.pairs, v)
  }

  lemma {:induction false} MissedPairs(cb: Callbacks, w: World, n: NodeId, i: nat, j: nat)
    requires Sane(cb) && Closed(w.nodes) && n in w.nodes && i < |w.nodes[n].tl| && j <= |w.pairs|
    requires Missed(w, n, i)
    ensures ScanPairs(cb, w, n, i, j) == Undecided(w)
    decreases |w.pairs| - j
  {
    if j < |w.pairs| {
      MissedPairs(cb, w, n, i, j + 1);
    }
  }

  /** The branches before b are all passed over without a callback being run. */
  lemma {:induction false} SkipMissed(cb: Callbacks, w: World, n: NodeId, i: nat, b: nat)
    requires Sane(cb) && Closed(w.nodes) && n in w.nodes && i <= b <= |w.nodes[n].tl|
    requires forall k :: i <= k < b ==> Missed(w, n, k)
    ensures ScanBranches(cb, w, n, i) == ScanBranches(cb, w, n, b)
    decreases b - i
  {
    hide ScanBranches, Missed;
    if i < b {
      MissedBranch(cb, w, n, i);
      SkipMissed(cb, w, n, i + 1, b);
    }
  }

  lemma MissedBranch(cb: Callbacks, w: World, n: NodeId, i: nat)
    requires Sane(cb) && Closed(w.nodes) && n in w.nodes && i < |w.nodes[n].tl| && Missed(w, n, i)
    ensures ScanBranches(cb, w, n, i) == ScanBranches(cb, w, n, i + 1)
  {
    MissedPairs(cb, w, n, i, 0);
    hide ScanPairs;
  }

  /** The branch carries the first name of its target, which has no default. */
  ghost predicate NamesItsTarget(g: Graph, t: Transition) {
    && t.next.Some? && t.next.value in g
    && var target := g[t.next.value];
    && !HasDefault(target) && t.val == Some(if target.names == [] then "(null)" else target.names[0])
  }

  /** The branches of node n carry the names of their targets, which differ and have
      no defaults. */
  ghost predicate MenuBranches(g: Graph, n: NodeId)
    requires n in g && Closed(g)
  {
    var tl := g[n].tl;
    && (forall k :: 0 <= k < |tl| ==> NamesItsTarget(g, tl[k]))
    && (forall k, l :: 0 <= k < l < |tl| ==> tl[k].val != tl[l].val)
  }

  /** Node n is a menu with implicit transitions that has no value yet; a pair or a
      default of its own may be overridden. */
  ghost predicate ImplicitMenu(w: World, n: NodeId)
    requires n in w.nodes && Closed(w.nodes)
  {
    var node := w.nodes[n];
    && node.val.None? && node.flags.allowImplicit && !node.flags.noAutoTransition
    && (RetrieveVal(w, n).1 ==> node.flags.implicitOverride)
    && MenuBranches(w.nodes, n)
  }

  /** The target of branch k still has a pair to take. */
  predicate Supplied(w: World, n: NodeId, k: nat)
    requires n in w.nodes && k < |w.nodes[n].tl|
    requires w.nodes[n].tl[k].next.Some? && w.nodes[n].tl[k].next.value in w.nodes
  {
    var names := w.nodes[w.nodes[n].tl[k].next.value].names;
    ChoosePair(w.pairs, names, |names|).Some?
  }

  lemma UnsuppliedGetsNothing(w: World, n: NodeId, k: nat)
    requires n in w.nodes && Closed(w.nodes) && MenuBranches(w.nodes, n) && k < |w.nodes[n].tl|
    ensures var t := w.nodes[n].tl[k].next.value;
      if Supplied(w, n, k) then RetrieveVal(w, t).1 else RetrieveVal(w, t) == (w, false)
  {
  }

  /** One round of the scan over the targets. */
  lemma ScanTarget(w: World, n: NodeId, i: nat, got: bool)
    requires n in w.nodes && Closed(w.nodes) && MenuBranches(w.nodes, n) && i < |w.nodes[n].tl|
    ensures ImplicitScan(w, n, i, got) ==
      if Supplied(w, n, i) then
        (SetVal(RetrieveVal(w, w.nodes[n].tl[i].next.value).0, n, w.nodes[n].tl[i].val), Some(0))
      else ImplicitScan(w, n, i + 1, false)
  {
    UnsuppliedGetsNothing(w, n, i);
    hide RetrieveVal, Supplied;
  }

  lemma {:induction false} ImplicitScanFinds(w: World, n: NodeId, i: nat, b: nat, got: bool)
    requires n in w.nodes && Closed(w.nodes) && MenuBranches(w.nodes, n) && i <= b < |w.nodes[n].tl|
    requires forall k :: i <= k < b ==> !Supplied(w, n, k)
    requires Supplied(w, n, b)
    ensures var t := w.nodes[n].tl[b].next.value;
      ImplicitScan(w, n, i, got) == (SetVal(RetrieveVal(w, t).0, n, w.nodes[n].tl[b].val), Some(0))
    decreases b - i
  {
    hide RetrieveVal, Supplied, ImplicitScan;
    ScanTarget(w, n, i, got);
    if i < b {
      ImplicitScanFinds(w, n, i + 1, b, false);
    }
  }

  lemma {:induction false} ImplicitScanFindsNothing(w: World, n: NodeId, i: nat, got: bool)
    requires n in w.nodes && Closed(w.nodes) && MenuBranches(w.nodes, n) && i <= |w.nodes[n].tl|
    requires forall k :: i <= k < |w.nodes[n].tl| ==> !Supplied(w, n, k)
    ensures ImplicitScan(w, n, i, got) == (w, None)
    decreases |w.nodes[n].tl| - i
  {
    hide RetrieveVal, Supplied, ImplicitScan;
    if i < |w.nodes[n].tl| {
      ScanTarget(w, n, i, got);
      ImplicitScanFindsNothing(w, n, i + 1, false);
    } else {
      ScanEnd(w, n, got);
    }
  }

  lemma ScanEnd(w: World, n: NodeId, got: bool)
    requires n in w.nodes && Closed(w.nodes)
    ensures ImplicitScan(w, n, |w.nodes[n].tl|, got) == (w, None)
  {
  }

  lemma MenuFetched(w: World, w1: World, n: NodeId)
    requires n in w.nodes && Closed(w.nodes) && MenuBranches(w.nodes, n) && Fetched(w, w1)
    ensures Closed(w1.nodes) && MenuBranches(w1.nodes, n)
  {
  }

  /** Fetching the menu's own value and then its first supplied target's: the
      target gets its pair, and the target's name replaces a value of the menu's own. */
  lemma ImplicitMenuTakesFirstSupplied(w: World, n: NodeId, b: nat)
    requires n in w.nodes && Closed(w.nodes) && ImplicitMenu(w, n) && b < |w.nodes[n].tl|
    requires var w0 := RetrieveVal(w, n).0; Supplied(w0, n, b) && forall k :: 0 <= k < b ==> !Supplied(w0, n, k)
    ensures var w0, t := RetrieveVal(w, n).0, w.nodes[n].tl[b].next.value;
      && AllocAndGetVal(w, n) == (SetVal(RetrieveVal(w0, t).0, n, w.nodes[n].tl[b].val), 0)
      && RetrieveVal(w0, t).1
  {
    var (w0, got) := RetrieveVal(w, n);
    MenuFetched(w, w0, n);
    ImplicitScanFinds(w0, n, 0, b, got);
    UnsuppliedGetsNothing(w0, n, b);
    hide Supplied, ImplicitScan, RetrieveVal, Ask, MenuBranches;
  }

  /** A node that will not be asked for. */
  predicate Silent(w: World, node: ParamNode) {
    node.flags.noValue || ((w.verbosity == 0 || node.flags.parameterSet) && !node.flags.stdinRequired)
  }

  /** With no target supplied, a menu that may not ask keeps its own value. */
  lemma ImplicitMenuKeepsOwnValue(w: World, n: NodeId)
    requires n in w.nodes && Closed(w.nodes) && ImplicitMenu(w, n)
    requires var w0 := RetrieveVal(w, n).0; forall k :: 0 <= k < |w.nodes[n].tl| ==> !Supplied(w0, n, k)
    ensures var w0 := RetrieveVal(w, n).0;
      && AllocAndGetVal(w, n) == Ask(w0, n)
      && (Silent(w0, w0.nodes[n]) ==> AllocAndGetVal(w, n) == (w0, 0))
      && (ChoosePair(w.pairs, w.nodes[n].names, |w.nodes[n].names|).None? && HasDefault(w.nodes[n]) ==>
            w0.nodes[n].val == w.nodes[n].defaultVal)
  {
    var (w0, got) := RetrieveVal(w, n);
    MenuFetched(w, w0, n);
    ImplicitScanFindsNothing(w0, n, 0, got);
    hide Supplied, ImplicitScan, MenuBranches, ChoosePair;
  }

  /** Branch b of node n, taken because the node's value is the branch's. */
  function TakeBranch(cb: Callbacks, w: World, n: NodeId, b: nat): Move
    requires Sane(cb) && Closed(w.nodes) && n in w.nodes && b < |w.nodes[n].tl|
  {
    var (w1, rc) := Call(cb, Enter(w, n), n, b, 0);
    Follow(w1, n, b, rc, if rc == FAULT then rc else EINVAL)
  }

  /** do_transition follows the branch that carries the node's value, unless an
      earlier branch is hit first. */
  lemma ValueDecidesBranch(cb: Callbacks, w: World, n: NodeId, b: nat)
    requires Sane(cb) && n in w.nodes && Closed(w.nodes) && b < |w.nodes[n].tl|
    requires forall k :: 0 <= k < b ==> Missed(w, n, k)
    requires w.nodes[n].val.Some? && w.nodes[n].val == w.nodes[n].tl[b].val
    ensures DoTransition(cb, w, n) == TakeBranch(cb, w, n, b)
  {
    var w1 := Enter(w, n);
    assert forall k :: 0 <= k < b ==> Missed(w, n, k) ==> Missed(w1, n, k);
    SkipMissed(cb, w1, n, 0, b);
  }

  /** The rest of a transition, from branch i and pair j on. */
  function Resume(cb: Callbacks, w: World, n: NodeId, i: nat, j: nat): Move
    requires Sane(cb) && Closed(w.nodes) && n in w.nodes && i < |w.nodes[n].tl| && j <= |w.pairs|
  {
    match ScanPairs(cb, w, n, i, j)
    case Decided(m) => m
    case Undecided(w1) =>
      match ScanBranches(cb, w1, n, i + 1)
      case Decided(m) => m
      case Undecided(w2) =>
        match ScanDefaults(cb, w2, n, 0)
        case Decided(m) => m
        case Undecided(w3) => Move(w3, if |w3.nodes[n].tl| > 0 then MOUNT_ERROR else NULL_TOK, None)
  }

  /** Branch b, hit by pair h of its name: without a callback it is followed, and
      with one the callback's token decides. */
  function HitBranch(cb: Callbacks, w: World, n: NodeId, b: nat, h: nat): Move
    requires Sane(cb) && Closed(w.nodes) && n in w.nodes && b < |w.nodes[n].tl| && h < |w.pairs|
  {
    var (w1, tok) := Call(cb, w, n, b, NULL_TOK);
    if tok == MOUNT_ERROR || tok == FAULT then Move(w1, tok, None)
    else if tok == DEFAULT_TOK || tok == NULL_TOK then Follow(w1, n, b, 0, -EINVAL)
    else Resume(cb, w1, n, b, h + 1)
  }

  /** Pair h is the first whose name is v, processed or not. */
  predicate FirstNamed(pairs: seq<Pair>, v: Option<string>, h: nat) {
    h < |pairs| && pairs[h].name == v && forall j :: 0 <= j < h ==> pairs[j].name != v
  }

  lemma {:induction false} PairHit(cb: Callbacks, w: World, n: NodeId, i: nat, j: nat, h: nat)
    requires Sane(cb) && Closed(w.nodes) && n in w.nodes && i < |w.nodes[n].tl| && j <= h
    requires w.nodes[n].tl[i].val.Some? && FirstNamed(w.pairs, w.nodes[n].tl[i].val, h)
    ensures ScanPairs(cb, w, n, i, j) == ScanPairs(cb, w, n, i, h)
    decreases h - j
  {
    if j < h {
      PairHit(cb, w, n, i, j + 1, h);
    }
  }

  /** The first branch whose name is in the list, even as a pair already used up,
      is hit before a later branch that carries the node's own value. */
  lemma EarlierNameWins(cb: Callbacks, w: World, n: NodeId, b: nat, h: nat)
    requires Sane(cb) && n in w.nodes && Closed(w.nodes) && b < |w.nodes[n].tl|
    requires forall k :: 0 <= k < b ==> Missed(w, n, k)
    requires w.nodes[n].tl[b].val.Some? && w.nodes[n].val != w.nodes[n].tl[b].val
    requires FirstNamed(w.pairs, w.nodes[n].tl[b].val, h)
    ensures DoTransition(cb, w, n) == HitBranch(cb, Enter(w, n), n, b, h)
  {
    var w1 := Enter(w, n);
    assert forall k :: 0 <= k < b ==> Missed(w, n, k) ==> Missed(w1, n, k);
    SkipMissed(cb, w1, n, 0, b);
    PairHit(cb, w1, n, b, 0, h);
    hide ScanDefaults;
  }

  /** No branch before b is named in the list. */
  ghost predicate NoEarlierName(w: World, n: NodeId, b: nat)
    requires n in w.nodes && b <= |w.nodes[n].tl|
  {
    forall k :: 0 <= k < b ==> !NameInList(w.pairs, w.nodes[n].tl[k].val)
  }

  /** The first branch before b that is named in the list, and the pair. */
  lemma {:induction false} FirstEarlier(w: World, n: NodeId, b: nat) returns (k: nat, h: nat)
    requires n in w.nodes && b <= |w.nodes[n].tl| && !NoEarlierName(w, n, b)
    ensures k < b && NoEarlierName(w, n, k) && FirstNamed(w.pairs, w.nodes[n].tl[k].val, h)
  {
    if NoEarlierName(w, n, b - 1) {
      k := b - 1;
      var v := w.nodes[n].tl[k].val;
      var j: nat :| j < |w.pairs| && w.pairs[j].name == v;
      h := 0;
      while w.pairs[h].name != v
        invariant h <= j && forall i :: 0 <= i < h ==> w.pairs[i].name != v
        decreases j - h
      {
        h := h + 1;
      }
    } else {
      k, h := FirstEarlier(w, n, b - 1);
    }
  }

  /** A menu without callbacks up to branch b, whose value it has: branch b is
      followed if and only if no earlier branch's name is in the list; otherwise
      the first such branch is followed. */
  lemma MenuFollowsIff(cb: Callbacks, w: World, n: NodeId, b: nat)
    requires Sane(cb) && n in w.nodes && Closed(w.nodes) && MenuBranches(w.nodes, n) && b < |w.nodes[n].tl|
    requires w.nodes[n].val == w.nodes[n].tl[b].val
    requires forall k :: 0 <= k <= b ==> w.nodes[n].tl[k].func.None?
    ensures DoTransition(cb, w, n) == Move(Enter(w, n), 0, w.nodes[n].tl[b].next) <==> NoEarlierName(w, n, b)
    ensures !NoEarlierName(w, n, b) ==>
      exists k :: 0 <= k < b && NoEarlierName(w, n, k) && NameInList(w.pairs, w.nodes[n].tl[k].val)
                  && DoTransition(cb, w, n) == Move(Enter(w, n), 0, w.nodes[n].tl[k].next)
  {
    hide DoTransition;
    if NoEarlierName(w, n, b) {
      ValueDecidesBranch(cb, w, n, b);
    } else {
      var k, h := FirstEarlier(w, n, b);
      EarlierNameWins(cb, w, n, k, h);
      assert NameInList(w.pairs, w.nodes[n].tl[k].val);
    }
  }

  /** The whole step at an implicit menu without callbacks whose first supplied
      target is that of branch b: that branch is followed if and only if no
      earlier branch's name is in the list. */
  lemma ImplicitMenuFollowsIff(cb: Callbacks, w: World, n: NodeId, b: nat)
    requires Sane(cb) && n in w.nodes && Closed(w.nodes) && ImplicitMenu(w, n) && b < |w.nodes[n].tl|
    requires var w0 := RetrieveVal(w, n).0; Supplied(w0, n, b) && forall k :: 0 <= k < b ==> !Supplied(w0, n, k)
    requires forall k :: 0 <= k <= b ==> w.nodes[n].tl[k].func.None?
    ensures var o := Step(cb, w, n);
      o.Running? && (o.at == w.nodes[n].tl[b].next.value <==> NoEarlierName(w, n, b))
  {
    ImplicitMenuTakesFirstSupplied(w, n, b);
    var (w1, rc) := AllocAndGetVal(w, n);
    assert w1.nodes[n].val == w1.nodes[n].tl[b].val;
    MenuFetched(w, w1, n);
    NamesKept(w, n, b);
    MenuFollowsIff(cb, w1, n, b);
    hide RetrieveVal, AllocAndGetVal, DoTransition, Supplied;
  }

  /** The same with nothing supplied and nothing asked: the branch of the menu's
      own value, such as its default. */
  lemma OwnValueFollowsIff(cb: Callbacks, w: World, n: NodeId, b: nat)
    requires Sane(cb) && n in w.nodes && Closed(w.nodes) && ImplicitMenu(w, n) && b < |w.nodes[n].tl|
    requires var w0 := RetrieveVal(w, n).0;
      && (forall k :: 0 <= k < |w.nodes[n].tl| ==> !Supplied(w0, n, k))
      && Silent(w0, w0.nodes[n]) && w0.nodes[n].val == w.nodes[n].tl[b].val
    requires forall k :: 0 <= k <= b ==> w.nodes[n].tl[k].func.None?
    ensures var o := Step(cb, w, n);
      o.Running? && (o.at == w.nodes[n].tl[b].next.value <==> NoEarlierName(w, n, b))
  {
    ImplicitMenuKeepsOwnValue(w, n);
    var (w1, rc) := AllocAndGetVal(w, n);
    MenuFetched(w, w1, n);
    NamesKept(w, n, b);
    MenuFollowsIff(cb, w1, n, b);
    hide RetrieveVal, AllocAndGetVal, DoTransition, Supplied;
  }

  lemma NamesKept(w: World, n: NodeId, b: nat)
    requires n in w.nodes && Closed(w.nodes) && b <= |w.nodes[n].tl|
    ensures NoEarlierName(AllocAndGetVal(w, n).0, n, b) <==> NoEarlierName(w, n, b)
  {
    AllocKeepsLedger(w, w, n);
    hide AllocAndGetVal;
    var w1 := AllocAndGetVal(w, n).0;
    forall k | 0 <= k < b
      ensures NameInList(w1.pairs, w.nodes[n].tl[k].val) <==> NameInList(w.pairs, w.nodes[n].tl[k].val)
    {
      assert forall j :: 0 <= j < |w.pairs| ==> w1.pairs[j].name == w.pairs[j].name;
    }
  }
}
