/** Nodes with one alias and the single branch "default", the shape of every
    node outside the menus: where their value comes from and where they lead. */
module PlainNodes {
  import opened Common
  import opened DecisionGraph
  import opened DecisionGraphRuns

  /** No pair is called "default", the value every branch of a chain carries. */
  ghost predicate NoDefaultPair(pairs: seq<Pair>) {
    forall j :: 0 <= j < |pairs| ==> pairs[j].name != Some("default")
  }

  /** A node whose only branch is "default": the branch is taken, either because
      the node's value is that very word or as the default. */
  lemma SoleDefaultBranch(cb: Callbacks, w: World, n: NodeId)
    requires Sane(cb) && Closed(w.nodes) && n in w.nodes && NoDefaultPair(w.pairs)
    requires |w.nodes[n].tl| == 1 && w.nodes[n].tl[0].val == Some("default")
    ensures DoTransition(cb, w, n) ==
      if w.nodes[n].val == Some("default") then TakeBranch(cb, w, n, 0)
      else TakeDefault(cb, Enter(w, n), n, 0)
  {
    var w0 := Enter(w, n);
    if w.nodes[n].val == Some("default") {
      ValueDecidesBranch(cb, w, n, 0);
    } else {
      assert Missed(w0, n, 0);
      SkipMissed(cb, w0, n, 0, 1);
      hide TakeDefault;
      assert ScanBranches(cb, w0, n, 1) == Undecided(w0);
    }
  }

  /** A sole branch that leads nowhere ends the evaluation: as a success if the value
      is the branch's own word, else as an error. */
  lemma DeadEnd(cb: Callbacks, w: World, n: NodeId, pretty: Option<string>)
    requires Sane(cb) && Closed(w.nodes) && n in w.nodes && NoDefaultPair(w.pairs)
    requires w.nodes[n].tl == [Transition(Some("default"), pretty, None, None)]
    ensures DoTransition(cb, w, n).rc == if w.nodes[n].val == Some("default") then 22 else -22
    ensures Succeeds(DoTransition(cb, w, n).rc) <==> w.nodes[n].val == Some("default")
  {
    SoleDefaultBranch(cb, w, n);
    hide DoTransition;
  }

  /** A wrong value, code 4, is asked for again if and only if someone can be asked
      and this was at most the fourth time in a row at the node. */
  lemma WrongValueIff(cb: Callbacks, w: World, n: NodeId, f: Callback)
    requires Sane(cb) && Closed(w.nodes) && n in w.nodes && NoDefaultPair(w.pairs)
    requires |w.nodes[n].tl| == 1 && w.nodes[n].tl[0].val == Some("default") && w.nodes[n].tl[0].func == Some(f)
    requires w.nodes[n].val != Some("default") && cb(f, Enter(w, n), n).1 == 4
    ensures var w1 := cb(f, Enter(w, n), n).0;
      var again := if w.last == Some(n) then w.repeated + 1 else 1;
      var m := DoTransition(cb, w, n);
      && n in w1.nodes
      && (m.rc == 0 <==> again < 5 && (w1.verbosity != 0 || w1.nodes[n].flags.stdinRequired))
      && (m.rc == 0 ==> m.next == Some(n) && m.w == w1.(repeated := again))
      && (m.rc != 0 ==> m.rc == -22)
  {
    SoleDefaultBranch(cb, w, n);
    hide DoTransition;
  }

  /** The same with pairs called "default" around: the branch is first tried on
      each of them. */
  lemma SoleDefaultScan(cb: Callbacks, w: World, n: NodeId)
    requires Sane(cb) && Closed(w.nodes) && n in w.nodes
    requires |w.nodes[n].tl| == 1 && w.nodes[n].tl[0].val == Some("default") && w.nodes[n].val != Some("default")
    ensures var s := ScanPairs(cb, Enter(w, n), n, 0, 0);
      && (s.Decided? ==> DoTransition(cb, w, n) == s.move)
      && (s.Undecided? && s.w.nodes == w.nodes ==> DoTransition(cb, w, n) == TakeDefault(cb, s.w, n, 0))
  {
    hide ScanPairs, TakeDefault;
    var w0 := Enter(w, n);
    var s := ScanPairs(cb, w0, n, 0, 0);
    if s.Undecided? && s.w.nodes == w.nodes {
      assert ScanBranches(cb, w0, n, 0) == ScanBranches(cb, s.w, n, 1) == Undecided(s.w);
    }
  }

  /** A node that is called `name`, has no value yet, and asks at most a plain question. */
  ghost predicate IsPlain(node: ParamNode, name: string) {
    && node.names == [name] && node.val.None?
    && !node.flags.allowImplicit && !node.flags.displayVals && !node.flags.verifyValue
    && !node.flags.stdinRequired && !node.flags.nonemptyRequired
  }

  /** The value of a plain node: the first unused pair of its name, else its
      default, else nothing, else one line from the user. */
  function PlainValue(w: World, n: NodeId, name: string): (World, int)
    requires n in w.nodes
  {
    var node := w.nodes[n];
    FindPairInRange(w.pairs, name, 0);
    match FindPair(w.pairs, name, 0)
    case Some(j) => (Deliver(w, n, j), 0)
    case None =>
      if HasDefault(node) then (SetVal(w, n, node.defaultVal), 0)
      else if node.flags.noValue || w.verbosity == 0 || node.flags.parameterSet then (w, 0)
      else if !w.canPrompt then (w, MOUNT_ERROR)
      else if w.answers == [] then (SetVal(w, n, None), -EIO)
      else
        var a := w.answers[0];
        (SetVal(w.(answers := w.answers[1..]), n, if a == "" then node.suggestedVal else Some(a)), 0)
  }

  lemma SoleName(w: World, n: NodeId, name: string)
    requires n in w.nodes && w.nodes[n].names == [name]
    ensures ChoosePair(w.pairs, w.nodes[n].names, |w.nodes[n].names|) == FindPair(w.pairs, name, 0)
  {
    assert ChoosePair(w.pairs, w.nodes[n].names, 0) == None;
  }

  /** The plain prompt, where neither verification nor a value is required. */
  lemma PlainAsk(w: World, n: NodeId)
    requires n in w.nodes && !w.nodes[n].flags.verifyValue && !w.nodes[n].flags.nonemptyRequired
    ensures AskPlain(w, n, 0) ==
      if w.answers == [] then (SetVal(w, n, None), -EIO)
      else
        var a := w.answers[0];
        (SetVal(w.(answers := w.answers[1..]), n, if a == "" then w.nodes[n].suggestedVal else Some(a)), 0)
  {
    assert w.answers[0..] == w.answers;
    assert AskPlain(w, n, 0) == (AskOnce(w, n).0, AskOnce(w, n).1.value);
  }

  lemma PlainAlloc(w: World, n: NodeId, name: string)
    requires Closed(w.nodes) && n in w.nodes && IsPlain(w.nodes[n], name)
    ensures AllocAndGetVal(w, n) == PlainValue(w, n, name)
  {
    hide AskPlain, ChoosePair, FindPair, Fetched, Closed;
    SoleName(w, n, name);
    PlainAsk(w, n);
  }

  /* ---- pairs called "default" ---- */

  /** The pairs called "default" from position j on, used up or not. */
  function Defaults(pairs: seq<Pair>, j: nat): nat
    requires j <= |pairs|
    decreases |pairs| - j
  {
    if j == |pairs| then 0
    else (if pairs[j].name == Some("default") then 1 else 0) + Defaults(pairs, j + 1)
  }

  function Copies(x: string, d: nat): seq<string> {
    if d == 0 then [] else Copies(x, d - 1) + [x]
  }

  lemma {:induction false} CopiesFront(x: string, d: nat)
    ensures Copies(x, d + 1) == [x] + Copies(x, d)
  {
    if d > 0 {
      CopiesFront(x, d - 1);
      assert [x] + Copies(x, d - 1) + [x] == [x] + Copies(x, d);
    }
  }

  lemma {:induction false} SameDefaults(p: seq<Pair>, q: seq<Pair>, j: nat)
    requires |p| == |q| && j <= |p| && forall k :: 0 <= k < |p| ==> p[k].name == q[k].name
    ensures Defaults(p, j) == Defaults(q, j)
    decreases |p| - j
  {
    if j < |p| { SameDefaults(p, q, j + 1); }
  }

  lemma StillDefaults(w: World, n: NodeId)
    requires Closed(w.nodes) && n in w.nodes
    ensures Defaults(AllocAndGetVal(w, n).0.pairs, 0) == Defaults(w.pairs, 0)
  {
    AllocKeepsLedger(w, w, n);
    hide AllocAndGetVal;
    SameDefaults(AllocAndGetVal(w, n).0.pairs, w.pairs, 0);
  }

  /* ---- fetching touches one node ---- */

  /** Only node n has changed. */
  ghost predicate OnlyAt(w: World, w': World, n: NodeId) {
    n in w'.nodes && w'.nodes == w.nodes[n := w'.nodes[n]]
  }

  lemma {:induction false} AskMenuOnlyAt(w: World, n: NodeId)
    requires n in w.nodes
    ensures OnlyAt(w, AskMenu(w, n).0, n)
    decreases |w.answers|
  {
    hide MenuReply, Fetched;
    if w.answers != [] {
      var (v, check) := MenuReply(w.nodes[n], w.answers[0]);
      var w1 := SetVal(w.(answers := w.answers[1..]), n, Some(v));
      if check.Invalid? { AskMenuOnlyAt(w1, n); }
    }
  }

  lemma AskOnceOnlyAt(w: World, n: NodeId)
    requires n in w.nodes
    ensures OnlyAt(w, AskOnce(w, n).0, n)
  {
  }

  lemma {:induction false} AskPlainOnlyAt(w: World, n: NodeId, tries: nat)
    requires n in w.nodes
    ensures OnlyAt(w, AskPlain(w, n, tries).0, n)
    decreases MAX_TRIES - tries
  {
    hide AskOnce, Fetched;
    if tries < MAX_TRIES {
      AskOnceOnlyAt(w, n);
      var (w1, rc) := AskOnce(w, n);
      if rc.None? { AskPlainOnlyAt(w1, n, tries + 1); }
    }
  }

  lemma AskOnlyAt(w: World, n: NodeId)
    requires n in w.nodes
    ensures OnlyAt(w, Ask(w, n).0, n)
  {
    hide AskMenu, AskPlain, Fetched;
    AskMenuOnlyAt(w, n);
    AskPlainOnlyAt(w, n, 0);
  }

  /** A node without implicit transitions gets its value without touching another. */
  lemma AllocOnlyAt(w: World, n: NodeId)
    requires n in w.nodes && Closed(w.nodes) && !w.nodes[n].flags.allowImplicit
    ensures OnlyAt(w, AllocAndGetVal(w, n).0, n)
  {
    var w1 := RetrieveVal(w, n).0;
    assert OnlyAt(w, w1, n);
    hide RetrieveVal, Ask, ImplicitScan, Fetched;
    AskOnlyAt(w1, n);
  }
}
