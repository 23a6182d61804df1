/** The engine as the source runs it: loops that edit nodes, pairs and the input
    in place. Every method is proved equal to its function in DecisionGraph. */
module DecisionEngine {
  import opened Common
  import opened DecisionGraph
  import DecisionGraphRuns

  /** get_verbosity: the first "verbosity" pair, one by default; None when that
      pair has no value, which is a NULL argument to atoi. */
  function Verbosity(pairs: seq<Pair>, j: nat): Option<int>
    requires j <= |pairs|
    decreases |pairs| - j
  {
    if j == |pairs| then Some(1)
    else if pairs[j].name == Some("verbosity") then
      if pairs[j].value.None? then None else Some(Atoi(pairs[j].value.value))
    else Verbosity(pairs, j + 1)
  }

  /** Pair h is the first from j on that is called "verbosity". */
  ghost predicate SetsVerbosity(pairs: seq<Pair>, j: nat, h: nat) {
    && j <= h < |pairs| && pairs[h].name == Some("verbosity")
    && forall k :: j <= k < h ==> pairs[k].name != Some("verbosity")
  }

  /** One without a pair called "verbosity"; otherwise the number at the front of the
      first such pair's value, whether the pair is used up or not. */
  lemma {:induction false} VerbosityIs(pairs: seq<Pair>, j: nat, h: nat)
    requires j <= |pairs|
    ensures (forall k :: j <= k < |pairs| ==> pairs[k].name != Some("verbosity")) ==> Verbosity(pairs, j) == Some(1)
    ensures SetsVerbosity(pairs, j, h) ==>
      Verbosity(pairs, j) == if pairs[h].value.Some? then Some(Atoi(pairs[h].value.value)) else None
    decreases |pairs| - j
  {
    hide Atoi;
    if j < |pairs| && pairs[j].name != Some("verbosity") {
      VerbosityIs(pairs, j + 1, h);
    }
  }

  /** The world as the evaluation loop is entered. */
  function Started(w: World): World {
    w.(verbosity := Verbosity(w.pairs, 0).GetOr(1), foo := None)
  }

  class Engine {
    const cb: Callbacks
    var w: World

    constructor (cb: Callbacks, w: World)
      ensures this.cb == cb && this.w == w
    {
      this.cb := cb;
      this.w := w;
    }

    method RetrieveVal(n: NodeId) returns (got: bool)
      requires n in w.nodes
      modifies this
      ensures (w, got) == DecisionGraph.RetrieveVal(old(w), n)
    {
      var node := w.nodes[n];
      var i := |node.names|;
      while i > 0
        invariant 0 <= i <= |node.names|
        invariant w == old(w)
        invariant ChoosePair(w.pairs, node.names, |node.names|) == ChoosePair(w.pairs, node.names, i)
      {
        i := i - 1;
        var j := 0;
        while j < |w.pairs|
          invariant 0 <= j <= |w.pairs|
          invariant w == old(w)
          invariant FindPair(w.pairs, node.names[i], 0) == FindPair(w.pairs, node.names[i], j)
        {
          if w.pairs[j].name == Some(node.names[i]) && !w.pairs[j].processed {
            var p := w.pairs[j];
            w := w.(pairs := w.pairs[j := p.(processed := true)], delivered := w.delivered + [Delivery(j, n)]);
            if HasValue(p) {
              w := w.(nodes := w.nodes[n := node.(val := p.value)]);
            } else {
              w := w.(nodes := w.nodes[n := node.(flags := node.flags.(parameterSet := true))]);
            }
            return true;
          }
          j := j + 1;
        }
      }
      if HasDefault(node) {
        w := SetVal(w, n, node.defaultVal);
        return true;
      }
      return false;
    }

    /** The loop over successors under ECRYPTFS_ALLOW_IMPLICIT_TRANSITION. */
    method ImplicitScan(n: NodeId, retrieved: bool) returns (done: Option<int>)
      requires n in w.nodes && Closed(w.nodes)
      modifies this
      ensures (w, done) == DecisionGraph.ImplicitScan(old(w), n, 0, retrieved)
      ensures Closed(w.nodes)
    {
      hide DecisionGraph.RetrieveVal, DecisionGraph.ImplicitScan;
      var got := retrieved;
      var i := 0;
      while i < |w.nodes[n].tl|
        invariant Closed(w.nodes) && n in w.nodes && 0 <= i <= |w.nodes[n].tl| == |old(w).nodes[n].tl|
        invariant DecisionGraph.ImplicitScan(old(w), n, 0, retrieved) == DecisionGraph.ImplicitScan(w, n, i, got)
        decreases |old(w).nodes[n].tl| - i
      {
        ImplicitScanStep(w, n, i, got);
        var next := w.nodes[n].tl[i].next;
        if next.Some? {
          got := RetrieveVal(next.value);
        }
        if got {
          if next.None? {
            return Some(FAULT);
          }
          w := SetVal(w, n, Some(w.nodes[next.value].PrimaryName()));
          return Some(0);
        }
        i := i + 1;
      }
      ImplicitScanStep(w, n, i, got);
      return None;
    }

    /** get_string: one line from the user becomes the node's value. */
    method GetString(n: NodeId) returns (rc: int)
      requires n in w.nodes
      modifies this
      ensures if old(w).answers == [] then rc == -EIO && w == Typed(old(w), n, 0, None)
              else rc == 0 && w == Typed(old(w), n, 1, Some(old(w).answers[0]))
    {
      if w.answers == [] {
        w := SetVal(w, n, None);
        assert old(w).answers[0..] == old(w).answers;
        return -EIO;
      }
      var a := w.answers[0];
      w := w.(answers := w.answers[1..]);
      w := SetVal(w, n, Some(a));
      rc := 0;
    }

    /** What a menu makes of the line in the node's value: a number picks a branch,
        an empty line is the suggested value, and the rest is compared with every
        branch in turn. */
    method CheckReply(n: NodeId) returns (check: MenuCheck)
      requires n in w.nodes && w.nodes[n].val.Some?
      modifies this
      ensures var (v, c) := MenuReply(old(w).nodes[n], old(w).nodes[n].val.value);
        check == c && w == SetVal(old(w), n, Some(v))
    {
      var node := w.nodes[n];
      var a := node.val.value;
      assert SetVal(w, n, Some(a)) == w by { assert w.nodes[n := node] == w.nodes; }
      var k := Atoi(a);
      if 0 < k <= |node.tl| {
        w := SetVal(w, n, Some(Printed(node.tl[k - 1].val)));
        return Valid;
      }
      if a == "" {
        if node.suggestedVal.None? {
          return Invalid;
        }
        w := SetVal(w, n, node.suggestedVal);
      }
      var v := w.nodes[n].val.value;
      var i := 0;
      while i < |node.tl|
        invariant 0 <= i <= |node.tl| && CheckMenu(node.tl, v, 0) == CheckMenu(node.tl, v, i)
      {
        if node.tl[i].val.None? {
          return Crash;
        }
        if node.tl[i].val.value == v {
          return Valid;
        }
        i := i + 1;
      }
      return Invalid;
    }

    /** The `get_value` loop: a menu. */
    method AskMenu(n: NodeId) returns (rc: int)
      requires n in w.nodes
      modifies this
      ensures (w, rc) == DecisionGraph.AskMenu(old(w), n)
    {
      hide MenuReply, DecisionGraph.AskMenu;
      while true
        invariant n in w.nodes
        invariant DecisionGraph.AskMenu(old(w), n) == DecisionGraph.AskMenu(w, n)
        decreases |w.answers|
      {
        ghost var was := w;
        AskMenuStep(was, n);
        rc := GetString(n);
        if rc != 0 {
          return;
        }
        MenuReplyIgnoresVal(was.nodes[n], Some(was.answers[0]));
        var check := CheckReply(n);
        SetValTwice(was.(answers := was.answers[1..]), n, Some(was.answers[0]), w.nodes[n].val);
        if check.Crash? {
          return FAULT;
        }
        if check.Valid? {
          return 0;
        }
      }
    }

    /** One round of `obtain_value`; None to ask again. */
    method AskOnce(n: NodeId) returns (rc: Option<int>)
      requires n in w.nodes
      modifies this
      ensures (w, rc) == DecisionGraph.AskOnce(old(w), n)
    {
      var node := w.nodes[n];
      ghost var was := w;
      var got := GetString(n);
      if got != 0 {
        return Some(got);
      }
      var a := w.nodes[n].val.value;
      if a == "" && node.flags.nonemptyRequired {
        return None;
      }
      if node.flags.verifyValue {
        if w.answers == [] {
          return Some(-EIO);
        }
        var verify := w.answers[0];
        w := w.(answers := w.answers[1..]);
        assert was.answers[1..][1..] == was.answers[2..];
        if verify != a {
          w := SetVal(w, n, None);
          SetValTwice(was.(answers := was.answers[2..]), n, Some(a), None);
          return None;
        }
      }
      if a == "" {
        SetValTwice(was.(answers := w.answers), n, Some(a), node.suggestedVal);
        w := SetVal(w, n, node.suggestedVal);
      }
      return Some(0);
    }

    /** The `obtain_value` loop: a free-form answer, at most three times. */
    method AskPlain(n: NodeId) returns (rc: int)
      requires n in w.nodes
      modifies this
      ensures (w, rc) == DecisionGraph.AskPlain(old(w), n, 0)
    {
      hide DecisionGraph.AskOnce, DecisionGraph.AskPlain;
      var tries := 0;
      while tries < MAX_TRIES
        invariant n in w.nodes && 0 <= tries <= MAX_TRIES
        invariant DecisionGraph.AskPlain(old(w), n, 0) == DecisionGraph.AskPlain(w, n, tries)
      {
        AskPlainStep(w, n, tries);
        var once := AskOnce(n);
        if once.Some? {
          return once.value;
        }
        tries := tries + 1;
      }
      AskPlainStep(w, n, tries);
      return EINVAL;
    }

    method Ask(n: NodeId) returns (rc: int)
      requires n in w.nodes
      modifies this
      ensures (w, rc) == DecisionGraph.Ask(old(w), n)
    {
      var node := w.nodes[n];
      if node.flags.noValue || (w.verbosity == 0 && !node.flags.stdinRequired)
         || (node.flags.parameterSet && !node.flags.stdinRequired) {
        return 0;
      }
      if !w.canPrompt {
        return MOUNT_ERROR;
      }
      if !node.flags.displayVals {
        rc := AskPlain(n);
      } else if |node.tl| == 1 && !node.flags.forceDisplay {
        w := SetVal(w, n, Some(Printed(node.tl[0].val)));
        rc := 0;
      } else {
        rc := AskMenu(n);
      }
    }

    method AllocAndGetVal(n: NodeId) returns (rc: int)
      requires n in w.nodes && Closed(w.nodes)
      modifies this
      ensures (w, rc) == DecisionGraph.AllocAndGetVal(old(w), n)
    {
      hide DecisionGraph.RetrieveVal, DecisionGraph.ImplicitScan, DecisionGraph.Ask;
      var node := w.nodes[n];
      if node.val.Some? {
        return 0;
      }
      var got := RetrieveVal(n);
      if got && !(node.flags.allowImplicit && node.flags.implicitOverride) {
        return 0;
      }
      if node.flags.allowImplicit && !node.flags.noAutoTransition {
        var done := ImplicitScan(n, got);
        if done.Some? {
          return done.value;
        }
      }
      rc := Ask(n);
    }

    /** The first loop of do_transition; None when no branch decides. */
    method ScanBranches(n: NodeId) returns (decided: Option<Move>)
      requires Sane(cb) && Closed(w.nodes) && n in w.nodes
      modifies this
      ensures DecisionGraph.ScanBranches(cb, old(w), n, 0)
           == if decided.Some? then Decided(decided.value) else Undecided(w)
      ensures decided.Some? ==> w == decided.value.w
      ensures decided.None? ==> Frame(old(w), n, w)
    {
      var i := 0;
      while i < |w.nodes[n].tl|
        invariant Frame(old(w), n, w) && n in w.nodes && 0 <= i <= |w.nodes[n].tl|
        invariant DecisionGraph.ScanBranches(cb, old(w), n, 0) == DecisionGraph.ScanBranches(cb, w, n, i)
        decreases |old(w).nodes[n].tl| - i
      {
        if w.nodes[n].tl[i].val.Some? && w.nodes[n].val == w.nodes[n].tl[i].val {
          var (w1, rc) := Call(cb, w, n, i, 0);
          w := w1;
          return Some(Follow(w, n, i, rc, if rc == FAULT then rc else EINVAL));
        }
        var hit := ScanPairs(n, i);
        if hit.Some? {
          return hit;
        }
        i := i + 1;
      }
      return None;
    }

    /** One branch against the whole pair list. */
    method ScanPairs(n: NodeId, i: nat) returns (decided: Option<Move>)
      requires Sane(cb) && Closed(w.nodes) && n in w.nodes && i < |w.nodes[n].tl|
      modifies this
      ensures DecisionGraph.ScanPairs(cb, old(w), n, i, 0)
           == if decided.Some? then Decided(decided.value) else Undecided(w)
      ensures decided.Some? ==> w == decided.value.w
      ensures decided.None? ==> Frame(old(w), n, w)
    {
      hide DecisionGraph.ScanPairs;
      var j := 0;
      while j < |w.pairs|
        invariant Frame(old(w), n, w) && n in w.nodes && i < |w.nodes[n].tl| && 0 <= j <= |w.pairs|
        invariant DecisionGraph.ScanPairs(cb, old(w), n, i, 0) == DecisionGraph.ScanPairs(cb, w, n, i, j)
        decreases |old(w).pairs| - j
      {
        ScanPairsStep(cb, w, n, i, j);
        var tn := w.nodes[n].tl[i];
        if tn.val.None? || w.pairs[j].name == tn.val {
          var (w1, tok) := Call(cb, w, n, i, NULL_TOK);
          w := w1;
          if tok == MOUNT_ERROR || tok == FAULT {
            return Some(Move(w, tok, None));
          }
          if tok == DEFAULT_TOK || tok == NULL_TOK {
            return Some(Follow(w, n, i, 0, -EINVAL));
          }
        }
        j := j + 1;
      }
      ScanPairsStep(cb, w, n, i, j);
      return None;
    }

    method DoTransition(n: NodeId) returns (rc: int, next: Option<NodeId>)
      requires Sane(cb) && Closed(w.nodes) && n in w.nodes
      modifies this
      ensures Move(w, rc, next) == DecisionGraph.DoTransition(cb, old(w), n)
    {
      hide DecisionGraph.ScanBranches, DecisionGraph.TakeDefault;
      w := Enter(w, n);
      var decided := ScanBranches(n);
      if decided.Some? {
        return decided.value.rc, decided.value.next;
      }
      var i := 0;
      ghost var w1 := w;
      while i < |w.nodes[n].tl|
        invariant w == w1 && 0 <= i <= |w.nodes[n].tl|
        invariant ScanDefaults(cb, w, n, 0) == ScanDefaults(cb, w, n, i)
      {
        if w.nodes[n].tl[i].val == Some("default") {
          rc, next := TakeDefault(n, i);
          return;
        }
        i := i + 1;
      }
      return if |w.nodes[n].tl| > 0 then MOUNT_ERROR else NULL_TOK, None;
    }

    /** The default branch i: a wrong value is asked for again, up to five times. */
    method TakeDefault(n: NodeId, i: nat) returns (rc: int, next: Option<NodeId>)
      requires Sane(cb) && Closed(w.nodes) && n in w.nodes && i < |w.nodes[n].tl|
      modifies this
      ensures Move(w, rc, next) == DecisionGraph.TakeDefault(cb, old(w), n, i)
    {
      var tok := NULL_TOK;
      var f := w.nodes[n].tl[i].func;
      if f.Some? {
        var r := cb(f.value, w, n);
        w, tok := r.0, r.1;
      }
      next := None;
      if tok == WRONG_VALUE {
        if w.verbosity != 0 || w.nodes[n].flags.stdinRequired {
          w := w.(repeated := w.repeated + 1);
          if w.repeated >= MAX_REPEATS {
            return -EINVAL, None;
          }
          return 0, Some(n);
        }
        return -EINVAL, None;
      }
      if tok == MOUNT_ERROR || tok < 0 {
        return tok, None;
      }
      next := w.nodes[n].tl[i].next;
      rc := if next.Some? then 0 else -EINVAL;
    }

    /** One pass of the evaluation loop. */
    method Iterate(n: NodeId) returns (rc: int, next: Option<NodeId>)
      requires Sane(cb) && Closed(w.nodes) && n in w.nodes
      modifies this
      ensures rc == 0 ==> next.Some?
      ensures Step(cb, old(w), n) == if rc == 0 then Running(w, next.value) else Stopped(w, rc)
    {
      hide DecisionGraph.AllocAndGetVal, DecisionGraph.DoTransition;
      next := None;
      rc := AllocAndGetVal(n);
      if rc == 0 {
        rc, next := DoTransition(n);
      }
    }

    method GetVerbosity() returns (v: Option<int>)
      ensures v == Verbosity(w.pairs, 0)
    {
      var j := 0;
      while j < |w.pairs|
        invariant 0 <= j <= |w.pairs| && Verbosity(w.pairs, 0) == Verbosity(w.pairs, j)
      {
        if w.pairs[j].name == Some("verbosity") {
          return if w.pairs[j].value.None? then None else Some(Atoi(w.pairs[j].value.value));
        }
        j := j + 1;
      }
      return Some(1);
    }

    /** eval_param_tree wherever evaluation comes to an end, rewiring or not:
        the loop returns with what the abstract run of `limit` iterations leaves. */
    method EvalParamTree(start: NodeId, ghost limit: nat) returns (rc: int)
      requires Sane(cb) && Closed(w.nodes) && start in w.nodes
      requires Verbosity(w.pairs, 0).Some? ==> RunFor(cb, Started(w), start, limit).Stopped?
      modifies this
      ensures match Verbosity(old(w).pairs, 0)
        case None => rc == FAULT && w == old(w)
        case Some(_) => RunFor(cb, Started(old(w)), start, limit) == Stopped(w, rc)
    {
      hide Step, RunFor, Verbosity;
      var verbosity := GetVerbosity();
      if verbosity.None? {
        return FAULT;
      }
      w := w.(verbosity := verbosity.value, foo := None);
      ghost var w0, left := w, limit;
      var node := start;
      while true
        invariant Closed(w.nodes) && node in w.nodes
        invariant RunFor(cb, w0, start, limit) == RunFor(cb, w, node, left)
        decreases left
      {
        DecisionGraphRuns.RunForStep(cb, w, node, left);
        var next;
        rc, next := Iterate(node);
        if rc != 0 {
          return;
        }
        node := next.value;
        left := left - 1;
      }
    }

    /** It does on every acyclic graph whose callbacks rewire nothing. */
    method EvalAcyclicTree(start: NodeId, ghost rank: NodeId -> nat) returns (rc: int)
      requires Sane(cb) && NonRewiring(cb)
      requires Closed(w.nodes) && start in w.nodes && Ranked(w.nodes, rank)
      modifies this
      ensures match Verbosity(old(w).pairs, 0)
        case None => rc == FAULT && w == old(w)
        case Some(_) =>
          RunFor(cb, Started(old(w)), start, MAX_REPEATS * (rank(start) + 1)) == Stopped(w, rc)
    {
      hide RunFor, Verbosity, DecisionGraphRuns.Budget;
      ghost var limit := MAX_REPEATS * (rank(start) + 1);
      DecisionGraphRuns.EvaluationTerminates(cb, Started(w), start, rank, limit);
      rc := EvalParamTree(start, limit);
    }

    /** ecryptfs_eval_decision_graph: clears the stack and evaluates. */
    method EvalDecisionGraph(start: NodeId, ghost limit: nat) returns (rc: int)
      requires Sane(cb) && Closed(w.nodes) && start in w.nodes
      requires Verbosity(w.pairs, 0).Some? ==> RunFor(cb, Started(w.(stack := [])), start, limit).Stopped?
      modifies this
      ensures match Verbosity(old(w).pairs, 0)
        case None => rc == FAULT
        case Some(_) =>
          var e := RunFor(cb, Started(old(w).(stack := [])), start, limit);
          && w == e.w && rc == (if Succeeds(e.rc) then 0 else e.rc)
          && (Succeeds(e.rc) <==> e.rc > 0 && e.rc != 3)
    {
      hide RunFor, Verbosity;
      w := w.(stack := []);
      rc := EvalParamTree(start, limit);
      if rc > 0 && rc != MOUNT_ERROR {
        rc := 0;
      }
    }
  }

  lemma ScanPairsStep(cb: Callbacks, w: World, n: NodeId, i: nat, j: nat)
    requires Sane(cb) && Closed(w.nodes) && n in w.nodes && i < |w.nodes[n].tl| && j <= |w.pairs|
    ensures ScanPairs(cb, w, n, i, j) ==
      if j == |w.pairs| then Undecided(w)
      else
        var tn := w.nodes[n].tl[i];
        if tn.val.Some? && w.pairs[j].name != tn.val then ScanPairs(cb, w, n, i, j + 1)
        else
          var (w1, tok) := Call(cb, w, n, i, NULL_TOK);
          if tok == MOUNT_ERROR || tok == FAULT then Decided(Move(w1, tok, None))
          else if tok == DEFAULT_TOK || tok == NULL_TOK then Decided(Follow(w1, n, i, 0, -EINVAL))
          else ScanPairs(cb, w1, n, i, j + 1)
  {
  }

  lemma SetValTwice(w: World, n: NodeId, v: Option<string>, v': Option<string>)
    requires n in w.nodes
    ensures SetVal(SetVal(w, n, v), n, v') == SetVal(w, n, v')
  {
  }

  lemma MenuReplyIgnoresVal(node: ParamNode, v: Option<string>)
    ensures forall a :: MenuReply(node.(val := v), a) == MenuReply(node, a)
  {
  }

  lemma ImplicitScanStep(w: World, n: NodeId, i: nat, got: bool)
    requires n in w.nodes && Closed(w.nodes) && i <= |w.nodes[n].tl|
    ensures ImplicitScan(w, n, i, got) ==
      if i == |w.nodes[n].tl| then (w, None)
      else
        var next := w.nodes[n].tl[i].next;
        var (w1, got1) := if next.Some? then RetrieveVal(w, next.value) else (w, got);
        if !got1 then ImplicitScan(w1, n, i + 1, false)
        else if next.None? then (w, Some(FAULT))
        else (SetVal(w1, n, Some(w1.nodes[next.value].PrimaryName())), Some(0))
  {
    hide RetrieveVal;
  }
}
