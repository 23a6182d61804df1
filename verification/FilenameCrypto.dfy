/** The pair of nodes that decide on filename encryption and rewire each other
    while the graph is being evaluated (src/libecryptfs/module_mgr.c). */
module FilenameCrypto {
  import opened Common
  import opened DecisionGraph
  import opened DecisionGraphRuns
  import opened PlainNodes

  /* The static nodes: filename_crypto_fnek_sig_param_node,
     enable_filename_crypto_param_node and end_param_node. */
  const FNEK: NodeId := 0
  const ENABLE: NodeId := 1
  const END: NodeId := 2

  const FNEK_NAME := "ecryptfs_fnek_sig"
  const ENABLE_NAME := "ecryptfs_enable_filename_crypto"
  const SIG_PREFIX := "ecryptfs_sig="
  const FNEK_PREFIX := "ecryptfs_fnek_sig="

  /* ---- the callbacks ---- */

  function SetNext(g: Graph, n: NodeId, next: Option<NodeId>): Graph
    requires n in g && |g[n].tl| == 1
  {
    g[n := g[n].(tl := [g[n].tl[0].(next := next)])]
  }

  predicate HasPair(w: World) {
    && FNEK in w.nodes && |w.nodes[FNEK].tl| == 1
    && ENABLE in w.nodes && |w.nodes[ENABLE].tl| == 1
  }

  /** filename_crypto_fnek_sig_callback: without a signature, splice the
      "enable" node in after this one; with one, push it. */
  function FnekCallback(w: World): (World, int)
    requires HasPair(w)
  {
    var node := w.nodes[FNEK];
    if node.val.None? || node.val.value == "NULL" then
      var g := w.nodes[FNEK := node.(flags := PLAIN)];
      (w.(nodes := SetNext(SetNext(g, ENABLE, node.tl[0].next), FNEK, Some(ENABLE))), 0)
    else
      (w.(stack := [FNEK_PREFIX + node.val.value] + w.stack), 0)
  }

  /** is_yes: 1, 0, or -1 for anything else. */
  function IsYes(v: Option<string>, onNull: int): int {
    if v.None? then onNull
    else if v.value in {"y", "yes"} then 1
    else if v.value in {"n", "no"} then 0
    else -1
  }

  /** The first signature on the option stack. */
  function FirstSig(stack: seq<string>): Option<string> {
    if stack == [] then None
    else if SIG_PREFIX <= stack[0] then Some(stack[0][|SIG_PREFIX|..])
    else FirstSig(stack[1..])
  }

  /** Entry k of the stack holds the signature `sig`, and none before it holds any. */
  ghost predicate HoldsFirst(stack: seq<string>, k: int, sig: string) {
    && 0 <= k < |stack| && stack[k] == "ecryptfs_sig=" + sig
    && forall i :: 0 <= i < k ==> !("ecryptfs_sig=" <= stack[i])
  }

  /** The signature is what follows "ecryptfs_sig=" in the first entry that has it. */
  lemma {:induction false} FirstSigIs(stack: seq<string>, sig: string)
    ensures FirstSig(stack) == Some(sig) <==> exists k :: HoldsFirst(stack, k, sig)
    ensures FirstSig(stack) == None <==> forall k :: 0 <= k < |stack| ==> !("ecryptfs_sig=" <= stack[k])
  {
    if stack != [] {
      FirstSigIs(stack[1..], sig);
      if SIG_PREFIX <= stack[0] {
        assert stack[0] == "ecryptfs_sig=" + stack[0][|SIG_PREFIX|..];
        if exists k :: HoldsFirst(stack, k, sig) {
          var k :| HoldsFirst(stack, k, sig);
          assert k == 0 && stack[0][|SIG_PREFIX|..] == sig;
        }
        if FirstSig(stack) == Some(sig) {
          assert HoldsFirst(stack, 0, sig);
        }
      } else {
        if FirstSig(stack) == Some(sig) {
          var k :| HoldsFirst(stack[1..], k, sig);
          assert HoldsFirst(stack, k + 1, sig);
        }
        if exists k :: HoldsFirst(stack, k, sig) {
          var k :| HoldsFirst(stack, k, sig);
          assert k > 0 && HoldsFirst(stack[1..], k - 1, sig);
        }
        if FirstSig(stack) == None {
          forall k | 0 <= k < |stack|
            ensures !("ecryptfs_sig=" <= stack[k])
          {
            if k > 0 { assert stack[k] == stack[1..][k - 1]; }
          }
        }
      }
    }
  }

  /** Which texts are a yes, a no and neither. */
  lemma YesAndNo(v: string, onNull: int)
    ensures IsYes(Some("y"), onNull) == IsYes(Some("yes"), onNull) == 1
    ensures IsYes(Some("n"), onNull) == IsYes(Some("no"), onNull) == 0 && IsYes(None, onNull) == onNull
    ensures v != "y" && v != "yes" && v != "n" && v != "no" ==> IsYes(Some(v), onNull) == -1
  {
  }

  /** get_enable_filename_crypto: on yes, splice the signature node back in and
      suggest the mount's own signature; below the stack lies a node without a
      string, so a missing signature is a NULL argument to strncmp. */
  function EnableCallback(w: World): (World, int)
    requires HasPair(w)
  {
    var node := w.nodes[ENABLE];
    var yn := IsYes(node.val, 0);
    var w1 := SetVal(w, ENABLE, None);
    if yn > 0 || node.flags.parameterSet then
      match FirstSig(w.stack)
      case None => (w, FAULT)
      case Some(sig) =>
        var g := SetNext(SetNext(w1.nodes, FNEK, node.tl[0].next), ENABLE, Some(FNEK));
        (w1.(nodes := g[FNEK := g[FNEK].(suggestedVal := Some(sig))]), 0)
    else (w1, if yn < 0 then WRONG_VALUE else 0)
  }

  function Run(f: Callback, w: World, n: NodeId): (World, int) {
    if !HasPair(w) then (w, FAULT)
    else if f.FnekSig? && n == FNEK then FnekCallback(w)
    else if f.EnableFilenameCrypto? && n == ENABLE then EnableCallback(w)
    else (w, 0)
  }

  function FilenameCallbacks(): Callbacks {
    (f: Callback, w: World, n: NodeId) => Run(f, w, n)
  }

  lemma FnekKeepsFrame(w: World)
    requires HasPair(w) && Closed(w.nodes)
    ensures Frame(w, FNEK, FnekCallback(w).0)
  {
    assert FnekCallback(w).0.nodes.Keys == w.nodes.Keys;
  }

  lemma EnableKeepsFrame(w: World)
    requires HasPair(w) && Closed(w.nodes)
    ensures Frame(w, ENABLE, EnableCallback(w).0)
  {
    hide FirstSig;
    assert EnableCallback(w).0.nodes.Keys == w.nodes.Keys;
  }

  lemma FilenameCallbacksSane()
    ensures Sane(FilenameCallbacks())
  {
    hide FnekCallback, EnableCallback;
    var cb := FilenameCallbacks();
    forall f: Callback, w: World, n: NodeId | Closed(w.nodes) && n in w.nodes
      ensures Frame(w, n, cb(f, w, n).0)
    {
      if HasPair(w) {
        FnekKeepsFrame(w);
        EnableKeepsFrame(w);
      }
    }
  }

  /* ---- the states of the pair ---- */

  function Branch(next: NodeId, f: Callback): seq<Transition> {
    [Transition(Some("default"), Some("default"), Some(next), Some(f))]
  }

  /** A pair asking for filename encryption without giving a signature. */
  predicate IsBare(p: Pair) {
    p.name == Some(FNEK_NAME) && !HasValue(p) && !p.processed
  }

  /** The bare requests, from position i on, in front of the first unused pair of
      that name with a value. */
  function Lead(pairs: seq<Pair>, i: nat): nat
    requires i <= |pairs|
    decreases |pairs| - i
  {
    if i == |pairs| then 0
    else if IsBare(pairs[i]) then 1 + Lead(pairs, i + 1)
    else if pairs[i].name == Some(FNEK_NAME) && !pairs[i].processed then 0
    else Lead(pairs, i + 1)
  }

  /** The value of the first unused pair of that name that has one. */
  function SuppliedSig(pairs: seq<Pair>, i: nat): Option<string>
    requires i <= |pairs|
    decreases |pairs| - i
  {
    if i == |pairs| then None
    else if pairs[i].name == Some(FNEK_NAME) && !pairs[i].processed && HasValue(pairs[i]) then pairs[i].value
    else SuppliedSig(pairs, i + 1)
  }

  /** What holds throughout: prompting is on, a signature other than "NULL" has
      been pushed, and neither a pair nor the user offers the text "NULL". */
  ghost predicate Setting(w: World) {
    && Closed(w.nodes) && w.verbosity != 0 && w.canPrompt
    && NoDefaultPair(w.pairs)
    && (forall j :: 0 <= j < |w.pairs| && w.pairs[j].name == Some(FNEK_NAME) ==> w.pairs[j].value != Some("NULL"))
    && "NULL" !in w.answers
    && FirstSig(w.stack).Some? && FirstSig(w.stack).value != "NULL"
    && END in w.nodes && w.nodes[END] == ParamNode(["end"], None, None, None, PLAIN.(noValue := true), [])
  }

  ghost predicate IsEnableNode(node: ParamNode, next: NodeId) {
    && node.names == [ENABLE_NAME] && node.val.None? && node.defaultVal.None? && node.suggestedVal == Some("n")
    && node.flags.(parameterSet := false) == PLAIN
    && node.tl == Branch(next, EnableFilenameCrypto)
  }

  /** At the signature node; `first` says whether it is still as declared. */
  ghost predicate AtFnek(w: World, first: bool) {
    && Setting(w) && FNEK in w.nodes && ENABLE in w.nodes
    && var node := w.nodes[FNEK];
    && node.names == [FNEK_NAME] && node.val.None? && node.defaultVal.None?
    && node.tl == Branch(END, FnekSig)
    && IsEnableNode(w.nodes[ENABLE], FNEK)
    && if first then node.flags == PLAIN.(noValue := true, noAutoTransition := true)
       else node.flags == PLAIN && node.suggestedVal == FirstSig(w.stack)
  }

  /** At the "enable" node, spliced in between the signature node and the end. */
  ghost predicate AtEnable(w: World) {
    && Setting(w) && FNEK in w.nodes && ENABLE in w.nodes
    && var node := w.nodes[FNEK];
    && node.names == [FNEK_NAME] && node.val.None? && node.defaultVal.None? && node.flags == PLAIN
    && node.tl == Branch(ENABLE, FnekSig)
    && IsEnableNode(w.nodes[ENABLE], END)
  }

  /** At the end node, with the option stack as given. */
  ghost predicate AtEnd(o: Outcome, stack: seq<string>) {
    && o.Running? && o.at == END && Closed(o.w.nodes) && o.w.stack == stack
    && END in o.w.nodes && o.w.nodes[END] == ParamNode(["end"], None, None, None, PLAIN.(noValue := true), [])
  }

  /** The end was reached with the signature `sig` pushed and these answers left. */
  ghost predicate PushedAs(w: World, o: Outcome, sig: string, left: seq<string>) {
    AtEnd(o, ["ecryptfs_fnek_sig=" + sig] + w.stack) && o.w.answers == left
  }

  /** What a typed line stands for: an empty one for the first signature on the stack. */
  function TypedSig(stack: seq<string>, line: string): string {
    if line == "" then FirstSig(stack).GetOr("") else line
  }

  /** `left` is what is left of `answers`. */
  ghost predicate IsTail(left: seq<string>, answers: seq<string>) {
    |left| <= |answers| && left == answers[|answers| - |left|..]
  }

  /** The signature that a run from w pushes which leaves these answers: the value
      of the first pair that has one, otherwise what the last line used stands for. */
  function TheSig(w: World, left: seq<string>): string
    requires SuppliedSig(w.pairs, 0).None? ==> |left| < |w.answers|
  {
    match SuppliedSig(w.pairs, 0)
    case Some(v) => v
    case None => TypedSig(w.stack, w.answers[|w.answers| - |left| - 1])
  }

  function Used(pairs: seq<Pair>, j: nat): seq<Pair>
    requires j < |pairs|
  {
    pairs[j := pairs[j].(processed := true)]
  }

  /** Using up a pair that is behind, or of another name, does not matter. */
  lemma {:induction false} LeadSame(pairs: seq<Pair>, i: nat, j: nat)
    requires i <= |pairs| && j < |pairs| && (j < i || pairs[j].name != Some(FNEK_NAME))
    ensures Lead(Used(pairs, j), i) == Lead(pairs, i)
    decreases |pairs| - i
  {
    if i < |pairs| { LeadSame(pairs, i + 1, j); }
  }

  lemma {:induction false} SuppliedSame(pairs: seq<Pair>, i: nat, j: nat)
    requires i <= |pairs| && j < |pairs|
    requires j < i || pairs[j].name != Some(FNEK_NAME) || !HasValue(pairs[j])
    ensures SuppliedSig(Used(pairs, j), i) == SuppliedSig(pairs, i)
    decreases |pairs| - i
  {
    if i < |pairs| { SuppliedSame(pairs, i + 1, j); }
  }

  /** The first unused pair of the name supplies the signature if it has a value. */
  lemma {:induction false} SuppliedFirst(pairs: seq<Pair>, i: nat)
    requires i <= |pairs|
    ensures var f := FindPair(pairs, FNEK_NAME, i);
      && (f.None? ==> SuppliedSig(pairs, i).None?)
      && (f.Some? ==> f.value < |pairs|)
      && (f.Some? && HasValue(pairs[f.value]) ==> SuppliedSig(pairs, i) == pairs[f.value].value)
      && (f.Some? && !HasValue(pairs[f.value]) ==> SuppliedSig(Used(pairs, f.value), i) == SuppliedSig(pairs, i))
    decreases |pairs| - i
  {
    if i < |pairs| {
      SuppliedFirst(pairs, i + 1);
      var f := FindPair(pairs, FNEK_NAME, i);
      if f.Some? && !HasValue(pairs[f.value]) { SuppliedSame(pairs, i, f.value); }
    }
  }

  /** The first unused pair of the name is bare exactly if some request leads. */
  lemma {:induction false} LeadFirst(pairs: seq<Pair>, i: nat)
    requires i <= |pairs|
    ensures var f := FindPair(pairs, FNEK_NAME, i);
      && (Lead(pairs, i) > 0 <==> f.Some? && f.value < |pairs| && !HasValue(pairs[f.value]))
      && (f.Some? ==> i <= f.value < |pairs|)
      && (Lead(pairs, i) > 0 ==> Lead(Used(pairs, f.value), i) == Lead(pairs, i) - 1)
    decreases |pairs| - i
  {
    if i < |pairs| {
      LeadFirst(pairs, i + 1);
      LeadSame(pairs, i + 1, i);
    }
  }

  /** Neither a pair nor a flag speaks for the "enable" node. */
  ghost predicate EnableUnset(w: World) {
    FindPair(w.pairs, ENABLE_NAME, 0).None? && ENABLE in w.nodes && !w.nodes[ENABLE].flags.parameterSet
  }

  lemma EndStops(w: World)
    requires Sane(FilenameCallbacks())
    requires Closed(w.nodes) && END in w.nodes
    requires w.nodes[END] == ParamNode(["end"], None, None, None, PLAIN.(noValue := true), [])
    ensures var o := Step(FilenameCallbacks(), w, END);
      o.Stopped? && o.rc == NULL_TOK && o.w.stack == w.stack && o.w.answers == w.answers
  {
    PlainAlloc(w, END, "end");
    hide AllocAndGetVal, FindPair;
  }

  /** The transition out of the signature node. */
  lemma FnekMoves(w: World)
    requires Sane(FilenameCallbacks()) && Closed(w.nodes) && NoDefaultPair(w.pairs) && HasPair(w)
    requires w.nodes[FNEK].tl == Branch(END, FnekSig) && END in w.nodes
    ensures DoTransition(FilenameCallbacks(), w, FNEK) ==
      var (w1, _) := FnekCallback(Enter(w, FNEK)); Move(w1, 0, w1.nodes[FNEK].tl[0].next)
  {
    SoleDefaultBranch(FilenameCallbacks(), w, FNEK);
    hide DoTransition;
  }

  /** One iteration at the signature node. */
  ghost predicate FnekOutcome(w: World, first: bool, o: Outcome) {
    FindPairInRange(w.pairs, FNEK_NAME, 0);
    var j := FindPair(w.pairs, FNEK_NAME, 0);
    if j.Some? && HasValue(w.pairs[j.value]) then PushedAs(w, o, w.pairs[j.value].value.value, w.answers)
    else if j.Some? || first then
      && o.Running? && o.at == ENABLE && AtEnable(o.w) && o.w.stack == w.stack
      && Lead(o.w.pairs, 0) == Lead(w.pairs, 0) - (if j.Some? then 1 else 0)
      && o.w.last == Some(FNEK)
      && o.w.answers == w.answers && ENABLE in w.nodes && o.w.nodes[ENABLE].flags == w.nodes[ENABLE].flags
      && o.w.pairs == if j.Some? then Used(w.pairs, j.value) else w.pairs
    else if w.answers == [] then o.Stopped? && o.rc == -EIO
    else PushedAs(w, o, TypedSig(w.stack, w.answers[0]), w.answers[1..])
  }

  /** Fetching a plain value keeps the setting. */
  lemma FetchKeepsSetting(w: World, n: NodeId, name: string)
    requires Setting(w) && n in w.nodes && n != END && IsPlain(w.nodes[n], name)
    ensures Setting(PlainValue(w, n, name).0)
  {
    FindPairInRange(w.pairs, name, 0);
    hide FindPair;
    var w1 := PlainValue(w, n, name).0;
    assert forall i :: 0 <= i < |w1.answers| ==> w1.answers[i] in w.answers;
  }

  /** What the signature node holds after its value was fetched. */
  ghost predicate FnekFetched(w: World, first: bool, w1: World, rc: int)
    requires FNEK in w.nodes
  {
    FindPairInRange(w.pairs, FNEK_NAME, 0);
    var j := FindPair(w.pairs, FNEK_NAME, 0);
    && Setting(w1) && w1.stack == w.stack
    && FNEK in w1.nodes && w1.nodes == w.nodes[FNEK := w1.nodes[FNEK]]
    && w1.nodes[FNEK].tl == w.nodes[FNEK].tl && w1.nodes[FNEK].names == [FNEK_NAME] && w1.nodes[FNEK].defaultVal.None?
    && w1.nodes[FNEK].val != Some("NULL")
    && if j.Some? then
         && rc == 0 && !w.pairs[j.value].processed && w.pairs[j.value].name == Some(FNEK_NAME)
         && w1.pairs == Used(w.pairs, j.value) && w1.answers == w.answers
         && w1.nodes[FNEK].val == (if HasValue(w.pairs[j.value]) then w.pairs[j.value].value else None)
       else
         && w1.pairs == w.pairs
         && if first then rc == 0 && w1.nodes[FNEK].val.None? && w1.answers == w.answers
            else if w.answers == [] then rc == -EIO
            else
              && rc == 0 && w1.nodes[FNEK].val == Some(TypedSig(w.stack, w.answers[0]))
              && w1.answers == w.answers[1..]
  }

  lemma FnekFetch(w: World, first: bool)
    requires AtFnek(w, first)
    ensures IsPlain(w.nodes[FNEK], FNEK_NAME)
    ensures var (w1, rc) := PlainValue(w, FNEK, FNEK_NAME); FnekFetched(w, first, w1, rc)
  {
    FetchKeepsSetting(w, FNEK, FNEK_NAME);
    FindPairInRange(w.pairs, FNEK_NAME, 0);
    FindPairIsFirst(w.pairs, FNEK_NAME, 0);
    hide FindPair;
  }

  /** The rest of the iteration. */
  function FnekRest(w1: World, rc: int): Outcome
    requires HasPair(w1)
  {
    var w2 := FnekCallback(Enter(w1, FNEK)).0;
    if rc != 0 then Stopped(w1, rc) else Running(w2, w2.nodes[FNEK].tl[0].next.GetOr(END))
  }

  lemma FnekPushes(w1: World, stack: seq<string>)
    requires Setting(w1) && HasPair(w1) && w1.stack == stack && w1.nodes[FNEK].tl == Branch(END, FnekSig)
    requires w1.nodes[FNEK].val.Some? && w1.nodes[FNEK].val != Some("NULL")
    ensures AtEnd(FnekRest(w1, 0), ["ecryptfs_fnek_sig=" + w1.nodes[FNEK].val.value] + stack)
    ensures FnekRest(w1, 0).w.answers == w1.answers
  {
  }

  lemma FnekConcludes(w: World, first: bool, w1: World, rc: int)
    requires AtFnek(w, first) && FnekFetched(w, first, w1, rc)
    ensures FnekOutcome(w, first, FnekRest(w1, rc))
  {
    hide FindPair;
    FindPairInRange(w.pairs, FNEK_NAME, 0);
    var j := FindPair(w.pairs, FNEK_NAME, 0);
    if rc == 0 {
      if w1.nodes[FNEK].val.Some? {
        FnekPushes(w1, w.stack);
        hide FnekCallback, AtEnd, Setting, AtFnek;
      } else {
        FnekSplices(w1);
        hide Setting, AtEnable;
        LeadFirst(w.pairs, 0);
      }
    }
  }

  /** One iteration at the signature node does what FnekOutcome says. */
  lemma FnekStep(w: World, first: bool)
    requires Sane(FilenameCallbacks()) && AtFnek(w, first)
    ensures FnekOutcome(w, first, Step(FilenameCallbacks(), w, FNEK))
  {
    FnekFetch(w, first);
    PlainAlloc(w, FNEK, FNEK_NAME);
    var (w1, rc) := PlainValue(w, FNEK, FNEK_NAME);
    FnekConcludes(w, first, w1, rc);
    hide AllocAndGetVal, FindPair, PlainValue, DoTransition, FnekOutcome;
    FnekMoves(w1);
  }

  /** Without a value the callback puts the "enable" node in front of the end. */
  lemma FnekSplices(w: World)
    requires Setting(w) && FNEK in w.nodes && ENABLE in w.nodes
    requires w.nodes[FNEK].names == [FNEK_NAME] && w.nodes[FNEK].val.None? && w.nodes[FNEK].defaultVal.None?
    requires w.nodes[FNEK].tl == Branch(END, FnekSig) && IsEnableNode(w.nodes[ENABLE], FNEK)
    ensures AtEnable(FnekCallback(Enter(w, FNEK)).0)
  {
  }

  /* ---- the "enable" node ---- */

  /** The "enable" node after its value was fetched: PARAMETER_SET is kept if it was set. */
  ghost predicate EnableFetched(w: World, w1: World, rc: int)
    requires ENABLE in w.nodes
  {
    && Setting(w1) && w1.stack == w.stack && Lead(w1.pairs, 0) == Lead(w.pairs, 0) && GoesOn(w, w1)
    && w1.repeated == w.repeated && w1.last == w.last
    && ENABLE in w1.nodes && w1.nodes == w.nodes[ENABLE := w1.nodes[ENABLE]]
    && IsEnableNode(w1.nodes[ENABLE].(val := None), END)
    && (rc == 0 || rc == -EIO)
  }

  lemma EnableFetch(w: World)
    requires AtEnable(w)
    ensures IsPlain(w.nodes[ENABLE], ENABLE_NAME)
    ensures var (w1, rc) := PlainValue(w, ENABLE, ENABLE_NAME); EnableFetched(w, w1, rc)
  {
    FetchKeepsSetting(w, ENABLE, ENABLE_NAME);
    FindPairInRange(w.pairs, ENABLE_NAME, 0);
    FindPairIsFirst(w.pairs, ENABLE_NAME, 0);
    var j := FindPair(w.pairs, ENABLE_NAME, 0);
    if j.Some? {
      LeadSame(w.pairs, 0, j.value);
      SuppliedSame(w.pairs, 0, j.value);
    }
    hide FindPair;
  }

  /** Yes, whether said or implied by a bare ecryptfs_enable_filename_crypto. */
  predicate SaysYes(node: ParamNode) {
    IsYes(node.val, 0) > 0 || node.flags.parameterSet
  }

  /** The same pairs and answers, and the same flags at the "enable" node. */
  ghost predicate KeepsInput(w: World, w': World) {
    && w'.pairs == w.pairs && w'.answers == w.answers
    && ENABLE in w.nodes && ENABLE in w'.nodes && w'.nodes[ENABLE].flags == w.nodes[ENABLE].flags
  }

  /** The same signature is supplied, and answers are only used up. */
  ghost predicate GoesOn(w: World, w': World) {
    SuppliedSig(w'.pairs, 0) == SuppliedSig(w.pairs, 0) && IsTail(w'.answers, w.answers)
  }

  /** One iteration at the "enable" node, which fetched its value in w1. */
  ghost predicate EnableOutcome(w: World, w1: World, o: Outcome) {
    ENABLE in w1.nodes &&
    var node := w1.nodes[ENABLE];
    var asked := Enter(w, ENABLE).repeated + 1;
    if SaysYes(node) then
      && o.Running? && o.at == FNEK && AtFnek(o.w, false)
      && o.w.stack == w.stack && Lead(o.w.pairs, 0) == Lead(w.pairs, 0)
      && KeepsInput(w1, o.w) && GoesOn(w, o.w)
    else if IsYes(node.val, 0) == 0 then AtEnd(o, w.stack)
    else if node.val == Some("default") then o.Stopped? && o.rc == WRONG_VALUE && o.w.stack == w.stack
    else if asked >= MAX_REPEATS then o.Stopped? && o.rc == -EINVAL
    else
      && o.Running? && o.at == ENABLE && AtEnable(o.w) && o.w.stack == w.stack && Lead(o.w.pairs, 0) == Lead(w.pairs, 0)
      && o.w.last == Some(ENABLE) && o.w.repeated == asked && KeepsInput(w1, o.w)
      && GoesOn(w, o.w)
  }

  /** The transition out of the "enable" node. */
  lemma EnableMoves(w: World)
    requires Sane(FilenameCallbacks()) && Closed(w.nodes) && NoDefaultPair(w.pairs) && HasPair(w)
    requires w.nodes[ENABLE].tl == Branch(END, EnableFilenameCrypto) && FirstSig(w.stack).Some? && w.verbosity != 0
    ensures DoTransition(FilenameCallbacks(), w, ENABLE) == EnableRest(w)
  {
    SoleDefaultBranch(FilenameCallbacks(), w, ENABLE);
    hide DoTransition, FirstSig;
  }

  /** The same move, spelled out. */
  function EnableRest(w: World): Move
    requires HasPair(w)
  {
    var (w1, tok) := EnableCallback(Enter(w, ENABLE));
    if tok == WRONG_VALUE then
      if w.nodes[ENABLE].val == Some("default") then Move(w1, WRONG_VALUE, w1.nodes[ENABLE].tl[0].next)
      else
        var w2 := w1.(repeated := w1.repeated + 1);
        if w2.repeated >= MAX_REPEATS then Move(w2, -EINVAL, None) else Move(w2, 0, Some(ENABLE))
    else Move(w1, 0, w1.nodes[ENABLE].tl[0].next)
  }

  lemma EnableConcludes(w: World, w1: World)
    requires AtEnable(w) && EnableFetched(w, w1, 0)
    ensures var m := EnableRest(w1);
      m.rc == 0 ==> m.next.Some? && EnableOutcome(w, w1, Running(m.w, m.next.value))
    ensures var m := EnableRest(w1);
      m.rc != 0 ==> EnableOutcome(w, w1, Stopped(m.w, m.rc))
  {
    hide FirstSig, Lead;
  }

  /** One iteration at the "enable" node either finds the input exhausted or does
      what EnableOutcome says for the value it got. */
  lemma EnableStep(w: World)
    requires Sane(FilenameCallbacks()) && AtEnable(w)
    ensures var o := Step(FilenameCallbacks(), w, ENABLE);
      var (w1, rc) := PlainValue(w, ENABLE, ENABLE_NAME);
      if rc != 0 then o.Stopped? && o.rc == -EIO else EnableOutcome(w, w1, o)
  {
    EnableFetch(w);
    PlainAlloc(w, ENABLE, ENABLE_NAME);
    var (w1, rc) := PlainValue(w, ENABLE, ENABLE_NAME);
    hide AllocAndGetVal, FindPair, PlainValue, DoTransition, EnableOutcome, EnableRest;
    if rc == 0 {
      EnableConcludes(w, w1);
      EnableMoves(w1);
    }
  }

  /* ---- whole runs ---- */

  /** How often the signature node is visited in the first k iterations. */
  function Visits(w: World, n: NodeId, k: nat): nat
    requires Sane(FilenameCallbacks()) && Closed(w.nodes) && n in w.nodes
    decreases k
  {
    if k == 0 then 0
    else
      (if n == FNEK then 1 else 0) +
      match Step(FilenameCallbacks(), w, n)
      case Stopped(_, _) => 0
      case Running(w', n') => Visits(w', n', k - 1)
  }

  /** Exactly one ecryptfs_fnek_sig option was pushed on top of w's stack, and it
      is the one of the supplied or typed signature. */
  ghost predicate PushedOne(w: World, o: Outcome) {
    && IsTail(o.w.answers, w.answers)
    && (SuppliedSig(w.pairs, 0).None? ==> |o.w.answers| < |w.answers|)
    && o.w.stack == ["ecryptfs_fnek_sig=" + TheSig(w, o.w.answers)] + w.stack
  }

  /** The same, seen from earlier in the run. */
  lemma PushedBefore(w: World, w': World, e: Outcome)
    requires PushedOne(w', e) && w'.stack == w.stack && GoesOn(w, w')
    ensures PushedOne(w, e)
  {
    hide FirstSig, SuppliedSig;
  }

  /** An evaluation that has stopped: with an error, or at the end node with at
      most one signature pushed. */
  ghost predicate Settled(w: World, o: Outcome) {
    && o.Stopped? && o.rc != 0
    && (Succeeds(o.rc) ==> o.w.stack == w.stack || PushedOne(w, o))
    && o.rc in {NULL_TOK, WRONG_VALUE, -EIO, -EINVAL} && (o.rc == WRONG_VALUE ==> o.w.stack == w.stack)
  }

  lemma VisitsStep(w: World, n: NodeId, k: nat)
    requires Sane(FilenameCallbacks()) && Closed(w.nodes) && n in w.nodes && k > 0
    ensures var o := Step(FilenameCallbacks(), w, n);
      Visits(w, n, k) == (if n == FNEK then 1 else 0) + if o.Running? then Visits(o.w, o.at, k - 1) else 0
  {
    hide Step;
  }

  /** From the end node on: one more iteration, no more visits, same stack. */
  lemma EndRuns(o: Outcome, stack: seq<string>, k: nat)
    requires Sane(FilenameCallbacks()) && AtEnd(o, stack) && k > 0
    ensures var e := RunFor(FilenameCallbacks(), o.w, END, k);
      e.Stopped? && e.rc == NULL_TOK && e.w.stack == stack && e.w.answers == o.w.answers && Visits(o.w, END, k) == 0
  {
    hide Step, RunFor, Visits;
    EndStops(o.w);
    RunForStep(FilenameCallbacks(), o.w, END, k);
    VisitsStep(o.w, END, k);
  }

  /** The signature was supplied: the first unused pair of the node's name has a value. */
  ghost predicate SignatureSupplied(w: World) {
    FindPairInRange(w.pairs, FNEK_NAME, 0);
    var j := FindPair(w.pairs, FNEK_NAME, 0);
    j.Some? && HasValue(w.pairs[j.value])
  }

  /** Where an evaluation of the pair stands: at the signature node as declared,
      there again, or at the "enable" node. */
  datatype Stage = First | Again | Enabling

  function NodeOf(stage: Stage): NodeId { if stage.Enabling? then ENABLE else FNEK }

  ghost predicate At(w: World, stage: Stage) {
    match stage
    case First => AtFnek(w, true)
    case Again => AtFnek(w, false)
    case Enabling => AtEnable(w)
  }

  /** Iterations that are enough from here: six for every leading bare request. */
  function Needed(w: World, stage: Stage): nat {
    var again := 2 + 6 * Lead(w.pairs, 0);
    match stage
    case First => again + 6
    case Again => again
    case Enabling =>
      var r := Enter(w, ENABLE).repeated;
      again + if r < MAX_REPEATS then MAX_REPEATS - r else 1
  }

  /** One iteration from a stage. */
  ghost predicate StageOutcome(w: World, stage: Stage, o: Outcome) {
    match stage
    case First => FnekOutcome(w, true, o)
    case Again => FnekOutcome(w, false, o)
    case Enabling => (o.Stopped? && o.rc == -EIO) || exists w1 :: EnableOutcome(w, w1, o)
  }

  lemma StageStep(w: World, stage: Stage)
    requires Sane(FilenameCallbacks()) && At(w, stage)
    ensures Closed(w.nodes) && NodeOf(stage) in w.nodes
    ensures StageOutcome(w, stage, Step(FilenameCallbacks(), w, NodeOf(stage)))
  {
    hide FnekOutcome, EnableOutcome, Step, PlainValue;
    match stage
    case First => FnekStep(w, true);
    case Again => FnekStep(w, false);
    case Enabling =>
      EnableStep(w);
      var o := Step(FilenameCallbacks(), w, ENABLE);
      var (w1, rc) := PlainValue(w, ENABLE, ENABLE_NAME);
      assert rc == 0 ==> EnableOutcome(w, w1, o);
  }

  /** The stage after an iteration that goes on but has not reached the end. */
  lemma NextStage(w: World, stage: Stage, o: Outcome) returns (next: Stage)
    requires StageOutcome(w, stage, o) && o.Running? && o.at != END
    ensures next == if o.at == ENABLE then Enabling else Again
    ensures At(o.w, next) && o.at == NodeOf(next) && Needed(o.w, next) < Needed(w, stage)
  {
    hide AtFnek, AtEnable, Lead, FindPair;
    next := if o.at == ENABLE then Enabling else Again;
    if stage.Enabling? {
      var w1 :| EnableOutcome(w, w1, o);
    }
  }

  lemma EndStage(w: World, stage: Stage, o: Outcome)
    requires StageOutcome(w, stage, o) && o.Running? && o.at == END
    ensures AtEnd(o, o.w.stack)
  {
    hide AtFnek, AtEnable, Lead, FindPair;
    if stage.Enabling? {
      var w1 :| EnableOutcome(w, w1, o);
    }
  }

  function Max(a: nat, b: nat): nat { if a < b then b else a }

  /** How an evaluation from a stage ends: with an error or at the end node, with
      at most one signature pushed. Every visit of the signature node but one uses
      up a leading bare request, and one signature has been pushed exactly if the
      visits have used them all up. */
  ghost predicate Goal(w: World, stage: Stage, e: Outcome, visits: nat) {
    && Settled(w, e)
    && var lead := Lead(w.pairs, 0);
    && match stage
       case First =>
         && 1 <= visits <= Max(1, lead) + 1
         && (Succeeds(e.rc) ==> (PushedOne(w, e) <==> SignatureSupplied(w) || visits > Max(1, lead)))
       case Again =>
         && 1 <= visits <= lead + 1
         && (Succeeds(e.rc) ==> (PushedOne(w, e) <==> visits > lead))
       case Enabling =>
         && visits <= lead + 1
         && (Succeeds(e.rc) ==> (PushedOne(w, e) <==> visits > lead))
  }

  lemma StackLonger(w: World, o: Outcome)
    requires PushedOne(w, o)
    ensures o.w.stack != w.stack
  {
    assert |o.w.stack| == |w.stack| + 1;
  }

  /** The evaluation after one iteration with outcome o ends in e. */
  ghost predicate Rest(o: Outcome, e: Outcome, visits: nat) {
    if o.Stopped? then e == o && visits == 0
    else if o.at == END then
      e.Stopped? && e.rc == NULL_TOK && e.w.stack == o.w.stack && e.w.answers == o.w.answers && visits == 0
    else Goal(o.w, if o.at == ENABLE then Enabling else Again, e, visits)
  }

  lemma EnableToGoal(w: World, o: Outcome, e: Outcome, visits: nat)
    requires StageOutcome(w, Enabling, o) && Rest(o, e, visits)
    ensures Goal(w, Enabling, e, visits)
  {
    hide AtFnek, AtEnable, Lead, SignatureSupplied, PushedOne, SuppliedSig, TheSig, IsTail;
    if PushedOne(w, e) {
      StackLonger(w, e);
    }
    if !(o.Stopped? && o.rc == -EIO) {
      var w1 :| EnableOutcome(w, w1, o);
    }
    if o.Running? && PushedOne(o.w, e) && o.at != END {
      PushedBefore(w, o.w, e);
    }
  }

  /** At the end, with the signature pushed that the pairs or the last line gave. */
  lemma PushedAtEnd(w: World, o: Outcome, e: Outcome, sig: string, left: seq<string>)
    requires PushedAs(w, o, sig, left) && e.w.stack == o.w.stack && e.w.answers == o.w.answers
    requires IsTail(left, w.answers) && (SuppliedSig(w.pairs, 0).None? ==> |left| < |w.answers|)
    requires sig == TheSig(w, left)
    ensures PushedOne(w, e) && e.w.stack != w.stack
  {
    hide TheSig, SuppliedSig, IsTail;
    StackLonger(w, e);
  }

  lemma FnekAtEnd(w: World, first: bool, o: Outcome, e: Outcome)
    requires FnekOutcome(w, first, o) && o.Running? && o.at == END
    requires e.w.stack == o.w.stack && e.w.answers == o.w.answers
    ensures PushedOne(w, e) && e.w.stack != w.stack
    ensures !SignatureSupplied(w) ==> !first && FindPair(w.pairs, FNEK_NAME, 0).None?
  {
    hide AtFnek, AtEnable, FindPair, SuppliedSig, PushedOne, AtEnd;
    SuppliedFirst(w.pairs, 0);
    FindPairInRange(w.pairs, FNEK_NAME, 0);
    var j := FindPair(w.pairs, FNEK_NAME, 0);
    if j.Some? {
      PushedAtEnd(w, o, e, w.pairs[j.value].value.value, w.answers);
    } else {
      PushedAtEnd(w, o, e, TypedSig(w.stack, w.answers[0]), w.answers[1..]);
    }
  }

  lemma FnekAtEnable(w: World, first: bool, o: Outcome)
    requires FnekOutcome(w, first, o) && o.Running? && o.at == ENABLE
    ensures GoesOn(w, o.w) && o.w.stack == w.stack && !SignatureSupplied(w)
    ensures Lead(o.w.pairs, 0) == Lead(w.pairs, 0) - (if Lead(w.pairs, 0) > 0 then 1 else 0)
    ensures Lead(w.pairs, 0) == 0 ==> first
  {
    hide AtFnek, AtEnable, FindPair, SuppliedSig, Lead;
    SuppliedFirst(w.pairs, 0);
    LeadFirst(w.pairs, 0);
    assert w.answers[0..] == w.answers;
  }

  lemma FnekToGoal(w: World, first: bool, o: Outcome, e: Outcome, visits: nat)
    requires FnekOutcome(w, first, o) && Rest(o, e, visits)
    ensures Goal(w, if first then First else Again, e, visits + 1)
  {
    hide AtFnek, AtEnable, Lead, FindPair, PushedOne, FnekOutcome, GoesOn, SignatureSupplied, AtEnd;
    hide TheSig, SuppliedSig, IsTail;
    FnekGoesOn(w, first, o);
    if PushedOne(w, e) {
      StackLonger(w, e);
    }
    if o.Running? && o.at == END {
      FnekAtEnd(w, first, o, e);
    }
    if o.Running? && o.at == ENABLE {
      FnekAtEnable(w, first, o);
      if PushedOne(o.w, e) { PushedBefore(w, o.w, e); }
    }
  }

  lemma FnekGoesOn(w: World, first: bool, o: Outcome)
    requires FnekOutcome(w, first, o)
    ensures if o.Stopped? then o.rc == -EIO && !SignatureSupplied(w) else o.at == END || o.at == ENABLE
    ensures SignatureSupplied(w) ==> Lead(w.pairs, 0) == 0
    ensures FindPair(w.pairs, FNEK_NAME, 0).None? ==> Lead(w.pairs, 0) == 0
  {
    LeadFirst(w.pairs, 0);
    hide AtFnek, AtEnable, Lead, FindPair, SuppliedSig;
  }

  lemma ToGoal(w: World, stage: Stage, o: Outcome, e: Outcome, visits: nat)
    requires StageOutcome(w, stage, o) && Rest(o, e, visits)
    ensures Goal(w, stage, e, visits + if NodeOf(stage) == FNEK then 1 else 0)
  {
    hide FnekOutcome, EnableOutcome, Rest, Goal;
    match stage
    case First => FnekToGoal(w, true, o, e, visits);
    case Again => FnekToGoal(w, false, o, e, visits);
    case Enabling => EnableToGoal(w, o, e, visits);
  }

  /** From any stage to the end of the evaluation. */
  lemma {:induction false} StageRuns(w: World, stage: Stage, k: nat)
    requires Sane(FilenameCallbacks()) && At(w, stage) && k >= Needed(w, stage)
    requires Closed(w.nodes) && NodeOf(stage) in w.nodes
    ensures Goal(w, stage, RunFor(FilenameCallbacks(), w, NodeOf(stage), k), Visits(w, NodeOf(stage), k))
    decreases k
  {
    hide Step, RunFor, Visits, At, StageOutcome, Goal;
    var cb := FilenameCallbacks();
    var n := NodeOf(stage);
    var o := Step(cb, w, n);
    StageStep(w, stage);
    assert k > 0;
    RunForStep(cb, w, n, k);
    VisitsStep(w, n, k);
    hide Needed;
    ghost var e, visits := RunFor(cb, w, n, k), 0;
    if o.Running? {
      visits := Visits(o.w, o.at, k - 1);
      if o.at == END {
        EndStage(w, stage, o);
        EndRuns(o, o.w.stack, k - 1);
      } else {
        var next := NextStage(w, stage, o);
        StageRuns(o.w, next, k - 1);
      }
    }
    ToGoal(w, stage, o, e, visits);
  }

  /** How many of the first k iterations were at the "enable" node and got a yes. */
  ghost function Yeses(w: World, n: NodeId, k: nat): nat
    requires Sane(FilenameCallbacks()) && Closed(w.nodes) && n in w.nodes
    decreases k
  {
    if k == 0 then 0
    else
      match Step(FilenameCallbacks(), w, n)
      case Stopped(_, _) => 0
      case Running(w', n') =>
        (if n == ENABLE && SaysYes(AllocAndGetVal(w, ENABLE).0.nodes[ENABLE]) then 1 else 0) + Yeses(w', n', k - 1)
  }

  lemma YesesStep(w: World, n: NodeId, k: nat)
    requires Sane(FilenameCallbacks()) && Closed(w.nodes) && n in w.nodes && k > 0
    ensures var o := Step(FilenameCallbacks(), w, n);
      Yeses(w, n, k) ==
        if o.Stopped? then 0
        else
          (if n == ENABLE && SaysYes(AllocAndGetVal(w, ENABLE).0.nodes[ENABLE]) then 1 else 0)
          + Yeses(o.w, o.at, k - 1)
  {
    hide Step, AllocAndGetVal;
  }

  /** The evaluation goes from the "enable" node to the signature node on a yes
      and on nothing else. */
  lemma YesLeadsBack(w: World)
    requires Sane(FilenameCallbacks()) && AtEnable(w)
    ensures var o := Step(FilenameCallbacks(), w, ENABLE);
      o.Running? ==> (o.at == FNEK <==> SaysYes(AllocAndGetVal(w, ENABLE).0.nodes[ENABLE]))
  {
    EnableStep(w);
    EnableFetch(w);
    PlainAlloc(w, ENABLE, ENABLE_NAME);
    hide Step, AllocAndGetVal, PlainValue, AtFnek, AtEnable, Lead;
  }

  /** Where the iteration from a stage leads, if on. */
  lemma NextNode(w: World, stage: Stage, o: Outcome)
    requires StageOutcome(w, stage, o) && o.Running?
    ensures o.at in {FNEK, ENABLE, END} && (!stage.Enabling? ==> o.at != FNEK)
  {
    hide AtFnek, AtEnable, Lead, FindPair;
    if stage.Enabling? {
      var w1 :| EnableOutcome(w, w1, o);
    }
  }

  /** The signature node is visited once, if the evaluation starts there, and once
      more for every yes. */
  lemma {:induction false} VisitsAreYeses(w: World, stage: Stage, k: nat)
    requires Sane(FilenameCallbacks()) && At(w, stage) && k >= Needed(w, stage)
    requires Closed(w.nodes) && NodeOf(stage) in w.nodes
    ensures Visits(w, NodeOf(stage), k) == Yeses(w, NodeOf(stage), k) + if stage.Enabling? then 0 else 1
    decreases k
  {
    hide Step, RunFor, Visits, StageOutcome, Yeses, AllocAndGetVal, AtFnek, AtEnable;
    var n := NodeOf(stage);
    var o := Step(FilenameCallbacks(), w, n);
    StageStep(w, stage);
    assert k > 0;
    VisitsStep(w, n, k);
    YesesStep(w, n, k);
    if o.Running? {
      NextNode(w, stage, o);
      if stage.Enabling? { YesLeadsBack(w); }
      if o.at == END {
        EndStage(w, stage, o);
        EndRuns(o, o.w.stack, k - 1);
        EndStops(o.w);
        YesesStep(o.w, END, k - 1);
      } else {
        var next := NextStage(w, stage, o);
        VisitsAreYeses(o.w, next, k - 1);
      }
    }
  }

  /** How a whole evaluation ends, with L leading bare requests: stopped with an
      error, or at the end node with at most one ecryptfs_fnek_sig pushed, after
      one visit of the signature node and one more for each of at most max(1, L)
      yeses. One signature has been pushed exactly if one was supplied or the
      "enable" node got max(1, L) yeses. */
  ghost predicate Settles(w: World, e: Outcome, visits: nat, yeses: nat) {
    var needed := Max(1, Lead(w.pairs, 0));
    && e.Stopped? && e.rc != 0
    && visits == yeses + 1 && yeses <= needed
    && e.rc in {NULL_TOK, WRONG_VALUE, -EIO, -EINVAL}
    && (Succeeds(e.rc) ==> e.w.stack == w.stack || PushedOne(w, e))
    && (e.rc == WRONG_VALUE ==> e.w.stack == w.stack)
    && (Succeeds(e.rc) ==> (PushedOne(w, e) <==> SignatureSupplied(w) || yeses >= needed))
  }

  /** In an interactive evaluation that starts at the untouched signature node
      with a signature already on the stack, the self-rewiring pair settles
      within 8 + 6 L iterations. */
  lemma FilenameCryptoSettles(w: World, k: nat)
    requires Sane(FilenameCallbacks()) && AtFnek(w, true) && k >= 8 + 6 * Lead(w.pairs, 0)
    ensures Settles(w, RunFor(FilenameCallbacks(), w, FNEK, k), Visits(w, FNEK, k), Yeses(w, FNEK, k))
  {
    hide Step, RunFor, Visits, SignatureSupplied, Lead, Yeses;
    StageRuns(w, First, k);
    VisitsAreYeses(w, First, k);
  }

  /* ---- a yes that comes to nothing ---- */

  predicate IsEnablePair(p: Pair) { p.name == Some(ENABLE_NAME) && !p.processed }

  datatype Says = Always | Yes | Ends | Wrong

  /** What a pair says to the "enable" node. Without a value it sets PARAMETER_SET
      for good; a no and the word "default" end the evaluation. */
  function Speech(p: Pair): Says {
    if !HasValue(p) then Always
    else if IsYes(p.value, 0) > 0 then Yes
    else if IsYes(p.value, 0) == 0 || p.value.value == "default" then Ends
    else Wrong
  }

  /** Whether some answers lead to a mount with a yes given but no signature, when
      `need` more yeses are needed, `any` tells whether one was given, and `wrong`
      wrong values came in a row: a caller can read it off the pairs. */
  function Fate(pairs: seq<Pair>, i: nat, need: nat, any: bool, wrong: nat): bool
    requires i <= |pairs|
    decreases |pairs| - i
  {
    if i == |pairs| then need >= if any then 1 else 2
    else if !IsEnablePair(pairs[i]) then Fate(pairs, i + 1, need, any, wrong)
    else
      match Speech(pairs[i])
      case Always => false
      case Yes => need > 1 && Fate(pairs, i + 1, need - 1, true, 0)
      case Ends => any
      case Wrong => wrong + 1 < MAX_REPEATS && Fate(pairs, i + 1, need, any, wrong + 1)
  }

  lemma {:induction false} FateSame(pairs: seq<Pair>, i: nat, j: nat, need: nat, any: bool, wrong: nat)
    requires i <= |pairs| && j < |pairs| && (j < i || pairs[j].name != Some(ENABLE_NAME))
    ensures Fate(Used(pairs, j), i, need, any, wrong) == Fate(pairs, i, need, any, wrong)
    decreases |pairs| - i
  {
    if i < |pairs| {
      if IsEnablePair(pairs[i]) && Speech(pairs[i]).Yes? {
        if need > 1 { FateSame(pairs, i + 1, j, need - 1, true, 0); }
      } else if IsEnablePair(pairs[i]) {
        FateSame(pairs, i + 1, j, need, any, wrong + 1);
      } else {
        FateSame(pairs, i + 1, j, need, any, wrong);
      }
    }
  }

  /** The fate when pair j speaks first. */
  function FateOf(pairs: seq<Pair>, j: nat, i: nat, need: nat, any: bool, wrong: nat): bool
    requires j < |pairs| && i <= |pairs|
  {
    match Speech(pairs[j])
    case Always => false
    case Yes => need > 1 && Fate(Used(pairs, j), i, need - 1, true, 0)
    case Ends => any
    case Wrong => wrong + 1 < MAX_REPEATS && Fate(Used(pairs, j), i, need, any, wrong + 1)
  }

  /** The first pair that speaks decides, or passes on to the rest. */
  lemma {:induction false} FateFirst(pairs: seq<Pair>, i: nat, need: nat, any: bool, wrong: nat)
    requires i <= |pairs|
    ensures match FindPair(pairs, ENABLE_NAME, i)
      case None => Fate(pairs, i, need, any, wrong) == (need >= if any then 1 else 2)
      case Some(j) => j < |pairs| && Fate(pairs, i, need, any, wrong) == FateOf(pairs, j, i, need, any, wrong)
    decreases |pairs| - i
  {
    hide Speech;
    if i < |pairs| {
      if IsEnablePair(pairs[i]) {
        if need > 1 { FateSame(pairs, i + 1, i, need - 1, true, 0); }
        FateSame(pairs, i + 1, i, need, any, wrong + 1);
      } else {
        FateFirst(pairs, i + 1, need, any, wrong);
      }
    }
  }

  /** Without a yes so far, one that is enough spoils nothing. */
  lemma {:induction false} FateNeedsTwo(pairs: seq<Pair>, i: nat, wrong: nat)
    requires i <= |pairs|
    ensures !Fate(pairs, i, 1, false, wrong)
    decreases |pairs| - i
  {
    if i < |pairs| {
      FateNeedsTwo(pairs, i + 1, wrong);
      FateNeedsTwo(pairs, i + 1, wrong + 1);
    }
  }

  /** Some pair says yes. */
  ghost predicate YesAmong(pairs: seq<Pair>) {
    exists k :: 0 <= k < |pairs| && IsEnablePair(pairs[k]) && Speech(pairs[k]).Yes?
  }

  /** Answers that spoil what can be spoiled. */
  ghost function Spoilers(pairs: seq<Pair>, any: bool): seq<string> {
    if any || YesAmong(pairs) then ["n"] else ["y", "n"]
  }

  lemma SpoilersUsed(pairs: seq<Pair>, j: nat, any: bool)
    requires j < |pairs|
    requires pairs[j].name == Some(ENABLE_NAME) && Speech(pairs[j]).Yes? ==> any
    ensures Spoilers(Used(pairs, j), any) == Spoilers(pairs, any)
  {
    var p := Used(pairs, j);
    hide Speech;
    if YesAmong(pairs) && !any {
      var k :| 0 <= k < |pairs| && IsEnablePair(pairs[k]) && Speech(pairs[k]).Yes?;
      assert p[k] == pairs[k];
    }
    if YesAmong(p) {
      var k :| 0 <= k < |p| && IsEnablePair(p[k]) && Speech(p[k]).Yes?;
      assert p[k] == pairs[k];
    }
  }

  /** What the "enable" node hears, from a pair, its flag or the user. */
  ghost predicate Hears(w: World, w1: World, rc: int)
    requires ENABLE in w.nodes && ENABLE in w1.nodes
  {
    FindPairInRange(w.pairs, ENABLE_NAME, 0);
    var f, flagged := FindPair(w.pairs, ENABLE_NAME, 0), w.nodes[ENABLE].flags.parameterSet;
    var node := w1.nodes[ENABLE];
    if f.Some? then
      && rc == 0 && w1.pairs == Used(w.pairs, f.value) && w1.answers == w.answers
      && w.pairs[f.value].name == Some(ENABLE_NAME)
      && (node.flags.parameterSet <==> flagged || Speech(w.pairs[f.value]).Always?)
      && (HasValue(w.pairs[f.value]) ==> node.val == w.pairs[f.value].value)
    else if flagged then rc == 0 && w1.pairs == w.pairs && w1.answers == w.answers && node.flags.parameterSet
    else if w.answers == [] then rc != 0
    else
      && rc == 0 && w1.pairs == w.pairs && w1.answers == w.answers[1..] && !node.flags.parameterSet
      && node.val == Some(if w.answers[0] == "" then "n" else w.answers[0])
  }

  lemma EnableHears(w: World)
    requires AtEnable(w)
    ensures ENABLE in w.nodes && ENABLE in PlainValue(w, ENABLE, ENABLE_NAME).0.nodes
    ensures Hears(w, PlainValue(w, ENABLE, ENABLE_NAME).0, PlainValue(w, ENABLE, ENABLE_NAME).1)
  {
    FindPairInRange(w.pairs, ENABLE_NAME, 0);
    FindPairIsFirst(w.pairs, ENABLE_NAME, 0);
    hide FindPair, FirstSig, Setting;
  }

  /** One iteration at the "enable" node, counted. */
  lemma AfterEnable(w: World, k: nat)
    requires Sane(FilenameCallbacks()) && AtEnable(w) && Closed(w.nodes) && ENABLE in w.nodes && k > 0
    ensures var o := Step(FilenameCallbacks(), w, ENABLE);
      if o.Stopped? then RunFor(FilenameCallbacks(), w, ENABLE, k) == o && Yeses(w, ENABLE, k) == 0
      else
        && RunFor(FilenameCallbacks(), w, ENABLE, k) == RunFor(FilenameCallbacks(), o.w, o.at, k - 1)
        && Yeses(w, ENABLE, k) == (if o.at == FNEK then 1 else 0) + Yeses(o.w, o.at, k - 1)
  {
    hide Step, RunFor, Yeses, AllocAndGetVal, AtEnable;
    YesLeadsBack(w);
    RunForStep(FilenameCallbacks(), w, ENABLE, k);
    YesesStep(w, ENABLE, k);
  }

  /** One iteration at the signature node, counted. */
  lemma AfterFnek(w: World, k: nat)
    requires Sane(FilenameCallbacks()) && Closed(w.nodes) && FNEK in w.nodes && k > 0
    ensures var o := Step(FilenameCallbacks(), w, FNEK);
      o.Running? ==>
        && RunFor(FilenameCallbacks(), w, FNEK, k) == RunFor(FilenameCallbacks(), o.w, o.at, k - 1)
        && Yeses(w, FNEK, k) == Yeses(o.w, o.at, k - 1)
  {
    hide Step, RunFor, Yeses, AllocAndGetVal;
    RunForStep(FilenameCallbacks(), w, FNEK, k);
    YesesStep(w, FNEK, k);
  }

  /** The end node is reached after `k` iterations or fewer. */
  lemma EndYeses(o: Outcome, stack: seq<string>, k: nat)
    requires Sane(FilenameCallbacks()) && AtEnd(o, stack) && k > 0
    ensures var e := RunFor(FilenameCallbacks(), o.w, END, k);
      e.Stopped? && e.rc == NULL_TOK && e.w.stack == stack && Yeses(o.w, END, k) == 0
  {
    EndRuns(o, stack, k);
    EndStops(o.w);
    hide Step, RunFor, Yeses;
    YesesStep(o.w, END, k);
  }

  /** A mount with a yes given, here or before, and nothing pushed. */
  ghost predicate Spoiled(w: World, any: bool, e: Outcome, yeses: nat) {
    e.Stopped? && Succeeds(e.rc) && e.w.stack == w.stack && (any || yeses > 0)
  }

  /** The state on which the two lemmas below go round: at the "enable" node. */
  ghost predicate Asking(w: World, k: nat) {
    AtEnable(w) && k >= Needed(w, Enabling) && Closed(w.nodes) && ENABLE in w.nodes
  }

  function WrongSoFar(w: World): nat { Enter(w, ENABLE).repeated }

  ghost predicate CanSpoil(w: World, any: bool)
    requires ENABLE in w.nodes
  {
    !w.nodes[ENABLE].flags.parameterSet && Fate(w.pairs, 0, Lead(w.pairs, 0) + 1, any, WrongSoFar(w))
  }

  /** After a yes with a bare request still in front, the evaluation is back at the
      "enable" node with one bare request less. */
  ghost predicate BackAgain(w1: World, o: Outcome, o2: Outcome) {
    && o2.Running? && o2.at == ENABLE && AtEnable(o2.w) && o2.w.stack == o.w.stack
    && Lead(o2.w.pairs, 0) == Lead(o.w.pairs, 0) - 1 && WrongSoFar(o2.w) == 0
    && o2.w.answers == w1.answers && ENABLE in o2.w.nodes && ENABLE in w1.nodes
    && o2.w.nodes[ENABLE].flags == w1.nodes[ENABLE].flags
    && exists j :: 0 <= j < |w1.pairs| && w1.pairs[j].name == Some(FNEK_NAME) && o2.w.pairs == Used(w1.pairs, j)
  }

  lemma YesGoesOn(w1: World, o: Outcome)
    requires Sane(FilenameCallbacks()) && o.Running? && AtFnek(o.w, false) && KeepsInput(w1, o.w)
    requires Lead(o.w.pairs, 0) > 0
    ensures Closed(o.w.nodes) && FNEK in o.w.nodes && BackAgain(w1, o, Step(FilenameCallbacks(), o.w, FNEK))
  {
    FnekStep(o.w, false);
    LeadFirst(o.w.pairs, 0);
    FindPairIsFirst(o.w.pairs, FNEK_NAME, 0);
    hide Step, AtEnable, Lead, FindPair;
    var j := FindPair(o.w.pairs, FNEK_NAME, 0);
    assert o.w.pairs[j.value].name == Some(FNEK_NAME);
  }

  /** What BackAgain means for the fate. */
  lemma FateAgain(w1: World, o: Outcome, o2: Outcome)
    requires BackAgain(w1, o, o2) && o.Running? && Lead(o.w.pairs, 0) > 0
    ensures CanSpoil(o2.w, true) <==>
      !w1.nodes[ENABLE].flags.parameterSet && Fate(w1.pairs, 0, Lead(o.w.pairs, 0), true, 0)
    ensures Spoilers(o2.w.pairs, true) == ["n"]
  {
    hide AtEnable, Lead;
    var j :| 0 <= j < |w1.pairs| && w1.pairs[j].name == Some(FNEK_NAME) && o2.w.pairs == Used(w1.pairs, j);
    FateSame(w1.pairs, 0, j, Lead(o.w.pairs, 0), true, 0);
  }

  predicate EndsIt(node: ParamNode) {
    !SaysYes(node) && (IsYes(node.val, 0) == 0 || node.val == Some("default"))
  }

  /** What cannot be spoiled cannot be spoiled after the fetch either. */
  lemma StaysSafe(w: World, w1: World, any: bool)
    requires ENABLE in w.nodes && ENABLE in w1.nodes && Hears(w, w1, 0) && !CanSpoil(w, any)
    ensures var node, lead := w1.nodes[ENABLE], Lead(w.pairs, 0);
      && (SaysYes(node) && lead > 0 ==> node.flags.parameterSet || !Fate(w1.pairs, 0, lead, true, 0))
      && (EndsIt(node) ==> !any)
      && (!SaysYes(node) && !EndsIt(node) && WrongSoFar(w) + 1 < MAX_REPEATS ==>
            !Fate(w1.pairs, 0, lead + 1, any, WrongSoFar(w) + 1))
  {
    FateFirst(w.pairs, 0, Lead(w.pairs, 0) + 1, any, WrongSoFar(w));
    FateFirst(w.pairs, 0, Lead(w.pairs, 0) + 1, any, WrongSoFar(w) + 1);
    hide Fate, FindPair, Lead;
  }

  /** What can be spoiled, with the spoilers as answers, is spoiled or can still be. */
  lemma StaysSpoilable(w: World, w1: World, rc: int, any: bool)
    requires ENABLE in w.nodes && ENABLE in w1.nodes && Hears(w, w1, rc) && CanSpoil(w, any)
    requires w.answers == Spoilers(w.pairs, any)
    ensures var node, lead := w1.nodes[ENABLE], Lead(w.pairs, 0);
      && rc == 0 && !node.flags.parameterSet
      && (SaysYes(node) ==> lead > 0 && Fate(w1.pairs, 0, lead, true, 0) && w1.answers == ["n"])
      && (EndsIt(node) ==> any)
      && (!SaysYes(node) && !EndsIt(node) ==>
            && WrongSoFar(w) + 1 < MAX_REPEATS && Fate(w1.pairs, 0, lead + 1, any, WrongSoFar(w) + 1)
            && w1.answers == Spoilers(w1.pairs, any))
  {
    var lead := Lead(w.pairs, 0);
    FateFirst(w.pairs, 0, lead + 1, any, WrongSoFar(w));
    FindPairIsFirst(w.pairs, ENABLE_NAME, 0);
    var f := FindPair(w.pairs, ENABLE_NAME, 0);
    if f.Some? {
      assert IsEnablePair(w.pairs[f.value]);
      if Speech(w.pairs[f.value]).Wrong? { SpoilersUsed(w.pairs, f.value, any); }
    } else {
      NoneSaysYes(w.pairs);
      if lead > 0 { FateFirst(w.pairs, 0, lead, true, 0); }
    }
    hide Fate, FindPair, Lead;
  }

  lemma NoneSaysYes(pairs: seq<Pair>)
    requires FindPair(pairs, ENABLE_NAME, 0).None?
    ensures !YesAmong(pairs)
  {
    FindPairIsFirst(pairs, ENABLE_NAME, 0);
    if YesAmong(pairs) {
      var k :| 0 <= k < |pairs| && IsEnablePair(pairs[k]) && Speech(pairs[k]).Yes?;
      assert Offers(pairs, k, ENABLE_NAME);
    }
  }

  /** A yes with no bare request left: a mount has a signature pushed. */
  lemma LastYesPushes(w: World, o: Outcome, any: bool, k: nat)
    requires Sane(FilenameCallbacks()) && o.Running? && AtFnek(o.w, false) && o.w.stack == w.stack
    requires Lead(o.w.pairs, 0) == 0 && k >= Needed(o.w, Again) && Closed(o.w.nodes) && FNEK in o.w.nodes
    ensures !Spoiled(w, any, RunFor(FilenameCallbacks(), o.w, FNEK, k), 1 + Yeses(o.w, FNEK, k))
  {
    hide Step, RunFor, Visits, Yeses, AtFnek, Lead;
    StageRuns(o.w, Again, k);
    var e := RunFor(FilenameCallbacks(), o.w, FNEK, k);
    if e.Stopped? && Succeeds(e.rc) {
      StackLonger(o.w, e);
    }
  }

  /** Back at the "enable" node with one bare request less, two iterations later. */
  lemma AskingAgain(w: World, w2: World, k: nat)
    requires k >= Needed(w, Enabling) && AtEnable(w2) && WrongSoFar(w2) == 0
    requires Lead(w2.pairs, 0) == Lead(w.pairs, 0) - 1
    ensures k >= 2 && Asking(w2, k - 2)
  {
    hide Lead, FirstSig;
  }

  /** Whatever the answers: what cannot be spoiled is not. */
  lemma {:induction false} NeverSpoiled(w: World, any: bool, k: nat)
    requires Sane(FilenameCallbacks()) && Asking(w, k) && !CanSpoil(w, any)
    ensures !Spoiled(w, any, RunFor(FilenameCallbacks(), w, ENABLE, k), Yeses(w, ENABLE, k))
    decreases k
  {
    hide Step, RunFor, Yeses, AtFnek, AtEnable, Lead, Fate, PlainValue, Hears, CanSpoil;
    var o := Step(FilenameCallbacks(), w, ENABLE);
    EnableStep(w);
    EnableHears(w);
    AfterEnable(w, k);
    var (w1, rc) := PlainValue(w, ENABLE, ENABLE_NAME);
    if rc == 0 && o.Running? {
      StaysSafe(w, w1, any);
      if o.at == FNEK {
        if Lead(o.w.pairs, 0) == 0 {
          LastYesPushes(w, o, any, k - 1);
        } else {
          YesGoesOn(w1, o);
          var o2 := Step(FilenameCallbacks(), o.w, FNEK);
          FateAgain(w1, o, o2);
          AskingAgain(w, o2.w, k);
          AfterFnek(o.w, k - 1);
          NeverSpoiled(o2.w, true, k - 2);
        }
      } else if o.at == END {
        EndYeses(o, w.stack, k - 1);
      } else {
        SafeAgain(w, w1, o, any, k);
        NeverSpoiled(o.w, any, k - 1);
      }
    } else if rc == 0 {
      StaysSafe(w, w1, any);
    }
  }

  /** A wrong value: the question is asked again. */
  lemma SafeAgain(w: World, w1: World, o: Outcome, any: bool, k: nat)
    requires Asking(w, k) && EnableOutcome(w, w1, o) && o.Running? && o.at == ENABLE && Closed(o.w.nodes)
    ensures Asking(o.w, k - 1) && WrongSoFar(o.w) == WrongSoFar(w) + 1 < MAX_REPEATS
    ensures CanSpoil(o.w, any) <==>
      !w1.nodes[ENABLE].flags.parameterSet && Fate(w1.pairs, 0, Lead(w.pairs, 0) + 1, any, WrongSoFar(w) + 1)
    ensures o.w.answers == w1.answers && o.w.pairs == w1.pairs && o.w.stack == w.stack
  {
    hide AtFnek, Lead, Fate;
  }

  /** With the spoilers as answers, what can be spoiled is. */
  lemma {:induction false} SpoiledByAnswers(w: World, any: bool, k: nat)
    requires Sane(FilenameCallbacks()) && Asking(w, k) && CanSpoil(w, any) && w.answers == Spoilers(w.pairs, any)
    ensures Spoiled(w, any, RunFor(FilenameCallbacks(), w, ENABLE, k), Yeses(w, ENABLE, k))
    decreases k
  {
    hide Step, RunFor, Yeses, AtFnek, AtEnable, Lead, Fate, PlainValue, Hears, CanSpoil, Spoilers;
    var o := Step(FilenameCallbacks(), w, ENABLE);
    EnableStep(w);
    EnableHears(w);
    AfterEnable(w, k);
    var (w1, rc) := PlainValue(w, ENABLE, ENABLE_NAME);
    StaysSpoilable(w, w1, rc, any);
    if o.Running? {
      if o.at == FNEK {
        YesGoesOn(w1, o);
        var o2 := Step(FilenameCallbacks(), o.w, FNEK);
        FateAgain(w1, o, o2);
        AskingAgain(w, o2.w, k);
        AfterFnek(o.w, k - 1);
        SpoiledByAnswers(o2.w, true, k - 2);
      } else if o.at == END {
        EndYeses(o, w.stack, k - 1);
      } else {
        SafeAgain(w, w1, o, any, k);
        SpoiledByAnswers(o.w, any, k - 1);
      }
    }
  }

  /** The first iteration of an evaluation without a supplied signature. */
  lemma FirstToEnable(w: World, k: nat)
    requires Sane(FilenameCallbacks()) && AtFnek(w, true) && Closed(w.nodes) && FNEK in w.nodes && ENABLE in w.nodes
    requires !SignatureSupplied(w) && k >= 8 + 6 * Lead(w.pairs, 0)
    ensures var o := Step(FilenameCallbacks(), w, FNEK);
      && o.Running? && o.at == ENABLE && Asking(o.w, k - 1) && o.w.stack == w.stack && o.w.answers == w.answers
      && RunFor(FilenameCallbacks(), w, FNEK, k) == RunFor(FilenameCallbacks(), o.w, ENABLE, k - 1)
      && Yeses(w, FNEK, k) == Yeses(o.w, ENABLE, k - 1)
      && (CanSpoil(o.w, false) <==>
            !w.nodes[ENABLE].flags.parameterSet && Fate(w.pairs, 0, Max(1, Lead(w.pairs, 0)), false, 0))
      && Spoilers(o.w.pairs, false) == Spoilers(w.pairs, false)
  {
    hide Step, RunFor, Yeses, AtFnek, AtEnable, Lead, Fate, FindPair, Spoilers, Sane, Closed;
    FnekStep(w, true);
    LeadFirst(w.pairs, 0);
    FindPairIsFirst(w.pairs, FNEK_NAME, 0);
    AfterFnek(w, k);
    var f := FindPair(w.pairs, FNEK_NAME, 0);
    if f.Some? {
      assert w.pairs[f.value].name == Some(FNEK_NAME);
      FateSame(w.pairs, 0, f.value, Max(1, Lead(w.pairs, 0)), false, 0);
      SpoilersUsed(w.pairs, f.value, false);
    }
  }

  /** A mount has a signature pushed exactly if one was supplied or the question
      got a yes. */
  ghost predicate HonouredFor(w: World)
    requires Sane(FilenameCallbacks()) && Closed(w.nodes) && FNEK in w.nodes
  {
    var k := 8 + 6 * Lead(w.pairs, 0);
    var e := RunFor(FilenameCallbacks(), w, FNEK, k);
    e.Stopped? && Succeeds(e.rc) ==> (PushedOne(w, e) <==> SignatureSupplied(w) || Yeses(w, FNEK, k) > 0)
  }

  /** Whatever the user types. */
  ghost predicate YesIsHonoured(w: World)
    requires Sane(FilenameCallbacks()) && Closed(w.nodes) && FNEK in w.nodes
  {
    forall answers: seq<string> :: "NULL" !in answers ==> HonouredFor(w.(answers := answers))
  }

  /** For given answers, that is so unless the mount is spoiled. */
  lemma HonouredUnlessSpoiled(w: World)
    requires Sane(FilenameCallbacks()) && AtFnek(w, true) && Closed(w.nodes) && FNEK in w.nodes
    ensures var k := 8 + 6 * Lead(w.pairs, 0);
      HonouredFor(w) <==>
        SignatureSupplied(w) || !Spoiled(w, false, RunFor(FilenameCallbacks(), w, FNEK, k), Yeses(w, FNEK, k))
  {
    hide Step, RunFor, Visits, Yeses, SignatureSupplied, Lead, AtFnek;
    var k := 8 + 6 * Lead(w.pairs, 0);
    FilenameCryptoSettles(w, k);
    var e := RunFor(FilenameCallbacks(), w, FNEK, k);
    if PushedOne(w, e) {
      StackLonger(w, e);
    }
  }

  /** Bare requests lead to a mount that a yes was given for but that has no
      signature if and only if the pairs' fate says so. */
  lemma YesIsHonouredIff(w: World)
    requires Sane(FilenameCallbacks()) && AtFnek(w, true) && Closed(w.nodes) && FNEK in w.nodes && ENABLE in w.nodes
    ensures YesIsHonoured(w) <==>
      w.nodes[ENABLE].flags.parameterSet || !Fate(w.pairs, 0, Max(1, Lead(w.pairs, 0)), false, 0)
  {
    hide Step, RunFor, Yeses, SignatureSupplied, Lead, Fate, AtFnek, HonouredFor, CanSpoil, Spoilers, Spoiled, Asking;
    if w.nodes[ENABLE].flags.parameterSet || !Fate(w.pairs, 0, Max(1, Lead(w.pairs, 0)), false, 0) {
      forall answers: seq<string> | "NULL" !in answers
        ensures HonouredFor(w.(answers := answers))
      {
        SafeMeansHonoured(w, answers);
      }
    } else {
      SpoilersDoIt(w);
    }
  }

  lemma SafeMeansHonoured(w: World, answers: seq<string>)
    requires Sane(FilenameCallbacks()) && AtFnek(w, true) && Closed(w.nodes) && FNEK in w.nodes && ENABLE in w.nodes
    requires w.nodes[ENABLE].flags.parameterSet || !Fate(w.pairs, 0, Max(1, Lead(w.pairs, 0)), false, 0)
    requires "NULL" !in answers
    ensures HonouredFor(w.(answers := answers))
  {
    hide Step, RunFor, Yeses, Lead, Fate, AtFnek, HonouredFor, CanSpoil, Spoilers, Asking, Sane, Closed, FindPair;
    var w' := w.(answers := answers);
    AtFnekAnswers(w, answers);
    HonouredUnlessSpoiled(w');
    if !SignatureSupplied(w') {
      var k := 8 + 6 * Lead(w'.pairs, 0);
      FirstToEnable(w', k);
      NeverSpoiled(Step(FilenameCallbacks(), w', FNEK).w, false, k - 1);
    }
  }

  lemma SpoilersDoIt(w: World)
    requires Sane(FilenameCallbacks()) && AtFnek(w, true) && Closed(w.nodes) && FNEK in w.nodes && ENABLE in w.nodes
    requires !w.nodes[ENABLE].flags.parameterSet && Fate(w.pairs, 0, Max(1, Lead(w.pairs, 0)), false, 0)
    ensures var answers := Spoilers(w.pairs, false);
      "NULL" !in answers && !HonouredFor(w.(answers := answers)) && !SignatureSupplied(w)
  {
    hide Step, RunFor, Yeses, Lead, Fate, AtFnek, HonouredFor, CanSpoil, Spoilers, Asking, Sane, Closed, FindPair;
    var answers := Spoilers(w.pairs, false);
    SpoilersAreClean(w.pairs);
    var w' := w.(answers := answers);
    AtFnekAnswers(w, answers);
    if SignatureSupplied(w) {
      SuppliedNeedsNothing(w);
    }
    HonouredUnlessSpoiled(w');
    var k := 8 + 6 * Lead(w'.pairs, 0);
    FirstToEnable(w', k);
    SpoiledByAnswers(Step(FilenameCallbacks(), w', FNEK).w, false, k - 1);
  }

  lemma SpoilersAreClean(pairs: seq<Pair>)
    ensures "NULL" !in Spoilers(pairs, false)
  {
  }

  lemma AtFnekAnswers(w: World, answers: seq<string>)
    requires AtFnek(w, true) && "NULL" !in answers
    ensures AtFnek(w.(answers := answers), true)
  {
    hide FirstSig;
  }

  lemma SuppliedNeedsNothing(w: World)
    requires SignatureSupplied(w) || Lead(w.pairs, 0) <= 1
    ensures !Fate(w.pairs, 0, Max(1, Lead(w.pairs, 0)), false, 0)
  {
    LeadFirst(w.pairs, 0);
    FateNeedsTwo(w.pairs, 0, 0);
    hide Fate, Lead;
  }

  /** With nothing set for the "enable" node, two leading bare requests are enough:
      the answers yes and no then mount without a signature. */
  lemma YesThenNo(w: World)
    requires Sane(FilenameCallbacks()) && AtFnek(w, true) && EnableUnset(w) && Closed(w.nodes) && FNEK in w.nodes
    ensures YesIsHonoured(w) <==> Lead(w.pairs, 0) <= 1
    ensures Lead(w.pairs, 0) >= 2 ==> !HonouredFor(w.(answers := ["y", "n"]))
  {
    FateFirst(w.pairs, 0, Max(1, Lead(w.pairs, 0)), false, 0);
    NoneSaysYes(w.pairs);
    hide Fate, Lead, HonouredFor, AtFnek, YesIsHonoured, SignatureSupplied;
    YesIsHonouredIff(w);
    if Lead(w.pairs, 0) >= 2 {
      SpoilersDoIt(w);
    }
  }

  /* ---- why no pair may be called "default" ---- */

  /** The signature node with a value to push. */
  ghost predicate Loaded(w: World, v: string) {
    && Closed(w.nodes) && HasPair(w) && END in w.nodes && w.nodes[FNEK].tl == Branch(END, FnekSig)
    && w.nodes[FNEK].val == Some(v) && v != "NULL"
  }

  lemma {:induction false} PushPerDefault(w: World, v: string, j: nat)
    requires Sane(FilenameCallbacks()) && Loaded(w, v) && j <= |w.pairs|
    ensures ScanPairs(FilenameCallbacks(), w, FNEK, 0, j)
         == Undecided(w.(stack := Copies(FNEK_PREFIX + v, Defaults(w.pairs, j)) + w.stack))
    decreases |w.pairs| - j
  {
    var x := FNEK_PREFIX + v;
    if j == |w.pairs| {
      assert w.stack == Copies(x, 0) + w.stack;
    } else if w.pairs[j].name == Some("default") {
      var w1 := w.(stack := [x] + w.stack);
      PushPerDefault(w1, v, j + 1);
      var d := Defaults(w.pairs, j + 1);
      assert Copies(x, d) + ([x] + w.stack) == Copies(x, d + 1) + w.stack;
    } else {
      PushPerDefault(w, v, j + 1);
    }
  }

  /** Every pair called "default" makes do_transition run the callback once more,
      unless that word is the signature: it is pushed exactly once if and only if
      there is no such pair or it is that word. */
  lemma PushedOncePerDefaultPair(w: World, v: string)
    requires Sane(FilenameCallbacks()) && Loaded(w, v)
    ensures var d := Defaults(w.pairs, 0);
      var m := DoTransition(FilenameCallbacks(), w, FNEK);
      && m.rc == 0 && m.next == Some(END)
      && m.w.stack == Copies(FNEK_PREFIX + v, if v == "default" then 1 else d + 1) + w.stack
      && (m.w.stack == [FNEK_PREFIX + v] + w.stack <==> d == 0 || v == "default")
  {
    hide DoTransition, ScanPairs, TakeDefault, Copies, Defaults, Sane;
    var x, d := FNEK_PREFIX + v, Defaults(w.pairs, 0);
    CopiesLength(x, d + 1);
    CopiesLength(x, 1);
    if v == "default" {
      PushedByValue(w, v);
    } else {
      var w0 := Enter(w, FNEK);
      var w1 := w0.(stack := Copies(x, d) + w.stack);
      PushPerDefault(w0, v, 0);
      SoleDefaultScan(FilenameCallbacks(), w, FNEK);
      PushedAsDefault(w1, v);
      CopiesFront(x, d);
      assert [x] + (Copies(x, d) + w.stack) == Copies(x, d + 1) + w.stack;
      assert |Copies(x, d + 1) + w.stack| == d + 1 + |w.stack|;
    }
  }

  lemma PushedByValue(w: World, v: string)
    requires Sane(FilenameCallbacks()) && Loaded(w, v) && v == "default"
    ensures var m := DoTransition(FilenameCallbacks(), w, FNEK);
      m.rc == 0 && m.next == Some(END) && m.w.stack == [FNEK_PREFIX + v] + w.stack
  {
    ValueDecidesBranch(FilenameCallbacks(), w, FNEK, 0);
    hide DoTransition;
  }

  lemma PushedAsDefault(w: World, v: string)
    requires Sane(FilenameCallbacks()) && Loaded(w, v)
    ensures var m := TakeDefault(FilenameCallbacks(), w, FNEK, 0);
      m.rc == 0 && m.next == Some(END) && m.w.stack == [FNEK_PREFIX + v] + w.stack
  {
  }

  lemma {:induction false} CopiesLength(x: string, d: nat)
    ensures |Copies(x, d)| == d && (d == 1 ==> Copies(x, d) == [x])
  {
    if d > 0 { CopiesLength(x, d - 1); }
  }
}
