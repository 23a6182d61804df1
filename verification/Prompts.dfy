/** When a node asks for its value, what an answer typed at a menu selects, where
    the evaluation then goes, and when a value that is required or must be verified
    is accepted (src/libecryptfs/decision_graph.c). */
module Prompts {
  import opened Common
  import opened DecisionGraph
  import opened DecisionGraphRuns

  /** Every branch has a value, and no two have the same. */
  ghost predicate ValuedMenu(node: ParamNode) {
    && (forall k :: 0 <= k < |node.tl| ==> node.tl[k].val.Some?)
    && (forall k, l :: 0 <= k < l < |node.tl| ==> node.tl[k].val != node.tl[l].val)
  }

  /** Some branch is called v. */
  ghost predicate NamesBranch(node: ParamNode, v: string) {
    exists k :: 0 <= k < |node.tl| && node.tl[k].val == Some(v)
  }

  /** The text is the number of a branch, counted from one. */
  predicate NumbersBranch(node: ParamNode, a: string) { 1 <= Atoi(a) <= |node.tl| }

  /** The world with one line used up and v as the value of node n. */
  function Left(w: World, n: NodeId, v: string): World
    requires n in w.nodes && w.answers != []
  {
    w.(answers := w.answers[1..], nodes := w.nodes[n := w.nodes[n].(val := Some(v))])
  }

  lemma {:induction false} CheckMenuIs(node: ParamNode, v: string, i: nat)
    requires i <= |node.tl| && forall k :: 0 <= k < |node.tl| ==> node.tl[k].val.Some?
    ensures CheckMenu(node.tl, v, i) == Valid <==> exists k :: i <= k < |node.tl| && node.tl[k].val == Some(v)
    ensures CheckMenu(node.tl, v, i) != Crash
    decreases |node.tl| - i
  {
    if i < |node.tl| { CheckMenuIs(node, v, i + 1); }
  }

  /* ---- one line ---- */

  lemma NumberReply(node: ParamNode, k: nat)
    requires ValuedMenu(node) && 1 <= k <= |node.tl|
    ensures MenuReply(node, Decimal(k)) == (node.tl[k - 1].val.value, Valid)
  {
    assert Decimal(k) + "" == Decimal(k);
    AtoiDecimal(k, "");
    hide ScanInt, Decimal;
  }

  lemma TextReply(node: ParamNode, a: string)
    requires ValuedMenu(node) && !NumbersBranch(node, a)
    ensures var (v, check) := MenuReply(node, a);
      && check == (if a != "" then if NamesBranch(node, a) then Valid else Invalid
                   else if node.suggestedVal.Some? && NamesBranch(node, node.suggestedVal.value) then Valid
                   else Invalid)
      && v == if a != "" then a else node.suggestedVal.GetOr("")
  {
    CheckMenuIs(node, a, 0);
    if node.suggestedVal.Some? { CheckMenuIs(node, node.suggestedVal.value, 0); }
    hide Atoi, CheckMenu;
  }

  /** A number picks the branch of that number. */
  lemma NumberPicks(w: World, n: NodeId, k: nat)
    requires n in w.nodes && ValuedMenu(w.nodes[n]) && 1 <= k <= |w.nodes[n].tl|
    requires w.answers != [] && w.answers[0] == Decimal(k)
    ensures AskMenu(w, n) == (Left(w, n, w.nodes[n].tl[k - 1].val.value), 0)
  {
    hide AskMenu, MenuReply, Decimal, ValuedMenu;
    AskMenuStep(w, n);
    NumberReply(w.nodes[n], k);
  }

  /** A line that is no such number and the name of a branch picks it. */
  lemma NamePicks(w: World, n: NodeId, a: string)
    requires n in w.nodes && ValuedMenu(w.nodes[n]) && w.answers != [] && w.answers[0] == a != ""
    requires !NumbersBranch(w.nodes[n], a) && NamesBranch(w.nodes[n], a)
    ensures AskMenu(w, n) == (Left(w, n, a), 0)
  {
    hide AskMenu, MenuReply, ValuedMenu, NamesBranch, Atoi;
    AskMenuStep(w, n);
    TextReply(w.nodes[n], a);
  }

  /** An empty line picks the suggested branch. */
  lemma EmptyPicks(w: World, n: NodeId, s: string)
    requires n in w.nodes && ValuedMenu(w.nodes[n]) && w.answers != [] && w.answers[0] == ""
    requires w.nodes[n].suggestedVal == Some(s) && NamesBranch(w.nodes[n], s)
    ensures AskMenu(w, n) == (Left(w, n, s), 0)
  {
    NoNumber("");
    hide AskMenu, MenuReply, ValuedMenu, NamesBranch, Atoi;
    AskMenuStep(w, n);
    TextReply(w.nodes[n], "");
  }

  /** A line that selects nothing. */
  ghost predicate Rejected(node: ParamNode, a: string) {
    && !NumbersBranch(node, a)
    && if a != "" then !NamesBranch(node, a)
       else node.suggestedVal.None? || !NamesBranch(node, node.suggestedVal.value)
  }

  /** Any other line is asked for again. */
  lemma OtherIsAskedAgain(w: World, n: NodeId)
    requires n in w.nodes && ValuedMenu(w.nodes[n]) && w.answers != [] && Rejected(w.nodes[n], w.answers[0])
    ensures AskMenu(w, n) == AskMenu(w.(answers := w.answers[1..]), n)
  {
    hide AskMenu, MenuReply, ValuedMenu, NamesBranch, Atoi;
    var node, a := w.nodes[n], w.answers[0];
    AskMenuStep(w, n);
    TextReply(node, a);
    ValueIsReplaced(w.(answers := w.answers[1..]), n, Some(MenuReply(node, a).0));
  }

  /** The node's value before the question does not matter. */
  lemma {:induction false} ValueIsReplaced(w: World, n: NodeId, v: Option<string>)
    requires n in w.nodes
    ensures AskMenu(SetVal(w, n, v), n) == AskMenu(w, n)
    decreases |w.answers|
  {
    hide AskMenu, Fetched;
    var w' := SetVal(w, n, v);
    AskMenuStep(w, n);
    AskMenuStep(w', n);
    if w.answers == [] {
      assert Typed(w', n, 0, None) == Typed(w, n, 0, None);
    } else {
      var a, rest := w.answers[0], w.(answers := w.answers[1..]);
      assert MenuReply(w'.nodes[n], a) == MenuReply(w.nodes[n], a);
      hide MenuReply;
      var r := MenuReply(w.nodes[n], a).0;
      assert SetVal(w'.(answers := w.answers[1..]), n, Some(r)) == SetVal(rest, n, Some(r));
    }
  }

  /** However many lines are rejected first, the next one decides. */
  lemma {:induction false} RejectedLinesDoNotMatter(w: World, n: NodeId, j: nat)
    requires n in w.nodes && ValuedMenu(w.nodes[n]) && j <= |w.answers|
    requires forall i :: 0 <= i < j ==> Rejected(w.nodes[n], w.answers[i])
    ensures AskMenu(w, n) == AskMenu(w.(answers := w.answers[j..]), n)
    decreases j
  {
    hide AskMenu, Rejected, ValuedMenu;
    if j == 0 {
      assert w.answers[0..] == w.answers;
    } else {
      var rest := w.(answers := w.answers[1..]);
      OtherIsAskedAgain(w, n);
      assert rest.answers[j - 1..] == w.answers[j..];
      RejectedLinesDoNotMatter(rest, n, j - 1);
    }
  }

  /* ---- the iteration ---- */

  /** No value, pair or default spares the node its question. */
  ghost predicate Unset(w: World, n: NodeId)
    requires n in w.nodes
  {
    var node := w.nodes[n];
    && node.val.None? && ChoosePair(w.pairs, node.names, |node.names|).None? && !HasDefault(node)
    && (!node.flags.allowImplicit || node.flags.noAutoTransition)
  }

  /** The node is a menu whose question is put to the user. */
  ghost predicate IsAsked(w: World, n: NodeId)
    requires n in w.nodes
  {
    var node := w.nodes[n];
    && Unset(w, n)
    && !node.flags.noValue && w.canPrompt && node.flags.displayVals
    && (node.flags.stdinRequired || (w.verbosity != 0 && !node.flags.parameterSet))
    && (|node.tl| != 1 || node.flags.forceDisplay)
  }

  lemma AskedMenu(w: World, n: NodeId)
    requires n in w.nodes && Closed(w.nodes) && IsAsked(w, n)
    ensures AllocAndGetVal(w, n) == AskMenu(w, n)
  {
    var node := w.nodes[n];
    hide AskMenu, ChoosePair, Fetched, Closed, AskPlain;
    assert RetrieveVal(w, n) == (w, false);
    hide RetrieveVal;
  }

  /** What the step does once the value is that of branch b. */
  lemma ValueLeads(cb: Callbacks, w: World, n: NodeId, b: nat)
    requires Sane(cb) && n in w.nodes && Closed(w.nodes) && IsAsked(w, n) && ValuedMenu(w.nodes[n])
    requires b < |w.nodes[n].tl| && w.answers != [] && NoEarlierName(w, n, b)
    requires AskMenu(w, n) == (Left(w, n, w.nodes[n].tl[b].val.value), 0)
    ensures var w1 := Left(w, n, w.nodes[n].tl[b].val.value);
      && Closed(w1.nodes) && DoTransition(cb, w1, n) == TakeBranch(cb, w1, n, b)
      && (w.nodes[n].tl[b].func.None? && w.nodes[n].tl[b].next.Some? ==>
            Step(cb, w, n) == Running(Enter(w1, n), w.nodes[n].tl[b].next.value))
  {
    AskedMenu(w, n);
    hide AskMenu, AllocAndGetVal, IsAsked;
    var w1 := Left(w, n, w.nodes[n].tl[b].val.value);
    LeftIsClosed(w, n, w.nodes[n].tl[b].val.value);
    forall k | 0 <= k < b
      ensures Missed(w1, n, k)
    {
      assert !NameInList(w.pairs, w.nodes[n].tl[k].val);
    }
    ValueDecidesBranch(cb, w1, n, b);
    hide DoTransition;
  }

  lemma LeftIsClosed(w: World, n: NodeId, v: string)
    requires n in w.nodes && Closed(w.nodes) && w.answers != []
    ensures Closed(Left(w, n, v).nodes)
  {
  }

  /** Typing the number k at a menu whose branches are not named in the list leads
      along branch k - 1, after its callback if it has one. */
  lemma NumberLeads(cb: Callbacks, w: World, n: NodeId, k: nat)
    requires Sane(cb) && n in w.nodes && Closed(w.nodes) && IsAsked(w, n) && ValuedMenu(w.nodes[n])
    requires 1 <= k <= |w.nodes[n].tl| && w.answers != [] && w.answers[0] == Decimal(k)
    requires NoEarlierName(w, n, k - 1)
    ensures var w1 := Left(w, n, w.nodes[n].tl[k - 1].val.value);
      && Closed(w1.nodes) && AllocAndGetVal(w, n) == (w1, 0)
      && DoTransition(cb, w1, n) == TakeBranch(cb, w1, n, k - 1)
      && (w.nodes[n].tl[k - 1].func.None? && w.nodes[n].tl[k - 1].next.Some? ==>
            Step(cb, w, n) == Running(Enter(w1, n), w.nodes[n].tl[k - 1].next.value))
  {
    NumberPicks(w, n, k);
    AskedMenu(w, n);
    hide AskMenu, AllocAndGetVal, DoTransition, TakeBranch, Step, IsAsked, ValuedMenu, Left;
    ValueLeads(cb, w, n, k - 1);
  }

  /* ---- verified values ---- */

  /** The value of a node that was last given the line a. */
  function ValueTyped(node: ParamNode, a: string): Option<string> {
    if a == "" then node.suggestedVal else Some(a)
  }

  /** A round accepts a value exactly if it was typed twice alike, and not empty
      where that is forbidden. */
  lemma VerifiedIff(w: World, n: NodeId)
    requires n in w.nodes && w.nodes[n].flags.verifyValue
    ensures var (w1, rc) := AskOnce(w, n);
      var node := w.nodes[n];
      && (rc == Some(0) <==>
            |w.answers| >= 2 && w.answers[0] == w.answers[1] && (w.answers[0] == "" ==> !node.flags.nonemptyRequired))
      && (rc == Some(0) ==>
            w1.answers == w.answers[2..] && w1.nodes == w.nodes[n := node.(val := ValueTyped(node, w.answers[0]))])
      && (rc == None ==>
            w.answers != [] && (w1.answers == w.answers[1..] || (|w.answers| >= 2 && w1.answers == w.answers[2..])))
      && n in w1.nodes && w1.nodes[n] == node.(val := w1.nodes[n].val)
      && (rc.Some? && rc.value != 0 ==> rc.value == -EIO)
  {
  }

  /** Of these answers those are left, and the last two lines used were alike. */
  ghost predicate LastTwoAlike(answers: seq<string>, left: seq<string>) {
    var used := |answers| - |left|;
    used >= 2 && answers[used - 2] == answers[used - 1] && left == answers[used..]
  }

  lemma AlikeFromEarlier(answers: seq<string>, d: nat, left: seq<string>)
    requires d <= |answers| && LastTwoAlike(answers[d..], left)
    ensures LastTwoAlike(answers, left)
    ensures answers[|answers| - |left| - 1] == answers[d..][|answers| - d - |left| - 1]
  {
    var used := |answers| - |left|;
    assert answers[d..][used - d..] == answers[used..];
  }

  /** Over the whole prompt: the last two lines used were alike, and are the value. */
  lemma {:induction false} AcceptedWasTypedTwice(w: World, n: NodeId, tries: nat)
    requires n in w.nodes && w.nodes[n].flags.verifyValue
    ensures var (w1, rc) := AskPlain(w, n, tries);
      rc == 0 ==>
        && LastTwoAlike(w.answers, w1.answers)
        && n in w1.nodes
        && w1.nodes[n].val == ValueTyped(w.nodes[n], w.answers[|w.answers| - |w1.answers| - 1])
    decreases MAX_TRIES - tries
  {
    hide AskOnce, Fetched, ValueTyped, LastTwoAlike;
    if tries < MAX_TRIES {
      VerifiedIff(w, n);
      var (w', rc') := AskOnce(w, n);
      if rc'.None? {
        AcceptedWasTypedTwice(w', n, tries + 1);
        var (w1, rc) := AskPlain(w, n, tries);
        if rc == 0 {
          AlikeFromEarlier(w.answers, |w.answers| - |w'.answers|, w1.answers);
          TypedAlike(w.nodes[n], w'.nodes[n], w.answers[|w.answers| - |w1.answers| - 1]);
        }
      } else if rc'.value == 0 {
        LastTwo(w.answers);
      }
    }
  }

  lemma LastTwo(answers: seq<string>)
    requires |answers| >= 2 && answers[0] == answers[1]
    ensures LastTwoAlike(answers, answers[2..])
  {
  }

  lemma TypedAlike(node: ParamNode, node': ParamNode, a: string)
    requires node'.suggestedVal == node.suggestedVal
    ensures ValueTyped(node', a) == ValueTyped(node, a)
  {
  }

  /* ---- whether there is a question ---- */

  /** The node wants an answer: it takes values, and either insists on standard
      input, or the run is interactive and no bare pair has set it. */
  predicate WantsAnswer(w: World, n: NodeId)
    requires n in w.nodes
  {
    var f := w.nodes[n].flags;
    !f.noValue && (f.stdinRequired || (w.verbosity != 0 && !f.parameterSet))
  }

  /** A menu with nothing to choose from. */
  predicate SoleChoice(node: ParamNode) { node.flags.displayVals && |node.tl| == 1 && !node.flags.forceDisplay }

  lemma AskMenuUses(w: World, n: NodeId)
    requires n in w.nodes && w.answers != []
    ensures |AskMenu(w, n).0.answers| < |w.answers|
  {
    hide AskMenu, MenuReply;
    AskMenuStep(w, n);
  }

  lemma AskOnceUses(w: World, n: NodeId)
    requires n in w.nodes && w.answers != []
    ensures |AskOnce(w, n).0.answers| < |w.answers| && n in AskOnce(w, n).0.nodes
  {
  }

  lemma AskPlainFetched(w: World, n: NodeId, tries: nat)
    requires n in w.nodes
    ensures |AskPlain(w, n, tries).0.answers| <= |w.answers|
  {
    hide AskPlain;
    assert Fetched(w, AskPlain(w, n, tries).0);
  }

  lemma AskPlainUses(w: World, n: NodeId)
    requires n in w.nodes && w.answers != []
    ensures |AskPlain(w, n, 0).0.answers| < |w.answers|
  {
    hide AskPlain, Fetched;
    AskOnceUses(w, n);
    hide AskOnce;
    AskPlainStep(w, n, 0);
    var (w1, rc) := AskOnce(w, n);
    if rc.None? { AskPlainFetched(w1, n, 1); }
  }

  /** An unset node uses an answer if and only if it wants one, may prompt and has
      a choice. It stops the evaluation with code 3 exactly where it may not. */
  lemma AnswerIsUsedIff(w: World, n: NodeId)
    requires n in w.nodes && Closed(w.nodes) && Unset(w, n) && w.answers != []
    ensures var (w1, rc) := AllocAndGetVal(w, n);
      var node := w.nodes[n];
      && (|w1.answers| < |w.answers| <==> WantsAnswer(w, n) && w.canPrompt && !SoleChoice(node))
      && (!WantsAnswer(w, n) ==> w1 == w && rc == 0)
      && (WantsAnswer(w, n) && !w.canPrompt ==> w1 == w && rc == 3)
      && (WantsAnswer(w, n) && w.canPrompt && SoleChoice(node) && node.tl[0].val.Some? ==>
            rc == 0 && w1 == w.(nodes := w.nodes[n := node.(val := node.tl[0].val)]))
  {
    hide AskMenu, AskPlain, ChoosePair, Fetched, Closed;
    AskMenuUses(w, n);
    AskPlainUses(w, n);
    assert RetrieveVal(w, n) == (w, false);
    hide RetrieveVal;
  }

  /** A pair's value is final, unless an implicit transition may override it. */
  lemma OwnPairSettles(w: World, n: NodeId)
    requires n in w.nodes && Closed(w.nodes) && w.nodes[n].val.None?
    requires var f := w.nodes[n].flags; !f.allowImplicit || !f.implicitOverride
    requires ChoosePair(w.pairs, w.nodes[n].names, |w.nodes[n].names|).Some?
    ensures var j := ChoosePair(w.pairs, w.nodes[n].names, |w.nodes[n].names|).value;
      var (w1, rc) := AllocAndGetVal(w, n);
      && j < |w.pairs| && rc == 0 && w1.answers == w.answers
      && w1.pairs == w.pairs[j := w.pairs[j].(processed := true)]
      && (HasValue(w.pairs[j]) ==> w1.nodes == w.nodes[n := w.nodes[n].(val := w.pairs[j].value)])
  {
    ChoosePairInRange(w.pairs, w.nodes[n].names, |w.nodes[n].names|);
    hide ChoosePair, Fetched, Closed;
  }

  /* ---- required values ---- */

  /** The node insists on a nonempty line, but not on two. */
  predicate Insists(node: ParamNode) { node.flags.nonemptyRequired && !node.flags.verifyValue }

  /** An empty line is asked for again, and leaves only itself as the value. */
  lemma EmptyAgain(w: World, n: NodeId)
    requires n in w.nodes && Insists(w.nodes[n]) && w.answers != [] && w.answers[0] == ""
    ensures AskOnce(w, n) == (w.(answers := w.answers[1..], nodes := w.nodes[n := w.nodes[n].(val := Some(""))]), None)
  {
  }

  lemma NonemptyIsTaken(w: World, n: NodeId)
    requires n in w.nodes && Insists(w.nodes[n]) && w.answers != [] && w.answers[0] != ""
    ensures AskOnce(w, n) ==
      (w.(answers := w.answers[1..], nodes := w.nodes[n := w.nodes[n].(val := Some(w.answers[0]))]), Some(0))
  {
  }

  lemma {:induction false} EmptiesFirst(w: World, n: NodeId, tries: nat, k: nat) returns (w1: World)
    requires n in w.nodes && Insists(w.nodes[n]) && tries + k <= 3 && k <= |w.answers|
    requires forall i :: 0 <= i < k ==> w.answers[i] == ""
    ensures n in w1.nodes && AskPlain(w, n, tries) == AskPlain(w1, n, tries + k)
    ensures w1 == w.(answers := w.answers[k..], nodes := w.nodes[n := w1.nodes[n]])
    ensures w1.nodes[n] == w.nodes[n].(val := w1.nodes[n].val)
    decreases k
  {
    hide AskOnce, AskPlain, Fetched;
    if k == 0 {
      assert w.answers[0..] == w.answers && w.nodes[n := w.nodes[n]] == w.nodes;
      w1 := w;
    } else {
      EmptyAgain(w, n);
      AskPlainStep(w, n, tries);
      var next := w.(answers := w.answers[1..], nodes := w.nodes[n := w.nodes[n].(val := Some(""))]);
      w1 := EmptiesFirst(next, n, tries + 1, k - 1);
      assert next.answers[k - 1..] == w.answers[k..];
      assert w1.nodes == w.nodes[n := w1.nodes[n]];
    }
  }

  /** The first nonempty line among three is the value. */
  lemma NonemptyAmongThree(w: World, n: NodeId, k: nat)
    requires n in w.nodes && Insists(w.nodes[n]) && k < 3 && k < |w.answers|
    requires (forall i :: 0 <= i < k ==> w.answers[i] == "") && w.answers[k] != ""
    ensures AskPlain(w, n, 0) ==
      (w.(answers := w.answers[k + 1..], nodes := w.nodes[n := w.nodes[n].(val := Some(w.answers[k]))]), 0)
  {
    hide AskPlain, AskOnce, Fetched;
    var w1 := EmptiesFirst(w, n, 0, k);
    AskPlainStep(w1, n, k);
    NonemptyIsTaken(w1, n);
    assert w1.answers[1..] == w.answers[k + 1..];
    var node := w.nodes[n].(val := Some(w.answers[k]));
    assert w1.nodes[n].(val := Some(w.answers[k])) == node;
    assert w1.nodes[n := node] == w.nodes[n := node];
  }

  /** After three empty lines the prompt gives up, with a positive code. */
  lemma ThreeEmptyLines(w: World, n: NodeId)
    requires n in w.nodes && Insists(w.nodes[n]) && |w.answers| >= 3
    requires forall i :: 0 <= i < 3 ==> w.answers[i] == ""
    ensures AskPlain(w, n, 0).1 == 22 && AskPlain(w, n, 0).0.answers == w.answers[3..]
  {
    hide AskPlain, Fetched;
    var w1 := EmptiesFirst(w, n, 0, 3);
    AskPlainStep(w1, n, 3);
  }
}
