/** Merging the pairs of the command line into those of the rc file
    (ecryptfs_nvp_list_union in src/libecryptfs/cmd_ln_parser.c), for lists
    without child pairs. */
module PairUnion {
  import opened Common
  import opened OptionParser
  import DecisionGraph
  import DecisionGraphRuns

  /** copy_nv_pair: a missing value becomes the text "(null)". */
  function Copied(s: Pair): Pair { s.(value := Some(Printed(s.value))) }

  predicate Named(p: Pair, n: string) { p.name == Some(n) }

  ghost predicate HasName(l: seq<Pair>, n: string) { exists k :: 0 <= k < |l| && Named(l[k], n) }

  function WithValue(p: Pair, n: string, v: string): Pair {
    if Named(p, n) then p.(value := Some(v)) else p
  }

  /** Every entry called n gets the value v. */
  function SetValue(l: seq<Pair>, n: string, v: string): (r: seq<Pair>)
    ensures |r| == |l| && forall k :: 0 <= k < |l| ==> r[k] == WithValue(l[k], n, v)
  {
    seq(|l|, k requires 0 <= k < |l| => WithValue(l[k], n, v))
  }

  /** One source entry: skipped without a name, appended if duplicates are
      allowed or its name is new, and otherwise overriding. */
  ghost function Merge(dst: seq<Pair>, s: Pair, allowed: seq<string>): seq<Pair> {
    if s.name.None? then dst
    else if s.name.value in allowed || !HasName(dst, s.name.value) then dst + [Copied(s)]
    else SetValue(dst, s.name.value, Printed(s.value))
  }

  ghost function Union(dst: seq<Pair>, src: seq<Pair>, allowed: seq<string>): seq<Pair> {
    if src == [] then dst else Merge(Union(dst, src[..|src| - 1], allowed), src[|src| - 1], allowed)
  }

  /* ---- the loops of the source ---- */

  /** The walk along the destination that overwrites matching values. */
  method OverwriteMatches(dst: PairList, n: string, v: string) returns (found: bool)
    modifies dst
    ensures found <==> HasName(old(dst.items), n)
    ensures dst.items == SetValue(old(dst.items), n, v)
  {
    found := false;
    var k := 0;
    while k < |dst.items|
      invariant 0 <= k <= |dst.items| == |old(dst.items)|
      invariant forall i :: 0 <= i < k ==> dst.items[i] == WithValue(old(dst.items)[i], n, v)
      invariant forall i :: k <= i < |dst.items| ==> dst.items[i] == old(dst.items)[i]
      invariant found <==> HasName(old(dst.items)[..k], n)
    {
      assert old(dst.items)[..k + 1] == old(dst.items)[..k] + [old(dst.items)[k]];
      if Named(dst.items[k], n) {
        found := true;
        assert Named(old(dst.items)[..k + 1][k], n);
        dst.items := dst.items[k := dst.items[k].(value := Some(v))];
      } else {
        assert forall i :: 0 <= i < k ==> old(dst.items)[..k + 1][i] == old(dst.items)[..k][i];
      }
      k := k + 1;
    }
    assert old(dst.items)[..k] == old(dst.items);
    assert dst.items == SetValue(old(dst.items), n, v);
  }

  method IsAllowed(n: string, allowed: seq<string>) returns (yes: bool)
    ensures yes <==> n in allowed
  {
    yes := false;
    var k := 0;
    while k < |allowed|
      invariant 0 <= k <= |allowed| && n !in allowed[..k]
    {
      if allowed[k] == n {
        return true;
      }
      k := k + 1;
    }
    assert allowed[..k] == allowed;
  }

  lemma NothingToSet(l: seq<Pair>, n: string, v: string)
    requires !HasName(l, n)
    ensures SetValue(l, n, v) == l
  {
    assert forall k :: 0 <= k < |l| ==> SetValue(l, n, v)[k] == l[k];
  }

  /** ecryptfs_nvp_list_union */
  method ListUnion(dst: PairList, src: seq<Pair>, allowed: seq<string>)
    modifies dst
    ensures dst.items == Union(old(dst.items), src, allowed)
  {
    var i := 0;
    assert src[..0] == [];
    while i < |src|
      invariant 0 <= i <= |src|
      invariant dst.items == Union(old(dst.items), src[..i], allowed)
    {
      assert src[..i + 1][..i] == src[..i];
      var s := src[i];
      if s.name.Some? {
        var found := false;
        var dup := IsAllowed(s.name.value, allowed);
        ghost var was := dst.items;
        if !dup {
          found := OverwriteMatches(dst, s.name.value, Printed(s.value));
          if !found { NothingToSet(was, s.name.value, Printed(s.value)); }
        }
        if !found {
          dst.items := dst.items + [Copied(s)];
        }
      }
      i := i + 1;
    }
    assert src[..i] == src;
  }

  /* ---- what the union is ---- */

  /** The text of the last source entry called n. */
  function LastValue(src: seq<Pair>, n: string): Option<string> {
    if src == [] then None
    else if Named(src[|src| - 1], n) then Some(Printed(src[|src| - 1].value))
    else LastValue(src[..|src| - 1], n)
  }

  /** A destination entry after the merge. */
  function Overridden(p: Pair, src: seq<Pair>, allowed: seq<string>): Pair {
    if p.name.Some? && p.name.value !in allowed && LastValue(src, p.name.value).Some?
    then p.(value := LastValue(src, p.name.value)) else p
  }

  function OverriddenAll(dst: seq<Pair>, src: seq<Pair>, allowed: seq<string>): (r: seq<Pair>)
    ensures |r| == |dst| && forall k :: 0 <= k < |dst| ==> r[k] == Overridden(dst[k], src, allowed)
  {
    seq(|dst|, k requires 0 <= k < |dst| => Overridden(dst[k], src, allowed))
  }

  /** Source entry k is added: its name may be duplicated, or it is the first of
      a name that the destination lacks. */
  ghost predicate IsAdded(dst: seq<Pair>, src: seq<Pair>, allowed: seq<string>, k: nat)
    requires k < |src|
  {
    src[k].name.Some?
    && (src[k].name.value in allowed || (!HasName(dst, src[k].name.value) && !HasName(src[..k], src[k].name.value)))
  }

  /** The added entries among the first k, with the values that `all` leaves them. */
  ghost function Added(dst: seq<Pair>, src: seq<Pair>, allowed: seq<string>, all: seq<Pair>, k: nat): seq<Pair>
    requires k <= |src|
  {
    if k == 0 then []
    else
      Added(dst, src, allowed, all, k - 1) +
      if IsAdded(dst, src, allowed, k - 1) then [Overridden(Copied(src[k - 1]), all, allowed)] else []
  }

  /** Both lists after one more source entry s, if s overrides. */
  lemma OverriddenStep(p: Pair, src: seq<Pair>, s: Pair, allowed: seq<string>)
    ensures Overridden(p, src + [s], allowed) ==
      if s.name.Some? && s.name.value !in allowed && p.name == s.name
      then Overridden(p, src, allowed).(value := Some(Printed(s.value)))
      else Overridden(p, src, allowed)
  {
    assert (src + [s])[..|src + [s]| - 1] == src && (src + [s])[|src + [s]| - 1] == s;
  }

  lemma {:induction false} AddedPrefix(dst: seq<Pair>, src: seq<Pair>, s: Pair, allowed: seq<string>,
                                       all: seq<Pair>, k: nat)
    requires k <= |src|
    ensures Added(dst, src + [s], allowed, all, k) == Added(dst, src, allowed, all, k)
  {
    if k > 0 {
      AddedPrefix(dst, src, s, allowed, all, k - 1);
      assert (src + [s])[..k - 1] == src[..k - 1];
    }
  }

  /** One more entry in `all` overrides the added entries of its name, or none. */
  lemma {:induction false} AddedStep(dst: seq<Pair>, src: seq<Pair>, allowed: seq<string>, all: seq<Pair>,
                                     s: Pair, k: nat)
    requires k <= |src|
    ensures var before, after := Added(dst, src, allowed, all, k), Added(dst, src, allowed, all + [s], k);
      after == if s.name.Some? && s.name.value !in allowed
               then SetValue(before, s.name.value, Printed(s.value)) else before
  {
    hide LastValue, IsAdded;
    if k > 0 {
      AddedStep(dst, src, allowed, all, s, k - 1);
      OverriddenStep(Copied(src[k - 1]), all, s, allowed);
      if s.name.Some? {
        SetValueConcat(Added(dst, src, allowed, all, k - 1), [Overridden(Copied(src[k - 1]), all, allowed)],
                       s.name.value, Printed(s.value));
      }
    }
  }

  lemma OverriddenAllStep(dst: seq<Pair>, src: seq<Pair>, s: Pair, allowed: seq<string>)
    ensures OverriddenAll(dst, src + [s], allowed) ==
      if s.name.Some? && s.name.value !in allowed
      then SetValue(OverriddenAll(dst, src, allowed), s.name.value, Printed(s.value))
      else OverriddenAll(dst, src, allowed)
  {
    forall k | 0 <= k < |dst|
      ensures OverriddenAll(dst, src + [s], allowed)[k] ==
        if s.name.Some? && s.name.value !in allowed
        then WithValue(Overridden(dst[k], src, allowed), s.name.value, Printed(s.value))
        else Overridden(dst[k], src, allowed)
    {
      OverriddenStep(dst[k], src, s, allowed);
    }
  }

  /** A name that may not be duplicated is on the added list exactly if the
      destination lacks it and the source has it. */
  lemma {:induction false} AddedNames(dst: seq<Pair>, src: seq<Pair>, allowed: seq<string>, all: seq<Pair>,
                                      k: nat, n: string)
    requires k <= |src| && n !in allowed
    ensures HasName(Added(dst, src, allowed, all, k), n) <==> !HasName(dst, n) && HasName(src[..k], n)
  {
    if k > 0 {
      AddedNames(dst, src, allowed, all, k - 1, n);
      var before, s := Added(dst, src, allowed, all, k - 1), src[k - 1];
      assert src[..k] == src[..k - 1] + [s];
      HasNameAppend(src[..k - 1], s, n);
      var x := Overridden(Copied(s), all, allowed);
      HasNameAppend(before, x, n);
      assert Named(x, n) <==> Named(s, n);
      if !IsAdded(dst, src, allowed, k - 1) {
        assert before + [] == before;
      }
    }
  }

  lemma HasNameAppend(l: seq<Pair>, p: Pair, n: string)
    ensures HasName(l + [p], n) <==> HasName(l, n) || Named(p, n)
  {
    var m := l + [p];
    if HasName(l, n) {
      var k :| 0 <= k < |l| && Named(l[k], n);
      assert Named(m[k], n);
    }
    if Named(p, n) {
      assert Named(m[|l|], n);
    }
  }

  lemma HasNameConcat(a: seq<Pair>, b: seq<Pair>, n: string)
    ensures HasName(a + b, n) <==> HasName(a, n) || HasName(b, n)
  {
    var m := a + b;
    if HasName(a, n) {
      var k :| 0 <= k < |a| && Named(a[k], n);
      assert Named(m[k], n);
    }
    if HasName(b, n) {
      var k :| 0 <= k < |b| && Named(b[k], n);
      assert Named(m[|a| + k], n);
    }
  }

  /** The union in closed form: every old entry in its place, with the last
      source value of its name unless that may be duplicated, and behind them
      every duplicable source entry and the first of every new name, in order. */
  lemma {:induction false} UnionIs(dst: seq<Pair>, src: seq<Pair>, allowed: seq<string>)
    ensures Union(dst, src, allowed) == OverriddenAll(dst, src, allowed) + Added(dst, src, allowed, src, |src|)
    decreases |src|
  {
    if src == [] {
      assert OverriddenAll(dst, src, allowed) == dst;
    } else {
      var m := |src| - 1;
      var front, s := src[..m], src[m];
      assert front + [s] == src;
      UnionIs(dst, front, allowed);
      UnionStepIs(dst, front, s, allowed);
    }
  }

  lemma SetValueConcat(a: seq<Pair>, b: seq<Pair>, n: string, v: string)
    ensures SetValue(a + b, n, v) == SetValue(a, n, v) + SetValue(b, n, v)
  {
  }

  /** One more source entry, on the two halves of the closed form. */
  lemma MergeOfHalves(o: seq<Pair>, a: seq<Pair>, s: Pair, allowed: seq<string>)
    requires s.name.Some?
    ensures var n, v := s.name.value, Printed(s.value);
      Merge(o + a, s, allowed) ==
        if n in allowed then o + (a + [Copied(s)])
        else if HasName(o, n) || HasName(a, n) then SetValue(o, n, v) + SetValue(a, n, v)
        else SetValue(o, n, v) + (SetValue(a, n, v) + [Copied(s)])
  {
    hide HasName, SetValue;
    var n, v := s.name.value, Printed(s.value);
    HasNameConcat(o, a, n);
    SetValueConcat(o, a, n, v);
    if !HasName(o, n) && !HasName(a, n) {
      NothingToSet(o, n, v);
      NothingToSet(a, n, v);
    }
    assert (o + a) + [Copied(s)] == o + (a + [Copied(s)]);
  }

  lemma UnionStepIs(dst: seq<Pair>, front: seq<Pair>, s: Pair, allowed: seq<string>)
    ensures var src := front + [s];
      Merge(OverriddenAll(dst, front, allowed) + Added(dst, front, allowed, front, |front|), s, allowed)
      == OverriddenAll(dst, src, allowed) + Added(dst, src, allowed, src, |src|)
  {
    hide HasName, SetValue, OverriddenAll, Overridden, LastValue;
    var src, m := front + [s], |front|;
    var o, a := OverriddenAll(dst, front, allowed), Added(dst, front, allowed, front, m);
    OverriddenAllStep(dst, front, s, allowed);
    AddedPrefix(dst, front, s, allowed, src, m);
    AddedStep(dst, front, allowed, front, s, m);
    assert src[..m] == front && src[m] == s && front[..m] == front;
    if s.name.Some? {
      var n := s.name.value;
      MergeOfHalves(o, a, s, allowed);
      OverriddenOwn(s, front, allowed);
      if n !in allowed {
        AddedNames(dst, front, allowed, front, m, n);
        SameNames(dst, front, allowed, n);
      }
    }
  }

  /** An added entry overrides itself with its own value. */
  lemma OverriddenOwn(s: Pair, src: seq<Pair>, allowed: seq<string>)
    requires s.name.Some?
    ensures Overridden(Copied(s), src + [s], allowed) == Copied(s)
  {
    OverriddenStep(Copied(s), src, s, allowed);
  }

  lemma SameNames(dst: seq<Pair>, src: seq<Pair>, allowed: seq<string>, n: string)
    ensures HasName(OverriddenAll(dst, src, allowed), n) <==> HasName(dst, n)
  {
    var o := OverriddenAll(dst, src, allowed);
    assert forall k :: 0 <= k < |dst| ==> (Named(o[k], n) <==> Named(dst[k], n));
  }

  /* ---- what the decision graph then reads ---- */

  /** "(null)" is read as missing, so copying a pair changes nothing for retrieve_val. */
  lemma NullTextIsMissing(p: Pair)
    ensures DecisionGraph.HasValue(Copied(p)) <==> DecisionGraph.HasValue(p)
    ensures DecisionGraph.HasValue(p) ==> Copied(p).value == p.value
  {
  }

  /** Every entry called n holds the text v. */
  ghost predicate AllHold(l: seq<Pair>, n: string, v: string) {
    forall k :: 0 <= k < |l| && Named(l[k], n) ==> l[k].value == Some(v)
  }

  ghost predicate AllFresh(l: seq<Pair>) { forall k :: 0 <= k < |l| ==> !l[k].processed }

  lemma MergeKeeps(l: seq<Pair>, s: Pair, allowed: seq<string>, n: string)
    requires n !in allowed
    ensures Named(s, n) ==> HasName(Merge(l, s, allowed), n) && AllHold(Merge(l, s, allowed), n, Printed(s.value))
    ensures !Named(s, n) && HasName(l, n) ==> HasName(Merge(l, s, allowed), n)
    ensures forall v :: !Named(s, n) && AllHold(l, n, v) ==> AllHold(Merge(l, s, allowed), n, v)
    ensures AllFresh(l) && !s.processed ==> AllFresh(Merge(l, s, allowed))
  {
    var r := Merge(l, s, allowed);
    if HasName(l, n) {
      var k :| 0 <= k < |l| && Named(l[k], n);
      assert Named(r[k], n);
    } else if Named(s, n) {
      assert Named(r[|l|], n);
    }
  }

  lemma {:induction false} SourceDecides(dst: seq<Pair>, src: seq<Pair>, allowed: seq<string>, n: string)
    requires n !in allowed && LastValue(src, n).Some? && AllFresh(dst) && AllFresh(src)
    ensures var u := Union(dst, src, allowed);
      HasName(u, n) && AllHold(u, n, LastValue(src, n).value) && AllFresh(u)
    decreases |src|
  {
    hide Merge, HasName;
    var m := |src| - 1;
    var front, s := src[..m], src[m];
    if Named(s, n) {
      StaysFresh(dst, front, allowed);
    } else {
      SourceDecides(dst, front, allowed, n);
    }
    MergeKeeps(Union(dst, front, allowed), s, allowed, n);
  }

  lemma {:induction false} StaysFresh(dst: seq<Pair>, src: seq<Pair>, allowed: seq<string>)
    requires AllFresh(dst) && AllFresh(src)
    ensures AllFresh(Union(dst, src, allowed))
    decreases |src|
  {
    if src != [] {
      StaysFresh(dst, src[..|src| - 1], allowed);
    }
  }

  /** The command line wins: after the merge, a node that looks for a name which
      may not be duplicated finds the last value the command line gave it,
      whatever the rc file says. */
  lemma CommandLineWins(dst: seq<Pair>, src: seq<Pair>, allowed: seq<string>, n: string)
    requires n !in allowed && LastValue(src, n).Some? && AllFresh(dst) && AllFresh(src)
    ensures var u := Union(dst, src, allowed);
      var found := DecisionGraph.FindPair(u, n, 0);
      found.Some? && found.value < |u| && u[found.value].name == Some(n) && u[found.value].value == LastValue(src, n)
  {
    hide Union, LastValue;
    var u := Union(dst, src, allowed);
    SourceDecides(dst, src, allowed, n);
    DecisionGraphRuns.FindPairIsFirst(u, n, 0);
    var k :| 0 <= k < |u| && Named(u[k], n);
    assert DecisionGraphRuns.Offers(u, k, n);
  }
}
