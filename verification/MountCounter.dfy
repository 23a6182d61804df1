/** The textual mount counter of a private mount, rewritten in place without
    truncating the file, and the gate it keeps in front of unmounting
    (src/utils/mount.ecryptfs_private.c). The file is locked for the whole run
    of the program, so runs are serialised. */
module MountCounter {
  import opened Common

  /** The largest int. */
  const MAXINT := 0x7fff_ffff

  /* ---- the file ---- */

  /** Writing s at the start of a file leaves whatever was longer in place. */
  function Overwrite(content: string, s: string): string {
    s + if |s| < |content| then content[|s|..] else []
  }

  /** The count in a file: zero if no number can be read. */
  function Value(content: string): int {
    ScanInt(content).GetOr(0)
  }

  /** bump_counter: the new count, never below zero. */
  function Bumped(content: string, delta: int): (count: nat) {
    var c := Value(content) + delta;
    if c < 0 then 0 else c
  }

  /** However long the text it replaces, a count that was written is read back. */
  lemma WrittenIsReadBack(content: string, n: nat)
    ensures Value(Overwrite(content, Decimal(n) + "\n")) == n
  {
    var stale := if |Decimal(n) + "\n"| < |content| then content[|Decimal(n) + "\n"|..] else [];
    assert Overwrite(content, Decimal(n) + "\n") == Decimal(n) + (['\n'] + stale);
    AtoiDecimal(n, ['\n'] + stale);
  }

  /** Nothing is truncated: behind what is written the file is as it was. */
  lemma StaleOctetsStay(content: string, s: string, k: nat)
    requires k < |Overwrite(content, s)|
    ensures |Overwrite(content, s)| == if |s| < |content| then |content| else |s|
    ensures Overwrite(content, s)[k] == if k < |s| then s[k] else content[k]
  {
  }

  /** Forcing an unmount sets the count to zero exactly when it is below MAXINT. */
  lemma ZeroIffBelowMax(content: string)
    ensures Bumped(content, -MAXINT + 1) == 0 <==> Value(content) < MAXINT
  {
  }

  class CounterFile {
    var content: string

    constructor ()
      ensures content == []
    {
      content := [];
    }

    method BumpCounter(delta: int) returns (count: nat)
      modifies this
      ensures count == Bumped(old(content), delta)
      ensures content == Overwrite(old(content), Decimal(count) + "\n")
      ensures Value(content) == count
    {
      var scanned := ScanInt(content);
      var c := if scanned.Some? then scanned.value else 0;
      c := c + delta;
      if c < 0 {
        c := 0;
      }
      count := c;
      WrittenIsReadBack(content, count);
      content := Overwrite(content, Decimal(count) + "\n");
    }

    /** The gate in main: whether the program goes on to mount or unmount. */
    method Gate(op: Op) returns (goesOn: bool)
      modifies this
      ensures Value(content) == Next(Value(old(content)), op)
      ensures goesOn == Passes(Value(old(content)), op)
    {
      goesOn := true;
      if op.Mount? {
        var c := BumpCounter(1);
      } else if op.ForcedUnmount? {
        var c := BumpCounter(-MAXINT + 1);
      } else {
        var c := BumpCounter(-1);
        goesOn := !(c > 0);
      }
    }
  }

  /* ---- serialised runs ---- */

  datatype Op = Mount | Unmount | ForcedUnmount

  function Delta(op: Op): int {
    match op
    case Mount => 1
    case Unmount => -1
    case ForcedUnmount => -MAXINT + 1
  }

  function Next(c: int, op: Op): (r: int)
    ensures r >= 0
  {
    if c + Delta(op) < 0 then 0 else c + Delta(op)
  }

  /** An unforced unmount goes on only with no session left. */
  predicate Passes(c: int, op: Op) {
    op.Unmount? ==> Next(c, op) == 0
  }

  /** The count after a run of the program for every op. */
  function Level(c: int, ops: seq<Op>): int {
    if ops == [] then c else Next(Level(c, ops[..|ops| - 1]), ops[|ops| - 1])
  }

  /** Mounts minus unforced unmounts. */
  function Net(ops: seq<Op>): int {
    if ops == [] then 0
    else Net(ops[..|ops| - 1]) + match ops[|ops| - 1] { case Mount => 1 case Unmount => -1 case ForcedUnmount => 0 }
  }

  ghost predicate Unforced(ops: seq<Op>) { ForcedUnmount !in ops }

  /** Which of the runs pass the gate. */
  function Gates(c: int, ops: seq<Op>): seq<bool> {
    if ops == [] then []
    else Gates(c, ops[..|ops| - 1]) + [Passes(Level(c, ops[..|ops| - 1]), ops[|ops| - 1])]
  }

  lemma LevelStep(c: int, ops: seq<Op>, k: nat)
    requires k < |ops|
    ensures Level(c, ops[..k + 1]) == Next(Level(c, ops[..k]), ops[k])
    ensures Gates(c, ops[..k + 1]) == Gates(c, ops[..k]) + [Passes(Level(c, ops[..k]), ops[k])]
  {
    assert ops[..k + 1][..k] == ops[..k];
  }

  /** Mounts and forced unmounts always go on; an unforced unmount does exactly if
      the count after it is zero. */
  lemma {:induction false} GatesAre(c: int, ops: seq<Op>, k: nat)
    requires k < |ops|
    ensures |Gates(c, ops)| == |ops|
    ensures Gates(c, ops)[k] <==> ops[k].Mount? || ops[k].ForcedUnmount? || Level(c, ops[..k + 1]) == 0
    decreases |ops|
  {
    var n := |ops| - 1;
    LevelStep(c, ops, n);
    assert ops[..n + 1] == ops;
    if k < n {
      GatesAre(c, ops[..n], k);
      assert ops[..n][..k + 1] == ops[..k + 1];
    } else if n > 0 {
      GatesAre(c, ops[..n], 0);
    }
  }

  /** Any run on the file: the text always holds the count of the abstract run. */
  method Execute(file: CounterFile, ops: seq<Op>) returns (passed: seq<bool>)
    modifies file
    ensures Value(file.content) == Level(Value(old(file.content)), ops)
    ensures passed == Gates(Value(old(file.content)), ops)
  {
    passed := [];
    ghost var c0 := Value(file.content);
    var k := 0;
    assert Level(c0, ops[..0]) == c0 && Gates(c0, ops[..0]) == [];
    hide Level, Gates, Value, Next, Passes;
    while k < |ops|
      invariant 0 <= k <= |ops|
      invariant Value(file.content) == Level(c0, ops[..k]) && passed == Gates(c0, ops[..k])
    {
      LevelStep(c0, ops, k);
      var goesOn := file.Gate(ops[k]);
      passed := passed + [goesOn];
      k := k + 1;
    }
    assert ops[..k] == ops;
  }

  lemma {:induction false} LevelAppend(c: int, a: seq<Op>, b: seq<Op>)
    ensures Level(c, a + b) == Level(Level(c, a), b)
    decreases |b|
  {
    if b == [] {
      assert a + b == a;
    } else {
      assert (a + b)[..|a + b| - 1] == a + b[..|b| - 1];
      LevelAppend(c, a, b[..|b| - 1]);
    }
  }

  /** While unmounts never outnumber mounts (counting the c that were there), the
      count is their difference. */
  lemma {:induction false} CountIsDifference(c: nat, ops: seq<Op>)
    requires Unforced(ops) && forall k :: 0 <= k <= |ops| ==> c + Net(ops[..k]) >= 0
    ensures Level(c, ops) == c + Net(ops)
    decreases |ops|
  {
    if ops != [] {
      var front := ops[..|ops| - 1];
      forall k | 0 <= k <= |front|
        ensures c + Net(front[..k]) >= 0
      {
        assert front[..k] == ops[..k];
      }
      CountIsDifference(c, front);
      assert ops[..|ops|] == ops;
    }
  }

  /** An unforced unmount then passes exactly when the difference reaches zero. */
  lemma BalancedGate(c: nat, ops: seq<Op>)
    requires Unforced(ops) && forall k :: 0 <= k <= |ops| ==> c + Net(ops[..k]) >= 0
    requires ops != [] && ops[|ops| - 1] == Unmount
    ensures Passes(Level(c, ops[..|ops| - 1]), Unmount) <==> c + Net(ops) == 0
  {
    CountIsDifference(c, ops);
  }

  /** A forced unmount starts the count afresh, as long as it is below MAXINT. */
  lemma ForcedRestarts(c: int, before: seq<Op>, after: seq<Op>)
    requires Level(c, before) < MAXINT
    ensures Level(c, before + [ForcedUnmount] + after) == Level(0, after)
  {
    LevelAppend(c, before + [ForcedUnmount], after);
    LevelAppend(c, before, [ForcedUnmount]);
    assert [ForcedUnmount][..0] == [];
  }

  /** Since the last forced unmount: whatever came before it, the count is the
      difference of what came after, and an unforced unmount at the end passes
      exactly when that reaches zero. */
  lemma DifferenceSinceForced(c: int, before: seq<Op>, after: seq<Op>)
    requires Level(c, before) < MAXINT
    requires Unforced(after) && forall k :: 0 <= k <= |after| ==> Net(after[..k]) >= 0
    ensures var ops := before + [ForcedUnmount] + after;
      && Level(c, ops) == Net(after)
      && (after != [] && after[|after| - 1] == Unmount ==>
            (Passes(Level(c, ops[..|ops| - 1]), Unmount) <==> Net(after) == 0))
  {
    ForcedRestarts(c, before, after);
    CountIsDifference(0, after);
    if after != [] && after[|after| - 1] == Unmount {
      var ops, front := before + [ForcedUnmount] + after, after[..|after| - 1];
      assert ops[..|ops| - 1] == before + [ForcedUnmount] + front;
      ForcedRestarts(c, before, front);
      BalancedGate(0, after);
    }
  }

  /** Without any assumption on balance: an unmount too many is forgotten, so the
      count is the largest of what mounts minus unmounts come to over the whole
      run (with the c at its start) and over every end of it. */
  lemma {:induction false} CountIsLargestSuffix(c: nat, ops: seq<Op>)
    requires Unforced(ops)
    ensures Level(c, ops) >= c + Net(ops)
    ensures forall k :: 0 <= k <= |ops| ==> Level(c, ops) >= Net(ops[k..])
    ensures Level(c, ops) == c + Net(ops) || exists k :: 0 <= k <= |ops| && Level(c, ops) == Net(ops[k..])
    decreases |ops|
  {
    if ops == [] {
      assert ops[0..] == [];
    } else {
      var n := |ops| - 1;
      var front := ops[..n];
      CountIsLargestSuffix(c, front);
      forall k | 0 <= k <= |ops|
        ensures Level(c, ops) >= Net(ops[k..])
        ensures k <= n ==> Net(ops[k..]) == Net(front[k..]) + Net([ops[n]])
      {
        if k <= n {
          SuffixNet(ops, k);
        }
      }
      assert [ops[n]][..0] == [];
      if Level(c, front) == c + Net(front) && Level(c, ops) == c + Net(ops) {
      } else if Level(c, front) + Net([ops[n]]) < 0 {
        assert ops[|ops|..] == [] && Level(c, ops) == Net(ops[|ops|..]);
      } else {
        var k :| 0 <= k <= |front| && Level(c, front) == Net(front[k..]);
        assert Level(c, ops) == Net(ops[k..]);
      }
    }
  }

  lemma SuffixNet(ops: seq<Op>, k: nat)
    requires k < |ops|
    ensures var n := |ops| - 1; Net(ops[k..]) == Net(ops[..n][k..]) + Net([ops[n]])
  {
    var n := |ops| - 1;
    var s := ops[k..];
    assert s[..|s| - 1] == ops[..n][k..] && s[|s| - 1] == ops[n];
    assert [ops[n]][..0] == [];
  }
}
