/** The table of session and process ids that zombie session placeholders keep
    in a 4096-byte shared segment (src/libecryptfs/main.c). Slots of eight octets
    hold a pair in network order; a slot of zeros ends the table. Each operation
    runs under the table's semaphore and is one atomic step here. */
module SidTable {
  import opened Common

  const SHM_SIZE := 4096
  const SLOTS := 512

  datatype Entry = Entry(sid: Word, pid: Word)

  /* ---- the list the table stands for ---- */

  /** The process id of the first entry of a session; zero if it has none. */
  function FindFirst(pairs: seq<Entry>, sid: Word): Word {
    if pairs == [] then 0
    else if pairs[0].sid == sid then pairs[0].pid
    else FindFirst(pairs[1..], sid)
  }

  /** The list without the first entry of a session. */
  function RemoveFirst(pairs: seq<Entry>, sid: Word): seq<Entry> {
    if pairs == [] then []
    else if pairs[0].sid == sid then pairs[1..]
    else [pairs[0]] + RemoveFirst(pairs[1..], sid)
  }

  lemma {:induction false} FirstAt(pairs: seq<Entry>, sid: Word, j: nat)
    requires j <= |pairs| && forall k :: 0 <= k < j ==> pairs[k].sid != sid
    ensures j == |pairs| ==> FindFirst(pairs, sid) == 0 && RemoveFirst(pairs, sid) == pairs
    ensures j < |pairs| && pairs[j].sid == sid ==>
      FindFirst(pairs, sid) == pairs[j].pid && RemoveFirst(pairs, sid) == pairs[..j] + pairs[j + 1..]
  {
    if j > 0 {
      var t := pairs[1..];
      FirstAt(t, sid, j - 1);
      if j < |pairs| && pairs[j].sid == sid {
        assert t[j - 1] == pairs[j];
        assert [pairs[0]] + (t[..j - 1] + t[j..]) == pairs[..j] + pairs[j + 1..];
      }
    }
  }

  /* ---- the octets ---- */

  /** Slot k of a segment. */
  function Slot(shm: seq<Byte>, k: nat): Entry
    requires 8 * k + 8 <= |shm|
  {
    Entry(FromBigEndian(shm[8 * k..8 * k + 4]), FromBigEndian(shm[8 * k + 4..8 * k + 8]))
  }

  /** The session, then the process, each with its most significant octet first. */
  lemma SlotOctets(shm: seq<Byte>, k: nat)
    requires 8 * k + 8 <= |shm|
    ensures shm[8 * k..8 * k + 8] == ToBigEndian(Slot(shm, k).sid) + ToBigEndian(Slot(shm, k).pid)
  {
    hide ToBigEndian, FromBigEndian;
    var a, b := shm[8 * k..8 * k + 4], shm[8 * k + 4..8 * k + 8];
    assert shm[8 * k..8 * k + 8] == a + b;
    BigEndianInjective(a);
    BigEndianInjective(b);
  }

  /** The first octets of shm hold exactly these pairs, and zeros up to the end of the segment. */
  ghost predicate Represents(shm: seq<Byte>, pairs: seq<Entry>) {
    && |shm| == SHM_SIZE && |pairs| <= SLOTS
    && (forall k :: 0 <= k < |pairs| ==> Slot(shm, k) == pairs[k] && pairs[k].sid != 0 && pairs[k].pid != 0)
    && (forall a :: 8 * |pairs| <= a < SHM_SIZE ==> shm[a] == 0)
  }

  lemma EmptySlot(shm: seq<Byte>, pairs: seq<Entry>, k: nat)
    requires Represents(shm, pairs) && |pairs| <= k < SLOTS
    ensures Slot(shm, k) == Entry(0, 0)
  {
    assert shm[8 * k..8 * k + 4] == [0, 0, 0, 0];
    assert shm[8 * k + 4..8 * k + 8] == [0, 0, 0, 0];
  }

  /** What a slot of a well-formed segment holds. */
  lemma SlotIs(shm: seq<Byte>, pairs: seq<Entry>, k: nat)
    requires Represents(shm, pairs) && k < SLOTS
    ensures |shm| == SHM_SIZE && |pairs| <= SLOTS
    ensures Slot(shm, k) == if k < |pairs| then pairs[k] else Entry(0, 0)
    ensures k < |pairs| ==> pairs[k].sid != 0 && pairs[k].pid != 0
  {
    if k >= |pairs| {
      EmptySlot(shm, pairs, k);
    }
  }

  lemma SlotFrame(shm: seq<Byte>, shm': seq<Byte>, k: nat, l: nat)
    requires 8 * k + 8 <= |shm| && 8 * l + 8 <= |shm'|
    requires shm[8 * k..8 * k + 8] == shm'[8 * l..8 * l + 8]
    ensures Slot(shm, k) == Slot(shm', l)
  {
    var s, s' := shm[8 * k..8 * k + 8], shm'[8 * l..8 * l + 8];
    assert s[..4] == shm[8 * k..8 * k + 4] && s[4..] == shm[8 * k + 4..8 * k + 8];
    assert s'[..4] == shm'[8 * l..8 * l + 4] && s'[4..] == shm'[8 * l + 4..8 * l + 8];
  }

  /** Writing a pair into the first free slot appends it. */
  lemma AppendRepresents(shm: seq<Byte>, shm': seq<Byte>, pairs: seq<Entry>, e: Entry)
    requires Represents(shm, pairs) && |pairs| < SLOTS && e.sid != 0 && e.pid != 0
    requires |shm'| == SHM_SIZE
    requires var i := 8 * |pairs|;
      var octets := ToBigEndian(e.sid) + ToBigEndian(e.pid);
      forall a :: 0 <= a < SHM_SIZE ==> shm'[a] == if i <= a < i + 8 then octets[a - i] else shm[a]
    ensures Represents(shm', pairs + [e])
  {
    var n := |pairs|;
    var i := 8 * n;
    forall k | 0 <= k < n
      ensures Slot(shm', k) == pairs[k]
    {
      assert shm'[8 * k..8 * k + 8] == shm[8 * k..8 * k + 8];
      SlotFrame(shm, shm', k, k);
    }
    assert shm'[i..i + 4] == ToBigEndian(e.sid);
    assert shm'[i + 4..i + 8] == ToBigEndian(e.pid);
    BigEndianRoundTrip(e.sid);
    BigEndianRoundTrip(e.pid);
    assert Slot(shm', n) == e;
  }

  /** shm' is shm with everything behind slot j moved down by one slot. */
  ghost predicate ShiftedDown(shm: seq<Byte>, shm': seq<Byte>, j: nat) {
    && |shm| == |shm'| == SHM_SIZE
    && j < SLOTS
    && (forall a {:trigger shm'[a]} :: 0 <= a < 8 * j ==> shm'[a] == shm[a])
    && (forall a {:trigger shm'[a]} :: 8 * j <= a < SHM_SIZE - 8 ==> shm'[a] == shm[a + 8])
    && (forall a {:trigger shm'[a]} :: SHM_SIZE - 8 <= a < SHM_SIZE ==> shm'[a] == 0)
  }

  lemma ShiftSlot(shm: seq<Byte>, shm': seq<Byte>, j: nat, k: nat)
    requires ShiftedDown(shm, shm', j) && k + 1 < SLOTS
    ensures Slot(shm', k) == Slot(shm, if k < j then k else k + 1)
  {
    if k < j {
      assert shm'[8 * k..8 * k + 8] == shm[8 * k..8 * k + 8];
      SlotFrame(shm, shm', k, k);
    } else {
      assert shm'[8 * k..8 * k + 8] == shm[8 * (k + 1)..8 * (k + 1) + 8];
      SlotFrame(shm, shm', k + 1, k);
    }
  }

  /** That removes entry j. */
  lemma ShiftRepresents(shm: seq<Byte>, shm': seq<Byte>, pairs: seq<Entry>, j: nat)
    requires Represents(shm, pairs) && j < |pairs| && ShiftedDown(shm, shm', j)
    ensures Represents(shm', pairs[..j] + pairs[j + 1..])
  {
    var rest := pairs[..j] + pairs[j + 1..];
    hide Slot;
    forall k | 0 <= k < |rest|
      ensures Slot(shm', k) == rest[k] && rest[k].sid != 0 && rest[k].pid != 0
    {
      ShiftSlot(shm, shm', j, k);
      assert rest[k] == pairs[if k < j then k else k + 1];
    }
  }

  /* ---- the segment ---- */

  /** Memory from the start of the attached segment on. The segment itself is the
      first SHM_SIZE octets; that as many behind it can be written without a fault
      is an assumption, needed only by adds that overrun the segment. */
  class SharedSegment {
    const mem: array<Byte>
    ghost var pairs: seq<Entry>

    ghost predicate Valid()
      reads this, mem
    {
      mem.Length >= 2 * SHM_SIZE && Represents(mem[..SHM_SIZE], pairs)
    }

    /** A new segment is cleared. */
    constructor ()
      ensures Valid() && pairs == [] && fresh(mem)
    {
      mem := new Byte[2 * SHM_SIZE](_ => 0);
      pairs := [];
    }

    method ReadSlot(i: nat) returns (e: Entry)
      requires i % 8 == 0 && i + 8 <= SHM_SIZE <= mem.Length
      ensures e == Slot(mem[..SHM_SIZE], i / 8)
    {
      var k := i / 8;
      assert mem[..SHM_SIZE][8 * k..8 * k + 4] == mem[i..i + 4];
      assert mem[..SHM_SIZE][8 * k + 4..8 * k + 8] == mem[i + 4..i + 8];
      e := Entry(FromBigEndian(mem[i..i + 4]), FromBigEndian(mem[i + 4..i + 8]));
    }

    /** The common scanning loop: up to the first slot of the session, the
        terminator, or the end of the segment. On return the cursor i is behind
        slot j; `found` tells whether slot j holds the session. */
    method Scan(sid: Word) returns (i: nat, e: Entry, found: bool, ghost j: nat)
      requires Valid() && sid != 0
      ensures i == 8 * (j + 1) && i <= SHM_SIZE
      ensures found ==> j < |pairs| && e == pairs[j] && e.sid == sid && forall k :: 0 <= k < j ==> pairs[k].sid != sid
      ensures !found ==> forall k :: 0 <= k < |pairs| ==> pairs[k].sid != sid
    {
      hide Represents, Slot;
      SlotIs(mem[..SHM_SIZE], pairs, 0);
      e := ReadSlot(0);
      i, j, found := 8, 0, false;
      while !(e.sid == 0 && e.pid == 0)
        invariant i == 8 * (j + 1) && i <= SHM_SIZE && !found && |pairs| <= SLOTS
        invariant j <= |pairs| && e == if j < |pairs| then pairs[j] else Entry(0, 0)
        invariant j < |pairs| ==> pairs[j].sid != 0
        invariant forall k :: 0 <= k < j ==> pairs[k].sid != sid
        decreases SHM_SIZE - i
      {
        if e.sid == sid {
          found := true;
          return;
        }
        if i + 8 > SHM_SIZE {
          break;
        }
        e := ReadSlot(i);
        i, j := i + 8, j + 1;
        SlotIs(mem[..SHM_SIZE], pairs, j);
      }
    }

    /** find_pid_for_this_sid: the first match, or zero. */
    method FindPidForSid(sid: Word) returns (pid: Word)
      requires Valid() && sid != 0
      ensures pid == FindFirst(pairs, sid)
    {
      var i, e, found;
      ghost var j;
      i, e, found, j := Scan(sid);
      pid := 0;
      if found {
        pid := e.pid;
        FirstAt(pairs, sid, j);
      } else {
        FirstAt(pairs, sid, |pairs|);
      }
    }

    /** remove_pid_for_this_sid: deletes exactly the first match. */
    method RemovePidForSid(sid: Word)
      requires Valid() && sid != 0
      modifies this, mem
      ensures Valid() && pairs == RemoveFirst(old(pairs), sid)
      ensures mem[SHM_SIZE..] == old(mem[SHM_SIZE..])
    {
      var i, e, found;
      ghost var j;
      i, e, found, j := Scan(sid);
      if found {
        hide Represents, RemoveFirst;
        FirstAt(pairs, sid, j);
        ghost var was := mem[..SHM_SIZE];
        ShiftDown(i, j);
        ShiftRepresents(was, mem[..SHM_SIZE], pairs, j);
        pairs := RemoveFirst(pairs, sid);
      } else {
        FirstAt(pairs, sid, |pairs|);
      }
    }

    /** Moves what is behind the cursor, which is behind slot j, down by one slot. */
    method ShiftDown(cursor: nat, ghost j: nat)
      requires mem.Length >= SHM_SIZE && cursor == 8 * (j + 1) <= SHM_SIZE
      modifies mem
      ensures ShiftedDown(old(mem[..SHM_SIZE]), mem[..SHM_SIZE], j)
      ensures mem[SHM_SIZE..] == old(mem[SHM_SIZE..])
    {
      var i := cursor;
      var tmp := mem[i..SHM_SIZE];
      i := i - 8;
      Put(i, tmp);
      i := i + |tmp|;
      Put(i, [0, 0, 0, 0, 0, 0, 0, 0]);
    }

    /** add_sid_pid_pair_to_shm: appends, unless all 512 slots are taken. The
        clear after the new pair is given the end position instead of a length,
        so it reaches up to octet 2 i + 8, where i is the end of the new pair. */
    method AddSidPidPair(sid: Word, pid: Word) returns (rc: int)
      requires Valid() && sid != 0 && pid != 0
      modifies this, mem
      ensures Valid()
      ensures rc == if |old(pairs)| < SLOTS then 0 else -ENOMEM
      ensures pairs == if rc == 0 then old(pairs) + [Entry(sid, pid)] else old(pairs)
      ensures forall a :: SHM_SIZE <= a < mem.Length ==>
        mem[a] == if rc == 0 && a < ClearEnd(|old(pairs)|) then 0 else old(mem[a])
    {
      var i, full := FindTerminator();
      if full {
        return -ENOMEM;
      }
      i := i - 8;
      WriteEntry(i, Entry(sid, pid));
      pairs := pairs + [Entry(sid, pid)];
      rc := 0;
    }

    /** The scanning loop of the add: on return the cursor i is behind the terminator. */
    method FindTerminator() returns (i: nat, full: bool)
      requires Valid()
      ensures full <==> |pairs| == SLOTS
      ensures !full ==> i == 8 * (|pairs| + 1) <= SHM_SIZE
    {
      hide Represents, Slot;
      SlotIs(mem[..SHM_SIZE], pairs, 0);
      var e := ReadSlot(0);
      i, full := 8, false;
      ghost var j := 0;
      while !(e.sid == 0 && e.pid == 0)
        invariant i == 8 * (j + 1) && i <= SHM_SIZE && |pairs| <= SLOTS
        invariant j <= |pairs| && e == if j < |pairs| then pairs[j] else Entry(0, 0)
        invariant j < |pairs| ==> pairs[j].sid != 0
        decreases SHM_SIZE - i
      {
        if i + 8 > SHM_SIZE {
          full := true;
          return;
        }
        e := ReadSlot(i);
        i, j := i + 8, j + 1;
        SlotIs(mem[..SHM_SIZE], pairs, j);
      }
    }

    /** memcpy or memset into the segment. */
    method Put(at: nat, s: seq<Byte>)
      requires at + |s| <= mem.Length
      modifies mem
      ensures forall a :: 0 <= a < mem.Length ==> mem[a] == if at <= a < at + |s| then s[a - at] else old(mem[a])
    {
      forall k | 0 <= k < |s| {
        mem[at + k] := s[k];
      }
    }

    /** Writes the pair at i and clears behind it. */
    method WriteEntry(at: nat, e: Entry)
      requires Valid() && at == 8 * |pairs| && |pairs| < SLOTS && e.sid != 0 && e.pid != 0
      modifies mem
      ensures Represents(mem[..SHM_SIZE], pairs + [e])
      ensures forall a :: SHM_SIZE <= a < mem.Length ==>
        mem[a] == if a < ClearEnd(|pairs|) then 0 else old(mem[a])
    {
      ghost var was := mem[..SHM_SIZE];
      assert forall a :: at <= a < SHM_SIZE ==> mem[a] == was[a] == 0;
      assert Represents(was, pairs);
      hide Represents, ToBigEndian;
      var octets := ToBigEndian(e.sid) + ToBigEndian(e.pid);
      Put(at, octets);
      var i := at + 8;
      if i + 8 <= SHM_SIZE {
        Put(i, seq(i + 8, _ => 0));
      }
      ghost var now := mem[..SHM_SIZE];
      AppendRepresents(was, now, pairs, e);
    }
  }

  /** Where the clear after the (n+1)-st pair ends. */
  function ClearEnd(n: nat): nat {
    var i := 8 * (n + 1);
    if i + 8 <= SHM_SIZE then i + (i + 8) else i
  }

  /** The clear stays inside the segment exactly while at most 255 pairs result
      (or when the last slot of all is filled, where nothing is cleared). */
  lemma ClearStaysInside(n: nat)
    requires n < SLOTS
    ensures ClearEnd(n) <= SHM_SIZE <==> n + 1 <= 255 || n + 1 == SLOTS
  {
  }

  /* ---- runs of atomic steps ---- */

  datatype Op = Add(sid: Word, pid: Word) | Find(sid: Word) | Remove(sid: Word)

  predicate ValidOp(op: Op) { op.sid != 0 && (op.Add? ==> op.pid != 0) }

  function Apply(pairs: seq<Entry>, op: Op): seq<Entry> {
    match op
    case Add(sid, pid) => if |pairs| < SLOTS then pairs + [Entry(sid, pid)] else pairs
    case Find(_) => pairs
    case Remove(sid) => RemoveFirst(pairs, sid)
  }

  function RunOps(pairs: seq<Entry>, ops: seq<Op>): seq<Entry>
    decreases |ops|
  {
    if ops == [] then pairs else Apply(RunOps(pairs, ops[..|ops| - 1]), ops[|ops| - 1])
  }

  /** Step k of a run is an add whose clear runs over the end of the segment. */
  predicate OverrunsAt(pairs: seq<Entry>, ops: seq<Op>, k: nat)
    requires k < |ops|
  {
    ops[k].Add? && 255 <= |RunOps(pairs, ops[..k])| <= 510
  }

  /** How far the clear of one step reaches. */
  function StepReach(pairs: seq<Entry>, op: Op): nat {
    if op.Add? && |pairs| < SLOTS then ClearEnd(|pairs|) else SHM_SIZE
  }

  /** How far the clears of a run have reached. */
  function Reach(pairs: seq<Entry>, ops: seq<Op>): (r: nat)
    ensures r >= SHM_SIZE
    decreases |ops|
  {
    if ops == [] then SHM_SIZE
    else
      var front := ops[..|ops| - 1];
      var r, s := Reach(pairs, front), StepReach(RunOps(pairs, front), ops[|ops| - 1]);
      if s > r then s else r
  }

  lemma ReachStep(pairs: seq<Entry>, ops: seq<Op>)
    requires ops != []
    ensures var n := |ops| - 1;
      Reach(pairs, ops) == SHM_SIZE <==> Reach(pairs, ops[..n]) == SHM_SIZE && !OverrunsAt(pairs, ops, n)
  {
    hide RunOps;
    var now := |RunOps(pairs, ops[..|ops| - 1])|;
    if now < SLOTS {
      ClearStaysInside(now);
    }
  }

  /** A run leaves the memory behind the segment alone if and only if no add in it
      overruns. */
  lemma {:induction false} ReachesBehindIff(pairs: seq<Entry>, ops: seq<Op>)
    ensures Reach(pairs, ops) == SHM_SIZE <==> forall k :: 0 <= k < |ops| ==> !OverrunsAt(pairs, ops, k)
    decreases |ops|
  {
    hide RunOps, Reach;
    if ops == [] {
      ReachNothing(pairs);
    } else {
      var n := |ops| - 1;
      var front := ops[..n];
      ReachStep(pairs, ops);
      ReachesBehindIff(pairs, front);
      forall k | 0 <= k < n
        ensures OverrunsAt(pairs, front, k) <==> OverrunsAt(pairs, ops, k)
      {
        assert front[..k] == ops[..k];
      }
      hide OverrunsAt;
    }
  }

  lemma ReachNothing(pairs: seq<Entry>)
    ensures Reach(pairs, []) == SHM_SIZE
  {
  }

  /** Behind the segment, `after` is `before` cleared up to r. */
  ghost predicate ClearedTo(before: seq<Byte>, after: seq<Byte>, r: nat) {
    && |after| == |before|
    && forall a :: SHM_SIZE <= a < |after| ==> after[a] == if a < r then 0 else before[a]
  }

  lemma ClearedTwice(a: seq<Byte>, b: seq<Byte>, c: seq<Byte>, r: nat, s: nat)
    requires ClearedTo(a, b, r) && ClearedTo(b, c, s)
    ensures ClearedTo(a, c, if s > r then s else r)
  {
  }

  lemma RunStep(pairs: seq<Entry>, ops: seq<Op>, k: nat)
    requires k < |ops|
    ensures RunOps(pairs, ops[..k + 1]) == Apply(RunOps(pairs, ops[..k]), ops[k])
    ensures var r, s := Reach(pairs, ops[..k]), StepReach(RunOps(pairs, ops[..k]), ops[k]);
      Reach(pairs, ops[..k + 1]) == if s > r then s else r
  {
    assert ops[..k + 1][..k] == ops[..k];
  }

  lemma RunStart(pairs: seq<Entry>, ops: seq<Op>, mem: seq<Byte>)
    ensures RunOps(pairs, ops[..0]) == pairs && ClearedTo(mem, mem, Reach(pairs, ops[..0]))
  {
    assert ops[..0] == [];
  }

  /** Every find among the first k steps got the first match at its time. */
  ghost predicate Answers(found: seq<Word>, pairs: seq<Entry>, ops: seq<Op>, k: nat)
    requires k <= |ops|
  {
    && |found| == k
    && forall i :: 0 <= i < k && ops[i].Find? ==> found[i] == FindFirst(RunOps(pairs, ops[..i]), ops[i].sid)
  }

  lemma AnswersStep(found: seq<Word>, answer: Word, pairs: seq<Entry>, ops: seq<Op>, k: nat)
    requires k < |ops| && Answers(found, pairs, ops, k)
    requires ops[k].Find? ==> answer == FindFirst(RunOps(pairs, ops[..k]), ops[k].sid)
    ensures Answers(found + [answer], pairs, ops, k + 1)
  {
    hide RunOps, FindFirst;
  }

  /** Any sequence of atomic steps on the octets is the same sequence on the list;
      behind the segment it clears exactly what its adds reach. */
  method Execute(segment: SharedSegment, ops: seq<Op>) returns (found: seq<Word>)
    requires segment.Valid() && forall k :: 0 <= k < |ops| ==> ValidOp(ops[k])
    modifies segment, segment.mem
    ensures segment.Valid() && segment.pairs == RunOps(old(segment.pairs), ops)
    ensures Answers(found, old(segment.pairs), ops, |ops|)
    ensures ClearedTo(old(segment.mem[..]), segment.mem[..], Reach(old(segment.pairs), ops))
  {
    hide Represents, FindFirst, RunOps, Reach, ClearedTo, Apply, StepReach;
    found := [];
    ghost var was, pairs0 := segment.mem[..], segment.pairs;
    var k := 0;
    RunStart(pairs0, ops, was);
    assert Answers(found, pairs0, ops, 0);
    hide Answers;
    while k < |ops|
      invariant 0 <= k <= |ops| && segment.Valid()
      invariant segment.pairs == RunOps(pairs0, ops[..k]) && Answers(found, pairs0, ops, k)
      invariant ClearedTo(was, segment.mem[..], Reach(pairs0, ops[..k]))
    {
      RunStep(pairs0, ops, k);
      ghost var before, s := segment.mem[..], StepReach(segment.pairs, ops[k]);
      var answer := ExecuteOne(segment, ops[k]);
      ClearedTwice(was, before, segment.mem[..], Reach(pairs0, ops[..k]), s);
      AnswersStep(found, answer, pairs0, ops, k);
      found := found + [answer];
      k := k + 1;
    }
    assert ops[..k] == ops;
  }

  method ExecuteOne(segment: SharedSegment, op: Op) returns (answer: Word)
    requires segment.Valid() && ValidOp(op)
    modifies segment, segment.mem
    ensures segment.Valid() && segment.pairs == Apply(old(segment.pairs), op)
    ensures op.Find? ==> answer == FindFirst(old(segment.pairs), op.sid)
    ensures ClearedTo(old(segment.mem[..]), segment.mem[..], StepReach(old(segment.pairs), op))
  {
    hide Represents, FindFirst, RemoveFirst;
    answer := 0;
    match op {
      case Add(sid, pid) => var rc := segment.AddSidPidPair(sid, pid);
      case Find(sid) => answer := segment.FindPidForSid(sid);
      case Remove(sid) =>
        ghost var was := segment.mem[..];
        segment.RemovePidForSid(sid);
        assert forall a :: SHM_SIZE <= a < |was| ==>
          segment.mem[a] == segment.mem[SHM_SIZE..][a - SHM_SIZE] == was[SHM_SIZE..][a - SHM_SIZE];
    }
  }

  /** The process ids of one session, oldest first. */
  function QueueOf(pairs: seq<Entry>, sid: Word): seq<Word> {
    if pairs == [] then []
    else (if pairs[0].sid == sid then [pairs[0].pid] else []) + QueueOf(pairs[1..], sid)
  }

  lemma {:induction false} QueueAppend(pairs: seq<Entry>, e: Entry, sid: Word)
    ensures QueueOf(pairs + [e], sid) == QueueOf(pairs, sid) + if e.sid == sid then [e.pid] else []
  {
    if pairs == [] {
      assert pairs + [e] == [e] && [e][1..] == [];
    } else {
      QueueAppend(pairs[1..], e, sid);
      var head := if pairs[0].sid == sid then [pairs[0].pid] else [];
      var last := if e.sid == sid then [e.pid] else [];
      calc {
        QueueOf(pairs + [e], sid);
        { assert (pairs + [e])[0] == pairs[0] && (pairs + [e])[1..] == pairs[1..] + [e]; }
        head + QueueOf(pairs[1..] + [e], sid);
        head + (QueueOf(pairs[1..], sid) + last);
        (head + QueueOf(pairs[1..], sid)) + last;
        QueueOf(pairs, sid) + last;
      }
    }
  }

  lemma {:induction false} QueueRemove(pairs: seq<Entry>, gone: Word, sid: Word)
    ensures var q := QueueOf(pairs, sid);
      QueueOf(RemoveFirst(pairs, gone), sid) == if gone == sid && q != [] then q[1..] else q
  {
    if pairs != [] && pairs[0].sid != gone {
      QueueRemove(pairs[1..], gone, sid);
      var r := RemoveFirst(pairs, gone);
      assert r[0] == pairs[0] && r[1..] == RemoveFirst(pairs[1..], gone);
      if pairs[0].sid == sid {
        assert ([pairs[0].pid] + QueueOf(pairs[1..], sid))[1..] == QueueOf(pairs[1..], sid);
      }
    } else if pairs != [] && gone == sid {
      assert ([pairs[0].pid] + QueueOf(pairs[1..], sid))[1..] == QueueOf(pairs[1..], sid);
    }
  }

  lemma {:induction false} FindIsFront(pairs: seq<Entry>, sid: Word)
    ensures var q := QueueOf(pairs, sid); FindFirst(pairs, sid) == if q == [] then 0 else q[0]
  {
    if pairs != [] && pairs[0].sid != sid {
      FindIsFront(pairs[1..], sid);
    }
  }

  /** A session's own queue under a sequence of steps: only its own steps matter. */
  function RunQueue(queue: seq<Word>, ops: seq<Op>, sid: Word): seq<Word>
    decreases |ops|
  {
    if ops == [] then queue
    else
      var q := RunQueue(queue, ops[..|ops| - 1], sid);
      var op := ops[|ops| - 1];
      if op.sid != sid || op.Find? then q
      else if op.Add? then q + [op.pid]
      else if q == [] then [] else q[1..]
  }

  function Adds(ops: seq<Op>): nat {
    if ops == [] then 0 else Adds(ops[..|ops| - 1]) + if ops[|ops| - 1].Add? then 1 else 0
  }

  lemma {:induction false} RemoveShrinks(pairs: seq<Entry>, sid: Word)
    ensures |RemoveFirst(pairs, sid)| <= |pairs|
  {
    if pairs != [] { RemoveShrinks(pairs[1..], sid); }
  }

  lemma {:induction false} RunGrows(pairs: seq<Entry>, ops: seq<Op>)
    ensures |RunOps(pairs, ops)| <= |pairs| + Adds(ops)
    decreases |ops|
  {
    if ops != [] {
      RunGrows(pairs, ops[..|ops| - 1]);
      RemoveShrinks(RunOps(pairs, ops[..|ops| - 1]), ops[|ops| - 1].sid);
    }
  }

  /** Over every sequence of steps that cannot overfill the table, sessions do
      not disturb each other: the table holds for each session the queue that its
      own adds and removes alone would give, and a find returns its front. */
  lemma {:induction false} SessionsAreIndependentQueues(pairs: seq<Entry>, ops: seq<Op>, sid: Word)
    requires |pairs| + Adds(ops) <= SLOTS
    ensures var q := RunQueue(QueueOf(pairs, sid), ops, sid);
      && QueueOf(RunOps(pairs, ops), sid) == q
      && FindFirst(RunOps(pairs, ops), sid) == if q == [] then 0 else q[0]
    decreases |ops|
  {
    if ops != [] {
      var front := ops[..|ops| - 1];
      SessionsAreIndependentQueues(pairs, front, sid);
      RunGrows(pairs, front);
      var now := RunOps(pairs, front);
      match ops[|ops| - 1]
      case Add(s, p) => QueueAppend(now, Entry(s, p), sid);
      case Find(_) =>
      case Remove(s) => QueueRemove(now, s, sid);
    }
    FindIsFront(RunOps(pairs, ops), sid);
  }
}
