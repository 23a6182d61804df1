/** The pool of connection tickets of the TSPI key module: ten tickets on two
    linked lists, moved between them by grabs and releases
    (src/key_mod/ecryptfs_key_mod_tspi.c). Every operation runs under the list
    lock and is one atomic step; waiting for a ticket is where a step ends. */
module TicketPool {
  import opened Common

  const MAX_CONNECTIONS := 10

  type Id = nat

  /** Following `next` from `head` yields exactly l. */
  ghost predicate IsList(next: seq<Option<Id>>, head: Option<Id>, l: seq<Id>)
    decreases |l|
  {
    match head
    case None => l == []
    case Some(t) => l != [] && l[0] == t && t < |next| && IsList(next, next[t], l[1..])
  }

  /** No ticket occurs twice on the two lists. */
  ghost predicate Separate(free: seq<Id>, used: seq<Id>) {
    forall t: Id :: multiset(free)[t] + multiset(used)[t] <= 1
  }

  /** The first connected ticket of a list, or its length. */
  function FirstConnected(connected: seq<bool>, l: seq<Id>, k: nat): (p: nat)
    requires k <= |l| && forall i :: 0 <= i < |l| ==> l[i] < |connected|
    ensures k <= p <= |l|
    ensures forall i :: k <= i < p ==> !connected[l[i]]
    ensures p < |l| ==> connected[l[p]]
    decreases |l| - k
  {
    if k == |l| || connected[l[k]] then k else FirstConnected(connected, l, k + 1)
  }

  /** The connected tickets of the free list are its first c. */
  ghost predicate ConnectedPrefix(connected: seq<bool>, free: seq<Id>, c: nat) {
    && c <= |free|
    && (forall k :: 0 <= k < |free| ==> free[k] < |connected| && (connected[free[k]] <==> k < c))
  }

  lemma {:induction false} ListInRange(next: seq<Option<Id>>, head: Option<Id>, l: seq<Id>)
    requires IsList(next, head, l)
    ensures forall k :: 0 <= k < |l| ==> l[k] < |next|
    decreases |l|
  {
    if l != [] { ListInRange(next, next[l[0]], l[1..]); }
  }

  /** Writing the link of a ticket that is not on the list does not matter. */
  lemma {:induction false} ListFrame(next: seq<Option<Id>>, head: Option<Id>, l: seq<Id>, t: Id, link: Option<Id>)
    requires IsList(next, head, l) && t !in l && t < |next|
    ensures IsList(next[t := link], head, l)
    decreases |l|
  {
    if l != [] { ListFrame(next, next[l[0]], l[1..], t, link); }
  }

  /** The tail of a list behind position p starts at the link of its element p. */
  lemma {:induction false} ListTail(next: seq<Option<Id>>, head: Option<Id>, l: seq<Id>, p: nat)
    requires IsList(next, head, l) && p < |l|
    ensures l[p] < |next| && IsList(next, next[l[p]], l[p + 1..])
    decreases p
  {
    if p > 0 {
      ListTail(next, next[l[0]], l[1..], p - 1);
      assert l[1..][p..] == l[p + 1..];
    }
  }

  lemma HeadIs(next: seq<Option<Id>>, head: Option<Id>, l: seq<Id>)
    requires IsList(next, head, l)
    ensures head == if l == [] then None else Some(l[0])
  {
  }

  lemma ListPush(next: seq<Option<Id>>, head: Option<Id>, l: seq<Id>, t: Id)
    requires IsList(next, head, l) && t < |next| && t !in l
    ensures IsList(next[t := head], Some(t), [t] + l)
  {
    ListFrame(next, head, l, t, head);
    assert ([t] + l)[1..] == l;
  }

  /** Moving element p of the first list to the front of the second, and
      dropping what stood before it, keeps the lists separate. */
  lemma SeparateMove(a: seq<Id>, b: seq<Id>, p: nat)
    requires Separate(a, b) && p < |a|
    ensures a[p] !in b && a[p] !in a[p + 1..]
    ensures Separate(a[p + 1..], [a[p]] + b)
  {
    assert a == a[..p] + ([a[p]] + a[p + 1..]);
    assert multiset(a) == multiset(a[..p]) + (multiset{a[p]} + multiset(a[p + 1..]));
    assert multiset([a[p]] + b) == multiset{a[p]} + multiset(b);
    var t := a[p];
    assert multiset(a)[t] + multiset(b)[t] <= 1;
    assert t !in multiset(b) && t !in multiset(a[p + 1..]);
  }

  lemma SeparatePush(a: seq<Id>, t: Id)
    requires Separate(a, []) && t !in a
    ensures Separate([t] + a, [])
  {
    assert multiset([t] + a) == multiset{t} + multiset(a);
    assert multiset(a)[t] == 0;
    forall u: Id
      ensures multiset([t] + a)[u] + multiset([])[u] <= 1
    {
      assert multiset(a)[u] + multiset([])[u] <= 1;
    }
  }

  lemma SeparateSwap(a: seq<Id>, b: seq<Id>)
    requires Separate(a, b)
    ensures Separate(b, a)
  {
  }

  /** NullTicket: with both lists empty the code follows a NULL pointer. */
  datatype GrabResult = Granted(ticket: Id) | ConnectFailed | MustWait(ticket: Id) | NullTicket

  datatype State = State(free: seq<Id>, used: seq<Id>, connected: seq<bool>,
                         numFree: int, numUsed: int, numConnected: int)

  ghost predicate InRange(s: State) {
    && |s.connected| == MAX_CONNECTIONS
    && (forall k :: 0 <= k < |s.free| ==> s.free[k] < MAX_CONNECTIONS)
    && (forall k :: 0 <= k < |s.used| ==> s.used[k] < MAX_CONNECTIONS)
  }

  /** Every ticket is on one of the lists, the counters are the lengths, used
      tickets are connected, and so are the first c free ones and no others. */
  ghost predicate Accounted(s: State, c: nat) {
    && InRange(s) && Separate(s.free, s.used)
    && |s.free| + |s.used| == MAX_CONNECTIONS
    && s.numFree == |s.free| && s.numUsed == |s.used|
    && ConnectedPrefix(s.connected, s.free, c)
    && (forall k :: 0 <= k < |s.used| ==> s.connected[s.used[k]])
    && s.numConnected == c + |s.used|
  }

  /** The position of the free ticket a grab takes: the first connected one, or
      the head of the list, which is then connected. */
  ghost function Choice(s: State): (p: nat)
    requires InRange(s) && s.free != []
    ensures p < |s.free|
  {
    var p := FirstConnected(s.connected, s.free, 0);
    if p < |s.free| then p else 0
  }

  /** A grab that finds a free ticket: None if no free ticket is connected and
      connecting one fails. */
  ghost function Grabbed(s: State, connectOk: bool): Option<State>
    requires InRange(s) && s.free != []
  {
    var p := Choice(s);
    var t := s.free[p];
    if !s.connected[t] && !connectOk then None
    else Some(State(s.free[p + 1..], [t] + s.used, s.connected[t := true],
                    s.numFree - 1, s.numUsed + 1, s.numConnected + if s.connected[t] then 0 else 1))
  }

  lemma GrabFails(s: State)
    requires InRange(s) && s.free != [] && !s.connected[s.free[Choice(s)]]
    ensures Grabbed(s, false) == None
  {
  }

  lemma GrabSucceeds(s: State, connectOk: bool)
    requires InRange(s) && s.free != [] && (s.connected[s.free[Choice(s)]] || connectOk)
    ensures var p := Choice(s);
      var t := s.free[p];
      Grabbed(s, connectOk) ==
        Some(State(s.free[p + 1..], [t] + s.used, s.connected[t := true],
                   s.numFree - 1, s.numUsed + 1, s.numConnected + if s.connected[t] then 0 else 1))
  {
  }

  /** What a grab does to the pool and the counts of waiters. */
  ghost predicate GrabOutcome(s: State, pending: seq<nat>, connectOk: bool, r: GrabResult,
                              s': State, pending': seq<nat>)
    requires InRange(s) && |pending| == MAX_CONNECTIONS
  {
    match r
    case NullTicket => s.free == [] && s.used == [] && s' == s && pending' == pending
    case Granted(t) =>
      && s.free != [] && Grabbed(s, connectOk) == Some(s')
      && t == s.free[Choice(s)] && pending' == pending
    case ConnectFailed =>
      && s.free != [] && Grabbed(s, connectOk) == None
      && s' == s && pending' == pending
    case MustWait(t) =>
      && s.free == [] && s' == s
      && t in s.used && t < |pending| && pending' == pending[t := pending[t] + 1]
      && forall k :: 0 <= k < |s.used| ==> pending[t] <= pending[s.used[k]]
  }

  /** The release of used[p]: what follows it on the used list remains. */
  ghost function Released(s: State, p: nat): State
    requires p < |s.used|
  {
    s.(free := [s.used[p]] + s.free, used := s.used[p + 1..], numFree := s.numFree + 1, numUsed := s.numUsed - 1)
  }

  class Pool {
    var next: seq<Option<Id>>
    var connected: seq<bool>
    var pending: seq<nat>
    var freeHead: Option<Id>
    var usedHead: Option<Id>
    var numFree: int
    var numUsed: int
    var numConnected: int
    ghost var free: seq<Id>
    ghost var used: seq<Id>

    /** The heads and next pointers describe two lists without common elements. */
    ghost predicate Linked()
      reads this
    {
      && |next| == |connected| == |pending| == MAX_CONNECTIONS
      && IsList(next, freeHead, free) && IsList(next, usedHead, used)
      && (forall k :: 0 <= k < |free| ==> free[k] < MAX_CONNECTIONS)
      && (forall k :: 0 <= k < |used| ==> used[k] < MAX_CONNECTIONS)
      && Separate(free, used)
    }

    /** What the lists, flags and counters say. */
    ghost function View(): State
      reads this
    {
      State(free, used, connected, numFree, numUsed, numConnected)
    }

    /** ecryptfs_tspi_init: ten fresh tickets are pushed on the free list. */
    constructor ()
      ensures Linked() && Accounted(View(), 0) && used == [] && pending == seq(MAX_CONNECTIONS, _ => 0)
    {
      next := seq(MAX_CONNECTIONS, _ => None);
      connected := seq(MAX_CONNECTIONS, _ => false);
      pending := seq(MAX_CONNECTIONS, _ => 0);
      freeHead, usedHead := None, None;
      numFree, numUsed, numConnected := 0, 0, 0;
      free, used := [], [];
      new;
      var i := 0;
      while i < MAX_CONNECTIONS
        invariant 0 <= i <= MAX_CONNECTIONS && Filled(i)
        invariant pending == seq(MAX_CONNECTIONS, _ => 0)
      {
        AddTicket(i);
        i := i + 1;
      }
    }

    /** Tickets 0 to i - 1 have been pushed on the free list. */
    ghost predicate Filled(i: nat)
      reads this
    {
      && |next| == MAX_CONNECTIONS && connected == seq(MAX_CONNECTIONS, _ => false)
      && used == [] && usedHead.None? && numUsed == numConnected == 0
      && numFree == i == |free| && IsList(next, freeHead, free)
      && (forall k :: 0 <= k < |free| ==> free[k] < i) && Separate(free, [])
    }

    method AddTicket(i: nat)
      requires i < MAX_CONNECTIONS && Filled(i)
      modifies `next, `freeHead, `free, `numFree
      ensures Filled(i + 1)
    {
      ListPush(next, freeHead, free, i);
      SeparatePush(free, i);
      hide IsList, Separate;
      next := next[i := freeHead];
      freeHead := Some(i);
      free := [i] + free;
      numFree := numFree + 1;
    }

    /** The walk along the free list for a connected ticket. */
    method FindConnected() returns (t: Option<Id>, ghost p: nat)
      requires Linked()
      ensures p == FirstConnected(connected, free, 0)
      ensures t == if p < |free| then Some(free[p]) else None
    {
      ListInRange(next, freeHead, free);
      t := freeHead;
      p := 0;
      while t.Some?
        invariant 0 <= p <= |free| && IsList(next, t, free[p..])
        invariant FirstConnected(connected, free, 0) == FirstConnected(connected, free, p)
        decreases |free| - p
      {
        if connected[t.value] {
          return;
        }
        t := next[t.value];
        p := p + 1;
      }
    }

    /** The walk along the used list for the ticket with the fewest waiters. */
    method LeastPending() returns (t: Id)
      requires Linked() && usedHead.Some?
      ensures t in used && forall k :: 0 <= k < |used| ==> pending[t] <= pending[used[k]]
    {
      ListInRange(next, usedHead, used);
      t := usedHead.value;
      var tmp: Option<Id> := next[t];
      ghost var k := 1;
      while tmp.Some?
        invariant 1 <= k <= |used| && IsList(next, tmp, used[k..])
        invariant t in used && forall i :: 0 <= i < k ==> pending[t] <= pending[used[i]]
        decreases |used| - k
      {
        if pending[tmp.value] < pending[t] {
          t := tmp.value;
        }
        tmp := next[tmp.value];
        k := k + 1;
      }
    }

    /** Takes ticket free[p] off the free list and puts it in front of the used
        list; whatever stood before it on the free list is dropped. */
    method Move(t: Id, ghost p: nat)
      requires Linked() && p < |free| && free[p] == t
      modifies `next, `freeHead, `usedHead, `numFree, `numUsed, `free, `used
      ensures Linked() && free == old(free)[p + 1..] && used == [t] + old(used)
      ensures numFree == old(numFree) - 1 && numUsed == old(numUsed) + 1
    {
      ListTail(next, freeHead, free, p);
      SeparateMove(free, used, p);
      freeHead := next[t];
      ListPush(next, usedHead, used, t);
      ListFrame(next, freeHead, free[p + 1..], t, usedHead);
      next := next[t := usedHead];
      usedHead := Some(t);
      free, used := free[p + 1..], [t] + used;
      numFree, numUsed := numFree - 1, numUsed + 1;
    }

    /** The choice of a free ticket: the first connected one, or the head, which is
        then connected; None if that fails. */
    method Obtain(connectOk: bool) returns (t: Option<Id>, ghost p: nat)
      requires Linked() && free != []
      modifies `connected, `numConnected
      ensures Linked() && p == Choice(old(View()))
      ensures t.None? <==> !old(connected)[free[p]] && !connectOk
      ensures t.None? ==> View() == old(View())
      ensures t.Some? ==>
        && t.value == free[p] && connected == old(connected)[t.value := true]
        && numConnected == old(numConnected) + if old(connected)[t.value] then 0 else 1
    {
      hide Separate, IsList;
      t, p := FindConnected();
      HeadIs(next, freeHead, free);
      if t.None? {
        p := 0;
        if !connectOk {
          return;
        }
        t := freeHead;
        connected := connected[t.value := true];
        numConnected := numConnected + 1;
      } else {
        assert connected == connected[t.value := true];
      }
    }

    /** ecryptfs_tspi_grab_ticket up to the point where the caller has its ticket
        or has to wait for one; `connectOk` is the outcome of connecting. */
    method Grab(connectOk: bool) returns (r: GrabResult)
      requires Linked()
      modifies this
      ensures Linked() && InRange(old(View())) && |old(pending)| == MAX_CONNECTIONS
      ensures GrabOutcome(old(View()), old(pending), connectOk, r, View(), pending)
      ensures !r.Granted? ==> next == old(next)
    {
      HeadIs(next, freeHead, free);
      HeadIs(next, usedHead, used);
      hide Separate, IsList, Choice, Grabbed;
      if freeHead.Some? {
        r := Take(connectOk);
      } else if usedHead.Some? {
        var t := Wait();
        r := MustWait(t);
      } else {
        r := NullTicket;
      }
    }

    /** With no free ticket: wait for the used one with the fewest waiters. */
    method Wait() returns (t: Id)
      requires Linked() && used != []
      modifies `pending
      ensures Linked() && t in used && t < |old(pending)| && pending == old(pending)[t := old(pending)[t] + 1]
      ensures forall k :: 0 <= k < |used| ==> old(pending)[t] <= old(pending)[used[k]]
    {
      HeadIs(next, usedHead, used);
      hide Separate, IsList;
      t := LeastPending();
      pending := pending[t := pending[t] + 1];
    }

    /** With a free ticket: take it, connecting it if none is connected. */
    method Take(connectOk: bool) returns (r: GrabResult)
      requires Linked() && free != []
      modifies this
      ensures Linked() && InRange(old(View())) && pending == old(pending)
      ensures match Grabbed(old(View()), connectOk)
        case None => r == ConnectFailed && View() == old(View()) && next == old(next)
        case Some(s) => r == Granted(old(free)[Choice(old(View()))]) && View() == s
    {
      hide Separate, IsList, Choice, Grabbed;
      ghost var was := View();
      var t;
      ghost var p;
      t, p := Obtain(connectOk);
      if t.None? {
        GrabFails(was);
        return ConnectFailed;
      }
      Move(t.value, p);
      GrabSucceeds(was, connectOk);
      var waiters := pending;
      pending := waiters[t.value := waiters[t.value] + 1];
      pending := pending[t.value := pending[t.value] - 1];
      assert pending == waiters;
      return Granted(t.value);
    }

    /** ecryptfs_tspi_release_ticket of any ticket, whether or not it is on the
        used list: the used list then starts at the ticket's own link. */
    method ReleaseTicket(t: Id)
      requires t < |next|
      modifies `next, `freeHead, `usedHead, `numFree, `numUsed
      ensures usedHead == old(next)[t] && next == old(next)[t := old(freeHead)] && freeHead == Some(t)
      ensures numFree == old(numFree) + 1 && numUsed == old(numUsed) - 1
    {
      usedHead := next[t];
      next := next[t := freeHead];
      freeHead := Some(t);
      numFree := numFree + 1;
      numUsed := numUsed - 1;
    }

    /** The release of a ticket that is on the used list, which is cut behind it,
        whether or not it was at the head. */
    method Release(t: Id, ghost p: nat)
      requires Linked() && p < |used| && used[p] == t
      modifies this
      ensures Linked() && View() == Released(old(View()), p) && pending == old(pending)
      ensures next == old(next)[t := old(freeHead)]
    {
      ListTail(next, usedHead, used, p);
      SeparateSwap(free, used);
      SeparateMove(used, free, p);
      SeparateSwap(used[p + 1..], [t] + free);
      hide Separate;
      ListPush(next, freeHead, free, t);
      ListFrame(next, next[t], used[p + 1..], t, freeHead);
      ReleaseTicket(t);
      used, free := used[p + 1..], [t] + free;
    }

    /** Two tickets released in the order they were grabbed: the first release
        cuts the second ticket off the used list, and its own release leaves the
        used list sharing the whole tail of the free list. */
    method ReleaseInGrabOrder(a: Id, b: Id)
      requires Linked() && |used| >= 2 && used[..2] == [b, a]
      modifies this
      ensures IsList(next, freeHead, [b, a] + old(free)) && IsList(next, usedHead, [a] + old(free))
      ensures numFree == old(numFree) + 2 && numUsed == old(numUsed) - 2
    {
      assert used[0] == used[..2][0] && used[1] == used[..2][1];
      GrabOrderLinks(next, freeHead, usedHead, free, used);
      hide IsList, Separate;
      Release(a, 1);
      ReleaseTicket(b);
    }
  }

  /** The links after both releases. */
  lemma GrabOrderLinks(next: seq<Option<Id>>, freeHead: Option<Id>, usedHead: Option<Id>, free: seq<Id>, used: seq<Id>)
    requires IsList(next, freeHead, free) && IsList(next, usedHead, used) && |used| >= 2 && Separate(free, used)
    requires used[0] < |next| && used[1] < |next|
    ensures var b, a := used[0], used[1];
      var once := next[a := freeHead];
      var twice := once[b := Some(a)];
      && once[b] == Some(a)
      && IsList(twice, Some(b), [b, a] + free) && IsList(twice, Some(a), [a] + free)
  {
    var b, a := used[0], used[1];
    LinkOf(next, usedHead, used);
    DistinctFirst(used, free);
    SecondIsNotFree(used, free);
    hide IsList, Separate;
    ListPush(next, freeHead, free, a);
    var once := next[a := freeHead];
    ListPush(once, Some(a), [a] + free, b);
    ListFrame(once, Some(a), [a] + free, b, Some(a));
    assert [b] + ([a] + free) == [b, a] + free;
  }

  lemma SecondIsNotFree(used: seq<Id>, free: seq<Id>)
    requires Separate(free, used) && |used| >= 2
    ensures used[1] !in free
  {
    SeparateSwap(free, used);
    SeparateMove(used, free, 1);
  }

  lemma LinkOf(next: seq<Option<Id>>, head: Option<Id>, l: seq<Id>)
    requires IsList(next, head, l) && |l| >= 2
    ensures l[0] < |next| && next[l[0]] == Some(l[1])
  {
    assert l[1..][0] == l[1];
  }

  lemma DistinctFirst(used: seq<Id>, free: seq<Id>)
    requires Separate(free, used) && |used| >= 2
    ensures used[0] != used[1] && used[0] !in free
  {
    var b := used[0];
    assert multiset(free)[b] + multiset(used)[b] <= 1;
    assert used == [b] + used[1..];
    assert multiset(used) == multiset{b} + multiset(used[1..]);
    assert b !in multiset(used[1..]) && b !in multiset(free);
    assert used[1] in used[1..];
  }

  /* ---- what every step keeps ---- */

  /** The free list without its head, which is now connected. */
  lemma GrabFreeSide(s: State, c: nat)
    requires InRange(s) && s.free != [] && s.free[0] !in s.free[1..] && ConnectedPrefix(s.connected, s.free, c)
    ensures ConnectedPrefix(s.connected[s.free[0] := true], s.free[1..], if c > 0 then c - 1 else 0)
  {
    var rest, connected := s.free[1..], s.connected[s.free[0] := true];
    forall k | 0 <= k < |rest|
      ensures rest[k] < |connected| && (connected[rest[k]] <==> k < c - 1)
    {
      assert rest[k] == s.free[k + 1] && rest[k] in rest;
    }
  }

  lemma GrabUsedSide(s: State)
    requires InRange(s) && s.free != [] && forall k :: 0 <= k < |s.used| ==> s.connected[s.used[k]]
    ensures var used := [s.free[0]] + s.used;
      forall k :: 0 <= k < |used| ==> used[k] < MAX_CONNECTIONS && s.connected[s.free[0] := true][used[k]]
  {
    var used := [s.free[0]] + s.used;
    forall k | 0 <= k < |used|
      ensures used[k] < MAX_CONNECTIONS && s.connected[s.free[0] := true][used[k]]
    {
      if k > 0 { assert used[k] == s.used[k - 1]; }
    }
  }

  /** The head of an accounted free list is connected unless no free ticket is. */
  lemma ChoiceIsHead(s: State, c: nat)
    requires Accounted(s, c) && s.free != []
    ensures Choice(s) == 0 && (s.connected[s.free[0]] <==> c > 0)
  {
    hide Separate;
  }

  /** A grab from an accounted pool takes the head of the free list and leaves an
      accounted pool; a failed connect leaves everything as it was. */
  lemma GrabKeepsAccount(s: State, connectOk: bool, c: nat)
    requires Accounted(s, c) && s.free != []
    ensures Choice(s) == 0
    ensures match Grabbed(s, connectOk)
      case None => c == 0 && !connectOk
      case Some(s') =>
        && s'.used == [s.free[0]] + s.used && s'.free == s.free[1..]
        && Accounted(s', if c > 0 then c - 1 else 0)
  {
    ChoiceIsHead(s, c);
    hide Choice, Grabbed;
    if c == 0 && !connectOk {
      GrabFails(s);
    } else {
      GrabSucceeds(s, connectOk);
      hide Accounted;
      GrabAccounts(s, c, Grabbed(s, connectOk).value);
    }
  }

  lemma GrabAccounts(s: State, c: nat, s': State)
    requires Accounted(s, c) && s.free != []
    requires s'.free == s.free[1..] && s'.used == [s.free[0]] + s.used && s'.connected == s.connected[s.free[0] := true]
    requires s'.numFree == s.numFree - 1 && s'.numUsed == s.numUsed + 1
    requires s'.numConnected == s.numConnected + if c > 0 then 0 else 1
    ensures Accounted(s', if c > 0 then c - 1 else 0)
  {
    SeparateMove(s.free, s.used, 0);
    GrabFreeSide(s, c);
    GrabUsedSide(s);
    hide Separate, ConnectedPrefix;
  }

  /** A release keeps the pool accounted exactly when the ticket is at the head
      of the used list, that is, when it is the one grabbed last. */
  lemma ReleaseKeepsAccountIffLast(s: State, p: nat, c: nat)
    requires Accounted(s, c) && p < |s.used|
    ensures p == 0 ==> Accounted(Released(s, p), c + 1)
    ensures p > 0 ==> forall d: nat :: !Accounted(Released(s, p), d)
  {
    SeparateSwap(s.free, s.used);
    SeparateMove(s.used, s.free, p);
    SeparateSwap(s.used[p + 1..], [s.used[p]] + s.free);
    if p == 0 {
      var s' := Released(s, 0);
      forall k | 0 <= k < |s'.free|
        ensures s'.connected[s'.free[k]] <==> k < c + 1
      {
        if k > 0 { assert s'.free[k] == s.free[k - 1]; }
      }
    }
  }

  /* ---- runs with releases in reverse order of grabs ---- */

  /** A release is of the ticket granted last. */
  datatype Op = DoGrab(connectOk: bool) | DoRelease

  /** The pool, the granted tickets not yet released (latest first), and the most
      that were ever outstanding. */
  datatype History = History(s: State, outstanding: seq<Id>, peak: nat)

  /** A step is legal with a free ticket to grab or an outstanding one to release. */
  ghost predicate Legal(h: History, op: Op) {
    && InRange(h.s)
    && if op.DoGrab? then h.s.free != [] else h.outstanding != [] && h.outstanding[0] in h.s.used
  }

  /** The position of t on a list it is on. */
  ghost function IndexOf(l: seq<Id>, t: Id): (p: nat)
    requires t in l
    ensures p < |l| && l[p] == t
  {
    if l[0] == t then 0 else 1 + IndexOf(l[1..], t)
  }

  ghost function Step(h: History, op: Op): History
    requires Legal(h, op)
  {
    if op.DoRelease? then
      var t := h.outstanding[0];
      h.(s := Released(h.s, IndexOf(h.s.used, t)), outstanding := h.outstanding[1..])
    else
      match Grabbed(h.s, op.connectOk)
      case None => h
      case Some(s') =>
        var out := [h.s.free[Choice(h.s)]] + h.outstanding;
        History(s', out, if |out| > h.peak then |out| else h.peak)
  }

  ghost predicate LegalRun(h: History, ops: seq<Op>)
    decreases |ops|
  {
    ops == [] || (Legal(h, ops[0]) && LegalRun(Step(h, ops[0]), ops[1..]))
  }

  ghost function Run(h: History, ops: seq<Op>): History
    requires LegalRun(h, ops)
    decreases |ops|
  {
    if ops == [] then h else Run(Step(h, ops[0]), ops[1..])
  }

  /** The used list is the stack of outstanding tickets, and exactly as many
      tickets are connected as were ever outstanding at once. */
  ghost predicate Consistent(h: History) {
    && h.outstanding == h.s.used && h.peak >= |h.s.used|
    && Accounted(h.s, h.peak - |h.s.used|)
  }

  lemma StepConsistent(h: History, op: Op)
    requires Consistent(h) && Legal(h, op)
    ensures Consistent(Step(h, op))
  {
    var c := h.peak - |h.s.used|;
    if op.DoRelease? {
      assert IndexOf(h.s.used, h.s.used[0]) == 0;
      ReleaseKeepsAccountIffLast(h.s, 0, c);
    } else {
      GrabKeepsAccount(h.s, op.connectOk, c);
    }
  }

  /** Over every run of grabs and last-in-first-out releases the lists partition
      the ten tickets, the counters are right, connected tickets come first on
      the free list, and the number connected is the high-water mark. */
  lemma {:induction false} RunConsistent(h: History, ops: seq<Op>)
    requires Consistent(h) && LegalRun(h, ops)
    ensures Consistent(Run(h, ops))
    decreases |ops|
  {
    if ops != [] {
      StepConsistent(h, ops[0]);
      RunConsistent(Step(h, ops[0]), ops[1..]);
    }
  }

  /** In such a run a grab is legal exactly with fewer than ten tickets out, and a
      release exactly with one out. */
  lemma LegalIffRoom(h: History, op: Op)
    requires Consistent(h)
    ensures Legal(h, op) <==> if op.DoGrab? then |h.outstanding| < MAX_CONNECTIONS else h.outstanding != []
  {
    hide Separate;
  }

  /** The run on the linked lists: `held` are the tickets already granted. */
  method Execute(pool: Pool, ops: seq<Op>, held: seq<Id>, ghost h: History) returns (outstanding: seq<Id>)
    requires pool.Linked() && h.s == pool.View() && h.outstanding == held && Consistent(h) && LegalRun(h, ops)
    modifies pool
    ensures pool.Linked() && Run(h, ops).s == pool.View() && Run(h, ops).outstanding == outstanding
    ensures Consistent(Run(h, ops))
  {
    hide Separate, Accounted, Grabbed, Released, Legal;
    RunConsistent(h, ops);
    outstanding := held;
    ghost var now := h;
    var k := 0;
    assert ops[0..] == ops;
    while k < |ops|
      invariant 0 <= k <= |ops| && pool.Linked()
      invariant now.s == pool.View() && now.outstanding == outstanding && Consistent(now)
      invariant LegalRun(now, ops[k..]) && Run(now, ops[k..]) == Run(h, ops)
    {
      assert ops[k..][0] == ops[k] && ops[k..][1..] == ops[k + 1..];
      StepConsistent(now, ops[k]);
      outstanding := ExecuteOne(pool, ops[k], outstanding, now);
      now := Step(now, ops[k]);
      k := k + 1;
    }
    assert ops[k..] == [];
  }

  method ExecuteOne(pool: Pool, op: Op, held: seq<Id>, ghost h: History) returns (outstanding: seq<Id>)
    requires pool.Linked() && h.s == pool.View() && h.outstanding == held && Consistent(h) && Legal(h, op)
    modifies pool
    ensures pool.Linked() && Step(h, op).s == pool.View() && Step(h, op).outstanding == outstanding
  {
    hide Separate, Accounted, Grabbed, Released, Choice;
    outstanding := held;
    match op
    case DoGrab(connectOk) => {
      var r := pool.Grab(connectOk);
      if r.Granted? {
        outstanding := [r.ticket] + outstanding;
      }
    }
    case DoRelease => {
      assert IndexOf(h.s.used, held[0]) == 0;
      pool.Release(held[0], 0);
      outstanding := outstanding[1..];
    }
  }
}
