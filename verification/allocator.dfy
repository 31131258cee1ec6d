/** The per-channel address allocator of the manager: the set of addresses
    in use, a last-in-first-out list of reclaimed addresses and a cursor over
    never-used addresses. */
module Allocator {
  import opened Common

  /** The first address the cursor hands out. */
  const FirstAddr: int := 0x04
  /** The highest address the cursor may hand out. */
  const MaxAddr: int := 0x77
  /** The multiplexer's own address, never handed out. */
  const MuxAddr: int := 0x70

  /** An address the allocator may hand out. */
  predicate Allocatable(a: int) {
    FirstAddr <= a <= MaxAddr && a != MuxAddr
  }

  /** State of one channel. */
  datatype ChannelAlloc = ChannelAlloc(active: set<int>, freed: seq<int>, next: int)

  /** The allocator of a channel nobody has touched yet. */
  function Fresh(): ChannelAlloc {
    ChannelAlloc({}, [], FirstAddr)
  }

  predicate NoDuplicates(s: seq<int>) {
    forall i, j :: 0 <= i < j < |s| ==> s[i] != s[j]
  }

  /** The allocator invariant: active and freed are disjoint, the freed list
      has no repeats, every address held is allocatable and lies below the
      cursor, and the cursor stays within one past the top address. */
  predicate Valid(c: ChannelAlloc) {
    && FirstAddr <= c.next <= MaxAddr + 1
    && (forall a :: a in c.active ==> Allocatable(a) && a < c.next)
    && (forall i :: 0 <= i < |c.freed| ==> Allocatable(c.freed[i]) && c.freed[i] < c.next && c.freed[i] !in c.active)
    && NoDuplicates(c.freed)
  }

  lemma FreshValid()
    ensures Valid(Fresh())
  {
  }

  /** The cursor walk: the first address at or after `next`, not above the
      top, that is neither in use nor the multiplexer's, together with where
      the cursor stops. */
  function Scan(active: set<int>, next: int): (r: (Option<int>, int))
    decreases MaxAddr + 1 - next
    ensures r.0.Some? ==> var a := r.0.value;
      && next <= a <= MaxAddr && a !in active && a != MuxAddr && r.1 == a + 1
      && (forall x :: next <= x < a ==> x in active || x == MuxAddr)
    ensures r.0.None? ==>
      && r.1 == (if next <= MaxAddr then MaxAddr + 1 else next)
      && (forall x :: next <= x <= MaxAddr ==> x in active || x == MuxAddr)
  {
    if next > MaxAddr then (None, next)
    else if next in active || next == MuxAddr then Scan(active, next + 1)
    else (Some(next), next + 1)
  }

  /** Result of asking for an address: the address (or `None` when the
      channel is exhausted, where Python raises) and the updated state. */
  datatype Allocation = Allocation(addr: Option<int>, state: ChannelAlloc)

  /** `get_next_address_for_channel`: reuse the most recently freed address
      if there is one, otherwise walk the cursor. */
  function Allocate(c: ChannelAlloc): (r: Allocation)
    ensures r.state.active == c.active
    ensures |c.freed| > 0 ==>
      && r.addr == Some(c.freed[|c.freed| - 1])
      && r.state.freed == c.freed[..|c.freed| - 1]
      && r.state.next == c.next
    ensures |c.freed| == 0 ==> r.state.freed == [] && r.state.next >= c.next
    ensures |c.freed| == 0 && r.addr.Some? ==>
      && c.next <= r.addr.value <= MaxAddr && r.addr.value != MuxAddr
      && r.addr.value !in c.active && r.state.next == r.addr.value + 1
      && (forall x :: c.next <= x < r.addr.value ==> x in c.active || x == MuxAddr)
    ensures |c.freed| == 0 && r.addr.None? ==>
      && r.state.next == (if c.next <= MaxAddr then MaxAddr + 1 else c.next)
      && (forall x :: c.next <= x <= MaxAddr ==> x in c.active || x == MuxAddr)
  {
    if |c.freed| > 0 then
      Allocation(Some(c.freed[|c.freed| - 1]), c.(freed := c.freed[..|c.freed| - 1]))
    else
      var (a, next) := Scan(c.active, c.next);
      Allocation(a, c.(next := next))
  }

  /** `free_address`: a no-op for an address not in use, otherwise the
      address moves from the active set to the end of the freed list. */
  function Free(c: ChannelAlloc, a: int): (r: ChannelAlloc)
    ensures a !in c.active ==> r == c
    ensures a in c.active ==> r.active == c.active - {a} && r.freed == c.freed + [a] && r.next == c.next
  {
    if a in c.active then c.(active := c.active - {a}, freed := c.freed + [a]) else c
  }

  /** What is left to hand out: freed addresses plus addresses the cursor
      has not reached. */
  function Room(c: ChannelAlloc): nat {
    |c.freed| + (if c.next <= MaxAddr + 1 then MaxAddr + 1 - c.next else 0)
  }

  /** Marks a confirmed address as in use. */
  function Commit(c: ChannelAlloc, a: int): (r: ChannelAlloc)
    ensures r.active == c.active + {a} && r.freed == c.freed && r.next == c.next
  {
    c.(active := c.active + {a})
  }

  /** Returns a candidate address to the freed list (`freed.append`). */
  function GiveBack(c: ChannelAlloc, a: int): (r: ChannelAlloc)
    ensures r.active == c.active && r.freed == c.freed + [a] && r.next == c.next
  {
    c.(freed := c.freed + [a])
  }

  /** An address handed out is "pending": allocatable, not in use, not on
      the freed list, and below the cursor. */
  predicate Pending(c: ChannelAlloc, a: int) {
    Allocatable(a) && a !in c.active && a < c.next && forall i :: 0 <= i < |c.freed| ==> c.freed[i] != a
  }

  /** Allocation keeps the invariant, and the address it hands out is
      pending in the new state. */
  lemma AllocateValid(c: ChannelAlloc)
    requires Valid(c)
    ensures Valid(Allocate(c).state)
    ensures Allocate(c).addr.Some? ==> Pending(Allocate(c).state, Allocate(c).addr.value)
  {
    var r := Allocate(c);
    if |c.freed| > 0 {
      var a := c.freed[|c.freed| - 1];
      assert forall i :: 0 <= i < |r.state.freed| ==> r.state.freed[i] == c.freed[i];
      assert forall i :: 0 <= i < |r.state.freed| ==> r.state.freed[i] != a;
    }
  }

  /** Confirming a pending address keeps the invariant. */
  lemma CommitValid(c: ChannelAlloc, a: int)
    requires Valid(c) && Pending(c, a)
    ensures Valid(Commit(c, a))
  {
  }

  /** Giving a pending address back keeps the invariant. */
  lemma GiveBackValid(c: ChannelAlloc, a: int)
    requires Valid(c) && Pending(c, a)
    ensures Valid(GiveBack(c, a))
  {
    var r := GiveBack(c, a);
    assert forall i :: 0 <= i < |c.freed| ==> r.freed[i] == c.freed[i];
  }

  /** Freeing keeps the invariant. */
  lemma FreeValid(c: ChannelAlloc, a: int)
    requires Valid(c)
    ensures Valid(Free(c, a))
  {
    if a in c.active {
      var r := Free(c, a);
      assert forall i :: 0 <= i < |c.freed| ==> r.freed[i] == c.freed[i];
    }
  }

  /** Address reuse: freeing an address in use and then allocating gives
      that same address back, without moving the cursor. */
  lemma FreeThenAllocate(c: ChannelAlloc, a: int)
    requires a in c.active
    ensures Allocate(Free(c, a)).addr == Some(a)
    ensures Allocate(Free(c, a)).state == c.(active := c.active - {a})
  {
    assert (c.freed + [a])[..|c.freed|] == c.freed;
  }

  /** A candidate given back after a failed promotion is the next address
      handed out. */
  lemma GiveBackThenAllocate(c: ChannelAlloc, a: int)
    ensures Allocate(GiveBack(c, a)).addr == Some(a)
    ensures Allocate(GiveBack(c, a)).state == c
  {
    assert (c.freed + [a])[..|c.freed|] == c.freed;
  }

  /** Exhaustion: when every allocatable address is in use, allocation fails
      and leaves the active set as it was. */
  lemma ExhaustedFails(c: ChannelAlloc)
    requires Valid(c)
    requires forall a :: Allocatable(a) ==> a in c.active
    ensures Allocate(c).addr.None?
    ensures Allocate(c).state.active == c.active
  {
  }

  /** Once the cursor is past the top and nothing is freed, allocation keeps
      failing: exhaustion is terminal for the channel. */
  lemma ExhaustionIsTerminal(c: ChannelAlloc)
    requires c.freed == [] && c.next > MaxAddr
    ensures Allocate(c) == Allocation(None, c)
  {
  }
}
