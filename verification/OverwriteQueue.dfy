/** The mailbox itself: packets of varying length in a circular byte array, beside a queue of their
    lengths (src/bridge/overwrite_queue.rs). It is proved to be the bounded queue of PacketFifo. */
module OverwriteQueue {
  import opened Bytes
  import opened Wrappers
  import opened PacketFifo

  /** All queued bytes in a row. */
  function Flat(q: seq<Packet>): (s: seq<byte>)
    ensures |s| == Total(q)
  {
    if q == [] then [] else Queued(q[0]) + Flat(q[1..])
  }

  lemma {:induction false} FlatAppend(q: seq<Packet>, p: Packet)
    ensures Flat(q + [p]) == Flat(q) + Queued(p)
  {
    if q == [] {
      assert q + [p] == [p];
    } else {
      assert (q + [p])[1..] == q[1..] + [p];
      FlatAppend(q[1..], p);
    }
  }

  /** Position k after `head` on a ring of `size` bytes. */
  function At(head: nat, k: nat, size: nat): int {
    if head + k < size then head + k else head + k - size
  }

  lemma AtIsModulo(head: nat, k: nat, size: nat)
    requires head < size && k <= size
    ensures At(head, k, size) == (head + k) % size
  {
  }

  /** Without its first packet, the row of bytes starts further on. */
  lemma Advanced(ring: seq<byte>, head: nat, q: seq<Packet>)
    requires q != [] && head < |ring| && Total(q) <= |ring|
    requires forall k :: 0 <= k < Total(q) ==> ring[At(head, k, |ring|)] == Flat(q)[k]
    ensures var head' := At(head, |Queued(q[0])|, |ring|);
            forall k :: 0 <= k < Total(q[1..]) ==> ring[At(head', k, |ring|)] == Flat(q[1..])[k]
  {
    var len, flat, rest := |Queued(q[0])|, Flat(q), Flat(q[1..]);
    var head' := At(head, len, |ring|);
    assert flat == Queued(q[0]) + rest;
    forall k | 0 <= k < |rest|
      ensures ring[At(head', k, |ring|)] == rest[k]
    {
      assert rest[k] == flat[len + k];
      assert At(head', k, |ring|) == At(head, len + k, |ring|);
    }
  }

  /** After both pieces were copied, old and new bytes lie where the ring has them. */
  lemma Placed(
    before: seq<byte>, after: seq<byte>, head: nat, flat: seq<byte>, item: seq<byte>, tail: nat, first: nat)
    requires |before| == |after| && head < |before| && |flat| + |item| <= |before|
    requires forall k :: 0 <= k < |flat| ==> before[At(head, k, |before|)] == flat[k]
    requires tail == At(head, |flat|, |before|)
    requires first == if |item| < |before| - tail then |item| else |before| - tail
    requires forall k :: tail <= k < tail + first && k >= |item| - first ==> after[k] == item[k - tail]
    requires forall k :: 0 <= k < |item| - first ==> after[k] == item[first + k]
    requires forall k :: |item| - first <= k < tail || tail + first <= k < |before| ==> after[k] == before[k]
    ensures forall k :: 0 <= k < |flat| + |item| ==> after[At(head, k, |before|)] == (flat + item)[k]
  {
  }

  /** As long as there is no room, one more packet has to go, and there is one. */
  lemma OneMoreEvicted(all: seq<Packet>, k: nat, len: nat, limits: Limits)
    requires k <= |all| && Admissible(len, limits) && !Fits(all[k..], len, limits)
    ensures k < |all| && all[k..][1..] == all[k + 1..]
    ensures Evicted(all[k..], len, limits) == 1 + Evicted(all[k + 1..], len, limits)
  {
    EmptyFits(len, limits);
    assert all[|all|..] == [];
    assert all[k..][1..] == all[k + 1..];
  }

  class QueueState {
    const limits: Limits
    const bytes: array<byte>
    var lengths: seq<nat>
    var head: nat
    var used: nat
    ghost var contents: seq<Packet>

    ghost predicate Valid()
      reads this, bytes
    {
      && bytes.Length == limits.bytes
      && (limits.bytes > 0 ==> head < limits.bytes)
      && used == Total(contents) <= limits.bytes
      && |lengths| == |contents| <= limits.slots
      && (forall i :: 0 <= i < |lengths| ==> lengths[i] == |Queued(contents[i])|)
      && (forall k :: 0 <= k < used ==> bytes[At(head, k, limits.bytes)] == Flat(contents)[k])
    }

    constructor (limits: Limits)
      ensures Valid() && contents == [] && this.limits == limits && fresh(bytes)
    {
      this.limits := limits;
      bytes := new byte[limits.bytes](_ => 0);
      lengths := [];
      head, used := 0, 0;
      contents := [];
    }

    predicate FitsNow(len: nat)
      reads this
    {
      len > 0 && |lengths| != limits.slots && len <= limits.bytes - used
    }

    /** Drops the oldest packet, if there is one. */
    method DiscardFront() returns (some: bool)
      requires Valid()
      modifies this
      ensures Valid() && some == (old(contents) != [])
      ensures contents == if some then old(contents)[1..] else []
    {
      if lengths == [] {
        return false;
      }
      var len := lengths[0];
      assert len <= used;
      AtIsModulo(head, len, limits.bytes);
      Advanced(bytes[..], head, contents);
      assert forall i :: 0 <= i < |lengths[1..]| ==> lengths[1..][i] == |Queued(contents[1..][i])|;
      lengths := lengths[1..];
      head := (head + len) % limits.bytes;
      used := used - len;
      contents := contents[1..];
      return true;
    }

    /** Writes an item behind the bytes in use, in one or two pieces. */
    method Store(item: seq<byte>)
      requires Valid() && 0 < |item| <= limits.bytes - used
      modifies bytes
      ensures forall k :: 0 <= k < used + |item| ==> bytes[At(head, k, limits.bytes)] == (Flat(contents) + item)[k]
    {
      var len := |item|;
      AtIsModulo(head, used, limits.bytes);
      var tail := (head + used) % limits.bytes;
      var first := if len < limits.bytes - tail then len else limits.bytes - tail;
      ghost var before := bytes[..];
      CopyInto(bytes, tail, item[..first]);
      CopyInto(bytes, 0, item[first..]);
      Placed(before, bytes[..], head, Flat(contents), item, tail, first);
    }

    /** Appends a packet that fits. */
    method Insert(p: Packet)
      requires Valid() && FitsNow(|Queued(p)|)
      modifies this, bytes
      ensures Valid() && contents == old(contents) + [p]
    {
      var len := |Queued(p)|;
      Store(Queued(p));
      FlatAppend(contents, p);
      TotalAppend(contents, p);
      lengths := lengths + [len];
      used := used + len;
      contents := contents + [p];
    }

    /** The oldest packet's bytes, as the two pieces in which the ring holds them. */
    method Front() returns (first: seq<byte>, second: seq<byte>)
      requires Valid() && contents != []
      ensures first + second == Queued(contents[0])
    {
      var len := lengths[0];
      var cut := if len < limits.bytes - head then len else limits.bytes - head;
      first, second := bytes[head..head + cut], bytes[..len - cut];
      ghost var item, flat := Queued(contents[0]), Flat(contents);
      assert forall k :: 0 <= k < len ==> flat[k] == item[k];
      assert forall k :: 0 <= k < len ==> (first + second)[k] == bytes[At(head, k, limits.bytes)];
    }
  }

  /** The shared mailbox. `ready` and `space` are the latches of its two signals. */
  class OverwriteQueue {
    const state: QueueState
    var ready: bool
    var space: bool

    ghost predicate Valid()
      reads this, state, state.bytes
    {
      state.Valid()
    }

    ghost function Contents(): seq<Packet>
      reads this, state
    {
      state.contents
    }

    constructor (limits: Limits)
      ensures Valid() && Contents() == [] && state.limits == limits && !ready && !space
      ensures fresh(state) && fresh(state.bytes)
    {
      state := new QueueState(limits);
      ready, space := false, false;
    }

    method HasSpaceFor(len: nat) returns (r: bool)
      requires Valid()
      ensures r == Fits(Contents(), len, state.limits)
    {
      r := state.FitsNow(len);
    }

    /** Refuses what does not fit, and never disturbs what was accepted. */
    method TryPushRef(p: Packet) returns (pushed: bool)
      requires Valid()
      modifies this, state, state.bytes
      ensures Valid() && Contents() == Pushed(old(Contents()), p, state.limits)
      ensures pushed == Fits(old(Contents()), |Queued(p)|, state.limits)
      ensures ready == (old(ready) || pushed) && space == old(space)
    {
      pushed := state.FitsNow(|Queued(p)|);
      if pushed {
        state.Insert(p);
        ready := true;
      }
    }

    /** Makes room by dropping the oldest packets. It does not signal the space this may leave. */
    method PushOverwriting(p: Packet) returns (accepted: bool)
      requires Valid()
      modifies this, state, state.bytes
      ensures Valid() && accepted == Admissible(|Queued(p)|, state.limits)
      ensures Evicted(old(Contents()), |Queued(p)|, state.limits) <= |old(Contents())|
      ensures Contents() == Overwritten(old(Contents()), p, state.limits)
      ensures ready == (old(ready) || accepted) && space == old(space)
    {
      var len := |Queued(p)|;
      EvictedBound(Contents(), len, state.limits);
      if len == 0 || len > state.limits.bytes || state.limits.slots == 0 {
        return false;
      }
      ghost var all, k := Contents(), 0;
      assert all[0..] == all;
      while !state.FitsNow(len)
        invariant Valid() && 0 <= k <= |all| && Contents() == all[k..]
        invariant Evicted(all, len, state.limits) == k + Evicted(all[k..], len, state.limits)
        invariant ready == old(ready) && space == old(space)
        decreases |Contents()|
      {
        OneMoreEvicted(all, k, len, state.limits);
        var some := state.DiscardFront();
        k := k + 1;
      }
      state.Insert(p);
      ready := true;
      return true;
    }

    /** Takes the oldest packet out, exactly as it was put in. */
    method TryPop() returns (item: Option<Packet>)
      requires Valid()
      modifies this, state
      ensures Valid()
      ensures old(Contents()) == [] ==> item == None && Contents() == []
      ensures old(Contents()) != [] ==> item == Some(old(Contents())[0]) && Contents() == old(Contents())[1..]
      ensures space == (old(space) || item.Some?) && ready == old(ready)
    {
      if state.lengths == [] {
        return None;
      }
      var first, second := state.Front();
      ghost var p := Contents()[0];
      assert first == Queued(p)[..|first|] && second == Queued(p)[|first|..];
      QueuedRoundTrip(p, |first|);
      item := FromQueuedSlices(first, second);
      var _ := state.DiscardFront();
      if item.Some? {
        space := true;
      }
    }
  }
}
