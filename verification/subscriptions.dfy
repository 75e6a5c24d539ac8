/** The subscription counter shared by the AMD and the NVIDIA-legacy backend:
    a coarse admission counter bounded by the number of discovered adapters.
    It hands out the pre-increment count as a handle, or -1 when full. */
module Subscriptions {

  /** The sentinel handle meaning "no more capacity". */
  const NoCapacity: int := -1

  datatype SubscribeReply = SubscribeReply(handle: int, count: int)

  /** The counter is within its bounds. It starts at 0 and only the two
      operations below change it. */
  predicate Valid(count: int, capacity: int)
  {
    0 <= count <= capacity
  }

  /** `SubscribeDevice`: admit one more subscriber if the counter is below the
      adapter count, returning the old count; otherwise refuse with -1 and
      leave the counter alone. */
  function Subscribe(count: int, capacity: int): (r: SubscribeReply)
    ensures Valid(count, capacity) ==> Valid(r.count, capacity)
    ensures r.count != count <==> count < capacity
    ensures r.count != count ==> r.handle == count && r.count == r.handle + 1
    ensures r.count == count ==> r.handle == NoCapacity
  {
    if count < capacity then SubscribeReply(count, count + 1)
    else SubscribeReply(NoCapacity, count)
  }

  /** `UnsubscribeDevice`: decrement, but never below zero. */
  function Unsubscribe(count: int): (r: int)
    ensures r >= 0 || r == count
    ensures count > 0 ==> r == count - 1
    ensures forall capacity :: Valid(count, capacity) ==> Valid(r, capacity)
  {
    if count > 0 then count - 1 else count
  }

  datatype Request = Sub | Unsub

  datatype ReplayResult = ReplayResult(handles: seq<int>, count: int)

  /** The handles returned, and the final count, when the requests are issued
      one after another starting from `count`. */
  function Replay(count: int, capacity: int, requests: seq<Request>): ReplayResult
    decreases |requests|
  {
    if |requests| == 0 then ReplayResult([], count)
    else if requests[0] == Sub then
      var reply := Subscribe(count, capacity);
      var rest := Replay(reply.count, capacity, requests[1..]);
      ReplayResult([reply.handle] + rest.handles, rest.count)
    else
      Replay(Unsubscribe(count), capacity, requests[1..])
  }

  /** Whatever the order of subscribe and unsubscribe requests, a counter that
      starts within its bounds stays within them, and every handle handed out
      is either the sentinel or an index below the capacity. */
  lemma {:induction false} ReplayKeepsBounds(count: int, capacity: int, requests: seq<Request>)
    requires Valid(count, capacity)
    ensures Valid(Replay(count, capacity, requests).count, capacity)
    ensures forall h :: h in Replay(count, capacity, requests).handles ==>
              h == NoCapacity || 0 <= h < capacity
    decreases |requests|
  {
    if |requests| > 0 {
      if requests[0] == Sub {
        ReplayKeepsBounds(Subscribe(count, capacity).count, capacity, requests[1..]);
      } else {
        ReplayKeepsBounds(Unsubscribe(count), capacity, requests[1..]);
      }
    }
  }

  function Subs(k: nat): (r: seq<Request>)
    ensures |r| == k
  {
    seq(k, _ => Sub)
  }

  /** Issuing k subscribe requests to a counter at `count` with room for all
      of them returns the handles count, count+1, ..., count+k-1, in order. */
  lemma {:induction false} SubscribeInOrder(count: int, capacity: int, k: nat)
    requires count + k <= capacity
    ensures Replay(count, capacity, Subs(k)).handles == seq(k, i => count + i)
    ensures Replay(count, capacity, Subs(k)).count == count + k
    decreases k
  {
    if k > 0 {
      assert Subs(k)[1..] == Subs(k - 1);
      SubscribeInOrder(count + 1, capacity, k - 1);
    }
  }

  /** Once the counter is at (or above) the capacity, every further subscribe
      request is refused and the counter stays where it is. */
  lemma {:induction false} SubscribeWhenFull(count: int, capacity: int, k: nat)
    requires count >= capacity
    ensures Replay(count, capacity, Subs(k)).handles == seq(k, _ => NoCapacity)
    ensures Replay(count, capacity, Subs(k)).count == count
    decreases k
  {
    if k > 0 {
      assert Subs(k)[1..] == Subs(k - 1);
      SubscribeWhenFull(count, capacity, k - 1);
    }
  }

  /** Starting from zero with k adapters, k + 1 subscribe requests return
      0, 1, ..., k-1 and then the sentinel. With no adapters, the first
      request is already refused. */
  lemma SubscribeAllThenRefuse(k: nat)
    ensures Replay(0, k, Subs(k + 1)).handles == seq(k, i => i) + [NoCapacity]
  {
    var all := Subs(k + 1);
    assert all[..k] == Subs(k) && all[k..] == Subs(1);
    ReplayAppend(0, k, Subs(k), Subs(1));
    assert all == Subs(k) + Subs(1);
    SubscribeInOrder(0, k, k);
    SubscribeWhenFull(k, k, 1);
  }

  /** Replaying two request lists in turn is replaying their concatenation. */
  lemma {:induction false} ReplayAppend(count: int, capacity: int, xs: seq<Request>, ys: seq<Request>)
    ensures Replay(count, capacity, xs + ys).handles ==
            Replay(count, capacity, xs).handles + Replay(Replay(count, capacity, xs).count, capacity, ys).handles
    ensures Replay(count, capacity, xs + ys).count ==
            Replay(Replay(count, capacity, xs).count, capacity, ys).count
    decreases |xs|
  {
    if |xs| > 0 {
      assert (xs + ys)[1..] == xs[1..] + ys;
      if xs[0] == Sub {
        ReplayAppend(Subscribe(count, capacity).count, capacity, xs[1..], ys);
      } else {
        ReplayAppend(Unsubscribe(count), capacity, xs[1..], ys);
      }
    } else {
      assert xs + ys == ys;
    }
  }
}
