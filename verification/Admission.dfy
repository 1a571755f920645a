/**
 * Admission control on an access point: association requests wait in a queue until their
 * connection event fetches them, their timer expires or the queue is flushed.
 */
module Admission {
  import opened Words

  const ASSOC_REQ_MAX_LEN := 1200

  /** A queued request; the identity stands for its allocation. */
  datatype Request = Request(id: nat, sta: Mac, frame: seq<byte>)

  // ----- accounting -----

  function Ids(queue: seq<Request>): multiset<nat>
  {
    if queue == [] then multiset{} else multiset{queue[0].id} + Ids(queue[1..])
  }

  /** Every identity given out so far, once each. */
  function AllIds(n: nat): multiset<nat>
  {
    if n == 0 then multiset{} else AllIds(n - 1) + multiset{n - 1}
  }

  lemma {:induction false} AllIdsOnce(n: nat, id: nat)
    ensures AllIds(n)[id] == if id < n then 1 else 0
  {
    if n > 0 {
      AllIdsOnce(n - 1, id);
    }
  }

  lemma {:induction false} IdsConcat(a: seq<Request>, b: seq<Request>)
    ensures Ids(a + b) == Ids(a) + Ids(b)
  {
    if a == [] {
      assert a + b == b;
    } else {
      assert (a + b)[1..] == a[1..] + b;
      IdsConcat(a[1..], b);
    }
  }

  /** Unlinking one request. */
  function Unlink(queue: seq<Request>, i: nat): (rest: seq<Request>)
    requires i < |queue|
    ensures |rest| == |queue| - 1 && forall k | 0 <= k < |rest| :: rest[k] == if k < i then queue[k] else queue[k + 1]
  {
    queue[..i] + queue[i + 1..]
  }

  lemma UnlinkIds(queue: seq<Request>, i: nat)
    requires i < |queue|
    ensures Ids(queue) == Ids(Unlink(queue, i)) + multiset{queue[i].id}
  {
    var before, from := queue[..i], queue[i..];
    assert queue == before + from;
    IdsConcat(before, from);
    IdsConcat(before, from[1..]);
    assert from[1..] == queue[i + 1..];
  }

  /** Moving one identity between two places leaves the whole as it was. */
  lemma Moved(a: multiset<nat>, rest: multiset<nat>, b: multiset<nat>, c: multiset<nat>, id: nat)
    requires a == rest + multiset{id}
    ensures a + b + c == rest + (b + multiset{id}) + c == rest + b + (c + multiset{id})
  {
  }

  /** The first request of a station, or the length if it has none. */
  function FindSta(queue: seq<Request>, sta: Mac): (i: nat)
    ensures i <= |queue| && (i < |queue| ==> queue[i].sta == sta)
    ensures forall k | 0 <= k < i :: queue[k].sta != sta
  {
    if queue == [] || queue[0].sta == sta then 0 else 1 + FindSta(queue[1..], sta)
  }

  class ApAdmc {
    const enabled: bool         // otherwise requests are relayed with the connection event
    var queue: seq<Request>
    var count: nat
    var given: nat                          // identities given out by allocation
    ghost var fetched: multiset<nat>        // owned by a connection event, not yet released
    ghost var freed: multiset<nat>

    /**
     * The counter is the queue length, and every request ever queued is in exactly one place: the
     * queue, the hands of a connection event, or freed.
     */
    ghost predicate Valid()
      reads this
    {
      count == |queue| && Ids(queue) + fetched + freed == AllIds(given)
    }

    constructor (enabled: bool)
      ensures Valid() && queue == [] && given == 0 && this.enabled == enabled
    {
      this.enabled, queue, count := enabled, [], 0;
      given, fetched, freed := 0, multiset{}, multiset{};
    }

    /** No request is freed twice, nor while it is queued or in use. */
    lemma FreedAtMostOnce(id: nat)
      requires Valid()
      ensures freed[id] <= 1 && (freed[id] == 1 ==> fetched[id] == 0 && Ids(queue)[id] == 0)
    {
      AllIdsOnce(given, id);
      assert (Ids(queue) + fetched + freed)[id] == Ids(queue)[id] + fetched[id] + freed[id];
    }

    ghost method Free(id: nat)
      modifies this`freed
      ensures freed == old(freed) + multiset{id}
    {
      freed := freed + multiset{id};
    }

    /** A request accepted by host and target joins the queue unless its frame is too long. */
    method AssocReq(sta: Mac, frame: seq<byte>, targetAccepted: bool)
      requires Valid() && enabled
      modifies this
      ensures Valid() && fetched == old(fetched) && freed == old(freed)
      ensures var joins := targetAccepted && |frame| <= 1200;
        && queue == (if joins then old(queue) + [Request(old(given), sta, frame)] else old(queue))
        && given == (if joins then old(given) + 1 else old(given))
    {
      if !targetAccepted {
        return;
      }
      if |frame| > ASSOC_REQ_MAX_LEN {
        return;
      }
      var request := Request(given, sta, frame);
      given := given + 1;
      IdsConcat(queue, [request]);
      assert [request][1..] == [];
      queue := queue + [request];
      count := count + 1;
    }

    /** list_del of the i-th request. */
    method TakeOut(i: nat) returns (request: Request)
      requires i < |queue| && count == |queue|
      modifies this`queue, this`count
      ensures request == old(queue)[i] && queue == Unlink(old(queue), i) && count == |queue|
      ensures Ids(old(queue)) == Ids(queue) + multiset{request.id}
    {
      UnlinkIds(queue, i);
      request := queue[i];
      queue := Unlink(queue, i);
      count := count - 1;
    }

    /** The reclaim timer of the i-th queued request expires. */
    method Timeout(i: nat)
      requires Valid() && i < |queue|
      modifies this`queue, this`count, this`freed
      ensures Valid() && queue == Unlink(old(queue), i) && freed == old(freed) + multiset{old(queue)[i].id}
    {
      Discard(i);
    }

    /** Unlink and free the i-th request. */
    method Discard(i: nat)
      requires Valid() && i < |queue|
      modifies this`queue, this`count, this`freed
      ensures Valid() && queue == Unlink(old(queue), i) && freed == old(freed) + multiset{old(queue)[i].id}
    {
      var request := TakeOut(i);
      Moved(Ids(old(queue)), Ids(queue), fetched, freed, request.id);
      Free(request.id);
    }

    /** Find the first request of a station by walking the list. */
    method Search(sta: Mac) returns (i: nat)
      ensures i == FindSta(queue, sta)
    {
      i := 0;
      while i < |queue|
        invariant i <= |queue| && FindSta(queue, sta) == i + FindSta(queue[i..], sta)
      {
        if queue[i].sta == sta {
          return;
        }
        assert queue[i..][1..] == queue[i + 1..];
        i := i + 1;
      }
    }

    /**
     * A connection event takes the first request of its station out of the queue. The event must
     * name a queued station unless the queue is empty: after a miss the walk would unlink a request
     * that is not one.
     */
    method Fetch(sta: Mac) returns (request: Option<Request>)
      requires Valid() && (enabled && queue != [] ==> FindSta(queue, sta) < |queue|)
      modifies this`queue, this`count, this`fetched
      ensures Valid() && (request.None? <==> !enabled || old(queue) == [])
      ensures request.None? ==> queue == old(queue) && fetched == old(fetched)
      ensures request.Some? ==>
        var i := FindSta(old(queue), sta);
        i < |old(queue)| && request.value == old(queue)[i] && request.value.sta == sta
        && queue == Unlink(old(queue), i) && fetched == old(fetched) + multiset{request.value.id}
    {
      request := None;
      if !enabled || queue == [] {
        return;
      }
      var i := Search(sta);
      var taken := TakeOut(i);
      Moved(Ids(old(queue)), Ids(queue), fetched, freed, taken.id);
      fetched := fetched + multiset{taken.id};
      return Some(taken);
    }

    /** The connection event is done with a request it fetched. */
    method Release(request: Request)
      requires Valid() && (enabled ==> fetched[request.id] > 0)
      modifies this`fetched, this`freed
      ensures Valid()
      ensures freed == if enabled then old(freed) + multiset{request.id} else old(freed)
      ensures fetched == if enabled then old(fetched) - multiset{request.id} else old(fetched)
    {
      if !enabled {
        return;
      }
      fetched := fetched - multiset{request.id};
      Free(request.id);
    }

    /**
     * Free everything that is queued. With nothing left in the hands of a connection event, every
     * request ever queued has then been freed exactly once.
     */
    method Flush()
      requires Valid()
      modifies this`queue, this`count, this`freed
      ensures Valid() && queue == [] && count == 0
      ensures fetched == multiset{} ==> freed == AllIds(given)
    {
      while queue != []
        invariant Valid()
        decreases |queue|
      {
        Discard(0);
      }
      assert Ids(queue) == multiset{};
    }
  }
}
