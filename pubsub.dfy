/**
  The single-threaded registry behind the typed publish/subscribe hub of
  `src/pubsub.rs` (`HubInternal`).

  Topics are keyed by a name and a payload type (`TypeId` in the source, an
  abstract equality type `Ty` here).  A topic holds the sending ends of its
  subscribers' channels; a subscriber is modelled as a record of whether its
  receiving end is still alive and the values queued for it so far.
*/
module PubSub {

  /** `TopicIdInternal::Type`: a topic name together with its payload type. */
  datatype TopicId<Ty> = Typed(name: string, tipe: Ty)

  /** A subscriber's channel: whether the receiver still exists, and its queue. */
  datatype Subscriber<T> = Subscriber(alive: bool, inbox: seq<T>)

  /** `typed_topic::<A>(name)`: the key is the name and the payload type `A` together. */
  function TypedTopic<Ty>(name: string, tipe: Ty): (t: TopicId<Ty>)
    ensures t.name == name && t.tipe == tipe
  {
    Typed(name, tipe)
  }

  /** Two topics are the same exactly when both the name and the type agree. */
  lemma TopicKeying<Ty>(n1: string, t1: Ty, n2: string, t2: Ty)
    ensures TypedTopic(n1, t1) == TypedTopic(n2, t2) <==> n1 == n2 && t1 == t2
  {
  }

  /** `Sender::send` on one channel: queued when the receiver is alive, refused otherwise. */
  function Deliver<T>(s: Subscriber<T>, v: T): (r: Subscriber<T>)
    ensures r.alive == s.alive
    ensures r.inbox == if s.alive then s.inbox + [v] else s.inbox
  {
    if s.alive then s.(inbox := s.inbox + [v]) else s
  }

  /** The live subscribers, in order. */
  function Live<T>(subs: seq<Subscriber<T>>): (r: seq<Subscriber<T>>)
    ensures |r| <= |subs|
    ensures forall i :: 0 <= i < |r| ==> r[i].alive
  {
    if subs == [] then []
    else if subs[0].alive then [subs[0]] + Live(subs[1..])
    else Live(subs[1..])
  }

  lemma {:induction false} LiveAppend<T>(a: seq<Subscriber<T>>, b: seq<Subscriber<T>>)
    ensures Live(a + b) == Live(a) + Live(b)
    decreases |a|
  {
    if a == [] {
      assert a + b == b;
    } else {
      assert (a + b)[0] == a[0];
      assert (a + b)[1..] == a[1..] + b;
      LiveAppend(a[1..], b);
      if a[0].alive {
        assert Live(a + b) == [a[0]] + (Live(a[1..]) + Live(b));
      }
    }
  }

  /** A sequence of live subscribers keeps all of them. */
  lemma {:induction false} LiveOfAllAlive<T>(subs: seq<Subscriber<T>>)
    requires forall i :: 0 <= i < |subs| ==> subs[i].alive
    ensures Live(subs) == subs
    decreases |subs|
  {
    if subs != [] {
      LiveOfAllAlive(subs[1..]);
    }
  }

  /** `Vec::swap_remove`: the last element takes the place of the removed one. */
  method SwapRemove<X>(s: seq<X>, i: nat) returns (r: seq<X>)
    requires i < |s|
    ensures |r| == |s| - 1
    ensures r[..i] == s[..i]
    ensures i < |r| ==> r[i] == s[|s| - 1]
    ensures i < |r| ==> r[i + 1..] == s[i + 1..|s| - 1]
    ensures multiset(r) == multiset(s) - multiset{s[i]}
  {
    var last := |s| - 1;
    r := if i == last then s[..last] else s[..i] + [s[last]] + s[i + 1..last];
    SwapRemoveMultiset(s, i);
  }

  /**
    The expression `SwapRemove` builds: one shorter, the prefix kept, the last
    element in the gap, and one occurrence of the removed element gone.
  */
  lemma SwapRemoveMultiset<X>(s: seq<X>, i: nat)
    requires i < |s|
    ensures var last := |s| - 1;
            var r := if i == last then s[..last] else s[..i] + [s[last]] + s[i + 1..last];
            && |r| == |s| - 1
            && r[..i] == s[..i]
            && (i < |r| ==> r[i] == s[last])
            && (i < |r| ==> r[i + 1..] == s[i + 1..last])
            && multiset(r) == multiset(s) - multiset{s[i]}
  {
    var last := |s| - 1;
    if i == last {
      assert s == s[..last] + [s[last]];
    } else {
      assert s == s[..i] + [s[i]] + s[i + 1..last] + [s[last]];
      assert multiset(s) == multiset(s[..i]) + multiset{s[i]} + multiset(s[i + 1..last]) + multiset{s[last]};
      assert multiset(s[..i] + [s[last]] + s[i + 1..last])
             == multiset(s[..i]) + multiset{s[last]} + multiset(s[i + 1..last]);
    }
  }

  /** `closed` is the increasing list of the indices of the dead subscribers. */
  ghost predicate ClosedIndices<T>(subs: seq<Subscriber<T>>, closed: seq<nat>)
  {
    && (forall k :: 0 <= k < |closed| ==> closed[k] < |subs| && !subs[closed[k]].alive)
    && (forall k, l :: 0 <= k < l < |closed| ==> closed[k] < closed[l])
    && (forall i :: 0 <= i < |subs| && !subs[i].alive ==> i in closed)
  }

  /**
    The first loop of `HubInternal::send`: the value is offered to every
    subscriber in turn and the indices whose receiver is gone are collected.
  */
  method DeliverAll<T>(senders: seq<Subscriber<T>>, v: T) returns (delivered: seq<Subscriber<T>>, closed: seq<nat>)
    ensures |delivered| == |senders|
    ensures forall i :: 0 <= i < |senders| ==> delivered[i] == Deliver(senders[i], v)
    ensures ClosedIndices(delivered, closed)
  {
    delivered, closed := [], [];
    for i := 0 to |senders|
      invariant |delivered| == i
      invariant forall j :: 0 <= j < i ==> delivered[j] == Deliver(senders[j], v)
      invariant forall k :: 0 <= k < |closed| ==> closed[k] < i && !senders[closed[k]].alive
      invariant forall k, l :: 0 <= k < l < |closed| ==> closed[k] < closed[l]
      invariant forall j :: 0 <= j < i && !senders[j].alive ==> j in closed
    {
      delivered := delivered + [Deliver(senders[i], v)];
      if !senders[i].alive {
        closed := closed + [i];
      }
    }
  }

  /**
    The second loop of `HubInternal::send`: the closed indices are removed
    with `swap_remove` from the largest down.  Each removal moves the last
    element into a slot above every index still to be removed, so no live
    subscriber is lost and every dead one goes.
  */
  method RemoveClosed<T>(delivered: seq<Subscriber<T>>, closed: seq<nat>) returns (senders: seq<Subscriber<T>>)
    requires ClosedIndices(delivered, closed)
    ensures multiset(senders) == multiset(Live(delivered))
    ensures forall i :: 0 <= i < |senders| ==> senders[i].alive
    ensures |senders| == |Live(delivered)|
  {
    senders := delivered;
    var m: nat := |closed|;
    RemoveStart(delivered, closed);
    while m > 0
      invariant m <= |closed| && Removing(delivered, closed, m, senders)
      decreases m
    {
      ghost var before := senders;
      senders := SwapRemove(senders, closed[m - 1]);
      RemoveStep(delivered, closed, m, before, senders);
      m := m - 1;
    }
    RemoveEnd(delivered, closed, senders);
  }

  lemma RemoveEnd<T>(delivered: seq<Subscriber<T>>, closed: seq<nat>, senders: seq<Subscriber<T>>)
    requires Removing(delivered, closed, 0, senders)
    ensures multiset(senders) == multiset(Live(delivered))
    ensures forall i :: 0 <= i < |senders| ==> senders[i].alive
    ensures |senders| == |Live(delivered)|
  {
    assert delivered[0..] == delivered;
    assert senders[0..] == senders;
    AllLive(senders, Live(delivered));
  }

  /** A list with the same elements as a list of live subscribers is live and as long. */
  lemma AllLive<T>(subs: seq<Subscriber<T>>, live: seq<Subscriber<T>>)
    requires multiset(subs) == multiset(live)
    requires forall i :: 0 <= i < |live| ==> live[i].alive
    ensures forall i :: 0 <= i < |subs| ==> subs[i].alive
    ensures |subs| == |live|
  {
    forall i | 0 <= i < |subs| ensures subs[i].alive {
      assert subs[i] in multiset(live);
    }
    assert |subs| == |multiset(subs)|;
  }

  /**
   * Loop invariant of RemoveClosed: after the closed indices from m on have been
   * removed, the part below the next one is untouched and the part above it holds
   * exactly the live subscribers of that range.
   */
  ghost predicate Removing<T>(delivered: seq<Subscriber<T>>, closed: seq<nat>, m: nat, senders: seq<Subscriber<T>>)
    requires m <= |closed|
  {
    && Bound(closed, m) <= |senders|
    && Bound(closed, m) <= |delivered|
    && senders[..Bound(closed, m)] == delivered[..Bound(closed, m)]
    && multiset(senders[Bound(closed, m)..]) == multiset(Live(delivered[Bound(closed, m)..]))
  }

  /** Below this bound nothing has been removed yet once the last `|closed| - m` indices are done. */
  function Bound(closed: seq<nat>, m: nat): nat
    requires m <= |closed|
  {
    if m == 0 then 0 else closed[m - 1] + 1
  }

  /** Above the largest closed index every subscriber is alive. */
  lemma RemoveStart<T>(delivered: seq<Subscriber<T>>, closed: seq<nat>)
    requires ClosedIndices(delivered, closed)
    ensures Removing(delivered, closed, |closed|, delivered)
  {
    var m := |closed|;
    var top := Bound(closed, m);
    forall i | top <= i < |delivered| ensures delivered[i].alive {
      if !delivered[i].alive { SortedIndexBetween(closed, m, i); }
    }
    LiveOfAllAlive(delivered[top..]);
  }

  /** One `swap_remove` of the loop keeps the loop's invariant. */
  lemma RemoveStep<T>(delivered: seq<Subscriber<T>>, closed: seq<nat>, m: nat, before: seq<Subscriber<T>>,
                      after: seq<Subscriber<T>>)
    requires ClosedIndices(delivered, closed)
    requires 0 < m <= |closed|
    requires Removing(delivered, closed, m, before)
    requires |after| == |before| - 1
    requires after[..closed[m - 1]] == before[..closed[m - 1]]
    requires multiset(after) == multiset(before) - multiset{before[closed[m - 1]]}
    ensures Removing(delivered, closed, m - 1, after)
  {
    var k := closed[m - 1];
    var lo := Bound(closed, m - 1);
    NoneClosedBetween(delivered, closed, m - 1, lo);
    assert !delivered[k].alive;
    LiveSplitAtDead(delivered, lo, k);
    SwapRemoveAbove(before, after, delivered, lo, k, Live(delivered[k + 1..]));
  }

  /** With a live run from lo to k and a dead subscriber at k, Live from lo is that run and what is live above k. */
  lemma LiveSplitAtDead<T>(delivered: seq<Subscriber<T>>, lo: nat, k: nat)
    requires lo <= k < |delivered| && !delivered[k].alive
    requires forall i :: lo <= i < k ==> delivered[i].alive
    ensures Live(delivered[lo..]) == delivered[lo..k] + Live(delivered[k + 1..])
  {
    assert delivered[lo..] == (delivered[lo..k] + [delivered[k]]) + delivered[k + 1..];
    LiveAppend(delivered[lo..k] + [delivered[k]], delivered[k + 1..]);
    LiveAppend(delivered[lo..k], [delivered[k]]);
    LiveOfAllAlive(delivered[lo..k]);
    assert Live([delivered[k]]) == [];
  }

  /**
    `swap_remove` at k of a list that agrees with `orig` up to k keeps it
    agreeing below k, and from any lo <= k removes exactly the element at k.
  */
  lemma SwapRemoveAbove<X>(before: seq<X>, after: seq<X>, orig: seq<X>, lo: nat, k: nat, rest: seq<X>)
    requires lo <= k < |before| && k < |orig|
    requires |after| == |before| - 1
    requires after[..k] == before[..k]
    requires multiset(after) == multiset(before) - multiset{before[k]}
    requires before[..k + 1] == orig[..k + 1]
    requires multiset(before[k + 1..]) == multiset(rest)
    ensures lo <= |after|
    ensures after[..lo] == orig[..lo]
    ensures multiset(after[lo..]) == multiset(orig[lo..k] + rest)
  {
    assert after[..lo] == before[..lo] by {
      assert after[..lo] == after[..k][..lo];
      assert before[..lo] == before[..k][..lo];
    }
    assert before[..lo] == orig[..lo] by {
      assert orig[..lo] == orig[..k + 1][..lo];
      assert before[..lo] == before[..k + 1][..lo];
    }
    assert before[lo..k] == orig[lo..k] by {
      assert before[lo..k] == before[..k + 1][lo..k];
      assert orig[lo..k] == orig[..k + 1][lo..k];
    }
    MultisetSplit(after, lo);
    MultisetSplit(before, lo);
    assert before[lo..][k - lo] == before[k];
    MultisetCancel(multiset(after[..lo]), multiset(after[lo..]), multiset(before[lo..]), before[k]);
    assert before[lo..] == before[lo..k] + [before[k]] + before[k + 1..];
  }

  lemma MultisetCancel<X>(p: multiset<X>, a: multiset<X>, b: multiset<X>, x: X)
    requires x in b && p + a == (p + b) - multiset{x}
    ensures a == b - multiset{x}
  {
    forall y ensures a[y] == (b - multiset{x})[y] {
      assert (p + a)[y] == ((p + b) - multiset{x})[y];
    }
  }

  lemma MultisetSplit<X>(s: seq<X>, lo: nat)
    requires lo <= |s|
    ensures multiset(s) == multiset(s[..lo]) + multiset(s[lo..])
  {
    assert s == s[..lo] + s[lo..];
  }

  /** No closed index lies strictly between two neighbours of the list. */
  lemma NoneClosedBetween<T>(delivered: seq<Subscriber<T>>, closed: seq<nat>, m: nat, bound: nat)
    requires ClosedIndices(delivered, closed)
    requires m < |closed| && bound == (if m == 0 then 0 else closed[m - 1] + 1)
    ensures bound <= closed[m]
    ensures forall i :: bound <= i < closed[m] ==> delivered[i].alive
  {
    forall i | bound <= i < closed[m] ensures delivered[i].alive {
      SortedIndexBetween(closed, m, i);
    }
  }

  /** In an increasing list, an index between the entries at m - 1 and m is not in the list. */
  lemma SortedIndexBetween(closed: seq<nat>, m: nat, i: nat)
    requires forall k, l :: 0 <= k < l < |closed| ==> closed[k] < closed[l]
    requires m <= |closed|
    requires m == 0 || closed[m - 1] < i
    requires m == |closed| || i < closed[m]
    ensures i !in closed
  {
    forall k | 0 <= k < |closed| ensures closed[k] != i {
      if k < m {
        assert closed[k] <= closed[m - 1];
      } else {
        assert closed[m] <= closed[k];
      }
    }
  }

  class HubInternal<Ty(==), T> {
    var topics: map<TopicId<Ty>, seq<Subscriber<T>>>

    /** `HubInternal::new`: no topics. */
    constructor ()
      ensures topics == map[]
    {
      topics := map[];
    }

    /** `get_or_create_topic`: an absent topic is created with no subscribers. */
    method GetOrCreateTopic(id: TopicId<Ty>)
      modifies this
      ensures topics == if id in old(topics) then old(topics) else old(topics)[id := []]
    {
      if id !in topics {
        topics := topics[id := []];
      }
    }

    /**
      `get_receiver`: a fresh channel is appended to the topic (created if
      absent); its queue starts empty, so it sees no earlier value.  The
      result is the new subscriber's position in the topic.
    */
    method GetReceiver(id: TopicId<Ty>) returns (position: nat)
      modifies this
      ensures id in topics
      ensures topics == old(topics)[id := SubscribersOf(old(topics), id) + [Subscriber(true, [])]]
      ensures position == |topics[id]| - 1 && topics[id][position] == Subscriber(true, [])
      ensures forall t :: t != id && t in old(topics) ==> t in topics && topics[t] == old(topics)[t]
    {
      GetOrCreateTopic(id);
      topics := topics[id := topics[id] + [Subscriber(true, [])]];
      position := |topics[id]| - 1;
    }

    /**
      The receiving end at `position` of topic `id` is dropped by its owner;
      later sends on its channel fail.
    */
    method CloseReceiver(id: TopicId<Ty>, position: nat)
      modifies this
      ensures topics == if id in old(topics) && position < |old(topics)[id]|
                        then old(topics)[id := old(topics)[id][position := old(topics)[id][position].(alive := false)]]
                        else old(topics)
    {
      if id in topics && position < |topics[id]| {
        var subs := topics[id];
        topics := topics[id := subs[position := subs[position].(alive := false)]];
      }
    }

    /**
      `HubInternal::send`: the value is queued for every live subscriber,
      the dead ones are pruned, and the result is Ok (true) exactly when a
      subscriber remains.  An unknown topic is created empty and gives Err.
    */
    method Send(id: TopicId<Ty>, value: T) returns (ok: bool)
      modifies this
      ensures id in topics
      ensures multiset(topics[id]) == multiset(Live(DeliverEach(SubscribersOf(old(topics), id), value)))
      ensures forall i :: 0 <= i < |topics[id]| ==> topics[id][i].alive
      ensures ok <==> |topics[id]| > 0
      ensures ok <==> exists i :: 0 <= i < |SubscribersOf(old(topics), id)| && SubscribersOf(old(topics), id)[i].alive
      ensures topics.Keys == old(topics).Keys + {id}
      ensures forall t :: t != id && t in old(topics) ==> topics[t] == old(topics)[t]
    {
      GetOrCreateTopic(id);
      var subs := topics[id];
      var delivered, closed := DeliverAll(subs, value);
      assert delivered == DeliverEach(subs, value);
      var remaining := RemoveClosed(delivered, closed);
      topics := topics[id := remaining];
      ok := |remaining| > 0;
      LiveEmpty(delivered);
    }
  }

  /** The subscribers of a topic, none for an absent one. */
  function SubscribersOf<Ty(==), T>(topics: map<TopicId<Ty>, seq<Subscriber<T>>>, id: TopicId<Ty>): (r: seq<Subscriber<T>>)
    ensures id in topics ==> r == topics[id]
    ensures id !in topics ==> r == []
  {
    if id in topics then topics[id] else []
  }

  /** Every subscriber offered the value. */
  function DeliverEach<T>(subs: seq<Subscriber<T>>, v: T): (r: seq<Subscriber<T>>)
    ensures |r| == |subs| && forall i :: 0 <= i < |subs| ==> r[i] == Deliver(subs[i], v)
  {
    seq(|subs|, i requires 0 <= i < |subs| => Deliver(subs[i], v))
  }

  /** Some subscriber is left after pruning exactly when one was alive. */
  lemma {:induction false} LiveEmpty<T>(subs: seq<Subscriber<T>>)
    ensures |Live(subs)| > 0 <==> exists i :: 0 <= i < |subs| && subs[i].alive
    decreases |subs|
  {
    if subs != [] {
      LiveEmpty(subs[1..]);
      if subs[0].alive {
      } else {
        assert (exists i :: 0 <= i < |subs| && subs[i].alive) <==>
               (exists i :: 0 <= i < |subs[1..]| && subs[1..][i].alive) by {
          if exists i :: 0 <= i < |subs| && subs[i].alive {
            var i :| 0 <= i < |subs| && subs[i].alive;
            assert subs[1..][i - 1] == subs[i];
          }
        }
      }
    }
  }

  /**
    Each live subscriber gets the value appended to what it already holds,
    so a subscriber sees the values of a topic in the order they were sent.
  */
  lemma DeliveredInOrder<T>(subs: seq<Subscriber<T>>, v: T, i: nat)
    requires i < |subs| && subs[i].alive
    ensures Deliver(subs[i], v) in Live(DeliverEach(subs, v))
    ensures Deliver(subs[i], v).inbox == subs[i].inbox + [v]
  {
    LiveContains(DeliverEach(subs, v), i);
  }

  lemma {:induction false} LiveContains<T>(subs: seq<Subscriber<T>>, i: nat)
    requires i < |subs| && subs[i].alive
    ensures subs[i] in Live(subs)
    decreases |subs|
  {
    if i > 0 {
      LiveContains(subs[1..], i - 1);
    }
  }
}
