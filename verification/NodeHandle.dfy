/**
  The node handle: a linked list of subscribers, newest first, with a pointer to the one of smallest
  interval, and the loops over the list that give up after a fixed number of nodes.
 */
module NodeHandle {
  import opened Basics

  const MAX_SUBSCRIPTIONS := 100

  type Msg = int

  /** A subscriber's data: the stored message, the topic's news if any, and the callback's calls so far. */
  datatype Inbox = Inbox(current: Msg, news: Option<Msg>, calls: seq<Msg>)

  /** One update: without news nothing happens; otherwise the news is stored, then handed to the callback. */
  function Updated(b: Inbox, hasCallback: bool): Inbox
  {
    match b.news
    case None => b
    case Some(m) => Inbox(m, None, if hasCallback then b.calls + [m] else b.calls)
  }

  class SubscriberNode {
    const interval: nat
    const hasCallback: bool
    var sibling: SubscriberNode?
    var inbox: Inbox

    constructor (interval: nat, hasCallback: bool, inbox: Inbox)
      ensures this.interval == interval && this.hasCallback == hasCallback && this.inbox == inbox && sibling == null
    {
      this.interval, this.hasCallback, this.inbox, sibling := interval, hasCallback, inbox, null;
    }

    method Update()
      modifies `inbox
      ensures inbox == Updated(old(inbox), hasCallback)
    {
      if inbox.news.None? {
        return;
      }
      inbox := Inbox(inbox.news.value, None, inbox.calls);
      if !hasCallback {
        return;
      }
      inbox := inbox.(calls := inbox.calls + [inbox.current]);
    }
  }

  //
  // The smallest interval
  //

  /** Where the pointer stands after subscriptions with these intervals, in call order. */
  function Pointer(intervals: seq<nat>): (p: Option<nat>)
    ensures p.Some? ==> p.value < |intervals|
  {
    if intervals == [] then None
    else
      var n := |intervals| - 1;
      var before := Pointer(intervals[..n]);
      if before.None? || intervals[before.value] > intervals[n] then Some(n) else before
  }

  /** p is the earliest subscription of smallest interval. */
  predicate EarliestMinimum(intervals: seq<nat>, p: nat)
  {
    && p < |intervals|
    && (forall i | 0 <= i < |intervals| :: intervals[p] <= intervals[i])
    && (forall i | 0 <= i < p :: intervals[p] < intervals[i])
  }

  /** After every sequence of subscriptions, and there is only one such subscription to point to. */
  lemma {:induction false} PointerIsEarliestMinimum(intervals: seq<nat>)
    ensures Pointer(intervals) == None <==> intervals == []
    ensures forall p: nat :: EarliestMinimum(intervals, p) <==> Pointer(intervals) == Some(p)
    decreases |intervals|
  {
    if intervals == [] {
    } else {
      var n := |intervals| - 1;
      var before := Pointer(intervals[..n]);
      PointerIsEarliestMinimum(intervals[..n]);
      if before.Some? {
        assert EarliestMinimum(intervals[..n], before.value);
        assert forall i | 0 <= i < n :: intervals[..n][i] == intervals[i];
      }
      var p := Pointer(intervals).value;
      assert EarliestMinimum(intervals, p);
      forall q: nat | EarliestMinimum(intervals, q)
        ensures q == p
      {
        assert intervals[p] <= intervals[q] && intervals[q] <= intervals[p];
      }
    }
  }

  function Intervals(nodes: seq<SubscriberNode>): (r: seq<nat>)
    ensures |r| == |nodes|
  {
    seq(|nodes|, i requires 0 <= i < |nodes| => nodes[i].interval)
  }

  //
  // The handle
  //

  /** How many nodes at the front of a list of n the loops get to. */
  function Reached(n: nat): nat
  {
    if n <= MAX_SUBSCRIPTIONS + 1 then n else MAX_SUBSCRIPTIONS + 1
  }

  function Callbacks(nodes: seq<SubscriberNode>): (r: seq<bool>)
    ensures |r| == |nodes|
  {
    seq(|nodes|, i requires 0 <= i < |nodes| => nodes[i].hasCallback)
  }

  /** The inboxes, in call order, after the newest count of them were updated. */
  function Spun(was: seq<Inbox>, flags: seq<bool>, count: nat): (r: seq<Inbox>)
    requires count <= |was| == |flags|
    ensures |r| == |was|
  {
    seq(|was|, i requires 0 <= i < |was| => if i >= |was| - count then Updated(was[i], flags[i]) else was[i])
  }

  /**
    A full turn of spinOnce over n subscribers: a callback runs only where the topic has news, once,
    and what it is given is the message just stored. With more than 101 subscribers the oldest are
    left out: every topic is served if and only if there are no more than that.
   */
  lemma SpinServes(was: seq<Inbox>, flags: seq<bool>)
    requires |was| == |flags|
    ensures var now := Spun(was, flags, Reached(|was|));
      && (forall i | 0 <= i < |was| && now[i].calls != was[i].calls ::
            && flags[i] && was[i].news.Some?
            && now[i].calls == was[i].calls + [now[i].current] && now[i].current == was[i].news.value)
      && ((forall i | 0 <= i < |was| :: now[i].news.None?)
            <==> forall i | 0 <= i < |was| - Reached(|was|) :: was[i].news.None?)
  {
    var now := Spun(was, flags, Reached(|was|));
    if forall i | 0 <= i < |was| :: now[i].news.None? {
      forall i | 0 <= i < |was| - Reached(|was|)
        ensures was[i].news.None?
      {
        assert now[i] == was[i];
      }
    }
  }

  /**
    Exactly what a turn of spinOnce does: each of the newest 101 inboxes, or all if there are fewer,
    stores its news and, if it has a callback, calls it once with what it stored; every other inbox, and
    every one without news, stays as it was.
   */
  lemma SpinDelivers(was: seq<Inbox>, flags: seq<bool>, i: nat)
    requires |was| == |flags| && i < |was|
    ensures var now, reached := Spun(was, flags, Reached(|was|)), i >= |was| - 101;
      if reached && was[i].news.Some? then
        var m := was[i].news.value;
        now[i].current == m && now[i].news == None && now[i].calls == was[i].calls + (if flags[i] then [m] else [])
      else now[i] == was[i]
  {
  }

  /** The node at place i of the call order, null in front of the first. */
  function NodeAt(nodes: seq<SubscriberNode>, i: int): SubscriberNode?
    requires -1 <= i < |nodes|
  {
    if i < 0 then null else nodes[i]
  }

  /** The earliest subscriber of smallest interval, null if there is none. */
  function MinNode(nodes: seq<SubscriberNode>): SubscriberNode?
  {
    match Pointer(Intervals(nodes))
    case None => null
    case Some(p) => nodes[p]
  }

  class Handle {
    var head: SubscriberNode?
    var subMinInterval: SubscriberNode?
    ghost var added: seq<SubscriberNode>  // in the order of the subscribe calls

    ghost predicate Linked()
      reads this, (set s | s in added)`sibling
    {
      && (forall i, j | 0 <= i < j < |added| :: added[i] != added[j])
      && (forall i | 0 <= i < |added| :: added[i].sibling == NodeAt(added, i - 1))
      && head == NodeAt(added, |added| - 1)
    }

    ghost predicate Valid()
      reads this, (set s | s in added)`sibling
    {
      Linked() && subMinInterval == MinNode(added)
    }

    constructor ()
      ensures Valid() && added == []
    {
      head, subMinInterval, added := null, null, [];
    }

    lemma Link(i: nat)
      requires Valid() && i < |added|
      ensures added[i].sibling == NodeAt(added, i - 1)
      ensures forall j | 0 <= j < |added| && j != i :: added[j] != added[i]
    {
      hide MinNode;
    }

    lemma Headed()
      requires Valid()
      ensures head == NodeAt(added, |added| - 1)
      ensures forall i, j | 0 <= i < j < |added| :: added[i] != added[j]
    {
      hide MinNode;
    }

    method Subscribe(interval: nat, hasCallback: bool, inbox: Inbox) returns (sub: SubscriberNode)
      requires Valid()
      modifies this
      ensures Valid() && fresh(sub) && added == old(added) + [sub]
      ensures sub.interval == interval && sub.hasCallback == hasCallback && sub.inbox == inbox
    {
      hide MinNode;
      ghost var was := added;
      sub := new SubscriberNode(interval, hasCallback, inbox);
      assert forall i | 0 <= i < |was| :: was[i] != sub && was[i].sibling == NodeAt(was, i - 1);
      OneMoreInterval(was, sub);
      if subMinInterval == null || subMinInterval.interval > interval {
        subMinInterval := sub;
      }
      sub.sibling := head;
      head := sub;
      added := was + [sub];
      assert forall i | 0 <= i < |was| :: added[i] == was[i] && was[i].sibling == NodeAt(was, i - 1);
    }

    ghost function Inboxes(): (r: seq<Inbox>)
      reads added, this
      ensures |r| == |added|
    {
      seq(|added|, i requires 0 <= i < |added| reads added, this => added[i].inbox)
    }

    /** Updates the nodes it reaches, the newest first, each once; the others keep their inboxes. */
    method SpinOnce()
      requires Valid()
      modifies (set s | s in added)`inbox
      ensures Valid() && added == old(added)
      ensures Inboxes() == Spun(old(Inboxes()), Callbacks(added), Reached(|added|))
    {
      hide Updated, MinNode, Valid;
      ghost var was, flags := Inboxes(), Callbacks(added);
      Headed();
      var sub := head;
      var count := 0;
      while sub != null
        invariant 0 <= count <= Reached(|added|)
        invariant sub == NodeAt(added, |added| - 1 - count)
        invariant Valid()
        invariant Inboxes() == Spun(was, flags, count)
        decreases |added| - count
      {
        if count > MAX_SUBSCRIPTIONS {
          break;
        }
        ghost var at, before := |added| - 1 - count, Inboxes();
        Link(at);
        count := count + 1;
        sub.Update();
        assert Inboxes() == before[at := Updated(before[at], flags[at])];
        sub := sub.sibling;
      }
    }

    /** The nodes the destructor deletes, in that order; the sibling is read before its node goes. */
    method Destroy() returns (deleted: seq<SubscriberNode>)
      requires Valid()
      ensures |deleted| == Reached(|added|)
      ensures forall k | 0 <= k < |deleted| :: deleted[k] == added[|added| - 1 - k]
      ensures forall i, j | 0 <= i < j < |deleted| :: deleted[i] != deleted[j]
    {
      hide MinNode, Valid;
      deleted := [];
      Headed();
      var sub := head;
      var count := 0;
      while sub != null
        invariant 0 <= count <= Reached(|added|) && |deleted| == count
        invariant sub == NodeAt(added, |added| - 1 - count)
        invariant forall k | 0 <= k < count :: deleted[k] == added[|added| - 1 - k]
        decreases |added| - count
      {
        if count > MAX_SUBSCRIPTIONS {
          break;
        }
        Link(|added| - 1 - count);
        count := count + 1;
        var sib := sub.sibling;
        deleted := deleted + [sub];
        sub := sib;
      }
    }
  }

  lemma OneMoreInterval(added: seq<SubscriberNode>, sub: SubscriberNode)
    ensures var before := MinNode(added);
      MinNode(added + [sub]) == if before == null || before.interval > sub.interval then sub else before
  {
    assert Intervals(added + [sub])[..|added|] == Intervals(added);
  }
}
