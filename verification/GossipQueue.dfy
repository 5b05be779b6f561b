/** The queue for execution: a gossip with enough rumors gets there, once, and what is taken from it in time is executed. */
module GossipQueue {
  import opened Gossips
  import opened GossipRuns

  ghost function HashAt(n: Delegate, i: nat): Hash
    requires Refs(n) && i < |n.queue|
  {
    n.heap[n.queue[i]].transaction.hash
  }

  /** A gossip about the transaction is queued. */
  ghost predicate Waiting(n: Delegate, h: Hash)
    requires Refs(n)
  {
    exists i :: 0 <= i < |n.queue| && HashAt(n, i) == h
  }

  /** The record of what is queued is right, and no transaction is queued twice. */
  ghost predicate QueueRight(n: Delegate) {
    && Refs(n)
    && (forall i, j :: 0 <= i < j < |n.queue| ==> HashAt(n, i) != HashAt(n, j))
    && forall h :: h in n.queued <==> Waiting(n, h)
  }

  // ---- steps that leave the queue alone ----

  ghost predicate LeavesQueue(n: Delegate, n': Delegate) {
    && n'.queue == n.queue && n'.queued == n.queued && |n'.heap| >= |n.heap|
    && forall i :: 0 <= i < |n.heap| ==> n'.heap[i].transaction == n.heap[i].transaction
  }

  lemma LeftRight(n: Delegate, n': Delegate)
    requires QueueRight(n) && LeavesQueue(n, n') && Refs(n')
    ensures QueueRight(n')
  {
    assert forall i :: 0 <= i < |n.queue| ==> HashAt(n', i) == HashAt(n, i);
    forall h ensures Waiting(n', h) <==> Waiting(n, h) {
    }
  }

  lemma StartLeaves(c: Setting, self: Address, n: Delegate, tx: Transaction, time: int)
    ensures LeavesQueue(n, Start(c, self, n, tx, time).0)
  {
  }

  lemma ReceiveLeaves(c: Setting, self: Address, n: Delegate, g: Gossip, time: int)
    requires Refs(n)
    ensures LeavesQueue(n, Receive(c, self, n, g, time).state)
  {
    hide Merge, HasAll, ContainsRumor, Broadcast;
  }

  // ---- the worker ----

  /** Whether a gossip that the worker takes gets through the checks, and has rumors of two thirds of the delegates. */
  ghost predicate Ready(c: Setting, n: Delegate, w: Chance)
    requires Refs(n) && n.chan != []
  {
    var g := n.heap[n.chan[0]];
    (|g.rumors| > 1 ==> w.order != [] && ValidTimeDelta(w.order, w.now)) && 3 * |g.rumors| >= 2 * |c.delegates|
  }

  lemma OrderLength(w: Chance, rumors: seq<Rumor>)
    requires multiset(w.order) == multiset(rumors)
    ensures |w.order| == |rumors|
  {
    assert |multiset(w.order)| == |w.order| && |multiset(rumors)| == |rumors|;
  }

  /** The worker queues a gossip exactly if it is ready and none about its transaction is queued, and sends nothing then. */
  lemma WorkQueues(c: Setting, self: Address, n: Delegate, w: Chance)
    requires Refs(n) && n.chan != [] && Possible(c, self, n, w)
    requires |n.heap[n.chan[0]].rumors| > 1 ==> w.order != []
    ensures var (n', out) := Work(c, self, n, w); var ref := n.chan[0]; var h := n.heap[ref].transaction.hash;
            && |n'.heap| == |n.heap| && (forall i :: 0 <= i < |n.heap| ==> n'.heap[i].transaction == n.heap[i].transaction)
            && n'.queue == (if Ready(c, n, w) && h !in n.queued then n.queue + [ref] else n.queue)
            && n'.queued == (if Ready(c, n, w) then n.queued + {h} else n.queued)
            && (Ready(c, n, w) ==> out == [] && n'.chan == n.chan[1..])
  {
    OrderLength(w, n.heap[n.chan[0]].rumors);
    hide ValidTimeDelta, SortedByTime;
  }

  /**
    A gossip in time with too few rumors goes on to the chosen delegate, and back to the channel if that fails; with no one
    left to choose it goes to the cache. One that is late is dropped.
   */
  lemma WorkSendsOn(c: Setting, self: Address, n: Delegate, w: Chance)
    requires Refs(n) && n.chan != [] && Possible(c, self, n, w)
    requires |n.heap[n.chan[0]].rumors| > 1 ==> w.order != []
    ensures var (n', out) := Work(c, self, n, w); var ref := n.chan[0]; var g := n.heap[ref];
            var late := |g.rumors| > 1 && !ValidTimeDelta(w.order, w.now);
            var few := 3 * |g.rumors| < 2 * |c.delegates| && |g.rumors| < |c.delegates|;
            && (late ==> out == [] && n'.chan == n.chan[1..] && n'.cache == n.cache)
            && (!late && few && w.choice.Some? ==>
                  && out == [Request(w.choice.value, self, Gossip(g.transaction, if |g.rumors| > 1 then w.order else g.rumors))]
                  && n'.chan == n.chan[1..] + (if w.fails then [ref] else []) && n'.cache == n.cache)
            && (!late && few && w.choice.None? ==>
                  out == [] && n'.chan == n.chan[1..] && n'.cache == n.cache[g.transaction.hash := ref])
  {
    OrderLength(w, n.heap[n.chan[0]].rumors);
    hide ValidTimeDelta, SortedByTime;
  }

  lemma Added(n: Delegate, n': Delegate, ref: nat)
    requires QueueRight(n) && Refs(n') && ref < |n.heap| && n.heap[ref].transaction.hash !in n.queued
    requires |n'.heap| == |n.heap| && forall i :: 0 <= i < |n.heap| ==> n'.heap[i].transaction == n.heap[i].transaction
    requires n'.queue == n.queue + [ref] && n'.queued == n.queued + {n.heap[ref].transaction.hash}
    ensures QueueRight(n')
  {
    var last := |n.queue|;
    assert HashAt(n', last) == n.heap[ref].transaction.hash;
    forall i | 0 <= i < last
      ensures HashAt(n', i) == HashAt(n, i) && HashAt(n, i) in n.queued
    {
      assert Waiting(n, HashAt(n, i));
    }
    forall h
      ensures Waiting(n', h) <==> Waiting(n, h) || h == n.heap[ref].transaction.hash
    {
      if Waiting(n, h) {
        var i :| 0 <= i < |n.queue| && HashAt(n, i) == h;
        assert HashAt(n', i) == h;
      }
    }
  }

  lemma WorkRight(c: Setting, self: Address, n: Delegate, w: Chance)
    requires QueueRight(n) && n.chan != [] && Possible(c, self, n, w) && Refs(Work(c, self, n, w).0)
    requires |n.heap[n.chan[0]].rumors| > 1 ==> w.order != []
    ensures QueueRight(Work(c, self, n, w).0)
    ensures Ready(c, n, w) ==> Waiting(Work(c, self, n, w).0, n.heap[n.chan[0]].transaction.hash)
  {
    WorkQueues(c, self, n, w);
    var n' := Work(c, self, n, w).0;
    var h := n.heap[n.chan[0]].transaction.hash;
    hide Work, Ready, Possible;
    if Ready(c, n, w) && h !in n.queued {
      Added(n, n', n.chan[0]);
    } else {
      assert n'.queued == n.queued;
      LeftRight(n, n');
    }
  }

  // ---- taking from the queue ----

  lemma Removed(n: Delegate, n': Delegate, i: nat)
    requires QueueRight(n) && Refs(n') && i < |n.queue| && n'.heap == n.heap
    requires n'.queue == n.queue[..i] + n.queue[i + 1..] && n'.queued == n.queued - {HashAt(n, i)}
    ensures QueueRight(n')
  {
    forall j | 0 <= j < |n'.queue|
      ensures HashAt(n', j) == HashAt(n, if j < i then j else j + 1)
    {
    }
    forall h
      ensures Waiting(n', h) <==> Waiting(n, h) && h != HashAt(n, i)
    {
      if Waiting(n, h) && h != HashAt(n, i) {
        var j :| 0 <= j < |n.queue| && HashAt(n, j) == h;
        assert HashAt(n', if j < i then j else j - 1) == h;
      }
    }
  }

  lemma DoWorkRight(n: Delegate, i: nat, bookkeeper: bool, outcome: Outcome)
    requires QueueRight(n) && i < |n.queue| && Refs(DoWork(n, i, bookkeeper, outcome).state)
    ensures QueueRight(DoWork(n, i, bookkeeper, outcome).state)
    ensures !Waiting(DoWork(n, i, bookkeeper, outcome).state, HashAt(n, i))
  {
    var n' := DoWork(n, i, bookkeeper, outcome).state;
    Removed(n, n', i);
    assert HashAt(n, i) !in n'.queued;
  }

  /** What is taken from the queue is executed exactly if its receipt is known, it is in time, and it has not been executed before. */
  lemma Executes(c: Setting, issued: set<(Address, Rumor)>, n: Delegate, i: nat, bookkeeper: bool, outcome: Outcome)
    requires Sound(c, issued, n) && i < |n.queue| && c.delegates != []
    ensures var g := n.heap[n.queue[i]]; var h := g.transaction.hash; var d := DoWork(n, i, bookkeeper, outcome);
            && g.rumors != []
            && (d.executed <==> && h in n.receipts && g.rumors[0].time - g.transaction.time < TX_RECEIVE_TIMEOUT
                                && bookkeeper && h !in n.persisted && !outcome.Refused?)
            && d.state.persisted == (if d.executed && outcome.Committed? then n.persisted + {h} else n.persisted)
  {
    DoWorkSound(c, issued, n, i, bookkeeper, outcome);
    hide Sound, GoodGossip;
  }

  // ---- runs ----

  ghost predicate QueuesRight(s: System) {
    forall a :: a in s.nodes ==> QueueRight(s.nodes[a])
  }

  /** The order by time of more than one rumor is not empty. */
  lemma SomeOrder(c: Setting, a: Address, n: Delegate, w: Chance)
    requires Refs(n) && n.chan != [] && Possible(c, a, n, w) && |n.heap[n.chan[0]].rumors| > 1
    ensures w.order != []
  {
    OrderLength(w, n.heap[n.chan[0]].rumors);
  }

  lemma NextRight(c: Setting, s: System, e: Event)
    requires Inv(c, s) && QueuesRight(s) && Enabled(c, s, e)
    ensures QueuesRight(Next(c, s, e))
  {
    NextInv(c, s, e);
    var t := Next(c, s, e);
    forall a | a in t.nodes
      ensures QueueRight(t.nodes[a])
    {
      InvNode(c, t, a);
      assert a in s.nodes && QueueRight(s.nodes[a]);
      NodeRight(c, s, e, a);
    }
    hide Next, Inv, QueueRight, Enabled;
  }

  lemma NodeRight(c: Setting, s: System, e: Event, a: Address)
    requires Enabled(c, s, e) && a in s.nodes && QueueRight(s.nodes[a]) && Refs(Next(c, s, e).nodes[a])
    ensures QueueRight(Next(c, s, e).nodes[a])
  {
    var n := s.nodes[a];
    match e
    case Begin(b, tx, time) =>
      if b == a {
        StartLeaves(c, a, n, tx, time);
        hide Start, QueueRight, Refs;
        LeftRight(n, Next(c, s, e).nodes[a]);
      }
    case Arrive(m, time) =>
      if m.to == a {
        if m.Request? {
          ReceiveLeaves(c, a, n, m.gossip, time);
        }
        hide Receive, QueueRight, Refs;
        LeftRight(n, Next(c, s, e).nodes[a]);
      }
    case Lose(m) =>
    case Worker(b, w) =>
      if b == a {
        if |n.heap[n.chan[0]].rumors| > 1 {
          SomeOrder(c, a, n, w);
        }
        hide Work, QueueRight, Refs, Possible;
        WorkRight(c, a, n, w);
      }
    case Execute(b, i, bookkeeper, outcome) =>
      if b == a {
        hide DoWork, QueueRight, Refs;
        DoWorkRight(n, i, bookkeeper, outcome);
      }
  }

  /** In every run what each delegate has queued is recorded, and no transaction is queued twice. */
  lemma {:induction false} RunQueues(c: Setting, s: System, events: seq<Event>, t: System)
    requires Initial(c, s) && Run(c, s, events, t)
    ensures QueuesRight(t)
    decreases |events|
  {
    if events != [] {
      var last := |events| - 1;
      var u :| Run(c, s, events[..last], u) && Enabled(c, u, events[last]) && t == Next(c, u, events[last]);
      RunQueues(c, s, events[..last], u);
      RunInv(c, s, events[..last], u);
      NextRight(c, u, events[last]);
      hide Next, Inv, QueueRight, Enabled, Initial;
    }
  }

  /**
    In every run: a gossip that the worker takes and that is ready is queued then; and when it is taken from the queue,
    in time, by a bookkeeper, for the first time, its transaction is executed.
   */
  lemma ReadyIsQueued(c: Setting, s: System, events: seq<Event>, t: System, a: Address, w: Chance)
    requires Initial(c, s) && Run(c, s, events, t) && Enabled(c, t, Worker(a, w)) && Ready(c, t.nodes[a], w)
    ensures var n := t.nodes[a]; var n' := Next(c, t, Worker(a, w)).nodes[a];
            Refs(n') && Waiting(n', n.heap[n.chan[0]].transaction.hash)
  {
    RunQueues(c, s, events, t);
    RunInv(c, s, events, t);
    NextInv(c, t, Worker(a, w));
    InvNode(c, Next(c, t, Worker(a, w)), a);
    var n := t.nodes[a];
    if |n.heap[n.chan[0]].rumors| > 1 {
      SomeOrder(c, a, n, w);
    }
    hide Work, QueueRight, Inv, Ready, Waiting, Initial, Run;
    WorkRight(c, a, n, w);
  }

  lemma QueuedIsExecuted(c: Setting, s: System, events: seq<Event>, t: System, a: Address, i: nat, bookkeeper: bool, outcome: Outcome)
    requires Initial(c, s) && Run(c, s, events, t) && Enabled(c, t, Execute(a, i, bookkeeper, outcome))
    ensures var n := t.nodes[a]; var g := n.heap[n.queue[i]]; var u := Next(c, t, Execute(a, i, bookkeeper, outcome));
            && g.rumors != []
            && u.executed == if && g.transaction.hash in n.receipts && g.rumors[0].time - g.transaction.time < TX_RECEIVE_TIMEOUT
                                && bookkeeper && g.transaction.hash !in n.persisted && !outcome.Refused?
                             then t.executed + [(a, g)] else t.executed
  {
    RunInv(c, s, events, t);
    InvNode(c, t, a);
    Executes(c, t.issued, t.nodes[a], i, bookkeeper, outcome);
    hide DoWork, Inv, Sound, Initial, Run;
  }
}
