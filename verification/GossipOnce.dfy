/** How often a delegate issues a rumor about a transaction, and what the merge of two gossips keeps. */
module GossipOnce {
  import opened Gossips
  import opened GossipRuns
  import opened Wrappers

  // ---- merging ----

  predicate Verified(c: Setting, rumors: seq<Rumor>, a: Address) {
    exists i :: 0 <= i < |rumors| && rumors[i].address == a && c.verifyRumor(rumors[i])
  }

  /** A merge has the delegates of both, theirs as far as a rumor verifies; ours come first and unchanged. */
  lemma {:induction false} MergeIsUnion(c: Setting, ours: seq<Rumor>, theirs: seq<Rumor>)
    ensures ours <= Merge(c, ours, theirs)
    ensures forall a :: ContainsRumor(Merge(c, ours, theirs), a) <==> ContainsRumor(ours, a) || Verified(c, theirs, a)
    decreases |theirs|
  {
    if theirs != [] {
      var last := |theirs| - 1;
      MergeIsUnion(c, ours, theirs[..last]);
      var merged, r := Merge(c, ours, theirs[..last]), theirs[last];
      forall a
        ensures Verified(c, theirs, a) <==> Verified(c, theirs[..last], a) || (r.address == a && c.verifyRumor(r))
      {
        if Verified(c, theirs[..last], a) {
          var i :| 0 <= i < last && theirs[..last][i].address == a && c.verifyRumor(theirs[..last][i]);
          assert theirs[i].address == a && c.verifyRumor(theirs[i]);
        }
        if Verified(c, theirs, a) {
          var i :| 0 <= i <= last && theirs[i].address == a && c.verifyRumor(theirs[i]);
          assert i < last ==> theirs[..last][i].address == a && c.verifyRumor(theirs[..last][i]);
        }
      }
      forall a
        ensures ContainsRumor(merged + [r], a) <==> ContainsRumor(merged, a) || r.address == a
      {
        ContainsAdd(merged, r, a);
      }
    }
  }

  lemma ContainsAdd(rumors: seq<Rumor>, r: Rumor, a: Address)
    ensures ContainsRumor(rumors + [r], a) <==> ContainsRumor(rumors, a) || r.address == a
  {
    var all := rumors + [r];
    if ContainsRumor(rumors, a) {
      var i :| 0 <= i < |rumors| && rumors[i].address == a;
      assert all[i].address == a;
    }
    assert all[|rumors|] == r;
  }

  /** Among rumors of distinct delegates only the last decides whether a received gossip is gossiped about further. */
  lemma OnlyLastCounts(c: Setting, ours: seq<Rumor>, theirs: seq<Rumor>)
    requires Distinct(theirs) && theirs != []
    ensures HasAll(c, ours, theirs) <==> ContainsRumor(ours, theirs[|theirs| - 1].address)
  {
    var front, last := theirs[..|theirs| - 1], theirs[|theirs| - 1];
    MergeIsUnion(c, ours, front);
    assert forall i :: 0 <= i < |front| ==> front[i] == theirs[i] && theirs[i].address != last.address;
  }

  // ---- one rumor each ----

  /** What a delegate has cached has its own rumor, and what it has issued a rumor about is cached. */
  ghost predicate Own(issued: set<(Address, Rumor)>, a: Address, n: Delegate) {
    && Refs(n)
    && (forall h :: h in n.cache ==>
          h in n.transactions && n.heap[n.cache[h]].transaction.hash == h && ContainsRumor(n.heap[n.cache[h]].rumors, a))
    && (forall x :: x in issued && x.0 == a ==> x.1.transactionHash in n.cache)
    && (forall i :: 0 <= i < |n.chan| ==> n.heap[n.chan[i]].transaction.hash in n.cache)
    && (forall i :: 0 <= i < |n.queue| ==> n.heap[n.queue[i]].transaction.hash in n.cache)
  }

  /** No delegate has issued two rumors about a transaction. */
  ghost predicate OneEach(issued: set<(Address, Rumor)>) {
    forall x, y :: x in issued && y in issued && x.0 == y.0 && x.1.transactionHash == y.1.transactionHash ==> x == y
  }

  /** The worker puts the gossip it took back into the cache: there is no one left to send it to. */
  ghost predicate Recaches(c: Setting, n: Delegate, w: Chance)
    requires Refs(n) && n.chan != []
  {
    var rumors := n.heap[n.chan[0]].rumors;
    && w.choice.None? && !Enough(c, rumors) && |rumors| != |c.delegates|
    && (|rumors| > 1 ==> w.order != [] && ValidTimeDelta(w.order, w.now))
  }

  /** A gossip that is put back into the cache has the delegate's own rumor. */
  ghost predicate KeepsOwn(c: Setting, s: System, e: Event)
    requires Enabled(c, s, e)
  {
    match e
    case Worker(a, w) =>
      var n := s.nodes[a];
      Recaches(c, n, w) ==> ContainsRumor(n.heap[n.chan[0]].rumors, a)
    case Execute(a, i, bookkeeper, outcome) =>
      var n := s.nodes[a];
      DoWork(n, i, bookkeeper, outcome).executed ==> ContainsRumor(n.heap[n.queue[i]].rumors, a)
    case _ => true
  }

  /** A run all of whose steps keep own rumors cached. */
  ghost predicate KeepingRun(c: Setting, s: System, events: seq<Event>, t: System)
    decreases |events|
  {
    if events == [] then s == t
    else
      var last := |events| - 1;
      exists u ::
        KeepingRun(c, s, events[..last], u) && Enabled(c, u, events[last]) && KeepsOwn(c, u, events[last]) && t == Next(c, u, events[last])
  }

  lemma OwnGrow(issued: set<(Address, Rumor)>, a: Address, n: Delegate, g: Gossip)
    requires Own(issued, a, n)
    ensures Own(issued, a, n.(heap := n.heap + [g]))
  {
    hide ContainsRumor;
  }

  lemma OwnRumors(issued: set<(Address, Rumor)>, a: Address, n: Delegate, ref: nat, rumors: seq<Rumor>)
    requires Own(issued, a, n) && ref < |n.heap| && (ContainsRumor(n.heap[ref].rumors, a) ==> ContainsRumor(rumors, a))
    ensures Own(issued, a, AddRumors(n, ref, rumors))
  {
    hide ContainsRumor;
  }

  lemma OwnCache(issued: set<(Address, Rumor)>, a: Address, n: Delegate, ref: nat, r: Rumor)
    requires Own(issued, a, n) && ref < |n.heap| && ContainsRumor(n.heap[ref].rumors, a) && r.transactionHash == n.heap[ref].transaction.hash
    ensures Own(issued + {(a, r)}, a, CacheOnFirstReceive(n, ref))
  {
    hide ContainsRumor;
  }

  lemma OwnChan(issued: set<(Address, Rumor)>, a: Address, n: Delegate, ref: nat)
    requires Own(issued, a, n) && ref < |n.heap| && n.heap[ref].transaction.hash in n.cache
    ensures Own(issued, a, n.(chan := n.chan + [ref]))
  {
    hide ContainsRumor;
  }

  lemma OwnIs(issued: set<(Address, Rumor)>, a: Address, n: Delegate, h: Hash)
    requires Own(issued, a, n)
    ensures h in n.cache ==>
              n.cache[h] < |n.heap| && n.heap[n.cache[h]].transaction.hash == h && ContainsRumor(n.heap[n.cache[h]].rumors, a) && h in n.transactions
    ensures h !in n.cache ==> forall x :: x in issued && x.0 == a ==> x.1.transactionHash != h
  {
    hide ContainsRumor;
  }

  lemma OwnStart(c: Setting, issued: set<(Address, Rumor)>, a: Address, n: Delegate, tx: Transaction, time: int)
    requires Own(issued, a, n)
    ensures var (n', out, status) := Start(c, a, n, tx, time);
            if status.Pending? then
              && Own(issued + {(a, NewRumor(c, a, tx.hash, time))}, a, n')
              && forall x :: x in issued && x.0 == a ==> x.1.transactionHash != tx.hash
            else n' == n
  {
    StartIs(c, a, n, tx, time);
    hide Own, ContainsRumor, Start, CacheOnFirstReceive;
    if Start(c, a, n, tx, time).2.Pending? {
      var r := NewRumor(c, a, tx.hash, time);
      var g := Gossip(tx, [r]);
      Alone(r);
      OwnIs(issued, a, n, tx.hash);
      OwnGrow(issued, a, n, g);
      var n0 := n.(heap := n.heap + [g]);
      OwnCache(issued, a, n0, |n.heap|, r);
      OwnChan(issued + {(a, r)}, a, CacheOnFirstReceive(n0, |n.heap|), |n.heap|);
    }
  }

  lemma Alone(r: Rumor)
    ensures ContainsRumor([r], r.address)
  {
    assert [r][0].address == r.address;
  }

  lemma StartIs(c: Setting, a: Address, n: Delegate, tx: Transaction, time: int)
    ensures var (n', out, status) := Start(c, a, n, tx, time);
            var n0 := n.(heap := n.heap + [Gossip(tx, [NewRumor(c, a, tx.hash, time)])]);
            var n1 := CacheOnFirstReceive(n0, |n.heap|);
            && tx.hash in n1.cache && |n1.heap| == |n.heap| + 1 && n1.heap[|n.heap|].transaction == tx
            && (if status.Pending? then n' == n1.(chan := n1.chan + [|n.heap|]) && tx.hash !in n.transactions else n' == n)
  {
    hide Broadcast;
  }

  /** Receiving a gossip that the delegate has in its cache already. */
  lemma OwnKnown(c: Setting, issued: set<(Address, Rumor)>, a: Address, n: Delegate, g: Gossip, time: int)
    requires Own(issued, a, n) && g.transaction.hash in n.cache
    ensures var r := Receive(c, a, n, g, time); !r.told && Own(issued, a, r.state)
  {
    var h, ref := g.transaction.hash, |n.heap|;
    OwnIs(issued, a, n, h);
    MergeIsUnion(c, n.heap[n.cache[h]].rumors, g.rumors);
    OwnGrow(issued, a, n, g);
    var n0 := n.(heap := n.heap + [g]);
    var merged := Merge(c, n.heap[n.cache[h]].rumors, g.rumors);
    OwnRumors(issued, a, n0, n.cache[h], merged);
    OwnChan(issued, a, AddRumors(n0, n.cache[h], merged), ref);
    hide Own, ContainsRumor, Broadcast, Merge;
  }

  /** Receiving a gossip for the first time. */
  lemma OwnFirst(c: Setting, issued: set<(Address, Rumor)>, a: Address, n: Delegate, g: Gossip, time: int)
    requires Own(issued, a, n) && g.transaction.hash !in n.cache && !ContainsRumor(g.rumors, a)
    ensures var r := Receive(c, a, n, g, time);
            if r.told then Own(issued + {(a, NewRumor(c, a, g.transaction.hash, time))}, a, r.state) else Own(issued, a, r.state)
  {
    var h, ref := g.transaction.hash, |n.heap|;
    OwnGrow(issued, a, n, g);
    var n0 := n.(heap := n.heap + [g]);
    var own := NewRumor(c, a, h, time);
    ContainsAdd(g.rumors, own, a);
    OwnRumors(issued, a, n0, ref, g.rumors + [own]);
    var n2 := AddRumors(n0, ref, g.rumors + [own]);
    OwnCache(issued, a, n2, ref, own);
    OwnChan(issued + {(a, own)}, a, CacheOnFirstReceive(n2, ref), ref);
    hide Own, ContainsRumor, Broadcast, Merge;
  }

  lemma OwnReceive(c: Setting, issued: set<(Address, Rumor)>, a: Address, n: Delegate, g: Gossip, time: int)
    requires Own(issued, a, n) && GoodGossip(c, issued, g)
    ensures var r := Receive(c, a, n, g, time);
            if r.told then
              && Own(issued + {(a, NewRumor(c, a, g.transaction.hash, time))}, a, r.state)
              && forall x :: x in issued && x.0 == a ==> x.1.transactionHash != g.transaction.hash
            else Own(issued, a, r.state)
  {
    var h := g.transaction.hash;
    OwnIs(issued, a, n, h);
    if h in n.cache {
      OwnKnown(c, issued, a, n, g, time);
    } else {
      NotOurs(c, issued, a, g);
      OwnFirst(c, issued, a, n, g, time);
    }
    hide Receive, Own;
  }

  /** A gossip with a delegate's rumor shows that the delegate has issued it. */
  lemma NotOurs(c: Setting, issued: set<(Address, Rumor)>, a: Address, g: Gossip)
    requires GoodGossip(c, issued, g) && forall x :: x in issued && x.0 == a ==> x.1.transactionHash != g.transaction.hash
    ensures !ContainsRumor(g.rumors, a)
  {
    forall i | 0 <= i < |g.rumors|
      ensures g.rumors[i].address != a
    {
      assert g.rumors[i] in g.rumors;
      assert (g.rumors[i].address, g.rumors[i]) in issued;
    }
  }

  lemma OwnWork(c: Setting, issued: set<(Address, Rumor)>, a: Address, n: Delegate, w: Chance)
    requires Own(issued, a, n) && n.chan != [] && Possible(c, a, n, w)
    requires Recaches(c, n, w) ==> ContainsRumor(n.heap[n.chan[0]].rumors, a)
    ensures Own(issued, a, Work(c, a, n, w).0)
  {
    var ref := n.chan[0];
    var n1 := Taken(n, w);
    WorkIs(c, a, n, w);
    OwnTake(issued, a, n);
    SameContained(n.heap[ref].rumors, w.order, a);
    OwnRumors(issued, a, n.(chan := n.chan[1..]), ref, w.order);
    hide Own, ContainsRumor, Possible, Work, Recaches;
    OwnMove(issued, a, n1, ref);
  }

  /** The state with the first gossip of the channel taken, and its rumors sorted. */
  ghost function Taken(n: Delegate, w: Chance): Delegate
    requires Refs(n) && n.chan != []
  {
    var n0 := n.(chan := n.chan[1..]);
    if |n.heap[n.chan[0]].rumors| > 1 then AddRumors(n0, n.chan[0], w.order) else n0
  }

  lemma WorkIs(c: Setting, a: Address, n: Delegate, w: Chance)
    requires Refs(n) && n.chan != [] && Possible(c, a, n, w)
    ensures var n', n1, ref := Work(c, a, n, w).0, Taken(n, w), n.chan[0];
            var h := n1.heap[ref].transaction.hash;
            || n' == n1
            || n' == n1.(queue := n1.queue + [ref], queued := n1.queued + {h})
            || (Recaches(c, n, w) && n' == n1.(cache := n1.cache[h := ref]))
            || n' == n1.(chan := n1.chan + [ref])
  {
    SameContained(n.heap[n.chan[0]].rumors, w.order, a);
  }

  lemma OwnTake(issued: set<(Address, Rumor)>, a: Address, n: Delegate)
    requires Own(issued, a, n) && n.chan != []
    ensures n.chan[0] < |n.heap| && n.heap[n.chan[0]].transaction.hash in n.cache && Own(issued, a, n.(chan := n.chan[1..]))
  {
    hide ContainsRumor;
  }

  /** What the worker may do with a gossip. */
  lemma OwnMove(issued: set<(Address, Rumor)>, a: Address, n: Delegate, ref: nat)
    requires Own(issued, a, n) && ref < |n.heap| && n.heap[ref].transaction.hash in n.cache
    ensures var h := n.heap[ref].transaction.hash;
            && Own(issued, a, n.(queue := n.queue + [ref], queued := n.queued + {h}))
            && (ContainsRumor(n.heap[ref].rumors, a) ==> Own(issued, a, n.(cache := n.cache[h := ref])))
            && Own(issued, a, n.(chan := n.chan + [ref]))
  {
    hide ContainsRumor;
  }

  lemma SameContained(rumors: seq<Rumor>, order: seq<Rumor>, a: Address)
    requires multiset(order) == multiset(rumors)
    ensures ContainsRumor(order, a) <==> ContainsRumor(rumors, a)
    ensures |order| == |rumors|
  {
    assert |multiset(order)| == |order| && |multiset(rumors)| == |rumors|;
    if ContainsRumor(order, a) {
      var i :| 0 <= i < |order| && order[i].address == a;
      assert order[i] in multiset(rumors);
    }
    if ContainsRumor(rumors, a) {
      var i :| 0 <= i < |rumors| && rumors[i].address == a;
      assert rumors[i] in multiset(order);
    }
  }

  lemma OwnDoWork(c: Setting, issued: set<(Address, Rumor)>, a: Address, n: Delegate, i: nat, bookkeeper: bool, outcome: Outcome)
    requires Own(issued, a, n) && i < |n.queue|
    requires DoWork(n, i, bookkeeper, outcome).executed ==> ContainsRumor(n.heap[n.queue[i]].rumors, a)
    ensures Own(issued, a, DoWork(n, i, bookkeeper, outcome).state)
  {
    hide ContainsRumor;
  }

  ghost predicate OwnAll(s: System) {
    OneEach(s.issued) && forall a :: a in s.nodes ==> Own(s.issued, a, s.nodes[a])
  }

  /** A delegate's step with no rumor of its own. */
  lemma QuietStep(s: System, a: Address, n: Delegate, network: multiset<Message>, executed: seq<(Address, Gossip)>)
    requires OwnAll(s) && a in s.nodes && Own(s.issued, a, n)
    ensures OwnAll(s.(nodes := s.nodes[a := n], network := network, executed := executed))
  {
    hide Own;
  }

  /** A delegate's step that issues its only rumor about a transaction. */
  lemma TellingStep(s: System, a: Address, n: Delegate, network: multiset<Message>, r: Rumor)
    requires OwnAll(s) && a in s.nodes && Own(s.issued + {(a, r)}, a, n)
    requires forall x :: x in s.issued && x.0 == a ==> x.1.transactionHash != r.transactionHash
    ensures OwnAll(s.(nodes := s.nodes[a := n], network := network, issued := s.issued + {(a, r)}))
  {
    forall b | b in s.nodes && b != a
      ensures Own(s.issued + {(a, r)}, b, s.nodes[b])
    {
      OthersRumor(s.issued, b, s.nodes[b], a, r);
    }
    hide Own;
  }

  lemma OthersRumor(issued: set<(Address, Rumor)>, b: Address, n: Delegate, a: Address, r: Rumor)
    requires Own(issued, b, n) && a != b
    ensures Own(issued + {(a, r)}, b, n)
  {
    hide ContainsRumor;
  }

  lemma KeepingNext(c: Setting, s: System, e: Event)
    requires Inv(c, s) && OwnAll(s) && Enabled(c, s, e) && KeepsOwn(c, s, e)
    ensures OwnAll(Next(c, s, e))
  {
    match e
    case Begin(a, tx, time) => KeepingBegin(c, s, a, tx, time);
    case Arrive(m, time) => KeepingArrive(c, s, m, time);
    case Lose(m) => hide Own;
    case Worker(a, w) =>
      OwnWork(c, s.issued, a, s.nodes[a], w);
      hide Own, Work, Possible, Recaches;
      var (n, out) := Work(c, a, s.nodes[a], w);
      QuietStep(s, a, n, s.network + multiset(out), s.executed);
    case Execute(a, i, bookkeeper, outcome) =>
      OwnDoWork(c, s.issued, a, s.nodes[a], i, bookkeeper, outcome);
      hide Own, DoWork;
      QuietStep(s, a, DoWork(s.nodes[a], i, bookkeeper, outcome).state, s.network, Next(c, s, e).executed);
  }

  lemma KeepingBegin(c: Setting, s: System, a: Address, tx: Transaction, time: int)
    requires OwnAll(s) && a in s.nodes
    ensures OwnAll(Next(c, s, Begin(a, tx, time)))
  {
    OwnStart(c, s.issued, a, s.nodes[a], tx, time);
    hide Own, Start;
    var (n, out, status) := Start(c, a, s.nodes[a], tx, time);
    if status.Pending? {
      TellingStep(s, a, n, s.network + multiset(out), NewRumor(c, a, tx.hash, time));
    } else {
      QuietStep(s, a, n, s.network + multiset(out), s.executed);
    }
  }

  lemma KeepingArrive(c: Setting, s: System, m: Message, time: int)
    requires Inv(c, s) && OwnAll(s) && Enabled(c, s, Arrive(m, time))
    ensures OwnAll(Next(c, s, Arrive(m, time)))
  {
    var t := Next(c, s, Arrive(m, time));
    if m.Request? {
      assert SoundMessage(c, s.issued, m);
      OwnReceive(c, s.issued, m.to, s.nodes[m.to], m.gossip, time);
      hide Own, Receive, Inv, Good;
      var r := Receive(c, m.to, s.nodes[m.to], m.gossip, time);
      if r.told {
        TellingStep(s, m.to, r.state, t.network, NewRumor(c, m.to, m.gossip.transaction.hash, time));
      } else {
        QuietStep(s, m.to, r.state, t.network, s.executed);
      }
    } else {
      var n := CacheSent(s.nodes[m.to], m.hash, m.from);
      assert Own(s.issued, m.to, n);
      hide Own, Inv;
      QuietStep(s, m.to, n, t.network, s.executed);
    }
  }

  lemma {:induction false} KeepingIsRun(c: Setting, s: System, events: seq<Event>, t: System)
    requires KeepingRun(c, s, events, t)
    ensures Run(c, s, events, t)
    decreases |events|
  {
    if events != [] {
      var last := |events| - 1;
      var u :| KeepingRun(c, s, events[..last], u) && Enabled(c, u, events[last]) && KeepsOwn(c, u, events[last]) && t == Next(c, u, events[last]);
      KeepingIsRun(c, s, events[..last], u);
    }
  }

  /** If own rumors are kept in the cache, no delegate ever issues two rumors about a transaction. */
  lemma {:induction false} OneRumorEach(c: Setting, s: System, events: seq<Event>, t: System)
    requires Initial(c, s) && KeepingRun(c, s, events, t)
    ensures OwnAll(t)
    decreases |events|
  {
    if events != [] {
      var last := |events| - 1;
      var u :| KeepingRun(c, s, events[..last], u) && Enabled(c, u, events[last]) && KeepsOwn(c, u, events[last]) && t == Next(c, u, events[last]);
      OneRumorEach(c, s, events[..last], u);
      KeepingIsRun(c, s, events[..last], u);
      RunInv(c, s, events[..last], u);
      KeepingNext(c, u, events[last]);
    }
  }

  // ---- and if they are not kept ----

  /** One step keeps own rumors cached, and issues no second one, if and only if what it puts back has the own rumor. */
  lemma KeepingExact(c: Setting, s: System, e: Event)
    requires Inv(c, s) && OwnAll(s) && Enabled(c, s, e)
    ensures OwnAll(Next(c, s, e)) <==> KeepsOwn(c, s, e)
  {
    if KeepsOwn(c, s, e) {
      KeepingNext(c, s, e);
    } else if e.Worker? {
      ForgetsWork(c, s.issued, e.a, s.nodes[e.a], e.w);
      hide Own, Work, Possible, Recaches, ContainsRumor;
      assert Next(c, s, e).nodes[e.a] == Work(c, e.a, s.nodes[e.a], e.w).0;
    } else {
      ForgetsDoWork(s.issued, e.a, s.nodes[e.a], e.i, e.bookkeeper, e.outcome);
      hide Own, DoWork, ContainsRumor;
      assert Next(c, s, e).nodes[e.a] == DoWork(s.nodes[e.a], e.i, e.bookkeeper, e.outcome).state;
    }
  }

  /** A cached gossip without the own rumor. */
  lemma Forgotten(issued: set<(Address, Rumor)>, a: Address, n: Delegate, h: Hash)
    requires h in n.cache && n.cache[h] < |n.heap| && !ContainsRumor(n.heap[n.cache[h]].rumors, a)
    ensures !Own(issued, a, n)
  {
    hide ContainsRumor;
  }

  lemma ForgetsWork(c: Setting, issued: set<(Address, Rumor)>, a: Address, n: Delegate, w: Chance)
    requires Refs(n) && n.chan != [] && Possible(c, a, n, w) && Recaches(c, n, w) && !ContainsRumor(n.heap[n.chan[0]].rumors, a)
    ensures var n' := Work(c, a, n, w).0; var h := n.heap[n.chan[0]].transaction.hash;
            && h in n'.cache && n'.cache[h] < |n'.heap| && !ContainsRumor(n'.heap[n'.cache[h]].rumors, a)
            && n'.heap[n'.cache[h]].transaction.hash == h && n'.transactions == n.transactions
    ensures !Own(issued, a, Work(c, a, n, w).0)
  {
    SameContained(n.heap[n.chan[0]].rumors, w.order, a);
    Forgotten(issued, a, Work(c, a, n, w).0, n.heap[n.chan[0]].transaction.hash);
    hide ContainsRumor, Own, ValidTimeDelta;
  }

  lemma ForgetsDoWork(issued: set<(Address, Rumor)>, a: Address, n: Delegate, i: nat, bookkeeper: bool, outcome: Outcome)
    requires Refs(n) && i < |n.queue| && DoWork(n, i, bookkeeper, outcome).executed && !ContainsRumor(n.heap[n.queue[i]].rumors, a)
    ensures !Own(issued, a, DoWork(n, i, bookkeeper, outcome).state)
  {
    Forgotten(issued, a, DoWork(n, i, bookkeeper, outcome).state, n.heap[n.queue[i]].transaction.hash);
    hide ContainsRumor, Own;
  }

  /** A gossip is answered with another rumor if neither it nor the cached one has the own rumor. */
  lemma ToldAgain(c: Setting, self: Address, n: Delegate, g: Gossip, time: int)
    requires Refs(n) && g.transaction.hash in n.cache && !ContainsRumor(n.heap[n.cache[g.transaction.hash]].rumors, self)
    requires c.verifyTransaction(g.transaction) && !ContainsRumor(g.rumors, self)
    ensures Receive(c, self, n, g, time).told
  {
    var ours := n.heap[n.cache[g.transaction.hash]].rumors;
    MergeIsUnion(c, ours, g.rumors);
    NotVerified(c, g.rumors, self);
    hide Merge, HasAll, CacheOnFirstReceive, ContainsRumor, Verified;
  }

  lemma NotVerified(c: Setting, rumors: seq<Rumor>, a: Address)
    requires !ContainsRumor(rumors, a)
    ensures !Verified(c, rumors, a)
  {
  }

  // ---- a run with two rumors of one delegate ----

  ghost predicate Looks(n: Delegate, heap: seq<Gossip>, cache: map<Hash, nat>, chan: seq<nat>) {
    n.heap == heap && n.cache == cache && n.chan == chan && n.queue == [] && n.sent == map[]
  }

  /** Where a run of three delegates starts, with a transaction none of them has seen. */
  ghost predicate Unheard(c: Setting, s: System, tx: Transaction) {
    && Initial(c, s) && s.nodes.Keys == {"a", "b", "c"} && forall a :: a in s.nodes ==> tx.hash !in s.nodes[a].persisted
  }

  lemma {:induction false} BroadcastHas(c: Setting, self: Address, n: Delegate, g: Gossip, i: nat, k: nat)
    requires i <= k < |c.delegates| && c.delegates[k] != self && !HaveSent(n, g.transaction.hash, c.delegates[k])
    ensures Request(c.delegates[k], self, g) in Broadcast(c, self, n, g, i)
    decreases k - i
  {
    if i < k {
      BroadcastHas(c, self, n, g, i + 1, k);
    }
  }

  lemma MergeOne(c: Setting, ours: seq<Rumor>, r: Rumor)
    requires c.verifyRumor(r) && !ContainsRumor(ours, r.address)
    ensures Merge(c, ours, [r]) == ours + [r] && !HasAll(c, ours, [r])
  {
    assert [r][..0] == [];
  }

  /** A transaction handed in starts a gossip, which goes to "b". */
  lemma Started(c: Setting, self: Address, n: Delegate, tx: Transaction, time: int)
    requires Looks(n, [], map[], []) && n.transactions == {} && tx.hash !in n.persisted && c.verifyTransaction(tx)
    requires c.delegates == ["a", "b", "c"] && self != "b" && time - tx.time <= TX_RECEIVE_TIMEOUT
    ensures var (n', out, status) := Start(c, self, n, tx, time); var g := Gossip(tx, [NewRumor(c, self, tx.hash, time)]);
            && status.Pending? && Looks(n', [g], map[tx.hash := 0], [0]) && Request("b", self, g) in out
  {
    var g := Gossip(tx, [NewRumor(c, self, tx.hash, time)]);
    BroadcastHas(c, self, CacheOnFirstReceive(n.(heap := n.heap + [g]), 0), g, 0, 1);
    hide Broadcast;
  }

  /** The first gossip about a transaction is answered with a rumor. */
  lemma FirstReceived(c: Setting, self: Address, n: Delegate, tx: Transaction, r: Rumor, time: int)
    requires Looks(n, [], map[], []) && c.verifyTransaction(tx) && r.address != self
    ensures Refs(n)
    ensures var s := Receive(c, self, n, Gossip(tx, [r]), time);
            s.told && Looks(s.state, [Gossip(tx, [r, NewRumor(c, self, tx.hash, time)])], map[tx.hash := 0], [0])
  {
    var s := Receive(c, self, n, Gossip(tx, [r]), time);
    assert forall i :: 0 <= i < |[r]| ==> [r][i] == r;
    assert !ContainsRumor([r], self);
    assert [r] + [NewRumor(c, self, tx.hash, time)] == [r, NewRumor(c, self, tx.hash, time)];
    assert s.state.heap[0] == Gossip(tx, [r, NewRumor(c, self, tx.hash, time)]);
    hide Broadcast, ContainsRumor;
  }

  /** A gossip with one new rumor is merged, and put in the channel as it came. */
  lemma NextReceived(c: Setting, self: Address, n: Delegate, tx: Transaction, ours: seq<Rumor>, r: Rumor, time: int)
    requires Looks(n, [Gossip(tx, ours)], map[tx.hash := 0], [0]) && c.verifyRumor(r)
    requires !ContainsRumor(ours, r.address) && ContainsRumor(ours, self)
    ensures Refs(n)
    ensures var s := Receive(c, self, n, Gossip(tx, [r]), time);
            !s.told && Looks(s.state, [Gossip(tx, ours + [r]), Gossip(tx, [r])], map[tx.hash := 0], [0, 1])
  {
    MergeOne(c, ours, r);
    ContainsAdd(ours, r, self);
    hide ContainsRumor, Merge, HasAll;
  }

  /** The worker sends a gossip of one rumor on to "b". */
  lemma SentOn(c: Setting, self: Address, n: Delegate, g: Gossip)
    requires Looks(n, [g], map[g.transaction.hash := 0], [0]) && |g.rumors| == 1 && c.delegates == ["a", "b", "c"] && self != "b"
    ensures var w := Chance(g.rumors, 0, Some("b"), false);
            Refs(n) && n.chan != [] && Possible(c, self, n, w) && Work(c, self, n, w).1 == [Request("b", self, g)]
  {
  }

  /** The worker queues a gossip with three rumors of three. */
  lemma Queued(c: Setting, self: Address, n: Delegate, tx: Transaction, all: seq<Rumor>, r: Rumor)
    requires Looks(n, [Gossip(tx, all), Gossip(tx, [r])], map[tx.hash := 0], [0, 1]) && |c.delegates| == 3
    requires |all| == 3 && SortedByTime(all) && ValidTimeDelta(all, 3)
    ensures var w := Chance(all, 3, None, false);
            && Refs(n) && n.chan != [] && Possible(c, self, n, w)
            && var n' := Work(c, self, n, w).0; n'.heap == n.heap && n'.cache == n.cache && n'.chan == [1] && Refs(n')
  {
  }

  /** The worker puts a gossip of one rumor back into the cache. */
  lemma PutBack(c: Setting, self: Address, n: Delegate, tx: Transaction, all: seq<Rumor>, r: Rumor)
    requires Refs(n) && n.heap == [Gossip(tx, all), Gossip(tx, [r])] && n.cache == map[tx.hash := 0] && n.chan == [1] && |c.delegates| == 3
    ensures var w := Chance([r], 4, None, false);
            && Possible(c, self, n, w)
            && var n' := Work(c, self, n, w).0;
               Refs(n') && tx.hash in n'.cache && n'.heap[n'.cache[tx.hash]] == Gossip(tx, [r])
  {
  }
}
