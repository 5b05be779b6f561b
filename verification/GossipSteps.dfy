/** What a delegate does with a transaction handed in and with a gossip received, message by message. */
module GossipSteps {
  import opened Gossips

  /** A broadcast goes to exactly the other delegates that have not been sent the gossip. */
  lemma {:induction false} BroadcastExact(c: Setting, self: Address, n: Delegate, g: Gossip, i: nat, m: Message)
    requires i <= |c.delegates|
    ensures m in Broadcast(c, self, n, g, i) <==>
              exists k :: i <= k < |c.delegates| && c.delegates[k] != self && !HaveSent(n, g.transaction.hash, c.delegates[k])
                          && m == Request(c.delegates[k], self, g)
    decreases |c.delegates| - i
  {
    if i < |c.delegates| {
      BroadcastExact(c, self, n, g, i + 1, m);
    }
  }

  ghost predicate ToOthers(c: Setting, self: Address, n: Delegate, g: Gossip, m: Message) {
    m.Request? && m.from == self && m.gossip == g && m.to in c.delegates && m.to != self && !HaveSent(n, g.transaction.hash, m.to)
  }

  lemma BroadcastToOthers(c: Setting, self: Address, n: Delegate, g: Gossip, m: Message)
    ensures m in Broadcast(c, self, n, g, 0) <==> ToOthers(c, self, n, g, m)
  {
    BroadcastExact(c, self, n, g, 0, m);
    hide Broadcast, HaveSent;
  }

  /**
    A transaction handed in is refused, and nothing changes, if it is invalid, late, done or known, in this order. Else its
    gossip, with the own rumor, is cached, waits for the worker, and goes to all others.
   */
  lemma StartExact(c: Setting, self: Address, n: Delegate, tx: Transaction, time: int, m: Message)
    ensures var (n', out, status) := Start(c, self, n, tx, time);
            var g := Gossip(tx, [NewRumor(c, self, tx.hash, time)]);
            && (status == InvalidTransaction <==> !c.verifyTransaction(tx))
            && (status == TransactionTimeOut <==> c.verifyTransaction(tx) && time > tx.time + 3000)
            && (status == DuplicateTransaction <==> c.verifyTransaction(tx) && time <= tx.time + 3000 && tx.hash in n.persisted)
            && (status == AlreadyProcessing <==>
                  c.verifyTransaction(tx) && time <= tx.time + 3000 && tx.hash !in n.persisted && tx.hash in n.transactions)
            && (status != Pending ==> n' == n && out == [])
            && (status == Pending ==>
                  && n'.heap == n.heap + [g] && n'.chan == n.chan + [|n.heap|] && n'.cache == n.cache[tx.hash := |n.heap|]
                  && n'.transactions == n.transactions + {tx.hash} && n'.receipts == n.receipts + {tx.hash}
                  && n'.queue == n.queue && n'.queued == n.queued && n'.persisted == n.persisted && n'.sent == n.sent
                  && (m in out <==> ToOthers(c, self, n, g, m)))
  {
    var g := Gossip(tx, [NewRumor(c, self, tx.hash, time)]);
    var n1 := CacheOnFirstReceive(n.(heap := n.heap + [g]), |n.heap|);
    BroadcastToOthers(c, self, n1, g, m);
    hide Broadcast, NewRumor;
  }

  /**
    A gossip received is merged with the cached one, if there is one. Unless there is an own rumor among them, one is issued if the
    transaction is valid, and the result is cached and goes to all others; if it is not valid, the gossip is refused. What was
    received waits for the worker unless it is refused or its last rumor is known.
   */
  lemma ReceiveExact(c: Setting, self: Address, n: Delegate, g: Gossip, time: int)
    requires Refs(n) && (g.transaction.hash in n.cache ==> n.heap[n.cache[g.transaction.hash]].transaction.hash == g.transaction.hash)
    ensures var r := Receive(c, self, n, g, time); var h := g.transaction.hash; var known := h in n.cache;
            var merged := if known then Merge(c, n.heap[n.cache[h]].rumors, g.rumors) else g.rumors;
            var own := exists i :: 0 <= i < |merged| && merged[i].address == self;
            && r.ref == (if known then n.cache[h] else |n.heap|) && r.ref < |r.state.heap| == |n.heap| + 1
            && (r.told <==> !own && c.verifyTransaction(g.transaction))
            && (r.failed <==> !own && !c.verifyTransaction(g.transaction))
            && r.state.heap[r.ref].rumors == (if r.told then merged + [NewRumor(c, self, h, time)] else merged)
            && r.state.cache == (if r.told then n.cache[h := r.ref] else n.cache)
            && r.state.chan == (if !r.failed && !(known && HasAll(c, n.heap[n.cache[h]].rumors, g.rumors)) then n.chan + [|n.heap|] else n.chan)
            && (!r.told ==> r.out == [])
            && (forall i :: 0 <= i < |n.heap| && i != r.ref ==> r.state.heap[i] == n.heap[i])
            && r.state.persisted == n.persisted && r.state.queue == n.queue && r.state.sent == n.sent
  {
    hide Broadcast, NewRumor, Merge, HasAll;
  }

  /** The merged gossip with the own rumor goes to exactly the others that have not been sent it. */
  lemma ReceiveSends(c: Setting, self: Address, n: Delegate, g: Gossip, time: int, m: Message)
    requires Refs(n) && Receive(c, self, n, g, time).told
    ensures var r := Receive(c, self, n, g, time);
            r.ref < |r.state.heap| && (m in r.out <==> ToOthers(c, self, n, r.state.heap[r.ref], m))
  {
    var s := Synchronize(c, self, n.(heap := n.heap + [g]), |n.heap|, time);
    BroadcastToOthers(c, self, s.state, s.state.heap[s.ref], m);
    hide Broadcast, NewRumor, Merge, HasAll;
  }
}
