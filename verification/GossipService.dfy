/** The service of one delegate, step by step, as the gossip steps specify it. */
module GossipService {
  import opened Gossips
  import opened Wrappers

  /** Whether a gossip has a rumor of a delegate. */
  method containsRumor(rumors: seq<Rumor>, address: Address) returns (r: bool)
    ensures r == ContainsRumor(rumors, address)
  {
    for i := 0 to |rumors|
      invariant forall j :: 0 <= j < i ==> rumors[j].address != address
    {
      if rumors[i].address == address {
        return true;
      }
    }
    return false;
  }

  /** Adds the rumors that are new and verify; `hasAll` is set anew for every rumor. */
  method mergeRumors(c: Setting, ours: seq<Rumor>, theirs: seq<Rumor>) returns (rumors: seq<Rumor>, hasAll: bool)
    ensures rumors == Merge(c, ours, theirs) && hasAll == HasAll(c, ours, theirs)
  {
    rumors, hasAll := ours, false;
    for i := 0 to |theirs|
      invariant rumors == Merge(c, ours, theirs[..i]) && hasAll == HasAll(c, ours, theirs[..i])
    {
      assert theirs[..i + 1][..i] == theirs[..i];
      hasAll := true;
      var known := containsRumor(rumors, theirs[i].address);
      if !known {
        hasAll := false;
      }
      if !known && c.verifyRumor(theirs[i]) {
        rumors := rumors + [theirs[i]];
      }
    }
    assert theirs[..|theirs|] == theirs;
  }

  /** Whether rumors sorted by time follow each other, and the clock, closely enough. */
  method validateTimeDelta(sorted: seq<Rumor>, now: int) returns (result: bool)
    requires sorted != []
    ensures result == ValidTimeDelta(sorted, now)
  {
    result := true;
    if now - sorted[|sorted| - 1].time > GOSSIP_TIMEOUT {
      result := false;
    }
    for i := 1 to |sorted|
      invariant result == (now - sorted[|sorted| - 1].time <= GOSSIP_TIMEOUT
                           && forall j :: 1 <= j < i ==> sorted[j].time - sorted[j - 1].time <= GOSSIP_TIMEOUT)
    {
      if sorted[i].time - sorted[i - 1].time > GOSSIP_TIMEOUT {
        result := false;
      }
    }
  }

  class DAPoSService {
    const c: Setting
    const address: Address
    var heap: seq<Gossip>
    var cache: map<Hash, nat>
    var transactions: set<Hash>
    var receipts: set<Hash>
    var sent: map<Hash, seq<Address>>
    var gossipChan: seq<nat>
    var gossipQueue: seq<nat>
    var existsMap: set<Hash>
    var persisted: set<Hash>
    /** The messages sent. */
    var outbox: seq<Message>

    ghost function State(): Delegate
      reads this
    {
      Delegate(heap, cache, transactions, receipts, sent, gossipChan, gossipQueue, existsMap, persisted)
    }

    constructor (c: Setting, address: Address)
      ensures this.c == c && this.address == address && outbox == []
      ensures State() == Delegate([], map[], {}, {}, map[], [], [], {}, {})
    {
      this.c, this.address, heap, cache, transactions, receipts := c, address, [], map[], {}, {};
      sent, gossipChan, gossipQueue, existsMap, persisted, outbox := map[], [], [], {}, {}, [];
    }

    method haveSent(hash: Hash, to: Address) returns (r: bool)
      ensures r == HaveSent(State(), hash, to)
    {
      if hash !in sent {
        return false;
      }
      for i := 0 to |sent[hash]|
        invariant to !in sent[hash][..i]
      {
        if sent[hash][i] == to {
          return true;
        }
      }
      assert sent[hash][..|sent[hash]|] == sent[hash];
      return false;
    }

    /** Caches a gossip with the own rumor, and sends it to every other delegate. */
    method cacheOnFirstReceive(ref: nat)
      requires ref < |heap|
      modifies this
      ensures State() == CacheOnFirstReceive(old(State()), ref)
      ensures outbox == old(outbox) + Broadcast(c, address, CacheOnFirstReceive(old(State()), ref), old(heap[ref]), 0)
    {
      var gossip := heap[ref];
      receipts := receipts + {gossip.transaction.hash};
      cache := cache[gossip.transaction.hash := ref];
      transactions := transactions + {gossip.transaction.hash};
      ghost var n := State();
      for i := 0 to |c.delegates|
        invariant State() == n
        invariant outbox + Broadcast(c, address, n, gossip, i) == old(outbox) + Broadcast(c, address, n, gossip, 0)
      {
        var node := c.delegates[i];
        var already := haveSent(gossip.transaction.hash, node);
        if !already && node != address {
          outbox := outbox + [Request(node, address, gossip)];
        }
      }
    }

    /** A client hands in a transaction. */
    method startGossiping(transaction: Transaction, now: int) returns (status: Status)
      modifies this
      ensures (State(), outbox, status)
                == var r := Start(c, address, old(State()), transaction, now); (r.0, old(outbox) + r.1, r.2)
    {
      assert outbox + [] == outbox;
      if !c.verifyTransaction(transaction) {
        return InvalidTransaction;
      }
      if now - transaction.time > TX_RECEIVE_TIMEOUT {
        return TransactionTimeOut;
      }
      if transaction.hash in persisted {
        return DuplicateTransaction;
      }
      if transaction.hash in transactions {
        return AlreadyProcessing;
      }
      var gossip := Gossip(transaction, [NewRumor(c, address, transaction.hash, now)]);
      var ref := |heap|;
      heap := heap + [gossip];
      cacheOnFirstReceive(ref);
      gossipChan := gossipChan + [ref];
      return Pending;
    }

    /** Merges a received gossip with the cached one, and issues an own rumor if there is none yet. */
    method synchronizeGossip(ref: nat, now: int) returns (sync: nat, failed: bool, more: bool)
      requires ref < |heap| && forall h :: h in cache ==> cache[h] < |heap|
      modifies this
      ensures var r := Synchronize(c, address, old(State()), ref, now);
              State() == r.state && outbox == old(outbox) + r.out && sync == r.ref && failed == r.failed && more == r.more
    {
      var gossip := heap[ref];
      var hasAll := false;
      sync := ref;
      if gossip.transaction.hash in cache {
        sync := cache[gossip.transaction.hash];
        var rumors;
        rumors, hasAll := mergeRumors(c, heap[sync].rumors, gossip.rumors);
        heap := heap[sync := heap[sync].(rumors := rumors)];
      }
      var didRumor := containsRumor(heap[sync].rumors, address);
      if !didRumor {
        if c.verifyTransaction(gossip.transaction) {
          var rumor := NewRumor(c, address, gossip.transaction.hash, now);
          heap := heap[sync := heap[sync].(rumors := heap[sync].rumors + [rumor])];
        } else {
          return sync, true, true;
        }
        cacheOnFirstReceive(sync);
      }
      return sync, false, !hasAll;
    }

    /** A gossip arrives from another delegate; the answer goes back unless the transaction is invalid. */
    method GossipGrpc(gossip: Gossip, now: int) returns (answered: bool)
      requires Refs(State())
      modifies this
      ensures var r := Receive(c, address, old(State()), gossip, now);
              State() == r.state && outbox == old(outbox) + r.out && answered == !r.failed
    {
      var ref := |heap|;
      heap := heap + [gossip];
      var sync, failed, addToChan := synchronizeGossip(ref, now);
      if failed {
        return false;
      }
      if addToChan {
        gossipChan := gossipChan + [ref];
      }
      return true;
    }

    /** A delegate, chosen by `index`, of those available that have not been sent the gossip. */
    method getRandomDelegate(gossip: Gossip, available: set<Address>, index: nat) returns (node: Option<Address>)
      ensures node.Some? ==> node.value in c.delegates && node.value in available && node.value != address
      ensures node.Some? ==> !HaveSent(State(), gossip.transaction.hash, node.value)
      ensures node.None? ==>
                forall d :: d in c.delegates && d in available && d != address ==> HaveSent(State(), gossip.transaction.hash, d)
    {
      var delegatesNotRumored: seq<Address> := [];
      for i := 0 to |c.delegates|
        invariant forall d :: d in delegatesNotRumored <==>
                                d in c.delegates[..i] && d in available && d != address && !HaveSent(State(), gossip.transaction.hash, d)
      {
        var node := c.delegates[i];
        var already := haveSent(gossip.transaction.hash, node);
        if node == address || already || node !in available {
          continue;
        }
        delegatesNotRumored := delegatesNotRumored + [node];
      }
      assert c.delegates[..|c.delegates|] == c.delegates;
      if |delegatesNotRumored| == 0 {
        return None;
      }
      return Some(delegatesNotRumored[index % |delegatesNotRumored|]);
    }

    /** The worker takes one gossip from the channel. */
    method gossipWorker(w: Chance)
      requires Refs(State()) && gossipChan != [] && Possible(c, address, State(), w)
      modifies this
      ensures var r := Work(c, address, old(State()), w); State() == r.0 && outbox == old(outbox) + r.1
    {
      var ref := gossipChan[0];
      gossipChan := gossipChan[1..];
      if |heap[ref].rumors| > 1 {
        SameLength(heap[ref].rumors, w.order);
        heap := heap[ref := heap[ref].(rumors := w.order)];
        var valid := validateTimeDelta(heap[ref].rumors, w.now);
        if !valid {
          return;
        }
      }
      var gossip := heap[ref];
      if 3 * |gossip.rumors| >= 2 * |c.delegates| {
        if gossip.transaction.hash !in existsMap {
          gossipQueue := gossipQueue + [ref];
          existsMap := existsMap + {gossip.transaction.hash};
        }
        return;
      }
      if |gossip.rumors| == |c.delegates| {
        return;
      }
      if w.choice.None? {
        cache := cache[gossip.transaction.hash := ref];
        return;
      }
      outbox := outbox + [Request(w.choice.value, address, gossip)];
      if w.fails {
        gossipChan := gossipChan + [ref];
      }
    }

    lemma SameLength(a: seq<Rumor>, b: seq<Rumor>)
      requires multiset(a) == multiset(b)
      ensures |a| == |b|
    {
      assert |multiset(a)| == |a| && |multiset(b)| == |b|;
    }

    /** Takes a gossip from the queue, and executes its transaction. */
    method doWork(i: nat, bookkeeper: bool, outcome: Outcome) returns (executed: bool)
      requires Refs(State()) && i < |gossipQueue| && heap[gossipQueue[i]].rumors != []
      modifies this
      ensures var d := DoWork(old(State()), i, bookkeeper, outcome);
              State() == d.state && executed == d.executed && !d.panicked
      ensures outbox == old(outbox)
    {
      var ref := gossipQueue[i];
      var gossip := heap[ref];
      gossipQueue := gossipQueue[..i] + gossipQueue[i + 1..];
      existsMap := existsMap - {gossip.transaction.hash};
      if gossip.transaction.hash !in receipts {
        receipts := receipts + {gossip.transaction.hash};
        return false;
      }
      var initialRcvDuration := gossip.rumors[0].time - gossip.transaction.time;
      if initialRcvDuration >= TX_RECEIVE_TIMEOUT {
        return false;
      }
      if !bookkeeper || gossip.transaction.hash in persisted || outcome.Refused? {
        return false;
      }
      cache := cache[gossip.transaction.hash := ref];
      if outcome.Committed? {
        persisted := persisted + {gossip.transaction.hash};
      }
      return true;
    }
  }
}
