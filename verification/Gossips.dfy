/** Rumors and gossips, and what one delegate does with them. */
module Gossips {
  import opened Wrappers

  type Address = string
  type Hash = string

  datatype Transaction = Transaction(hash: Hash, from: Address, to: Address, value: int, time: int)

  /** A delegate's signed word that it has seen a transaction. */
  datatype Rumor = Rumor(hash: Hash, address: Address, transactionHash: Hash, time: int, signature: string)

  datatype Gossip = Gossip(transaction: Transaction, rumors: seq<Rumor>)

  /** The delegates, as every one of them knows them, and the cryptography, which is left open. */
  datatype Setting = Setting(
    delegates: seq<Address>,
    digest: (Address, Hash, int) -> Hash,
    sign: (Address, Hash) -> string,
    verifyRumor: Rumor -> bool,
    verifyTransaction: Transaction -> bool)

  const GOSSIP_TIMEOUT := 1000
  const TX_RECEIVE_TIMEOUT := 3000

  function NewRumor(c: Setting, address: Address, transactionHash: Hash, time: int): Rumor {
    var hash := c.digest(address, transactionHash, time);
    Rumor(hash, address, transactionHash, time, c.sign(address, hash))
  }

  /** One delegate. Gossips are objects: the cache, the channel and the queue refer to them by their place in `heap`. */
  datatype Delegate = Delegate(
    heap: seq<Gossip>,
    cache: map<Hash, nat>,
    transactions: set<Hash>,
    receipts: set<Hash>,
    sent: map<Hash, seq<Address>>,
    chan: seq<nat>,
    queue: seq<nat>,
    queued: set<Hash>,
    persisted: set<Hash>)

  /** What delegates send to each other: a gossip, and the answer that it has been received. */
  datatype Message =
    | Request(to: Address, from: Address, gossip: Gossip)
    | Response(to: Address, from: Address, hash: Hash)

  // ---- rumors ----

  predicate ContainsRumor(rumors: seq<Rumor>, address: Address) {
    exists i :: 0 <= i < |rumors| && rumors[i].address == address
  }

  /** Rumors of delegates not yet heard of are added, if they verify. */
  function Merge(c: Setting, ours: seq<Rumor>, theirs: seq<Rumor>): seq<Rumor>
    decreases |theirs|
  {
    if theirs == [] then ours
    else
      var last := |theirs| - 1;
      var merged := Merge(c, ours, theirs[..last]);
      if !ContainsRumor(merged, theirs[last].address) && c.verifyRumor(theirs[last]) then merged + [theirs[last]] else merged
  }

  /** Whether nothing is new: the program looks at the last rumor only. */
  predicate HasAll(c: Setting, ours: seq<Rumor>, theirs: seq<Rumor>) {
    theirs != [] && ContainsRumor(Merge(c, ours, theirs[..|theirs| - 1]), theirs[|theirs| - 1].address)
  }

  predicate SortedByTime(rumors: seq<Rumor>) {
    forall i, j :: 0 <= i < j < |rumors| ==> rumors[i].time <= rumors[j].time
  }

  /** The latest rumor is fresh, and none lags too far behind the one before. */
  predicate ValidTimeDelta(sorted: seq<Rumor>, now: int)
    requires sorted != []
  {
    && now - sorted[|sorted| - 1].time <= GOSSIP_TIMEOUT
    && forall i :: 1 <= i < |sorted| ==> sorted[i].time - sorted[i - 1].time <= GOSSIP_TIMEOUT
  }

  /** At least two thirds of the delegates. */
  predicate Enough(c: Setting, rumors: seq<Rumor>) {
    3 * |rumors| >= 2 * |c.delegates|
  }

  // ---- steps of a delegate ----

  predicate HaveSent(n: Delegate, hash: Hash, address: Address) {
    hash in n.sent && address in n.sent[hash]
  }

  /** A gossip for each delegate from the `i`-th on that is neither this one nor has been sent it before. */
  function Broadcast(c: Setting, self: Address, n: Delegate, g: Gossip, i: nat): seq<Message>
    requires i <= |c.delegates|
    decreases |c.delegates| - i
  {
    if i == |c.delegates| then []
    else
      (if !HaveSent(n, g.transaction.hash, c.delegates[i]) && c.delegates[i] != self then [Request(c.delegates[i], self, g)] else [])
      + Broadcast(c, self, n, g, i + 1)
  }

  function CacheOnFirstReceive(n: Delegate, ref: nat): Delegate
    requires ref < |n.heap|
  {
    var h := n.heap[ref].transaction.hash;
    n.(receipts := n.receipts + {h}, cache := n.cache[h := ref], transactions := n.transactions + {h})
  }

  function AddRumors(n: Delegate, ref: nat, rumors: seq<Rumor>): Delegate
    requires ref < |n.heap|
  {
    n.(heap := n.heap[ref := n.heap[ref].(rumors := rumors)])
  }

  datatype Status = Pending | InvalidTransaction | TransactionTimeOut | DuplicateTransaction | AlreadyProcessing

  /** A client hands in a transaction: the delegate starts a gossip, unless it is invalid, late, done or under way. */
  function Start(c: Setting, self: Address, n: Delegate, tx: Transaction, time: int): (Delegate, seq<Message>, Status) {
    if !c.verifyTransaction(tx) then (n, [], InvalidTransaction)
    else if time - tx.time > TX_RECEIVE_TIMEOUT then (n, [], TransactionTimeOut)
    else if tx.hash in n.persisted then (n, [], DuplicateTransaction)
    else if tx.hash in n.transactions then (n, [], AlreadyProcessing)
    else
      var g := Gossip(tx, [NewRumor(c, self, tx.hash, time)]);
      var ref := |n.heap|;
      var n1 := CacheOnFirstReceive(n.(heap := n.heap + [g]), ref);
      (n1.(chan := n1.chan + [ref]), Broadcast(c, self, n1, g, 0), Pending)
  }

  /** Result of synchronising: the state, the messages, the gossip that results, whether it failed, and whether to go on. */
  datatype Synced = Synced(state: Delegate, out: seq<Message>, ref: nat, failed: bool, more: bool, told: bool)

  /** The gossip at `ref`, just received, is merged with the one in the cache; with the first receipt comes an own rumor. */
  function Synchronize(c: Setting, self: Address, n: Delegate, ref: nat, time: int): (r: Synced)
    requires ref < |n.heap| && forall h :: h in n.cache ==> n.cache[h] < |n.heap|
  {
    var g := n.heap[ref];
    var h := g.transaction.hash;
    var known := h in n.cache;
    var sync := if known then n.cache[h] else ref;
    var hasAll := known && HasAll(c, n.heap[sync].rumors, g.rumors);
    var n1 := if known then AddRumors(n, sync, Merge(c, n.heap[sync].rumors, g.rumors)) else n;
    if ContainsRumor(n1.heap[sync].rumors, self) then Synced(n1, [], sync, false, !hasAll, false)
    else if !c.verifyTransaction(g.transaction) then Synced(n1, [], sync, true, true, false)
    else
      var n2 := AddRumors(n1, sync, n1.heap[sync].rumors + [NewRumor(c, self, h, time)]);
      var n3 := CacheOnFirstReceive(n2, sync);
      Synced(n3, Broadcast(c, self, n3, n3.heap[sync], 0), sync, false, !hasAll, true)
  }

  /** A gossip arrives from another delegate. It is what was received, not what was merged, that is gossiped about next. */
  function Receive(c: Setting, self: Address, n: Delegate, g: Gossip, time: int): Synced
    requires Refs(n)
  {
    var ref := |n.heap|;
    var r := Synchronize(c, self, n.(heap := n.heap + [g]), ref, time);
    if r.failed || !r.more then r else r.(state := r.state.(chan := r.state.chan + [ref]))
  }

  /** The cache, the channel and the queue refer to gossips that exist. */
  ghost predicate Refs(n: Delegate) {
    && (forall h :: h in n.cache ==> n.cache[h] < |n.heap|)
    && (forall i :: 0 <= i < |n.chan| ==> n.chan[i] < |n.heap|)
    && (forall i :: 0 <= i < |n.queue| ==> n.queue[i] < |n.heap|)
  }

  /** What the world decides for the worker: the order of rumors of the same time, the clock, a delegate to talk to, and failure. */
  datatype Chance = Chance(order: seq<Rumor>, now: int, choice: Option<Address>, fails: bool)

  /** What may happen: the order is one by time, and the delegate is another one that has not been sent the gossip yet. */
  ghost predicate Possible(c: Setting, self: Address, n: Delegate, w: Chance)
    requires Refs(n) && n.chan != []
  {
    var g := n.heap[n.chan[0]];
    && SortedByTime(w.order) && multiset(w.order) == multiset(g.rumors)
    && (w.choice.Some? ==> w.choice.value in c.delegates && w.choice.value != self && !HaveSent(n, g.transaction.hash, w.choice.value))
  }

  /** The worker takes a gossip from the channel: it is dropped, or queued for execution, or sent on. */
  function Work(c: Setting, self: Address, n: Delegate, w: Chance): (Delegate, seq<Message>)
    requires Refs(n) && n.chan != [] && Possible(c, self, n, w)
  {
    var ref := n.chan[0];
    var n0 := n.(chan := n.chan[1..]);
    var many := |n0.heap[ref].rumors| > 1;
    var n1 := if many then AddRumors(n0, ref, w.order) else n0;
    var g := n1.heap[ref];
    if many && !ValidTimeDelta(g.rumors, w.now) then (n1, [])
    else if Enough(c, g.rumors) then
      if g.transaction.hash in n1.queued then (n1, [])
      else (n1.(queue := n1.queue + [ref], queued := n1.queued + {g.transaction.hash}), [])
    else if |g.rumors| == |c.delegates| then (n1, [])
    else if w.choice.None? then (n1.(cache := n1.cache[g.transaction.hash := ref]), [])
    else (if w.fails then n1.(chan := n1.chan + [ref]) else n1, [Request(w.choice.value, self, g)])
  }

  /** How the execution of a transaction may end. */
  datatype Outcome = Refused | NotCommitted | Committed

  /** Result of taking a gossip from the queue; `panicked` if it has no rumors. */
  datatype Done = Done(state: Delegate, executed: bool, panicked: bool)

  /** The `i`-th gossip in the queue is taken off and, by a bookkeeper, executed. */
  function DoWork(n: Delegate, i: nat, bookkeeper: bool, outcome: Outcome): Done
    requires Refs(n) && i < |n.queue|
  {
    var ref := n.queue[i];
    var g := n.heap[ref];
    var h := g.transaction.hash;
    var n1 := n.(queue := n.queue[..i] + n.queue[i + 1..], queued := n.queued - {h});
    if h !in n.receipts then Done(n1.(receipts := n1.receipts + {h}), false, false)
    else if g.rumors == [] then Done(n1, false, true)
    else if g.rumors[0].time - g.transaction.time >= TX_RECEIVE_TIMEOUT then Done(n1, false, false)
    else if !bookkeeper || h in n.persisted || outcome.Refused? then Done(n1, false, false)
    else
      var n2 := n1.(cache := n1.cache[h := ref]);
      Done(if outcome.Committed? then n2.(persisted := n2.persisted + {h}) else n2, true, false)
  }
}
