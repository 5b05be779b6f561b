/** Delegates that gossip: every run keeps rumors true and distinct, so quorums overlap. */
module GossipRuns {
  import opened Gossips
  import opened Wrappers

  /** The delegates, the messages under way, and a record of all rumors issued, by whom, and of all that was executed. */
  datatype System = System(
    nodes: map<Address, Delegate>,
    network: multiset<Message>,
    issued: set<(Address, Rumor)>,
    executed: seq<(Address, Gossip)>)

  datatype Event =
    | Begin(a: Address, tx: Transaction, time: int)
    | Arrive(m: Message, time: int)
    | Lose(m: Message)
    | Worker(a: Address, w: Chance)
    | Execute(a: Address, i: nat, bookkeeper: bool, outcome: Outcome)

  ghost predicate Enabled(c: Setting, s: System, e: Event) {
    match e
    case Begin(a, _, _) => a in s.nodes
    case Arrive(m, _) => m in s.network && m.to in s.nodes && Refs(s.nodes[m.to])
    case Lose(m) => m in s.network
    case Worker(a, w) => a in s.nodes && Refs(s.nodes[a]) && s.nodes[a].chan != [] && Possible(c, a, s.nodes[a], w)
    case Execute(a, i, _, _) => a in s.nodes && Refs(s.nodes[a]) && i < |s.nodes[a].queue|
  }

  function CacheSent(n: Delegate, hash: Hash, address: Address): Delegate {
    n.(sent := n.sent[hash := (if hash in n.sent then n.sent[hash] else []) + [address]])
  }

  ghost function Next(c: Setting, s: System, e: Event): System
    requires Enabled(c, s, e)
  {
    match e
    case Begin(a, tx, time) =>
      var (n, out, status) := Start(c, a, s.nodes[a], tx, time);
      s.(nodes := s.nodes[a := n], network := s.network + multiset(out),
         issued := if status.Pending? then s.issued + {(a, NewRumor(c, a, tx.hash, time))} else s.issued)
    case Arrive(Request(a, from, g), time) =>
      var r := Receive(c, a, s.nodes[a], g, time);
      var answer := if r.failed then [] else [Response(from, a, g.transaction.hash)];
      s.(nodes := s.nodes[a := r.state], network := s.network - multiset{e.m} + multiset(r.out + answer),
         issued := if r.told then s.issued + {(a, NewRumor(c, a, g.transaction.hash, time))} else s.issued)
    case Arrive(Response(a, from, hash), _) =>
      s.(nodes := s.nodes[a := CacheSent(s.nodes[a], hash, from)], network := s.network - multiset{e.m})
    case Lose(m) => s.(network := s.network - multiset{m})
    case Worker(a, w) =>
      var (n, out) := Work(c, a, s.nodes[a], w);
      s.(nodes := s.nodes[a := n], network := s.network + multiset(out))
    case Execute(a, i, bookkeeper, outcome) =>
      var d := DoWork(s.nodes[a], i, bookkeeper, outcome);
      s.(nodes := s.nodes[a := d.state],
         executed := if d.executed then s.executed + [(a, s.nodes[a].heap[s.nodes[a].queue[i]])] else s.executed)
  }

  ghost predicate Initial(c: Setting, s: System) {
    && (forall i, j :: 0 <= i < j < |c.delegates| ==> c.delegates[i] != c.delegates[j])
    && (forall a :: a in s.nodes ==> a in c.delegates && s.nodes[a] == Delegate([], map[], {}, {}, map[], [], [], {}, s.nodes[a].persisted))
    && s.network == multiset{} && s.issued == {} && s.executed == []
  }

  /** `events` can happen one after the other from `s` on, and lead to `t`. */
  ghost predicate Run(c: Setting, s: System, events: seq<Event>, t: System)
    decreases |events|
  {
    if events == [] then s == t
    else
      var last := |events| - 1;
      exists u :: Run(c, s, events[..last], u) && Enabled(c, u, events[last]) && t == Next(c, u, events[last])
  }

  // ---- what every run keeps ----

  /** At most one rumor per delegate, about the transaction, and each really issued by its delegate. */
  ghost predicate Good(c: Setting, issued: set<(Address, Rumor)>, h: Hash, rumors: seq<Rumor>) {
    && (forall i, j :: 0 <= i < j < |rumors| ==> rumors[i].address != rumors[j].address)
    && forall r :: r in rumors ==> r.transactionHash == h && r.address in c.delegates && (r.address, r) in issued
  }

  ghost predicate GoodGossip(c: Setting, issued: set<(Address, Rumor)>, g: Gossip) {
    Good(c, issued, g.transaction.hash, g.rumors)
  }

  ghost predicate Sound(c: Setting, issued: set<(Address, Rumor)>, n: Delegate) {
    && Refs(n)
    && (forall i :: 0 <= i < |n.heap| ==> GoodGossip(c, issued, n.heap[i]))
    && (forall h :: h in n.cache ==> n.heap[n.cache[h]].transaction.hash == h)
    && (forall i :: 0 <= i < |n.queue| ==> Enough(c, n.heap[n.queue[i]].rumors))
  }

  ghost predicate SoundMessage(c: Setting, issued: set<(Address, Rumor)>, m: Message) {
    m.Request? ==> GoodGossip(c, issued, m.gossip)
  }

  ghost predicate Inv(c: Setting, s: System) {
    && (forall i, j :: 0 <= i < j < |c.delegates| ==> c.delegates[i] != c.delegates[j])
    && (forall a :: a in s.nodes ==> a in c.delegates && Sound(c, s.issued, s.nodes[a]))
    && (forall m :: m in s.network ==> SoundMessage(c, s.issued, m))
    && (forall x :: x in s.issued ==> x.0 in s.nodes && x.1.address == x.0)
    && (forall x :: x in s.executed ==> GoodGossip(c, s.issued, x.1) && Enough(c, x.1.rumors))
  }

  lemma SoundMore(c: Setting, issued: set<(Address, Rumor)>, more: set<(Address, Rumor)>, n: Delegate)
    requires Sound(c, issued, n) && issued <= more
    ensures Sound(c, more, n)
  {
  }

  lemma {:induction false} GoodMerge(c: Setting, issued: set<(Address, Rumor)>, h: Hash, ours: seq<Rumor>, theirs: seq<Rumor>)
    requires Good(c, issued, h, ours) && Good(c, issued, h, theirs)
    ensures Good(c, issued, h, Merge(c, ours, theirs)) && |Merge(c, ours, theirs)| >= |ours|
    decreases |theirs|
  {
    if theirs != [] {
      GoodMerge(c, issued, h, ours, theirs[..|theirs| - 1]);
    }
  }

  lemma GoodOwn(c: Setting, issued: set<(Address, Rumor)>, h: Hash, rumors: seq<Rumor>, r: Rumor)
    requires Good(c, issued, h, rumors) && !ContainsRumor(rumors, r.address) && r.transactionHash == h && r.address in c.delegates
    ensures Good(c, issued + {(r.address, r)}, h, rumors + [r])
  {
  }

  // ---- counting delegates ----

  ghost predicate Distinct(rumors: seq<Rumor>) {
    forall i, j :: 0 <= i < j < |rumors| ==> rumors[i].address != rumors[j].address
  }

  /** The delegates that stand behind a transaction. */
  ghost function Backers(rumors: seq<Rumor>): set<Address> {
    set r | r in rumors :: r.address
  }

  /** Rumors are of distinct delegates if, and only if, there are as many delegates as rumors. */
  lemma {:induction false} DistinctBackers(rumors: seq<Rumor>)
    ensures |Backers(rumors)| <= |rumors|
    ensures Distinct(rumors) <==> |Backers(rumors)| == |rumors|
  {
    if rumors != [] {
      var last := |rumors| - 1;
      var front, r := rumors[..last], rumors[last];
      DistinctBackers(front);
      assert rumors == front + [r];
      assert Backers(rumors) == Backers(front) + {r.address};
      if r.address in Backers(front) {
        assert Backers(rumors) == Backers(front);
        var x :| x in front && x.address == r.address;
      }
    }
  }

  /** Sorting keeps a gossip good. */
  lemma GoodOrder(c: Setting, issued: set<(Address, Rumor)>, h: Hash, rumors: seq<Rumor>, order: seq<Rumor>)
    requires Good(c, issued, h, rumors) && multiset(order) == multiset(rumors)
    ensures Good(c, issued, h, order) && |order| == |rumors|
  {
    assert |multiset(order)| == |order| && |multiset(rumors)| == |rumors|;
    assert forall r :: r in order <==> r in multiset(order);
    assert forall r :: r in rumors <==> r in multiset(rumors);
    assert Backers(order) == Backers(rumors);
    assert Distinct(rumors);
    DistinctBackers(rumors);
    DistinctBackers(order);
  }

  lemma {:induction false} BroadcastSound(c: Setting, issued: set<(Address, Rumor)>, self: Address, n: Delegate, g: Gossip, i: nat)
    requires GoodGossip(c, issued, g) && i <= |c.delegates|
    ensures forall m :: m in Broadcast(c, self, n, g, i) ==> SoundMessage(c, issued, m)
    decreases |c.delegates| - i
  {
    if i < |c.delegates| {
      BroadcastSound(c, issued, self, n, g, i + 1);
    }
  }

  lemma StartSound(c: Setting, issued: set<(Address, Rumor)>, self: Address, n: Delegate, tx: Transaction, time: int)
    requires Sound(c, issued, n) && self in c.delegates
    ensures var (n', out, status) := Start(c, self, n, tx, time);
            var more := if status.Pending? then issued + {(self, NewRumor(c, self, tx.hash, time))} else issued;
            Sound(c, more, n') && forall m :: m in out ==> SoundMessage(c, more, m)
  {
    var (n', out, status) := Start(c, self, n, tx, time);
    if status.Pending? {
      var r := NewRumor(c, self, tx.hash, time);
      var g := Gossip(tx, [r]);
      var more := issued + {(self, r)};
      SoundMore(c, issued, more, n);
      assert GoodGossip(c, more, g);
      var n1 := CacheOnFirstReceive(n.(heap := n.heap + [g]), |n.heap|);
      BroadcastSound(c, more, self, n1, g, 0);
    }
  }

  /** Rumors of a gossip are replaced by good ones, no fewer than before. */
  lemma AddSound(c: Setting, issued: set<(Address, Rumor)>, n: Delegate, ref: nat, rumors: seq<Rumor>)
    requires Sound(c, issued, n) && ref < |n.heap| && Good(c, issued, n.heap[ref].transaction.hash, rumors) && |rumors| >= |n.heap[ref].rumors|
    ensures Sound(c, issued, AddRumors(n, ref, rumors))
  {
  }

  lemma CacheSound(c: Setting, issued: set<(Address, Rumor)>, n: Delegate, ref: nat)
    requires Sound(c, issued, n) && ref < |n.heap|
    ensures Sound(c, issued, CacheOnFirstReceive(n, ref))
  {
  }

  lemma SynchronizeSound(c: Setting, issued: set<(Address, Rumor)>, self: Address, n: Delegate, ref: nat, time: int)
    requires Sound(c, issued, n) && self in c.delegates && ref < |n.heap|
    ensures var r := Synchronize(c, self, n, ref, time);
            var more := if r.told then issued + {(self, NewRumor(c, self, n.heap[ref].transaction.hash, time))} else issued;
            && Sound(c, more, r.state) && |r.state.heap| == |n.heap|
            && forall m :: m in r.out ==> SoundMessage(c, more, m)
  {
    var g := n.heap[ref];
    var h := g.transaction.hash;
    var known := h in n.cache;
    var sync := if known then n.cache[h] else ref;
    var n1 := if known then AddRumors(n, sync, Merge(c, n.heap[sync].rumors, g.rumors)) else n;
    if known {
      GoodMerge(c, issued, h, n.heap[sync].rumors, g.rumors);
      AddSound(c, issued, n, sync, Merge(c, n.heap[sync].rumors, g.rumors));
    }
    assert Sound(c, issued, n1) && n1.heap[sync].transaction.hash == h;
    if !ContainsRumor(n1.heap[sync].rumors, self) && c.verifyTransaction(g.transaction) {
      var r := NewRumor(c, self, h, time);
      var more := issued + {(self, r)};
      GoodOwn(c, issued, h, n1.heap[sync].rumors, r);
      SoundMore(c, issued, more, n1);
      var n2 := AddRumors(n1, sync, n1.heap[sync].rumors + [r]);
      AddSound(c, more, n1, sync, n1.heap[sync].rumors + [r]);
      CacheSound(c, more, n2, sync);
      var n3 := CacheOnFirstReceive(n2, sync);
      BroadcastSound(c, more, self, n3, n3.heap[sync], 0);
    }
  }

  lemma ReceiveSound(c: Setting, issued: set<(Address, Rumor)>, self: Address, n: Delegate, g: Gossip, time: int)
    requires Sound(c, issued, n) && self in c.delegates && GoodGossip(c, issued, g)
    ensures var r := Receive(c, self, n, g, time);
            var more := if r.told then issued + {(self, NewRumor(c, self, g.transaction.hash, time))} else issued;
            Sound(c, more, r.state) && forall m :: m in r.out ==> SoundMessage(c, more, m)
  {
    var n0 := n.(heap := n.heap + [g]);
    GrownSound(c, issued, n, g);
    SynchronizeSound(c, issued, self, n0, |n.heap|, time);
    var r := Synchronize(c, self, n0, |n.heap|, time);
    var more := if r.told then issued + {(self, NewRumor(c, self, g.transaction.hash, time))} else issued;
    ChannelSound(c, more, r.state, |n.heap|);
    hide Sound, GoodGossip, SoundMessage, Synchronize;
  }

  lemma GrownSound(c: Setting, issued: set<(Address, Rumor)>, n: Delegate, g: Gossip)
    requires Sound(c, issued, n) && GoodGossip(c, issued, g)
    ensures Refs(n) && Sound(c, issued, n.(heap := n.heap + [g]))
  {
    hide GoodGossip, Enough;
  }

  lemma ChannelSound(c: Setting, issued: set<(Address, Rumor)>, n: Delegate, ref: nat)
    requires Sound(c, issued, n) && ref < |n.heap|
    ensures Sound(c, issued, n.(chan := n.chan + [ref]))
  {
    hide GoodGossip, Enough;
  }

  lemma WorkSound(c: Setting, issued: set<(Address, Rumor)>, self: Address, n: Delegate, w: Chance)
    requires Sound(c, issued, n) && n.chan != [] && Possible(c, self, n, w)
    ensures var (n', out) := Work(c, self, n, w);
            Sound(c, issued, n') && forall m :: m in out ==> SoundMessage(c, issued, m)
  {
    var ref := n.chan[0];
    var n0 := n.(chan := n.chan[1..]);
    var many := |n.heap[ref].rumors| > 1;
    TakenSound(c, issued, n);
    GoodOrder(c, issued, n.heap[ref].transaction.hash, n.heap[ref].rumors, w.order);
    AddSound(c, issued, n0, ref, w.order);
    var n1 := if many then AddRumors(n0, ref, w.order) else n0;
    QueuedSound(c, issued, n1, ref);
    hide Sound, GoodGossip, Good;
  }

  lemma TakenSound(c: Setting, issued: set<(Address, Rumor)>, n: Delegate)
    requires Sound(c, issued, n) && n.chan != []
    ensures n.chan[0] < |n.heap| && Sound(c, issued, n.(chan := n.chan[1..])) && GoodGossip(c, issued, n.heap[n.chan[0]])
  {
  }

  /** What the worker may do with a gossip. */
  lemma QueuedSound(c: Setting, issued: set<(Address, Rumor)>, n: Delegate, ref: nat)
    requires Sound(c, issued, n) && ref < |n.heap|
    ensures var g := n.heap[ref]; var h := g.transaction.hash;
            && GoodGossip(c, issued, g)
            && (Enough(c, g.rumors) ==> Sound(c, issued, n.(queue := n.queue + [ref], queued := n.queued + {h})))
            && Sound(c, issued, n.(cache := n.cache[h := ref]))
            && Sound(c, issued, n.(chan := n.chan + [ref]))
  {
  }

  lemma DoWorkSound(c: Setting, issued: set<(Address, Rumor)>, n: Delegate, i: nat, bookkeeper: bool, outcome: Outcome)
    requires Sound(c, issued, n) && i < |n.queue| && c.delegates != []
    ensures var d := DoWork(n, i, bookkeeper, outcome); Sound(c, issued, d.state) && !d.panicked
    ensures var g := n.heap[n.queue[i]]; GoodGossip(c, issued, g) && Enough(c, g.rumors)
  {
  }

  // ---- every run is sound ----

  lemma MessagesMore(c: Setting, issued: set<(Address, Rumor)>, more: set<(Address, Rumor)>, m: Message)
    requires SoundMessage(c, issued, m) && issued <= more
    ensures SoundMessage(c, more, m)
  {
  }

  /** One delegate's state changes, messages are added and taken away, and rumors of that delegate are recorded. */
  lemma StepInv(c: Setting, s: System, a: Address, n: Delegate, out: seq<Message>, network: multiset<Message>, issued: set<(Address, Rumor)>)
    requires Inv(c, s) && a in s.nodes && s.issued <= issued && network <= s.network
    requires Sound(c, issued, n) && forall m :: m in out ==> SoundMessage(c, issued, m)
    requires forall x :: x in issued && x !in s.issued ==> x.0 == a && x.1.address == a
    ensures Inv(c, s.(nodes := s.nodes[a := n], network := network + multiset(out), issued := issued))
  {
    forall b | b in s.nodes
      ensures Sound(c, issued, s.nodes[b])
    {
      SoundMore(c, s.issued, issued, s.nodes[b]);
    }
    forall m | m in network + multiset(out)
      ensures SoundMessage(c, issued, m)
    {
      if m in out {
      } else {
        assert m in s.network;
        MessagesMore(c, s.issued, issued, m);
      }
    }
    hide Sound, SoundMessage;
  }

  lemma InvNode(c: Setting, s: System, a: Address)
    requires Inv(c, s) && a in s.nodes
    ensures Sound(c, s.issued, s.nodes[a]) && a in c.delegates && c.delegates != []
  {
  }

  lemma BeginInv(c: Setting, s: System, a: Address, tx: Transaction, time: int)
    requires Inv(c, s) && a in s.nodes
    ensures Inv(c, Next(c, s, Begin(a, tx, time)))
  {
    InvNode(c, s, a);
    StartSound(c, s.issued, a, s.nodes[a], tx, time);
    hide Start, Sound, SoundMessage, Good, Inv;
    var (n, out, status) := Start(c, a, s.nodes[a], tx, time);
    var issued := if status.Pending? then s.issued + {(a, NewRumor(c, a, tx.hash, time))} else s.issued;
    StepInv(c, s, a, n, out, s.network, issued);
  }

  lemma WorkerInv(c: Setting, s: System, a: Address, w: Chance)
    requires Inv(c, s) && Enabled(c, s, Worker(a, w))
    ensures Inv(c, Next(c, s, Worker(a, w)))
  {
    InvNode(c, s, a);
    WorkSound(c, s.issued, a, s.nodes[a], w);
    hide Work, Sound, SoundMessage, Good, Inv, Possible;
    var (n, out) := Work(c, a, s.nodes[a], w);
    StepInv(c, s, a, n, out, s.network, s.issued);
  }

  lemma ExecuteInv(c: Setting, s: System, a: Address, i: nat, bookkeeper: bool, outcome: Outcome)
    requires Inv(c, s) && Enabled(c, s, Execute(a, i, bookkeeper, outcome))
    ensures Inv(c, Next(c, s, Execute(a, i, bookkeeper, outcome)))
  {
    InvNode(c, s, a);
    var n := s.nodes[a];
    DoWorkSound(c, s.issued, n, i, bookkeeper, outcome);
    hide DoWork, Sound, SoundMessage, Good, GoodGossip, Enough, Inv;
    var d := DoWork(n, i, bookkeeper, outcome);
    StepInv(c, s, a, d.state, [], s.network, s.issued);
    assert s.network + multiset([]) == s.network;
    var u := s.(nodes := s.nodes[a := d.state]);
    assert u == s.(nodes := s.nodes[a := d.state], network := s.network + multiset([]), issued := s.issued);
    ExecutedInv(c, u, a, n.heap[n.queue[i]]);
  }

  lemma ExecutedInv(c: Setting, s: System, a: Address, g: Gossip)
    requires Inv(c, s) && GoodGossip(c, s.issued, g) && Enough(c, g.rumors)
    ensures Inv(c, s.(executed := s.executed + [(a, g)]))
  {
    hide Sound, SoundMessage, Good;
  }

  lemma RequestInv(c: Setting, s: System, m: Message, time: int)
    requires Inv(c, s) && Enabled(c, s, Arrive(m, time)) && m.Request?
    ensures Inv(c, Next(c, s, Arrive(m, time)))
  {
    var a, g := m.to, m.gossip;
    InvNode(c, s, a);
    assert SoundMessage(c, s.issued, m);
    ReceiveSound(c, s.issued, a, s.nodes[a], g, time);
    var r := Receive(c, a, s.nodes[a], g, time);
    var answer := if r.failed then [] else [Response(m.from, a, g.transaction.hash)];
    var issued := if r.told then s.issued + {(a, NewRumor(c, a, g.transaction.hash, time))} else s.issued;
    assert forall x :: x in answer ==> SoundMessage(c, issued, x);
    hide Receive, Sound, SoundMessage, Good, Inv;
    StepInv(c, s, a, r.state, r.out + answer, s.network - multiset{m}, issued);
  }

  lemma ResponseInv(c: Setting, s: System, m: Message, time: int)
    requires Inv(c, s) && Enabled(c, s, Arrive(m, time)) && m.Response?
    ensures Inv(c, Next(c, s, Arrive(m, time)))
  {
    InvNode(c, s, m.to);
    var n := CacheSent(s.nodes[m.to], m.hash, m.from);
    assert Sound(c, s.issued, n);
    hide CacheSent, Sound, SoundMessage, Good, Inv;
    StepInv(c, s, m.to, n, [], s.network - multiset{m}, s.issued);
    assert s.network - multiset{m} + multiset([]) == s.network - multiset{m};
    assert Next(c, s, Arrive(m, time)) == s.(nodes := s.nodes[m.to := n], network := s.network - multiset{m});
  }

  lemma NextInv(c: Setting, s: System, e: Event)
    requires Inv(c, s) && Enabled(c, s, e)
    ensures Inv(c, Next(c, s, e))
  {
    match e
    case Begin(a, tx, time) => BeginInv(c, s, a, tx, time);
    case Arrive(m, time) => if m.Request? { RequestInv(c, s, m, time); } else { ResponseInv(c, s, m, time); }
    case Lose(m) => LoseInv(c, s, m);
    case Worker(a, w) => WorkerInv(c, s, a, w);
    case Execute(a, i, bookkeeper, outcome) => ExecuteInv(c, s, a, i, bookkeeper, outcome);
  }

  lemma LoseInv(c: Setting, s: System, m: Message)
    requires Inv(c, s) && m in s.network
    ensures Inv(c, Next(c, s, Lose(m)))
  {
    hide Sound, SoundMessage, Good;
  }

  /** Whatever happens: gossips under way, cached or queued have at most one rumor of a delegate, each issued by it. */
  lemma {:induction false} RunInv(c: Setting, s: System, events: seq<Event>, t: System)
    requires Initial(c, s) && Run(c, s, events, t)
    ensures Inv(c, t)
    decreases |events|
  {
    if events != [] {
      var last := |events| - 1;
      var u :| Run(c, s, events[..last], u) && Enabled(c, u, events[last]) && t == Next(c, u, events[last]);
      RunInv(c, s, events[..last], u);
      NextInv(c, u, events[last]);
    }
  }

  // ---- quorums ----

  /** A delegate holds the gossip ready for execution, or has executed it. */
  ghost predicate Chosen(t: System, g: Gossip) {
    || (exists a, i :: a in t.nodes && 0 <= i < |t.nodes[a].queue| && t.nodes[a].queue[i] < |t.nodes[a].heap| && t.nodes[a].heap[t.nodes[a].queue[i]] == g)
    || (exists x :: x in t.executed && x.1 == g)
  }

  ghost function Delegates(c: Setting): set<Address> {
    set a | a in c.delegates
  }

  ghost predicate IssuedBy(t: System, a: Address, h: Hash) {
    exists r: Rumor :: (a, r) in t.issued && r.address == a && r.transactionHash == h
  }

  /** The delegates behind a gossip that is chosen are two thirds of all, and have all issued a rumor about it. */
  ghost predicate Quorum(c: Setting, t: System, q: set<Address>, h: Hash) {
    q <= Delegates(c) && 3 * |q| >= 2 * |c.delegates| && forall a :: a in q ==> IssuedBy(t, a, h)
  }

  lemma {:induction false} DelegatesCount(ds: seq<Address>)
    requires forall i, j :: 0 <= i < j < |ds| ==> ds[i] != ds[j]
    ensures |(set a | a in ds)| == |ds|
  {
    if ds != [] {
      var last := |ds| - 1;
      DelegatesCount(ds[..last]);
      assert (set a | a in ds) == (set a | a in ds[..last]) + {ds[last]};
    }
  }

  lemma SetCount<T>(a: set<T>, b: set<T>, d: set<T>)
    requires a <= d && b <= d
    ensures |a * b| >= |a| + |b| - |d|
  {
    assert |a + b| == |a| + |b| - |a * b|;
    Subset(a + b, d);
  }

  lemma Subset<T>(a: set<T>, d: set<T>)
    requires a <= d
    ensures |a| <= |d|
  {
    assert d == a + (d - a);
  }

  /** In every run: what is executed has a quorum behind it. */
  lemma ChosenQuorum(c: Setting, s: System, events: seq<Event>, t: System, g: Gossip)
    requires Initial(c, s) && Run(c, s, events, t) && Chosen(t, g)
    ensures Quorum(c, t, Backers(g.rumors), g.transaction.hash) && |Backers(g.rumors)| == |g.rumors|
  {
    RunInv(c, s, events, t);
    ChosenGood(c, t, g);
    DistinctBackers(g.rumors);
    assert Distinct(g.rumors);
    forall a | a in Backers(g.rumors)
      ensures IssuedBy(t, a, g.transaction.hash)
    {
      var r :| r in g.rumors && r.address == a;
      assert (a, r) in t.issued;
    }
  }

  lemma ChosenGood(c: Setting, t: System, g: Gossip)
    requires Inv(c, t) && Chosen(t, g)
    ensures GoodGossip(c, t.issued, g) && Enough(c, g.rumors)
  {
    if exists a, i :: a in t.nodes && 0 <= i < |t.nodes[a].queue| && t.nodes[a].queue[i] < |t.nodes[a].heap| && t.nodes[a].heap[t.nodes[a].queue[i]] == g {
      var a, i :| a in t.nodes && 0 <= i < |t.nodes[a].queue| && t.nodes[a].queue[i] < |t.nodes[a].heap| && t.nodes[a].heap[t.nodes[a].queue[i]] == g;
      assert Sound(c, t.issued, t.nodes[a]);
    } else {
      var x :| x in t.executed && x.1 == g;
    }
  }

  /** Any two quorums, of one transaction or of two, share a third of the delegates. */
  lemma QuorumsOverlap(c: Setting, s: System, events: seq<Event>, t: System, g: Gossip, g': Gossip)
    requires Initial(c, s) && Run(c, s, events, t) && Chosen(t, g) && Chosen(t, g')
    ensures var both := Backers(g.rumors) * Backers(g'.rumors);
            && 3 * |both| >= |c.delegates|
            && forall a :: a in both ==> IssuedBy(t, a, g.transaction.hash) && IssuedBy(t, a, g'.transaction.hash)
  {
    ChosenQuorum(c, s, events, t, g);
    ChosenQuorum(c, s, events, t, g');
    DelegatesCount(c.delegates);
    SetCount(Backers(g.rumors), Backers(g'.rumors), Delegates(c));
  }
}
