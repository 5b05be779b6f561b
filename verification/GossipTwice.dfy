/** A run in which one delegate issues two rumors about one transaction. */
module GossipTwice {
  import opened Gossips
  import opened GossipRuns
  import opened GossipOnce
  import opened Wrappers

  /**
    A delegate whose cached gossip lacks its own rumor issues another one when it next hears of the transaction from
    delegates other than itself.
   */
  lemma SecondComes(c: Setting, s: System, m: Message, time: int, r: Rumor)
    requires Enabled(c, s, Arrive(m, time)) && m.Request? && (m.to, r) in s.issued && r.transactionHash == m.gossip.transaction.hash
    requires var n := s.nodes[m.to]; var h := m.gossip.transaction.hash;
             h in n.cache && !ContainsRumor(n.heap[n.cache[h]].rumors, m.to)
    requires c.verifyTransaction(m.gossip.transaction) && !ContainsRumor(m.gossip.rumors, m.to) && r.time != time
    ensures !OneEach(Next(c, s, Arrive(m, time)).issued)
  {
    ToldAgain(c, m.to, s.nodes[m.to], m.gossip, time);
    var t := Next(c, s, Arrive(m, time));
    var x, y := (m.to, r), (m.to, NewRumor(c, m.to, m.gossip.transaction.hash, time));
    hide Receive, Refs, ContainsRumor;
    assert x in t.issued && y in t.issued && x.1.time != y.1.time;
  }

  // ---- the run: what matters of the state after each event ----

  function From(c: Setting, a: Address, tx: Transaction, time: int): Gossip { Gossip(tx, [NewRumor(c, a, tx.hash, time)]) }

  /** The gossips that "a" and "c" send to "b". */
  function ByA(c: Setting, tx: Transaction): Message { Request("b", "a", From(c, "a", tx, 0)) }

  function ByC(c: Setting, tx: Transaction): Message { Request("b", "c", From(c, "c", tx, 2)) }

  ghost predicate Fresh(n: Delegate, tx: Transaction) {
    Looks(n, [], map[], []) && n.transactions == {} && tx.hash !in n.persisted
  }

  ghost predicate Sending(s: System, m: Message, k: nat) { s.network[m] >= k }

  /** "b" has issued its first rumor. */
  ghost predicate Told(c: Setting, s: System, tx: Transaction) {
    ("b", NewRumor(c, "b", tx.hash, 1)) in s.issued
  }

  /** Three delegates that accept everything, and a transaction that is not late. */
  ghost predicate Agreeable(c: Setting, tx: Transaction) {
    c.delegates == ["a", "b", "c"] && c.verifyTransaction(tx) && (forall r :: c.verifyRumor(r)) && 2 - tx.time <= TX_RECEIVE_TIMEOUT
  }

  ghost predicate AllHere(s: System) { "a" in s.nodes && "b" in s.nodes && "c" in s.nodes }

  lemma Begun(c: Setting, s: System, a: Address, tx: Transaction, time: int)
    requires Agreeable(c, tx) && AllHere(s) && a in s.nodes && a != "b" && Fresh(s.nodes[a], tx) && time <= 2
    ensures var t := Next(c, s, Begin(a, tx, time));
            && AllHere(t) && (forall x :: x in s.nodes && x != a ==> t.nodes[x] == s.nodes[x])
            && Looks(t.nodes[a], [From(c, a, tx, time)], map[tx.hash := 0], [0])
            && Sending(t, Request("b", a, From(c, a, tx, time)), s.network[Request("b", a, From(c, a, tx, time))] + 1)
            && (forall m: Message :: t.network[m] >= s.network[m]) && s.issued <= t.issued
  {
    Started(c, a, s.nodes[a], tx, time);
    hide Start, Looks, NewRumor;
    var out := Start(c, a, s.nodes[a], tx, time).1;
    assert multiset(out)[Request("b", a, From(c, a, tx, time))] >= 1;
  }

  lemma Resent(c: Setting, s: System, tx: Transaction)
    requires Agreeable(c, tx) && AllHere(s) && Looks(s.nodes["a"], [From(c, "a", tx, 0)], map[tx.hash := 0], [0])
    ensures var e := Worker("a", Chance(From(c, "a", tx, 0).rumors, 0, Some("b"), false));
            && Enabled(c, s, e)
            && var t := Next(c, s, e);
               && AllHere(t) && (forall x :: x in s.nodes && x != "a" ==> t.nodes[x] == s.nodes[x])
               && t.network == s.network + multiset{ByA(c, tx)} && t.issued == s.issued
  {
    var w := Chance(From(c, "a", tx, 0).rumors, 0, Some("b"), false);
    SentOn(c, "a", s.nodes["a"], From(c, "a", tx, 0));
    var out := Work(c, "a", s.nodes["a"], w).1;
    assert multiset(out) == multiset{ByA(c, tx)};
    hide Work, Looks, NewRumor, Possible, Refs;
  }

  /** A request that arrives at "b" is taken from the network. */
  lemma Arrived(c: Setting, s: System, m: Message, time: int)
    requires m.Request? && m.to == "b" && AllHere(s) && Refs(s.nodes["b"]) && Sending(s, m, 1)
    ensures Enabled(c, s, Arrive(m, time))
    ensures var t := Next(c, s, Arrive(m, time)); var r := Receive(c, "b", s.nodes["b"], m.gossip, time);
            && AllHere(t) && t.nodes["b"] == r.state && (forall x :: x in s.nodes && x != "b" ==> t.nodes[x] == s.nodes[x])
            && (forall k: Message :: t.network[k] >= if k == m then s.network[k] - 1 else s.network[k]) && s.issued <= t.issued
            && (r.told ==> ("b", NewRumor(c, "b", m.gossip.transaction.hash, time)) in t.issued)
  {
    hide Receive, Refs, NewRumor;
  }

  lemma Worked(c: Setting, s: System, w: Chance)
    requires AllHere(s) && Refs(s.nodes["b"]) && s.nodes["b"].chan != [] && Possible(c, "b", s.nodes["b"], w)
    ensures Enabled(c, s, Worker("b", w))
    ensures var t := Next(c, s, Worker("b", w));
            && AllHere(t) && t.nodes["b"] == Work(c, "b", s.nodes["b"], w).0
            && (forall k: Message :: t.network[k] >= s.network[k]) && s.issued <= t.issued
  {
    hide Work, Refs, Possible;
  }

  lemma OneMore(c: Setting, s: System, events: seq<Event>, t: System, e: Event)
    requires Run(c, s, events, t) && Enabled(c, t, e)
    ensures Run(c, s, events + [e], Next(c, t, e))
  {
    assert (events + [e])[..|events|] == events;
  }

  lemma NoEvents(c: Setting, s: System)
    ensures Run(c, s, [], s)
  {
  }

  lemma ThreeFresh(c: Setting, s: System, tx: Transaction)
    requires Unheard(c, s, tx)
    ensures AllHere(s) && Fresh(s.nodes["a"], tx) && Fresh(s.nodes["b"], tx) && Fresh(s.nodes["c"], tx)
  {
  }

  lemma BeginsOf(s: System, a: Address)
    requires AllHere(s) && (a == "a" || a == "c")
    ensures a in s.nodes && forall c, tx, time :: Enabled(c, s, Begin(a, tx, time))
  {
  }

  /** "a" starts a gossip. */
  lemma First(c: Setting, s: System, tx: Transaction) returns (t: System)
    requires Agreeable(c, tx) && Unheard(c, s, tx)
    ensures Run(c, s, [Begin("a", tx, 0)], t) && AllHere(t) && Fresh(t.nodes["b"], tx) && Fresh(t.nodes["c"], tx)
    ensures Sending(t, ByA(c, tx), 1) && Looks(t.nodes["a"], [From(c, "a", tx, 0)], map[tx.hash := 0], [0])
  {
    ThreeFresh(c, s, tx);
    BeginsOf(s, "a");
    NoEvents(c, s);
    OneMore(c, s, [], s, Begin("a", tx, 0));
    Begun(c, s, "a", tx, 0);
    t := Next(c, s, Begin("a", tx, 0));
    assert [] + [Begin("a", tx, 0)] == [Begin("a", tx, 0)];
    hide Run, Next, Start, Looks, Enabled, Unheard, Agreeable;
  }

  /** "a" sends it again, and "c" starts a gossip. */
  lemma Second(c: Setting, s: System, events: seq<Event>, u: System, tx: Transaction) returns (more: seq<Event>, t: System)
    requires Run(c, s, events, u) && Agreeable(c, tx) && AllHere(u) && Fresh(u.nodes["b"], tx) && Fresh(u.nodes["c"], tx)
    requires Sending(u, ByA(c, tx), 1) && Looks(u.nodes["a"], [From(c, "a", tx, 0)], map[tx.hash := 0], [0])
    ensures Run(c, s, more, t) && AllHere(t) && Fresh(t.nodes["b"], tx) && Sending(t, ByA(c, tx), 2) && Sending(t, ByC(c, tx), 1)
  {
    hide Run, Next, Looks, Enabled, Agreeable, From, Fresh;
    var e2, e3 := Worker("a", Chance(From(c, "a", tx, 0).rumors, 0, Some("b"), false)), Begin("c", tx, 2);
    Resent(c, u, tx);
    OneMore(c, s, events, u, e2);
    var t2 := Next(c, u, e2);
    BeginsOf(t2, "c");
    Begun(c, t2, "c", tx, 2);
    OneMore(c, s, events + [e2], t2, e3);
    more, t := events + [e2] + [e3], Next(c, t2, e3);
  }

  /** "b" hears from "a", issues its rumor, and hears from "c". */
  lemma Third(c: Setting, s: System, events: seq<Event>, u: System, tx: Transaction) returns (more: seq<Event>, t: System)
    requires Run(c, s, events, u) && Agreeable(c, tx) && AllHere(u) && Fresh(u.nodes["b"], tx)
    requires Sending(u, ByA(c, tx), 2) && Sending(u, ByC(c, tx), 1)
    ensures Run(c, s, more, t) && AllHere(t) && Sending(t, ByA(c, tx), 1) && Told(c, t, tx)
    ensures Looks(t.nodes["b"], [Gossip(tx, AllThree(c, tx)), From(c, "c", tx, 2)], map[tx.hash := 0], [0, 1])
  {
    hide Run, Next, Looks, Enabled, Receive, ContainsRumor, Refs, AllThree, Told;
    var a1, b1, c1 := NewRumor(c, "a", tx.hash, 0), NewRumor(c, "b", tx.hash, 1), NewRumor(c, "c", tx.hash, 2);
    var ours := [a1, b1];
    Heard(c, tx);
    ToldIs(c, tx);
    FirstReceived(c, "b", u.nodes["b"], tx, a1, 1);
    Arrived(c, u, ByA(c, tx), 1);
    OneMore(c, s, events, u, Arrive(ByA(c, tx), 1));
    var t1 := Next(c, u, Arrive(ByA(c, tx), 1));
    NextReceived(c, "b", t1.nodes["b"], tx, ours, c1, 2);
    Arrived(c, t1, ByC(c, tx), 2);
    OneMore(c, s, events + [Arrive(ByA(c, tx), 1)], t1, Arrive(ByC(c, tx), 2));
    more, t := events + [Arrive(ByA(c, tx), 1)] + [Arrive(ByC(c, tx), 2)], Next(c, t1, Arrive(ByC(c, tx), 2));
  }

  lemma Heard(c: Setting, tx: Transaction)
    ensures var a1, b1, c1 := NewRumor(c, "a", tx.hash, 0), NewRumor(c, "b", tx.hash, 1), NewRumor(c, "c", tx.hash, 2);
            ContainsRumor([a1, b1], "b") && !ContainsRumor([a1, b1], "c") && [a1, b1] + [c1] == AllThree(c, tx)
  {
    assert [NewRumor(c, "a", tx.hash, 0), NewRumor(c, "b", tx.hash, 1)][1].address == "b";
  }

  lemma ToldIs(c: Setting, tx: Transaction)
    ensures forall s: System :: Told(c, s, tx) <==> ("b", NewRumor(c, "b", tx.hash, 1)) in s.issued
  {
  }

  /** The rumors of all three, in the order of their times. */
  function AllThree(c: Setting, tx: Transaction): seq<Rumor> {
    [NewRumor(c, "a", tx.hash, 0), NewRumor(c, "b", tx.hash, 1), NewRumor(c, "c", tx.hash, 2)]
  }

  /** "b" queues the merged gossip, and finds no one to send c's gossip to. */
  lemma Fourth(c: Setting, s: System, events: seq<Event>, u: System, tx: Transaction) returns (more: seq<Event>, t: System)
    requires Run(c, s, events, u) && Agreeable(c, tx) && AllHere(u) && Sending(u, ByA(c, tx), 1) && Told(c, u, tx)
    requires Looks(u.nodes["b"], [Gossip(tx, AllThree(c, tx)), From(c, "c", tx, 2)], map[tx.hash := 0], [0, 1])
    ensures Run(c, s, more, t) && AllHere(t) && Sending(t, ByA(c, tx), 1) && Told(c, t, tx) && Refs(t.nodes["b"])
    ensures tx.hash in t.nodes["b"].cache && t.nodes["b"].heap[t.nodes["b"].cache[tx.hash]] == From(c, "c", tx, 2)
  {
    var all, c1 := AllThree(c, tx), NewRumor(c, "c", tx.hash, 2);
    assert SortedByTime(all) && ValidTimeDelta(all, 3);
    hide Run, Next, Enabled, Work, Refs, Possible, ValidTimeDelta, SortedByTime, AllThree, NewRumor;
    var w3, w4 := Chance(all, 3, None, false), Chance([c1], 4, None, false);
    Queued(c, "b", u.nodes["b"], tx, all, c1);
    Worked(c, u, w3);
    OneMore(c, s, events, u, Worker("b", w3));
    var t1 := Next(c, u, Worker("b", w3));
    hide Looks;
    PutBack(c, "b", t1.nodes["b"], tx, all, c1);
    Worked(c, t1, w4);
    OneMore(c, s, events + [Worker("b", w3)], t1, Worker("b", w4));
    more, t := events + [Worker("b", w3)] + [Worker("b", w4)], Next(c, t1, Worker("b", w4));
  }

  /**
    A delegate that puts back a gossip without its own rumor forgets that it has issued one: of three delegates "b" hears of
    a transaction from "a", then from "c", finds no one to send c's gossip to, hears from "a" again, and issues a second rumor.
   */
  lemma TwoRumors(c: Setting, s: System, tx: Transaction)
    requires Agreeable(c, tx) && Unheard(c, s, tx)
    ensures exists events, t ::
              && Run(c, s, events, t)
              && exists r, r' :: r != r' && ("b", r) in t.issued && ("b", r') in t.issued && r.transactionHash == r'.transactionHash
  {
    var t1 := First(c, s, tx);
    var e2, t2 := Second(c, s, [Begin("a", tx, 0)], t1, tx);
    var e3, t3 := Third(c, s, e2, t2, tx);
    var e4, t4 := Fourth(c, s, e3, t3, tx);
    var e5, t5 := Fifth(c, s, e4, t4, tx);
    hide *;
  }

  lemma Fifth(c: Setting, s: System, events: seq<Event>, u: System, tx: Transaction) returns (more: seq<Event>, t: System)
    requires Run(c, s, events, u) && Agreeable(c, tx) && AllHere(u) && Sending(u, ByA(c, tx), 1) && Told(c, u, tx) && Refs(u.nodes["b"])
    requires tx.hash in u.nodes["b"].cache && u.nodes["b"].heap[u.nodes["b"].cache[tx.hash]] == From(c, "c", tx, 2)
    ensures Run(c, s, more, t)
    ensures exists r, r' :: r != r' && ("b", r) in t.issued && ("b", r') in t.issued && r.transactionHash == r'.transactionHash
  {
    assert !ContainsRumor(From(c, "c", tx, 2).rumors, "b") && !ContainsRumor(From(c, "a", tx, 0).rumors, "b");
    hide Run, Next, Enabled, Receive, Refs, ContainsRumor;
    var e := Arrive(ByA(c, tx), 5);
    Arrived(c, u, ByA(c, tx), 5);
    ToldAgain(c, "b", u.nodes["b"], From(c, "a", tx, 0), 5);
    OneMore(c, s, events, u, e);
    more, t := events + [e], Next(c, u, e);
    var r, r' := NewRumor(c, "b", tx.hash, 1), NewRumor(c, "b", tx.hash, 5);
    assert r.time != r'.time;
  }
}
