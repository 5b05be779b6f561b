/** What the state's getters show, and what undoing a journal entry does to it. */
module StateJournal {
  import opened Bytes
  import opened StateStorage
  import opened Wrappers

  type Address = nat

  /** The precompile whose touch survives a revert. */
  const RIPEMD: Address := 3

  datatype Log = Log(txHash: Word, blockHash: Word, txIndex: nat, index: nat, data: bytes)

  /** An account as the getters show it. */
  datatype AbsAccount = AbsAccount(
    balance: int, nonce: nat, codeHash: Word, code: Option<bytes>, storage: imap<Word, Word>, suicided: bool)

  /** The state as the getters show it. */
  datatype Abs = Abs(
    accounts: imap<Address, Option<AbsAccount>>, refund: nat, logs: map<Word, seq<Log>>, logSize: nat, preimages: map<Word, bytes>)

  function At(s: Abs, a: Address): Option<AbsAccount> {
    if a in s.accounts then s.accounts[a] else None
  }

  function Put(s: Abs, a: Address, v: Option<AbsAccount>): Abs {
    s.(accounts := s.accounts[a := v])
  }

  /** What a journal entry remembers, in terms of what the getters show. */
  datatype Undo =
    | Drop(a: Address)
    | Restore(a: Address, account: AbsAccount)
    | Unsuicide(a: Address, was: bool, balance: int)
    | Balance(a: Address, balance: int)
    | Nonce(a: Address, nonce: nat)
    | Slot(a: Address, key: Word, value: Word)
    | Code(a: Address, code: Option<bytes>, codeHash: Word)
    | Touch(a: Address)
    | Refund(refund: nat)
    | DropLog(txHash: Word)
    | DropPreimage(hash: Word)

  /** The entry can be undone in this state. */
  ghost predicate Applicable(s: Abs, u: Undo) {
    match u
    case Unsuicide(a, _, _) => At(s, a).Some?
    case Balance(a, _) => At(s, a).Some?
    case Nonce(a, _) => At(s, a).Some?
    case Slot(a, _, _) => At(s, a).Some?
    case Code(a, _, _) => At(s, a).Some?
    case DropLog(t) => t in s.logs && s.logs[t] != [] && s.logSize > 0
    case _ => true
  }

  /** Undoing an entry, for the account it is about. */
  function Undone(v: AbsAccount, u: Undo): AbsAccount {
    match u
    case Unsuicide(_, was, b) => v.(suicided := was, balance := b)
    case Balance(_, b) => v.(balance := b)
    case Nonce(_, n) => v.(nonce := n)
    case Slot(_, k, x) => v.(storage := v.storage[k := x])
    case Code(_, c, h) => v.(code := c, codeHash := h)
    case _ => v
  }

  /** The entry changes something of account `a`. */
  predicate About(u: Undo, a: Address) {
    match u
    case Unsuicide(b, _, _) => a == b
    case Balance(b, _) => a == b
    case Nonce(b, _) => a == b
    case Slot(b, _, _) => a == b
    case Code(b, _, _) => a == b
    case _ => false
  }

  function Reverted(s: Abs, u: Undo): Abs
    requires Applicable(s, u)
  {
    match u
    case Drop(a) => Put(s, a, None)
    case Restore(a, v) => Put(s, a, Some(v))
    case Touch(_) => s
    case Refund(r) => s.(refund := r)
    case DropLog(t) =>
      s.(logs := if |s.logs[t]| == 1 then s.logs - {t} else s.logs[t := s.logs[t][..|s.logs[t]| - 1]], logSize := s.logSize - 1)
    case DropPreimage(h) => s.(preimages := s.preimages - {h})
    case _ => Put(s, u.a, Some(Undone(At(s, u.a).value, u)))
  }

  /** Undoing entry by entry leads back through every earlier state. */
  ghost predicate History(saved: seq<Abs>, undo: seq<Undo>, now: Abs) {
    && |saved| == |undo| + 1 && saved[|undo|] == now
    && forall i :: 0 <= i < |undo| ==> Applicable(saved[i + 1], undo[i]) && saved[i] == Reverted(saved[i + 1], undo[i])
  }

  lemma HistoryNext(saved: seq<Abs>, undo: seq<Undo>, now: Abs, u: Undo, next: Abs)
    requires History(saved, undo, now) && Applicable(next, u) && Reverted(next, u) == now
    ensures History(saved + [next], undo + [u], next)
  {
    hide Reverted;
  }

  lemma HistoryBack(saved: seq<Abs>, undo: seq<Undo>, now: Abs)
    requires History(saved, undo, now) && undo != []
    ensures var n := |undo| - 1;
            && Applicable(now, undo[n]) && Reverted(now, undo[n]) == saved[n]
            && History(saved[..n + 1], undo[..n], saved[n])
  {
    hide Reverted;
    var n := |undo| - 1;
    assert saved[n + 1] == now;
  }

  /** The last entry is for a new object of account `a`. */
  ghost predicate Replaces(undo: seq<Undo>, a: Address) {
    undo != [] && (undo[|undo| - 1].Drop? || undo[|undo| - 1].Restore?) && undo[|undo| - 1].a == a
  }

  lemma ReplacesIs(undo: seq<Undo>, u: Undo)
    requires undo != [] && undo[|undo| - 1] == u && (u.Drop? || u.Restore?)
    ensures Replaces(undo, u.a)
  {
  }

  /** The last state may still change where its entry puts something else back. */
  lemma HistoryAmend(saved: seq<Abs>, undo: seq<Undo>, now: Abs, a: Address, v: Option<AbsAccount>)
    requires History(saved, undo, now) && Replaces(undo, a)
    ensures History(saved[..|undo|] + [Put(now, a, v)], undo, Put(now, a, v))
  {
    var n := |undo| - 1;
    var s' := saved[..n + 1] + [Put(now, a, v)];
    assert saved[n + 1] == now && s'[n] == saved[n] && saved[n] == Reverted(now, undo[n]);
    PutTwice(now, a, v, undo[n]);
    hide Reverted, Applicable;
  }

  lemma PutTwice(s: Abs, a: Address, v: Option<AbsAccount>, u: Undo)
    requires (u.Drop? || u.Restore?) && u.a == a
    ensures Applicable(Put(s, a, v), u) && Reverted(Put(s, a, v), u) == Reverted(s, u)
  {
    var x := if u.Drop? then None else Some(u.account);
    assert s.accounts[a := v][a := x] == s.accounts[a := x];
  }

  /** A new account is undone by dropping it, or by putting the old one back. */
  lemma CreateBack(s: Abs, a: Address, w: AbsAccount)
    requires a in s.accounts
    ensures s.accounts[a] == None ==> Reverted(Put(s, a, Some(w)), Drop(a)) == s
    ensures s.accounts[a].Some? ==> Reverted(Put(s, a, Some(w)), Restore(a, s.accounts[a].value)) == s
  {
    assert s.accounts[a := Some(w)][a := s.accounts[a]] == s.accounts;
  }

  lemma LoggedIs(logs: map<Word, seq<Log>>, t: Word, log: Log)
    ensures Logged(logs, t, log) == logs[t := (if t in logs then logs[t] else []) + [log]]
  {
  }

  lemma HistoryLast(saved: seq<Abs>, undo: seq<Undo>, now: Abs)
    requires History(saved, undo, now)
    ensures |saved| == |undo| + 1 && saved[|undo|] == now
  {
  }

  lemma HistoryLength(saved: seq<Abs>, undo: seq<Undo>, now: Abs)
    requires History(saved, undo, now)
    ensures |saved| == |undo| + 1
  {
  }

  lemma PutPut(s: Abs, a: Address, v: Option<AbsAccount>, w: Option<AbsAccount>)
    ensures Put(Put(s, a, v), a, w) == Put(s, a, w)
  {
    assert s.accounts[a := v][a := w] == s.accounts[a := w];
  }

  // ---- what undoes what ----

  /** Changing one account is undone by undoing the change of the account. */
  lemma AccountBack(s: Abs, a: Address, v: AbsAccount, w: AbsAccount, u: Undo)
    requires a in s.accounts && s.accounts[a] == Some(v) && About(u, a) && Undone(w, u) == v
    ensures Applicable(Put(s, a, Some(w)), u) && Reverted(Put(s, a, Some(w)), u) == s
  {
    assert s.accounts[a := Some(w)][a := Some(v)] == s.accounts;
    hide Undone;
  }

  lemma AboutReverted(s: Abs, u: Undo, a: Address, v: AbsAccount)
    requires a in s.accounts && s.accounts[a] == Some(v) && About(u, a)
    ensures Applicable(s, u) && Reverted(s, u) == Put(s, a, Some(Undone(v, u)))
  {
  }

  lemma DropReverted(s: Abs, a: Address)
    ensures Reverted(s, Drop(a)) == Put(s, a, None)
  {
  }

  lemma RestoreReverted(s: Abs, a: Address, v: AbsAccount)
    ensures Reverted(s, Restore(a, v)) == Put(s, a, Some(v))
  {
  }

  /** What undoing the other entries does, field by field. */
  lemma OtherReverts(s: Abs, t: Abs, u: Undo)
    requires Applicable(s, u) && NoEmptyLogs(s.logs) && t.accounts == s.accounts
    requires u.Refund? || u.DropLog? || u.DropPreimage? || u.Touch?
    requires t.refund == if u.Refund? then u.refund else s.refund
    requires t.preimages == if u.DropPreimage? then s.preimages - {u.hash} else s.preimages
    requires t.logSize == if u.DropLog? then s.logSize - 1 else s.logSize
    requires t.logs == if !u.DropLog? then s.logs
                       else if |s.logs[u.txHash]| == 1 then s.logs - {u.txHash}
                       else s.logs[u.txHash := s.logs[u.txHash][..|s.logs[u.txHash]| - 1]]
    ensures Reverted(s, u) == t && NoEmptyLogs(t.logs)
  {
    if u.DropLog? {
      DroppedLogs(s, u.txHash);
    }
  }

  lemma OtherApplies(s: Abs, u: Undo)
    requires Applicable(s, u)
    ensures u.DropLog? ==> u.txHash in s.logs && s.logs[u.txHash] != [] && s.logSize > 0
  {
  }

  lemma AboutApplies(s: Abs, u: Undo, a: Address)
    requires Applicable(s, u) && About(u, a)
    ensures At(s, a).Some?
  {
  }

  lemma AboutIs(s: Abs, a: Address)
    ensures At(s, a).Some? <==> a in s.accounts && s.accounts[a].Some?
  {
  }

  lemma TouchBack(s: Abs, a: Address, v: AbsAccount)
    requires a in s.accounts && s.accounts[a] == Some(v)
    ensures Put(s, a, Some(v)) == s && Applicable(s, Touch(a)) && Reverted(s, Touch(a)) == s
  {
    assert s.accounts[a := Some(v)] == s.accounts;
  }

  lemma SlotBack(v: AbsAccount, k: Word, x: Word)
    requires k in v.storage
    ensures v.storage[k := x][k := v.storage[k]] == v.storage
  {
  }

  lemma LogBack(logs: map<Word, seq<Log>>, t: Word, log: Log)
    requires t in logs ==> logs[t] != []
    ensures var old' := if t in logs then logs[t] else [];
            var after := logs[t := old' + [log]];
            (if |after[t]| == 1 then after - {t} else after[t := after[t][..|after[t]| - 1]]) == logs
  {
    if t in logs {
      assert (logs[t] + [log])[..|logs[t]|] == logs[t];
    }
  }

  lemma RefundBack(s: Abs, r: nat)
    ensures Reverted(s.(refund := r), Refund(s.refund)) == s && Applicable(s.(refund := r), Refund(s.refund))
  {
  }

  /** The logs with one more. */
  function Logged(logs: map<Word, seq<Log>>, t: Word, log: Log): map<Word, seq<Log>> {
    logs[t := (if t in logs then logs[t] else []) + [log]]
  }

  lemma LoggedBack(s: Abs, t: Word, log: Log)
    requires NoEmptyLogs(s.logs)
    ensures var next := s.(logs := Logged(s.logs, t, log), logSize := s.logSize + 1);
            Applicable(next, DropLog(t)) && Reverted(next, DropLog(t)) == s && NoEmptyLogs(next.logs)
  {
    LogBack(s.logs, t, log);
  }

  lemma PreimagesBack(s: Abs, h: Word, b: bytes)
    requires h !in s.preimages
    ensures var next := s.(preimages := s.preimages[h := b]);
            Applicable(next, DropPreimage(h)) && Reverted(next, DropPreimage(h)) == s
  {
    PreimageBack(s.preimages, h, b);
  }

  lemma DroppedLogs(s: Abs, t: Word)
    requires NoEmptyLogs(s.logs) && Applicable(s, DropLog(t))
    ensures NoEmptyLogs(Reverted(s, DropLog(t)).logs)
  {
  }

  lemma PreimageBack(p: map<Word, bytes>, h: Word, b: bytes)
    requires h !in p
    ensures p[h := b] - {h} == p
  {
  }

  ghost predicate NoEmptyLogs(logs: map<Word, seq<Log>>) {
    forall t :: t in logs ==> logs[t] != []
  }

  // ---- dirty counts ----

  /** The address an entry marks as dirty. A reset marks none. */
  function DirtyBy(u: Undo): Option<Address> {
    match u
    case Restore(_, _) => None
    case Refund(_) => None
    case DropLog(_) => None
    case DropPreimage(_) => None
    case _ => Some(u.a)
  }

  function AllDirty(us: seq<Undo>): seq<Option<Address>> {
    if us == [] then [] else AllDirty(us[..|us| - 1]) + [DirtyBy(us[|us| - 1])]
  }

  lemma AllDirtyNext(us: seq<Undo>, u: Undo)
    ensures AllDirty(us + [u]) == AllDirty(us) + [DirtyBy(u)]
  {
    assert (us + [u])[..|us|] == us;
  }

  /** How many of the dirtied addresses are `a`. */
  function Count(ds: seq<Option<Address>>, a: Address): nat {
    if ds == [] then 0 else Count(ds[..|ds| - 1], a) + if ds[|ds| - 1] == Some(a) then 1 else 0
  }

  /** `dirties` holds, for every address, the number of entries that dirty it, and the marks put on the exceptional one. */
  ghost predicate Tracked(dirties: map<Address, nat>, ds: seq<Option<Address>>, marks: nat) {
    forall a: Address ::
      (if a in dirties then dirties[a] else 0) == Count(ds, a) + (if a == RIPEMD then marks else 0) && (a in dirties ==> dirties[a] > 0)
  }

  function Dirtied(dirties: map<Address, nat>, d: Option<Address>): map<Address, nat> {
    match d
    case None => dirties
    case Some(a) => dirties[a := (if a in dirties then dirties[a] else 0) + 1]
  }

  lemma DirtiedBy(dirties: map<Address, nat>, a: Address)
    ensures Dirtied(dirties, Some(a)) == dirties[a := (if a in dirties then dirties[a] else 0) + 1]
  {
  }

  lemma TrackedNext(dirties: map<Address, nat>, ds: seq<Option<Address>>, marks: nat, d: Option<Address>)
    requires Tracked(dirties, ds, marks)
    ensures Tracked(Dirtied(dirties, d), ds + [d], marks)
  {
    assert (ds + [d])[..|ds|] == ds;
    forall a: Address ensures Count(ds + [d], a) == Count(ds, a) + if d == Some(a) then 1 else 0 {
    }
    hide Count;
  }

  lemma TrackedBack(dirties: map<Address, nat>, ds: seq<Option<Address>>, marks: nat)
    requires Tracked(dirties, ds, marks) && ds != []
    ensures var d := ds[|ds| - 1];
            && (d.Some? ==> d.value in dirties && dirties[d.value] > 0)
            && Tracked(Undirtied(dirties, d), ds[..|ds| - 1], marks)
  {
    var d := ds[|ds| - 1];
    if d.Some? {
      assert Count(ds, d.value) == Count(ds[..|ds| - 1], d.value) + 1;
    }
    forall a: Address ensures Count(ds, a) == Count(ds[..|ds| - 1], a) + if d == Some(a) then 1 else 0 {
    }
    hide Count;
  }

  lemma AllDirtyBack(us: seq<Undo>)
    requires us != []
    ensures AllDirty(us) != [] && AllDirty(us)[|AllDirty(us)| - 1] == DirtyBy(us[|us| - 1])
    ensures AllDirty(us)[..|AllDirty(us)| - 1] == AllDirty(us[..|us| - 1])
  {
  }

  /** One count less, and no count left at zero. */
  function Undirtied(dirties: map<Address, nat>, d: Option<Address>): map<Address, nat>
    requires d.Some? ==> d.value in dirties && dirties[d.value] > 0
  {
    if d == None then dirties
    else if dirties[d.value] == 1 then dirties - {d.value}
    else dirties[d.value := dirties[d.value] - 1]
  }

  lemma DroppedDirty(a: map<Address, nat>, b: map<Address, nat>, d: Option<Address>)
    requires d.Some? ==> d.value in a && a[d.value] > 0
    requires b == if d == None then a
                  else if a[d.value] - 1 == 0 then a[d.value := 0] - {d.value}
                  else a[d.value := a[d.value] - 1]
    ensures b == Undirtied(a, d)
  {
  }

  lemma TrackedMark(dirties: map<Address, nat>, ds: seq<Option<Address>>, marks: nat)
    requires Tracked(dirties, ds, marks)
    ensures Tracked(Dirtied(dirties, Some(RIPEMD)), ds, marks + 1)
  {
    hide Count;
  }

  // ---- revisions ----

  datatype Revision = Revision(id: nat, journalIndex: nat)

  /** Revisions are in order, of their ids and of their places in a journal of `n` entries. */
  ghost predicate Revisions(rs: seq<Revision>, nextId: nat, n: nat) {
    && (forall i, j :: 0 <= i < j < |rs| ==> rs[i].id < rs[j].id && rs[i].journalIndex <= rs[j].journalIndex)
    && (forall i :: 0 <= i < |rs| ==> rs[i].id < nextId && rs[i].journalIndex <= n)
  }

  lemma RevisionsMore(rs: seq<Revision>, nextId: nat, m: nat, n: nat)
    requires Revisions(rs, nextId, m) && m <= n
    ensures Revisions(rs, nextId, n)
  {
  }

  /** Of the revisions there were, those still there stand for the states they stood for. */
  ghost predicate Retained(rs: seq<Revision>, saved: seq<Abs>, nextId: nat, rs': seq<Revision>, saved': seq<Abs>, nextId': nat) {
    && nextId <= nextId'
    && forall r :: r in rs' && r.id < nextId ==>
         r in rs && r.journalIndex < |saved'| && r.journalIndex < |saved| && saved'[r.journalIndex] == saved[r.journalIndex]
  }

  lemma RetainedTrans(rs: seq<Revision>, saved: seq<Abs>, n: nat, rs': seq<Revision>, saved': seq<Abs>, n': nat, rs'': seq<Revision>, saved'': seq<Abs>, n'': nat)
    requires Retained(rs, saved, n, rs', saved', n') && Retained(rs', saved', n', rs'', saved'', n'')
    ensures Retained(rs, saved, n, rs'', saved'', n'')
  {
  }

  lemma RetainedMore(rs: seq<Revision>, saved: seq<Abs>, n: nat, saved': seq<Abs>)
    requires saved != []
    requires Revisions(rs, n, |saved| - 1) && saved <= saved'
    ensures Retained(rs, saved, n, rs, saved', n)
  {
    forall r | r in rs
      ensures r.journalIndex < |saved|
    {
      var i :| 0 <= i < |rs| && rs[i] == r;
    }
  }

  lemma RetainedSnapshot(rs: seq<Revision>, saved: seq<Abs>, n: nat, rs': seq<Revision>)
    requires saved != []
    requires Revisions(rs, n, |saved| - 1) && rs' == rs + [Revision(n, |saved| - 1)]
    ensures Retained(rs, saved, n, rs', saved, n + 1)
  {
    RetainedMore(rs, saved, n, saved);
  }

  lemma RetainedRevert(rs: seq<Revision>, saved: seq<Abs>, n: nat, idx: nat)
    requires saved != []
    requires Revisions(rs, n, |saved| - 1) && idx < |rs| && rs[idx].journalIndex < |saved|
    ensures Retained(rs, saved, n, rs[..idx], saved[..rs[idx].journalIndex + 1], n)
  {
    forall r | r in rs[..idx]
      ensures r in rs && r.journalIndex <= rs[idx].journalIndex
    {
      var i :| 0 <= i < idx && rs[..idx][i] == r;
      assert rs[i] == r;
    }
  }

  /** A revert keeps the revisions before the one reverted to. */
  lemma EarlierKept(rs: seq<Revision>, nextId: nat, n: nat, idx: nat)
    requires Revisions(rs, nextId, n) && idx < |rs|
    ensures forall r :: r in rs && r.id < rs[idx].id ==> r in rs[..idx]
  {
    forall r | r in rs && r.id < rs[idx].id
      ensures r in rs[..idx]
    {
      var i :| 0 <= i < |rs| && rs[i] == r;
      assert rs[..idx][i] == r;
    }
  }

  /** A snapshot that is still valid stands for the state it was taken in. */
  lemma RetainedLast(rs0: seq<Revision>, id: nat, at: nat, s: seq<Abs>, n: nat, rs: seq<Revision>, saved: seq<Abs>, n': nat, idx: nat)
    requires (forall r :: r in rs0 ==> r.id < id) && id < n && Retained(rs0 + [Revision(id, at)], s, n, rs, saved, n')
    requires idx < |rs| && rs[idx].id == id
    ensures rs[idx].journalIndex == at && at < |saved| && at < |s| && saved[at] == s[at]
  {
    assert rs[idx] in rs;
  }

  lemma RevisionsAre(rs: seq<Revision>, nextId: nat, n: nat)
    requires Revisions(rs, nextId, n)
    ensures forall i, j :: 0 <= i < j < |rs| ==> rs[i].id < rs[j].id
    ensures forall i :: 0 <= i < |rs| ==> rs[i].journalIndex <= n
  {
  }

  /** Revisions before one are in order up to where that one is. */
  lemma RevisionsBefore(rs: seq<Revision>, nextId: nat, n: nat, i: nat)
    requires Revisions(rs, nextId, n) && i < |rs|
    ensures Revisions(rs[..i], nextId, rs[i].journalIndex)
  {
  }

  lemma RevisionsNext(rs: seq<Revision>, nextId: nat, n: nat)
    requires Revisions(rs, nextId, n)
    ensures Revisions(rs + [Revision(nextId, n)], nextId + 1, n)
    ensures forall r :: r in rs ==> r.id < nextId
  {
  }

  /** Binary search for the first revision with at least the given id. */
  method Search(rs: seq<Revision>, id: nat) returns (idx: nat)
    requires forall i, j :: 0 <= i < j < |rs| ==> rs[i].id < rs[j].id
    ensures idx <= |rs|
    ensures forall i :: 0 <= i < idx ==> rs[i].id < id
    ensures forall i :: idx <= i < |rs| ==> rs[i].id >= id
  {
    var i, j := 0, |rs|;
    while i < j
      invariant 0 <= i <= j <= |rs|
      invariant forall k :: 0 <= k < i ==> rs[k].id < id
      invariant forall k :: j <= k < |rs| ==> rs[k].id >= id
    {
      var h := (i + j) / 2;
      if rs[h].id < id {
        i := h + 1;
      } else {
        j := h;
      }
    }
    idx := i;
  }
}
