/** The world state of a block in progress: live objects over a trie, with an undo journal. */
module StateDB {
  import opened Bytes
  import Rlp
  import opened StateStorage
  import opened StateJournal
  import opened Wrappers

  datatype Account = Account(balance: int, nonce: nat, root: Word, codeHash: Option<Word>)

  /** What state is read from: the account trie, the other account store, the storage tries by root, code by hash. */
  datatype Store = Store(
    trie: map<Address, Account>, badger: map<Address, Account>, storage: map<Word, StorageTrie>, codes: map<Word, bytes>,
    newHash: bytes -> Word)

  ghost predicate Sane(store: Store) {
    forall r :: r in store.storage ==> Canonical(store.storage[r])
  }

  /** The storage trie of a root, or an empty one if there is none. */
  function OpenStorage(store: Store, root: Word): StorageTrie {
    if root in store.storage then store.storage[root] else map[]
  }

  function EmptyCode(store: Store): Word { store.newHash([]) }

  /** The code of a hash. */
  function LoadCode(store: Store, h: Word): Option<bytes> {
    if h == EmptyCode(store) then None else if h in store.codes then Some(store.codes[h]) else None
  }

  function HashOf(store: Store, acc: Account): Word {
    if acc.codeHash == None then EmptyCode(store) else acc.codeHash.value
  }

  /** What the getters show of an account that has just been loaded: its nonce is zero. */
  ghost function Loaded(store: Store, acc: Account): AbsAccount {
    AbsAccount(acc.balance, 0, HashOf(store, acc), LoadCode(store, HashOf(store, acc)),
               imap k: Word | true :: Decode(OpenStorage(store, acc.root), k), false)
  }

  /** A slot as the storage trie of a root has it: trimmed and encoded, or absent for zero. */
  ghost predicate Stored(store: Store, root: Word, key: Word, value: Word) {
    if root in store.storage && key in store.storage[root] then value != ZERO && store.storage[root][key] == Rlp.Encode(Rlp.Str(Trim(value)))
    else value == ZERO
  }

  /** What a stored account shows, field by field. */
  ghost predicate Shows(store: Store, acc: Account, v: AbsAccount) {
    && v.balance == acc.balance && v.nonce == 0 && !v.suicided
    && v.codeHash == (if acc.codeHash.Some? then acc.codeHash.value else store.newHash([]))
    && v.code == (if v.codeHash != store.newHash([]) && v.codeHash in store.codes then Some(store.codes[v.codeHash]) else None)
    && forall k: Word :: k in v.storage && Stored(store, acc.root, k, v.storage[k])
  }

  lemma LoadedShows(store: Store, acc: Account)
    requires Sane(store)
    ensures Shows(store, acc, Loaded(store, acc))
  {
    var v := Loaded(store, acc);
    forall k: Word
      ensures k in v.storage && Stored(store, acc.root, k, v.storage[k])
    {
      SlotIsStored(store, acc.root, k);
    }
    hide Stored;
  }

  lemma SlotIsStored(store: Store, root: Word, key: Word)
    requires Sane(store)
    ensures Stored(store, root, key, Decode(OpenStorage(store, root), key))
  {
    if root in store.storage {
      assert Canonical(store.storage[root]);
    }
    hide Unpack, Trim;
  }

  /** A stored value tells which slot value it is. */
  lemma StoredOnce(store: Store, root: Word, key: Word, x: Word, y: Word)
    requires Stored(store, root, key, x) && Stored(store, root, key, y)
    ensures x == y
  {
    if root in store.storage && key in store.storage[root] {
      UnpackPacked(store.storage[root], key, x);
      UnpackPacked(store.storage[root], key, y);
    }
    hide Unpack, Trim;
  }

  /** An account being modified. */
  class StateObject {
    const address: Address
    const db: StateDB
    var account: Account
    /** The storage trie, opened on first access. */
    var trie: Option<StorageTrie>
    /** The code, once it is loaded or set. */
    var code: Option<bytes>
    var cachedStorage: map<Word, Word>
    var dirtyStorage: map<Word, Word>
    var suicided: bool
    var deleted: bool

    constructor (db: StateDB, address: Address, data: Account)
      ensures this.db == db && this.address == address && !deleted && !suicided
      ensures Sane(db.store) ==> Consistent()
      ensures View() == Loaded(db.store, data)
      ensures Sane(db.store) ==> Shows(db.store, data, View())
    {
      this.db, this.address := db, address;
      account := Account(data.balance, 0, data.root, Some(HashOf(db.store, data)));
      trie, code, cachedStorage, dirtyStorage := None, None, map[], map[];
      suicided, deleted := false, false;
      new;
      assert View().storage == Loaded(db.store, data).storage;
      if Sane(db.store) {
        LoadedShows(db.store, data);
      }
    }

    /** The storage trie as it is or would be opened. */
    ghost function Content(): StorageTrie
      reads `trie, `account
    {
      if trie.Some? then trie.value else OpenStorage(db.store, account.root)
    }

    ghost function Slot(key: Word): Word
      reads `trie, `account, `cachedStorage
    {
      if key in cachedStorage then cachedStorage[key] else Decode(Content(), key)
    }

    /** The cache holds what the trie holds, except for the dirty slots, which it holds as written. */
    ghost predicate Consistent()
      reads `trie, `account, `cachedStorage, `dirtyStorage
    {
      && account.codeHash.Some? && Canonical(Content())
      && (forall k :: k in dirtyStorage ==> k in cachedStorage && dirtyStorage[k] == cachedStorage[k])
      && (forall k :: k in cachedStorage && k !in dirtyStorage ==> cachedStorage[k] == Decode(Content(), k))
    }

    /** What the getters show of this account. */
    ghost function View(): AbsAccount
      reads this
    {
      var h := HashOf(db.store, account);
      AbsAccount(account.balance, account.nonce, h, if code.Some? then code else LoadCode(db.store, h),
                 imap k: Word | true :: Slot(k), suicided)
    }

    lemma ViewIs()
      ensures View().balance == account.balance && View().nonce == account.nonce && View().codeHash == HashOf(db.store, account)
      ensures View().suicided == suicided && forall k: Word :: k in View().storage && View().storage[k] == Slot(k)
    {
    }

    function empty(): (r: bool)
      requires Consistent()
      reads this
      ensures r <==> View().nonce == 0 && View().balance == 0 && View().codeHash == EmptyCode(db.store)
    {
      account.nonce == 0 && account.balance == 0 && account.codeHash == Some(EmptyCode(db.store))
    }

    // ---- storage ----

    method getTrie() returns (t: StorageTrie)
      modifies `trie
      ensures t == Content() == old(Content()) && trie == Some(t)
    {
      if trie == None {
        trie := Some(OpenStorage(db.store, account.root));
      }
      t := trie.value;
    }

    /** Reads a slot, through the cache. */
    method GetState(key: Word) returns (value: Word)
      requires Consistent()
      modifies `trie, `cachedStorage
      ensures Consistent() && Content() == old(Content())
      ensures value == Slot(key) && forall k :: Slot(k) == old(Slot(k))
      ensures View() == old(View())
    {
      hide Decode, Canonical;
      if key in cachedStorage {
        return cachedStorage[key];
      }
      var t := getTrie();
      value := Decode(t, key);
      if value != ZERO {
        cachedStorage := cachedStorage[key := value];
      }
      assert View().storage == old(View()).storage;
    }

    method setState(key: Word, value: Word)
      requires Consistent()
      modifies `cachedStorage, `dirtyStorage
      ensures Consistent() && Content() == old(Content())
      ensures forall k :: Slot(k) == if k == key then value else old(Slot(k))
      ensures View() == old(View()).(storage := old(View()).storage[key := value])
    {
      cachedStorage := cachedStorage[key := value];
      dirtyStorage := dirtyStorage[key := value];
      assert View().storage == old(View()).storage[key := value];
    }

    /** Writes the dirty slots to the storage trie, in any order: a zero value deletes its key. */
    method updateTrie()
      requires Consistent()
      modifies `trie, `dirtyStorage
      ensures Consistent() && dirtyStorage == map[] && trie == Some(Content())
      ensures forall k :: Slot(k) == old(Slot(k))
      ensures forall k :: Decode(Content(), k) == Slot(k)
      ensures forall k :: k in Content() <==> Slot(k) != ZERO
      ensures forall k :: k in Content() ==> Content()[k] == Rlp.Encode(Rlp.Str(Trim(Slot(k))))
      ensures View() == old(View())
    {
      hide Decode, Packed, Canonical;
      var t := getTrie();
      while dirtyStorage != map[]
        invariant trie == Some(t) && Consistent()
        invariant forall k :: Slot(k) == old(Slot(k))
        decreases dirtyStorage.Keys
      {
        var key :| key in dirtyStorage;
        var value := dirtyStorage[key];
        dirtyStorage := dirtyStorage - {key};
        if value == ZERO {
          DeleteCanonical(t, key);
          t := t - {key};
        } else {
          PutCanonical(t, key, value);
          t := t[key := Packed(value)];
        }
        trie := Some(t);
      }
      assert View().storage == old(View()).storage;
      CanonicalIs(t);
    }

    /** Opened again, from any store that has under its root the trie that was left, the account shows the same slots. */
    lemma Reopened(later: Store, acc: Account)
      requires Consistent() && dirtyStorage == map[] && trie.Some? && acc.root in later.storage && later.storage[acc.root] == trie.value
      ensures Loaded(later, acc).storage == View().storage
    {
      hide Decode, Canonical;
      assert forall k: Word :: Slot(k) == Decode(trie.value, k);
    }

    // ---- other changes, not journalled ----

    method Code() returns (c: Option<bytes>)
      requires Consistent()
      modifies `code
      ensures Consistent() && c == View().code && View() == old(View())
    {
      if code.Some? {
        return code;
      }
      if account.codeHash.value == EmptyCode(db.store) {
        return None;
      }
      code := LoadCode(db.store, account.codeHash.value);
      assert View().storage == old(View()).storage;
      return code;
    }

    method setCode(codeHash: Word, c: Option<bytes>)
      requires Consistent()
      modifies `code, `account
      ensures Consistent()
      ensures View() == old(View()).(codeHash := codeHash, code := if c.Some? then c else LoadCode(db.store, codeHash))
    {
      code := c;
      account := account.(codeHash := Some(codeHash));
      assert View().storage == old(View()).storage;
    }

    method setBalance(amount: int)
      requires Consistent()
      modifies `account
      ensures Consistent() && View() == old(View()).(balance := amount)
    {
      account := account.(balance := amount);
      assert View().storage == old(View()).storage;
    }

    method kill()
      requires Consistent()
      modifies `suicided, `account
      ensures Consistent() && View() == old(View()).(suicided := true, balance := 0)
    {
      suicided := true;
      account := account.(balance := 0);
      assert View().storage == old(View()).storage;
    }

    method unkill(was: bool, balance: int)
      requires Consistent()
      modifies `suicided, `account
      ensures Consistent() && View() == old(View()).(suicided := was, balance := balance)
    {
      suicided := was;
      account := account.(balance := balance);
      assert View().storage == old(View()).storage;
    }

    method setNonce(nonce: nat)
      requires Consistent()
      modifies `account
      ensures Consistent() && View() == old(View()).(nonce := nonce)
    {
      account := account.(nonce := nonce);
      assert View().storage == old(View()).storage;
    }

    // ---- journalled changes ----

    method SetBalance(amount: int)
      requires db.Valid() && db.Live(this)
      modifies `account, db`entries, db`dirties, db`saved, db`undo
      ensures db.Valid() && db.Live(this) && View() == old(View()).(balance := amount)
      ensures db.Now() == Put(old(db.Now()), address, Some(View())) && old(db.saved) <= db.saved
    {
      hide *;
      db.ValidIs();
      db.LiveIs(this);
      ViewIs();
      ghost var v, u := View(), Balance(address, account.balance);
      db.append(BalanceChange(address, account.balance));
      setBalance(amount);
      db.Record(u);
      db.LiveIf(this);
      BalanceUndo(db.store, address, v, amount);
      db.AccountRecorded(this, BalanceChange(address, v.balance), u);
    }

    method SetNonce(nonce: nat)
      requires db.Valid() && db.Live(this)
      modifies `account, db`entries, db`dirties, db`saved, db`undo
      ensures db.Valid() && db.Live(this) && View() == old(View()).(nonce := nonce)
      ensures db.Now() == Put(old(db.Now()), address, Some(View())) && old(db.saved) <= db.saved
    {
      hide *;
      db.ValidIs();
      db.LiveIs(this);
      ViewIs();
      ghost var v, u := View(), Nonce(address, account.nonce);
      db.append(NonceChange(address, account.nonce));
      setNonce(nonce);
      db.Record(u);
      db.LiveIf(this);
      NonceUndo(db.store, address, v, nonce);
      db.AccountRecorded(this, NonceChange(address, v.nonce), u);
    }

    method SetCode(codeHash: Word, c: Option<bytes>)
      requires db.Valid() && db.Live(this)
      modifies `account, `code, db`entries, db`dirties, db`saved, db`undo
      ensures db.Valid() && db.Live(this)
      ensures View() == old(View()).(codeHash := codeHash, code := if c.Some? then c else LoadCode(db.store, codeHash))
      ensures db.Now() == Put(old(db.Now()), address, Some(View())) && old(db.saved) <= db.saved
    {
      hide *;
      db.ValidIs();
      db.LiveIs(this);
      ViewIs();
      ghost var v := View();
      var prevcode := Code();
      HashIs();
      var prevhash := account.codeHash.value;
      ghost var u := StateJournal.Code(address, prevcode, prevhash);
      db.append(CodeChange(address, prevcode, prevhash));
      setCode(codeHash, c);
      db.Record(u);
      db.LiveIf(this);
      CodeUndo(db.store, address, v, codeHash, View().code);
      db.AccountRecorded(this, CodeChange(address, v.code, v.codeHash), u);
    }

    method SetState(key: Word, value: Word)
      requires db.Valid() && db.Live(this)
      modifies `trie, `cachedStorage, `dirtyStorage, db`entries, db`dirties, db`saved, db`undo
      ensures db.Valid() && db.Live(this) && View() == old(View()).(storage := old(View()).storage[key := value])
      ensures db.Now() == Put(old(db.Now()), address, Some(View())) && old(db.saved) <= db.saved
    {
      hide *;
      db.ValidIs();
      db.LiveIs(this);
      ViewIs();
      ghost var v := View();
      var prevalue := GetState(key);
      ViewIs();
      ghost var u := StateJournal.Slot(address, key, prevalue);
      db.append(StorageChange(address, key, prevalue));
      setState(key, value);
      db.Record(u);
      db.LiveIf(this);
      SlotUndo(db.store, address, v, key, value);
      db.AccountRecorded(this, StorageChange(address, key, prevalue), u);
    }

    /** Zero is added only to mark an empty account as touched. */
    method AddBalance(amount: int)
      requires db.Valid() && db.Live(this)
      modifies `account, db`entries, db`dirties, db`saved, db`undo, db`marks
      ensures db.Valid() && db.Live(this) && View() == old(View()).(balance := old(View()).balance + amount)
      ensures db.Now() == Put(old(db.Now()), address, Some(View())) && old(db.saved) <= db.saved
    {
      hide *;
      db.ValidIs();
      db.LiveIs(this);
      ViewIs();
      if amount == 0 {
        TouchBack(db.Now(), address, View());
        if empty() {
          touch();
        }
        return;
      }
      SetBalance(account.balance + amount);
    }

    method SubBalance(amount: int)
      requires db.Valid() && db.Live(this)
      modifies `account, db`entries, db`dirties, db`saved, db`undo
      ensures db.Valid() && db.Live(this) && View() == old(View()).(balance := old(View()).balance - amount)
      ensures db.Now() == Put(old(db.Now()), address, Some(View())) && old(db.saved) <= db.saved
    {
      hide *;
      db.ValidIs();
      db.LiveIs(this);
      ViewIs();
      if amount == 0 {
        TouchBack(db.Now(), address, View());
        return;
      }
      SetBalance(account.balance - amount);
    }

    /** Marks the account as touched. The exceptional precompile gets a mark that no revert takes back. */
    method touch()
      requires db.Valid() && db.Live(this)
      modifies db`entries, db`dirties, db`saved, db`undo, db`marks
      ensures db.Valid() && db.Live(this) && db.Now() == old(db.Now()) && old(db.saved) <= db.saved
    {
      hide *;
      db.ValidIs();
      db.LiveIs(this);
      db.append(TouchChange(address));
      db.Record(Touch(address));
      db.LiveIf(this);
      TouchBack(old(db.Now()), address, View());
      db.TouchMatches(address);
      db.Recorded(this, TouchChange(address), Touch(address));
      if address == RIPEMD {
        // One more mark, with no journal entry behind it.
        db.dirty();
      }
    }

    lemma HashIs()
      requires Consistent()
      ensures account.codeHash.Some? && View().codeHash == account.codeHash.value
      ensures CodeKept(db.store, View().code, View().codeHash)
    {
    }
  }

  /** The state journal's entries. */
  datatype Change =
    | CreateObjectChange(account: Address)
    | ResetObjectChange(prev: StateObject)
    | SuicideChange(account: Address, was: bool, prevBalance: int)
    | BalanceChange(account: Address, prevBalance: int)
    | NonceChange(account: Address, prevNonce: nat)
    | StorageChange(account: Address, key: Word, prevValue: Word)
    | CodeChange(account: Address, prevCode: Option<bytes>, prevHash: Word)
    | RefundChange(prevRefund: nat)
    | AddLogChange(txHash: Word)
    | AddPreimageChange(hash: Word)
    | TouchChange(account: Address)

  /** The address an entry marks as dirty. */
  function Dirty(c: Change): Option<Address> {
    match c
    case ResetObjectChange(_) => None
    case RefundChange(_) => None
    case AddLogChange(_) => None
    case AddPreimageChange(_) => None
    case _ => Some(c.account)
  }

  /** What an entry other than a reset remembers. */
  function Plain(c: Change): Undo
    requires !c.ResetObjectChange?
  {
    match c
    case CreateObjectChange(a) => Drop(a)
    case SuicideChange(a, was, b) => Unsuicide(a, was, b)
    case BalanceChange(a, b) => Balance(a, b)
    case NonceChange(a, n) => Nonce(a, n)
    case StorageChange(a, k, v) => Slot(a, k, v)
    case CodeChange(a, c, h) => Code(a, c, h)
    case RefundChange(r) => Refund(r)
    case AddLogChange(t) => DropLog(t)
    case AddPreimageChange(h) => DropPreimage(h)
    case TouchChange(a) => Touch(a)
  }

  /** Code remembered as absent cannot be loaded by its hash either. */
  predicate CodeKept(store: Store, code: Option<bytes>, codeHash: Word) {
    code == None ==> LoadCode(store, codeHash) == None
  }

  /** The entry records a change of account `a`. */
  predicate Changes(store: Store, c: Change, u: Undo, a: Address) {
    !c.ResetObjectChange? && !c.CreateObjectChange? && u == Plain(c) && About(u, a) && (c.CodeChange? ==> CodeKept(store, c.prevCode, c.prevHash))
  }

  lemma BalanceUndo(store: Store, a: Address, v: AbsAccount, amount: int)
    ensures Changes(store, BalanceChange(a, v.balance), Balance(a, v.balance), a)
    ensures Undone(v.(balance := amount), Balance(a, v.balance)) == v
  {
  }

  lemma NonceUndo(store: Store, a: Address, v: AbsAccount, nonce: nat)
    ensures Changes(store, NonceChange(a, v.nonce), Nonce(a, v.nonce), a)
    ensures Undone(v.(nonce := nonce), Nonce(a, v.nonce)) == v
  {
  }

  lemma CodeUndo(store: Store, a: Address, v: AbsAccount, codeHash: Word, c: Option<bytes>)
    requires CodeKept(store, v.code, v.codeHash)
    ensures Changes(store, CodeChange(a, v.code, v.codeHash), Code(a, v.code, v.codeHash), a)
    ensures Undone(v.(codeHash := codeHash, code := c), Code(a, v.code, v.codeHash)) == v
  {
  }

  lemma SlotUndo(store: Store, a: Address, v: AbsAccount, key: Word, value: Word)
    requires key in v.storage
    ensures Changes(store, StorageChange(a, key, v.storage[key]), Slot(a, key, v.storage[key]), a)
    ensures Undone(v.(storage := v.storage[key := value]), Slot(a, key, v.storage[key])) == v
  {
    SlotBack(v, key, value);
  }

  lemma SuicideUndo(store: Store, a: Address, v: AbsAccount)
    ensures Changes(store, SuicideChange(a, v.suicided, v.balance), Unsuicide(a, v.suicided, v.balance), a)
    ensures Undone(v.(suicided := true, balance := 0), Unsuicide(a, v.suicided, v.balance)) == v
  {
  }

  /** What a caller can do to the state. */
  datatype Op =
    | OpAddBalance(a: Address, amount: int)
    | OpSubBalance(a: Address, amount: int)
    | OpSetBalance(a: Address, amount: int)
    | OpSetNonce(a: Address, nonce: nat)
    | OpSetCode(a: Address, code: bytes)
    | OpSetState(a: Address, key: Word, value: Word)
    | OpSuicide(a: Address)
    | OpCreateAccount(a: Address)
    | OpAddRefund(gas: nat)
    | OpAddLog(data: bytes)
    | OpAddPreimage(hash: Word, preimage: bytes)
    | OpPrepare(th: Word, bh: Word, ti: nat)
    | OpGetCode(a: Address)
    | OpGetState(a: Address, key: Word)
    | OpSnapshot
    | OpRevert(id: nat)

  class StateDB {
    const store: Store
    var stateObjects: map<Address, StateObject>
    var stateObjectsDirty: set<Address>
    var refund: nat
    var thash: Word
    var bhash: Word
    var txIndex: nat
    var logs: map<Word, seq<Log>>
    var logSize: nat
    var preimages: map<Word, bytes>
    // the journal
    var entries: seq<Change>
    var dirties: map<Address, nat>
    var validRevisions: seq<Revision>
    var nextRevisionId: nat

    ghost var repr: set<StateObject>
    /** What the getters showed when the journal had 0, 1, 2, ... entries. */
    ghost var saved: seq<Abs>
    /** What undoing each entry does to what the getters show. */
    ghost var undo: seq<Undo>
    /** How often the exceptional precompile has been marked dirty. */
    ghost var marks: nat

    // ---- what the state is ----

    ghost predicate Holds(a: Address, o: StateObject)
      reads o
    {
      o.db == this && o.address == a && o.Consistent() && (o.deleted ==> a !in store.trie)
    }

    /** Live objects are held under their addresses; objects put aside by a reset are not live. */
    ghost predicate Owned()
      reads `stateObjects, `repr, `entries, repr
    {
      && Sane(store)
      && (forall a :: a in stateObjects ==> stateObjects[a] in repr && Holds(a, stateObjects[a]))
      && (forall i :: 0 <= i < |entries| && entries[i].ResetObjectChange? ==> Aside(entries[i].prev))
      && (forall i, j :: 0 <= i < j < |entries| && entries[i].ResetObjectChange? && entries[j].ResetObjectChange? ==>
            entries[i].prev != entries[j].prev)
    }

    ghost predicate Aside(o: StateObject)
      reads `stateObjects, `repr, repr
    {
      && o in repr && Holds(o.address, o) && !o.deleted
      && (o.address in stateObjects ==> stateObjects[o.address] != o)
    }

    ghost predicate Matches(c: Change, u: Undo)
      reads if c.ResetObjectChange? then {c.prev} else {}
    {
      if c.ResetObjectChange? then u == Restore(c.prev.address, c.prev.View())
      else u == Plain(c) && (c.CreateObjectChange? ==> c.account !in store.trie)
           && (c.CodeChange? ==> CodeKept(store, c.prevCode, c.prevHash))
    }

    ghost predicate Matching()
      reads `entries, `undo, set c | c in entries && c.ResetObjectChange? :: c.prev
    {
      |undo| == |entries| && forall i :: 0 <= i < |entries| ==> Matches(entries[i], undo[i])
    }

    /** What the getters show of an account. */
    ghost function View(a: Address): Option<AbsAccount>
      reads `stateObjects, stateObjects.Values
    {
      if a in stateObjects then if stateObjects[a].deleted then None else Some(stateObjects[a].View())
      else if a in store.trie then Some(Loaded(store, store.trie[a]))
      else None
    }

    ghost function Now(): Abs
      reads `stateObjects, `refund, `logs, `logSize, `preimages, stateObjects.Values
    {
      Abs(imap a: Address | true :: View(a), refund, logs, logSize, preimages)
    }

    /** Everything but the revisions, which a revert puts right at its end. */
    ghost predicate Sound()
      reads this, repr
    {
      && Owned() && Matching()
      && History(saved, undo, Now())
      && Tracked(dirties, AllDirty(undo), marks)
      && NoEmptyLogs(logs)
    }

    ghost predicate Valid()
      reads this, repr
    {
      Sound() && Revisions(validRevisions, nextRevisionId, |entries|)
    }

    constructor (store: Store)
      requires Sane(store)
      ensures Valid() && this.store == store && fresh(repr)
      ensures entries == [] && validRevisions == [] && refund == 0 && logs == map[] && logSize == 0 && preimages == map[]
      ensures forall a :: View(a) == if a in store.trie then Some(Loaded(store, store.trie[a])) else None
      ensures forall a :: a in store.trie ==> Shows(store, store.trie[a], View(a).value)
    {
      this.store := store;
      stateObjects, stateObjectsDirty := map[], {};
      refund, thash, bhash, txIndex, logs, logSize, preimages := 0, ZERO, ZERO, 0, map[], 0, map[];
      entries, dirties, validRevisions, nextRevisionId := [], map[], [], 0;
      repr, undo, marks := {}, [], 0;
      new;
      saved := [Now()];
      forall a | a in store.trie
        ensures Shows(store, store.trie[a], Loaded(store, store.trie[a]))
      {
        LoadedShows(store, store.trie[a]);
      }
      hide Loaded, Shows;
    }

    /** The object stands for its address. */
    ghost predicate Live(o: StateObject)
      reads `stateObjects, `repr, o
    {
      o in repr && o.address in stateObjects && stateObjects[o.address] == o && !o.deleted
    }

    // ---- journalling ----

    method append(entry: Change)
      modifies `entries, `dirties
      ensures entries == old(entries) + [entry] && dirties == Dirtied(old(dirties), Dirty(entry))
    {
      entries := entries + [entry];
      var addr := Dirty(entry);
      if addr.Some? {
        dirties := dirties[addr.value := (if addr.value in dirties then dirties[addr.value] else 0) + 1];
      }
    }

    /** Marks the exceptional precompile dirty without an entry. */
    method dirty()
      requires Valid()
      modifies `dirties, `marks
      ensures Valid()
    {
      hide *;
      ValidIs();
      TrackedMark(dirties, AllDirty(undo), marks);
      DirtiedBy(dirties, RIPEMD);
      dirties := dirties[RIPEMD := (if RIPEMD in dirties then dirties[RIPEMD] else 0) + 1];
      marks := marks + 1;
      ValidIs();
    }

    ghost method Record(u: Undo)
      modifies `saved, `undo
      ensures saved == old(saved) + [Now()] && undo == old(undo) + [u]
    {
      saved, undo := saved + [Now()], undo + [u];
    }

    lemma LiveIf(o: StateObject)
      ensures Live(o) <==> o in repr && o.address in stateObjects && stateObjects[o.address] == o && !o.deleted
    {
    }

    lemma LiveIs(o: StateObject)
      requires Sound() && Live(o)
      ensures o in repr && o.address in stateObjects && stateObjects[o.address] == o && !o.deleted
      ensures o.address in Now().accounts
      ensures o.db == this && o.Consistent() && Sane(store) && View(o.address) == Some(o.View())
      ensures Now().accounts[o.address] == Some(o.View())
    {
    }

    /** Changing a live object changes what its address shows, and nothing else. */
    twostate lemma OneChanged(o: StateObject)
      requires old(Owned()) && old(Live(o)) && Live(o)
      requires stateObjects == old(stateObjects) && repr == old(repr)
      requires forall x :: x in old(repr) && x != o ==> unchanged(x)
      ensures forall a: Address :: View(a) == if a == o.address then Some(o.View()) else old(View(a))
    {
      forall a: Address | a in stateObjects && a != o.address
        ensures View(a) == old(View(a))
      {
        assert stateObjects[a] != o;
      }
    }

    twostate lemma StillOwned(o: StateObject, new c: Change)
      requires old(Owned()) && old(Live(o)) && Live(o) && o.Consistent()
      requires stateObjects == old(stateObjects) && repr == old(repr)
      requires forall x :: x in old(repr) && x != o ==> unchanged(x)
      requires entries == old(entries) + [c] && !c.ResetObjectChange?
      ensures Owned()
    {
      forall a | a in stateObjects
        ensures stateObjects[a] in repr && Holds(a, stateObjects[a])
      {
        if a != o.address {
          assert old(Holds(a, stateObjects[a]));
        }
      }
      forall i | 0 <= i < |entries| && entries[i].ResetObjectChange?
        ensures Aside(entries[i].prev) && entries[i] == old(entries[i])
      {
        assert old(Aside(entries[i].prev));
      }
    }

    twostate lemma StillOwnedAndMatching(o: StateObject)
      requires old(Owned()) && old(Matching()) && old(Live(o)) && Live(o) && o.Consistent()
      requires stateObjects == old(stateObjects) && repr == old(repr)
      requires forall x :: x in old(repr) && x != o ==> unchanged(x)
      requires entries == old(entries) && undo == old(undo)
      ensures Owned() && Matching()
    {
      forall a | a in stateObjects
        ensures stateObjects[a] in repr && Holds(a, stateObjects[a])
      {
        if a != o.address {
          assert old(Holds(a, stateObjects[a]));
        }
      }
      forall i | 0 <= i < |entries|
        ensures entries[i].ResetObjectChange? ==> Aside(entries[i].prev)
        ensures Matches(entries[i], undo[i])
      {
        assert old(Matches(entries[i], undo[i]));
        if entries[i].ResetObjectChange? {
          assert old(Aside(entries[i].prev));
        }
      }
    }

    twostate lemma StillMatching(o: StateObject, new c: Change, new u: Undo)
      requires old(Owned()) && old(Live(o)) && Live(o) && o.Consistent()
      requires stateObjects == old(stateObjects) && repr == old(repr)
      requires forall x :: x in old(repr) && x != o ==> unchanged(x)
      requires old(Matching()) && entries == old(entries) + [c] && undo == old(undo) + [u] && !c.ResetObjectChange? && Matches(c, u)
      ensures Matching()
    {
      forall i | 0 <= i < |old(entries)|
        ensures Matches(entries[i], undo[i])
      {
        assert old(Matches(entries[i], undo[i]));
        if entries[i].ResetObjectChange? {
          assert old(Aside(entries[i].prev));
        }
      }
    }

    lemma ValidIs()
      ensures Valid() <==> Sound() && Revisions(validRevisions, nextRevisionId, |entries|)
      ensures Sound() <==>
                && Owned() && Matching()
                && History(saved, undo, Now())
                && Tracked(dirties, AllDirty(undo), marks)
                && NoEmptyLogs(logs)
    {
    }

    /** One live object has changed, and the journal has an entry for it. */
    twostate lemma Recorded(o: StateObject, new c: Change, new u: Undo)
      requires old(Valid()) && old(Live(o)) && Live(o) && o.Consistent()
      requires stateObjects == old(stateObjects) && repr == old(repr)
      requires forall x :: x in old(repr) && x != o ==> unchanged(x)
      requires refund == old(refund) && logs == old(logs) && logSize == old(logSize) && preimages == old(preimages)
      requires validRevisions == old(validRevisions) && nextRevisionId == old(nextRevisionId) && marks == old(marks)
      requires entries == old(entries) + [c] && dirties == Dirtied(old(dirties), Dirty(c))
      requires saved == old(saved) + [Now()] && undo == old(undo) + [u]
      requires !c.ResetObjectChange? && Matches(c, u)
      requires var next := Put(old(Now()), o.address, Some(o.View()));
               Applicable(next, u) && Reverted(next, u) == old(Now())
      ensures Valid() && Now() == Put(old(Now()), o.address, Some(o.View()))
    {
      hide Owned, Matching, History, Tracked, Revisions, NoEmptyLogs, Reverted, Applicable, AllDirty, Live, Holds, Matches, Put, Dirtied, Dirty, DirtyBy, Plain;
      StillOwned(o, c);
      StillMatching(o, c, u);
      ghost var next := Put(old(Now()), o.address, Some(o.View()));
      NowChanged(o);
      HistoryNext(old(saved), old(undo), old(Now()), u, next);
      TrackedNext(old(dirties), AllDirty(old(undo)), marks, Dirty(c));
      AllDirtyNext(old(undo), u);
      DirtyIs(c, u);
      RevisionsMore(validRevisions, nextRevisionId, |old(entries)|, |entries|);
    }

    /** A journalled change of one account. */
    twostate lemma AccountRecorded(o: StateObject, new c: Change, new u: Undo)
      requires old(Valid()) && old(Live(o)) && Live(o) && o.Consistent()
      requires stateObjects == old(stateObjects) && repr == old(repr)
      requires forall x :: x in old(repr) && x != o ==> unchanged(x)
      requires refund == old(refund) && logs == old(logs) && logSize == old(logSize) && preimages == old(preimages)
      requires validRevisions == old(validRevisions) && nextRevisionId == old(nextRevisionId) && marks == old(marks)
      requires entries == old(entries) + [c] && dirties == Dirtied(old(dirties), Dirty(c))
      requires saved == old(saved) + [Now()] && undo == old(undo) + [u]
      requires o.address in old(Now()).accounts && old(Now()).accounts[o.address] == Some(old(o.View()))
      requires Changes(store, c, u, o.address) && Undone(o.View(), u) == old(o.View())
      ensures Valid() && Now() == Put(old(Now()), o.address, Some(o.View())) && old(saved) <= saved
    {
      ChangesMatch(c, u, o.address);
      hide *;
      AccountBack(old(Now()), o.address, old(o.View()), o.View(), u);
      Recorded(o, c, u);
    }

    lemma DirtyIs(c: Change, u: Undo)
      requires Matches(c, u)
      ensures Dirty(c) == DirtyBy(u)
    {
    }

    lemma ChangesMatch(c: Change, u: Undo, a: Address)
      requires Changes(store, c, u, a)
      ensures !c.ResetObjectChange? && Matches(c, u) && About(u, a)
    {
    }

    lemma TouchMatches(a: Address)
      ensures Matches(TouchChange(a), Touch(a))
    {
    }

    twostate lemma NowChanged(o: StateObject)
      requires old(Owned()) && old(Live(o)) && Live(o)
      requires stateObjects == old(stateObjects) && repr == old(repr)
      requires forall x :: x in old(repr) && x != o ==> unchanged(x)
      requires refund == old(refund) && logs == old(logs) && logSize == old(logSize) && preimages == old(preimages)
      ensures Now() == Put(old(Now()), o.address, Some(o.View()))
    {
      OneChanged(o);
      assert Now().accounts == Put(old(Now()), o.address, Some(o.View())).accounts;
    }

    // ---- looking up and creating ----

    /** Loading an object changes nothing that the getters show. */
    twostate lemma Loads(new o: StateObject)
      requires old(Owned()) && o.db == this && o.address in store.trie && o.address !in old(stateObjects) && !o.deleted && o.Consistent()
      requires o !in old(repr) && o.View() == Loaded(store, store.trie[o.address])
      requires stateObjects == old(stateObjects)[o.address := o] && repr == old(repr) + {o} && entries == old(entries)
      requires forall x :: x in old(repr) ==> unchanged(x)
      requires refund == old(refund) && logs == old(logs) && logSize == old(logSize) && preimages == old(preimages)
      ensures Owned() && Now() == old(Now())
      ensures old(Matching()) && undo == old(undo) ==> Matching()
    {
      forall a | a in stateObjects
        ensures stateObjects[a] in repr && Holds(a, stateObjects[a])
      {
        if a != o.address {
          assert old(Holds(a, stateObjects[a]));
        }
      }
      forall i | 0 <= i < |entries| && entries[i].ResetObjectChange?
        ensures Aside(entries[i].prev) && entries[i].prev in old(repr)
      {
        assert old(Aside(entries[i].prev));
      }
      forall a: Address ensures View(a) == old(View(a)) {
      }
      assert Now().accounts == old(Now()).accounts;
    }

    method getStateObject(addr: Address) returns (o: StateObject?)
      requires Sound()
      modifies `stateObjects, `repr
      ensures Sound() && Now() == old(Now()) && addr in Now().accounts
      ensures o == null <==> Now().accounts[addr] == None
      ensures o != null ==> Live(o) && o in repr && o.address == addr && Now().accounts[addr] == Some(o.View())
      ensures old(repr) <= repr && fresh(repr - old(repr))
    {
      hide *;
      ValidIs();
      ViewAt(addr);
      if addr in stateObjects {
        var obj := stateObjects[addr];
        LiveIf(obj);
        if obj.deleted {
          return null;
        }
        return obj;
      }
      if addr !in store.trie {
        return null;
      }
      var obj := new StateObject(this, addr, store.trie[addr]);
      stateObjects := stateObjects[addr := obj];
      repr := repr + {obj};
      Loads(obj);
      ValidIs();
      LiveIf(obj);
      ViewAt(addr);
      return obj;
    }

    lemma ViewAt(a: Address)
      requires Owned()
      ensures a in Now().accounts && Sane(store)
      ensures a in stateObjects ==> stateObjects[a] in repr && stateObjects[a].address == a
      ensures Now().accounts[a] ==
              if a in stateObjects then if stateObjects[a].deleted then None else Some(stateObjects[a].View())
              else if a in store.trie then Some(Loaded(store, store.trie[a]))
              else None
      ensures Now().accounts[a] == None ==> a !in store.trie
    {
    }

    /** An account that has not been touched shows what the store has. */
    lemma UntouchedAt(a: Address)
      requires Owned()
      ensures a in Now().accounts
      ensures a !in stateObjects && a !in store.trie ==> Now().accounts[a] == None
      ensures a !in stateObjects && a in store.trie ==> Now().accounts[a].Some? && Shows(store, store.trie[a], Now().accounts[a].value)
    {
      ViewAt(a);
      if a in store.trie {
        LoadedShows(store, store.trie[a]);
      }
      hide Loaded, Shows, Owned, View;
    }

    lemma ShowsIs(acc: Account, v: AbsAccount)
      requires Shows(store, acc, v)
      ensures v.balance == acc.balance && v.nonce == 0 && !v.suicided
      ensures v.codeHash == if acc.codeHash.Some? then acc.codeHash.value else store.newHash([])
      ensures v.code == if v.codeHash != store.newHash([]) && v.codeHash in store.codes then Some(store.codes[v.codeHash]) else None
      ensures forall k: Word :: k in v.storage && Stored(store, acc.root, k, v.storage[k])
    {
    }

    /** A new object for an address: what the other store knows of it, or an empty account if the address is known. */
    ghost function Fresh(a: Address, known: bool): AbsAccount {
      Loaded(store, if !known && a in store.badger then store.badger[a] else Account(0, 0, ZERO, None))
    }

    /** The journal after an entry for a new object. */
    twostate lemma Created(new o: StateObject, new c: Change, new u: Undo)
      requires old(Valid()) && o.db == this && !o.deleted && o.Consistent() && o !in old(repr)
      requires stateObjects == old(stateObjects)[o.address := o] && repr == old(repr) + {o}
      requires forall x :: x in old(repr) ==> unchanged(x)
      requires refund == old(refund) && logs == old(logs) && logSize == old(logSize) && preimages == old(preimages)
      requires validRevisions == old(validRevisions) && nextRevisionId == old(nextRevisionId) && marks == old(marks)
      requires entries == old(entries) + [c] && dirties == Dirtied(old(dirties), Dirty(c))
      requires saved == old(saved) + [Now()] && undo == old(undo) + [u]
      requires o.address in old(Now()).accounts
      requires if old(Now()).accounts[o.address] == None then c == CreateObjectChange(o.address) && u == Drop(o.address)
               else && o.address in old(stateObjects) && c == ResetObjectChange(old(stateObjects)[o.address]) && !c.prev.deleted
                    && u == Restore(o.address, old(Now()).accounts[o.address].value)
      ensures Valid() && Now() == Put(old(Now()), o.address, Some(o.View())) && Live(o)
    {
      hide Owned, Matching, History, Tracked, Revisions, NoEmptyLogs, Reverted, Applicable, AllDirty, Holds, Matches, Put, Dirtied, Dirty, DirtyBy, Plain, View;
      CreatedOwned(o, c);
      CreatedMatching(o, c, u);
      CreatedNow(o);
      ghost var next := Put(old(Now()), o.address, Some(o.View()));
      CreateBack(old(Now()), o.address, o.View());
      CreatedApplicable(next, u);
      HistoryNext(old(saved), old(undo), old(Now()), u, next);
      TrackedNext(old(dirties), AllDirty(old(undo)), marks, Dirty(c));
      AllDirtyNext(old(undo), u);
      DirtyIs(c, u);
      RevisionsMore(validRevisions, nextRevisionId, |old(entries)|, |entries|);
    }

    lemma CreatedApplicable(s: Abs, u: Undo)
      requires u.Drop? || u.Restore?
      ensures Applicable(s, u)
    {
    }

    twostate lemma CreatedOwned(new o: StateObject, new c: Change)
      requires old(Owned()) && o.db == this && !o.deleted && o.Consistent() && o !in old(repr)
      requires stateObjects == old(stateObjects)[o.address := o] && repr == old(repr) + {o}
      requires forall x :: x in old(repr) ==> unchanged(x)
      requires entries == old(entries) + [c]
      requires c.ResetObjectChange? ==> o.address in old(stateObjects) && c.prev == old(stateObjects)[o.address] && !c.prev.deleted
      ensures Owned()
    {
      forall a | a in stateObjects
        ensures stateObjects[a] in repr && Holds(a, stateObjects[a])
      {
        if a != o.address {
          assert old(Holds(a, stateObjects[a]));
        }
      }
      forall i | 0 <= i < |entries| && entries[i].ResetObjectChange?
        ensures Aside(entries[i].prev)
        ensures i < |old(entries)| ==> entries[i] == old(entries)[i] && (c.ResetObjectChange? ==> entries[i].prev != c.prev)
      {
        if i < |old(entries)| {
          assert old(Aside(entries[i].prev));
        } else {
          var at := o.address;
          assert old(Holds(at, stateObjects[at]));
        }
      }
    }

    twostate lemma CreatedMatching(new o: StateObject, new c: Change, new u: Undo)
      requires old(Owned()) && old(Matching()) && o.address in old(Now()).accounts
      requires forall x :: x in old(repr) ==> unchanged(x)
      requires entries == old(entries) + [c] && undo == old(undo) + [u]
      requires if old(Now()).accounts[o.address] == None then c == CreateObjectChange(o.address) && u == Drop(o.address)
               else && o.address in old(stateObjects) && c == ResetObjectChange(old(stateObjects)[o.address])
                    && u == Restore(o.address, old(Now()).accounts[o.address].value)
      ensures Matching() && Matches(c, u)
    {
      forall i | 0 <= i < |old(entries)|
        ensures Matches(entries[i], undo[i])
      {
        assert old(Matches(entries[i], undo[i]));
        if entries[i].ResetObjectChange? {
          assert old(Aside(entries[i].prev));
        }
      }
      var at := o.address;
      assert old(View(at)) == old(Now()).accounts[at];
      if c.ResetObjectChange? {
        assert old(Holds(at, stateObjects[at]));
      }
    }

    twostate lemma CreatedNow(new o: StateObject)
      requires old(Owned()) && !o.deleted && o !in old(repr)
      requires stateObjects == old(stateObjects)[o.address := o] && repr == old(repr) + {o}
      requires forall x :: x in old(repr) ==> unchanged(x)
      requires refund == old(refund) && logs == old(logs) && logSize == old(logSize) && preimages == old(preimages)
      ensures Now() == Put(old(Now()), o.address, Some(o.View()))
    {
      forall a: Address ensures View(a) == if a == o.address then Some(o.View()) else old(View(a)) {
      }
      assert Now().accounts == Put(old(Now()), o.address, Some(o.View())).accounts;
    }

    /** Puts a new object in the place of whatever is there; the journal keeps what was there. */
    method createObject(addr: Address) returns (newobj: StateObject, prev: StateObject?)
      requires Valid()
      modifies `stateObjects, `repr, `entries, `dirties, `saved, `undo
      ensures Valid() && Live(newobj) && newobj.address == addr && fresh(newobj)
      ensures addr in old(Now()).accounts && (prev == null <==> old(Now()).accounts[addr] == None)
      ensures newobj.View() == Fresh(addr, prev != null)
      ensures Shows(store, if prev == null && addr in store.badger then store.badger[addr] else Account(0, 0, ZERO, None), newobj.View())
      ensures prev != null ==> prev in repr && prev != newobj && old(Now()).accounts[addr] == Some(prev.View())
      ensures Now() == Put(old(Now()), addr, Some(newobj.View())) && old(saved) <= saved
      ensures Replaces(undo, addr) && |saved| > |old(saved)|
      ensures old(repr) <= repr && fresh(repr - old(repr))
    {
      hide *;
      ValidIs();
      prev := getStateObject(addr);
      ValidIs();
      var account := Account(0, 0, ZERO, None);
      if prev == null {
        if addr in store.badger {
          account := store.badger[addr];
        }
      }
      if prev != null {
        LiveIf(prev);
      }
      newobj := new StateObject(this, addr, account);
      SaneIs();
      register(newobj, prev);
      FreshIs(addr, prev != null);
      LoadedShows(store, account);
    }

    lemma SaneIs()
      requires Owned()
      ensures Sane(store)
    {
    }

    lemma FreshIs(a: Address, known: bool)
      ensures Fresh(a, known) == Loaded(store, if !known && a in store.badger then store.badger[a] else Account(0, 0, ZERO, None))
    {
    }

    /** Puts a new object in its place, with a journal entry for that. */
    method register(newobj: StateObject, prev: StateObject?)
      requires Valid() && newobj !in repr && newobj.db == this && !newobj.deleted && newobj.Consistent()
      requires newobj.address in Now().accounts && (prev == null <==> Now().accounts[newobj.address] == None)
      requires prev != null ==> Live(prev) && prev.address == newobj.address && Now().accounts[prev.address] == Some(prev.View())
      modifies `stateObjects, `repr, `entries, `dirties, `saved, `undo
      ensures Valid() && Live(newobj) && Now() == Put(old(Now()), newobj.address, Some(newobj.View()))
      ensures Replaces(undo, newobj.address) && old(saved) < saved && repr == old(repr) + {newobj}
    {
      hide *;
      ValidIs();
      ViewAt(newobj.address);
      if prev != null {
        LiveIf(prev);
      }
      var entry := if prev == null then CreateObjectChange(newobj.address) else ResetObjectChange(prev);
      ghost var u := if prev == null then Drop(newobj.address) else Restore(newobj.address, prev.View());
      append(entry);
      stateObjects := stateObjects[newobj.address := newobj];
      repr := repr + {newobj};
      Record(u);
      Created(newobj, entry, u);
      ReplacesIs(undo, u);
    }

    /** Retrieves the object of an address, or creates one. */
    method GetOrNewStateObject(addr: Address) returns (o: StateObject)
      requires Valid()
      modifies `stateObjects, `repr, `entries, `dirties, `saved, `undo
      ensures Valid() && Live(o) && o in repr && o.address == addr && o.db == this && addr in old(Now()).accounts
      ensures o.View() == Base(old(Now()), addr)
      ensures Now() == Put(old(Now()), addr, Some(o.View())) && old(saved) <= saved
      ensures old(repr) <= repr && fresh(repr - old(repr))
    {
      hide *;
      ValidIs();
      var obj := getStateObject(addr);
      ValidIs();
      BaseIs(Now(), addr);
      if obj == null {
        var prev;
        o, prev := createObject(addr);
      } else {
        o := obj;
        TouchBack(Now(), addr, o.View());
      }
      ValidIs();
      LiveIs(o);
    }

    /** The account a setter works on: a fresh one if there is none. */
    ghost function Base(s: Abs, a: Address): AbsAccount {
      if At(s, a).Some? then At(s, a).value else Fresh(a, false)
    }

    lemma BaseIs(s: Abs, a: Address)
      requires a in s.accounts
      ensures Base(s, a) == if s.accounts[a].Some? then s.accounts[a].value else Fresh(a, false)
    {
    }

    /** Creates an account anew; the balance of an existing one is carried over. */
    method CreateAccount(addr: Address)
      requires Valid()
      modifies `stateObjects, `repr, `entries, `dirties, `saved, `undo
      ensures Valid() && old(saved) <= saved && old(repr) <= repr && fresh(repr - old(repr))
      ensures addr in old(Now()).accounts
      ensures var prev := old(Now()).accounts[addr];
              Now() == Put(old(Now()), addr, Some(if prev == None then Fresh(addr, false) else Fresh(addr, true).(balance := prev.value.balance)))
    {
      hide *;
      var newobj, prev := createObject(addr);
      if prev != null {
        ghost var s1, v := Now(), newobj.View();
        prev.ViewIs();
        ValidIs();
        LiveIs(newobj);
        CarryBalance(newobj, prev.account.balance);
        PutPut(old(Now()), addr, Some(v), Some(newobj.View()));
      }
    }

    /** Changes the balance of an object just created: its entry already says how to undo that. */
    method CarryBalance(o: StateObject, amount: int)
      requires Valid() && Live(o) && Replaces(undo, o.address)
      modifies o`account, `saved
      ensures Valid() && o.View() == old(o.View()).(balance := amount) && Now() == Put(old(Now()), o.address, Some(o.View()))
      ensures |saved| == |old(saved)| == |undo| + 1 && old(saved)[..|undo|] == saved[..|undo|]
    {
      hide *;
      ValidIs();
      LiveIs(o);
      ValidIs();
      o.setBalance(amount);
      LiveIf(o);
      StillOwnedAndMatching(o);
      HistoryAmend(saved, undo, old(Now()), o.address, Some(o.View()));
      HistoryLength(saved, undo, old(Now()));
      saved := saved[..|undo|] + [Now()];
      NowChanged(o);
      ValidIs();
    }

    // ---- setters ----

    /** Adds to the balance of an account. */
    method AddBalance(addr: Address, amount: int)
      requires Valid()
      modifies `stateObjects, `repr, `entries, `dirties, `saved, `undo, `marks, repr
      ensures Valid() && old(saved) <= saved && old(repr) <= repr && fresh(repr - old(repr))
      ensures Now() == Put(old(Now()), addr, Some(Base(old(Now()), addr).(balance := Base(old(Now()), addr).balance + amount)))
    {
      hide *;
      var o := GetOrNewStateObject(addr);
      ghost var v := o.View();
      o.AddBalance(amount);
      PutPut(old(Now()), addr, Some(v), Some(o.View()));
    }

    /** Takes from the balance of an account. */
    method SubBalance(addr: Address, amount: int)
      requires Valid()
      modifies `stateObjects, `repr, `entries, `dirties, `saved, `undo, `marks, repr
      ensures Valid() && old(saved) <= saved && old(repr) <= repr && fresh(repr - old(repr))
      ensures Now() == Put(old(Now()), addr, Some(Base(old(Now()), addr).(balance := Base(old(Now()), addr).balance - amount)))
    {
      hide *;
      var o := GetOrNewStateObject(addr);
      ghost var v := o.View();
      o.SubBalance(amount);
      PutPut(old(Now()), addr, Some(v), Some(o.View()));
    }

    /** Sets the balance of an account. */
    method SetBalance(addr: Address, amount: int)
      requires Valid()
      modifies `stateObjects, `repr, `entries, `dirties, `saved, `undo, `marks, repr
      ensures Valid() && old(saved) <= saved && old(repr) <= repr && fresh(repr - old(repr))
      ensures Now() == Put(old(Now()), addr, Some(Base(old(Now()), addr).(balance := amount)))
    {
      hide *;
      var o := GetOrNewStateObject(addr);
      ghost var v := o.View();
      o.SetBalance(amount);
      PutPut(old(Now()), addr, Some(v), Some(o.View()));
    }

    /** Sets the nonce of an account. */
    method SetNonce(addr: Address, nonce: nat)
      requires Valid()
      modifies `stateObjects, `repr, `entries, `dirties, `saved, `undo, `marks, repr
      ensures Valid() && old(saved) <= saved && old(repr) <= repr && fresh(repr - old(repr))
      ensures Now() == Put(old(Now()), addr, Some(Base(old(Now()), addr).(nonce := nonce)))
    {
      hide *;
      var o := GetOrNewStateObject(addr);
      ghost var v := o.View();
      o.SetNonce(nonce);
      PutPut(old(Now()), addr, Some(v), Some(o.View()));
    }

    /** Sets the code of an account, and the hash of the code. */
    method SetCode(addr: Address, c: bytes)
      requires Valid()
      modifies `stateObjects, `repr, `entries, `dirties, `saved, `undo, `marks, repr
      ensures Valid() && old(saved) <= saved && old(repr) <= repr && fresh(repr - old(repr))
      ensures Now() == Put(old(Now()), addr, Some(Base(old(Now()), addr).(codeHash := store.newHash(c), code := Some(c))))
    {
      hide *;
      var o := GetOrNewStateObject(addr);
      ghost var v := o.View();
      o.SetCode(store.newHash(c), Some(c));
      PutPut(old(Now()), addr, Some(v), Some(o.View()));
    }

    /** Writes a storage slot of an account. */
    method SetState(addr: Address, key: Word, value: Word)
      requires Valid()
      modifies `stateObjects, `repr, `entries, `dirties, `saved, `undo, `marks, repr
      ensures Valid() && old(saved) <= saved && old(repr) <= repr && fresh(repr - old(repr))
      ensures Now() == Put(old(Now()), addr, Some(Base(old(Now()), addr).(storage := Base(old(Now()), addr).storage[key := value])))
    {
      hide *;
      var o := GetOrNewStateObject(addr);
      ghost var v := o.View();
      o.SetState(key, value);
      PutPut(old(Now()), addr, Some(v), Some(o.View()));
    }

    /** Marks an account as suicided and clears its balance. */
    method Suicide(addr: Address) returns (done: bool)
      requires Valid()
      modifies `stateObjects, `repr, `entries, `dirties, `saved, `undo, `marks, repr
      ensures Valid() && old(saved) <= saved && old(repr) <= repr && fresh(repr - old(repr)) && addr in old(Now()).accounts
      ensures done <==> old(Now()).accounts[addr].Some?
      ensures Now() == if done then Put(old(Now()), addr, Some(old(Now()).accounts[addr].value.(suicided := true, balance := 0))) else old(Now())
    {
      hide *;
      ValidIs();
      var o := getStateObject(addr);
      ValidIs();
      if o == null {
        return false;
      }
      markSuicided(o);
      return true;
    }

    method markSuicided(o: StateObject)
      requires Valid() && Live(o)
      modifies o`suicided, o`account, `entries, `dirties, `saved, `undo
      ensures Valid() && old(saved) <= saved && o.View() == old(o.View()).(suicided := true, balance := 0)
      ensures Now() == Put(old(Now()), o.address, Some(o.View()))
    {
      hide *;
      ValidIs();
      LiveIs(o);
      o.ViewIs();
      ghost var v, u := o.View(), Unsuicide(o.address, o.suicided, o.account.balance);
      append(SuicideChange(o.address, o.suicided, o.account.balance));
      o.kill();
      Record(u);
      LiveIf(o);
      SuicideUndo(store, o.address, v);
      AccountRecorded(o, SuicideChange(o.address, v.suicided, v.balance), u);
    }

    // ---- changes of other state ----

    /** A journalled change that concerns no account. */
    twostate lemma OtherRecorded(new c: Change, new u: Undo)
      requires old(Valid()) && stateObjects == old(stateObjects) && repr == old(repr)
      requires forall x :: x in old(repr) ==> unchanged(x)
      requires validRevisions == old(validRevisions) && nextRevisionId == old(nextRevisionId) && marks == old(marks)
      requires entries == old(entries) + [c] && dirties == Dirtied(old(dirties), Dirty(c))
      requires saved == old(saved) + [Now()] && undo == old(undo) + [u]
      requires !c.ResetObjectChange? && Matches(c, u) && NoEmptyLogs(logs)
      requires var next := old(Now()).(refund := refund, logs := logs, logSize := logSize, preimages := preimages);
               Applicable(next, u) && Reverted(next, u) == old(Now())
      ensures Valid() && Now() == old(Now()).(refund := refund, logs := logs, logSize := logSize, preimages := preimages)
    {
      hide Owned, Matching, History, Tracked, Revisions, NoEmptyLogs, Reverted, Applicable, AllDirty, Matches, Dirtied, Dirty, DirtyBy, View;
      SameObjects(c, u);
      ghost var next := old(Now()).(refund := refund, logs := logs, logSize := logSize, preimages := preimages);
      HistoryNext(old(saved), old(undo), old(Now()), u, next);
      TrackedNext(old(dirties), AllDirty(old(undo)), marks, Dirty(c));
      AllDirtyNext(old(undo), u);
      DirtyIs(c, u);
      RevisionsMore(validRevisions, nextRevisionId, |old(entries)|, |entries|);
    }

    twostate lemma SameObjects(new c: Change, new u: Undo)
      requires old(Owned()) && old(Matching()) && stateObjects == old(stateObjects) && repr == old(repr)
      requires forall x :: x in old(repr) ==> unchanged(x)
      requires entries == old(entries) + [c] && undo == old(undo) + [u] && !c.ResetObjectChange? && Matches(c, u)
      ensures Owned() && Matching() && Now().accounts == old(Now()).accounts
    {
      forall a | a in stateObjects
        ensures stateObjects[a] in repr && Holds(a, stateObjects[a])
      {
        assert old(Holds(a, stateObjects[a]));
      }
      forall i | 0 <= i < |old(entries)|
        ensures Matches(entries[i], undo[i])
        ensures entries[i].ResetObjectChange? ==> Aside(entries[i].prev)
      {
        assert old(Matches(entries[i], undo[i]));
        if entries[i].ResetObjectChange? {
          assert old(Aside(entries[i].prev));
        }
      }
      forall a: Address ensures View(a) == old(View(a)) {
      }
    }

    lemma OtherMatches(t: Word, r: nat)
      ensures Matches(RefundChange(r), Refund(r)) && Matches(AddLogChange(t), DropLog(t)) && Matches(AddPreimageChange(t), DropPreimage(t))
    {
    }

    lemma NowIs()
      ensures Now().refund == refund && Now().logs == logs && Now().logSize == logSize && Now().preimages == preimages
    {
    }

    method AddRefund(gas: nat)
      requires Valid()
      modifies `refund, `entries, `dirties, `saved, `undo
      ensures Valid() && old(saved) <= saved
      ensures Now() == old(Now()).(refund := (old(Now()).refund + gas) % 0x1_0000_0000_0000_0000)
    {
      hide *;
      ValidIs();
      NowIs();
      ghost var u := Refund(refund);
      append(RefundChange(refund));
      refund := (refund + gas) % 0x1_0000_0000_0000_0000;
      Record(u);
      RefundBack(old(Now()), refund);
      OtherMatches(ZERO, old(refund));
      OtherRecorded(RefundChange(old(refund)), u);
    }

    method AddLog(data: bytes)
      requires Valid()
      modifies `logs, `logSize, `entries, `dirties, `saved, `undo
      ensures Valid() && old(saved) <= saved
      ensures var s := old(Now());
              Now() == s.(logs := Logged(s.logs, thash, Log(thash, bhash, txIndex, s.logSize, data)), logSize := s.logSize + 1)
    {
      hide *;
      ValidIs();
      NowIs();
      append(AddLogChange(thash));
      var log := Log(thash, bhash, txIndex, logSize, data);
      LoggedIs(logs, thash, log);
      logs := logs[thash := (if thash in logs then logs[thash] else []) + [log]];
      logSize := logSize + 1;
      Record(DropLog(thash));
      LoggedBack(old(Now()), thash, log);
      OtherMatches(thash, 0);
      OtherRecorded(AddLogChange(thash), DropLog(thash));
    }

    /** Records the preimage of a hash, the first time. */
    method AddPreimage(hash: Word, preimage: bytes)
      requires Valid()
      modifies `preimages, `entries, `dirties, `saved, `undo
      ensures Valid() && old(saved) <= saved
      ensures var s := old(Now());
              Now() == if hash in s.preimages then s else s.(preimages := s.preimages[hash := preimage])
    {
      hide *;
      ValidIs();
      NowIs();
      if hash !in preimages {
        append(AddPreimageChange(hash));
        preimages := preimages[hash := preimage];
        Record(DropPreimage(hash));
        PreimagesBack(old(Now()), hash, preimage);
        OtherMatches(hash, 0);
        OtherRecorded(AddPreimageChange(hash), DropPreimage(hash));
      }
    }

    /** Sets what logs are attributed to from now on. */
    method Prepare(thash: Word, bhash: Word, ti: nat)
      requires Valid()
      modifies `thash, `bhash, `txIndex
      ensures Valid() && Now() == old(Now()) && this.thash == thash && this.bhash == bhash && txIndex == ti
    {
      hide *;
      ValidIs();
      this.thash, this.bhash, txIndex := thash, bhash, ti;
      ValidIs();
    }

    // ---- snapshots ----

    method Snapshot() returns (id: nat)
      requires Valid()
      modifies `validRevisions, `nextRevisionId
      ensures Valid() && Now() == old(Now()) && |saved| == |entries| + 1
      ensures validRevisions == old(validRevisions) + [Revision(id, |entries|)] && saved[|entries|] == Now()
      ensures forall r :: r in old(validRevisions) ==> r.id < id
      ensures nextRevisionId == id + 1 == old(nextRevisionId) + 1
    {
      hide *;
      ValidIs();
      RevisionsNext(validRevisions, nextRevisionId, |entries|);
      HistoryLast(saved, undo, Now());
      MatchingLength();
      id := nextRevisionId;
      nextRevisionId := nextRevisionId + 1;
      validRevisions := validRevisions + [Revision(id, |entries|)];
      ValidIs();
    }

    lemma MatchingLength()
      requires Matching()
      ensures |undo| == |entries|
    {
    }

    // ---- reverting ----

    /** Takes the last entry off the journal, and its address off the dirty count. */
    method dropEntry()
      requires entries != [] && undo != [] && Dirty(entries[|entries| - 1]) == DirtyBy(undo[|undo| - 1])
      requires Tracked(dirties, AllDirty(undo), marks) && saved != []
      modifies `entries, `dirties, `saved, `undo
      ensures entries == old(entries)[..|old(entries)| - 1] && undo == old(undo)[..|old(undo)| - 1]
      ensures saved == old(saved)[..|old(saved)| - 1] && Tracked(dirties, AllDirty(undo), marks)
    {
      hide *;
      ghost var d := DirtyBy(undo[|undo| - 1]);
      AllDirtyBack(undo);
      TrackedBack(dirties, AllDirty(undo), marks);
      var addr := Dirty(entries[|entries| - 1]);
      if addr.Some? {
        dirties := dirties[addr.value := dirties[addr.value] - 1];
        if dirties[addr.value] == 0 {
          dirties := dirties - {addr.value};
        }
      }
      DroppedDirty(old(dirties), dirties, addr);
      entries := entries[..|entries| - 1];
      undo, saved := undo[..|undo| - 1], saved[..|saved| - 1];
    }

    /** What an entry about an account remembers is written back to the account's object. */
    method revertAccount(o: StateObject, c: Change)
      requires Live(o) && o.db == this && o.Consistent() && !c.ResetObjectChange? && About(Plain(c), o.address)
      requires c.CodeChange? ==> CodeKept(store, c.prevCode, c.prevHash)
      modifies o
      ensures Live(o) && o.Consistent() && o.View() == Undone(old(o.View()), Plain(c))
    {
      hide StateObject.View, StateObject.Consistent;
      match c {
        case SuicideChange(_, was, b) =>
          o.unkill(was, b);
        case BalanceChange(_, b) =>
          o.setBalance(b);
        case NonceChange(_, n) =>
          o.setNonce(n);
        case StorageChange(_, k, v) =>
          o.setState(k, v);
        case CodeChange(_, prevcode, prevhash) =>
          o.setCode(prevhash, prevcode);
        case _ =>
      }
    }

    /** The last entry about an account undone. */
    twostate lemma AccountReverted(o: StateObject)
      requires old(Sound()) && old(Live(o)) && Live(o) && o.Consistent() && old(undo) != []
      requires stateObjects == old(stateObjects) && repr == old(repr)
      requires forall x :: x in old(repr) && x != o ==> unchanged(x)
      requires refund == old(refund) && logs == old(logs) && logSize == old(logSize) && preimages == old(preimages) && marks == old(marks)
      requires entries == old(entries)[..|old(entries)| - 1] && undo == old(undo)[..|old(undo)| - 1] && saved == old(saved)[..|old(saved)| - 1]
      requires Tracked(dirties, AllDirty(undo), marks)
      requires About(old(undo)[|old(undo)| - 1], o.address) && o.View() == Undone(old(o.View()), old(undo)[|old(undo)| - 1])
      ensures Sound() && |undo| < |old(saved)| && Now() == old(saved)[|undo|]
    {
      hide Owned, Matching, History, Tracked, NoEmptyLogs, Reverted, Applicable, AllDirty, Matches, View, Live, Put, Undone, About;
      ghost var u, now := old(undo)[|old(undo)| - 1], old(Now());
      LiveShows(o);
      HistoryBack(old(saved), old(undo), now);
      HistoryLength(old(saved), old(undo), now);
      AboutReverted(now, u, o.address, old(o.View()));
      NowChanged(o);
      PrefixOwned(o);
    }

    twostate lemma LiveShows(o: StateObject)
      requires old(Owned()) && old(Live(o))
      ensures o.address in old(Now()).accounts && old(Now()).accounts[o.address] == Some(old(o.View()))
    {
      assert old(View(o.address)) == Some(old(o.View()));
    }

    twostate lemma PrefixOwned(o: StateObject)
      requires old(Owned()) && old(Matching()) && old(Live(o)) && Live(o) && o.Consistent() && old(undo) != []
      requires stateObjects == old(stateObjects) && repr == old(repr)
      requires forall x :: x in old(repr) && x != o ==> unchanged(x)
      requires entries == old(entries)[..|old(entries)| - 1] && undo == old(undo)[..|old(undo)| - 1]
      ensures Owned() && Matching()
    {
      forall a | a in stateObjects
        ensures stateObjects[a] in repr && Holds(a, stateObjects[a])
      {
        if a != o.address {
          assert old(Holds(a, stateObjects[a]));
        }
      }
      forall i | 0 <= i < |entries|
        ensures entries[i] == old(entries)[i]
        ensures entries[i].ResetObjectChange? ==> Aside(entries[i].prev)
        ensures Matches(entries[i], undo[i])
      {
        assert old(Matches(entries[i], undo[i]));
        if entries[i].ResetObjectChange? {
          assert old(Aside(entries[i].prev));
        }
      }
    }

    method revertOn(o: StateObject, c: Change)
      requires Sound() && Live(o) && entries != [] && c == entries[|entries| - 1] && !c.ResetObjectChange? && About(Plain(c), o.address)
      modifies o, `entries, `dirties, `saved, `undo
      ensures Sound() && |undo| < |old(saved)| && Now() == old(saved)[|undo|]
      ensures entries == old(entries)[..|old(entries)| - 1] && saved == old(saved)[..|old(saved)| - 1]
    {
      hide *;
      ValidIs();
      LiveIs(o);
      LastMatches();
      revertAccount(o, c);
      LiveIf(o);
      dropEntry();
      LiveIf(o);
      AccountReverted(o);
    }

    /** The last entry and what it remembers. */
    lemma LastMatches()
      requires Sound() && entries != []
      ensures undo != [] && |undo| == |entries| && |saved| == |undo| + 1
      ensures var c, u := entries[|entries| - 1], undo[|undo| - 1];
              && Matches(c, u) && Dirty(c) == DirtyBy(u) && Applicable(Now(), u)
              && (!c.ResetObjectChange? ==> u == Plain(c))
              && (c.CodeChange? ==> CodeKept(store, c.prevCode, c.prevHash))
    {
      var c, u := entries[|entries| - 1], undo[|undo| - 1];
      assert Matches(c, u);
      DirtyIs(c, u);
      HistoryBack(saved, undo, Now());
      HistoryLast(saved, undo, Now());
    }

    /** The last entry, about no live object, undone: `gone` is the account that may have another object now. */
    twostate lemma OtherReverted(u: Undo)
      requires old(Sound()) && old(undo) != [] && u == old(undo)[|old(undo)| - 1]
      requires Owned() && Matching() && Applicable(old(Now()), u) && Now() == Reverted(old(Now()), u) && NoEmptyLogs(logs)
      requires marks == old(marks) && undo == old(undo)[..|old(undo)| - 1] && saved == old(saved)[..|old(saved)| - 1]
      requires Tracked(dirties, AllDirty(undo), marks)
      ensures Sound() && |undo| < |old(saved)| && Now() == old(saved)[|undo|]
    {
      hide Owned, Matching, History, Tracked, NoEmptyLogs, Reverted, Applicable, AllDirty;
      HistoryBack(old(saved), old(undo), old(Now()));
      HistoryLength(old(saved), old(undo), old(Now()));
    }

    /** With one entry less, and the objects of one address changed for another or dropped, all else is as before. */
    twostate lemma Replaced(a: Address)
      requires old(Owned()) && old(Matching()) && old(entries) != []
      requires entries == old(entries)[..|old(entries)| - 1] && undo == old(undo)[..|old(undo)| - 1] && repr == old(repr)
      requires forall x :: x in old(repr) ==> unchanged(x)
      requires
        || stateObjects == old(stateObjects)
        || stateObjects == old(stateObjects) - {a}
        || var c := old(entries)[|old(entries)| - 1];
           c.ResetObjectChange? && c.prev.address == a && stateObjects == old(stateObjects)[a := c.prev]
      ensures Owned() && Matching()
      ensures forall b: Address | b != a :: View(b) == old(View(b))
      ensures stateObjects == old(stateObjects) ==> View(a) == old(View(a))
    {
      ghost var c := old(entries)[|old(entries)| - 1];
      assert c.ResetObjectChange? ==> old(Aside(c.prev));
      forall b | b in stateObjects
        ensures stateObjects[b] in repr && Holds(b, stateObjects[b])
      {
        if b != a || stateObjects == old(stateObjects) {
          assert old(Holds(b, stateObjects[b]));
        }
      }
      forall i | 0 <= i < |entries|
        ensures entries[i] == old(entries)[i]
        ensures entries[i].ResetObjectChange? ==> Aside(entries[i].prev)
        ensures Matches(entries[i], undo[i])
      {
        assert old(Matches(entries[i], undo[i]));
        if entries[i].ResetObjectChange? {
          assert old(Aside(entries[i].prev));
        }
      }
    }

    twostate lemma NowReplaced(a: Address, new v: Option<AbsAccount>)
      requires a in old(Now()).accounts && View(a) == v && forall b: Address | b != a :: View(b) == old(View(b))
      requires refund == old(refund) && logs == old(logs) && logSize == old(logSize) && preimages == old(preimages)
      ensures Now() == Put(old(Now()), a, v)
    {
      assert Now().accounts == Put(old(Now()), a, v).accounts;
    }

    /** Undoes the creation of an object. */
    method revertCreate(a: Address)
      requires Sound() && entries != [] && entries[|entries| - 1] == CreateObjectChange(a)
      modifies `stateObjects, `stateObjectsDirty, `entries, `dirties, `saved, `undo
      ensures Sound() && |undo| < |old(saved)| && Now() == old(saved)[|undo|]
      ensures entries == old(entries)[..|old(entries)| - 1] && saved == old(saved)[..|old(saved)| - 1]
    {
      hide *;
      ValidIs();
      LastMatches();
      CreateMatches(a, undo[|undo| - 1]);
      ViewAt(a);
      stateObjects := stateObjects - {a};
      stateObjectsDirty := stateObjectsDirty - {a};
      dropEntry();
      Replaced(a);
      NoView(a);
      NowReplaced(a, None);
      DropReverted(old(Now()), a);
      OtherReverted(Drop(a));
    }

    lemma CreateMatches(a: Address, u: Undo)
      requires Matches(CreateObjectChange(a), u)
      ensures u == Drop(a) && a !in store.trie
    {
    }

    lemma NoView(a: Address)
      requires a !in stateObjects && a !in store.trie
      ensures View(a) == None
    {
    }

    /** Puts back the object that was replaced. */
    method revertReset(prev: StateObject)
      requires Sound() && entries != [] && entries[|entries| - 1] == ResetObjectChange(prev)
      modifies `stateObjects, `entries, `dirties, `saved, `undo
      ensures Sound() && |undo| < |old(saved)| && Now() == old(saved)[|undo|]
      ensures entries == old(entries)[..|old(entries)| - 1] && saved == old(saved)[..|old(saved)| - 1]
    {
      hide *;
      ValidIs();
      LastMatches();
      var a := prev.address;
      ghost var v := prev.View();
      ResetMatches(prev, undo[|undo| - 1]);
      ViewAt(a);
      stateObjects := stateObjects[a := prev];
      dropEntry();
      Replaced(a);
      ItsView(a, prev);
      NowReplaced(a, Some(v));
      RestoreReverted(old(Now()), a, v);
      OtherReverted(Restore(a, v));
    }

    lemma ResetMatches(prev: StateObject, u: Undo)
      requires Owned() && entries != [] && entries[|entries| - 1] == ResetObjectChange(prev) && Matches(ResetObjectChange(prev), u)
      ensures u == Restore(prev.address, prev.View()) && !prev.deleted
    {
    }

    lemma ItsView(a: Address, o: StateObject)
      requires a in stateObjects && stateObjects[a] == o && !o.deleted
      ensures View(a) == Some(o.View())
    {
    }

    /** Undoes an entry that is not about an account's object. */
    method revertOther(c: Change)
      requires Sound() && entries != [] && c == entries[|entries| - 1]
      requires c.RefundChange? || c.AddLogChange? || c.AddPreimageChange? || c.TouchChange?
      modifies `refund, `logs, `logSize, `preimages, `entries, `dirties, `saved, `undo
      ensures Sound() && |undo| < |old(saved)| && Now() == old(saved)[|undo|]
      ensures entries == old(entries)[..|old(entries)| - 1] && saved == old(saved)[..|old(saved)| - 1]
    {
      hide *;
      ValidIs();
      LastMatches();
      ghost var u := undo[|undo| - 1];
      NowIs();
      OtherIs(c, u);
      OtherApplies(Now(), u);
      match c {
        case RefundChange(prev) =>
          refund := prev;
        case AddLogChange(txhash) =>
          if |logs[txhash]| == 1 {
            logs := logs - {txhash};
          } else {
            logs := logs[txhash := logs[txhash][..|logs[txhash]| - 1]];
          }
          logSize := logSize - 1;
        case AddPreimageChange(hash) =>
          preimages := preimages - {hash};
        case _ =>
      }
      dropEntry();
      Replaced(0);
      SameNow();
      OtherReverts(old(Now()), Now(), u);
      OtherReverted(u);
    }

    lemma OtherIs(c: Change, u: Undo)
      requires !c.ResetObjectChange? && u == Plain(c) && (c.RefundChange? || c.AddLogChange? || c.AddPreimageChange? || c.TouchChange?)
      ensures c.RefundChange? ==> u == Refund(c.prevRefund)
      ensures c.AddLogChange? ==> u == DropLog(c.txHash)
      ensures c.AddPreimageChange? ==> u == DropPreimage(c.hash)
      ensures c.TouchChange? ==> u.Touch?
    {
    }

    twostate lemma SameNow()
      requires forall b: Address | b != 0 :: View(b) == old(View(b))
      requires View(0) == old(View(0))
      ensures Now() == old(Now()).(refund := refund, logs := logs, logSize := logSize, preimages := preimages)
    {
      forall b: Address ensures View(b) == old(View(b)) {
      }
      assert Now().accounts == old(Now()).accounts;
    }

    /** Undoes the last entry of the journal. */
    method revertEntry()
      requires Sound() && entries != []
      modifies `stateObjects, `stateObjectsDirty, `refund, `logs, `logSize, `preimages, `entries, `dirties, `saved, `undo, `repr, repr
      ensures Sound() && |entries| + 1 == |old(entries)| && |saved| + 1 == |old(saved)| && |saved| == |entries| + 1
      ensures Now() == old(saved)[|entries|] && entries <= old(entries) && saved <= old(saved)
      ensures old(repr) <= repr && fresh(repr - old(repr))
    {
      hide *;
      LastMatches();
      var c := entries[|entries| - 1];
      AboutOrNot(c);
      if c.CreateObjectChange? {
        revertCreate(c.account);
      } else if c.ResetObjectChange? {
        revertReset(c.prev);
      } else if c.RefundChange? || c.AddLogChange? || c.AddPreimageChange? || c.TouchChange? {
        revertOther(c);
      } else {
        AboutApplies(Now(), Plain(c), c.account);
        var obj := getStateObject(c.account);
        LastMatches();
        AboutIs(Now(), c.account);
        revertOn(obj, c);
      }
      SoundLength();
    }

    lemma SoundLength()
      requires Sound()
      ensures |undo| == |entries| && |saved| == |undo| + 1 && saved[|undo|] == Now()
    {
      HistoryLast(saved, undo, Now());
    }

    lemma AboutOrNot(c: Change)
      ensures !c.CreateObjectChange? && !c.ResetObjectChange? && !c.RefundChange? && !c.AddLogChange? && !c.AddPreimageChange? && !c.TouchChange?
              ==> About(Plain(c), c.account)
    {
    }

    /** Undoes the entries from `snapshot` on, the last first. */
    method revert(snapshot: nat)
      requires Sound() && snapshot <= |entries|
      modifies `stateObjects, `stateObjectsDirty, `refund, `logs, `logSize, `preimages, `entries, `dirties, `saved, `undo, `repr, repr
      ensures Sound() && snapshot < |old(saved)| && Now() == old(saved)[snapshot]
      ensures entries == old(entries)[..snapshot] && saved == old(saved)[..snapshot + 1]
      ensures old(repr) <= repr && fresh(repr - old(repr))
    {
      hide *;
      SoundLength();
      while |entries| > snapshot
        invariant Sound() && snapshot <= |entries| && |saved| == |entries| + 1 && Now() == saved[|entries|]
        invariant entries <= old(entries) && saved <= old(saved)
        invariant old(repr) <= repr && fresh(repr - old(repr))
        decreases |entries|
      {
        revertEntry();
      }
    }

    /** The revision a snapshot id stands for. */
    ghost predicate Revisable(id: nat)
      reads `validRevisions
    {
      exists i :: 0 <= i < |validRevisions| && validRevisions[i].id == id
    }

    /**
      Reverts to an earlier revision: what the getters show is what they showed when the snapshot was taken, that revision
      and later ones are gone, and earlier ones are kept. An unknown id is refused, and nothing changes.
     */
    method RevertToSnapshot(revid: nat) returns (ok: bool, ghost idx: nat)
      requires Valid()
      modifies `stateObjects, `stateObjectsDirty, `refund, `logs, `logSize, `preimages, `entries, `dirties, `saved, `undo, `repr, `validRevisions, repr
      ensures Valid() && old(repr) <= repr && fresh(repr - old(repr))
      ensures ok <==> old(Revisable(revid))
      ensures !ok ==> Now() == old(Now()) && saved == old(saved) && validRevisions == old(validRevisions)
      ensures ok ==>
                && idx < |old(validRevisions)| && old(validRevisions)[idx].id == revid
                && var at := old(validRevisions)[idx].journalIndex;
                   at < |old(saved)| && Now() == old(saved)[at] && saved == old(saved)[..at + 1] && |entries| == at
      ensures ok ==> validRevisions == old(validRevisions)[..idx]
    {
      hide *;
      ValidIs();
      RevisionsAre(validRevisions, nextRevisionId, |entries|);
      idx := 0;
      var i := Search(validRevisions, revid);
      RevisableIs(revid);
      if i == |validRevisions| || validRevisions[i].id != revid {
        return false, 0;
      }
      assert Revisable(revid);
      var snapshot := validRevisions[i].journalIndex;
      idx := i;
      revert(snapshot);
      ValidIs();
      RevisionsBefore(validRevisions, nextRevisionId, |old(entries)|, i);
      validRevisions := validRevisions[..i];
      ValidIs();
      return true, idx;
    }

    lemma RevisableIs(id: nat)
      ensures Revisable(id) <==> exists i :: 0 <= i < |validRevisions| && validRevisions[i].id == id
    {
    }

    // ---- getters ----

    /** Reports whether an account exists; suicided ones do. */
    method Exist(addr: Address) returns (r: bool)
      requires Valid()
      modifies `stateObjects, `repr
      ensures Valid() && Now() == old(Now()) && old(repr) <= repr && fresh(repr - old(repr)) && addr in Now().accounts
      ensures r <==> Now().accounts[addr].Some?
      ensures addr !in old(stateObjects) ==> (r <==> addr in store.trie)
    {
      hide *;
      ValidIs();
      UntouchedAt(addr);
      if addr !in stateObjects && addr in store.trie {
        ShowsIs(store.trie[addr], Now().accounts[addr].value);
      }
      var o := getStateObject(addr);
      ValidIs();
      r := o != null;
    }

    method GetBalance(addr: Address) returns (r: int)
      requires Valid()
      modifies `stateObjects, `repr
      ensures Valid() && Now() == old(Now()) && old(repr) <= repr && fresh(repr - old(repr)) && addr in Now().accounts
      ensures r == if Now().accounts[addr] == None then 0 else Now().accounts[addr].value.balance
      ensures addr !in old(stateObjects) ==> r == if addr in store.trie then store.trie[addr].balance else 0
    {
      hide *;
      ValidIs();
      UntouchedAt(addr);
      if addr !in stateObjects && addr in store.trie {
        ShowsIs(store.trie[addr], Now().accounts[addr].value);
      }
      var o := getStateObject(addr);
      ValidIs();
      if o == null {
        return 0;
      }
      o.ViewIs();
      return o.account.balance;
    }

    method GetNonce(addr: Address) returns (r: nat)
      requires Valid()
      modifies `stateObjects, `repr
      ensures Valid() && Now() == old(Now()) && old(repr) <= repr && fresh(repr - old(repr)) && addr in Now().accounts
      ensures r == if Now().accounts[addr] == None then 0 else Now().accounts[addr].value.nonce
      ensures addr !in old(stateObjects) ==> r == 0
    {
      hide *;
      ValidIs();
      UntouchedAt(addr);
      if addr !in stateObjects && addr in store.trie {
        ShowsIs(store.trie[addr], Now().accounts[addr].value);
      }
      var o := getStateObject(addr);
      ValidIs();
      if o == null {
        return 0;
      }
      o.ViewIs();
      return o.account.nonce;
    }

    method GetCodeHash(addr: Address) returns (r: Word)
      requires Valid()
      modifies `stateObjects, `repr
      ensures Valid() && Now() == old(Now()) && old(repr) <= repr && fresh(repr - old(repr)) && addr in Now().accounts
      ensures r == if Now().accounts[addr] == None then ZERO else Now().accounts[addr].value.codeHash
      ensures addr !in old(stateObjects) ==>
                r == if addr !in store.trie then ZERO
                     else if store.trie[addr].codeHash.Some? then store.trie[addr].codeHash.value else store.newHash([])
    {
      hide *;
      ValidIs();
      UntouchedAt(addr);
      if addr !in stateObjects && addr in store.trie {
        ShowsIs(store.trie[addr], Now().accounts[addr].value);
      }
      var o := getStateObject(addr);
      ValidIs();
      if o == null {
        return ZERO;
      }
      LiveIs(o);
      o.HashIs();
      return o.account.codeHash.value;
    }

    method HasSuicided(addr: Address) returns (r: bool)
      requires Valid()
      modifies `stateObjects, `repr
      ensures Valid() && Now() == old(Now()) && old(repr) <= repr && fresh(repr - old(repr)) && addr in Now().accounts
      ensures r <==> Now().accounts[addr].Some? && Now().accounts[addr].value.suicided
      ensures addr !in old(stateObjects) ==> !r
    {
      hide *;
      ValidIs();
      UntouchedAt(addr);
      if addr !in stateObjects && addr in store.trie {
        ShowsIs(store.trie[addr], Now().accounts[addr].value);
      }
      var o := getStateObject(addr);
      ValidIs();
      if o == null {
        return false;
      }
      o.ViewIs();
      return o.suicided;
    }

    /** The code of an account, loaded on first use. */
    method GetCode(addr: Address) returns (r: Option<bytes>)
      requires Valid()
      modifies `stateObjects, `repr, repr
      ensures Valid() && Now() == old(Now()) && old(repr) <= repr && fresh(repr - old(repr)) && addr in Now().accounts
      ensures r == if Now().accounts[addr] == None then None else Now().accounts[addr].value.code
      ensures addr !in old(stateObjects) ==>
                r == if addr in store.trie && store.trie[addr].codeHash.Some? && store.trie[addr].codeHash.value != store.newHash([])
                        && store.trie[addr].codeHash.value in store.codes then Some(store.codes[store.trie[addr].codeHash.value]) else None
    {
      hide *;
      ValidIs();
      UntouchedAt(addr);
      if addr !in stateObjects && addr in store.trie {
        ShowsIs(store.trie[addr], Now().accounts[addr].value);
      }
      var o := getStateObject(addr);
      ValidIs();
      if o == null {
        return None;
      }
      r := LoadedCode(o);
    }

    method LoadedCode(o: StateObject) returns (r: Option<bytes>)
      requires Valid() && Live(o)
      modifies o`code
      ensures Valid() && Now() == old(Now()) && r == o.View().code && o.View() == old(o.View())
    {
      hide *;
      ValidIs();
      LiveIs(o);
      r := o.Code();
      LiveIf(o);
      Cached(o);
      ValidIs();
    }

    /** The value of a storage slot, cached on first use. */
    method GetState(addr: Address, key: Word) returns (r: Word)
      requires Valid()
      modifies `stateObjects, `repr, repr
      ensures Valid() && Now() == old(Now()) && old(repr) <= repr && fresh(repr - old(repr)) && addr in Now().accounts
      ensures Now().accounts[addr].Some? ==> key in Now().accounts[addr].value.storage
      ensures r == if Now().accounts[addr] == None then ZERO else Now().accounts[addr].value.storage[key]
      ensures addr !in old(stateObjects) ==> if addr in store.trie then Stored(store, store.trie[addr].root, key, r) else r == ZERO
    {
      hide *;
      ValidIs();
      UntouchedAt(addr);
      if addr !in stateObjects && addr in store.trie {
        ShowsIs(store.trie[addr], Now().accounts[addr].value);
      }
      var o := getStateObject(addr);
      ValidIs();
      if o == null {
        return ZERO;
      }
      r := LoadedSlot(o, key);
      o.ViewIs();
    }

    method LoadedSlot(o: StateObject, key: Word) returns (r: Word)
      requires Valid() && Live(o)
      modifies o`trie, o`cachedStorage
      ensures Valid() && Now() == old(Now()) && r == o.Slot(key) && o.View() == old(o.View())
    {
      hide *;
      ValidIs();
      LiveIs(o);
      r := o.GetState(key);
      LiveIf(o);
      Cached(o);
      ValidIs();
    }

    /** Filling an object's caches changes nothing that the getters show. */
    twostate lemma Cached(o: StateObject)
      requires old(Sound()) && old(Live(o)) && Live(o) && o.Consistent() && o.View() == old(o.View())
      requires stateObjects == old(stateObjects) && repr == old(repr)
      requires forall x :: x in old(repr) && x != o ==> unchanged(x)
      requires entries == old(entries) && undo == old(undo)
      requires refund == old(refund) && logs == old(logs) && logSize == old(logSize) && preimages == old(preimages)
      ensures Owned() && Matching() && Now() == old(Now())
    {
      hide Owned, Matching, History, Tracked, NoEmptyLogs, AllDirty, Live, Put, View;
      StillOwnedAndMatching(o);
      NowChanged(o);
      LiveShows(o);
      TouchBack(old(Now()), o.address, o.View());
    }

    function GetRefund(): (r: nat)
      reads this, repr
      ensures r == Now().refund
    {
      refund
    }

    function GetLogs(hash: Word): (r: seq<Log>)
      reads this, repr
      ensures r == if hash in Now().logs then Now().logs[hash] else []
    {
      if hash in logs then logs[hash] else []
    }

    function Preimages(): (r: map<Word, bytes>)
      reads this, repr
      ensures r == Now().preimages
    {
      preimages
    }

    // ---- whole runs ----

    /** An operation other than taking and using snapshots. */
    method Change(op: Op)
      requires Valid() && !op.OpSnapshot? && !op.OpRevert?
      modifies `stateObjects, `refund, `thash, `bhash, `txIndex, `logs, `logSize, `preimages, `entries, `dirties, `repr, `saved, `undo, `marks, repr
      ensures Valid() && old(saved) <= saved && old(repr) <= repr && fresh(repr - old(repr))
    {
      hide *;
      match op {
        case OpAddBalance(a, x) => AddBalance(a, x);
        case OpSubBalance(a, x) => SubBalance(a, x);
        case OpSetBalance(a, x) => SetBalance(a, x);
        case OpSetNonce(a, n) => SetNonce(a, n);
        case OpSetCode(a, c) => SetCode(a, c);
        case OpSetState(a, k, v) => SetState(a, k, v);
        case OpSuicide(a) => var done := Suicide(a);
        case OpCreateAccount(a) => CreateAccount(a);
        case OpAddRefund(gas) => AddRefund(gas);
        case OpAddLog(data) => AddLog(data);
        case OpAddPreimage(h, p) => AddPreimage(h, p);
        case OpPrepare(th, bh, ti) => Prepare(th, bh, ti);
        case OpGetCode(a) => var c := GetCode(a);
        case OpGetState(a, k) => var v := GetState(a, k);
        case _ =>
      }
    }

    /** Whatever is done, snapshots that stay valid stand for the same states. */
    method Perform(op: Op)
      requires Valid()
      modifies this, repr
      ensures Valid() && old(repr) <= repr && fresh(repr - old(repr))
      ensures Retained(old(validRevisions), old(saved), old(nextRevisionId), validRevisions, saved, nextRevisionId)
      ensures forall r :: r in old(validRevisions) && (op.OpRevert? ==> r.id < op.id) ==> r in validRevisions
    {
      hide *;
      ValidIs();
      SoundLength();
      ghost var rs, s, n := validRevisions, saved, nextRevisionId;
      RetainedMore(rs, s, n, s);
      match op {
        case OpSnapshot =>
          var id := Snapshot();
          RetainedSnapshot(rs, s, n, validRevisions);
        case OpRevert(id) =>
          var ok, idx := RevertToSnapshot(id);
          if ok {
            RetainedRevert(rs, s, n, idx);
            EarlierKept(rs, n, |s| - 1, idx);
          }
        case _ =>
          Change(op);
          RetainedMore(rs, s, n, saved);
      }
    }

    /**
      Takes a snapshot, performs any operations whatever, among them snapshots and reverts, and reverts. Unless the
      snapshot has been reverted past, everything the getters show is as it was.
     */
    method Attempt(ops: seq<Op>) returns (undone: bool)
      requires Valid()
      modifies this, repr
      ensures Valid()
      ensures undone ==> Now() == old(Now())
      ensures (forall i :: 0 <= i < |ops| && ops[i].OpRevert? ==> ops[i].id > old(nextRevisionId)) ==> undone
    {
      hide *;
      ghost var rs0, at := validRevisions, |entries|;
      var id := Snapshot();
      ghost var rs, s, n := validRevisions, saved, nextRevisionId;
      ValidIs();
      RetainedMore(rs, s, n, s);
      for i := 0 to |ops|
        invariant Valid() && old(repr) <= repr && fresh(repr - old(repr))
        invariant Retained(rs, s, n, validRevisions, saved, nextRevisionId)
        invariant (forall j :: 0 <= j < i && ops[j].OpRevert? ==> ops[j].id > id) ==> Revision(id, at) in validRevisions
      {
        ghost var rs1, s1, n1 := validRevisions, saved, nextRevisionId;
        Perform(ops[i]);
        RetainedTrans(rs, s, n, rs1, s1, n1, validRevisions, saved, nextRevisionId);
      }
      ghost var rs2, s2, n2 := validRevisions, saved, nextRevisionId;
      RevisableIs(id);
      ghost var idx;
      undone, idx := RevertToSnapshot(id);
      if undone {
        RetainedLast(rs0, id, at, s, n, rs2, s2, n2, idx);
      }
    }
  }
}
