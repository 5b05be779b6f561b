/** Token transfers: the supply is conserved, as long as balances survive their way through JSON numbers. */
module Ledger {
  import opened Gossips

  const TWO53 := 0x20_0000_0000_0000
  const TWO63 := 0x8000_0000_0000_0000

  // ---- balances ----

  /** The spacing of floating-point numbers of 53 bits at `n`. */
  function Spacing(n: nat): (u: nat)
    ensures u >= 1 && (n < TWO53 ==> u == 1) && (n >= TWO53 ==> u * (TWO53 / 2) <= n)
  {
    if n < TWO53 then 1 else 2 * Spacing(n / 2)
  }

  /** The closest floating-point number; in the middle, the one with an even significand. */
  function Float64(n: nat): nat {
    var u := Spacing(n);
    var q, r := n / u, n % u;
    if 2 * r < u || (2 * r == u && q % 2 == 0) then q * u else (q + 1) * u
  }

  /** A 64-bit integer, wrapped around. */
  function Int64(n: int): (r: int)
    ensures -TWO63 <= r < TWO63
    ensures -TWO63 <= n < TWO63 ==> r == n
  {
    (n + TWO63) % (2 * TWO63) - TWO63
  }

  /** A balance as it is read back: written as a JSON integer, parsed as a floating-point number. */
  function Reload(b: int): int {
    var f: int := Float64(if b >= 0 then b else -b);
    Int64(if b >= 0 then f else -f)
  }

  /** Up to 2^53 nothing is lost. */
  lemma ReloadExact(b: nat)
    requires b <= TWO53
    ensures Reload(b) == b
  {
    if b == TWO53 {
      assert Spacing(TWO53 / 2) == 1;
    }
  }

  /** The next number is lost. */
  lemma ReloadLossy()
    ensures Reload(TWO53 + 1) == TWO53
  {
    assert Spacing((TWO53 + 1) / 2) == 1;
  }

  // ---- accounts ----

  /** What the database has: balances, and the hashes of transactions already processed. `applied` is the history. */
  datatype Books = Books(accounts: map<Address, int>, processed: set<Hash>, applied: seq<Transaction>)

  function Balance(b: Books, a: Address): int {
    if a in b.accounts then Reload(b.accounts[a]) else 0
  }

  /** What verification lets pass: a positive amount, to someone else. */
  predicate Verified(tx: Transaction) {
    tx.from != tx.to && 0 < tx.value < TWO63
  }

  /** A transfer is applied unless it has been before or tokens are missing. */
  function Execute(b: Books, tx: Transaction): Books {
    if tx.hash in b.processed || Balance(b, tx.from) < tx.value then b
    else
      Books(
        b.accounts[tx.from := Int64(Balance(b, tx.from) - tx.value)][tx.to := Int64(Balance(b, tx.to) + tx.value)],
        b.processed + {tx.hash},
        b.applied + [tx])
  }

  function ExecuteAll(b: Books, txs: seq<Transaction>): Books
    decreases |txs|
  {
    if txs == [] then b else Execute(ExecuteAll(b, txs[..|txs| - 1]), txs[|txs| - 1])
  }

  /** The first state: one account with the whole supply. */
  function Genesis(tx: Transaction): Books {
    Books(map[tx.to := tx.value], {tx.hash}, [tx])
  }

  /** The sum of all balances. */
  ghost function Total(m: map<Address, int>): int
    decreases |m|
  {
    if m == map[] then 0
    else
      var a :| a in m;
      m[a] + Total(m - {a})
  }

  lemma {:induction false} TotalWithout(m: map<Address, int>, a: Address)
    requires a in m
    ensures Total(m) == m[a] + Total(m - {a})
    decreases |m|
  {
    var x :| x in m && Total(m) == m[x] + Total(m - {x});
    if x != a {
      TotalWithout(m - {x}, a);
      TotalWithout(m - {a}, x);
      assert m - {x} - {a} == m - {a} - {x};
    }
  }

  /** Setting one balance moves the total by the difference. */
  lemma TotalSet(m: map<Address, int>, a: Address, v: int)
    ensures Total(m[a := v]) == Total(m) + v - (if a in m then m[a] else 0)
  {
    TotalWithout(m[a := v], a);
    if a in m {
      TotalWithout(m, a);
      assert m[a := v] - {a} == m - {a};
    } else {
      assert m[a := v] - {a} == m;
    }
  }

  /** With no negative balance none exceeds the total. */
  lemma AtMostTotal(m: map<Address, int>, a: Address)
    requires a in m && forall x :: x in m ==> m[x] >= 0
    ensures 0 <= m[a] <= Total(m)
    decreases |m|
  {
    TotalWithout(m, a);
    NotNegative(m - {a});
  }

  lemma {:induction false} NotNegative(m: map<Address, int>)
    requires forall x :: x in m ==> m[x] >= 0
    ensures Total(m) >= 0
    decreases |m|
  {
    if m != map[] {
      var x :| x in m && Total(m) == m[x] + Total(m - {x});
      NotNegative(m - {x});
    }
  }

  ghost predicate Sound(b: Books, supply: nat) {
    && Total(b.accounts) == supply
    && (forall a :: a in b.accounts ==> b.accounts[a] >= 0)
    && (forall i :: 0 <= i < |b.applied| ==> b.applied[i].hash in b.processed)
    && (forall i, j :: 0 <= i < j < |b.applied| ==> b.applied[i].hash != b.applied[j].hash)
  }

  /** In a sound state balances are read back as they are, and no addition overflows. */
  lemma BalanceIs(b: Books, supply: nat, a: Address)
    requires Sound(b, supply) && supply <= TWO53
    ensures 0 <= Balance(b, a) <= supply
    ensures Balance(b, a) == if a in b.accounts then b.accounts[a] else 0
  {
    if a in b.accounts {
      AtMostTotal(b.accounts, a);
      ReloadExact(b.accounts[a]);
    }
  }

  lemma ExecuteSound(b: Books, supply: nat, tx: Transaction)
    requires Sound(b, supply) && supply <= TWO53 && Verified(tx)
    ensures Sound(Execute(b, tx), supply)
  {
    BalanceIs(b, supply, tx.from);
    BalanceIs(b, supply, tx.to);
    if tx.hash !in b.processed && Balance(b, tx.from) >= tx.value {
      var m := b.accounts[tx.from := Balance(b, tx.from) - tx.value];
      TotalSet(b.accounts, tx.from, Balance(b, tx.from) - tx.value);
      TotalSet(m, tx.to, Balance(b, tx.to) + tx.value);
      hide Balance, Total;
    }
  }

  lemma GenesisSound(g: Transaction)
    requires 0 <= g.value
    ensures Sound(Genesis(g), g.value)
  {
    TotalSet(map[], g.to, g.value);
    var none: map<Address, int> := map[];
    assert none[g.to := g.value] == map[g.to := g.value];
  }

  /** Whatever transfers are executed: the supply stays, no balance is negative, and each hash is applied once. */
  lemma {:induction false} AllSound(g: Transaction, txs: seq<Transaction>)
    requires 0 <= g.value <= TWO53 && forall tx :: tx in txs ==> Verified(tx)
    ensures Sound(ExecuteAll(Genesis(g), txs), g.value)
    decreases |txs|
  {
    if txs == [] {
      GenesisSound(g);
    } else {
      AllSound(g, txs[..|txs| - 1]);
      ExecuteSound(ExecuteAll(Genesis(g), txs[..|txs| - 1]), g.value, txs[|txs| - 1]);
    }
  }

  /** The supply is conserved by all executions of verified transfers. */
  ghost predicate Conserves(g: Transaction) {
    forall txs :: (forall tx :: tx in txs ==> Verified(tx)) ==> Total(ExecuteAll(Genesis(g), txs).accounts) == g.value
  }

  /** From here on the nearest floating-point number is 2^63, which is read back as a negative number. */
  const WRAPS := TWO63 - 512

  function Pow2(k: nat): (r: nat)
    ensures r >= 1
  {
    if k == 0 then 1 else 2 * Pow2(k - 1)
  }

  lemma Halved(n: nat, p: nat)
    requires TWO53 / 2 * (2 * p) <= n < TWO53 * (2 * p) && p >= 1
    ensures TWO53 / 2 * p <= n / 2 < TWO53 * p && n >= TWO53
  {
  }

  lemma {:induction false} SpacingIs(n: nat, k: nat)
    requires TWO53 / 2 * Pow2(k) <= n < TWO53 * Pow2(k)
    ensures Spacing(n) == Pow2(k)
  {
    if k > 0 {
      Halved(n, Pow2(k - 1));
      SpacingIs(n / 2, k - 1);
    }
  }

  /** In the last stretch of the 64-bit integers floating-point numbers are 1024 apart. */
  lemma SpacingAtTop(n: nat)
    requires TWO63 / 2 <= n < TWO63
    ensures Spacing(n) == 1024
  {
    assert Pow2(5) == 32;
    assert Pow2(10) == 1024;
    SpacingIs(n, 10);
  }

  lemma FloatNear(n: nat)
    ensures n - Spacing(n) <= Float64(n) <= n + Spacing(n)
  {
    var u := Spacing(n);
    Divided(n, u);
    var q := n / u;
    assert (q + 1) * u == q * u + u;
    hide Spacing;
  }

  lemma FloatAtTop(n: nat)
    requires TWO63 / 2 <= n < TWO63
    ensures Float64(n) < TWO63 <==> n < WRAPS
    ensures n >= WRAPS ==> Float64(n) == TWO63
  {
    SpacingAtTop(n);
    hide Spacing;
    var q, r := n / 1024, n % 1024;
    assert n == q * 1024 + r && q <= TWO63 / 1024 - 1;
  }

  lemma FloatBounds(n: nat)
    requires TWO53 <= n < TWO63
    ensures 1 <= Float64(n)
    ensures Float64(n) < TWO63 <==> n < WRAPS
    ensures n >= WRAPS ==> Float64(n) == TWO63
  {
    hide Spacing, Float64;
    FloatNear(n);
    if n >= TWO63 / 2 {
      SpacingAtTop(n);
      FloatAtTop(n);
    } else {
      SmallSpacing(n, Spacing(n));
    }
  }

  lemma SmallSpacing(n: nat, u: nat)
    requires TWO53 <= n < TWO63 / 2 && u * (TWO53 / 2) <= n
    ensures u <= 1024
  {
  }

  lemma Divided(n: nat, u: nat)
    requires u >= 1
    ensures n == n / u * u + n % u && n % u < u
  {
  }

  /** One transfer between two accounts, the first of which is read back as `from`. */
  lemma TransferIs(b: Books, tx: Transaction)
    requires tx.hash !in b.processed && tx.from in b.accounts && tx.to !in b.accounts && Verified(tx)
    requires tx.value <= Reload(b.accounts[tx.from]) < TWO63
    ensures Execute(b, tx).accounts == b.accounts[tx.from := Reload(b.accounts[tx.from]) - tx.value][tx.to := tx.value]
    ensures Execute(b, tx).processed == b.processed + {tx.hash}
    ensures Total(Execute(b, tx).accounts) == Total(b.accounts) + Reload(b.accounts[tx.from]) - b.accounts[tx.from]
  {
    var m := b.accounts[tx.from := Reload(b.accounts[tx.from]) - tx.value];
    TotalSet(b.accounts, tx.from, Reload(b.accounts[tx.from]) - tx.value);
    TotalSet(m, tx.to, tx.value);
    hide Total, Reload;
  }

  /** With a greater supply two transfers are enough to lose a token, or one to gain or lose some. */
  lemma LosingRun(g: Transaction) returns (txs: seq<Transaction>)
    requires TWO53 < g.value < WRAPS
    ensures forall tx :: tx in txs ==> Verified(tx)
    ensures Total(ExecuteAll(Genesis(g), txs).accounts) != g.value
  {
    var x, y := g.to + "x", g.to + "y";
    assert |x| == |y| == |g.to| + 1 && x[|g.to|] != y[|g.to|];
    var h1, h2 := g.hash + "1", g.hash + "2";
    assert |h1| == |h2| == |g.hash| + 1 && h1[|g.hash|] != h2[|g.hash|];
    GenesisSound(g);
    FloatBounds(g.value);
    var b0 := Genesis(g);
    if Reload(g.value) != g.value {
      var t1 := Transaction(h1, g.to, x, 1, 0);
      TransferIs(b0, t1);
      txs := [t1];
      assert txs[..0] == [];
    } else {
      ReloadLossy();
      assert g.value > TWO53 + 1;
      var t1 := Transaction(h1, g.to, x, g.value - TWO53 - 1, 0);
      TransferIs(b0, t1);
      var b1 := Execute(b0, t1);
      var t2 := Transaction(h2, g.to, y, 1, 0);
      TransferIs(b1, t2);
      txs := [t1, t2];
      assert txs[..1] == [t1] && [t1][..0] == [];
      assert ExecuteAll(b0, [t1]) == b1;
    }
    hide Total, Reload, Execute;
  }

  /** With a supply that is read back as a negative number nothing can ever be transferred. */
  lemma {:induction false} Frozen(g: Transaction, txs: seq<Transaction>)
    requires WRAPS <= g.value < TWO63 && forall tx :: tx in txs ==> Verified(tx)
    ensures ExecuteAll(Genesis(g), txs) == Genesis(g)
    decreases |txs|
  {
    if txs != [] {
      Frozen(g, txs[..|txs| - 1]);
      Refused(g, txs[|txs| - 1]);
      hide Execute, Genesis;
    }
  }

  lemma Refused(g: Transaction, tx: Transaction)
    requires WRAPS <= g.value < TWO63 && Verified(tx)
    ensures Execute(Genesis(g), tx) == Genesis(g)
  {
    ReloadWraps(g.value);
    hide Reload;
  }

  lemma ReloadWraps(n: nat)
    requires WRAPS <= n < TWO63
    ensures Reload(n) == -TWO63
  {
    FloatBounds(n);
    hide Float64;
  }

  /**
    Over all supplies of 64 bits: the supply is conserved if and only if it is at most 2^53, where balances are read back
    as they are, or so great that the first account reads back as negative and no transfer passes.
   */
  lemma ConservesExactly(g: Transaction)
    requires 0 <= g.value < TWO63
    ensures Conserves(g) <==> g.value <= TWO53 || g.value >= WRAPS
  {
    if g.value <= TWO53 {
      forall txs | forall tx :: tx in txs ==> Verified(tx)
        ensures Total(ExecuteAll(Genesis(g), txs).accounts) == g.value
      {
        AllSound(g, txs);
      }
    } else if g.value >= WRAPS {
      GenesisSound(g);
      forall txs | forall tx :: tx in txs ==> Verified(tx)
        ensures Total(ExecuteAll(Genesis(g), txs).accounts) == g.value
      {
        Frozen(g, txs);
      }
    } else {
      var txs := LosingRun(g);
    }
  }

  lemma FloatIs(n: nat)
    ensures var u := Spacing(n); var q, r := n / u, n % u;
            Float64(n) == if 2 * r < u || (2 * r == u && q % 2 == 0) then q * u else (q + 1) * u
  {
    hide Spacing;
  }

  /** The closest multiple of the spacing, the even one in the middle. */
  lemma NearestFloat(n: nat) returns (q: nat)
    ensures var u := Spacing(n); var f := Float64(n);
            && f == q * u && 2 * (if f > n then f - n else n - f) <= u && (2 * (if f > n then f - n else n - f) == u ==> q % 2 == 0)
  {
    hide *;
    var u := Spacing(n);
    FloatIs(n);
    Divided(n, u);
    q := n / u;
    Distributed(q, u);
    if !(2 * (n % u) < u || (2 * (n % u) == u && q % 2 == 0)) {
      q := q + 1;
    }
  }

  lemma Distributed(q: nat, u: nat)
    ensures (q + 1) * u == q * u + u
  {
  }

  /**
    A transfer in a sound state: refused, with nothing changed, exactly if it is known or tokens are missing. Else one
    account has that much less and the other that much more, whether or not it existed before, and no other changes.
   */
  lemma TransferMoves(b: Books, supply: nat, tx: Transaction)
    requires Sound(b, supply) && supply <= TWO53 && Verified(tx)
    ensures var from := if tx.from in b.accounts then b.accounts[tx.from] else 0;
            var to := if tx.to in b.accounts then b.accounts[tx.to] else 0;
            var b' := Execute(b, tx);
            if tx.hash in b.processed || from < tx.value then b' == b
            else
              && b'.accounts.Keys == b.accounts.Keys + {tx.from, tx.to}
              && b'.accounts[tx.from] == from - tx.value && b'.accounts[tx.to] == to + tx.value
              && (forall a :: a in b.accounts && a != tx.from && a != tx.to ==> b'.accounts[a] == b.accounts[a])
              && b'.processed == b.processed + {tx.hash} && b'.applied == b.applied + [tx]
  {
    BalanceIs(b, supply, tx.from);
    BalanceIs(b, supply, tx.to);
    hide Balance, Total;
  }

  /** The database of accounts, and the transactions it has seen. */
  class Accounts {
    var accounts: map<Address, int>
    var processed: set<Hash>
    ghost var applied: seq<Transaction>

    ghost function State(): Books
      reads this
    {
      Books(accounts, processed, applied)
    }

    constructor (g: Transaction)
      ensures State() == Genesis(g)
    {
      accounts, processed, applied := map[g.to := g.value], {g.hash}, [g];
    }

    method toAccountByAddress(a: Address) returns (balance: int)
      ensures balance == Balance(State(), a)
    {
      if a !in accounts {
        return 0;
      }
      return Reload(accounts[a]);
    }

    /** Executes a token transfer, unless it has been executed before or there are too few tokens. */
    method executeTransaction(tx: Transaction) returns (executed: bool)
      requires Verified(tx)
      modifies this
      ensures State() == Execute(old(State()), tx)
      ensures executed <==> tx.hash !in old(processed) && old(Balance(State(), tx.from)) >= tx.value
    {
      if tx.hash in processed {
        return false;
      }
      var fromBalance := toAccountByAddress(tx.from);
      var toBalance := toAccountByAddress(tx.to);
      if fromBalance < tx.value {
        return false;
      }
      processed, applied := processed + {tx.hash}, applied + [tx];
      accounts := accounts[tx.from := Int64(fromBalance - tx.value)];
      accounts := accounts[tx.to := Int64(toBalance + tx.value)];
      return true;
    }
  }
}
