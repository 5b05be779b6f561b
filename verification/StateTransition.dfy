/** Buying, using and refunding gas. The virtual machine is an open step that creates neither gas nor tokens. */
module StateTransition {
  import opened Bytes
  import opened Wrappers
  import Ledger

  type Address = string

  const MAX_UINT64: nat := 0xffff_ffff_ffff_ffff
  const TX_GAS: nat := 21000
  const TX_GAS_CONTRACT_CREATION: nat := 53000
  const TX_DATA_ZERO_GAS: nat := 4
  const TX_DATA_NON_ZERO_GAS: nat := 68

  type uint64 = n: nat | n <= MAX_UINT64

  // ---- intrinsic gas ----

  /** What a message costs before it runs, as a number without bounds: zero bytes are cheaper than others. */
  ghost function TrueGas(data: bytes, contractCreation: bool, homestead: bool): nat {
    (if contractCreation && homestead then 53000 else 21000) + 4 * multiset(data)[0] + 68 * (|data| - multiset(data)[0])
  }

  /** The intrinsic gas; none exactly if it does not fit in 64 bits. A slice is shorter than 2^63. */
  method IntrinsicGas(data: bytes, contractCreation: bool, homestead: bool) returns (r: Option<uint64>)
    requires |data| <= MAX_UINT64 / 2
    ensures var total := TrueGas(data, contractCreation, homestead);
            r == if total <= MAX_UINT64 then Some(total) else None
  {
    var gas: uint64 := TX_GAS;
    if contractCreation && homestead {
      gas := TX_GAS_CONTRACT_CREATION;
    }
    if |data| > 0 {
      var nz: uint64 := 0;
      for i := 0 to |data|
        invariant nz <= i && multiset(data[..i])[0] == i - nz
      {
        assert data[..i + 1] == data[..i] + [data[i]];
        if data[i] != 0 {
          nz := nz + 1;
        }
      }
      assert data[..|data|] == data;
      if (MAX_UINT64 - gas) / TX_DATA_NON_ZERO_GAS < nz {
        return None;
      }
      gas := gas + nz * TX_DATA_NON_ZERO_GAS;

      var z := |data| - nz;
      if (MAX_UINT64 - gas) / TX_DATA_ZERO_GAS < z {
        return None;
      }
      gas := gas + z * TX_DATA_ZERO_GAS;
    }
    return Some(gas);
  }

  // ---- the pool ----

  /** The gas available to the transactions of a block. */
  class GasPool {
    var gas: uint64

    constructor (gas: uint64)
      ensures this.gas == gas
    {
      this.gas := gas;
    }

    /** Pushing the pool above 64 bits is a fault: the program panics. */
    method AddGas(amount: uint64)
      requires gas + amount <= MAX_UINT64
      modifies this
      ensures gas == old(gas) + amount
    {
      gas := gas + amount;
    }

    method SubGas(amount: uint64) returns (err: bool)
      modifies this
      ensures err <==> old(gas) < amount
      ensures gas == if err then old(gas) else old(gas) - amount
    {
      if gas < amount {
        return true;
      }
      gas := gas - amount;
      return false;
    }
  }

  // ---- the transition ----

  /** What the state keeps of accounts, and the refund counter. */
  datatype World = World(balances: map<Address, int>, nonces: map<Address, uint64>, refund: uint64)

  datatype Message = Message(from: Address, to: Option<Address>, gasPrice: int, gas: uint64, nonce: uint64, checkNonce: bool, data: bytes)

  datatype VmError = OutOfGas | InsufficientBalance | Reverted

  datatype Error = NonceTooHigh | NonceTooLow | InsufficientBalanceForGas | GasLimitReached | Vm(error: VmError)

  /** What the virtual machine leaves behind: a state, some gas, and an error. */
  datatype Execution = Execution(world: World, gas: uint64, err: Option<VmError>)

  /** The virtual machine, on the message: it creates a contract, or calls one, in a state and with some gas. */
  datatype Machine = Machine(create: (World, uint64) -> Execution, call: (World, uint64) -> Execution)

  /** The machine gives no more gas back than it was given, and keeps the total of balances. */
  ghost predicate Conserving(evm: Machine) {
    && (forall w, g :: evm.create(w, g).gas <= g && Ledger.Total(evm.create(w, g).world.balances) == Ledger.Total(w.balances))
    && (forall w, g :: evm.call(w, g).gas <= g && Ledger.Total(evm.call(w, g).world.balances) == Ledger.Total(w.balances))
  }

  function GetBalance(w: World, a: Address): (r: int)
    ensures if a in w.balances then (a, r) in w.balances.Items else r == 0
  {
    if a in w.balances then w.balances[a] else 0
  }

  function AddBalance(w: World, a: Address, amount: int): (r: World)
    ensures r.balances.Keys == w.balances.Keys + {a} && r.nonces == w.nonces && r.refund == w.refund
    ensures r.balances[a] == (if a in w.balances then w.balances[a] else 0) + amount
    ensures forall b :: b in w.balances && b != a ==> r.balances[b] == w.balances[b]
  {
    w.(balances := w.balances[a := GetBalance(w, a) + amount])
  }

  function GetNonce(w: World, a: Address): (r: uint64)
    ensures if a in w.nonces then (a, r) in w.nonces.Items else r == 0
  {
    if a in w.nonces then w.nonces[a] else 0
  }

  /** Nonces have 64 bits. */
  function NextNonce(w: World, a: Address): (r: World)
    ensures r.nonces.Keys == w.nonces.Keys + {a} && r.balances == w.balances && r.refund == w.refund
    ensures r.nonces[a] == ((if a in w.nonces then w.nonces[a] else 0) + 1) % (MAX_UINT64 + 1)
    ensures forall b :: b in w.nonces && b != a ==> r.nonces[b] == w.nonces[b]
  {
    w.(nonces := w.nonces[a := if GetNonce(w, a) == MAX_UINT64 then 0 else GetNonce(w, a) + 1])
  }

  lemma TotalAdd(w: World, a: Address, amount: int)
    ensures Ledger.Total(AddBalance(w, a, amount).balances) == Ledger.Total(w.balances) + amount
  {
    Ledger.TotalSet(w.balances, a, GetBalance(w, a) + amount);
  }

  /** What is left and what is used, at the same price, make what was bought. */
  lemma Settle(ran: World, from: Address, coinbase: Address, bought: nat, left: nat, price: int)
    requires left <= bought
    ensures Ledger.Total(AddBalance(AddBalance(ran, from, left * price), coinbase, (bought - left) * price).balances)
            == Ledger.Total(ran.balances) + bought * price
  {
    TotalAdd(ran, from, left * price);
    TotalAdd(AddBalance(ran, from, left * price), coinbase, (bought - left) * price);
    hide *;
    assert left * price + (bought - left) * price == bought * price;
  }

  /** A message on its way through the state. */
  class Transition {
    const gp: GasPool
    const msg: Message
    const coinbase: Address
    const homestead: bool
    var gas: uint64
    var initialGas: uint64
    var world: World

    constructor (gp: GasPool, msg: Message, coinbase: Address, homestead: bool, world: World)
      ensures this.gp == gp && this.msg == msg && this.coinbase == coinbase && this.homestead == homestead
      ensures this.world == world && gas == 0 && initialGas == 0
    {
      this.gp, this.msg, this.coinbase, this.homestead, this.world := gp, msg, coinbase, homestead, world;
      gas, initialGas := 0, 0;
    }

    method useGas(amount: uint64) returns (err: bool)
      modifies this`gas
      ensures err <==> old(gas) < amount
      ensures gas == if err then old(gas) else old(gas) - amount
    {
      if gas < amount {
        return true;
      }
      gas := gas - amount;
      return false;
    }

    /** Pays for all of the message's gas in advance. */
    method buyGas() returns (err: Option<Error>)
      requires gas == 0
      modifies this, gp
      ensures err.Some? ==> gas == old(gas) && world == old(world) && gp.gas == old(gp.gas)
      ensures err == None ==>
                && gas == initialGas == msg.gas && gp.gas == old(gp.gas) - msg.gas
                && GetBalance(old(world), msg.from) >= msg.gas * msg.gasPrice
                && world == AddBalance(old(world), msg.from, -(msg.gas * msg.gasPrice))
      ensures err == Some(InsufficientBalanceForGas) <==> GetBalance(old(world), msg.from) < msg.gas * msg.gasPrice
      ensures err == Some(GasLimitReached) <==> err != Some(InsufficientBalanceForGas) && old(gp.gas) < msg.gas
      ensures err == None || err == Some(InsufficientBalanceForGas) || err == Some(GasLimitReached)
    {
      var mgval := msg.gas * msg.gasPrice;
      if GetBalance(world, msg.from) < mgval {
        return Some(InsufficientBalanceForGas);
      }
      var full := gp.SubGas(msg.gas);
      if full {
        return Some(GasLimitReached);
      }
      gas := gas + msg.gas;
      initialGas := msg.gas;
      world := AddBalance(world, msg.from, -mgval);
      return None;
    }

    /** Which refusals there are in a state, with that much gas in the pool: the nonce is looked at first, then the balance. */
    ghost predicate Refusals(w: World, pool: nat, err: Option<Error>) {
      && (err == Some(NonceTooHigh) <==> msg.checkNonce && GetNonce(w, msg.from) < msg.nonce)
      && (err == Some(NonceTooLow) <==> msg.checkNonce && GetNonce(w, msg.from) > msg.nonce)
      && (err == Some(InsufficientBalanceForGas) <==>
            (msg.checkNonce ==> GetNonce(w, msg.from) == msg.nonce) && GetBalance(w, msg.from) < msg.gas * msg.gasPrice)
      && (err == Some(GasLimitReached) <==>
            (msg.checkNonce ==> GetNonce(w, msg.from) == msg.nonce) && GetBalance(w, msg.from) >= msg.gas * msg.gasPrice && pool < msg.gas)
    }

    /** What comes after the checks does not look like a refusal. */
    lemma NoRefusal(w: World, pool: nat, vmerr: VmError)
      requires Refusals(w, pool, None)
      ensures Refusals(w, pool, Some(Vm(vmerr)))
    {
    }

    method preCheck() returns (err: Option<Error>)
      requires gas == 0
      modifies this, gp
      ensures Refusals(old(world), old(gp.gas), err)
      ensures err.Some? ==> !err.value.Vm? && gas == old(gas) && world == old(world) && gp.gas == old(gp.gas)
      ensures err == None ==>
                && gas == initialGas == msg.gas && gp.gas == old(gp.gas) - msg.gas
                && world == AddBalance(old(world), msg.from, -(msg.gas * msg.gasPrice))
    {
      if msg.checkNonce {
        var nonce := GetNonce(world, msg.from);
        if nonce < msg.nonce {
          return Some(NonceTooHigh);
        } else if nonce > msg.nonce {
          return Some(NonceTooLow);
        }
      }
      err := buyGas();
    }

    /** Gives back the gas that is left, and what the refund counter says, up to half of what was used. */
    method refundGas()
      requires gas <= initialGas && gp.gas + initialGas <= MAX_UINT64
      modifies this`gas, this`world, gp
      ensures old(gas) <= gas <= initialGas
      ensures var used := initialGas - old(gas);
              gas - old(gas) == if used / 2 > old(world).refund then old(world).refund else used / 2
      ensures world == AddBalance(old(world), msg.from, gas * msg.gasPrice)
      ensures gp.gas == old(gp.gas) + gas
    {
      var refund := gasUsed() / 2;
      if refund > world.refund {
        refund := world.refund;
      }
      gas := gas + refund;
      world := AddBalance(world, msg.from, gas * msg.gasPrice);
      gp.AddGas(gas);
    }

    function gasUsed(): uint64
      requires gas <= initialGas
      reads this
    {
      initialGas - gas
    }

    /** Runs the machine: a creation bumps the nonce after, a call before. */
    method run(evm: Machine) returns (vmerr: Option<VmError>)
      requires Conserving(evm)
      modifies this`gas, this`world
      ensures gas <= old(gas) && Ledger.Total(world.balances) == Ledger.Total(old(world).balances)
      ensures Ran(evm, old(world), old(gas), world, gas, vmerr)
    {
      if msg.to.None? {
        var e := evm.create(world, gas);
        gas, vmerr := e.gas, e.err;
        world := NextNonce(e.world, msg.from);
      } else {
        world := NextNonce(world, msg.from);
        var e := evm.call(world, gas);
        gas, vmerr, world := e.gas, e.err, e.world;
      }
    }

    /** What the machine makes of the message in a state, the sender's nonce one higher after a creation, or before a call. */
    ghost predicate Ran(evm: Machine, before: World, given: uint64, after: World, left: uint64, vmerr: Option<VmError>) {
      if msg.to.None? then
        var e := evm.create(before, given);
        && left == e.gas && vmerr == e.err
        && after.balances == e.world.balances && after.refund == e.world.refund
        && after.nonces == e.world.nonces[msg.from := (GetNonce(e.world, msg.from) + 1) % (MAX_UINT64 + 1)]
      else
        evm.call(before.(nonces := before.nonces[msg.from := (GetNonce(before, msg.from) + 1) % (MAX_UINT64 + 1)]), given)
        == Execution(after, left, vmerr)
    }

    /** The gas that is bought, and the state once it is paid for. */
    ghost function Paid(w: World): World { AddBalance(w, msg.from, -(msg.gas * msg.gasPrice)) }

    ghost function Intrinsic(): nat { TrueGas(msg.data, msg.to.None?, homestead) }

    /** The gas that is used when the machine leaves that much of what was bought: up to half of the rest comes back. */
    ghost function Used(left: nat, refund: nat): int {
      msg.gas - left - (if (msg.gas - left) / 2 > refund then refund else (msg.gas - left) / 2)
    }

    /** Once the gas is paid for: the intrinsic gas, the machine, and the settlement. */
    method proceed(evm: Machine)
      returns (usedGas: uint64, failed: bool, err: Option<VmError>, settled: bool, ghost ran: World, ghost left: uint64, ghost vmerr: Option<VmError>)
      requires Conserving(evm) && gas == initialGas == msg.gas && gp.gas + msg.gas <= MAX_UINT64 && |msg.data| <= MAX_UINT64 / 2
      modifies this`gas, this`world, gp
      ensures Intrinsic() > msg.gas ==> !settled && err == Some(OutOfGas) && world == old(world) && gp.gas == old(gp.gas)
      ensures Intrinsic() <= msg.gas ==>
                && Ran(evm, old(world), msg.gas - Intrinsic(), ran, left, vmerr) && err == vmerr
                && left <= msg.gas - Intrinsic() && Ledger.Total(ran.balances) == Ledger.Total(old(world).balances)
                && (settled <==> vmerr != Some(InsufficientBalance))
                && (!settled ==> world == ran && gp.gas == old(gp.gas))
      ensures settled ==>
                && (failed <==> err.Some?) && usedGas == Used(left, ran.refund)
                && world == AddBalance(AddBalance(ran, msg.from, (msg.gas - usedGas) * msg.gasPrice), coinbase, usedGas * msg.gasPrice)
                && gp.gas == old(gp.gas) + msg.gas - usedGas
                && Ledger.Total(world.balances) == Ledger.Total(old(world).balances) + msg.gas * msg.gasPrice
      ensures !settled ==> err.Some? && usedGas == 0 && !failed
    {
      hide *;
      ran, left, vmerr := world, 0, None;
      var intrinsic := IntrinsicGas(msg.data, msg.to.None?, homestead);
      IntrinsicIs();
      if intrinsic.None? {
        return 0, false, Some(OutOfGas), false, ran, left, vmerr;
      }
      var short := useGas(intrinsic.value);
      if short {
        return 0, false, Some(OutOfGas), false, ran, left, vmerr;
      }
      var failure := run(evm);
      ran, left, vmerr := world, gas, failure;
      if failure == Some(InsufficientBalance) {
        return 0, false, failure, false, ran, left, vmerr;
      }
      UsedIs(left, ran.refund);
      usedGas := settle();
      return usedGas, failure.Some?, failure, true, ran, left, vmerr;
    }

    lemma UsedIs(left: nat, refund: nat)
      ensures Used(left, refund) == msg.gas - left - if (msg.gas - left) / 2 > refund then refund else (msg.gas - left) / 2
      ensures left <= msg.gas ==> msg.gas - left <= 2 * Used(left, refund) && Used(left, refund) <= msg.gas
    {
    }

    /**
      Applies the message. It is refused, and nothing changes, exactly if its nonce is not the account's, the account cannot
      pay, or the block has no gas left. Else the gas is bought; if it does not cover the intrinsic gas, or the machine
      finds the balance insufficient, it is lost. Else the machine has run: the pool has lost just the gas used, no more than was
      bought and no less than half of what was consumed, and with the sender's refund and the coinbase's fee the total of
      all balances is what it was.
     */
    method TransitionDb(evm: Machine)
      returns (usedGas: uint64, failed: bool, err: Option<Error>, settled: bool, ghost ran: World, ghost left: uint64, ghost vmerr: Option<VmError>)
      requires Conserving(evm) && gas == 0 && |msg.data| <= MAX_UINT64 / 2
      modifies this, gp
      ensures Refusals(old(world), old(gp.gas), err)
      ensures err.Some? && !err.value.Vm? ==> !settled && world == old(world) && gp.gas == old(gp.gas)
      ensures (err.None? || err.value.Vm?) && Intrinsic() > msg.gas ==>
                !settled && err == Some(Vm(OutOfGas)) && world == Paid(old(world)) && gp.gas == old(gp.gas) - msg.gas
      ensures (err.None? || err.value.Vm?) && Intrinsic() <= msg.gas ==>
                && Ran(evm, Paid(old(world)), msg.gas - Intrinsic(), ran, left, vmerr)
                && err == (if vmerr.None? then None else Some(Vm(vmerr.value)))
                && (settled <==> vmerr != Some(InsufficientBalance))
                && (!settled ==> world == ran && gp.gas == old(gp.gas) - msg.gas)
      ensures settled ==>
                && (err.None? || err.value.Vm?) && Intrinsic() <= msg.gas && left <= msg.gas - Intrinsic() && (failed <==> err.Some?)
                && usedGas == Used(left, ran.refund) && Intrinsic() <= 2 * usedGas <= 2 * msg.gas
                && world == AddBalance(AddBalance(ran, msg.from, (msg.gas - usedGas) * msg.gasPrice), coinbase, usedGas * msg.gasPrice)
                && gp.gas == old(gp.gas) - usedGas
                && Ledger.Total(world.balances) == Ledger.Total(old(world).balances)
      ensures !settled ==> err.Some? && usedGas == 0 && !failed
    {
      hide *;
      ghost var before := world;
      ran, left, vmerr := world, 0, None;
      err := preCheck();
      if err.Some? {
        return 0, false, err, false, ran, left, vmerr;
      }
      TotalAdd(before, msg.from, -(msg.gas * msg.gasPrice));
      PaidIs(before);
      var failure;
      usedGas, failed, failure, settled, ran, left, vmerr := proceed(evm);
      err := None;
      if failure.Some? {
        NoRefusal(before, old(gp.gas), failure.value);
        err := Some(Vm(failure.value));
      }
      UsedIs(left, ran.refund);
    }

    lemma PaidIs(w: World)
      ensures Paid(w) == AddBalance(w, msg.from, -(msg.gas * msg.gasPrice))
    {
    }

    lemma IntrinsicIs()
      ensures Intrinsic() == TrueGas(msg.data, msg.to.None?, homestead)
    {
    }

    /** Refunds the sender, and pays the coinbase. */
    method settle() returns (used: uint64)
      requires gas <= initialGas && gp.gas + initialGas <= MAX_UINT64
      modifies this`gas, this`world, gp
      ensures gas <= initialGas == old(initialGas) && used == initialGas - gas && gp.gas == old(gp.gas) + gas
      ensures var consumed := initialGas - old(gas);
              used == consumed - if consumed / 2 > old(world).refund then old(world).refund else consumed / 2
      ensures world == AddBalance(AddBalance(old(world), msg.from, (initialGas - used) * msg.gasPrice), coinbase, used * msg.gasPrice)
      ensures Ledger.Total(world.balances) == Ledger.Total(old(world).balances) + initialGas * msg.gasPrice
    {
      ghost var ran := world;
      refundGas();
      used := gasUsed();
      Settle(ran, msg.from, coinbase, initialGas, gas, msg.gasPrice);
      hide AddBalance, Ledger.Total;
      world := AddBalance(world, coinbase, used * msg.gasPrice);
    }
  }
}
