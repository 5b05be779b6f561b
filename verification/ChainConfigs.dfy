/** Chain configurations: whether one can replace another, and how far back the chain must go if not. */
module ChainConfigs {
  import opened Bytes
  import opened Wrappers

  /** Block numbers at which rules change; none if they never do. */
  datatype ChainConfig = ChainConfig(
    chainID: Option<int>,
    homesteadBlock: Option<int>,
    daoForkBlock: Option<int>,
    daoForkSupport: bool,
    eip150Block: Option<int>,
    eip155Block: Option<int>,
    eip158Block: Option<int>,
    byzantiumBlock: Option<int>,
    constantinopleBlock: Option<int>)

  datatype ConfigCompatError = ConfigCompatError(what: string, storedConfig: Option<int>, newConfig: Option<int>, rewindTo: nat)

  /** Whether a fork is active at a head. */
  predicate isForked(s: Option<int>, head: int) { s.Some? && s.value <= head }

  /** Whether a fork cannot be rescheduled because the head is already past it. */
  predicate isForkIncompatible(s1: Option<int>, s2: Option<int>, head: int) {
    (isForked(s1, head) || isForked(s2, head)) && s1 != s2
  }

  /** The lower 64 bits of the magnitude. */
  function Uint64(n: int): nat { (if n < 0 then -n else n) % TWO64 }

  function newCompatError(what: string, stored: Option<int>, new_: Option<int>): ConfigCompatError {
    var rew := if stored.None? then new_ else if new_.None? || stored.value < new_.value then stored else new_;
    ConfigCompatError(what, stored, new_, if rew.Some? && rew.value > 0 then (Uint64(rew.value) + TWO64 - 1) % TWO64 else 0)
  }

  /** The first conflict at a head, in the order in which the program looks. */
  function checkCompatible(c: ChainConfig, n: ChainConfig, head: int): Option<ConfigCompatError> {
    if isForkIncompatible(c.homesteadBlock, n.homesteadBlock, head) then
      Some(newCompatError("Homestead fork block", c.homesteadBlock, n.homesteadBlock))
    else if isForkIncompatible(c.daoForkBlock, n.daoForkBlock, head) then
      Some(newCompatError("DAO fork block", c.daoForkBlock, n.daoForkBlock))
    else if isForked(c.daoForkBlock, head) && c.daoForkSupport != n.daoForkSupport then
      Some(newCompatError("DAO fork support flag", c.daoForkBlock, n.daoForkBlock))
    else if isForkIncompatible(c.eip150Block, n.eip150Block, head) then
      Some(newCompatError("EIP150 fork block", c.eip150Block, n.eip150Block))
    else if isForkIncompatible(c.eip155Block, n.eip155Block, head) then
      Some(newCompatError("EIP155 fork block", c.eip155Block, n.eip155Block))
    else if isForkIncompatible(c.eip158Block, n.eip158Block, head) then
      Some(newCompatError("EIP158 fork block", c.eip158Block, n.eip158Block))
    else if isForked(c.eip158Block, head) && c.chainID != n.chainID then
      Some(newCompatError("EIP158 chain ID", c.eip158Block, n.eip158Block))
    else if isForkIncompatible(c.byzantiumBlock, n.byzantiumBlock, head) then
      Some(newCompatError("Byzantium fork block", c.byzantiumBlock, n.byzantiumBlock))
    else if isForkIncompatible(c.constantinopleBlock, n.constantinopleBlock, head) then
      Some(newCompatError("Constantinople fork block", c.constantinopleBlock, n.constantinopleBlock))
    else None
  }

  // ---- what compatible means ----

  /** The rules in force at a block. */
  datatype Rules = Rules(
    homestead: bool, dao: Option<bool>, eip150: bool, eip155: bool, eip158: Option<Option<int>>, byzantium: bool, constantinople: bool)

  function RulesAt(c: ChainConfig, block: int): Rules {
    Rules(
      isForked(c.homesteadBlock, block),
      if isForked(c.daoForkBlock, block) then Some(c.daoForkSupport) else None,
      isForked(c.eip150Block, block),
      isForked(c.eip155Block, block),
      if isForked(c.eip158Block, block) then Some(c.chainID) else None,
      isForked(c.byzantiumBlock, block),
      isForked(c.constantinopleBlock, block))
  }

  /** Up to a head both configurations have the same rules in force at every block: the past is not altered. */
  ghost predicate SamePast(c: ChainConfig, n: ChainConfig, head: int) {
    forall block :: block <= head ==> RulesAt(c, block) == RulesAt(n, block)
  }

  /** The first block at which one of two forks is active. */
  function First(s1: Option<int>, s2: Option<int>): int {
    if s1.None? then (if s2.None? then 0 else s2.value) else if s2.None? || s1.value < s2.value then s1.value else s2.value
  }

  lemma FirstDiffers(s1: Option<int>, s2: Option<int>, head: int)
    ensures isForkIncompatible(s1, s2, head) ==> First(s1, s2) <= head && isForked(s1, First(s1, s2)) != isForked(s2, First(s1, s2))
    ensures !isForkIncompatible(s1, s2, head) ==> forall b :: b <= head ==> (isForked(s1, b) <==> isForked(s2, b))
  {
  }

  /** Two forks that cannot replace each other give other rules to the first block they disagree on. */
  lemma ForkIsSame(c: ChainConfig, n: ChainConfig, s1: Option<int>, s2: Option<int>, head: int)
    requires SamePast(c, n, head)
    requires RulesAt(c, First(s1, s2)) == RulesAt(n, First(s1, s2)) ==> isForked(s1, First(s1, s2)) == isForked(s2, First(s1, s2))
    ensures !isForkIncompatible(s1, s2, head)
  {
    FirstDiffers(s1, s2, head);
  }

  /** There is no conflict at a head if, and only if, no block up to the head gets other rules. */
  lemma CompatibleIsSamePast(c: ChainConfig, n: ChainConfig, head: int)
    ensures checkCompatible(c, n, head) == None <==> SamePast(c, n, head)
  {
    if SamePast(c, n, head) {
      ForkIsSame(c, n, c.homesteadBlock, n.homesteadBlock, head);
      ForkIsSame(c, n, c.daoForkBlock, n.daoForkBlock, head);
      ForkIsSame(c, n, c.eip150Block, n.eip150Block, head);
      ForkIsSame(c, n, c.eip155Block, n.eip155Block, head);
      ForkIsSame(c, n, c.eip158Block, n.eip158Block, head);
      ForkIsSame(c, n, c.byzantiumBlock, n.byzantiumBlock, head);
      ForkIsSame(c, n, c.constantinopleBlock, n.constantinopleBlock, head);
      assert RulesAt(c, head) == RulesAt(n, head);
    } else if checkCompatible(c, n, head) == None {
      FirstDiffers(c.homesteadBlock, n.homesteadBlock, head);
      FirstDiffers(c.daoForkBlock, n.daoForkBlock, head);
      FirstDiffers(c.eip150Block, n.eip150Block, head);
      FirstDiffers(c.eip155Block, n.eip155Block, head);
      FirstDiffers(c.eip158Block, n.eip158Block, head);
      FirstDiffers(c.byzantiumBlock, n.byzantiumBlock, head);
      FirstDiffers(c.constantinopleBlock, n.constantinopleBlock, head);
    }
  }

  // ---- how far to rewind ----

  lemma NotBelow(c: ChainConfig, n: ChainConfig, head: int, lower: int)
    requires !SamePast(c, n, lower) && lower <= head
    ensures !SamePast(c, n, head)
  {
  }

  /** Where a conflict of one fork begins. */
  lemma ForkRewind(what: string, s1: Option<int>, s2: Option<int>, head: nat)
    requires head < TWO64 && (isForkIncompatible(s1, s2, head) || (s1 == s2 && isForked(s1, head)))
    ensures var to := newCompatError(what, s1, s2).rewindTo;
            && (to < head || (to == 0 && head == 0))
            && (isForkIncompatible(s1, s2, to + 1) <==> s1 != s2) && (s1 == s2 ==> isForked(s1, to + 1))
  {
  }

  /** A conflict at a head comes with a lower head to rewind to, and already at the next block there is a conflict. */
  lemma ConflictRewind(c: ChainConfig, n: ChainConfig, head: nat)
    requires head < TWO64 && checkCompatible(c, n, head).Some?
    ensures var to := checkCompatible(c, n, head).value.rewindTo;
            (to < head || (to == 0 && head == 0)) && checkCompatible(c, n, to + 1).Some?
  {
    var e := checkCompatible(c, n, head).value;
    if isForkIncompatible(c.homesteadBlock, n.homesteadBlock, head) {
      ForkRewind(e.what, c.homesteadBlock, n.homesteadBlock, head);
    } else if isForkIncompatible(c.daoForkBlock, n.daoForkBlock, head) || (isForked(c.daoForkBlock, head) && c.daoForkSupport != n.daoForkSupport) {
      ForkRewind(e.what, c.daoForkBlock, n.daoForkBlock, head);
    } else if isForkIncompatible(c.eip150Block, n.eip150Block, head) {
      ForkRewind(e.what, c.eip150Block, n.eip150Block, head);
    } else if isForkIncompatible(c.eip155Block, n.eip155Block, head) {
      ForkRewind(e.what, c.eip155Block, n.eip155Block, head);
    } else if isForkIncompatible(c.eip158Block, n.eip158Block, head) || (isForked(c.eip158Block, head) && c.chainID != n.chainID) {
      ForkRewind(e.what, c.eip158Block, n.eip158Block, head);
    } else if isForkIncompatible(c.byzantiumBlock, n.byzantiumBlock, head) {
      ForkRewind(e.what, c.byzantiumBlock, n.byzantiumBlock, head);
    } else {
      ForkRewind(e.what, c.constantinopleBlock, n.constantinopleBlock, head);
    }
    hide newCompatError;
  }

  /** Compares with a new configuration: no error, or the head to rewind to. */
  method CheckCompatible(c: ChainConfig, n: ChainConfig, height: nat) returns (lasterr: Option<ConfigCompatError>)
    requires height < TWO64
    ensures lasterr == None <==> SamePast(c, n, height)
    ensures lasterr.Some? && SamePast(c, n, 0) ==>
              && lasterr.value.rewindTo < height && SamePast(c, n, lasterr.value.rewindTo)
              && forall head :: lasterr.value.rewindTo < head <= height ==> !SamePast(c, n, head)
    ensures lasterr.Some? && !SamePast(c, n, 0) ==> lasterr.value.rewindTo == 0
  {
    hide *;
    var bhead: nat := height;
    CompatibleIsSamePast(c, n, height);
    lasterr := None;
    while true
      invariant bhead <= height
      invariant lasterr == None ==> bhead == height
      invariant lasterr.Some? ==>
                  && bhead == lasterr.value.rewindTo && (bhead < height || height == 0)
                  && !SamePast(c, n, height) && !SamePast(c, n, bhead + 1)
      decreases bhead, lasterr == None
    {
      CompatibleIsSamePast(c, n, bhead);
      var err := checkCompatible(c, n, bhead);
      if err == None {
        break;
      }
      ConflictRewind(c, n, bhead);
      if lasterr.Some? && err.value.rewindTo == lasterr.value.rewindTo {
        break;
      }
      lasterr := err;
      bhead := err.value.rewindTo;
      CompatibleIsSamePast(c, n, bhead + 1);
    }
    if lasterr.Some? {
      Greatest(c, n, bhead, height);
      if !SamePast(c, n, 0) {
        NotBelow(c, n, bhead, 0);
      }
    }
  }

  /** From a conflict on there is one at every head. */
  lemma Greatest(c: ChainConfig, n: ChainConfig, to: nat, height: nat)
    requires !SamePast(c, n, to + 1)
    ensures forall head :: to < head <= height ==> !SamePast(c, n, head)
  {
    hide SamePast;
    forall head | to < head <= height
      ensures !SamePast(c, n, head)
    {
      NotBelow(c, n, head, to + 1);
    }
  }
}
