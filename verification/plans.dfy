/** The decisions of `swapToken` and `stakeToken` (gas.js:117-209). Each
    call is a pure function from the configuration, the token name, an
    optional override address and the replies of the chain to a result
    boolean and the ordered trace of chain calls it makes. Logging and the
    fixed delays between calls leave no trace. */
module Plans {
  import opened Base
  import opened Settings
  import Abi

  type Address = string

  /** Gas parameters attached to a transaction. */
  datatype Gas = Gas(limit: nat, price: nat)

  /** One call into the chain, in the order the script awaits them. A token
      address is optional because the configuration may lack one; reading
      the balance of an undefined token is attempted and throws. */
  datatype Action =
    | ReadBalance(token: Option<Address>)               // decimals, balanceOf, symbol
    | ReadAllowance(token: Option<Address>, spender: Address)
    | Approve(token: Option<Address>, spender: Address, amount: Uint256, gas: Gas)
    | Send(to: Address, data: string, gas: Gas)

  /** A transaction, as opposed to a read. */
  predicate IsTx(a: Action)
  {
    a.Approve? || a.Send?
  }

  /** What the chain answers during one call: the balance read, the
      allowance read, whether the approval was submitted and confirmed, and
      whether the swap or stake transaction was submitted and confirmed.
      A false flag means `approve`/`sendTransaction` or its `wait` threw. */
  datatype Chain = Chain(
    balance: Reply<Uint256>,
    allowance: Reply<Uint256>,
    approveConfirmed: bool,
    sendConfirmed: bool)

  /** The boolean the call returns and the chain calls it made. */
  datatype Plan = Plan(ok: bool, trace: seq<Action>)

  /** The transactions of a trace, in order. */
  function Txs(trace: seq<Action>): (txs: seq<Action>)
    ensures |txs| <= |trace|
    ensures forall i :: 0 <= i < |txs| ==> IsTx(txs[i])
  {
    if |trace| == 0 then []
    else (if IsTx(trace[0]) then [trace[0]] else []) + Txs(trace[1..])
  }

  /** Filtering distributes over concatenation. */
  lemma {:induction false} TxsAppend(a: seq<Action>, b: seq<Action>)
    ensures Txs(a + b) == Txs(a) + Txs(b)
  {
    if |a| > 0 {
      assert (a + b)[0] == a[0];
      assert (a + b)[1..] == a[1..] + b;
      TxsAppend(a[1..], b);
    } else {
      assert a + b == b;
    }
  }

  /** A trace of reads only has no transactions. */
  lemma {:induction false} TxsOfReads(trace: seq<Action>)
    requires forall i :: 0 <= i < |trace| ==> !IsTx(trace[i])
    ensures Txs(trace) == []
  {
    if |trace| > 0 {
      TxsOfReads(trace[1..]);
    }
  }

  /** A trace of transactions only is its own transaction list. */
  lemma {:induction false} TxsOfTxs(trace: seq<Action>)
    requires forall i :: 0 <= i < |trace| ==> IsTx(trace[i])
    ensures Txs(trace) == trace
  {
    if |trace| > 0 {
      TxsOfTxs(trace[1..]);
      assert trace == [trace[0]] + trace[1..];
    }
  }

  /** Reads followed by transactions: the transactions are the tail. */
  lemma TxsAfterReads(queried: seq<Action>, txs: seq<Action>)
    requires forall i :: 0 <= i < |queried| ==> !IsTx(queried[i])
    requires forall i :: 0 <= i < |txs| ==> IsTx(txs[i])
    ensures Txs(queried + txs) == txs
  {
    TxsAppend(queried, txs);
    TxsOfReads(queried);
    TxsOfTxs(txs);
  }

  /** Every approval in the trace comes strictly before every send. */
  predicate ApproveBeforeSend(trace: seq<Action>)
  {
    forall i, j :: 0 <= i < |trace| && 0 <= j < |trace| && trace[i].Approve? && trace[j].Send? ==> i < j
  }

  /** No swap or stake transaction is in the trace. */
  predicate NoSend(trace: seq<Action>)
  {
    forall i :: 0 <= i < |trace| ==> !trace[i].Send?
  }

  /** The reads of `swapToken` and the approval after them send nothing,
      so their approvals trivially precede every send. */
  lemma QueriedNoSend(token: Option<Address>, router: Address, balance: Uint256, gas: Gas)
    ensures NoSend([ReadBalance(token), ReadAllowance(token, router)])
    ensures NoSend([ReadBalance(token), ReadAllowance(token, router), Approve(token, router, balance, gas)])
    ensures ApproveBeforeSend([ReadBalance(token), ReadAllowance(token, router)])
    ensures ApproveBeforeSend([ReadBalance(token), ReadAllowance(token, router), Approve(token, router, balance, gas)])
  {
  }

  /** The transactions of a config-driven trace carry the config's gas. */
  function ConfigGas(c: Config): Gas
  {
    Gas(c.gasLimit, c.gasPrice)
  }

  /** `swapToken` can proceed: the token has a truthy router and a truthy
      `<name>Swap` method id. */
  predicate SwapConfigured(c: Config, name: string)
  {
    Truthy(Lookup(c.routers, name)) && Truthy(Lookup(c.methodIds, name + "Swap"))
  }

  /** `sendTransaction` and its `wait` after the calls in `before`: data
      that is not hex is rejected before anything is sent; otherwise the
      transaction is sent, and the call succeeds when it is confirmed. */
  function SendAfter(before: seq<Action>, to: Address, data: string, gas: Gas, confirmed: bool): (p: Plan)
    ensures Abi.IsHexData(data) ==> p.trace == before + [Send(to, data, gas)]
    ensures !Abi.IsHexData(data) ==> p.trace == before
    ensures p.ok <==> Abi.IsHexData(data) && confirmed
    ensures NoSend(before) ==> ApproveBeforeSend(p.trace)
  {
    if Abi.IsHexData(data) then Plan(confirmed, before + [Send(to, data, gas)])
    else Plan(false, before)
  }

  /** `swapToken(name)`. */
  function SwapToken(c: Config, name: string, chain: Chain): (p: Plan)
    ensures !SwapConfigured(c, name) ==> p == Plan(false, [])
    ensures SwapConfigured(c, name) ==> |p.trace| >= 1 && p.trace[0] == ReadBalance(Lookup(c.tokens, name))
    ensures p.ok ==> SwapConfigured(c, name) && Lookup(c.tokens, name).Some? && chain.sendConfirmed
    ensures ApproveBeforeSend(p.trace)
  {
    var router := Lookup(c.routers, name);
    var methodId := Lookup(c.methodIds, name + "Swap");
    if !Truthy(router) || !Truthy(methodId) then Plan(false, [])
    else SwapCall(Lookup(c.tokens, name), router.value, methodId.value, ConfigGas(c), chain)
  }

  /** The chain calls of `swapToken` once router and method id are known.
      An undefined token address makes the balance read throw; call data
      that is not hex makes `sendTransaction` throw before anything is
      sent. */
  function SwapCall(token: Option<Address>, router: Address, methodId: string, gas: Gas, chain: Chain): (p: Plan)
    ensures |p.trace| >= 1 && p.trace[0] == ReadBalance(token)
    ensures p.ok ==> token.Some? && chain.sendConfirmed
    ensures ApproveBeforeSend(p.trace)
  {
    var read := [ReadBalance(token)];
    if token.None? then Plan(false, read)
    else
      match chain.balance
      case Throws => Plan(false, read)
      case Returns(balance) =>
        if balance == 0 then Plan(false, read)
        else SwapAfterBalance(token, router, methodId, balance, gas, chain)
  }

  /** The rest of `swapToken` after a positive balance read: the allowance
      read, the approval when the allowance falls short of the balance,
      and the swap. */
  function SwapAfterBalance(token: Option<Address>, router: Address, methodId: string, balance: Uint256, gas: Gas,
                            chain: Chain): (p: Plan)
    ensures |p.trace| >= 2 && p.trace[0] == ReadBalance(token) && p.trace[1] == ReadAllowance(token, router)
    ensures p.ok ==> chain.sendConfirmed
    ensures ApproveBeforeSend(p.trace)
  {
    var queried := [ReadBalance(token), ReadAllowance(token, router)];
    QueriedNoSend(token, router, balance, gas);
    match chain.allowance
    case Throws => Plan(false, queried)
    case Returns(allowance) =>
      var approved :=
        if allowance < balance then [ReadBalance(token), ReadAllowance(token, router), Approve(token, router, balance, gas)]
        else queried;
      if allowance < balance && !chain.approveConfirmed then Plan(false, approved)
      else SendAfter(approved, router, Abi.Calldata(methodId, balance), gas, chain.sendConfirmed)
  }

  /** The method id `stakeToken` uses, rendered as the concatenation
      renders it: without a `stake` entry it is the text "undefined",
      which is not hex data. */
  function StakeMethodId(c: Config): (m: string)
    ensures Lookup(c.methodIds, "stake").Some? ==> m == Lookup(c.methodIds, "stake").value
    ensures "stake" !in KeysOf(c.methodIds) ==> !Abi.IsHexData(m)
  {
    Render(Lookup(c.methodIds, "stake"))
  }

  /** The token address `stakeToken` reads and approves:
      `customAddr || tokens[name]`. */
  function StakeTokenAddress(c: Config, name: string, customAddr: Option<Address>): (token: Option<Address>)
    ensures Truthy(customAddr) ==> token == customAddr
    ensures !Truthy(customAddr) ==> token == Lookup(c.tokens, name)
    ensures customAddr == None ==> token == Lookup(c.tokens, name)
    ensures Truthy(token) <==> Truthy(customAddr) || Truthy(Lookup(c.tokens, name))
    ensures token.None? <==> !Truthy(customAddr) && name !in KeysOf(c.tokens)
  {
    Or(customAddr, Lookup(c.tokens, name))
  }

  /** `stakeToken(name, customAddr)`. */
  function StakeToken(c: Config, name: string, customAddr: Option<Address>, chain: Chain): (p: Plan)
    ensures !Truthy(Lookup(c.stakeContracts, name)) ==> p == Plan(false, [])
    ensures Truthy(Lookup(c.stakeContracts, name)) ==>
      |p.trace| >= 1 && p.trace[0] == ReadBalance(StakeTokenAddress(c, name, customAddr))
    ensures p.ok ==> Truthy(Lookup(c.stakeContracts, name)) && StakeTokenAddress(c, name, customAddr).Some?
                     && chain.sendConfirmed
    ensures ApproveBeforeSend(p.trace)
  {
    var stakeCt := Lookup(c.stakeContracts, name);
    if !Truthy(stakeCt) then Plan(false, [])
    else StakeCall(StakeTokenAddress(c, name, customAddr), stakeCt.value, StakeMethodId(c), ConfigGas(c), chain)
  }

  /** The chain calls of `stakeToken` once the stake contract is known: no
      allowance read, the approval always precedes the stake. */
  function StakeCall(token: Option<Address>, stakeCt: Address, methodId: string, gas: Gas, chain: Chain): (p: Plan)
    ensures |p.trace| >= 1 && p.trace[0] == ReadBalance(token)
    ensures p.ok ==> token.Some? && chain.sendConfirmed
    ensures ApproveBeforeSend(p.trace)
  {
    var read := [ReadBalance(token)];
    if token.None? then Plan(false, read)
    else
      match chain.balance
      case Throws => Plan(false, read)
      case Returns(balance) =>
        if balance == 0 then Plan(false, read)
        else
          var approved := read + [Approve(token, stakeCt, balance, gas)];
          if !chain.approveConfirmed then Plan(false, approved)
          else SendAfter(approved, stakeCt, Abi.Calldata(methodId, balance), gas, chain.sendConfirmed)
  }

  // ---- swapToken ----

  /** The trace is empty exactly when the router or the `<name>Swap` method
      id is missing: that check comes before any chain call. */
  lemma SwapSkipIff(c: Config, name: string, chain: Chain)
    ensures SwapToken(c, name, chain).trace == [] <==> !SwapConfigured(c, name)
    ensures !SwapConfigured(c, name) ==> !SwapToken(c, name, chain).ok
  {
  }

  /** A zero balance: false, and no transaction. */
  lemma SwapZeroBalance(c: Config, name: string, chain: Chain)
    requires chain.balance == Returns(0)
    ensures !SwapToken(c, name, chain).ok
    ensures Txs(SwapToken(c, name, chain).trace) == []
  {
    var p := SwapToken(c, name, chain);
    TxsOfReads(p.trace);
  }

  /** Once the balance is positive and the allowance read: the approval is
      sent exactly when the allowance is below the balance (equal allowance
      means no approval), for the whole balance to the router, and it comes
      before the swap transaction, which is sent unless the approval
      failed or the method id is not hex. Without a token address nothing
      is sent. */
  lemma SwapTransactions(c: Config, name: string, chain: Chain, balance: Uint256, allowance: Uint256)
    requires SwapConfigured(c, name)
    requires chain.balance == Returns(balance) && balance > 0
    requires chain.allowance == Returns(allowance)
    ensures var token, router := Lookup(c.tokens, name), Lookup(c.routers, name).value;
      var methodId := Lookup(c.methodIds, name + "Swap").value;
      var approve := Approve(token, router, balance, ConfigGas(c));
      var sent := if Abi.IsHexData(methodId) then [Send(router, Abi.Calldata(methodId, balance), ConfigGas(c))] else [];
      Txs(SwapToken(c, name, chain).trace) ==
        if token.None? then []
        else if allowance >= balance then sent
        else if chain.approveConfirmed then [approve] + sent
        else [approve]
  {
    SwapCallTransactions(Lookup(c.tokens, name), Lookup(c.routers, name).value,
      Lookup(c.methodIds, name + "Swap").value, ConfigGas(c), chain, balance, allowance);
  }

  /** The transactions of `SwapCall`, case by case. */
  lemma SwapCallTransactions(token: Option<Address>, router: Address, methodId: string, gas: Gas, chain: Chain,
                             balance: Uint256, allowance: Uint256)
    requires chain.balance == Returns(balance) && balance > 0
    requires chain.allowance == Returns(allowance)
    ensures var approve := Approve(token, router, balance, gas);
      var sent := if Abi.IsHexData(methodId) then [Send(router, Abi.Calldata(methodId, balance), gas)] else [];
      Txs(SwapCall(token, router, methodId, gas, chain).trace) ==
        if token.None? then []
        else if allowance >= balance then sent
        else if chain.approveConfirmed then [approve] + sent
        else [approve]
  {
    if token.Some? && allowance >= balance {
      SwapCallNoApproval(token, router, methodId, gas, chain, balance, allowance);
    } else if token.Some? {
      SwapCallApproval(token, router, methodId, gas, chain, balance, allowance);
    } else {
      TxsOfReads(SwapCall(token, router, methodId, gas, chain).trace);
    }
  }

  /** The allowance covers the balance: the swap is sent without an
      approval, when its data is hex. */
  lemma SwapCallNoApproval(token: Option<Address>, router: Address, methodId: string, gas: Gas, chain: Chain,
                           balance: Uint256, allowance: Uint256)
    requires chain.balance == Returns(balance) && balance > 0
    requires chain.allowance == Returns(allowance)
    requires token.Some? && allowance >= balance
    ensures Txs(SwapCall(token, router, methodId, gas, chain).trace) ==
      if Abi.IsHexData(methodId) then [Send(router, Abi.Calldata(methodId, balance), gas)] else []
  {
    Abi.CalldataIsHex(methodId, balance);
    var data := Abi.Calldata(methodId, balance);
    var sent := if Abi.IsHexData(methodId) then [Send(router, data, gas)] else [];
    var queried := [ReadBalance(token), ReadAllowance(token, router)];
    assert SwapCall(token, router, methodId, gas, chain) == SwapAfterBalance(token, router, methodId, balance, gas, chain)
        == SendAfter(queried, router, data, gas, chain.sendConfirmed);
    TxsAfterReads(queried, sent);
  }

  /** The allowance is below the balance: the approval comes first, and the
      swap follows only when it is confirmed and its data is hex. */
  lemma SwapCallApproval(token: Option<Address>, router: Address, methodId: string, gas: Gas, chain: Chain,
                         balance: Uint256, allowance: Uint256)
    requires chain.balance == Returns(balance) && balance > 0
    requires chain.allowance == Returns(allowance)
    requires token.Some? && allowance < balance
    ensures var approve := Approve(token, router, balance, gas);
      var sent := if Abi.IsHexData(methodId) then [Send(router, Abi.Calldata(methodId, balance), gas)] else [];
      Txs(SwapCall(token, router, methodId, gas, chain).trace) ==
        if chain.approveConfirmed then [approve] + sent else [approve]
  {
    var approve := Approve(token, router, balance, gas);
    var queried := [ReadBalance(token), ReadAllowance(token, router)];
    var approved := [ReadBalance(token), ReadAllowance(token, router), approve];
    var p := SwapCall(token, router, methodId, gas, chain);
    assert p == SwapAfterBalance(token, router, methodId, balance, gas, chain);
    if chain.approveConfirmed {
      Abi.CalldataIsHex(methodId, balance);
      var data := Abi.Calldata(methodId, balance);
      var sent := if Abi.IsHexData(methodId) then [Send(router, data, gas)] else [];
      assert p == SendAfter(approved, router, data, gas, chain.sendConfirmed);
      assert p.trace == approved + sent == queried + ([approve] + sent);
      TxsAfterReads(queried, [approve] + sent);
    } else {
      assert p.trace == approved == queried + [approve];
      TxsAfterReads(queried, [approve]);
    }
  }

  /** `swapToken` returns true exactly when it is configured, the token has
      an address, the balance read returns a positive amount, the allowance
      read returns, any needed approval is confirmed, the method id is hex
      data and the swap is confirmed: every throw becomes false. */
  lemma SwapSucceedsIff(c: Config, name: string, chain: Chain)
    ensures SwapToken(c, name, chain).ok <==>
      && SwapConfigured(c, name)
      && Lookup(c.tokens, name).Some?
      && chain.balance.Returns? && chain.balance.value > 0
      && chain.allowance.Returns?
      && (chain.allowance.value < chain.balance.value ==> chain.approveConfirmed)
      && Abi.IsHexData(Lookup(c.methodIds, name + "Swap").value)
      && chain.sendConfirmed
  {
    if SwapConfigured(c, name) && chain.balance.Returns? {
      Abi.CalldataIsHex(Lookup(c.methodIds, name + "Swap").value, chain.balance.value);
    }
  }

  /** A successful swap ends with the swap transaction to the router, whose
      data is the method id's four bytes then the balance as one 32-byte
      big-endian word. */
  lemma SwapSendsBalance(c: Config, name: string, chain: Chain)
    requires SwapToken(c, name, chain).ok
    requires Abi.IsSelector(Lookup(c.methodIds, name + "Swap").value)
    ensures var p := SwapToken(c, name, chain);
      var last := p.trace[|p.trace| - 1];
      && last.Send?
      && last.to == Lookup(c.routers, name).value
      && Abi.ParseHexData(last.data) ==
           Some(Abi.ParseHexData(Lookup(c.methodIds, name + "Swap").value).value + Abi.Word(chain.balance.value))
  {
    var methodId := Lookup(c.methodIds, name + "Swap").value;
    Abi.CalldataLayout(methodId, chain.balance.value);
    var bytes := Abi.ParseHexData(Abi.Calldata(methodId, chain.balance.value)).value;
    assert bytes == bytes[..4] + bytes[4..];
  }

  // ---- stakeToken ----

  /** The trace is empty exactly when the token has no stake contract. */
  lemma StakeSkipIff(c: Config, name: string, customAddr: Option<Address>, chain: Chain)
    ensures StakeToken(c, name, customAddr, chain).trace == [] <==> !Truthy(Lookup(c.stakeContracts, name))
    ensures !Truthy(Lookup(c.stakeContracts, name)) ==> !StakeToken(c, name, customAddr, chain).ok
  {
  }

  /** A zero balance: false, and no transaction. */
  lemma StakeZeroBalance(c: Config, name: string, customAddr: Option<Address>, chain: Chain)
    requires chain.balance == Returns(0)
    ensures !StakeToken(c, name, customAddr, chain).ok
    ensures Txs(StakeToken(c, name, customAddr, chain).trace) == []
  {
    var p := StakeToken(c, name, customAddr, chain);
    TxsOfReads(p.trace);
  }

  /** The allowance plays no part in staking: the plan is the same whatever
      the allowance read would answer. */
  lemma StakeIgnoresAllowance(c: Config, name: string, customAddr: Option<Address>, chain: Chain, other: Reply<Uint256>)
    ensures StakeToken(c, name, customAddr, chain) == StakeToken(c, name, customAddr, chain.(allowance := other))
  {
  }

  /** With a stake contract, a token address and a positive balance the
      approval of the whole balance to the stake contract is always sent,
      and the stake transaction follows it unless the approval failed or
      the stake method id is not hex. The token approved is the override
      address when one is given, the configured one otherwise; without
      either nothing is sent. */
  lemma StakeTransactions(c: Config, name: string, customAddr: Option<Address>, chain: Chain, balance: Uint256)
    requires Truthy(Lookup(c.stakeContracts, name))
    requires chain.balance == Returns(balance) && balance > 0
    ensures var stakeCt := Lookup(c.stakeContracts, name).value;
      var token := if Truthy(customAddr) then customAddr else Lookup(c.tokens, name);
      var approve := Approve(token, stakeCt, balance, ConfigGas(c));
      var sent := if Abi.IsHexData(StakeMethodId(c)) then [Send(stakeCt, Abi.Calldata(StakeMethodId(c), balance), ConfigGas(c))] else [];
      Txs(StakeToken(c, name, customAddr, chain).trace) ==
        if token.None? then []
        else if chain.approveConfirmed then [approve] + sent
        else [approve]
  {
    StakeCallTransactions(StakeTokenAddress(c, name, customAddr), Lookup(c.stakeContracts, name).value,
      StakeMethodId(c), ConfigGas(c), chain, balance);
  }

  /** The transactions of `StakeCall`, case by case. */
  lemma StakeCallTransactions(token: Option<Address>, stakeCt: Address, methodId: string, gas: Gas, chain: Chain,
                              balance: Uint256)
    requires chain.balance == Returns(balance) && balance > 0
    ensures var approve := Approve(token, stakeCt, balance, gas);
      var sent := if Abi.IsHexData(methodId) then [Send(stakeCt, Abi.Calldata(methodId, balance), gas)] else [];
      Txs(StakeCall(token, stakeCt, methodId, gas, chain).trace) ==
        if token.None? then []
        else if chain.approveConfirmed then [approve] + sent
        else [approve]
  {
    var approve := Approve(token, stakeCt, balance, gas);
    Abi.CalldataIsHex(methodId, balance);
    var sent := if Abi.IsHexData(methodId) then [Send(stakeCt, Abi.Calldata(methodId, balance), gas)] else [];
    var p := StakeCall(token, stakeCt, methodId, gas, chain);
    if token.None? {
      TxsOfReads(p.trace);
    } else if chain.approveConfirmed {
      assert p.trace == [ReadBalance(token)] + [approve] + sent;
      assert [ReadBalance(token)] + [approve] + sent == [ReadBalance(token)] + ([approve] + sent);
      TxsAfterReads([ReadBalance(token)], [approve] + sent);
    } else {
      assert p.trace == [ReadBalance(token)] + [approve];
      TxsAfterReads([ReadBalance(token)], [approve]);
    }
  }

  /** `stakeToken` returns true exactly when the token has a stake contract
      and an address, the balance read returns a positive amount, the
      approval is confirmed, the stake method id is hex data and the stake
      transaction is confirmed. */
  lemma StakeSucceedsIff(c: Config, name: string, customAddr: Option<Address>, chain: Chain)
    ensures StakeToken(c, name, customAddr, chain).ok <==>
      && Truthy(Lookup(c.stakeContracts, name))
      && StakeTokenAddress(c, name, customAddr).Some?
      && chain.balance.Returns? && chain.balance.value > 0
      && chain.approveConfirmed
      && Abi.IsHexData(StakeMethodId(c))
      && chain.sendConfirmed
  {
    if chain.balance.Returns? {
      Abi.CalldataIsHex(StakeMethodId(c), chain.balance.value);
    }
  }

  /** Without a `stake` method id the call data starts with "undefined", so
      `stakeToken` never sends a stake transaction and always returns
      false. */
  lemma MissingStakeIdNeverStakes(c: Config, name: string, customAddr: Option<Address>, chain: Chain)
    requires "stake" !in KeysOf(c.methodIds)
    ensures !StakeToken(c, name, customAddr, chain).ok
    ensures forall i :: 0 <= i < |StakeToken(c, name, customAddr, chain).trace| ==>
      !StakeToken(c, name, customAddr, chain).trace[i].Send?
  {
    StakeSucceedsIff(c, name, customAddr, chain);
    if chain.balance.Returns? {
      Abi.CalldataIsHex(StakeMethodId(c), chain.balance.value);
    }
  }

  /** A successful stake ends with the stake transaction to the stake
      contract, whose data is the stake method id's four bytes then the
      balance as one 32-byte big-endian word. */
  lemma StakeSendsBalance(c: Config, name: string, customAddr: Option<Address>, chain: Chain)
    requires StakeToken(c, name, customAddr, chain).ok
    requires Abi.IsSelector(StakeMethodId(c))
    ensures var p := StakeToken(c, name, customAddr, chain);
      var last := p.trace[|p.trace| - 1];
      && last.Send?
      && last.to == Lookup(c.stakeContracts, name).value
      && last.data == Abi.Calldata(StakeMethodId(c), chain.balance.value)
      && Abi.ParseHexData(last.data) == Some(Abi.ParseHexData(StakeMethodId(c)).value + Abi.Word(chain.balance.value))
  {
    Abi.CalldataLayout(StakeMethodId(c), chain.balance.value);
    var bytes := Abi.ParseHexData(Abi.Calldata(StakeMethodId(c), chain.balance.value)).value;
    assert bytes == bytes[..4] + bytes[4..];
  }

  /** Under the global configuration the stake method id is the selector
      a6 94 fc 3a, so a successful stake sends those four bytes followed by
      the balance's 32-byte word. */
  lemma GlobalStakeSelector()
    ensures StakeMethodId(GlobalConfig) == STAKE_METHOD_ID
    ensures Abi.IsSelector(StakeMethodId(GlobalConfig))
    ensures Abi.ParseHexData(StakeMethodId(GlobalConfig)) == Some([0xa6, 0x94, 0xfc, 0x3a])
  {
    GlobalMethodIds();
    StakeSelectorBytes();
  }

  /** Under the global configuration exactly virtual, ath, vnusd and ai16z
      have both a truthy router and a truthy `<name>Swap` method id, so
      exactly their swaps get past the configuration check. */
  lemma GlobalSwapConfigured(t: string)
    ensures SwapConfigured(GlobalConfig, t) <==> t in ["virtual", "ath", "vnusd", "ai16z"]
  {
    if t == "virtual" {
      assert "virtual" + "Swap" == "virtualSwap";
      GlobalSwapEntry(t, 0);
    } else if t == "ath" {
      assert "ath" + "Swap" == "athSwap";
      GlobalSwapEntry(t, 1);
    } else if t == "vnusd" {
      assert "vnusd" + "Swap" == "vnusdSwap";
      GlobalSwapEntry(t, 2);
    } else if t == "ai16z" {
      assert "ai16z" + "Swap" == "ai16zSwap";
      GlobalSwapEntry(t, 3);
    } else {
      assert KeysOf(GlobalConfig.routers) == ["virtual", "ath", "vnusd", "ai16z"];
    }
  }

  /** A router entry whose method-id entry at the same position is its
      `<name>Swap` id makes its token configured. */
  lemma GlobalSwapEntry(t: string, i: nat)
    requires i < 4
    requires GlobalConfig.routers[i].0 == t && GlobalConfig.methodIds[i].0 == t + "Swap"
    ensures SwapConfigured(GlobalConfig, t)
  {
    GlobalRoutersDistinct();
    GlobalMethodIdsDistinct();
    LookupEntry(GlobalConfig.routers, i);
    LookupEntry(GlobalConfig.methodIds, i);
  }

  /** Every token `runBot` swaps or stakes has an address under the global
      configuration, so none of its balance reads is of an undefined
      token. */
  lemma GlobalTokensPresent(t: string)
    requires t in ["virtual", "ath", "vnusd", "ai16z"] || t in KeysOf(GlobalConfig.stakeContracts)
    ensures Lookup(GlobalConfig.tokens, t).Some?
  {
    assert KeysOf(GlobalConfig.stakeContracts) == ["ausd", "usde", "lvlusd", "vusd", "vnusd", "azUSD"];
    assert KeysOf(GlobalConfig.tokens) ==
      ["virtual", "ath", "ausd", "usde", "lvlusd", "vusd", "vnusd", "ai16z", "azUSD"];
  }
}
