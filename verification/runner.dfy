/** The order of work: `runBot` for one wallet (gas.js:242-262), the faucet
    loop it calls (gas.js:221-240), and `runAllBots` over the key list
    (gas.js:265-279). */
module Runner {
  import opened Base
  import opened Settings
  import opened Plans
  import Credentials

  /** The faucet endpoints of `claimFaucets`, in literal order. */
  const FAUCETS: Table := [
    ("ath",     "https://app.x-network.io/maitrix-faucet/faucet "),
    ("usde",    "https://app.x-network.io/maitrix-usde/faucet "),
    ("lvlusd",  "https://app.x-network.io/maitrix-lvl/faucet "),
    ("virtual", "https://app.x-network.io/maitrix-virtual/faucet "),
    ("vana",    "https://app.x-network.io/maitrix-vana/faucet "),
    ("ai16z",   "https://app.x-network.io/maitrix-ai16z/faucet")]

  /** The token address `runBot` passes when staking vnusd. */
  const VNUSD_STAKE_TOKEN: Address := "0x46a6585a0Ad1750d37B4e6810EB59cBDf591Dc30"

  /** One awaited step of `runBot`. */
  datatype Step =
    | Status                                          // checkWalletStatus
    | Claim(faucet: string, url: string)              // one POST of claimFaucets
    | Swap(token: string)                             // swapToken
    | Stake(token: string, customAddr: Option<Address>) // stakeToken

  /** One claim per faucet endpoint, in order. */
  function ClaimSteps(endpoints: Table): (steps: seq<Step>)
    ensures |steps| == |endpoints|
    ensures forall k :: 0 <= k < |steps| ==> steps[k] == Claim(endpoints[k].0, endpoints[k].1)
  {
    seq(|endpoints|, k requires 0 <= k < |endpoints| => Claim(endpoints[k].0, endpoints[k].1))
  }

  /** A swap of `token` if the router `gate` is truthy. */
  function SwapIf(c: Config, gate: string, token: string): (steps: seq<Step>)
    ensures forall k :: 0 <= k < |steps| ==> steps[k].Swap?
  {
    if Truthy(Lookup(c.routers, gate)) then [Swap(token)] else []
  }

  /** The four gated swaps; ai16z is gated on the vnusd router. */
  function SwapSteps(c: Config): (steps: seq<Step>)
    ensures forall k :: 0 <= k < |steps| ==> steps[k].Swap?
  {
    var v, a, n, z := SwapIf(c, "virtual", "virtual"), SwapIf(c, "ath", "ath"), SwapIf(c, "vnusd", "vnusd"), SwapIf(c, "vnusd", "ai16z");
    SwapsAppend(v, a);
    SwapsAppend(v + a, n);
    SwapsAppend(v + a + n, z);
    v + a + n + z
  }

  /** Two runs of swaps in a row are a run of swaps. */
  lemma SwapsAppend(a: seq<Step>, b: seq<Step>)
    requires forall k :: 0 <= k < |a| ==> a[k].Swap?
    requires forall k :: 0 <= k < |b| ==> b[k].Swap?
    ensures forall k :: 0 <= k < |a + b| ==> (a + b)[k].Swap?
  {
  }

  /** One stake per stake-contract key, in key order; vnusd stakes the
      override token address. */
  function StakeSteps(names: seq<string>): (steps: seq<Step>)
    ensures |steps| == |names|
    ensures forall k :: 0 <= k < |steps| ==> steps[k].Stake? && steps[k].token == names[k]
    ensures forall k :: 0 <= k < |steps| ==>
      steps[k].customAddr == (if names[k] == "vnusd" then Some(VNUSD_STAKE_TOKEN) else None)
  {
    seq(|names|, k requires 0 <= k < |names| =>
      if names[k] == "vnusd" then Stake(names[k], Some(VNUSD_STAKE_TOKEN)) else Stake(names[k], None))
  }

  /** A claim step is in the claim section exactly when its endpoint is
      an entry of the table. */
  lemma ClaimStepsMembers(endpoints: Table, s: Step)
    ensures s in ClaimSteps(endpoints) <==> s.Claim? && (s.faucet, s.url) in endpoints
  {
  }

  /** A stake step is in the stake section exactly when its token is one
      of the names, with the override address exactly for vnusd. */
  lemma StakeStepsMembers(names: seq<string>, s: Step)
    ensures s in StakeSteps(names) <==>
      s.Stake? && s.token in names && s.customAddr == (if s.token == "vnusd" then Some(VNUSD_STAKE_TOKEN) else None)
  {
  }

  /** The steps between the two status displays: claims at the faucet
      endpoints, swaps, stakes. */
  function WorkSteps(c: Config, faucets: Table): (steps: seq<Step>)
    ensures forall k :: 0 <= k < |steps| ==> !steps[k].Status?
  {
    var claims, swaps, stakes := ClaimSteps(faucets), SwapSteps(c), StakeSteps(KeysOf(c.stakeContracts));
    assert forall k :: 0 <= k < |claims| + |swaps| ==> !(claims + swaps)[k].Status?;
    claims + swaps + stakes
  }

  /** The steps of `runBot`, in order; `faucets` is the endpoint table of
      `claimFaucets` (FAUCETS when run by the script). */
  function WalletSteps(c: Config, faucets: Table): (steps: seq<Step>)
    ensures |steps| >= 2 && steps[0] == Status && steps[|steps| - 1] == Status
  {
    [Status] + WorkSteps(c, faucets) + [Status]
  }

  /** What the outside world answers at one step: whether every read of
      `checkWalletStatus` returned, the faucet's HTTP reply (a status code,
      or a thrown request error), and the chain's replies to a swap or a
      stake. Each step uses the part that concerns it. */
  datatype Observation = Observation(statusOk: bool, http: Reply<int>, chain: Chain)

  /** The result of one step. */
  datatype Outcome =
    | StatusShown
    | StatusThrew                            // uncaught: ends runBot and runAllBots
    | Claimed(faucet: string, ok: bool)      // ok: HTTP 200
    | Swapped(token: string, plan: Plan)
    | Staked(token: string, plan: Plan)

  /** Whether a step throws out of `runBot`: only the status display is not
      wrapped in a catch. */
  predicate Throws(step: Step, o: Observation)
  {
    step.Status? && !o.statusOk
  }

  /** One step against its observation. */
  function ExecStep(c: Config, step: Step, o: Observation): (out: Outcome)
    ensures out.StatusThrew? <==> Throws(step, o)
    ensures step.Claim? ==> out.Claimed? && out.faucet == step.faucet
    ensures step.Swap? ==> out == Swapped(step.token, SwapToken(c, step.token, o.chain))
    ensures step.Stake? ==> out == Staked(step.token, StakeToken(c, step.token, step.customAddr, o.chain))
    ensures !step.Status? ==> !out.StatusThrew?
    ensures (step.Status? || step.Claim?) ==> OutcomeTxs(out) == []
    ensures step.Claim? ==> out.ok == (o.http == Returns(200))
  {
    match step
    case Status => if o.statusOk then StatusShown else StatusThrew
    case Claim(faucet, _) => Claimed(faucet, o.http == Returns(200))
    case Swap(token) => Swapped(token, SwapToken(c, token, o.chain))
    case Stake(token, customAddr) => Staked(token, StakeToken(c, token, customAddr, o.chain))
  }

  /** Steps `i..` in order; `obs(k)` answers step `k`. A failed claim, swap
      or stake does not stop the sequence; a throwing status display does. */
  function RunSteps(c: Config, steps: seq<Step>, obs: nat -> Observation, i: nat): (r: seq<Outcome>)
    requires i <= |steps|
    ensures |r| <= |steps| - i
    ensures forall k :: 0 <= k < |r| ==> r[k] == ExecStep(c, steps[i + k], obs(i + k))
    ensures (forall k :: i <= k < |steps| ==> !Throws(steps[k], obs(k))) ==> |r| == |steps| - i
    ensures |r| < |steps| - i ==> |r| >= 1 && r[|r| - 1].StatusThrew?
    ensures forall k :: 0 <= k < |r| - 1 ==> !r[k].StatusThrew?
    decreases |steps| - i
  {
    if i == |steps| then []
    else
      var out := ExecStep(c, steps[i], obs(i));
      if out.StatusThrew? then [out]
      else
        var rest := RunSteps(c, steps, obs, i + 1);
        assert forall k :: 1 <= k < |rest| + 1 ==> ([out] + rest)[k] == rest[k - 1];
        [out] + rest
  }

  /** `runBot`: the wallet's steps, answered by `obs`. */
  function RunBot(c: Config, faucets: Table, obs: nat -> Observation): (r: seq<Outcome>)
    ensures 1 <= |r| <= |WalletSteps(c, faucets)|
    ensures r[0] == (if obs(0).statusOk then StatusShown else StatusThrew)
    ensures |r| < |WalletSteps(c, faucets)| ==> r[|r| - 1] == StatusThrew
    ensures forall k :: 0 <= k < |r| - 1 ==> !r[k].StatusThrew?
  {
    RunSteps(c, WalletSteps(c, faucets), obs, 0)
  }

  /** One wallet of the batch: its key is rejected by the wallet library,
      or its run. */
  datatype WalletRun = BadKey(key: string) | Ran(key: string, outcomes: seq<Outcome>)

  /** The run finished: the key was accepted and no status display threw. */
  predicate Finished(w: WalletRun)
  {
    w.Ran? && forall k :: 0 <= k < |w.outcomes| ==> !w.outcomes[k].StatusThrew?
  }

  /** The outside world of a batch: which keys the wallet library accepts,
      and the observations of the `i`-th wallet's steps. */
  datatype World = World(validKey: string -> bool, obs: nat -> nat -> Observation)

  /** One wallet of the batch: `new WalletBot(key)`, then its `runBot`. */
  function RunWallet(key: string, validKey: string -> bool, bot: seq<Outcome>): (w: WalletRun)
    ensures w.key == key
    ensures w.Ran? <==> validKey(key)
  {
    if validKey(key) then Ran(key, bot) else BadKey(key)
  }

  /** The wallets of `keys` from the `i`-th on, one after another; `bot(j)`
      is the `j`-th wallet's `runBot`. A wallet that does not finish ends
      the pass. */
  function RunWallets(keys: seq<string>, validKey: string -> bool, bot: nat -> seq<Outcome>, i: nat): (r: seq<WalletRun>)
    requires i <= |keys|
    ensures |r| <= |keys| - i
    ensures forall k :: 0 <= k < |r| ==> r[k] == RunWallet(keys[i + k], validKey, bot(i + k))
    ensures forall k :: 0 <= k < |r| - 1 ==> Finished(r[k])
    ensures |r| < |keys| - i ==> |r| >= 1 && !Finished(r[|r| - 1])
    decreases |keys| - i
  {
    if i == |keys| then []
    else
      var w := RunWallet(keys[i], validKey, bot(i));
      if !Finished(w) then [w]
      else
        var rest := RunWallets(keys, validKey, bot, i + 1);
        assert forall k :: 1 <= k < |rest| + 1 ==> ([w] + rest)[k] == rest[k - 1];
        [w] + rest
  }

  /** A pass of `runAllBots`: nothing to do without keys, otherwise the
      wallets in key order. */
  datatype Batch = NoKeys | Pass(runs: seq<WalletRun>)

  /** `runAllBots` given its key list. Every wallet runs under `c`: the
      script's `WalletBot` constructor ignores the configuration it is given
      and always uses `globalConfig` (gas.js:87), which agrees with `c`
      because `runAllBots` passes `globalConfig` (gas.js:274). */
  function RunBatch(c: Config, faucets: Table, keys: seq<string>, world: World): (b: Batch)
    ensures b.NoKeys? <==> |keys| == 0
    ensures b.Pass? ==> 1 <= |b.runs| <= |keys|
    ensures b.Pass? ==> forall k :: 0 <= k < |b.runs| ==> b.runs[k].key == keys[k]
  {
    if |keys| == 0 then NoKeys
    else Pass(RunWallets(keys, world.validKey, (j: nat) => RunBot(c, faucets, world.obs(j)), 0))
  }

  /** `runAllBots`: read the key list from the environment, then run the
      wallets under the global configuration. The key list is returned
      alongside the pass. */
  method RunAllBots(env: Credentials.Env, world: World) returns (keys: seq<string>, b: Batch)
    ensures Credentials.IsKeyList(env, keys) && b == RunBatch(GlobalConfig, FAUCETS, keys, world)
    ensures b.NoKeys? <==>
      !Credentials.Present(env, Credentials.KeyName(1)) && !Credentials.Present(env, Credentials.SINGLE_KEY)
    ensures forall other :: Credentials.IsKeyList(env, other) ==> b == RunBatch(GlobalConfig, FAUCETS, other, world)
  {
    keys := Credentials.GetPrivateKeys(env);
    Credentials.KeyListShape(env, keys);
    forall other | Credentials.IsKeyList(env, other) ensures other == keys {
      Credentials.KeyListUnique(env, keys, other);
    }
    b := RunBatch(GlobalConfig, FAUCETS, keys, world);
  }

  // ---- the order of one wallet's steps ----

  /** The transactions a step's outcome made. */
  function OutcomeTxs(out: Outcome): seq<Action>
  {
    match out
    case Swapped(_, plan) => Txs(plan.trace)
    case Staked(_, plan) => Txs(plan.trace)
    case _ => []
  }

  /** The swaps `runBot` attempts, each gated on its router; ai16z is gated
      on the vnusd router, not its own. */
  lemma SwapGating(c: Config, faucets: Table)
    ensures Swap("virtual") in WalletSteps(c, faucets) <==> Truthy(Lookup(c.routers, "virtual"))
    ensures Swap("ath") in WalletSteps(c, faucets) <==> Truthy(Lookup(c.routers, "ath"))
    ensures Swap("vnusd") in WalletSteps(c, faucets) <==> Truthy(Lookup(c.routers, "vnusd"))
    ensures Swap("ai16z") in WalletSteps(c, faucets) <==> Truthy(Lookup(c.routers, "vnusd"))
    ensures forall t :: Swap(t) in WalletSteps(c, faucets) ==> t in ["virtual", "ath", "vnusd", "ai16z"]
  {
    forall t ensures Swap(t) in WalletSteps(c, faucets) <==> SwapMember(c, t) {
      SwapsOnlyFromSwapSteps(c, faucets, t);
      SwapStepsMembers(c, t);
    }
    assert SwapMember(c, "virtual") <==> Truthy(Lookup(c.routers, "virtual"));
    assert SwapMember(c, "ath") <==> Truthy(Lookup(c.routers, "ath"));
    assert SwapMember(c, "vnusd") <==> Truthy(Lookup(c.routers, "vnusd"));
    assert SwapMember(c, "ai16z") <==> Truthy(Lookup(c.routers, "vnusd"));
  }

  /** The gate of each swap `runBot` may attempt. */
  predicate SwapMember(c: Config, t: string)
  {
    || (t == "virtual" && Truthy(Lookup(c.routers, "virtual")))
    || (t == "ath" && Truthy(Lookup(c.routers, "ath")))
    || (t == "vnusd" && Truthy(Lookup(c.routers, "vnusd")))
    || (t == "ai16z" && Truthy(Lookup(c.routers, "vnusd")))
  }

  /** Membership in the gated swaps, one gate at a time. */
  lemma SwapStepsMembers(c: Config, t: string)
    ensures Swap(t) in SwapSteps(c) <==> SwapMember(c, t)
  {
    var a, b, d, e := SwapIf(c, "virtual", "virtual"), SwapIf(c, "ath", "ath"), SwapIf(c, "vnusd", "vnusd"), SwapIf(c, "vnusd", "ai16z");
    assert SwapSteps(c) == a + b + d + e;
    assert Swap(t) in a <==> t == "virtual" && Truthy(Lookup(c.routers, "virtual"));
    assert Swap(t) in b <==> t == "ath" && Truthy(Lookup(c.routers, "ath"));
    assert Swap(t) in d <==> t == "vnusd" && Truthy(Lookup(c.routers, "vnusd"));
    assert Swap(t) in e <==> t == "ai16z" && Truthy(Lookup(c.routers, "vnusd"));
  }

  /** A swap step of `runBot` is one of the gated swaps. */
  lemma SwapsOnlyFromSwapSteps(c: Config, faucets: Table, t: string)
    ensures Swap(t) in WalletSteps(c, faucets) <==> Swap(t) in SwapSteps(c)
  {
    var claims, stakes := ClaimSteps(faucets), StakeSteps(KeysOf(c.stakeContracts));
    assert Swap(t) !in claims;
    assert Swap(t) !in stakes;
    assert WorkSteps(c, faucets) == claims + SwapSteps(c) + stakes;
  }

  /** The status display comes exactly first and last. */
  lemma StatusFirstAndLast(c: Config, faucets: Table)
    ensures |WalletSteps(c, faucets)| >= 2
    ensures forall k :: 0 <= k < |WalletSteps(c, faucets)| ==>
      (WalletSteps(c, faucets)[k].Status? <==> k == 0 || k == |WalletSteps(c, faucets)| - 1)
  {
    var steps, work := WalletSteps(c, faucets), WorkSteps(c, faucets);
    forall k | 0 < k < |steps| - 1 ensures !steps[k].Status? {
      assert steps[k] == work[k - 1];
    }
  }

  /** The claims come right after the first status display, one per
      endpoint, in endpoint order; then the gated swaps; the stakes come
      right before the last one, one per stake-contract key in key order,
      vnusd with the override token address. */
  lemma ClaimsAndStakes(c: Config, faucets: Table)
    ensures var steps, names := WalletSteps(c, faucets), KeysOf(c.stakeContracts);
      && |steps| == 2 + |faucets| + |SwapSteps(c)| + |names|
      && (forall k :: 0 <= k < |faucets| ==> steps[1 + k] == Claim(faucets[k].0, faucets[k].1))
      && (forall k :: 0 <= k < |SwapSteps(c)| ==> steps[1 + |faucets| + k] == SwapSteps(c)[k])
      && (forall k :: 0 <= k < |names| ==>
            steps[|steps| - 1 - |names| + k] ==
              Stake(names[k], if names[k] == "vnusd" then Some(VNUSD_STAKE_TOKEN) else None))
  {
    ClaimsAfterStatus(c, faucets);
    SwapsAfterClaims(c, faucets);
    StakesBeforeStatus(c, faucets);
  }

  /** The claims come right after the first status display, one per
      endpoint, in endpoint order. */
  lemma ClaimsAfterStatus(c: Config, faucets: Table)
    ensures var steps := WalletSteps(c, faucets);
      && |steps| == 2 + |faucets| + |SwapSteps(c)| + |KeysOf(c.stakeContracts)|
      && forall k :: 0 <= k < |faucets| ==> steps[1 + k] == Claim(faucets[k].0, faucets[k].1)
  {
    WalletStepsSections(c, faucets);
    StepLayout(WalletSteps(c, faucets), faucets, SwapSteps(c), KeysOf(c.stakeContracts));
  }

  /** The gated swaps come right after the claims. */
  lemma SwapsAfterClaims(c: Config, faucets: Table)
    ensures var steps := WalletSteps(c, faucets);
      && |steps| == 2 + |faucets| + |SwapSteps(c)| + |KeysOf(c.stakeContracts)|
      && forall k :: 0 <= k < |SwapSteps(c)| ==> steps[1 + |faucets| + k] == SwapSteps(c)[k]
  {
    WalletStepsSections(c, faucets);
    StepLayout(WalletSteps(c, faucets), faucets, SwapSteps(c), KeysOf(c.stakeContracts));
  }

  /** The stakes come right before the last status display, one per
      stake-contract key in key order, vnusd with the override address. */
  lemma StakesBeforeStatus(c: Config, faucets: Table)
    ensures var steps, names := WalletSteps(c, faucets), KeysOf(c.stakeContracts);
      && |steps| == 2 + |faucets| + |SwapSteps(c)| + |names|
      && forall k :: 0 <= k < |names| ==>
           steps[|steps| - 1 - |names| + k] ==
             Stake(names[k], if names[k] == "vnusd" then Some(VNUSD_STAKE_TOKEN) else None)
  {
    WalletStepsSections(c, faucets);
    StepLayout(WalletSteps(c, faucets), faucets, SwapSteps(c), KeysOf(c.stakeContracts));
  }

  /** The positions of the claims, swaps and stakes in a run of steps
      bracketed by status displays. */
  lemma StepLayout(steps: seq<Step>, faucets: Table, swaps: seq<Step>, names: seq<string>)
    requires steps == [Status] + ClaimSteps(faucets) + swaps + StakeSteps(names) + [Status]
    ensures |steps| == 2 + |faucets| + |swaps| + |names|
    ensures forall k :: 0 <= k < |faucets| ==> steps[1 + k] == Claim(faucets[k].0, faucets[k].1)
    ensures forall k :: 0 <= k < |swaps| ==> steps[1 + |faucets| + k] == swaps[k]
    ensures forall k :: 0 <= k < |names| ==>
      steps[|steps| - 1 - |names| + k] ==
        Stake(names[k], if names[k] == "vnusd" then Some(VNUSD_STAKE_TOKEN) else None)
  {
    var claims, stakes := ClaimSteps(faucets), StakeSteps(names);
    var front := [Status] + claims;
    var body := front + swaps;
    var work := body + stakes;
    assert steps == work + [Status];
    forall k | 0 <= k < |faucets| ensures steps[1 + k] == Claim(faucets[k].0, faucets[k].1) {
      assert steps[1 + k] == work[1 + k] == body[1 + k] == front[1 + k] == claims[k];
    }
    forall k | 0 <= k < |swaps| ensures steps[1 + |faucets| + k] == swaps[k] {
      assert steps[1 + |faucets| + k] == work[1 + |faucets| + k] == body[|front| + k];
    }
    forall k | 0 <= k < |names|
      ensures steps[|steps| - 1 - |names| + k] ==
        Stake(names[k], if names[k] == "vnusd" then Some(VNUSD_STAKE_TOKEN) else None)
    {
      assert steps[|steps| - 1 - |names| + k] == work[|body| + k] == stakes[k];
    }
  }

  /** Every swap is configured under the global configuration. */
  lemma GlobalSwapSteps()
    ensures SwapSteps(GlobalConfig) == [Swap("virtual"), Swap("ath"), Swap("vnusd"), Swap("ai16z")]
  {
    GlobalRoutersDistinct();
    LookupEntry(GlobalConfig.routers, 0);
    LookupEntry(GlobalConfig.routers, 1);
    LookupEntry(GlobalConfig.routers, 2);
    AllSwaps(GlobalConfig);
  }

  /** With truthy virtual, ath and vnusd routers all four swaps run, in
      order. */
  lemma AllSwaps(c: Config)
    requires Truthy(Lookup(c.routers, "virtual")) && Truthy(Lookup(c.routers, "ath"))
    requires Truthy(Lookup(c.routers, "vnusd"))
    ensures SwapSteps(c) == [Swap("virtual"), Swap("ath"), Swap("vnusd"), Swap("ai16z")]
  {
    var v, a, n, z := SwapIf(c, "virtual", "virtual"), SwapIf(c, "ath", "ath"), SwapIf(c, "vnusd", "vnusd"), SwapIf(c, "vnusd", "ai16z");
    assert SwapSteps(c) == v + a + n + z;
    SwapIfOpen(c, "virtual", "virtual");
    SwapIfOpen(c, "ath", "ath");
    SwapIfOpen(c, "vnusd", "vnusd");
    SwapIfOpen(c, "vnusd", "ai16z");
    FourSteps(Swap("virtual"), Swap("ath"), Swap("vnusd"), Swap("ai16z"));
  }

  /** Four one-step sections in a row. */
  lemma FourSteps(s0: Step, s1: Step, s2: Step, s3: Step)
    ensures [s0] + [s1] + [s2] + [s3] == [s0, s1, s2, s3]
  {
  }

  /** An open gate lets its swap through. */
  lemma SwapIfOpen(c: Config, gate: string, token: string)
    requires Truthy(Lookup(c.routers, gate))
    ensures SwapIf(c, gate, token) == [Swap(token)]
  {
  }

  /** The global stakes, in stake-contract key order. */
  lemma GlobalStakeSteps()
    ensures StakeSteps(KeysOf(GlobalConfig.stakeContracts)) ==
      [Stake("ausd", None), Stake("usde", None), Stake("lvlusd", None), Stake("vusd", None),
       Stake("vnusd", Some(VNUSD_STAKE_TOKEN)), Stake("azUSD", None)]
  {
    var names := KeysOf(GlobalConfig.stakeContracts);
    assert names == ["ausd", "usde", "lvlusd", "vusd", "vnusd", "azUSD"];
  }

  /** The global claims, in endpoint order. */
  lemma GlobalClaimSteps()
    ensures ClaimSteps(FAUCETS) == [
      Claim("ath",     "https://app.x-network.io/maitrix-faucet/faucet "),
      Claim("usde",    "https://app.x-network.io/maitrix-usde/faucet "),
      Claim("lvlusd",  "https://app.x-network.io/maitrix-lvl/faucet "),
      Claim("virtual", "https://app.x-network.io/maitrix-virtual/faucet "),
      Claim("vana",    "https://app.x-network.io/maitrix-vana/faucet "),
      Claim("ai16z",   "https://app.x-network.io/maitrix-ai16z/faucet")]
  {
  }

  /** Under the global configuration one wallet's run is: status, one
      claim per faucet endpoint, four swaps, six stakes (vnusd with the
      override address), status. */
  lemma GlobalWalletSteps(faucets: Table)
    ensures WalletSteps(GlobalConfig, faucets) ==
      [Status]
      + ClaimSteps(faucets)
      + [Swap("virtual"), Swap("ath"), Swap("vnusd"), Swap("ai16z")]
      + [Stake("ausd", None), Stake("usde", None), Stake("lvlusd", None), Stake("vusd", None),
         Stake("vnusd", Some(VNUSD_STAKE_TOKEN)), Stake("azUSD", None)]
      + [Status]
  {
    GlobalSwapSteps();
    GlobalStakeSteps();
    WalletStepsSections(GlobalConfig, faucets);
  }

  /** The five sections of a wallet's steps. */
  lemma WalletStepsSections(c: Config, faucets: Table)
    ensures WalletSteps(c, faucets) ==
      [Status] + ClaimSteps(faucets) + SwapSteps(c) + StakeSteps(KeysOf(c.stakeContracts)) + [Status]
  {
    var claims, swaps, stakes := ClaimSteps(faucets), SwapSteps(c), StakeSteps(KeysOf(c.stakeContracts));
    assert WorkSteps(c, faucets) == claims + swaps + stakes;
  }

  // ---- running one wallet ----

  /** When both status displays return, every step is attempted in order,
      whatever the claims, swaps and stakes do, and the run ends with the
      second status display. */
  lemma RunBotCompletes(c: Config, faucets: Table, obs: nat -> Observation)
    requires obs(0).statusOk && obs(|WalletSteps(c, faucets)| - 1).statusOk
    ensures var steps, r := WalletSteps(c, faucets), RunBot(c, faucets, obs);
      && |r| == |steps|
      && r[0] == StatusShown && r[|r| - 1] == StatusShown
      && (forall k :: 0 <= k < |r| ==> !r[k].StatusThrew?)
      && (forall k :: 0 <= k < |r| ==> (steps[k].Claim? <==> r[k].Claimed?))
  {
    var steps := WalletSteps(c, faucets);
    StatusFirstAndLast(c, faucets);
    forall k | 0 <= k < |steps| ensures !Throws(steps[k], obs(k)) {
      if steps[k].Status? { assert k == 0 || k == |steps| - 1; }
    }
  }

  /** Conversely, a run in which no status display throws had both status
      displays return: a run completes exactly when both do. */
  lemma RunBotCompletesOnlyIf(c: Config, faucets: Table, obs: nat -> Observation)
    requires forall k :: 0 <= k < |RunBot(c, faucets, obs)| ==> !RunBot(c, faucets, obs)[k].StatusThrew?
    ensures obs(0).statusOk && obs(|WalletSteps(c, faucets)| - 1).statusOk
  {
    var steps, r := WalletSteps(c, faucets), RunBot(c, faucets, obs);
    assert |r| == |steps|;
    assert r[|r| - 1] == ExecStep(c, steps[|steps| - 1], obs(|steps| - 1));
  }

  /** A wallet whose every balance read is zero: the run completes with
      both status displays, makes every faucet claim and sends no
      transaction at all. */
  lemma ZeroBalanceRun(c: Config, faucets: Table, obs: nat -> Observation)
    requires forall k: nat :: obs(k).statusOk && obs(k).chain.balance == Returns(0)
    ensures var steps, r := WalletSteps(c, faucets), RunBot(c, faucets, obs);
      && |r| == |steps|
      && r[0] == StatusShown && r[|r| - 1] == StatusShown
      && (forall k :: 0 <= k < |r| ==> OutcomeTxs(r[k]) == [])
      && (forall k :: 1 <= k <= |faucets| ==> r[k] == Claimed(faucets[k - 1].0, obs(k).http == Returns(200)))
  {
    var steps, r := WalletSteps(c, faucets), RunBot(c, faucets, obs);
    RunBotCompletes(c, faucets, obs);
    ClaimsAndStakes(c, faucets);
    forall k | 0 <= k < |r| ensures OutcomeTxs(r[k]) == [] {
      ZeroBalanceStep(c, steps[k], obs(k));
    }
  }

  /** A step whose balance read is zero makes no transaction. */
  lemma ZeroBalanceStep(c: Config, step: Step, o: Observation)
    requires o.chain.balance == Returns(0)
    ensures OutcomeTxs(ExecStep(c, step, o)) == []
  {
    match step
    case Swap(t) => SwapZeroBalance(c, t, o.chain);
    case Stake(t, a) => StakeZeroBalance(c, t, a, o.chain);
    case _ =>
  }

  // ---- the batch ----

  /** The wallets run in key order, one per key, each with the observations
      of its position; every one but the last finished. */
  lemma BatchOrder(c: Config, faucets: Table, keys: seq<string>, world: World)
    requires |keys| > 0
    ensures var runs := RunBatch(c, faucets, keys, world).runs;
      && 1 <= |runs| <= |keys|
      && (forall k :: 0 <= k < |runs| ==> runs[k].key == keys[k])
      && (forall k :: 0 <= k < |runs| ==> (runs[k].Ran? <==> world.validKey(keys[k])))
      && (forall k :: 0 <= k < |runs| && runs[k].Ran? ==> runs[k].outcomes == RunBot(c, faucets, world.obs(k)))
      && (forall k :: 0 <= k < |runs| - 1 ==> Finished(runs[k]))
  {
  }

  /** The pass is cut short only by a rejected key or a throwing status
      display: when every key is accepted and both status displays of every
      wallet return, every key is run to the end. */
  lemma BatchCompletes(c: Config, faucets: Table, keys: seq<string>, world: World)
    requires |keys| > 0
    requires forall k :: 0 <= k < |keys| ==> world.validKey(keys[k])
    requires forall k: nat :: world.obs(k)(0).statusOk && world.obs(k)(|WalletSteps(c, faucets)| - 1).statusOk
    ensures var runs := RunBatch(c, faucets, keys, world).runs;
      |runs| == |keys| && forall k :: 0 <= k < |runs| ==> Finished(runs[k])
  {
    var runs := RunBatch(c, faucets, keys, world).runs;
    var bot := (j: nat) => RunBot(c, faucets, world.obs(j));
    assert runs == RunWallets(keys, world.validKey, bot, 0);
    forall k | 0 <= k < |runs| ensures Finished(runs[k]) {
      assert runs[k] == RunWallet(keys[k], world.validKey, bot(k));
      WalletFinishes(c, faucets, keys[k], world.validKey, world.obs(k));
    }
  }

  /** A wallet finishes exactly when its key is accepted and no status
      display of its run throws. */
  lemma WalletFinishedIff(key: string, validKey: string -> bool, bot: seq<Outcome>)
    ensures Finished(RunWallet(key, validKey, bot)) <==>
      validKey(key) && forall k :: 0 <= k < |bot| ==> !bot[k].StatusThrew?
  {
  }

  /** An accepted key whose status displays both return finishes its run. */
  lemma WalletFinishes(c: Config, faucets: Table, key: string, validKey: string -> bool, obs: nat -> Observation)
    requires validKey(key)
    requires obs(0).statusOk && obs(|WalletSteps(c, faucets)| - 1).statusOk
    ensures Finished(RunWallet(key, validKey, RunBot(c, faucets, obs)))
  {
    RunBotCompletes(c, faucets, obs);
  }
}
