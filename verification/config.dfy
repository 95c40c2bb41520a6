/** The fixed configuration of the script (gas.js:22-60): contract address
    tables, swap and stake method ids, and gas and delay constants. */
module Settings {
  import opened Base
  import Abi

  datatype Config = Config(
    rpc: string,
    chainId: nat,
    tokens: Table,          // token name -> ERC-20 token address
    routers: Table,         // token name -> swap router address
    stakeContracts: Table,  // token name -> staking contract address
    methodIds: Table,       // "<name>Swap" or "stake" -> 4-byte method id as hex text
    gasLimit: nat,
    gasPrice: nat,          // in wei
    delayMs: nat)

  /** `parseUnits('7', 'gwei')`. */
  const GAS_PRICE_WEI: nat := 7 * 1_000_000_000

  const SWAP_METHOD_ID: string := "0xa6d67510"
  const ATH_SWAP_METHOD_ID: string := "0x1bf6318b"
  const STAKE_METHOD_ID: string := "0xa694fc3a"

  /** `globalConfig`, entries in the order the literal lists them. */
  const GlobalConfig: Config := Config(
    "https://sepolia-rollup.arbitrum.io/rpc ",
    421614,
    [ ("virtual", "0xFF27D611ab162d7827bbbA59F140C1E7aE56e95C"),
      ("ath",     "0x1428444Eacdc0Fd115dd4318FcE65B61Cd1ef399"),
      ("ausd",    "0x78De28aABBD5198657B26A8dc9777f441551B477"),
      ("usde",    "0xf4BE938070f59764C85fAcE374F92A4670ff3877"),
      ("lvlusd",  "0x8802b7bcF8EedCc9E1bA6C20E139bEe89dd98E83"),
      ("vusd",    "0xc14A8E2Fc341A97a57524000bF0F7F1bA4de4802"),
      ("vnusd",   "0xBEbF4E25652e7F23CCdCCcaaCB32004501c4BfF8"),
      ("ai16z",   "0x2d5a4f5634041f50180A25F26b2A8364452E3152"),
      ("azUSD",   "0x5966cd11aED7D68705C9692e74e5688C892cb162") ],
    [ ("virtual", "0x3dCACa90A714498624067948C092Dd0373f08265"),
      ("ath",     "0x2cFDeE1d5f04dD235AEA47E1aD2fB66e3A61C13e"),
      ("vnusd",   "0xEfbAE3A68b17a61f21C7809Edfa8Aa3CA7B2546f"),
      ("ai16z",   "0xb0b53d8b4ef06f9bbe5db624113c6a5d35bb7522") ],
    [ ("ausd",   "0x054de909723ECda2d119E31583D40a52a332f85c"),
      ("usde",   "0x3988053b7c748023a1ae19a8ed4c1bf217932bdb"),
      ("lvlusd", "0x5De3fBd40D4c3892914c3b67b5B529D776A1483A"),
      ("vusd",   "0x5bb9Fa02a3DCCDB4E9099b48e8Ba5841D2e59d51"),
      ("vnusd",  "0x2608A88219BFB34519f635Dd9Ca2Ae971539ca60"),
      ("azUSD",  "0xf45fde3f484c44cc35bdc2a7fca3ddde0c8f252e") ],
    [ ("virtualSwap", SWAP_METHOD_ID),
      ("athSwap",     ATH_SWAP_METHOD_ID),
      ("vnusdSwap",   SWAP_METHOD_ID),
      ("ai16zSwap",   SWAP_METHOD_ID),
      ("stake",       STAKE_METHOD_ID) ],
    5000000,
    GAS_PRICE_WEI,
    17000)

  /** Every table of the literal has distinct keys. */
  lemma GlobalTablesDistinct()
    ensures DistinctKeys(GlobalConfig.tokens)
    ensures DistinctKeys(GlobalConfig.routers)
    ensures DistinctKeys(GlobalConfig.stakeContracts)
    ensures DistinctKeys(GlobalConfig.methodIds)
  {
    GlobalTokensDistinct();
    GlobalRoutersDistinct();
    GlobalStakeContractsDistinct();
    GlobalMethodIdsDistinct();
  }

  lemma GlobalTokensDistinct()
    ensures DistinctKeys(GlobalConfig.tokens)
  {
  }

  lemma GlobalRoutersDistinct()
    ensures DistinctKeys(GlobalConfig.routers)
  {
  }

  lemma GlobalStakeContractsDistinct()
    ensures DistinctKeys(GlobalConfig.stakeContracts)
  {
  }

  lemma GlobalMethodIdsDistinct()
    ensures DistinctKeys(GlobalConfig.methodIds)
  {
  }

  /** The method ids: virtual, vnusd and ai16z share one swap selector, ath
      has its own, and staking has a third. */
  lemma GlobalMethodIds()
    ensures Lookup(GlobalConfig.methodIds, "virtualSwap") == Some(SWAP_METHOD_ID)
    ensures Lookup(GlobalConfig.methodIds, "athSwap") == Some(ATH_SWAP_METHOD_ID)
    ensures Lookup(GlobalConfig.methodIds, "vnusdSwap") == Some(SWAP_METHOD_ID)
    ensures Lookup(GlobalConfig.methodIds, "ai16zSwap") == Some(SWAP_METHOD_ID)
    ensures Lookup(GlobalConfig.methodIds, "stake") == Some(STAKE_METHOD_ID)
  {
    GlobalMethodIdsDistinct();
    LookupEntry(GlobalConfig.methodIds, 0);
    LookupEntry(GlobalConfig.methodIds, 1);
    LookupEntry(GlobalConfig.methodIds, 2);
    LookupEntry(GlobalConfig.methodIds, 3);
    LookupEntry(GlobalConfig.methodIds, 4);
  }

  /** A method id written as "0x" and the lower-case hex text of its
      bytes parses back to those bytes. */
  lemma MethodIdBytes(methodId: string, bytes: seq<byte>)
    requires methodId == "0x" + Abi.Hex(bytes)
    ensures Abi.ParseHexData(methodId) == Some(bytes)
  {
    assert methodId[..2] == "0x" && methodId[2..] == Abi.Hex(bytes);
    Abi.ParseHex(bytes);
  }

  /** The hex text of four bytes, digit pair by digit pair. */
  lemma Hex4(b0: byte, b1: byte, b2: byte, b3: byte)
    ensures Abi.Hex([b0, b1, b2, b3]) ==
      [Abi.HEX_DIGITS[b0 / 16], Abi.HEX_DIGITS[b0 % 16], Abi.HEX_DIGITS[b1 / 16], Abi.HEX_DIGITS[b1 % 16],
       Abi.HEX_DIGITS[b2 / 16], Abi.HEX_DIGITS[b2 % 16], Abi.HEX_DIGITS[b3 / 16], Abi.HEX_DIGITS[b3 % 16]]
  {
    var d := Abi.HEX_DIGITS;
    assert [b3][1..] == [];
    assert Abi.Hex([b3]) == [d[b3 / 16], d[b3 % 16]];
    assert [b2, b3][1..] == [b3];
    assert Abi.Hex([b2, b3]) == [d[b2 / 16], d[b2 % 16]] + Abi.Hex([b3]);
    assert [b1, b2, b3][1..] == [b2, b3];
    assert Abi.Hex([b1, b2, b3]) == [d[b1 / 16], d[b1 % 16]] + Abi.Hex([b2, b3]);
    assert [b0, b1, b2, b3][1..] == [b1, b2, b3];
    assert Abi.Hex([b0, b1, b2, b3]) == [d[b0 / 16], d[b0 % 16]] + Abi.Hex([b1, b2, b3]);
  }

  /** The shared swap method id is the selector a6 d6 75 10. */
  lemma SwapSelectorBytes()
    ensures Abi.ParseHexData(SWAP_METHOD_ID) == Some([0xa6, 0xd6, 0x75, 0x10])
  {
    Hex4(0xa6, 0xd6, 0x75, 0x10);
    MethodIdBytes(SWAP_METHOD_ID, [0xa6, 0xd6, 0x75, 0x10]);
  }

  /** The ath swap method id is the selector 1b f6 31 8b. */
  lemma AthSwapSelectorBytes()
    ensures Abi.ParseHexData(ATH_SWAP_METHOD_ID) == Some([0x1b, 0xf6, 0x31, 0x8b])
  {
    Hex4(0x1b, 0xf6, 0x31, 0x8b);
    MethodIdBytes(ATH_SWAP_METHOD_ID, [0x1b, 0xf6, 0x31, 0x8b]);
  }

  /** The stake method id is the selector a6 94 fc 3a. */
  lemma StakeSelectorBytes()
    ensures Abi.ParseHexData(STAKE_METHOD_ID) == Some([0xa6, 0x94, 0xfc, 0x3a])
  {
    Hex4(0xa6, 0x94, 0xfc, 0x3a);
    MethodIdBytes(STAKE_METHOD_ID, [0xa6, 0x94, 0xfc, 0x3a]);
  }
}
