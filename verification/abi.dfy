/** The call data the script sends to a router or staking contract
    (gas.js:156, gas.js:196): a 4-byte function selector written as hex text,
    followed by the hex text of one ABI `uint256` word, the amount as 32
    bytes, big-endian, zero-left-padded (Solidity Contract ABI
    Specification, "Function Selector" and "Formal Specification of the
    Encoding", `uint<M>`). */
module Abi {
  import opened Base

  /** 256^n. */
  function Pow256(n: nat): (p: nat)
    ensures p >= 1
  {
    if n == 0 then 1 else 256 * Pow256(n - 1)
  }

  /** 2^256 is 256^32: a `uint256` fills exactly one 32-byte word. */
  lemma WordLimitIsPow256()
    ensures Pow256(32) == WORD_LIMIT
  {
    Pow256Add(8, 8);
    Pow256Add(16, 16);
    assert Pow256(8) == 0x1_0000_0000_0000_0000 by {
      assert Pow256(4) == 0x1_0000_0000;
    }
  }

  /** 256^(a+b) == 256^a * 256^b. */
  lemma {:induction false} Pow256Add(a: nat, b: nat)
    ensures Pow256(a + b) == Pow256(a) * Pow256(b)
  {
    if a > 0 {
      Pow256Add(a - 1, b);
    }
  }

  /** The low `n` bytes of `x`, most significant first. */
  function ToBigEndian(x: nat, n: nat): (bs: seq<byte>)
    ensures |bs| == n
  {
    if n == 0 then [] else ToBigEndian(x / 256, n - 1) + [x % 256]
  }

  /** The number a big-endian byte string denotes. */
  function FromBigEndian(bs: seq<byte>): (x: nat)
    ensures x < Pow256(|bs|)
  {
    if |bs| == 0 then 0
    else FromBigEndian(bs[..|bs| - 1]) * 256 + bs[|bs| - 1]
  }

  /** Decoding an encoding gives back the number, whenever it fits. */
  lemma {:induction false} FromToBigEndian(x: nat, n: nat)
    requires x < Pow256(n)
    ensures FromBigEndian(ToBigEndian(x, n)) == x
  {
    if n > 0 {
      var init := ToBigEndian(x / 256, n - 1);
      DivideByteOff(x, Pow256(n - 1));
      FromToBigEndian(x / 256, n - 1);
      AppendByte(init, x % 256);
    }
  }

  /** Appending a low byte shifts the value up by one byte. */
  lemma AppendByte(init: seq<byte>, b: byte)
    ensures FromBigEndian(init + [b]) == FromBigEndian(init) * 256 + b
  {
    assert (init + [b])[..|init|] == init;
  }

  /** Splitting off the low byte of a number below 256 * p. */
  lemma DivideByteOff(x: nat, p: nat)
    requires x < 256 * p
    ensures x / 256 < p
    ensures x == x / 256 * 256 + x % 256
  {
  }

  /** Encoding a decoding gives back the bytes: the encoding of a given
      width is one-to-one. */
  lemma {:induction false} ToFromBigEndian(bs: seq<byte>)
    ensures ToBigEndian(FromBigEndian(bs), |bs|) == bs
  {
    if |bs| > 0 {
      var init := bs[..|bs| - 1];
      var x := FromBigEndian(bs);
      assert x / 256 == FromBigEndian(init) && x % 256 == bs[|bs| - 1];
      ToFromBigEndian(init);
      assert bs == init + [bs[|bs| - 1]];
    }
  }

  /** Zero left padding: when `x` fits in `k` bytes, every byte before the
      last `k` of its `n`-byte encoding is zero. */
  lemma {:induction false} LeadingZeros(x: nat, n: nat, k: nat)
    requires k <= n
    requires x < Pow256(k)
    ensures forall i :: 0 <= i < n - k ==> ToBigEndian(x, n)[i] == 0
  {
    if n > k {
      if k == 0 {
        ZeroEncoding(n);
      } else {
        assert x / 256 < Pow256(k - 1);
        LeadingZeros(x / 256, n - 1, k - 1);
        assert ToBigEndian(x, n)[..n - 1] == ToBigEndian(x / 256, n - 1);
      }
    }
  }

  /** Zero is all zero bytes. */
  lemma {:induction false} ZeroEncoding(n: nat)
    ensures forall i :: 0 <= i < n ==> ToBigEndian(0, n)[i] == 0
  {
    if n > 0 {
      ZeroEncoding(n - 1);
      assert ToBigEndian(0, n) == ToBigEndian(0, n - 1) + [0];
    }
  }

  /** The ABI encoding of one `uint256` as raw bytes: a 32-byte word. */
  function Word(x: Uint256): (w: seq<byte>)
    ensures |w| == 32
    ensures FromBigEndian(w) == x
  {
    WordLimitIsPow256();
    FromToBigEndian(x, 32);
    ToBigEndian(x, 32)
  }

  const HEX_DIGITS: string := "0123456789abcdef"

  /** Lower-case hex text of a byte string, two digits per byte, high
      nibble first, without the "0x" prefix. */
  function Hex(bs: seq<byte>): (s: string)
    ensures |s| == 2 * |bs|
    ensures forall i :: 0 <= i < |s| ==> s[i] in HEX_DIGITS
  {
    if |bs| == 0 then ""
    else [HEX_DIGITS[bs[0] / 16], HEX_DIGITS[bs[0] % 16]] + Hex(bs[1..])
  }

  /** `abiCoder.encode(['uint256'], [x])`: "0x" and the word's hex text. */
  function EncodeUint256(x: Uint256): (s: string)
    ensures |s| == 66 && s[..2] == "0x"
  {
    "0x" + Hex(Word(x))
  }

  /** `methodId + abiCoder.encode(['uint256'], [amount]).slice(2)`. */
  function Calldata(methodId: string, amount: Uint256): (data: string)
    ensures |data| == |methodId| + 64
    ensures data[..|methodId|] == methodId
  {
    methodId + EncodeUint256(amount)[2..]
  }

  /** After the method id, the call data is 64 lower-case hex digits: the
      hex text of the amount's word. */
  lemma CalldataDigits(methodId: string, amount: Uint256)
    ensures var data := Calldata(methodId, amount);
      forall i :: |methodId| <= i < |data| ==> data[i] in HEX_DIGITS
  {
  }

  /** The value of one hex digit, either case. */
  function HexValue(c: char): Option<nat>
  {
    if '0' <= c <= '9' then Some(c as nat - '0' as nat)
    else if 'a' <= c <= 'f' then Some(c as nat - 'a' as nat + 10)
    else if 'A' <= c <= 'F' then Some(c as nat - 'A' as nat + 10)
    else None
  }

  /** The bytes an even-length run of hex digits denotes, if it is one. */
  function ParseHexDigits(s: string): (r: Option<seq<byte>>)
    ensures r.Some? ==> |s| == 2 * |r.value|
  {
    if |s| == 0 then Some([])
    else if |s| == 1 then None
    else
      match (HexValue(s[0]), HexValue(s[1]), ParseHexDigits(s[2..]))
      case (Some(hi), Some(lo), Some(rest)) =>
        assert hi < 16 && lo < 16;
        Some([hi * 16 + lo] + rest)
      case _ => None
  }

  /** The bytes a "0x"-prefixed hex data string denotes, if it is one. */
  function ParseHexData(s: string): Option<seq<byte>>
  {
    if |s| >= 2 && s[..2] == "0x" then ParseHexDigits(s[2..]) else None
  }

  /** Data that `sendTransaction` accepts: "0x" and hex digits, two per
      byte; anything else is rejected before a transaction is built. */
  predicate IsHexData(s: string)
  {
    ParseHexData(s).Some?
  }

  /** A method id: "0x" followed by the hex text of four bytes. */
  predicate IsSelector(methodId: string)
  {
    ParseHexData(methodId).Some? && |ParseHexData(methodId).value| == 4
  }

  /** Each lower-case hex digit reads back as its value. */
  lemma HexDigitValue(v: nat)
    requires v < 16
    ensures HexValue(HEX_DIGITS[v]) == Some(v)
  {
    if v < 10 {
      assert HEX_DIGITS[v] as nat == '0' as nat + v;
    } else {
      assert HEX_DIGITS[v] as nat == 'a' as nat + v - 10;
    }
  }

  /** Two hex digits in front of a parsable run add their byte in front. */
  lemma HexPair(b: byte, rest: string, tail: seq<byte>)
    requires ParseHexDigits(rest) == Some(tail)
    ensures ParseHexDigits([HEX_DIGITS[b / 16], HEX_DIGITS[b % 16]] + rest) == Some([b] + tail)
  {
    var s := [HEX_DIGITS[b / 16], HEX_DIGITS[b % 16]] + rest;
    assert s[0] == HEX_DIGITS[b / 16] && s[1] == HEX_DIGITS[b % 16] && s[2..] == rest;
    HexDigitValue(b / 16);
    HexDigitValue(b % 16);
  }

  /** Hex text parses back to its bytes. */
  lemma {:induction false} ParseHex(bs: seq<byte>)
    ensures ParseHexDigits(Hex(bs)) == Some(bs)
  {
    if |bs| > 0 {
      ParseHex(bs[1..]);
      HexPair(bs[0], Hex(bs[1..]), bs[1..]);
      assert bs == [bs[0]] + bs[1..];
    }
  }

  /** Parsing two runs of hex digits one after the other concatenates their
      bytes. */
  lemma {:induction false} ParseHexAppend(a: string, b: string)
    requires ParseHexDigits(a).Some? && ParseHexDigits(b).Some?
    ensures ParseHexDigits(a + b) == Some(ParseHexDigits(a).value + ParseHexDigits(b).value)
  {
    if |a| > 0 {
      assert (a + b)[2..] == a[2..] + b;
      assert (a + b)[0] == a[0] && (a + b)[1] == a[1];
      ParseHexAppend(a[2..], b);
      var head := [HexValue(a[0]).value * 16 + HexValue(a[1]).value];
      var ra, rb := ParseHexDigits(a[2..]).value, ParseHexDigits(b).value;
      assert ParseHexDigits(a).value == head + ra;
      assert ParseHexDigits(a + b).value == head + (ra + rb);
      assert head + (ra + rb) == (head + ra) + rb;
    } else {
      assert a + b == b;
      assert ParseHexDigits(a).value + ParseHexDigits(b).value == ParseHexDigits(b).value;
    }
  }

  /** The encoded word is zero-left-padded hex of exactly 64 digits that
      parses back to the amount. */
  lemma EncodeUint256Decodes(x: Uint256)
    ensures ParseHexData(EncodeUint256(x)) == Some(Word(x))
    ensures FromBigEndian(ParseHexData(EncodeUint256(x)).value) == x
  {
    var s := EncodeUint256(x);
    assert s[2..] == Hex(Word(x));
    ParseHex(Word(x));
  }

  /** Hex data followed by parsable digits parses to the data's bytes
      followed by the digits' bytes. */
  lemma ParseHexDataAppend(m: string, w: string)
    requires ParseHexData(m).Some? && ParseHexDigits(w).Some?
    ensures ParseHexData(m + w) == Some(ParseHexData(m).value + ParseHexDigits(w).value)
  {
    var data := m + w;
    assert data[..2] == "0x" && data[2..] == m[2..] + w;
    ParseHexAppend(m[2..], w);
  }

  /** The call data parses to the selector's bytes followed by the amount's
      word. */
  lemma CalldataBytes(methodId: string, amount: Uint256)
    requires IsSelector(methodId)
    ensures ParseHexData(Calldata(methodId, amount)) == Some(ParseHexData(methodId).value + Word(amount))
  {
    var word := Hex(Word(amount));
    assert Calldata(methodId, amount) == methodId + word;
    ParseHex(Word(amount));
    ParseHexDataAppend(methodId, word);
  }

  /** The layout of the call data: for a well-formed method id, the data is
      36 bytes, the selector's four followed by the amount's 32-byte
      big-endian word, and bytes 4..36 decode back to the amount. */
  lemma CalldataLayout(methodId: string, amount: Uint256)
    requires IsSelector(methodId)
    ensures ParseHexData(Calldata(methodId, amount)).Some?
    ensures var bytes := ParseHexData(Calldata(methodId, amount)).value;
      && |bytes| == 36
      && bytes[..4] == ParseHexData(methodId).value
      && bytes[4..] == Word(amount)
      && FromBigEndian(bytes[4..36]) == amount
  {
    CalldataBytes(methodId, amount);
    var selector, word := ParseHexData(methodId).value, Word(amount);
    var bytes := selector + word;
    assert bytes[..4] == selector && bytes[4..] == word && bytes[4..36] == word;
  }

  /** Distinct amounts give distinct call data under the same method id. */
  lemma CalldataInjective(methodId: string, a: Uint256, b: Uint256)
    requires IsSelector(methodId)
    requires Calldata(methodId, a) == Calldata(methodId, b)
    ensures a == b
  {
    CalldataLayout(methodId, a);
    CalldataLayout(methodId, b);
  }

  /** A run of digits followed by parsable digits parses only if the run
      does on its own. */
  lemma {:induction false} ParseHexPrefix(a: string, b: string)
    requires ParseHexDigits(b).Some?
    requires ParseHexDigits(a + b).Some?
    ensures ParseHexDigits(a).Some?
    decreases |a|
  {
    if |a| >= 2 {
      assert (a + b)[2..] == a[2..] + b;
      ParseHexPrefix(a[2..], b);
    }
  }

  /** Appending at least two parsable digits to a text keeps it hex data
      exactly when it was: the digits cannot supply the "0x". */
  lemma HexDataAppend(m: string, w: string)
    requires |w| >= 2 && ParseHexDigits(w).Some?
    requires forall i :: 0 <= i < |w| ==> w[i] in HEX_DIGITS
    ensures IsHexData(m + w) <==> IsHexData(m)
  {
    if |m| >= 2 && m[..2] == "0x" {
      HexDigitsAppend(m, w);
    } else {
      NoPrefixAppend(m, w);
    }
  }

  /** Behind the "0x", the digits parse together exactly when the method
      id's digits parse. */
  lemma HexDigitsAppend(m: string, w: string)
    requires |m| >= 2 && m[..2] == "0x"
    requires ParseHexDigits(w).Some?
    ensures IsHexData(m + w) <==> IsHexData(m)
  {
    var data := m + w;
    assert data[..2] == "0x" && data[2..] == m[2..] + w;
    if ParseHexDigits(m[2..]).Some? {
      ParseHexAppend(m[2..], w);
    } else if ParseHexDigits(data[2..]).Some? {
      ParseHexPrefix(m[2..], w);
    }
  }

  /** A text without the "0x" prefix stays without it when hex digits are
      appended. */
  lemma NoPrefixAppend(m: string, w: string)
    requires !(|m| >= 2 && m[..2] == "0x")
    requires |w| >= 2
    requires forall i :: 0 <= i < |w| ==> w[i] in HEX_DIGITS
    ensures !IsHexData(m + w) && !IsHexData(m)
  {
    var data := m + w;
    if |m| >= 2 {
      assert data[..2] == m[..2];
    } else {
      // the second character is a digit of `w`, never 'x'
      assert data[1] == w[1 - |m|] && data[1] in HEX_DIGITS;
      assert data[1] != 'x';
    }
  }

  /** The call data is valid hex data exactly when the method id is: the
      encoded amount always is, so the method id decides. */
  lemma CalldataIsHex(methodId: string, amount: Uint256)
    ensures IsHexData(Calldata(methodId, amount)) <==> IsHexData(methodId)
  {
    var word := Hex(Word(amount));
    ParseHex(Word(amount));
    assert Calldata(methodId, amount) == methodId + word;
    HexDataAppend(methodId, word);
  }
}
