/** Values shared by the whole model: optional values, replies of the
    outside world (RPC, HTTP), JavaScript truthiness of looked-up strings,
    object literals as ordered key/value tables, and the byte and uint256
    ranges of the Ethereum ABI. */
module Base {

  /** A value that may be absent (`undefined` in the script). */
  datatype Option<+T> = None | Some(value: T)

  /** The answer of an awaited call into code the model cannot see:
      it either returns a value or throws. */
  datatype Reply<+T> = Returns(value: T) | Throws

  /** `!x` is false for a looked-up string exactly when it is present and
      non-empty: `undefined` and `""` are the falsy strings. */
  function Truthy(o: Option<string>): (t: bool)
  {
    o.Some? && o.value != ""
  }

  /** `a || b` on two optional strings: the first one if it is truthy.
      The result is one of the operands, and it is truthy exactly when
      one of them is. */
  function Or(a: Option<string>, b: Option<string>): (r: Option<string>)
    ensures Truthy(a) ==> r == a
    ensures !Truthy(a) ==> r == b
    ensures r == a || r == b
    ensures Truthy(r) <==> Truthy(a) || Truthy(b)
  {
    if Truthy(a) then a else b
  }

  /** What string concatenation makes of an optional string: JavaScript
      renders `undefined` as the text "undefined". */
  function Render(o: Option<string>): string
  {
    match o
    case Some(s) => s
    case None => "undefined"
  }

  /** A truthy string concatenates as itself and is not empty; a falsy one
      adds "" or, when undefined, the text "undefined". */
  lemma TruthyRender(o: Option<string>)
    ensures Truthy(o) ==> o.Some? && Render(o) == o.value && |Render(o)| > 0
    ensures !Truthy(o) ==> Render(o) == "" || Render(o) == "undefined"
  {
  }

  /** An object literal: its own string-keyed properties in insertion
      order. `Object.keys` and `Object.entries` visit non-index keys in
      this order; keys that are array indices ("0", "1", …) would come
      first in ascending numeric order, which the table does not model. */
  type Table = seq<(string, string)>

  /** The keys of a table, in order. */
  function KeysOf(t: Table): (ks: seq<string>)
    ensures |ks| == |t|
    ensures forall i :: 0 <= i < |t| ==> ks[i] == t[i].0
  {
    seq(|t|, i requires 0 <= i < |t| => t[i].0)
  }

  /** Property access `t[k]`: the value of the first entry with key `k`,
      or `undefined`. */
  function Lookup(t: Table, k: string): (r: Option<string>)
    ensures r.None? <==> k !in KeysOf(t)
    ensures r.Some? ==> exists i :: 0 <= i < |t| && t[i] == (k, r.value)
  {
    if |t| == 0 then None
    else
      assert KeysOf(t) == [t[0].0] + KeysOf(t[1..]);
      if t[0].0 == k then Some(t[0].1)
      else Lookup(t[1..], k)
  }

  /** No key occurs twice, as among an object's own property keys. */
  predicate DistinctKeys(t: Table)
  {
    forall i, j :: 0 <= i < j < |t| ==> t[i].0 != t[j].0
  }

  /** In a table with distinct keys, access by a key returns that key's
      entry. */
  lemma {:induction false} LookupEntry(t: Table, i: nat)
    requires DistinctKeys(t)
    requires i < |t|
    ensures Lookup(t, t[i].0) == Some(t[i].1)
  {
    if i > 0 {
      assert t[0].0 != t[i].0;
      assert DistinctKeys(t[1..]) by {
        forall a, b | 0 <= a < b < |t[1..]|
          ensures t[1..][a].0 != t[1..][b].0
        {
          assert t[1..][a] == t[a + 1] && t[1..][b] == t[b + 1];
        }
      }
      LookupEntry(t[1..], i - 1);
    }
  }

  /** A byte. */
  type byte = x: nat | x < 256

  /** 2^256, one more than the largest ABI `uint256`. */
  const WORD_LIMIT: nat := 0x1_0000_0000_0000_0000_0000_0000_0000_0000_0000_0000_0000_0000_0000_0000_0000_0000

  /** An ABI `uint256`: what `balanceOf` and `allowance` return. */
  type Uint256 = x: nat | x < WORD_LIMIT
}
