/** The credential set: which private keys the process environment supplies
    and in which order (gas.js:70-83). */
module Credentials {
  import opened Base

  /** The process environment: variable name to value. */
  type Env = map<string, string>

  /** The decimal text of a natural number, as a template literal renders
      an integer index: no sign, no leading zeros. */
  function Decimal(n: nat): (s: string)
    ensures |s| >= 1
    ensures n >= 10 ==> |s| >= 2
    ensures forall i :: 0 <= i < |s| ==> s[i] in "0123456789"
    ensures n >= 1 ==> s[0] != '0'
    decreases n
  {
    if n < 10 then ["0123456789"[n]]
    else Decimal(n / 10) + ["0123456789"[n % 10]]
  }

  /** Distinct numbers have distinct decimal texts. */
  lemma {:induction false} DecimalInjective(a: nat, b: nat)
    requires Decimal(a) == Decimal(b)
    ensures a == b
    decreases a
  {
    if a < 10 || b < 10 {
      // one digit on one side forces one digit on the other
      assert Decimal(a)[0] == Decimal(b)[0];
    } else {
      var da, db := Decimal(a), Decimal(b);
      assert da[|da| - 1] == db[|db| - 1];
      assert a % 10 == b % 10;
      assert Decimal(a / 10) == da[..|da| - 1] == db[..|db| - 1] == Decimal(b / 10);
      DecimalInjective(a / 10, b / 10);
    }
  }

  /** The number a run of decimal digits denotes, most significant digit
      first. */
  function DigitsValue(s: string): nat
    requires forall i :: 0 <= i < |s| ==> '0' <= s[i] <= '9'
  {
    if |s| == 0 then 0 else DigitsValue(s[..|s| - 1]) * 10 + (s[|s| - 1] as int - '0' as int)
  }

  /** The decimal text of `n` denotes `n`. */
  lemma {:induction false} DecimalValue(n: nat)
    ensures forall i :: 0 <= i < |Decimal(n)| ==> '0' <= Decimal(n)[i] <= '9'
    ensures DigitsValue(Decimal(n)) == n
    decreases n
  {
    var s := Decimal(n);
    DigitChar(n % 10);
    if n < 10 {
      assert s[..|s| - 1] == [];
    } else {
      DecimalValue(n / 10);
      assert s[..|s| - 1] == Decimal(n / 10);
    }
  }

  /** The digit character of `d` lies in '0'..'9' and denotes `d`. */
  lemma DigitChar(d: nat)
    requires d < 10
    ensures '0' <= "0123456789"[d] <= '9'
    ensures "0123456789"[d] as int - '0' as int == d
  {
  }

  const NUMBERED_PREFIX: string := "PRIVATE_KEY_"
  const SINGLE_KEY: string := "PRIVATE_KEY"

  /** The name of the `i`-th numbered key variable, `PRIVATE_KEY_<i>`. */
  function KeyName(i: nat): string
  {
    NUMBERED_PREFIX + Decimal(i)
  }

  /** Distinct indices name distinct variables. */
  lemma KeyNameInjective(i: nat, j: nat)
    requires KeyName(i) == KeyName(j)
    ensures i == j
  {
    assert Decimal(i) == KeyName(i)[|NUMBERED_PREFIX|..] == KeyName(j)[|NUMBERED_PREFIX|..] == Decimal(j);
    DecimalInjective(i, j);
  }

  /** `process.env[name]` is truthy: set and non-empty. */
  predicate Present(env: Env, name: string)
  {
    name in env && env[name] != ""
  }

  /** `run` lists the values of PRIVATE_KEY_1 .. PRIVATE_KEY_n, n = |run|, in
      index order, and PRIVATE_KEY_(n+1) is missing or empty. */
  ghost predicate IsNumberedRun(env: Env, run: seq<string>)
  {
    NumberedPrefix(env, run) && !Present(env, KeyName(|run| + 1))
  }

  /** `run` lists the values of PRIVATE_KEY_1 .. PRIVATE_KEY_n, n = |run|,
      in index order, each of them present. */
  ghost predicate NumberedPrefix(env: Env, run: seq<string>)
  {
    forall j :: 1 <= j <= |run| ==> Present(env, KeyName(j)) && run[j - 1] == env[KeyName(j)]
  }

  /** A present next key extends a prefix of the run. */
  lemma NumberedPrefixGrows(env: Env, run: seq<string>)
    requires NumberedPrefix(env, run)
    requires Present(env, KeyName(|run| + 1))
    ensures NumberedPrefix(env, run + [env[KeyName(|run| + 1)]])
  {
    var run' := run + [env[KeyName(|run| + 1)]];
    forall j | 1 <= j <= |run'| ensures Present(env, KeyName(j)) && run'[j - 1] == env[KeyName(j)] {
      if j <= |run| {
        assert run'[j - 1] == run[j - 1];
      }
    }
  }

  /** The key list the script must use: the numbered run when it is
      non-empty, and otherwise the single PRIVATE_KEY if that is set. */
  ghost predicate IsKeyList(env: Env, keys: seq<string>)
  {
    if Present(env, KeyName(1)) then IsNumberedRun(env, keys) && |keys| >= 1
    else if Present(env, SINGLE_KEY) then keys == [env[SINGLE_KEY]]
    else keys == []
  }

  /** At most one run satisfies the description: the description pins the
      result down completely. */
  lemma NumberedRunUnique(env: Env, r1: seq<string>, r2: seq<string>)
    requires IsNumberedRun(env, r1) && IsNumberedRun(env, r2)
    ensures r1 == r2
  {
    if |r1| == |r2| {
      forall k | 0 <= k < |r1| ensures r1[k] == r2[k] {
        assert r1[(k + 1) - 1] == env[KeyName(k + 1)] == r2[(k + 1) - 1];
      }
    } else {
      // the shorter run would stop at an index the longer one covers
      assert false;
    }
  }

  /** The names PRIVATE_KEY_1 .. PRIVATE_KEY_(idx-1). */
  ghost function NamesBelow(idx: nat): set<string>
  {
    set j: nat | 1 <= j < idx :: KeyName(j)
  }

  /** The next name is not among the earlier ones. */
  lemma NamesBelowGrow(idx: nat)
    requires idx >= 1
    ensures KeyName(idx) !in NamesBelow(idx)
    ensures NamesBelow(idx + 1) == NamesBelow(idx) + {KeyName(idx)}
  {
    if KeyName(idx) in NamesBelow(idx) {
      var j: nat :| 1 <= j < idx && KeyName(j) == KeyName(idx);
      KeyNameInjective(j, idx);
    }
    forall x | x in NamesBelow(idx + 1) ensures x in NamesBelow(idx) + {KeyName(idx)} {
      var j: nat :| 1 <= j < idx + 1 && KeyName(j) == x;
      if j < idx { assert x in NamesBelow(idx); }
    }
    forall x | x in NamesBelow(idx) + {KeyName(idx)} ensures x in NamesBelow(idx + 1) {
      if x == KeyName(idx) {
        assert KeyName(idx) in NamesBelow(idx + 1);
      } else {
        var j: nat :| 1 <= j < idx && KeyName(j) == x;
        assert 1 <= j < idx + 1;
      }
    }
  }

  /** `getPrivateKeys`: collect PRIVATE_KEY_1, PRIVATE_KEY_2, ... up to the
      first missing or empty one; fall back to PRIVATE_KEY only when no
      numbered key was found. */
  method GetPrivateKeys(env: Env) returns (keys: seq<string>)
    ensures IsKeyList(env, keys)
  {
    keys := NumberedKeys(env);
    if |keys| == 0 && Present(env, SINGLE_KEY) {
      keys := keys + [env[SINGLE_KEY]];
    }
  }

  /** The loop of `getPrivateKeys`: read PRIVATE_KEY_1, PRIVATE_KEY_2, ...
      until one is missing or empty. It stops because every round consumes
      one more variable of the finite environment. */
  method NumberedKeys(env: Env) returns (keys: seq<string>)
    ensures IsNumberedRun(env, keys)
  {
    keys := [];
    var idx: nat := 1;
    ghost var seen: set<string> := {};
    while true
      invariant idx == |keys| + 1 >= 1
      invariant NumberedPrefix(env, keys)
      invariant seen == NamesBelow(idx)
      invariant seen <= env.Keys
      decreases |env.Keys - seen|
    {
      var name := KeyName(idx);
      if !Present(env, name) {
        break;
      }
      NamesBelowGrow(idx);
      NumberedPrefixGrows(env, keys);
      FewerLeft(env.Keys, seen, name);
      keys := keys + [env[name]];
      seen := seen + {name};
      idx := idx + 1;
    }
  }

  /** Adding a new element of `all` to `seen` leaves fewer unseen ones. */
  lemma FewerLeft(all: set<string>, seen: set<string>, x: string)
    requires seen <= all && x in all && x !in seen
    ensures |all - (seen + {x})| < |all - seen|
  {
    assert all - (seen + {x}) < all - seen;
  }

  /** No numbered key beyond a gap is ever part of the run: the run stops
      before the first missing or empty index. */
  lemma GapBound(env: Env, run: seq<string>)
    requires IsNumberedRun(env, run)
    ensures forall g: nat :: g >= 1 && !Present(env, KeyName(g)) ==> |run| < g
  {
    forall g: nat | g >= 1 && !Present(env, KeyName(g)) ensures |run| < g {
      if g <= |run| {
        assert false;
      }
    }
  }

  /** The key list is determined by the environment. */
  lemma KeyListUnique(env: Env, k1: seq<string>, k2: seq<string>)
    requires IsKeyList(env, k1) && IsKeyList(env, k2)
    ensures k1 == k2
  {
    if Present(env, KeyName(1)) {
      NumberedRunUnique(env, k1, k2);
    }
  }

  /** Ordering and stopping: the list is empty exactly when neither a first
      numbered key nor PRIVATE_KEY is set; without numbered keys it has at
      most one element; with them, every element is the value of the
      numbered key at its position and nothing at or past a gap is listed. */
  lemma KeyListShape(env: Env, keys: seq<string>)
    requires IsKeyList(env, keys)
    ensures |keys| == 0 <==> !Present(env, KeyName(1)) && !Present(env, SINGLE_KEY)
    ensures !Present(env, KeyName(1)) ==> |keys| <= 1
    ensures Present(env, KeyName(1)) ==>
      forall k :: 0 <= k < |keys| ==> keys[k] == env[KeyName(k + 1)]
    ensures Present(env, KeyName(1)) ==>
      forall g: nat :: g >= 1 && !Present(env, KeyName(g)) ==> |keys| < g
  {
    if Present(env, KeyName(1)) {
      GapBound(env, keys);
      forall k | 0 <= k < |keys| ensures keys[k] == env[KeyName(k + 1)] {
        assert keys[(k + 1) - 1] == env[KeyName(k + 1)];
      }
    }
  }

  /** No numbered variable is called PRIVATE_KEY. */
  lemma SingleKeyNotNumbered(i: nat)
    ensures KeyName(i) != SINGLE_KEY
  {
    assert |KeyName(i)| > |SINGLE_KEY|;
  }

  /** Once a numbered key exists, PRIVATE_KEY is ignored: changing or
      setting it does not change the key list. */
  lemma SingleKeyIgnored(env: Env, v: string, k1: seq<string>, k2: seq<string>)
    requires Present(env, KeyName(1))
    requires IsKeyList(env, k1)
    requires IsKeyList(env[SINGLE_KEY := v], k2)
    ensures k1 == k2
  {
    var env2 := env[SINGLE_KEY := v];
    forall i: nat ensures Present(env2, KeyName(i)) == Present(env, KeyName(i))
      && (KeyName(i) in env ==> env2[KeyName(i)] == env[KeyName(i)])
    {
      SingleKeyNotNumbered(i);
    }
    assert IsNumberedRun(env2, k1);
    NumberedRunUnique(env2, k1, k2);
  }
}
