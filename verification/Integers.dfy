/** Optional values, and the fixed-width integer operations of the harness written out over `int`. */
module Wrappers {
  datatype Option<+T> = None | Some(value: T)
}

module Integers {
  import opened Wrappers

  const U8_MAX: nat := 0xFF
  const U64_MAX: nat := 0xFFFF_FFFF_FFFF_FFFF
  const U128_MAX: nat := 0xFFFF_FFFF_FFFF_FFFF_FFFF_FFFF_FFFF_FFFF

  // Subset types: `+` and `-` are those of `int`, so storing a result in a `u128` is a proof
  // that the machine operation neither wraps nor panics.
  type u8 = x: int | 0 <= x <= U8_MAX
  type u64 = x: int | 0 <= x <= U64_MAX
  type u128 = x: int | 0 <= x <= U128_MAX

  lemma Widths()
    ensures U8_MAX + 1 == 256
    ensures U64_MAX + 1 == 256 * 256 * 256 * 256 * 256 * 256 * 256 * 256
    ensures U128_MAX + 1 == (U64_MAX + 1) * (U64_MAX + 1)
  {}

  function CheckedAdd(a: u128, b: u128): (r: Option<u128>) {
    if a + b <= U128_MAX then Some(a + b) else None
  }

  function CheckedSub(a: u128, b: u128): (r: Option<u128>) {
    if b <= a then Some(a - b) else None
  }

  function SaturatingAdd(a: u128, b: u128): (r: u128) {
    if a + b <= U128_MAX then a + b else U128_MAX
  }

  function WrappingAdd(a: u128, b: u128): (r: u128) {
    if a + b <= U128_MAX then a + b else a + b - (U128_MAX + 1)
  }

  /** What a counter of 128 bits shows after `n` increments from zero: the remainder of `n` by 2^128. */
  function Wrap128(n: nat): (r: u128) {
    if n <= U128_MAX then n else Wrap128(n - (U128_MAX + 1))
  }

  /** Remainder of unsigned operands. */
  function Mod(a: nat, m: nat): (r: nat)
    requires m > 0
    ensures r < m
    ensures a < m ==> r == a
    ensures a == m ==> r == 0
  {
    a % m
  }

  lemma MulMonotone(a: nat, b: nat, c: nat)
    requires a <= b
    ensures a * c <= b * c
  {}

  /** `r` is what is left of `a` after taking out `m` as often as possible. */
  ghost predicate Remainder(a: nat, m: nat, r: nat) {
    r < m && exists q: nat :: a == Times(q, m) + r
  }

  function Times(q: nat, m: nat): nat { q * m }

  lemma RemainderIsMod(a: nat, m: nat)
    requires m > 0
    ensures Remainder(a, m, Mod(a, m))
  {
    assert a == Times(a / m, m) + Mod(a, m);
  }

  lemma RemainderIsUnique(a: nat, m: nat, r: nat, t: nat)
    requires Remainder(a, m, r) && Remainder(a, m, t)
    ensures r == t
  {
    var p: nat :| a == Times(p, m) + r;
    var q: nat :| a == Times(q, m) + t;
    if p < q { MoreTimes(p, q, m); }
    if q < p { MoreTimes(q, p, m); }
  }

  lemma MoreTimes(p: nat, q: nat, m: nat)
    requires p < q
    ensures Times(p, m) + m <= Times(q, m)
  {
    MulMonotone(p + 1, q, m);
  }

  function WrappingAdd64(a: u64, b: u64): (r: u64)
    ensures r == a + b || r + U64_MAX + 1 == a + b
  {
    if a + b <= U64_MAX then a + b else a + b - (U64_MAX + 1)
  }
}

/** Identifiers that the protocol derives by hashing; only equality of them is ever observed. */
module Identity {
  import opened Integers

  datatype AccountId = AccountId(tag: nat)
  datatype PrivateKey = PrivateKey(tag: nat)

  /** A generated account: the id is derived from the key, so the funded account is the signer. */
  datatype FuzzAccount = FuzzAccount(accountId: AccountId, balance: u128, privateKey: PrivateKey)

  function Ids(accounts: seq<FuzzAccount>): (ids: seq<AccountId>)
    ensures |ids| == |accounts|
    ensures forall i :: 0 <= i < |ids| ==> ids[i] == accounts[i].accountId
  {
    seq(|accounts|, i requires 0 <= i < |accounts| => accounts[i].accountId)
  }

  function AsSet<T(!new)>(s: seq<T>): set<T> {
    set x | x in s
  }

  predicate Distinct<T(==)>(s: seq<T>) {
    forall i, j :: 0 <= i < j < |s| ==> s[i] != s[j]
  }
}
