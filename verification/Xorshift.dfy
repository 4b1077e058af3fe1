/** The xorshift64 generator that drives the distributional tests of the builders. */
module Xorshift {
  const SEED: bv64 := 0x9E37_79B9_7F4A_7C15

  function L13(x: bv64): bv64 { x ^ (x << 13) }
  function R7(x: bv64): bv64 { x ^ (x >> 7) }
  function L17(x: bv64): bv64 { x ^ (x << 17) }

  function Step(x: bv64): bv64 {
    L17(R7(L13(x)))
  }

  // A shift-xor is undone by repeating it with the shift doubled until it leaves the word.
  function UndoL13(y: bv64): bv64 {
    var a := y ^ (y << 13);
    var b := a ^ (a << 26);
    b ^ (b << 52)
  }

  function UndoR7(y: bv64): bv64 {
    var a := y ^ (y >> 7);
    var b := a ^ (a >> 14);
    var c := b ^ (b >> 28);
    c ^ (c >> 56)
  }

  function UndoL17(y: bv64): bv64 {
    var a := y ^ (y << 17);
    a ^ (a << 34)
  }

  function Unstep(y: bv64): bv64 {
    UndoL13(UndoR7(UndoL17(y)))
  }

  // The same facts on plain expressions, where the solver simplifies them word by word.
  lemma L13Words(x: bv64)
    ensures var y := x ^ (x << 13); var a := y ^ (y << 13); var b := a ^ (a << 26); b ^ (b << 52) == x
    ensures var a := x ^ (x << 13); var b := a ^ (a << 26); var z := b ^ (b << 52); z ^ (z << 13) == x
  {}

  lemma R7Words(x: bv64)
    ensures var y := x ^ (x >> 7); var a := y ^ (y >> 7); var b := a ^ (a >> 14); var c := b ^ (b >> 28);
      c ^ (c >> 56) == x
    ensures var a := x ^ (x >> 7); var b := a ^ (a >> 14); var c := b ^ (b >> 28); var z := c ^ (c >> 56);
      z ^ (z >> 7) == x
  {}

  lemma L17Words(x: bv64)
    ensures var y := x ^ (x << 17); var a := y ^ (y << 17); a ^ (a << 34) == x
    ensures var a := x ^ (x << 17); var z := a ^ (a << 34); z ^ (z << 17) == x
  {}

  lemma UndoAfterL13(x: bv64)
    ensures UndoL13(L13(x)) == x
  {
    calc { UndoL13(L13(x)); UndoL13(x ^ (x << 13)); { L13Words(x); } x; }
  }

  lemma UndoAfterR7(x: bv64)
    ensures UndoR7(R7(x)) == x
  {
    calc { UndoR7(R7(x)); UndoR7(x ^ (x >> 7)); { R7Words(x); } x; }
  }

  lemma UndoAfterL17(x: bv64)
    ensures UndoL17(L17(x)) == x
  {
    calc { UndoL17(L17(x)); UndoL17(x ^ (x << 17)); { L17Words(x); } x; }
  }

  lemma L13AfterUndo(y: bv64)
    ensures L13(UndoL13(y)) == y
  {
    calc {
      L13(UndoL13(y));
      L13(var a := y ^ (y << 13); var b := a ^ (a << 26); b ^ (b << 52));
      { L13Words(y); }
      y;
    }
  }

  lemma R7AfterUndo(y: bv64)
    ensures R7(UndoR7(y)) == y
  {
    calc {
      R7(UndoR7(y));
      R7(var a := y ^ (y >> 7); var b := a ^ (a >> 14); var c := b ^ (b >> 28); c ^ (c >> 56));
      { R7Words(y); }
      y;
    }
  }

  lemma L17AfterUndo(y: bv64)
    ensures L17(UndoL17(y)) == y
  {
    calc {
      L17(UndoL17(y));
      L17(var a := y ^ (y << 17); a ^ (a << 34));
      { L17Words(y); }
      y;
    }
  }

  /** The step is a bijection on 64-bit words, with an explicit inverse on both sides. */
  lemma StepIsBijective(x: bv64)
    ensures Unstep(Step(x)) == x && Step(Unstep(x)) == x
  {
    UndoAfterL17(R7(L13(x)));
    UndoAfterR7(L13(x));
    UndoAfterL13(x);
    L13AfterUndo(UndoR7(UndoL17(x)));
    R7AfterUndo(UndoL17(x));
    L17AfterUndo(x);
  }

  lemma ZeroIsFixed()
    ensures Step(0) == 0 && Unstep(0) == 0
  {}

  // ---------- The step as a linear map ----------

  function Xor(x: bv64, y: bv64): bv64 { x ^ y }

  lemma XorWords(a: bv64, b: bv64, c: bv64)
    ensures (a ^ b) ^ c == a ^ (b ^ c)
    ensures (a ^ b) << 13 == (a << 13) ^ (b << 13)
    ensures (a ^ b) >> 7 == (a >> 7) ^ (b >> 7)
    ensures (a ^ b) << 17 == (a << 17) ^ (b << 17)
  {}

  lemma XorAssociates(a: bv64, b: bv64, c: bv64)
    ensures Xor(Xor(a, b), c) == Xor(a, Xor(b, c))
  {
    calc {
      Xor(Xor(a, b), c);
      Xor(a ^ b, c);
      (a ^ b) ^ c;
      { XorWords(a, b, c); }
      a ^ (b ^ c);
      Xor(a, b ^ c);
      Xor(a, Xor(b, c));
    }
  }

  lemma XorCommutes(a: bv64, b: bv64)
    ensures Xor(a, b) == Xor(b, a)
  {}

  lemma XorSwaps(a: bv64, b: bv64, c: bv64, d: bv64)
    ensures Xor(Xor(a, b), Xor(c, d)) == Xor(Xor(a, c), Xor(b, d))
  {
    calc {
      Xor(Xor(a, b), Xor(c, d));
      { XorAssociates(a, b, Xor(c, d)); }
      Xor(a, Xor(b, Xor(c, d)));
      { XorAssociates(b, c, d); }
      Xor(a, Xor(Xor(b, c), d));
      { XorCommutes(b, c); }
      Xor(a, Xor(Xor(c, b), d));
      { XorAssociates(c, b, d); }
      Xor(a, Xor(c, Xor(b, d)));
      { XorAssociates(a, c, Xor(b, d)); }
      Xor(Xor(a, c), Xor(b, d));
    }
  }

  lemma L13Shift(x: bv64, y: bv64)
    ensures Xor(x, y) << 13 == Xor(x << 13, y << 13)
  {
    calc { Xor(x, y) << 13; (x ^ y) << 13; { XorWords(x, y, 0); } (x << 13) ^ (y << 13); Xor(x << 13, y << 13); }
  }

  lemma L13AsXor(x: bv64)
    ensures L13(x) == Xor(x, x << 13)
  {
    calc { L13(x); x ^ (x << 13); Xor(x, x << 13); }
  }

  lemma L13IsLinear(x: bv64, y: bv64)
    ensures L13(Xor(x, y)) == Xor(L13(x), L13(y))
  {
    L13AsXor(x);
    L13AsXor(y);
    L13AsXor(Xor(x, y));
    L13Shift(x, y);
    XorSwaps(x, y, x << 13, y << 13);
  }

  lemma R7Shift(x: bv64, y: bv64)
    ensures Xor(x, y) >> 7 == Xor(x >> 7, y >> 7)
  {
    calc { Xor(x, y) >> 7; (x ^ y) >> 7; { XorWords(x, y, 0); } (x >> 7) ^ (y >> 7); Xor(x >> 7, y >> 7); }
  }

  lemma R7AsXor(x: bv64)
    ensures R7(x) == Xor(x, x >> 7)
  {
    calc { R7(x); x ^ (x >> 7); Xor(x, x >> 7); }
  }

  lemma R7IsLinear(x: bv64, y: bv64)
    ensures R7(Xor(x, y)) == Xor(R7(x), R7(y))
  {
    R7AsXor(x);
    R7AsXor(y);
    R7AsXor(Xor(x, y));
    R7Shift(x, y);
    XorSwaps(x, y, x >> 7, y >> 7);
  }

  lemma L17Shift(x: bv64, y: bv64)
    ensures Xor(x, y) << 17 == Xor(x << 17, y << 17)
  {
    calc { Xor(x, y) << 17; (x ^ y) << 17; { XorWords(x, y, 0); } (x << 17) ^ (y << 17); Xor(x << 17, y << 17); }
  }

  lemma L17AsXor(x: bv64)
    ensures L17(x) == Xor(x, x << 17)
  {
    calc { L17(x); x ^ (x << 17); Xor(x, x << 17); }
  }

  lemma L17IsLinear(x: bv64, y: bv64)
    ensures L17(Xor(x, y)) == Xor(L17(x), L17(y))
  {
    L17AsXor(x);
    L17AsXor(y);
    L17AsXor(Xor(x, y));
    L17Shift(x, y);
    XorSwaps(x, y, x << 17, y << 17);
  }

  /** The step of a sum is the sum of the steps, so its values on the 64 one-bit words fix it. */
  lemma StepIsLinear(x: bv64, y: bv64)
    ensures Step(Xor(x, y)) == Xor(Step(x), Step(y))
  {
    L13IsLinear(x, y);
    R7IsLinear(L13(x), L13(y));
    L17IsLinear(R7(L13(x)), R7(L13(y)));
  }

  /** Those values.  Bit 0, for one, spreads to bits 0, 13 and 6, and those again 17 places up. */
  lemma StepOnOneBit()
    ensures Step(0x1) == 0x40822041 && Step(0x2) == 0x81044082
    ensures Step(0x4) == 0x102088104 && Step(0x8) == 0x204110208
    ensures Step(0x10) == 0x408220410 && Step(0x20) == 0x810440820
    ensures Step(0x40) == 0x1020881040 && Step(0x80) == 0x2041122081
    ensures Step(0x100) == 0x4082244102 && Step(0x200) == 0x8104488204
    ensures Step(0x400) == 0x10208910408 && Step(0x800) == 0x20411220810
    ensures Step(0x1000) == 0x40822441020 && Step(0x2000) == 0x81044882040
    ensures Step(0x4000) == 0x102089104080 && Step(0x8000) == 0x204112208100
    ensures Step(0x10000) == 0x408224410200 && Step(0x20000) == 0x810448820400
    ensures Step(0x40000) == 0x1020891040800 && Step(0x80000) == 0x2041122081000
    ensures Step(0x100000) == 0x4082244102000 && Step(0x200000) == 0x8104488204000
    ensures Step(0x400000) == 0x10208910408000 && Step(0x800000) == 0x20411220810000
    ensures Step(0x1000000) == 0x40822441020000 && Step(0x2000000) == 0x81044882040000
    ensures Step(0x4000000) == 0x102089104080000 && Step(0x8000000) == 0x204112208100000
    ensures Step(0x10000000) == 0x408224410200000 && Step(0x20000000) == 0x810448820400000
    ensures Step(0x40000000) == 0x1020891040800000 && Step(0x80000000) == 0x2041122081000000
    ensures Step(0x100000000) == 0x4082244102000000 && Step(0x200000000) == 0x8104488204000000
    ensures Step(0x400000000) == 0x208910408000000 && Step(0x800000000) == 0x411220810000000
    ensures Step(0x1000000000) == 0x822441020000000 && Step(0x2000000000) == 0x1044882040000000
    ensures Step(0x4000000000) == 0x2089104080000000 && Step(0x8000000000) == 0x4112208100000000
    ensures Step(0x10000000000) == 0x8224410200000000 && Step(0x20000000000) == 0x448820400000000
    ensures Step(0x40000000000) == 0x891040800000000 && Step(0x80000000000) == 0x1122081000000000
    ensures Step(0x100000000000) == 0x2244102000000000 && Step(0x200000000000) == 0x4488204000000000
    ensures Step(0x400000000000) == 0x8910408000000000 && Step(0x800000000000) == 0x1220810000000000
    ensures Step(0x1000000000000) == 0x2441020000000000 && Step(0x2000000000000) == 0x4882040000000000
    ensures Step(0x4000000000000) == 0x9104080000000000 && Step(0x8000000000000) == 0x2008100000000000
    ensures Step(0x10000000000000) == 0x4010200000000000 && Step(0x20000000000000) == 0x8020400000000000
    ensures Step(0x40000000000000) == 0x40800000000000 && Step(0x80000000000000) == 0x81000000000000
    ensures Step(0x100000000000000) == 0x102000000000000 && Step(0x200000000000000) == 0x204000000000000
    ensures Step(0x400000000000000) == 0x408000000000000 && Step(0x800000000000000) == 0x810000000000000
    ensures Step(0x1000000000000000) == 0x1020000000000000 && Step(0x2000000000000000) == 0x2040000000000000
    ensures Step(0x4000000000000000) == 0x4080000000000000 && Step(0x8000000000000000) == 0x8100000000000000
  {}

  // ---------- Sequences of outputs ----------

  /** The state after `n` calls. */
  function After(x: bv64, n: nat): bv64 {
    if n == 0 then x else Step(After(x, n - 1))
  }

  /** The stuck state is never reached from anywhere else, over any number of calls. */
  lemma {:induction false} NeverStuck(x: bv64, n: nat)
    ensures After(x, n) == 0 <==> x == 0
  {
    if n > 0 {
      NeverStuck(x, n - 1);
      ZeroIsFixed();
      StepIsBijective(After(x, n - 1));
    }
  }

  /** The orbit is a pure cycle: a state that repeats leads back to the seed, so outputs have no dead tail. */
  lemma {:induction false} RepeatsReturnToSeed(x: bv64, m: nat, n: nat)
    requires m <= n && After(x, m) == After(x, n)
    ensures After(x, n - m) == x
  {
    if m > 0 {
      StepIsBijective(After(x, m - 1));
      StepIsBijective(After(x, n - 1));
      RepeatsReturnToSeed(x, m - 1, n - 1);
    }
  }

  /** The eight bytes of a word, least significant first. */
  function LeBytes(x: bv64): (r: seq<bv8>)
    ensures |r| == 8
  {
    [(x & 0xFF) as bv8, ((x >> 8) & 0xFF) as bv8, ((x >> 16) & 0xFF) as bv8, ((x >> 24) & 0xFF) as bv8,
     ((x >> 32) & 0xFF) as bv8, ((x >> 40) & 0xFF) as bv8, ((x >> 48) & 0xFF) as bv8, (x >> 56) as bv8]
  }

  /** The word of eight bytes, least significant first. */
  function FromLeBytes(b: seq<bv8>): bv64
    requires |b| == 8
  {
    (b[0] as bv64) | ((b[1] as bv64) << 8) | ((b[2] as bv64) << 16) | ((b[3] as bv64) << 24)
    | ((b[4] as bv64) << 32) | ((b[5] as bv64) << 40) | ((b[6] as bv64) << 48) | ((b[7] as bv64) << 56)
  }

  /** Writing a word as bytes and reading it back is the identity: nothing is lost and the order is fixed. */
  lemma LeBytesRoundTrip(x: bv64)
    ensures FromLeBytes(LeBytes(x)) == x
  {}

  lemma LeBytesInjective(x: bv64, y: bv64)
    requires LeBytes(x) == LeBytes(y)
    ensures x == y
  {
    LeBytesRoundTrip(x);
    LeBytesRoundTrip(y);
  }

  class Rng {
    var state: bv64

    constructor ()
      ensures state == SEED == 0x9E37_79B9_7F4A_7C15
    {
      state := SEED;
    }

    method NextU64() returns (x: bv64)
      modifies this
      ensures x == state == Step(old(state))
    {
      x := state;
      x := L13(x);
      x := R7(x);
      x := L17(x);
      state := x;
    }

    /** Byte `i` of the buffer is byte `i % 8` of output `i / 8 + 1`; a short last chunk takes what fits. */
    method Fill(buf: array<bv8>)
      modifies this, buf
      ensures state == After(old(state), (buf.Length + 7) / 8)
      ensures forall i :: 0 <= i < buf.Length ==> buf[i] == ByteAt(old(state), i)
    {
      var start, calls := 0, 0;
      ghost var seed := state;
      while start < buf.Length
        invariant 0 <= start <= buf.Length && calls == (start + 7) / 8
        invariant start < buf.Length ==> start == 8 * calls
        invariant state == After(seed, calls)
        invariant forall i :: 0 <= i < start ==> buf[i] == ByteAt(seed, i)
        decreases buf.Length - start
      {
        var x := NextU64();
        var len := if buf.Length - start < 8 then buf.Length - start else 8;
        CopyChunk(buf, start, len, LeBytes(x));
        forall i | start <= i < start + len ensures buf[i] == ByteAt(seed, i) {
          ChunkIndex(i, calls);
        }
        calls := calls + 1;
        start := start + len;
      }
    }
  }

  /** Byte `i` of the stream that the generator writes from state `seed`. */
  function ByteAt(seed: bv64, i: nat): bv8 {
    LeBytes(After(seed, i / 8 + 1))[i % 8]
  }

  lemma ChunkIndex(i: nat, k: nat)
    requires 8 * k <= i < 8 * k + 8
    ensures i / 8 == k && i % 8 == i - 8 * k
  {}

  /** The inner loop over one chunk and the bytes of one output. */
  method CopyChunk(buf: array<bv8>, start: nat, len: nat, bytes: seq<bv8>)
    requires start + len <= buf.Length && len <= |bytes|
    modifies buf
    ensures forall i :: start <= i < start + len ==> buf[i] == bytes[i - start]
    ensures forall i :: 0 <= i < buf.Length && !(start <= i < start + len) ==> buf[i] == old(buf[i])
  {
    for j := 0 to len
      invariant forall i :: start <= i < start + j ==> buf[i] == bytes[i - start]
      invariant forall i :: 0 <= i < buf.Length && !(start <= i < start + j) ==> buf[i] == old(buf[i])
    {
      buf[start + j] := bytes[j];
    }
  }

  /** From the fixed seed no call ever returns the stuck state. */
  lemma {:induction false} SeedNeverSticks(n: nat)
    ensures After(SEED, n) != 0
  {
    NeverStuck(SEED, n);
  }
}
