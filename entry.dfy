/**
 * Constants of the transposition table (hash.hpp, configs.hpp) and the layout of
 * one table entry: a 10-bit validation code, the game value at bit 10 and the
 * proof flag at bit 11, stored in ENTRY_SIZE = 2 bytes.
 */
module Entry {
  const CODE_BITS: nat := 10
  const IDX_BITS: nat := 30
  const ENTRY_SIZE: nat := 2
  /** 1 << IDX_BITS buckets. */
  const CAPACITY: nat := 0x4000_0000
  /** 1 << (IDX_BITS + CODE_BITS): the range of mixed hashcodes. */
  const LCG_M: nat := 0x100_0000_0000
  const LCG_A: nat := 1037
  const CODE_MASK: nat := 1023
  const VALUE_MASK: nat := 1024
  const PROOF_MASK: nat := 2048
  /** Arithmetic on uint64_t is modulo U64. */
  const U64: nat := 0x1_0000_0000_0000_0000
  /** The values an ENTRY_SIZE-byte slot can hold. */
  const SLOT: nat := 0x1_0000

  /** entry & CODE_MASK */
  function Code(e: nat): nat
  {
    e % 1024
  }

  /** format_entry_get: (entry & VALUE_MASK) >> CODE_BITS */
  function ValueBit(e: nat): nat
  {
    (e / 1024) % 2
  }

  /** (entry & PROOF_MASK) != 0 */
  predicate ProofBit(e: nat)
  {
    (e / 2048) % 2 == 1
  }

  /** entry | PROOF_MASK */
  function SetProof(e: nat): nat
  {
    if ProofBit(e) then e else e + PROOF_MASK
  }

  /** entry & ~PROOF_MASK */
  function ClearProof(e: nat): nat
  {
    if ProofBit(e) then e - PROOF_MASK else e
  }

  /** The conversion of a C++ integer to uint64_t. */
  function Wrap64(x: int): nat
  {
    x % U64
  }

  /** write_entry copies the low ENTRY_SIZE bytes of the entry. */
  function Truncate(e: nat): nat
  {
    e % SLOT
  }

  /** format_entry_insert: code | (uint64_t)value << CODE_BITS; every caller passes a masked code. */
  function FormatEntryInsert(code: nat, value: int): nat
    requires code <= CODE_MASK
  {
    code + (Wrap64(value) * 1024) % U64
  }

  // ---------------------------------------------------------------------------
  // Arithmetic facts

  lemma MulAtLeast(k: int, d: int)
    requires k > 0 && d >= 1
    ensures k * d >= k
  {
  }

  /** Quotient and remainder are unique. */
  lemma DivModUnique(a: int, k: int, q: int, r: int)
    requires k > 0 && 0 <= r < k && a == k * q + r
    ensures a / k == q && a % k == r
  {
    var q0, r0 := a / k, a % k;
    assert k * (q0 - q) == r - r0;
    if q0 > q {
      MulAtLeast(k, q0 - q);
    } else if q0 < q {
      MulAtLeast(k, q - q0);
    }
  }

  lemma ModMod(a: int, m: int, n: int)
    requires m > 0 && n > 0
    ensures (a % (m * n)) % m == a % m
  {
    var r := a % (m * n);
    var q := a / (m * n);
    assert a == (m * n) * q + r;
    assert a == m * (n * q + r / m) + r % m;
    DivModUnique(a, m, n * q + r / m, r % m);
  }

  lemma MulModMul(a: int, k: int, m: int)
    requires k > 0 && m > 0
    ensures (a * k) % (k * m) == k * (a % m)
  {
    var q, r := a / m, a % m;
    assert a * k == (k * m) * q + k * r;
    assert k * r < k * m by { MulAtLeast(k, m - r); }
    DivModUnique(a * k, k * m, q, k * r);
  }

  lemma PlusMulMod(c: int, k: int, y: int, n: int)
    requires 0 <= c < k && n > 0
    ensures (c + k * y) % (k * n) == c + k * (y % n)
    ensures (c + k * y) % k == c && (c + k * y) / k == y
  {
    var q, s := y / n, y % n;
    assert c + k * y == (k * n) * q + (c + k * s);
    assert k * s + k <= k * n by { MulAtLeast(k, n - s); }
    DivModUnique(c + k * y, k * n, q, c + k * s);
    DivModUnique(c + k * y, k, y, c);
  }

  // ---------------------------------------------------------------------------
  // The entry codec

  /** The word format_entry_insert builds: the code below the value's low 54 bits. */
  lemma FormatEntryShape(code: nat, value: int)
    requires code <= CODE_MASK
    ensures FormatEntryInsert(code, value) == code + 1024 * (Wrap64(value) % 0x40_0000_0000_0000)
    ensures FormatEntryInsert(code, value) < U64
  {
    MulModMul(Wrap64(value), 1024, 0x40_0000_0000_0000);
  }

  /**
   * The slot write_entry stores for a formatted entry: the code, then the low six
   * bits of the value; decoding gives back the code and the value's low bit.
   */
  lemma {:induction false} FormatEntryRoundTrip(code: nat, value: int)
    requires code <= CODE_MASK
    ensures Truncate(FormatEntryInsert(code, value)) == code + 1024 * (value % 64)
    ensures Code(FormatEntryInsert(code, value)) == code
    ensures Code(Truncate(FormatEntryInsert(code, value))) == code
    ensures ValueBit(Truncate(FormatEntryInsert(code, value))) == value % 2
    ensures ProofBit(Truncate(FormatEntryInsert(code, value))) <==> (value % 64) / 2 % 2 == 1
  {
    FormatEntryShape(code, value);
    var y := Wrap64(value) % 0x40_0000_0000_0000;
    PlusMulMod(code, 1024, y, 64);
    ModMod(Wrap64(value), 64, 0x1_0000_0000_0000);
    ModMod(value, 64, 0x400_0000_0000_0000);
    var v6 := value % 64;
    var t := code + 1024 * v6;
    PlusMulMod(code, 1024, v6, 2);
    PlusMulMod(code + 1024 * (v6 % 2), 2048, v6 / 2, 2);
    assert t == (code + 1024 * (v6 % 2)) + 2048 * (v6 / 2);
    assert ValueBit(t) == v6 % 2;
    ModMod(value, 2, 32);
  }

  /** The code of a formatted entry is the code it was given. */
  lemma FormatEntryCode(code: nat, value: int)
    requires code <= CODE_MASK
    ensures Code(FormatEntryInsert(code, value)) == code
  {
    FormatEntryShape(code, value);
    PlusMulMod(code, 1024, Wrap64(value) % 0x40_0000_0000_0000, 64);
  }

  /** A game value of 0 or 1 is stored exactly, with the proof flag clear. */
  lemma FormatEntryOfValue(code: nat, value: int)
    requires code <= CODE_MASK && (value == 0 || value == 1)
    ensures Truncate(FormatEntryInsert(code, value)) == code + 1024 * value
    ensures ValueBit(Truncate(FormatEntryInsert(code, value))) == value
    ensures !ProofBit(Truncate(FormatEntryInsert(code, value)))
  {
    FormatEntryRoundTrip(code, value);
  }

  /** Setting the proof flag keeps code and value, and the slot still fits. */
  lemma SetProofKeeps(e: nat)
    requires e < SLOT
    ensures SetProof(e) < SLOT && ProofBit(SetProof(e))
    ensures Code(SetProof(e)) == Code(e) && ValueBit(SetProof(e)) == ValueBit(e)
  {
    var lo := e % 2048;
    PlusMulMod(lo, 2048, e / 2048, 32);
    PlusMulMod(lo, 2048, e / 2048 + 1, 32);
    PlusMulMod(e % 1024, 1024, e / 1024, 2);
    PlusMulMod(e % 1024, 1024, e / 1024 + 2, 2);
  }

  /** Clearing the proof flag keeps code and value. */
  lemma ClearProofKeeps(e: nat)
    requires e < SLOT
    ensures ClearProof(e) < SLOT && !ProofBit(ClearProof(e))
    ensures Code(ClearProof(e)) == Code(e) && ValueBit(ClearProof(e)) == ValueBit(e)
  {
    var lo := e % 2048;
    PlusMulMod(lo, 2048, e / 2048, 32);
    if ProofBit(e) {
      PlusMulMod(lo, 2048, e / 2048 - 1, 32);
      PlusMulMod(e % 1024, 1024, e / 1024, 2);
      PlusMulMod(e % 1024, 1024, e / 1024 - 2, 2);
    }
  }
}
