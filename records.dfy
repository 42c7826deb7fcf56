/**
 * The solution file written by Hash::store and read by Hash::load (hash.cpp:192-267).
 * The file is a sequence of records, one per stored bucket in increasing index order:
 * the bucket index as 8 bytes, the entry count as ENTRY_SIZE = 2 bytes, then each
 * entry as 2 bytes. Integers are copied from memory, so they appear least significant
 * byte first (a little-endian host).
 */
module Records {
  import opened BoardUtil
  import opened Entry
  import opened BucketUtil
  import opened Table

  type Byte = b: int | 0 <= b < 256

  function Pow256(k: nat): (r: nat)
    ensures r >= 1
  {
    if k == 0 then 1 else 256 * Pow256(k - 1)
  }

  /** The k low-order bytes of n, least significant first: what copying k bytes of an integer writes. */
  function LE(n: nat, k: nat): (bs: seq<Byte>)
    ensures |bs| == k
  {
    if k == 0 then [] else [n % 256] + LE(n / 256, k - 1)
  }

  /** The integer whose low-order bytes are bs: what reading into a zeroed integer yields. */
  function FromLE(bs: seq<Byte>): nat
  {
    if bs == [] then 0 else bs[0] + 256 * FromLE(bs[1..])
  }

  lemma {:induction false} FromLEBound(bs: seq<Byte>)
    ensures FromLE(bs) < Pow256(|bs|)
  {
    if bs != [] {
      FromLEBound(bs[1..]);
    }
  }

  /** Reading back k bytes gives the integer written, when it fits in k bytes. */
  lemma {:induction false} LERoundTrip(n: nat, k: nat)
    requires n < Pow256(k)
    ensures FromLE(LE(n, k)) == n
  {
    if k > 0 {
      assert n / 256 < Pow256(k - 1);
      LERoundTrip(n / 256, k - 1);
    }
  }

  lemma Pow256Values()
    ensures Pow256(2) == SLOT && Pow256(8) == U64
  {
    assert Pow256(4) == 0x1_0000_0000;
  }

  // ---------------------------------------------------------------------------
  // Encoding

  /** The entries of a bucket as f.write copies them: 2 bytes each. */
  function SlotBytes(slots: seq<nat>): (bs: seq<Byte>)
    ensures |bs| == 2 * |slots|
  {
    if slots == [] then [] else LE(slots[0], 2) + SlotBytes(slots[1..])
  }

  /** One record: index, count, entries. */
  function RecordBytes(idx: nat, slots: seq<nat>): seq<Byte>
  {
    LE(idx, 8) + LE(|slots|, 2) + SlotBytes(slots)
  }

  /**
   * The record store writes for bucket i, if any: the whole bucket, or in proof-only
   * mode its proved entries, and nothing when none is proved.
   */
  function BucketRecord(t: Buckets, proofOnly: bool, i: nat): seq<Byte>
    requires Shaped(t)
  {
    if i !in t then []
    else if !proofOnly then RecordBytes(i, t[i][1..])
    else if ProvedPayload(t[i][1..]) == [] then []
    else RecordBytes(i, ProvedPayload(t[i][1..]))
  }

  /** The records of buckets i .. CAPACITY-1, in index order. */
  function StoreFrom(t: Buckets, proofOnly: bool, i: nat): seq<Byte>
    requires Shaped(t)
    decreases CAPACITY - i
  {
    if i >= CAPACITY then [] else BucketRecord(t, proofOnly, i) + StoreFrom(t, proofOnly, i + 1)
  }

  /** Writing bucket i's record after `bytes` leaves the records of buckets i+1.. to write. */
  lemma StoreStep(t: Buckets, proofOnly: bool, i: nat, bytes: seq<Byte>)
    requires Shaped(t) && i < CAPACITY
    ensures bytes + StoreFrom(t, proofOnly, i) == (bytes + BucketRecord(t, proofOnly, i)) + StoreFrom(t, proofOnly, i + 1)
  {
  }

  // ---------------------------------------------------------------------------
  // Decoding

  /** The `count` entries at the front of bs, 2 bytes each. */
  function ReadSlots(bs: seq<Byte>, count: nat): (slots: seq<nat>)
    requires 2 * count <= |bs|
    ensures |slots| == count
  {
    if count == 0 then [] else [FromLE(bs[..2])] + ReadSlots(bs[2..], count - 1)
  }

  datatype Decoded = Bad | Good(table: Buckets, size: nat)

  /**
   * The read loop of load over the rest of the file, starting from table t and
   * counter size (m_size, a uint64_t). Bad is a file that does not split into whole
   * records (the assertion that the bytes read equal the file length fails) or
   * names a bucket index outside the table.
   */
  function Decode(bs: seq<Byte>, t: Buckets, size: nat): Decoded
    decreases |bs|
  {
    if bs == [] then Good(t, size)
    else if |bs| < 10 then Bad
    else
      var idx := FromLE(bs[..8]);
      var count := FromLE(bs[8..10]);
      if |bs| < 10 + 2 * count || idx >= CAPACITY then Bad
      else Decode(bs[10 + 2 * count..], t[idx := [count] + ReadSlots(bs[10..], count)], (size + count) % U64)
  }

  lemma {:induction false} ReadSlotsBound(bs: seq<Byte>, count: nat)
    requires 2 * count <= |bs|
    ensures forall j :: 0 <= j < count ==> ReadSlots(bs, count)[j] < SLOT
  {
    if count > 0 {
      ReadSlotsBound(bs[2..], count - 1);
      FromLEBound(bs[..2]);
      Pow256Values();
    }
  }

  /** Every bucket load creates holds its count in slot 0 and 2-byte entries. */
  lemma DecodedBucketShaped(bs: seq<Byte>, count: nat)
    requires 2 * count <= |bs| && count < SLOT
    ensures BucketShaped([count] + ReadSlots(bs, count))
  {
    ReadSlotsBound(bs, count);
  }

  /** A well-formed file leaves a shaped table behind. */
  lemma {:induction false} DecodeShaped(bs: seq<Byte>, t: Buckets, size: nat)
    requires Shaped(t) && Decode(bs, t, size).Good?
    ensures Shaped(Decode(bs, t, size).table)
    decreases |bs|
  {
    if bs != [] {
      var count := FromLE(bs[8..10]);
      FromLEBound(bs[8..10]);
      Pow256Values();
      DecodedBucketShaped(bs[10..], count);
      DecodeShaped(bs[10 + 2 * count..], t[FromLE(bs[..8]) := [count] + ReadSlots(bs[10..], count)], (size + count) % U64);
    }
  }

  /** A well-formed non-empty rest of the file holds at least one record header. */
  lemma DecodeHeader(bytes: seq<Byte>, pos: nat, t: Buckets, size: nat)
    requires pos < |bytes| && Decode(bytes[pos..], t, size).Good?
    ensures pos + 10 <= |bytes|
  {
  }

  /**
   * One turn of load's read loop at offset pos of a file whose rest is well formed:
   * the record there names a bucket of the table and fits in the file, and reading
   * it leaves a shaped table and a rest that decodes to the same result.
   */
  lemma DecodeAdvance(bytes: seq<Byte>, pos: nat, t: Buckets, size: nat, idx: nat, count: nat)
    requires Shaped(t) && pos + 10 <= |bytes| && Decode(bytes[pos..], t, size).Good?
    requires idx == FromLE(bytes[pos..pos + 8]) && count == FromLE(bytes[pos + 8..pos + 10])
    ensures idx < CAPACITY && pos + 10 + 2 * count <= |bytes|
    ensures Shaped(t[idx := [count] + ReadSlots(bytes[pos + 10..], count)])
    ensures Decode(bytes[pos + 10 + 2 * count..], t[idx := [count] + ReadSlots(bytes[pos + 10..], count)], (size + count) % U64)
         == Decode(bytes[pos..], t, size)
  {
    SuffixSlice(bytes, pos, 0, 8);
    SuffixSlice(bytes, pos, 8, 10);
    DecodeStep(bytes[pos..], t, size, idx, count);
    DecodeSuffix(bytes, pos, t, (size + count) % U64, idx, count);
    FromLEBound(bytes[pos + 8..pos + 10]);
    Pow256Values();
    DecodedBucketShaped(bytes[pos + 10..], count);
  }

  /** One record, of bucket `idx` and `count` entries, read by Decode from a well-formed file. */
  lemma DecodeStep(bs: seq<Byte>, t: Buckets, size: nat, idx: nat, count: nat)
    requires 10 <= |bs| && Decode(bs, t, size).Good?
    requires idx == FromLE(bs[..8]) && count == FromLE(bs[8..10])
    ensures idx < CAPACITY && 10 + 2 * count <= |bs|
    ensures Decode(bs, t, size) == Decode(bs[10 + 2 * count..], t[idx := [count] + ReadSlots(bs[10..], count)], (size + count) % U64)
  {
  }

  /** Decoding what follows a record read at offset pos reads the same bytes as decoding the suffix at pos would. */
  lemma DecodeSuffix(bytes: seq<Byte>, pos: nat, t: Buckets, size: nat, idx: nat, count: nat)
    requires pos + 10 + 2 * count <= |bytes|
    ensures Decode(bytes[pos..][10 + 2 * count..], t[idx := [count] + ReadSlots(bytes[pos..][10..], count)], size)
         == Decode(bytes[pos + 10 + 2 * count..], t[idx := [count] + ReadSlots(bytes[pos + 10..], count)], size)
  {
    SuffixDrop(bytes, pos, 10);
    SuffixDrop(bytes, pos, 10 + 2 * count);
  }

  lemma SuffixSlice(bs: seq<Byte>, pos: nat, a: nat, b: nat)
    requires a <= b && pos + b <= |bs|
    ensures bs[pos..][a..b] == bs[pos + a..pos + b]
  {
  }

  lemma SuffixDrop(bs: seq<Byte>, pos: nat, a: nat)
    requires pos + a <= |bs|
    ensures bs[pos..][a..] == bs[pos + a..]
  {
  }

  // ---------------------------------------------------------------------------
  // Round trip

  lemma {:induction false} ReadSlotBytes(slots: seq<nat>, rest: seq<Byte>)
    requires forall j :: 0 <= j < |slots| ==> slots[j] < SLOT
    ensures ReadSlots(SlotBytes(slots) + rest, |slots|) == slots
  {
    if slots != [] {
      var bs := SlotBytes(slots) + rest;
      FirstSlotBytes(slots, rest);
      Pow256Values();
      LERoundTrip(slots[0], 2);
      ReadSlotBytes(slots[1..], rest);
      ReadSlotsFirst(bs, |slots|);
      HeadTail(slots);
    }
  }

  /** The bytes of a non-empty entry list: the first entry's two bytes, then the others'. */
  lemma FirstSlotBytes(slots: seq<nat>, rest: seq<Byte>)
    requires slots != []
    ensures (SlotBytes(slots) + rest)[..2] == LE(slots[0], 2)
    ensures (SlotBytes(slots) + rest)[2..] == SlotBytes(slots[1..]) + rest
  {
    assert SlotBytes(slots) + rest == LE(slots[0], 2) + (SlotBytes(slots[1..]) + rest);
  }

  lemma ReadSlotsFirst(bs: seq<Byte>, count: nat)
    requires 0 < count && 2 * count <= |bs|
    ensures ReadSlots(bs, count) == [FromLE(bs[..2])] + ReadSlots(bs[2..], count - 1)
  {
  }

  lemma HeadTail(s: seq<nat>)
    requires s != []
    ensures [s[0]] + s[1..] == s
  {
  }

  /** A record decodes to its bucket: count first, then the entries. */
  lemma DecodeRecord(idx: nat, slots: seq<nat>, rest: seq<Byte>, m: Buckets, s: nat)
    requires idx < CAPACITY && |slots| < SLOT
    requires forall j :: 0 <= j < |slots| ==> slots[j] < SLOT
    ensures Decode(RecordBytes(idx, slots) + rest, m, s)
         == Decode(rest, m[idx := [|slots|] + slots], (s + |slots|) % U64)
  {
    var bs := RecordBytes(idx, slots) + rest;
    Pow256Values();
    assert bs[..8] == LE(idx, 8);
    assert bs[8..10] == LE(|slots|, 2);
    LERoundTrip(idx, 8);
    LERoundTrip(|slots|, 2);
    assert bs[10..] == SlotBytes(slots) + rest;
    ReadSlotBytes(slots, rest);
    assert bs[10 + 2 * |slots|..] == rest;
  }

  /** The table m with the buckets of t at indices i and above laid over it. */
  function Overlay(m: Buckets, t: Buckets, i: nat): Buckets
  {
    map k | k in m.Keys + t.Keys && (k in m || k >= i) :: if k in t && k >= i then t[k] else m[k]
  }

  lemma ModAddLeft(a: int, b: int)
    ensures (a % U64 + b) % U64 == (a + b) % U64
  {
    AddMulModU64(a % U64 + b, a / U64);
  }

  lemma AddMulModU64(a: int, k: int)
    ensures (a + U64 * k) % U64 == a % U64
  {
    DivModUnique(a + U64 * k, U64, a / U64 + k, a % U64);
  }

  /** Decoding the records of buckets i.. rebuilds those buckets and counts their entries. */
  lemma {:induction false} DecodeStoreFrom(t: Buckets, i: nat, m: Buckets, s: nat)
    requires Shaped(t) && s < U64
    ensures Decode(StoreFrom(t, false, i), m, s) == Good(Overlay(m, t, i), (s + CountFrom(t, i)) % U64)
    decreases CAPACITY - i
  {
    if i >= CAPACITY {
      OverlayBase(m, t, i);
    } else if i in t {
      DecodeStoreFrom(t, i + 1, m[i := t[i]], (s + t[i][0]) % U64);
      DecodePresentStep(t, i, m, s);
    } else {
      DecodeStoreFrom(t, i + 1, m, s);
      DecodeAbsentStep(t, i, m, s);
    }
  }

  /** The step of DecodeStoreFrom at a present bucket: its record is decoded first. */
  lemma DecodePresentStep(t: Buckets, i: nat, m: Buckets, s: nat)
    requires Shaped(t) && i in t
    requires Decode(StoreFrom(t, false, i + 1), m[i := t[i]], (s + t[i][0]) % U64)
          == Good(Overlay(m[i := t[i]], t, i + 1), ((s + t[i][0]) % U64 + CountFrom(t, i + 1)) % U64)
    ensures Decode(StoreFrom(t, false, i), m, s) == Good(Overlay(m, t, i), (s + CountFrom(t, i)) % U64)
  {
    DecodeBucketRecord(t, i, m, s);
    OverlayStep(m, t, i);
    CountStep(t, i, s);
  }

  /** The step of DecodeStoreFrom at an absent bucket: nothing is written for it. */
  lemma DecodeAbsentStep(t: Buckets, i: nat, m: Buckets, s: nat)
    requires Shaped(t) && i < CAPACITY && i !in t
    requires Decode(StoreFrom(t, false, i + 1), m, s) == Good(Overlay(m, t, i + 1), (s + CountFrom(t, i + 1)) % U64)
    ensures Decode(StoreFrom(t, false, i), m, s) == Good(Overlay(m, t, i), (s + CountFrom(t, i)) % U64)
  {
    assert StoreFrom(t, false, i) == StoreFrom(t, false, i + 1);
    assert CountFrom(t, i) == CountFrom(t, i + 1);
    OverlayStep(m, t, i);
  }

  lemma CountStep(t: Buckets, i: nat, s: nat)
    requires Shaped(t) && i in t
    ensures ((s + t[i][0]) % U64 + CountFrom(t, i + 1)) % U64 == (s + CountFrom(t, i)) % U64
  {
    assert CountFrom(t, i) == t[i][0] + CountFrom(t, i + 1);
    ModAddLeft(s + t[i][0], CountFrom(t, i + 1));
  }

  lemma OverlayBase(m: Buckets, t: Buckets, i: nat)
    requires Shaped(t) && i >= CAPACITY
    ensures Overlay(m, t, i) == m
  {
  }

  lemma OverlayStep(m: Buckets, t: Buckets, i: nat)
    ensures i in t ==> Overlay(m[i := t[i]], t, i + 1) == Overlay(m, t, i)
    ensures i !in t ==> Overlay(m, t, i + 1) == Overlay(m, t, i)
  {
  }

  /** The record of a present bucket decodes to that bucket, in full mode. */
  lemma DecodeBucketRecord(t: Buckets, i: nat, m: Buckets, s: nat)
    requires Shaped(t) && i in t
    ensures Decode(StoreFrom(t, false, i), m, s)
         == Decode(StoreFrom(t, false, i + 1), m[i := t[i]], (s + t[i][0]) % U64)
  {
    var b := t[i];
    assert [b[0]] + b[1..] == b;
    DecodeRecord(i, b[1..], StoreFrom(t, false, i + 1), m, s);
  }

  /**
   * A full store decodes to the very table stored, and load adds the number of
   * stored entries to m_size.
   */
  lemma FullStoreRoundTrip(t: Buckets, s: nat)
    requires Shaped(t) && s < U64
    ensures Decode(StoreFrom(t, false, 0), map[], s) == Good(t, (s + CountFrom(t, 0)) % U64)
  {
    DecodeStoreFrom(t, 0, map[], s);
    assert Overlay(map[], t, 0) == t;
  }

  lemma ProvedShaped(t: Buckets)
    requires Shaped(t)
    ensures Shaped(Proved(t))
  {
    forall i | i in Proved(t) ensures BucketShaped(Proved(t)[i]) {
      var load := t[i][1..];
      var p := ProvedPayload(load);
      assert ProvedBucket(load)[1..] == p;
      forall j | 0 <= j < |p| ensures p[j] < SLOT {
        ProvedMember(load, p[j]);
      }
    }
  }

  /** A proof-only store writes exactly what a full store of the proved entries writes. */
  lemma {:induction false} ProofOnlyIsFullOfProved(t: Buckets, i: nat)
    requires Shaped(t)
    ensures Shaped(Proved(t)) && StoreFrom(t, true, i) == StoreFrom(Proved(t), false, i)
    decreases CAPACITY - i
  {
    ProvedShaped(t);
    if i < CAPACITY {
      ProofOnlyIsFullOfProved(t, i + 1);
      if i in Proved(t) {
        assert Proved(t)[i][1..] == ProvedPayload(t[i][1..]);
      }
    }
  }

  /** A proof-only store decodes to the proved entries, buckets with none left out. */
  lemma ProofStoreRoundTrip(t: Buckets, s: nat)
    requires Shaped(t) && s < U64
    ensures Shaped(Proved(t))
    ensures Decode(StoreFrom(t, true, 0), map[], s) == Good(Proved(t), (s + CountFrom(Proved(t), 0)) % U64)
  {
    ProofOnlyIsFullOfProved(t, 0);
    FullStoreRoundTrip(Proved(t), s);
  }

  /**
   * store then load, full mode: every entry comes back with its code and value and
   * with its proof flag cleared, and nothing else appears.
   */
  lemma FullReload(t: Buckets, s: nat)
    requires Ordered(t) && s < U64
    ensures Decode(StoreFrom(t, false, 0), map[], s).Good?
    ensures var d := Decode(StoreFrom(t, false, 0), map[], s).table;
      Shaped(d) && var r := Cleared(d);
      Ordered(r) && forall h: nat :: (Lookup(r, h) ==
        if Lookup(t, h).Some? then Some(ClearProof(Lookup(t, h).value)) else None)
  {
    FullStoreRoundTrip(t, s);
    ClearedSpec(t);
  }

  /**
   * The proof-only bytes of `t` decode without error into an ordered table holding
   * exactly the proved entries of `t`, with their flags cleared.
   */
  ghost predicate ReloadsProved(t: Buckets, s: nat)
    requires Shaped(t)
  {
    Decode(StoreFrom(t, true, 0), map[], s).Good? &&
    var d := Decode(StoreFrom(t, true, 0), map[], s).table;
    Shaped(d) && var r := Cleared(d);
    Ordered(r) && forall h: nat :: (Lookup(r, h) ==
      if Lookup(t, h).Some? && ProofBit(Lookup(t, h).value) then Some(ClearProof(Lookup(t, h).value)) else None)
  }

  /**
   * store then load, proof-only mode: exactly the proved entries come back, with
   * their proof flags cleared.
   */
  lemma ProofOnlyReload(t: Buckets, s: nat)
    requires Ordered(t) && s < U64
    ensures ReloadsProved(t, s)
  {
    ProofStoreRoundTrip(t, s);
    ProvedSpec(t);
    ClearedSpec(Proved(t));
  }
}
