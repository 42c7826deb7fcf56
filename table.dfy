/**
 * The array of CAPACITY bucket pointers of class Hash (hash.hpp:34), seen as a map
 * from bucket index to bucket: an index is present exactly when its pointer is
 * non-null. A mixed hashcode h (below LCG_M) names bucket h >> CODE_BITS and
 * validation code h & CODE_MASK.
 */
module Table {
  import opened BoardUtil
  import opened Entry
  import opened BucketUtil

  type Buckets = map<nat, seq<nat>>

  /** Slot 0 counts the entries and every slot fits ENTRY_SIZE bytes. */
  predicate BucketShaped(b: seq<nat>)
  {
    |b| >= 1 && b[0] == |b| - 1 && forall j :: 0 <= j < |b| ==> b[j] < SLOT
  }

  /** Every present index is a real bucket index and every bucket is well laid out. */
  predicate Shaped(t: Buckets)
  {
    forall i :: i in t ==> i < CAPACITY && BucketShaped(t[i])
  }

  /** Shaped, and every bucket is ordered by code as BucketUtil keeps it. */
  predicate Ordered(t: Buckets)
  {
    forall i :: i in t ==> i < CAPACITY && WellFormed(t[i])
  }

  /** The entry stored for a mixed hashcode, if any. */
  function Lookup(t: Buckets, hashcode: nat): Option<nat>
    requires Shaped(t)
  {
    var idx := hashcode / 1024;
    if idx in t then FindEntry(t[idx][1..], hashcode % 1024) else None
  }

  /** Distinct hashcodes in the same bucket have distinct validation codes. */
  lemma SameSlot(h1: nat, h2: nat)
    requires h1 / 1024 == h2 / 1024 && h1 != h2
    ensures h1 % 1024 != h2 % 1024
  {
    assert h1 == 1024 * (h1 / 1024) + h1 % 1024;
    assert h2 == 1024 * (h2 / 1024) + h2 % 1024;
  }

  /**
   * Replacing the bucket of hashcode h by one that agrees with the old bucket (or,
   * for a new bucket, with an empty one) on every other code changes only the
   * lookup of h.
   */
  lemma ReplaceBucket(t: Buckets, h: nat, b: seq<nat>)
    requires Ordered(t) && h < LCG_M && WellFormed(b)
    requires h / 1024 in t ==> forall c :: c != h % 1024 ==> Get(b, c) == Get(t[h / 1024], c)
    requires h / 1024 !in t ==> forall c :: c != h % 1024 ==> Get(b, c).None?
    ensures Ordered(t[h / 1024 := b])
    ensures Lookup(t[h / 1024 := b], h) == Get(b, h % 1024)
    ensures forall h2: nat :: h2 != h ==> Lookup(t[h / 1024 := b], h2) == Lookup(t, h2)
  {
    var idx := h / 1024;
    var t' := t[idx := b];
    forall h2: nat | h2 != h ensures Lookup(t', h2) == Lookup(t, h2) {
      if h2 / 1024 == idx {
        SameSlot(h2, h);
        assert Get(b, h2 % 1024) == Lookup(t', h2);
      }
    }
  }

  /**
   * Setting the proof flag in the bucket of a present hashcode: the bucket stays
   * ordered, the entry keeps its code and value and gains the flag, and no other
   * lookup changes.
   */
  lemma SetProofInTable(t: Buckets, h: nat)
    requires Ordered(t) && h < LCG_M && Lookup(t, h).Some?
    ensures h / 1024 in t
    ensures var b := SetProofBit(t[h / 1024], h % 1024).0;
      var e := Lookup(t, h).value;
      && Ordered(t[h / 1024 := b])
      && Lookup(t[h / 1024 := b], h) == Some(SetProof(e))
      && ProofBit(SetProof(e)) && ValueBit(SetProof(e)) == ValueBit(e)
      && forall h2: nat :: h2 != h ==> Lookup(t[h / 1024 := b], h2) == Lookup(t, h2)
  {
    var idx, code := h / 1024, h % 1024;
    var b := t[idx];
    var e := Get(b, code).value;
    FindEntrySpec(b[1..], code);
    var k :| 0 <= k < |b[1..]| && b[1..][k] == e;
    assert e < SLOT by { assert b[1 + k] == e; }
    SetProofKeeps(e);
    ReplaceBucket(t, h, SetProofBit(b, code).0);
  }

  // ---------------------------------------------------------------------------
  // clear_proof_bit

  /** The table after clear_proof_bit: every bucket with its proof flags cleared. */
  function Cleared(t: Buckets): Buckets
    requires Shaped(t)
  {
    map i | i in t :: ClearedBucket(t[i])
  }

  /** The table part way through clear_proof_bit: the buckets below i are cleared, the rest untouched. */
  predicate PartlyCleared(t0: Buckets, t: Buckets, i: nat)
    requires Shaped(t0)
  {
    t.Keys == t0.Keys && forall k :: k in t ==> t[k] == if k < i then ClearedBucket(t0[k]) else t0[k]
  }

  lemma PartlyClearedStep(t0: Buckets, t: Buckets, i: nat)
    requires Shaped(t0) && PartlyCleared(t0, t, i)
    ensures i in t ==> t[i] == t0[i] && PartlyCleared(t0, t[i := ClearedBucket(t[i])], i + 1)
    ensures i !in t ==> PartlyCleared(t0, t, i + 1)
  {
    if i in t {
      var t' := t[i := ClearedBucket(t[i])];
      assert t'.Keys == t0.Keys;
      forall k | k in t' ensures t'[k] == if k < i + 1 then ClearedBucket(t0[k]) else t0[k] {
        if k == i {
          assert t[i] == t0[i];
        } else {
          assert t'[k] == t[k];
        }
      }
    }
  }

  lemma PartlyClearedDone(t0: Buckets, t: Buckets)
    requires Shaped(t0) && PartlyCleared(t0, t, CAPACITY)
    ensures t == Cleared(t0)
  {
  }

  /**
   * clear_proof_bit keeps every bucket, its count, its codes and its values, and
   * clears every proof flag: a lookup finds the same entry without the flag.
   */
  lemma ClearedSpec(t: Buckets)
    requires Shaped(t)
    ensures Shaped(Cleared(t)) && Cleared(t).Keys == t.Keys
    ensures forall i :: i in t ==> |Cleared(t)[i]| == |t[i]| && Cleared(t)[i][0] == t[i][0]
    ensures Ordered(t) ==> Ordered(Cleared(t))
    ensures Ordered(t) ==> forall h: nat :: (Lookup(Cleared(t), h) ==
      if Lookup(t, h).Some? then Some(ClearProof(Lookup(t, h).value)) else None)
  {
    forall i | i in t ensures BucketShaped(Cleared(t)[i]) {
      var b := t[i];
      forall j | 1 <= j < |b| ensures ClearedBucket(b)[j] < SLOT {
        ClearProofKeeps(b[j]);
      }
    }
    if Ordered(t) {
      forall i | i in t ensures WellFormed(Cleared(t)[i]) {
        ClearedBucketSpec(t[i]);
      }
      forall h: nat ensures Lookup(Cleared(t), h) ==
        (if Lookup(t, h).Some? then Some(ClearProof(Lookup(t, h).value)) else None)
      {
        var idx := h / 1024;
        if idx in t {
          var b := t[idx];
          assert ClearedBucket(b)[1..] == ClearedPayload(b[1..]);
          ClearedPayloadFind(b[1..], h % 1024);
        }
      }
    }
  }

  // ---------------------------------------------------------------------------
  // The entries a proof-only store keeps

  /** The entries whose proof flag is set, in bucket order. */
  function ProvedPayload(load: seq<nat>): (p: seq<nat>)
    ensures |p| <= |load|
  {
    if load == [] then []
    else
      var last := load[|load| - 1];
      ProvedPayload(load[..|load| - 1]) + (if ProofBit(last) then [last] else [])
  }

  lemma {:induction false} ProvedMember(load: seq<nat>, e: nat)
    ensures e in ProvedPayload(load) <==> e in load && ProofBit(e)
  {
    if load != [] {
      var init := load[..|load| - 1];
      ProvedMember(init, e);
      assert load == init + [load[|load| - 1]];
    }
  }

  lemma {:induction false} ProvedSorted(load: seq<nat>)
    requires SortedCodes(load)
    ensures SortedCodes(ProvedPayload(load))
  {
    if load != [] {
      var init, last := load[..|load| - 1], load[|load| - 1];
      ProvedSorted(init);
      var p := ProvedPayload(init);
      forall y | y in p ensures Code(y) < Code(last) {
        ProvedMember(init, y);
        var k :| 0 <= k < |init| && init[k] == y;
        assert load[k] == y;
      }
    }
  }

  /** In an ordered payload, the proved entries answer a lookup exactly when the entry found is proved. */
  lemma ProvedFind(load: seq<nat>, c: nat)
    requires SortedCodes(load)
    ensures FindEntry(ProvedPayload(load), c) ==
      (if FindEntry(load, c).Some? && ProofBit(FindEntry(load, c).value) then FindEntry(load, c) else None)
  {
    var p := ProvedPayload(load);
    ProvedSorted(load);
    FindEntrySpec(load, c);
    FindEntrySpec(p, c);
    match FindEntry(p, c)
    case Some(e) =>
      ProvedMember(load, e);
      var k :| 0 <= k < |load| && load[k] == e;
      FindEntryIff(load, c, e);
    case None =>
      if FindEntry(load, c).Some? {
        // the entry found is not among the proved ones, so its flag is clear
        ProvedMember(load, FindEntry(load, c).value);
      }
  }

  /** The bucket a proof-only store writes for a payload: its proved entries under their count. */
  function ProvedBucket(load: seq<nat>): seq<nat>
  {
    [|ProvedPayload(load)|] + ProvedPayload(load)
  }

  /** What a proof-only store keeps: the proved entries of each bucket, and no bucket left empty. */
  function Proved(t: Buckets): Buckets
    requires Shaped(t)
  {
    map i | i in t && ProvedPayload(t[i][1..]) != [] :: ProvedBucket(t[i][1..])
  }

  /**
   * A proof-only store keeps an entry exactly when its proof flag is set, and keeps
   * a bucket exactly when one of its entries is proved.
   */
  lemma ProvedSpec(t: Buckets)
    requires Ordered(t)
    ensures Ordered(Proved(t))
    ensures forall i :: i in Proved(t) <==> i in t && exists k :: 1 <= k < |t[i]| && ProofBit(t[i][k])
    ensures forall h: nat :: (Lookup(Proved(t), h) ==
      if Lookup(t, h).Some? && ProofBit(Lookup(t, h).value) then Lookup(t, h) else None)
  {
    forall i | i in Proved(t) ensures i < CAPACITY && WellFormed(Proved(t)[i]) {
      var load := t[i][1..];
      var p := ProvedPayload(load);
      ProvedSorted(load);
      CountBound(load);
      assert ProvedBucket(load)[1..] == p;
      forall j | 0 <= j < |p| ensures p[j] < SLOT {
        ProvedMember(load, p[j]);
      }
    }
    forall i ensures i in Proved(t) <==> i in t && exists k :: 1 <= k < |t[i]| && ProofBit(t[i][k]) {
      if i in t {
        var load := t[i][1..];
        if ProvedPayload(load) != [] {
          var e := ProvedPayload(load)[0];
          ProvedMember(load, e);
          var k :| 0 <= k < |load| && load[k] == e;
          assert t[i][k + 1] == e;
        }
        if exists k :: 1 <= k < |t[i]| && ProofBit(t[i][k]) {
          var k :| 1 <= k < |t[i]| && ProofBit(t[i][k]);
          assert load[k - 1] == t[i][k];
          ProvedMember(load, t[i][k]);
        }
      }
    }
    forall h: nat ensures Lookup(Proved(t), h) ==
      (if Lookup(t, h).Some? && ProofBit(Lookup(t, h).value) then Lookup(t, h) else None)
    {
      var idx := h / 1024;
      if idx in t {
        var load := t[idx][1..];
        ProvedFind(load, h % 1024);
        if idx in Proved(t) {
          assert Proved(t)[idx][1..] == ProvedPayload(load);
        } else {
          assert ProvedPayload(load) == [];
        }
      }
    }
  }

  // ---------------------------------------------------------------------------
  // Counting entries

  /** The number of entries in the buckets at indices i .. CAPACITY-1. */
  function CountFrom(t: Buckets, i: nat): nat
    requires Shaped(t)
    decreases CAPACITY - i
  {
    if i >= CAPACITY then 0 else (if i in t then t[i][0] else 0) + CountFrom(t, i + 1)
  }
}
