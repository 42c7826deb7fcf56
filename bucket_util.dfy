/**
 * BucketUtil (hash.cpp): a bucket is a buffer of ENTRY_SIZE-byte slots; slot 0 holds
 * the number of entries and the entries follow, strictly increasing in their
 * validation code. A bucket is modelled as the sequence of its slot values.
 */
module BucketUtil {
  import opened BoardUtil
  import opened Entry

  /** The (idx, found) pair binary_search returns. */
  datatype Probe = Probe(idx: int, found: bool)

  predicate SortedCodes(load: seq<nat>)
  {
    forall i, j :: 0 <= i < j < |load| ==> Code(load[i]) < Code(load[j])
  }

  /** Slot 0 counts the entries, every slot fits ENTRY_SIZE bytes, and codes strictly increase. */
  predicate WellFormed(b: seq<nat>)
  {
    && |b| >= 1 && b[0] == |b| - 1
    && (forall i :: 0 <= i < |b| ==> b[i] < SLOT)
    && SortedCodes(b[1..])
  }

  /** The first entry carrying `code`, found by a linear scan. */
  function FindEntry(load: seq<nat>, code: nat): Option<nat>
  {
    if load == [] then None
    else if Code(load[0]) == code then Some(load[0])
    else FindEntry(load[1..], code)
  }

  lemma {:induction false} FindEntrySpec(load: seq<nat>, code: nat)
    ensures FindEntry(load, code).Some? ==>
      FindEntry(load, code).value in load && Code(FindEntry(load, code).value) == code
    ensures FindEntry(load, code).None? <==> forall k :: 0 <= k < |load| ==> Code(load[k]) != code
  {
    if load != [] && Code(load[0]) != code {
      FindEntrySpec(load[1..], code);
      if FindEntry(load, code).None? {
        forall k | 0 <= k < |load| ensures Code(load[k]) != code {
          if k > 0 {
            assert load[k] == load[1..][k - 1];
          }
        }
      }
    }
  }

  /** In an ordered payload, the entry at position k is the one found for its code. */
  lemma {:induction false} FindEntryAt(load: seq<nat>, k: int)
    requires SortedCodes(load) && 0 <= k < |load|
    ensures FindEntry(load, Code(load[k])) == Some(load[k])
  {
    if k > 0 {
      assert Code(load[0]) < Code(load[k]);
      assert load[k] == load[1..][k - 1];
      FindEntryAt(load[1..], k - 1);
    }
  }

  lemma FindEntryIff(load: seq<nat>, code: nat, e: nat)
    requires SortedCodes(load)
    ensures FindEntry(load, code) == Some(e) <==> exists k :: 0 <= k < |load| && load[k] == e && Code(e) == code
  {
    FindEntrySpec(load, code);
    if exists k :: 0 <= k < |load| && load[k] == e && Code(e) == code {
      var k :| 0 <= k < |load| && load[k] == e && Code(e) == code;
      FindEntryAt(load, k);
    }
  }

  lemma {:induction false} CodesAtLeastIndex(load: seq<nat>, k: int)
    requires SortedCodes(load) && 0 <= k < |load|
    ensures Code(load[k]) >= k
  {
    if k > 0 {
      CodesAtLeastIndex(load, k - 1);
    }
  }

  /** Codes are distinct and below 1024, so a bucket holds at most 1024 entries. */
  lemma CountBound(load: seq<nat>)
    requires SortedCodes(load)
    ensures |load| <= 1024
  {
    if |load| > 0 {
      CodesAtLeastIndex(load, |load| - 1);
    }
  }

  /**
   * binary_search over load[low..high]: a hit names an entry with the code; a miss
   * names the insertion point, every earlier code smaller and every later one larger.
   */
  function BinarySearch(load: seq<nat>, code: nat, low: int, high: int): (r: Probe)
    requires 0 <= low <= high + 1 <= |load|
    ensures r.found ==> low <= r.idx <= high && Code(load[r.idx]) == code
    ensures !r.found ==> low <= r.idx <= high + 1
    ensures !r.found && SortedCodes(load) ==>
      (forall k :: low <= k < r.idx ==> Code(load[k]) < code) &&
      (forall k :: r.idx <= k <= high ==> code < Code(load[k]))
    decreases high - low + 1
  {
    if low > high then Probe(low, false)
    else
      var mid := (low + high) / 2;
      var entryCode := Code(load[mid]);
      if code == entryCode then Probe(mid, true)
      else if code > entryCode then BinarySearch(load, code, mid + 1, high)
      else BinarySearch(load, code, low, mid - 1)
  }

  /** The search over a whole bucket, as every BucketUtil operation starts. */
  function Search(b: seq<nat>, code: nat): Probe
    requires WellFormed(b)
  {
    BinarySearch(b[1..], code, 0, b[0] as int - 1)
  }

  /** BucketUtil::get: the entry with `code`, agreeing with a linear scan. */
  function Get(b: seq<nat>, code: nat): (r: Option<nat>)
    requires WellFormed(b)
    ensures r == FindEntry(b[1..], code)
  {
    var t := Search(b, code);
    FindEntrySpec(b[1..], code);
    if t.found then
      FindEntryAt(b[1..], t.idx);
      Some(b[1..][t.idx])
    else None
  }

  /** BucketUtil::initialize(): the empty bucket. */
  function Initialize(): (b: seq<nat>)
    ensures WellFormed(b) && forall c :: Get(b, c).None?
  {
    [0]
  }

  /** BucketUtil::initialize(entry): a bucket holding one entry. */
  function InitializeWith(entry: nat): (b: seq<nat>)
    ensures WellFormed(b) && b[0] == 1
    ensures Get(b, Code(entry)) == Some(Truncate(entry))
    ensures forall c :: c != Code(entry) ==> Get(b, c).None?
  {
    var b := [1, Truncate(entry)];
    assert b[1..] == [Truncate(entry)];
    ModMod(entry, 1024, 64);
    b
  }

  /** The bucket with `slot` inserted at payload position i and the count raised by one. */
  function InsertAt(b: seq<nat>, i: int, slot: nat): seq<nat>
    requires 1 <= |b| && 0 <= i <= |b| - 1
  {
    [b[0] + 1] + b[1..][..i] + [slot] + b[1..][i..]
  }

  /** The payload with `slot` at position i and the later entries one place right. */
  function Ins(load: seq<nat>, i: int, slot: nat): seq<nat>
    requires 0 <= i <= |load|
  {
    load[..i] + [slot] + load[i..]
  }

  lemma InsIndex(load: seq<nat>, i: int, slot: nat)
    requires 0 <= i <= |load|
    ensures |Ins(load, i, slot)| == |load| + 1
    ensures forall k :: 0 <= k < i ==> Ins(load, i, slot)[k] == load[k]
    ensures Ins(load, i, slot)[i] == slot
    ensures forall k :: i < k <= |load| ==> Ins(load, i, slot)[k] == load[k - 1]
  {
  }

  /** Inserting at the insertion point keeps the codes strictly increasing. */
  lemma InsSorted(load: seq<nat>, i: int, slot: nat)
    requires SortedCodes(load) && 0 <= i <= |load|
    requires forall k :: 0 <= k < i ==> Code(load[k]) < Code(slot)
    requires forall k :: i <= k < |load| ==> Code(slot) < Code(load[k])
    ensures SortedCodes(Ins(load, i, slot))
  {
    var load' := Ins(load, i, slot);
    InsIndex(load, i, slot);
    forall p, q | 0 <= p < q < |load'| ensures Code(load'[p]) < Code(load'[q]) {
      if q < i || p > i {
      } else if p == i {
      } else if q == i {
      } else {
        assert p < i < q;
      }
    }
  }

  /** Inserting an entry leaves the lookup of every other code unchanged. */
  lemma InsFind(load: seq<nat>, i: int, slot: nat, c: nat)
    requires SortedCodes(load) && 0 <= i <= |load| && SortedCodes(Ins(load, i, slot)) && c != Code(slot)
    ensures FindEntry(Ins(load, i, slot), c) == FindEntry(load, c)
  {
    var load' := Ins(load, i, slot);
    InsIndex(load, i, slot);
    FindEntrySpec(load, c);
    if FindEntry(load, c).Some? {
      var e := FindEntry(load, c).value;
      var k :| 0 <= k < |load| && load[k] == e;
      var k' := if k < i then k else k + 1;
      assert load'[k'] == e;
      FindEntryAt(load', k');
    } else {
      InsMissing(load, i, slot, c);
      FindEntrySpec(load', c);
    }
  }

  /** A code absent from the payload and different from the inserted one stays absent. */
  lemma InsMissing(load: seq<nat>, i: int, slot: nat, c: nat)
    requires 0 <= i <= |load| && c != Code(slot)
    requires forall k :: 0 <= k < |load| ==> Code(load[k]) != c
    ensures forall k :: 0 <= k < |Ins(load, i, slot)| ==> Code(Ins(load, i, slot)[k]) != c
  {
    var load' := Ins(load, i, slot);
    InsIndex(load, i, slot);
    forall k | 0 <= k < |load'| ensures Code(load'[k]) != c {
      if k < i {
        assert load'[k] == load[k];
      } else if k > i {
        assert load'[k] == load[k - 1];
      }
    }
  }

  /** Inserting at the insertion point keeps the bucket ordered and adds exactly one entry. */
  lemma InsertAtSpec(b: seq<nat>, i: int, slot: nat)
    requires WellFormed(b) && slot < SLOT
    requires 0 <= i <= |b| - 1
    requires forall k :: 0 <= k < i ==> Code(b[1..][k]) < Code(slot)
    requires forall k :: i <= k < |b| - 1 ==> Code(slot) < Code(b[1..][k])
    ensures WellFormed(InsertAt(b, i, slot))
    ensures Get(InsertAt(b, i, slot), Code(slot)) == Some(slot)
    ensures forall c :: c != Code(slot) ==> Get(InsertAt(b, i, slot), c) == Get(b, c)
  {
    var load := b[1..];
    var grown := InsertAt(b, i, slot);
    assert grown[1..] == Ins(load, i, slot);
    InsSorted(load, i, slot);
    InsIndex(load, i, slot);
    CountBound(grown[1..]);
    assert WellFormed(grown);
    FindEntryAt(grown[1..], i);
    forall c | c != Code(slot) ensures Get(grown, c) == Get(b, c) {
      InsFind(load, i, slot, c);
    }
  }

  /** BucketUtil::insert: realloc one slot larger, memmove the tail right, write the entry and the count. */
  method Insert(bucket: seq<nat>, entry: nat) returns (grown: seq<nat>)
    requires WellFormed(bucket)
    requires Get(bucket, Code(entry)).None?
    ensures grown == InsertAt(bucket, Search(bucket, Code(entry)).idx, Truncate(entry))
    ensures WellFormed(grown) && grown[0] == bucket[0] + 1
    ensures Get(grown, Code(entry)) == Some(Truncate(entry))
    ensures forall c :: c != Code(entry) ==> Get(grown, c) == Get(bucket, c)
  {
    var size: int := bucket[0];
    var code := Code(entry);
    var t := BinarySearch(bucket[1..], code, 0, size - 1);
    var idx := t.idx;
    FindEntrySpec(bucket[1..], code);
    assert !t.found;
    CountBound(bucket[1..]);
    grown := Grow(bucket, idx, entry);
    ModMod(entry, 1024, 64);
    InsertAtSpec(bucket, idx, Truncate(entry));
  }

  /** The buffer work of insert: realloc to size + 2 slots, memmove, and the two writes. */
  method Grow(bucket: seq<nat>, idx: int, entry: nat) returns (grown: seq<nat>)
    requires 1 <= |bucket| && bucket[0] == |bucket| - 1 && bucket[0] + 1 < SLOT
    requires 0 <= idx <= bucket[0]
    ensures grown == InsertAt(bucket, idx, Truncate(entry))
  {
    var size: int := bucket[0];
    // realloc: the old size + 1 slots are kept
    var a := new nat[size + 2](k requires 0 <= k < size + 2 => if k <= size then bucket[k] else 0);
    // memmove: payload slots idx .. size-1 move one place right
    var j := size + 1;
    while j > idx + 1
      invariant idx + 1 <= j <= size + 1
      invariant forall k :: 0 <= k <= j && k <= size ==> a[k] == bucket[k]
      invariant forall k :: j < k < size + 2 ==> a[k] == bucket[k - 1]
    {
      a[j] := a[j - 1];
      j := j - 1;
    }
    a[idx + 1] := Truncate(entry);
    a[0] := Truncate(size + 1);
    grown := a[..];
    InsertAtIndex(bucket, idx, Truncate(entry));
    forall k | 0 <= k < |grown| ensures grown[k] == InsertAt(bucket, idx, Truncate(entry))[k] {
    }
  }

  /** InsertAt position by position: the raised count, the head, the new slot, the shifted tail. */
  lemma InsertAtIndex(b: seq<nat>, i: int, slot: nat)
    requires 1 <= |b| && 0 <= i <= |b| - 1
    ensures |InsertAt(b, i, slot)| == |b| + 1
    ensures InsertAt(b, i, slot)[0] == b[0] + 1
    ensures forall k :: 1 <= k <= i ==> InsertAt(b, i, slot)[k] == b[k]
    ensures InsertAt(b, i, slot)[i + 1] == slot
    ensures forall k :: i + 1 < k <= |b| ==> InsertAt(b, i, slot)[k] == b[k - 1]
  {
  }

  /** BucketUtil::set_proof_bit: sets the flag of the entry with `code`; reports whether it was clear. */
  function SetProofBit(b: seq<nat>, code: nat): (r: (seq<nat>, bool))
    requires WellFormed(b) && Get(b, code).Some?
    ensures WellFormed(r.0) && r.0[0] == b[0]
    ensures r.1 == !ProofBit(Get(b, code).value)
    ensures Get(r.0, code) == Some(SetProof(Get(b, code).value))
    ensures forall c :: c != code ==> Get(r.0, c) == Get(b, c)
  {
    var t := Search(b, code);
    FindEntrySpec(b[1..], code);
    var e := b[1 + t.idx];
    SetProofKeeps(e);
    FindEntryAt(b[1..], t.idx);
    ReplaceEntry(b, t.idx, SetProof(e));
    (b[1 + t.idx := SetProof(e)], !ProofBit(e))
  }

  /** Rewriting one entry with another of the same code changes only that code's lookup. */
  lemma ReplaceEntry(b: seq<nat>, k: int, e: nat)
    requires WellFormed(b) && 0 <= k < |b| - 1 && e < SLOT && Code(e) == Code(b[1 + k])
    ensures WellFormed(b[1 + k := e])
    ensures Get(b[1 + k := e], Code(e)) == Some(e)
    ensures forall c :: c != Code(e) ==> Get(b[1 + k := e], c) == Get(b, c)
  {
    var load, load' := b[1..], b[1 + k := e][1..];
    assert load' == load[k := e];
    FindEntryAt(load', k);
    assert forall j :: 0 <= j < |load| ==> Code(load'[j]) == Code(load[j]);
    forall c | c != Code(e) ensures FindEntry(load', c) == FindEntry(load, c) {
      FindEntrySpec(load, c);
      FindEntrySpec(load', c);
      match FindEntry(load, c)
      case Some(x) =>
        FindEntryIff(load, c, x);
        FindEntryIff(load', c, x);
      case None =>
    }
  }

  /** BucketUtil::get_proof_bit: the flag of the entry with `code`, which must be present. */
  function GetProofBit(b: seq<nat>, code: nat): (proved: bool)
    requires WellFormed(b) && Get(b, code).Some?
    ensures proved == ProofBit(Get(b, code).value)
  {
    var t := Search(b, code);
    FindEntrySpec(b[1..], code);
    FindEntryAt(b[1..], t.idx);
    ProofBit(b[1..][t.idx])
  }

  /** The bucket after the inner loop of clear_proof_bit. */
  function ClearedBucket(b: seq<nat>): seq<nat>
    requires |b| >= 1
  {
    [b[0]] + seq(|b| - 1, j requires 0 <= j < |b| - 1 => ClearProof(b[1 + j]))
  }

  /** Clearing every flag keeps the bucket ordered and each lookup's code and value. */
  lemma ClearedBucketSpec(b: seq<nat>)
    requires WellFormed(b)
    ensures WellFormed(ClearedBucket(b))
    ensures forall c :: (Get(ClearedBucket(b), c) ==
      if Get(b, c).Some? then Some(ClearProof(Get(b, c).value)) else None)
  {
    var load, load' := b[1..], ClearedBucket(b)[1..];
    assert load' == ClearedPayload(load);
    ClearedPayloadSorted(load);
    forall c ensures FindEntry(load', c) == (if FindEntry(load, c).Some? then Some(ClearProof(FindEntry(load, c).value)) else None) {
      ClearedPayloadFind(load, c);
    }
  }

  function ClearedPayload(load: seq<nat>): seq<nat>
  {
    seq(|load|, j requires 0 <= j < |load| => ClearProof(load[j]))
  }

  lemma ClearedPayloadSorted(load: seq<nat>)
    requires SortedCodes(load) && forall j :: 0 <= j < |load| ==> load[j] < SLOT
    ensures SortedCodes(ClearedPayload(load))
    ensures forall j :: 0 <= j < |load| ==> ClearedPayload(load)[j] < SLOT && Code(ClearedPayload(load)[j]) == Code(load[j])
  {
    forall j | 0 <= j < |load| ensures ClearedPayload(load)[j] < SLOT && Code(ClearedPayload(load)[j]) == Code(load[j]) {
      ClearProofKeeps(load[j]);
    }
  }

  lemma ClearedPayloadFind(load: seq<nat>, c: nat)
    requires SortedCodes(load) && forall j :: 0 <= j < |load| ==> load[j] < SLOT
    ensures FindEntry(ClearedPayload(load), c) ==
      (if FindEntry(load, c).Some? then Some(ClearProof(FindEntry(load, c).value)) else None)
  {
    var load' := ClearedPayload(load);
    ClearedPayloadSorted(load);
    FindEntrySpec(load, c);
    FindEntrySpec(load', c);
    match FindEntry(load, c)
    case Some(x) =>
      FindEntryIff(load, c, x);
      var k :| 0 <= k < |load| && load[k] == x && Code(x) == c;
      assert load'[k] == ClearProof(x);
      FindEntryIff(load', c, ClearProof(x));
    case None =>
  }
}
