/**
 * class Hash (hash.hpp:31-85, hash.cpp:8-267): the transposition table of the
 * solver. The CAPACITY bucket pointers are the map `table` (Table.Buckets); the
 * board dimensions and the powers of three drive the position fingerprint; `size`
 * and `proofSize` are the uint64_t counters m_size and m_proof_size.
 */
module HashTable {
  import opened BoardUtil
  import opened Entry
  import opened BucketUtil
  import opened Table
  import opened Records
  import opened Fingerprint
  import Board

  class Hash {
    var table: Buckets
    var height: int
    var width: int
    var numPoints: int
    /** m_poly_terms: the powers of three, each wrapped to 64 bits. */
    var polyTerms: seq<nat>
    var size: nat
    var proofSize: nat

    /** The board parameters and the counters as initialize leaves them. */
    ghost predicate Params()
      reads this
    {
      && height >= 1 && width >= 1 && numPoints == height * width
      && polyTerms == PolyTerms(numPoints)
      && size < U64 && proofSize < U64
    }

    /** Every present bucket is laid out as BucketUtil writes it (a loaded table may be unordered). */
    ghost predicate Consistent()
      reads this
    {
      Params() && Table.Shaped(table)
    }

    /** Consistent, and every bucket is ordered by code, as insert keeps it. */
    ghost predicate Valid()
      reads this
    {
      Consistent() && Ordered(table)
    }

    /** Hash(int height, int width): an empty table for a rectangular board. */
    constructor (h: int, w: int)
      requires h >= 1 && w >= 1
      ensures Valid() && table == map[] && size == 0 && proofSize == 0
      ensures height == h && width == w
    {
      size, proofSize := 0, 0;
      new;
      Initialize(h, w);
    }

    /** Hash(int boardsize): a square board. */
    constructor Square(boardsize: int)
      requires boardsize >= 1
      ensures Valid() && table == map[] && size == 0 && proofSize == 0
      ensures height == boardsize && width == boardsize
    {
      size, proofSize := 0, 0;
      new;
      Initialize(boardsize, boardsize);
    }

    /**
     * initialize: empty every bucket pointer, record the board size and fill the
     * powers of three by repeated multiplication. The counters are not reset.
     */
    method Initialize(h: int, w: int)
      requires h >= 1 && w >= 1 && size < U64 && proofSize < U64
      modifies this
      ensures Valid() && table == map[]
      ensures height == h && width == w
      ensures size == old(size) && proofSize == old(proofSize)
    {
      MulAtLeast(h, w);
      var n := h * w;
      var terms: seq<nat> := [1];
      var i := 1;
      while i < n
        invariant 1 <= i <= n && terms == PolyTerms(i)
        modifies {}
      {
        var next := (terms[i - 1] * 3) % U64;
        PolyTermsAt(i, i - 1);
        NextPolyTerm(i);
        terms := terms + [next];
        i := i + 1;
      }
      table := map[];
      height, width, numPoints := h, w, n;
      polyTerms := terms;
    }

    /** change_boardsize: drop every bucket and start over for the new dimensions. */
    method ChangeBoardsize(h: int, w: int)
      requires h >= 1 && w >= 1 && size < U64 && proofSize < U64
      modifies this
      ensures Valid() && table == map[]
      ensures height == h && width == w
      ensures size == old(size) && proofSize == old(proofSize)
    {
      Initialize(h, w);
    }

    /** clear: every bucket pointer is emptied; m_size is left as it was. */
    method Clear()
      requires Consistent()
      modifies this
      ensures Valid() && table == map[]
      ensures height == old(height) && width == old(width) && numPoints == old(numPoints)
      ensures polyTerms == old(polyTerms) && size == old(size) && proofSize == old(proofSize)
    {
      table := map[];
    }

    // -------------------------------------------------------------------------
    // Fingerprints

    /**
     * hash_func(Grid&): rows from the last to the first, each left to right, folded
     * into a base-3 number by Horner's rule in 64-bit arithmetic.
     */
    method HashFunc(grid: seq<seq<int>>) returns (hashcode: nat)
      requires GridReadable(grid)
      ensures hashcode == PolySum(RowsFrom(grid, |grid[0]|, 0)) % U64
    {
      hashcode := 0;
      var w := |grid[0]|;
      var r := |grid| - 1;
      while r >= 0
        invariant -1 <= r < |grid|
        invariant hashcode == PolySum(RowsFrom(grid, w, r + 1)) % U64
      {
        var prefix := RowsFrom(grid, w, r + 1);
        var c := 0;
        assert prefix + grid[r][..c] == prefix;
        while c < w
          invariant 0 <= c <= w
          invariant hashcode == PolySum(prefix + grid[r][..c]) % U64
        {
          HornerSnocMod(prefix + grid[r][..c], grid[r][c]);
          assert prefix + grid[r][..c] + [grid[r][c]] == prefix + grid[r][..c + 1];
          hashcode := (hashcode * 3 + grid[r][c]) % U64;
          c := c + 1;
        }
        assert grid[r][..w] == grid[r][..c];
        r := r - 1;
      }
    }

    /**
     * hash_func(hashcode, point, color): add color times the power of three of the
     * point's canonical position, in 64-bit arithmetic.
     */
    function IncrementalHash(hashcode: nat, point: int, color: int): (r: nat)
      reads this
      requires Params() && OnBoard(point, height, width)
      ensures r < U64
      ensures r == (hashcode + color * (Pow3(Exponent(point, height, width)) % U64)) % U64
    {
      var exponent := Exponent(point, height, width);
      PolyTermsAt(numPoints, exponent);
      (hashcode + color * polyTerms[exponent]) % U64
    }

    // -------------------------------------------------------------------------
    // Lookups and updates

    /** get: the value bit of the entry for a mixed hashcode, or -1 when there is none. */
    function Get(hashcode: nat): (r: int)
      reads this
      requires Valid() && hashcode < LCG_M
      ensures r == (if Lookup(table, hashcode).Some? then ValueBit(Lookup(table, hashcode).value) else -1)
      ensures r == -1 || r == 0 || r == 1
    {
      var idx := hashcode / 1024;
      if idx !in table then -1
      else
        var found := BucketUtil.Get(table[idx], hashcode % 1024);
        if found.None? then -1 else ValueBit(found.value)
    }

    /** get_proof_bit: the proof flag of the entry, which must be present. */
    function GetProofBit(hashcode: nat): (proved: bool)
      reads this
      requires Valid() && hashcode < LCG_M && Lookup(table, hashcode).Some?
      ensures proved == ProofBit(Lookup(table, hashcode).value)
    {
      BucketUtil.GetProofBit(table[hashcode / 1024], hashcode % 1024)
    }

    /**
     * insert: add an entry for a hashcode that has none, in its existing bucket or
     * in a new one-entry bucket; m_size counts it.
     */
    method Insert(hashcode: nat, value: int)
      requires Valid() && hashcode < LCG_M && Lookup(table, hashcode).None?
      modifies this
      ensures Valid()
      ensures table.Keys == old(table).Keys + {hashcode / 1024}
      ensures Lookup(table, hashcode) == Some(Truncate(FormatEntryInsert(hashcode % 1024, value)))
      ensures forall h: nat :: h != hashcode ==> Lookup(table, h) == Lookup(old(table), h)
      ensures value == 0 || value == 1 ==> Get(hashcode) == value && !GetProofBit(hashcode)
      ensures size == (old(size) + 1) % U64 && proofSize == old(proofSize)
      ensures height == old(height) && width == old(width) && numPoints == old(numPoints) && polyTerms == old(polyTerms)
    {
      table := InsertEntry(table, hashcode, value);
      size := (size + 1) % U64;
      if value == 0 || value == 1 {
        FormatEntryOfValue(hashcode % 1024, value);
      }
    }

    /**
     * set_proof_bit: set the proof flag of a present entry; the result says whether
     * the flag was clear, and m_proof_size counts the change.
     */
    method SetProofBit(hashcode: nat) returns (changed: bool)
      requires Valid() && hashcode < LCG_M && Lookup(table, hashcode).Some?
      modifies this
      ensures Valid() && table.Keys == old(table).Keys
      ensures changed == !ProofBit(Lookup(old(table), hashcode).value)
      ensures Lookup(table, hashcode) == Some(SetProof(Lookup(old(table), hashcode).value))
      ensures GetProofBit(hashcode) && Get(hashcode) == old(Get(hashcode))
      ensures forall h: nat :: h != hashcode ==> Lookup(table, h) == Lookup(old(table), h)
      ensures proofSize == (old(proofSize) + if changed then 1 else 0) % U64 && size == old(size)
      ensures height == old(height) && width == old(width) && numPoints == old(numPoints) && polyTerms == old(polyTerms)
    {
      var idx := hashcode / 1024;
      var code := hashcode % 1024;
      SetProofInTable(table, hashcode);
      var r := BucketUtil.SetProofBit(table[idx], code);
      table := table[idx := r.0];
      changed := r.1;
      proofSize := (proofSize + if changed then 1 else 0) % U64;
    }

    /** The inner loop of clear_proof_bit over one bucket: every entry loses its proof flag. */
    static method ClearBucket(bucket: seq<nat>) returns (cleared: seq<nat>)
      requires BucketShaped(bucket)
      ensures cleared == ClearedBucket(bucket)
    {
      cleared := bucket;
      var bucketSize := bucket[0];
      var j := 0;
      while j < bucketSize
        invariant 0 <= j <= bucketSize && |cleared| == |bucket| && cleared[0] == bucket[0]
        invariant forall k :: 1 <= k <= j ==> cleared[k] == ClearProof(bucket[k])
        invariant forall k :: j < k < |bucket| ==> cleared[k] == bucket[k]
      {
        var entry := cleared[1 + j];
        cleared := cleared[1 + j := ClearProof(entry)];
        j := j + 1;
      }
      assert cleared == ClearedBucket(bucket);
    }

    /** clear_proof_bit: every bucket in turn has every proof flag cleared. */
    method ClearProofBit()
      requires Consistent()
      modifies this
      ensures Consistent() && table == Cleared(old(table))
      ensures old(Valid()) ==> Valid()
      ensures size == old(size) && proofSize == old(proofSize)
      ensures height == old(height) && width == old(width) && numPoints == old(numPoints) && polyTerms == old(polyTerms)
    {
      ClearedSpec(table);
      table := ClearBuckets(table);
    }

    /** The loop of clear_proof_bit: buckets 0, 1, ... cleared in turn. */
    static method ClearBuckets(t0: Buckets) returns (t: Buckets)
      requires Shaped(t0)
      ensures t == Cleared(t0)
    {
      t := t0;
      var i := 0;
      while i < CAPACITY
        invariant 0 <= i <= CAPACITY && PartlyCleared(t0, t, i)
      {
        PartlyClearedStep(t0, t, i);
        if i in t {
          var b := ClearBucket(t[i]);
          t := t[i := b];
        }
        i := i + 1;
      }
      PartlyClearedDone(t0, t);
    }

    // -------------------------------------------------------------------------
    // The solution file

    /** The proof-only branch of store for one bucket payload: the proved entries, in order. */
    static method CollectProved(load: seq<nat>) returns (tmp: seq<nat>)
      ensures tmp == ProvedPayload(load)
    {
      tmp := [];
      var i := 0;
      while i < |load|
        invariant 0 <= i <= |load|
        invariant tmp == ProvedPayload(load[..i])
      {
        assert load[..i + 1][..i] == load[..i];
        if ProofBit(load[i]) {
          tmp := tmp + [load[i]];
        }
        i := i + 1;
      }
      assert load[..i] == load;
    }

    /** The bytes one iteration of store writes for bucket idx. */
    method RecordOf(idx: nat, proofOnly: bool) returns (written: seq<Byte>)
      requires Table.Shaped(table)
      ensures written == BucketRecord(table, proofOnly, idx)
    {
      written := [];
      if idx in table {
        var load := table[idx][1..];
        if !proofOnly {
          written := RecordBytes(idx, load);
        } else {
          var tmp := CollectProved(load);
          if |tmp| > 0 {
            written := RecordBytes(idx, tmp);
          }
        }
      }
    }

    /**
     * store: the bytes written to the file, one record per stored bucket in index
     * order; in proof-only mode only proved entries, and no empty records.
     */
    method Store(fileName: string, proofOnly: bool) returns (name: string, bytes: seq<Byte>)
      requires Consistent()
      ensures name == fileName
      ensures bytes == StoreFrom(table, proofOnly, 0)
    {
      bytes := [];
      var idx := 0;
      while idx < CAPACITY
        invariant 0 <= idx <= CAPACITY
        invariant bytes + StoreFrom(table, proofOnly, idx) == StoreFrom(table, proofOnly, 0)
      {
        var written := RecordOf(idx, proofOnly);
        StoreStep(table, proofOnly, idx, bytes);
        bytes := bytes + written;
        idx := idx + 1;
      }
      name := fileName;
    }

    /**
     * The read loop of load: each record becomes the bucket at its index, and its
     * count is added to m_size.
     */
    method ReadRecords(bytes: seq<Byte>)
      requires Table.Shaped(table) && size < U64 && Decode(bytes, table, size).Good?
      modifies this`table, this`size
      ensures Table.Shaped(table) && size < U64
      ensures Good(table, size) == Decode(bytes, old(table), old(size))
    {
      ghost var decoded := Decode(bytes, table, size);
      var pos := 0;
      while pos < |bytes|
        invariant 0 <= pos <= |bytes| && Table.Shaped(table) && size < U64
        invariant Decode(bytes[pos..], table, size) == decoded
        decreases |bytes| - pos
      {
        table, size, pos := ReadRecord(bytes, pos, table, size);
      }
      assert bytes[pos..] == [];
    }

    /** One turn of load's read loop: the record at offset pos read into its bucket. */
    static method ReadRecord(bytes: seq<Byte>, pos: nat, t: Buckets, size: nat) returns (t': Buckets, size': nat, pos': nat)
      requires Table.Shaped(t) && pos < |bytes| && Decode(bytes[pos..], t, size).Good?
      ensures Table.Shaped(t') && size' < U64 && pos < pos' <= |bytes|
      ensures Decode(bytes[pos'..], t', size') == Decode(bytes[pos..], t, size)
    {
      DecodeHeader(bytes, pos, t, size);
      var idx := FromLE(bytes[pos..pos + 8]);
      var count := FromLE(bytes[pos + 8..pos + 10]);
      DecodeAdvance(bytes, pos, t, size, idx, count);
      t' := t[idx := [count] + ReadSlots(bytes[pos + 10..], count)];
      size' := (size + count) % U64;
      pos' := pos + 10 + 2 * count;
    }

    /**
     * load: when the file opens, empty the table, read every record into a new
     * bucket while adding its count to m_size, then clear every proof flag. A file
     * that cannot be opened gives "" and changes nothing.
     */
    method Load(fileName: string, file: Option<seq<Byte>>) returns (name: string)
      requires Consistent()
      requires file.Some? ==> Decode(file.value, map[], size).Good?
      modifies this
      ensures Consistent()
      ensures file.None? ==> name == "" && table == old(table) && size == old(size)
      ensures file.Some? ==> Table.Shaped(Decode(file.value, map[], old(size)).table)
      ensures file.Some? ==> (name == fileName
        && table == Cleared(Decode(file.value, map[], old(size)).table)
        && size == Decode(file.value, map[], old(size)).size)
      ensures proofSize == old(proofSize)
      ensures height == old(height) && width == old(width) && numPoints == old(numPoints) && polyTerms == old(polyTerms)
    {
      if file.None? {
        return "";
      }
      var bytes := file.value;
      DecodeShaped(bytes, map[], size);
      Clear();
      ReadRecords(bytes);
      ClearProofBit();
      name := fileName;
    }
  }

  /**
   * The table work of insert: the entry goes into the existing bucket of its slot,
   * or into a new one-entry bucket when the slot has none.
   */
  method InsertEntry(t: Buckets, hashcode: nat, value: int) returns (t': Buckets)
    requires Shaped(t) && Ordered(t) && hashcode < LCG_M && Lookup(t, hashcode).None?
    ensures Shaped(t') && Ordered(t')
    ensures t'.Keys == t.Keys + {hashcode / 1024}
    ensures Lookup(t', hashcode) == Some(Truncate(FormatEntryInsert(hashcode % 1024, value)))
    ensures forall h: nat :: h != hashcode ==> Lookup(t', h) == Lookup(t, h)
  {
    var idx := hashcode / 1024;
    var code := hashcode % 1024;
    var entry := FormatEntryInsert(code, value);
    FormatEntryCode(code, value);
    var b: seq<nat>;
    if idx in t {
      b := BucketUtil.Insert(t[idx], entry);
    } else {
      b := InitializeWith(entry);
    }
    ReplaceBucket(t, hashcode, b);
    t' := t[idx := b];
  }

  // ---------------------------------------------------------------------------
  // What the fingerprint methods compute on a board

  /**
   * The full fingerprint of a board's twoD_board is FullHash: the canonical cells
   * read as a base-3 number, wrapped to 64 bits.
   */
  lemma HashOfBoard(h: int, w: int, cells: seq<int>)
    requires h >= 1 && w >= 1 && |cells| == Board.MaxPoint(h, w)
    ensures GridReadable(Board.TwoD(h, w, cells))
    ensures PolySum(RowsFrom(Board.TwoD(h, w, cells), w, 0)) % U64 == FullHash(h, w, cells)
  {
    ScanTwoD(h, w, cells, 0);
  }

  /**
   * The incremental update agrees with a full recompute: placing a stone on an
   * empty point moves the fingerprint exactly as hash_func(hashcode, point, color).
   */
  lemma IncrementalAgreesWithFull(hs: Hash, cells: seq<int>, point: int, color: int)
    requires hs.Params() && |cells| == Board.MaxPoint(hs.height, hs.width)
    requires OnBoard(point, hs.height, hs.width) && 0 <= point < |cells| && cells[point] == EMPTY
    ensures hs.IncrementalHash(FullHash(hs.height, hs.width, cells), point, color)
         == FullHash(hs.height, hs.width, cells[point := color])
  {
    IncrementalAgrees(hs.height, hs.width, cells, point, color);
  }
}
