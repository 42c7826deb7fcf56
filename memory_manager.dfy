/**
 * CustomMemoryManager (memory_manager.hpp:44-75, memory_manager.cpp): a bump
 * allocator over one large zeroed pool, with exact-size free lists for reuse.
 * Addresses are integers; the pool is [pool, end). recycled_list has one entry per
 * block size below RECYCLE_SIZE:
 *  - a size below 8 (too small to hold a pointer) keeps an external array of words
 *    whose word 0 holds the array's own length, that is the number of blocks + 1;
 *  - a size of 8 or more keeps a LIFO list of freed blocks, modelled as the
 *    sequence of those blocks with the most recently freed last.
 * The bytes of the pool are the map `mem` (an absent address holds 0, as calloc
 * leaves it).
 */
module MemoryManager {
  /** 32 << 30 bytes. */
  const ALLOC_SIZE: nat := 0x8_0000_0000
  const RECYCLE_SIZE: nat := 1025
  /** Sizes below this keep their free blocks in an external array. */
  const SMALL: nat := 8

  // ---------------------------------------------------------------------------
  // The free lists as values

  /** Every small-size array starts with its own length, and no large-size list holds null. */
  predicate RecycledOk(recycled: seq<seq<nat>>)
  {
    && |recycled| == RECYCLE_SIZE
    && (forall s :: 0 <= s < SMALL ==> |recycled[s]| >= 1 && recycled[s][0] == |recycled[s]|)
    && (forall s :: SMALL <= s < RECYCLE_SIZE ==> 0 !in recycled[s])
  }

  /** The free blocks of one size, oldest first. */
  function Blocks(recycled: seq<seq<nat>>, size: nat): seq<nat>
    requires RecycledOk(recycled) && size < RECYCLE_SIZE
  {
    if size < SMALL then recycled[size][1..] else recycled[size]
  }

  /** What the constructor leaves: every small array holds only its length word, every list is empty. */
  function InitialRecycled(): (r: seq<seq<nat>>)
    ensures RecycledOk(r)
    ensures forall s :: 0 <= s < RECYCLE_SIZE ==> Blocks(r, s) == []
  {
    seq(RECYCLE_SIZE, s requires 0 <= s < RECYCLE_SIZE => if s < SMALL then [1] else [])
  }

  /** add_chunk: grow the array by one word, store the block there, and count it in word 0. */
  function AddChunk(list: seq<nat>, ptr: nat): (grown: seq<nat>)
    requires |list| >= 1 && list[0] == |list|
    ensures |grown| >= 1 && grown[0] == |grown|
    ensures grown[1..] == list[1..] + [ptr]
  {
    (list + [ptr])[0 := list[0] + 1]
  }

  /** get_chunk: the last block and the array shrunk by one word, or null and the array as it was. */
  function GetChunk(list: seq<nat>): (r: (nat, seq<nat>))
    requires |list| >= 1 && list[0] == |list|
    ensures |r.1| >= 1 && r.1[0] == |r.1|
    ensures list[0] > 1 ==> list[1..] == r.1[1..] + [r.0]
    ensures list[0] == 1 ==> r == (0, list)
  {
    if list[0] > 1 then (list[list[0] - 1], list[..list[0] - 1][0 := list[0] - 1])
    else (0, list)
  }

  /** The free lists after add_to_recycled_list(ptr, size). */
  function Added(recycled: seq<seq<nat>>, ptr: nat, size: nat): (r: seq<seq<nat>>)
    requires RecycledOk(recycled) && size < RECYCLE_SIZE && (size >= SMALL ==> ptr != 0)
    ensures RecycledOk(r) && |r| == |recycled|
    ensures Blocks(r, size) == Blocks(recycled, size) + [ptr]
    ensures forall s :: 0 <= s < RECYCLE_SIZE && s != size ==> r[s] == recycled[s]
  {
    if size < SMALL then
      var list := recycled[size];
      recycled[size := AddChunk(list, ptr)]
    else recycled[size := recycled[size] + [ptr]]
  }

  /** The block get_from_recycled_list(size) returns (null for none) and the free lists after it. */
  function Taken(recycled: seq<seq<nat>>, size: nat): (r: (nat, seq<seq<nat>>))
    requires RecycledOk(recycled) && size < RECYCLE_SIZE
    ensures RecycledOk(r.1) && |r.1| == |recycled|
    ensures Blocks(recycled, size) == [] ==> r == (0, recycled)
    ensures Blocks(recycled, size) != [] ==>
      Blocks(recycled, size) == Blocks(r.1, size) + [r.0]
    ensures forall s :: 0 <= s < RECYCLE_SIZE && s != size ==> r.1[s] == recycled[s]
  {
    if size < SMALL then
      var list := recycled[size];
      var (ptr, shrunk) := GetChunk(list);
      assert list[0] == 1 ==> list[1..] == [] && recycled[size := shrunk] == recycled;
      assert Blocks(recycled[size := shrunk], size) == shrunk[1..];
      assert Blocks(recycled, size) == list[1..];
      assert list[1..] != [] ==> list[0] > 1;
      (ptr, recycled[size := shrunk])
    else if recycled[size] == [] then (0, recycled)
    else
      var list := recycled[size];
      assert list == list[..|list| - 1] + [list[|list| - 1]];
      (list[|list| - 1], recycled[size := list[..|list| - 1]])
  }

  /** The free lists are last in, first out: a block just freed is the next one reused. */
  lemma TakeAfterAdd(recycled: seq<seq<nat>>, ptr: nat, size: nat)
    requires RecycledOk(recycled) && size < RECYCLE_SIZE && (size >= SMALL ==> ptr != 0)
    ensures Taken(Added(recycled, ptr, size), size) == (ptr, recycled)
  {
    var r := Added(recycled, ptr, size);
    var t := Taken(r, size);
    assert t.0 == ptr;
    if size < SMALL {
      var list := recycled[size];
      assert t.1[size] == list;
    } else {
      assert t.1[size] == recycled[size];
    }
    assert t.1 == recycled;
  }

  // ---------------------------------------------------------------------------
  // Pool bytes

  function ByteAt(mem: map<nat, nat>, a: nat): nat
  {
    if a in mem then mem[a] else 0
  }

  /** The byte at address a once the n bytes at src are copied to dst. */
  function MovedByte(mem: map<nat, nat>, dst: nat, src: nat, n: nat, a: nat): nat
  {
    if dst <= a < dst + n then ByteAt(mem, src + (a - dst)) else ByteAt(mem, a)
  }

  /** The addresses p .. p+n-1. */
  function Span(p: nat, n: nat): (addresses: set<nat>)
    ensures forall a :: a in addresses <==> p <= a < p + n
  {
    if n == 0 then {} else Span(p, n - 1) + {p + n - 1}
  }

  /** The n bytes starting at address p. */
  function Block(mem: map<nat, nat>, p: nat, n: nat): (bytes: seq<nat>)
    ensures |bytes| == n
  {
    seq<nat>(n, k requires 0 <= k < n => ByteAt(mem, p + k))
  }

  /** memmove(dst, src, n): the n bytes at src, as they were, now also at dst. */
  function Moved(mem: map<nat, nat>, dst: nat, src: nat, n: nat): (m: map<nat, nat>)
    ensures Block(m, dst, n) == Block(mem, src, n)
    ensures forall a: nat :: (a < dst || a >= dst + n) ==> ByteAt(m, a) == ByteAt(mem, a)
  {
    var m := map a: nat | a in mem.Keys + Span(dst, n) :: MovedByte(mem, dst, src, n, a);
    assert forall a: nat :: ByteAt(m, a) == MovedByte(mem, dst, src, n, a);
    m
  }

  /** A pointer is one machine word: sizeof(unsigned char*) bytes. */
  const WORD: nat := 8

  function Pow256(n: nat): (p: nat)
    ensures p >= 1
  {
    if n == 0 then 1 else 256 * Pow256(n - 1)
  }

  /** The pool after storing the n low bytes of v at p, least significant first. */
  function WriteLE(mem: map<nat, nat>, p: nat, v: nat, n: nat): map<nat, nat>
    decreases n
  {
    if n == 0 then mem else WriteLE(mem[p := v % 256], p + 1, v / 256, n - 1)
  }

  /** The n-byte little-endian number stored at p. */
  function ReadLE(mem: map<nat, nat>, p: nat, n: nat): nat
    decreases n
  {
    if n == 0 then 0 else ByteAt(mem, p) + 256 * ReadLE(mem, p + 1, n - 1)
  }

  /** Storing a number touches only its own n bytes. */
  lemma {:induction false} WriteLEOutside(mem: map<nat, nat>, p: nat, v: nat, n: nat, a: nat)
    requires a < p || a >= p + n
    ensures ByteAt(WriteLE(mem, p, v, n), a) == ByteAt(mem, a)
    decreases n
  {
    if n > 0 {
      WriteLEOutside(mem[p := v % 256], p + 1, v / 256, n - 1, a);
    }
  }

  /** A stored number that fits in its n bytes reads back unchanged. */
  lemma {:induction false} ReadWriteLE(mem: map<nat, nat>, p: nat, v: nat, n: nat)
    requires v < Pow256(n)
    ensures ReadLE(WriteLE(mem, p, v, n), p, n) == v
    decreases n
  {
    if n > 0 {
      var m1 := mem[p := v % 256];
      var w := WriteLE(m1, p + 1, v / 256, n - 1);
      WriteLEOutside(m1, p + 1, v / 256, n - 1, p);
      assert ByteAt(w, p) == v % 256;
      assert v / 256 < Pow256(n - 1);
      ReadWriteLE(m1, p + 1, v / 256, n - 1);
      assert v == v % 256 + 256 * (v / 256);
    }
  }

  /** The block most recently freed with this size (null for none): the head of the intrusive list. */
  function Head(recycled: seq<seq<nat>>, size: nat): nat
    requires RecycledOk(recycled) && SMALL <= size < RECYCLE_SIZE
  {
    if recycled[size] == [] then 0 else recycled[size][|recycled[size]| - 1]
  }

  /**
   * The pool after add_to_recycled_list(ptr, size) with free lists `recycled`: a block
   * of SMALL bytes or more holds the previous head of its list in its first word.
   */
  function Filed(mem: map<nat, nat>, recycled: seq<seq<nat>>, ptr: nat, size: nat): map<nat, nat>
    requires RecycledOk(recycled) && size < RECYCLE_SIZE
  {
    if size < SMALL then mem else WriteLE(mem, ptr, Head(recycled, size), WORD)
  }

  /**
   * The link a freed block holds: its first word is the previous head, which
   * get_from_recycled_list reads back, and no other byte of the pool changes.
   */
  lemma FiledLink(mem: map<nat, nat>, recycled: seq<seq<nat>>, ptr: nat, size: nat)
    requires RecycledOk(recycled) && SMALL <= size < RECYCLE_SIZE && Head(recycled, size) < Pow256(WORD)
    ensures ReadLE(Filed(mem, recycled, ptr, size), ptr, WORD) == Head(recycled, size)
    ensures forall a: nat :: (a < ptr || a >= ptr + WORD) ==> ByteAt(Filed(mem, recycled, ptr, size), a) == ByteAt(mem, a)
  {
    ReadWriteLE(mem, ptr, Head(recycled, size), WORD);
    forall a: nat | a < ptr || a >= ptr + WORD
      ensures ByteAt(Filed(mem, recycled, ptr, size), a) == ByteAt(mem, a)
    {
      WriteLEOutside(mem, ptr, Head(recycled, size), WORD, a);
    }
  }

  /** Filing a block changes at most its first word, and nothing when it is smaller than SMALL. */
  lemma FiledOutside(mem: map<nat, nat>, recycled: seq<seq<nat>>, ptr: nat, size: nat, a: nat)
    requires RecycledOk(recycled) && size < RECYCLE_SIZE
    requires size < SMALL || a < ptr || a >= ptr + WORD
    ensures ByteAt(Filed(mem, recycled, ptr, size), a) == ByteAt(mem, a)
  {
    if size >= SMALL {
      WriteLEOutside(mem, ptr, Head(recycled, size), WORD, a);
    }
  }

  /** A moved block whose old place is then filed keeps its copy wherever the link does not land. */
  lemma FiledKeeps(mem: map<nat, nat>, copied: map<nat, nat>, recycled: seq<seq<nat>>, dst: nat, src: nat, n: nat)
    requires RecycledOk(recycled) && n < RECYCLE_SIZE && copied == Moved(mem, dst, src, n)
    ensures n < SMALL || src + WORD <= dst || dst + n <= src ==>
      Block(Filed(copied, recycled, src, n), dst, n) == Block(mem, src, n)
    ensures forall a: nat :: (a < dst || a >= dst + n) && (n < SMALL || a < src || a >= src + WORD) ==>
      ByteAt(Filed(copied, recycled, src, n), a) == ByteAt(mem, a)
  {
    var filed := Filed(copied, recycled, src, n);
    if n < SMALL || src + WORD <= dst || dst + n <= src {
      forall k | 0 <= k < n ensures Block(filed, dst, n)[k] == Block(copied, dst, n)[k] {
        FiledOutside(copied, recycled, src, n, dst + k);
      }
    }
    forall a: nat | (a < dst || a >= dst + n) && (n < SMALL || a < src || a >= src + WORD)
      ensures ByteAt(filed, a) == ByteAt(mem, a)
    {
      FiledOutside(copied, recycled, src, n, a);
    }
  }

  // ---------------------------------------------------------------------------
  // The allocator

  class CustomMemoryManager {
    var pool: nat
    /** The first unused byte of the pool. */
    var pos: nat
    /** The first byte after the pool. */
    var end: nat
    var recycled: seq<seq<nat>>
    var mem: map<nat, nat>

    ghost predicate Valid()
      reads this
    {
      pool > 0 && pool <= pos && end == pool + ALLOC_SIZE && RecycledOk(recycled)
    }

    /** pool_usage: the bytes bump-allocated so far. */
    function PoolUsage(): (used: nat)
      reads this
      requires Valid()
      ensures pool + used == pos
    {
      pos - pool
    }

    /** The constructor: a fresh zeroed pool at `base`, each small-size array holding only its length. */
    constructor (base: nat)
      requires base > 0
      ensures Valid() && pool == base && PoolUsage() == 0 && mem == map[]
      ensures forall s :: 0 <= s < RECYCLE_SIZE ==> Blocks(recycled, s) == []
    {
      pool := base;
      pos := base;
      end := base + ALLOC_SIZE;
      mem := map[];
      new;
      recycled := seq(RECYCLE_SIZE, s => []);
      var i := 0;
      while i < SMALL
        invariant 0 <= i <= SMALL && |recycled| == RECYCLE_SIZE
        invariant forall s :: 0 <= s < RECYCLE_SIZE ==> recycled[s] == if s < i then [1] else []
        invariant pool == base && pos == base && end == base + ALLOC_SIZE && mem == map[]
      {
        recycled := recycled[i := [1]];
        i := i + 1;
      }
      assert recycled == InitialRecycled();
    }

    /**
     * add_to_recycled_list: file the block under its size; a block of SMALL bytes or
     * more becomes the head of its list and stores the previous head in its first word.
     */
    method AddToRecycledList(ptr: nat, size: nat)
      requires Valid() && size < RECYCLE_SIZE && (size >= SMALL ==> ptr != 0)
      modifies this
      ensures Valid() && recycled == Added(old(recycled), ptr, size)
      ensures mem == Filed(old(mem), old(recycled), ptr, size)
      ensures pool == old(pool) && pos == old(pos) && end == old(end)
    {
      if size < SMALL {
        var list := recycled[size];
        var listSize := list[0];
        list := list + [ptr];
        list := list[0 := listSize + 1];
        recycled := recycled[size := list];
      } else {
        var binPtr := if recycled[size] == [] then 0 else recycled[size][|recycled[size]| - 1];
        recycled := recycled[size := recycled[size] + [ptr]];
        mem := WriteLE(mem, ptr, binPtr, WORD);
      }
    }

    /** get_from_recycled_list: the most recently freed block of exactly this size, or null. */
    method GetFromRecycledList(size: nat) returns (ptr: nat)
      requires Valid() && size < RECYCLE_SIZE
      modifies this
      ensures Valid() && (ptr, recycled) == Taken(old(recycled), size)
      ensures pool == old(pool) && pos == old(pos) && end == old(end) && mem == old(mem)
    {
      if size < SMALL {
        var list := recycled[size];
        var listSize := list[0];
        ptr := 0;
        if listSize > 1 {
          ptr := list[listSize - 1];
          list := list[..listSize - 1];
          list := list[0 := listSize - 1];
          recycled := recycled[size := list];
        }
      } else {
        ptr := 0;
        if recycled[size] != [] {
          var list := recycled[size];
          ptr := list[|list| - 1];
          recycled := recycled[size := list[..|list| - 1]];
        }
      }
    }

    /**
     * malloc: reuse a freed block of this size if there is one, otherwise take the
     * next `size` bytes of the pool; `exhausted` is the pool-full exit.
     */
    method Malloc(size: nat) returns (ptr: nat, exhausted: bool)
      requires Valid() && size < RECYCLE_SIZE
      modifies this
      ensures Valid() && recycled == Taken(old(recycled), size).1 && mem == old(mem)
      ensures var reused := Taken(old(recycled), size).0;
        if reused != 0 then ptr == reused && pos == old(pos) && !exhausted
        else ptr == old(pos) && PoolUsage() == old(PoolUsage()) + size && (exhausted <==> pos > end)
      ensures pool == old(pool) && end == old(end)
    {
      ptr := GetFromRecycledList(size);
      exhausted := false;
      if ptr == 0 {
        ptr := pos;
        pos := pos + size;
        exhausted := !(pos <= end);
      }
    }

    /** free: the block goes on the free list of its size. */
    method Free(ptr: nat, size: nat)
      requires Valid() && size < RECYCLE_SIZE && (size >= SMALL ==> ptr != 0)
      modifies this
      ensures Valid() && recycled == Added(old(recycled), ptr, size)
      ensures Blocks(recycled, size) == Blocks(old(recycled), size) + [ptr]
      ensures mem == Filed(old(mem), old(recycled), ptr, size)
      ensures pool == old(pool) && pos == old(pos) && end == old(end)
    {
      AddToRecycledList(ptr, size);
    }

    /**
     * realloc: move the block to a freed block of the new size if there is one;
     * otherwise extend it in place when it ends at the frontier; otherwise move it
     * to fresh pool bytes. A moved block's old place is freed under its old size,
     * which writes the free-list link into its first word when it has SMALL bytes
     * or more. The first old_size bytes of the result are the old bytes unless
     * that link lands on them.
     */
    method Realloc(ptr: nat, size: nat, oldSize: nat) returns (newPtr: nat, exhausted: bool)
      requires Valid() && pool <= ptr && size < RECYCLE_SIZE && oldSize < RECYCLE_SIZE
      modifies this
      ensures Valid() && pool == old(pool) && end == old(end)
      ensures var reused := Taken(old(recycled), size);
        if reused.0 != 0 then
          newPtr == reused.0 && pos == old(pos) && !exhausted
          && recycled == Added(reused.1, ptr, oldSize)
          && mem == Filed(Moved(old(mem), newPtr, ptr, oldSize), reused.1, ptr, oldSize)
        else if ptr + oldSize == old(pos) then
          newPtr == ptr && pos == ptr + size && recycled == reused.1 && (exhausted <==> pos > end)
          && mem == old(mem)
        else
          newPtr == old(pos) && PoolUsage() == old(PoolUsage()) + size
          && recycled == Added(reused.1, ptr, oldSize) && (exhausted <==> pos > end)
          && mem == Filed(Moved(old(mem), newPtr, ptr, oldSize), reused.1, ptr, oldSize)
      ensures oldSize < SMALL || ptr + WORD <= newPtr || newPtr + oldSize <= ptr ==>
        Block(mem, newPtr, oldSize) == Block(old(mem), ptr, oldSize)
      ensures forall a: nat ::
        (a < newPtr || a >= newPtr + oldSize) && (oldSize < SMALL || a < ptr || a >= ptr + WORD) ==>
        ByteAt(mem, a) == ByteAt(old(mem), a)
    {
      newPtr := GetFromRecycledList(size);
      exhausted := false;
      if newPtr != 0 {
        mem := Moved(mem, newPtr, ptr, oldSize);
        ghost var copied, lists := mem, recycled;
        AddToRecycledList(ptr, oldSize);
        FiledKeeps(old(mem), copied, lists, newPtr, ptr, oldSize);
      } else if ptr + oldSize == pos {
        newPtr := ptr;
        pos := ptr + size;
        exhausted := !(pos <= end);
      } else {
        newPtr := pos;
        pos := pos + size;
        exhausted := !(pos <= end);
        mem := Moved(mem, newPtr, ptr, oldSize);
        ghost var copied, lists := mem, recycled;
        AddToRecycledList(ptr, oldSize);
        FiledKeeps(old(mem), copied, lists, newPtr, ptr, oldSize);
      }
    }
  }
}
