/**
 * Utility.Marshal: a process-wide scratch region of unmanaged memory, grown
 * in blocks of 2048 bytes and reused between calls, through which structures
 * are copied to and from byte arrays.
 *
 * The region is described by the two static fields of the source: whether a
 * region is held (`s_CachedHGlobalPtr != IntPtr.Zero`) and its size
 * (`s_CachedHGlobalSize`). The runtime's marshaller (`SizeOf`,
 * `StructureToPtr`, `PtrToStructure`) is a `Layout`: a size and an encoding.
 */
module Marshal {
  import opened Numeric
  import opened Results

  /** The granularity of the cached region. */
  const BLOCK_SIZE: int := 1024 * 2

  /** `(size - 1 + BLOCK_SIZE) / BLOCK_SIZE * BLOCK_SIZE`, in unchecked 32-bit arithmetic. */
  function CachedSize(size: i32): i32
    requires 0 <= size
  {
    Wrap32(TruncDiv(Wrap32(size - 1 + BLOCK_SIZE), BLOCK_SIZE) * BLOCK_SIZE)
  }

  /** Below the overflow point the cached size is the least multiple of BLOCK_SIZE that holds `size` bytes. */
  lemma CachedSizeRounds(size: i32)
    requires 0 <= size <= INT_MAX - (BLOCK_SIZE - 1)
    ensures CachedSize(size) % BLOCK_SIZE == 0
    ensures size <= CachedSize(size) < size + BLOCK_SIZE
  {
    var n := size - 1 + BLOCK_SIZE;
    var q := n / BLOCK_SIZE;
    assert q * BLOCK_SIZE <= n < q * BLOCK_SIZE + BLOCK_SIZE;
    assert 0 <= q * BLOCK_SIZE <= INT_MAX;
  }

  /**
   * Above it, `size - 1 + BLOCK_SIZE` wraps to a negative number and so does the
   * cached size; AllocHGlobal refuses it.
   */
  lemma CachedSizeOverflows(size: i32)
    requires INT_MAX - (BLOCK_SIZE - 1) < size
    ensures CachedSize(size) < 0
  {
    var n := Wrap32(size - 1 + BLOCK_SIZE);
    assert n == size - 1 + BLOCK_SIZE - 0x1_0000_0000;
    assert INT_MIN <= n < INT_MIN + BLOCK_SIZE;
    var q := TruncDiv(n, BLOCK_SIZE);
    assert q == -(-n / BLOCK_SIZE);
    assert -0x10_0000 <= q < 0;
  }

  lemma CachedSizeExamples()
    ensures CachedSize(0) == 0 && CachedSize(1) == 2048 && CachedSize(10) == 2048
    ensures CachedSize(2048) == 2048 && CachedSize(2049) == 4096 && CachedSize(5000) == 6144
  {
  }

  /** The two static fields. */
  datatype CacheState = CacheState(held: bool, capacity: i32)

  /** What every reachable state satisfies: a whole number of blocks, and nothing held when unallocated. */
  predicate ValidState(c: CacheState)
  {
    0 <= c.capacity && c.capacity % BLOCK_SIZE == 0 && (!c.held ==> c.capacity == 0)
  }

  /** FreeCachedHGlobal on the state: a held region is released, an unallocated state is left as it is. */
  function Free(c: CacheState): (r: CacheState)
    ensures !r.held
    ensures c.held ==> r.capacity == 0
    ensures !c.held ==> r == c
  {
    if c.held then CacheState(false, 0) else c
  }

  /**
   * MallocCachedHGlobalSize on the state. A negative size is refused without
   * any change. A region that is held and large enough is kept. Otherwise the
   * old region is released and one of `CachedSize(size)` bytes is taken; when
   * that size has wrapped negative the allocation fails, leaving nothing held.
   */
  function Malloc(c: CacheState, size: i32): (r: (Outcome, CacheState))
  {
    if size < 0 then (Fail(InvalidSize), c)
    else if !c.held || c.capacity < size then
      var cachedSize := CachedSize(size);
      if cachedSize < 0 then (Fail(OutOfMemory), Free(c))
      else (Pass, CacheState(true, cachedSize))
    else (Pass, c)
  }

  /** A negative size changes nothing. */
  lemma MallocRejectsNegative(c: CacheState, size: i32)
    requires size < 0
    ensures Malloc(c, size) == (Fail(InvalidSize), c)
  {
  }

  /**
   * A region that is missing or too small is replaced by one of the least
   * multiple of BLOCK_SIZE that holds `size` bytes (0 bytes for size 0).
   */
  lemma MallocGrows(c: CacheState, size: i32)
    requires 0 <= size <= INT_MAX - (BLOCK_SIZE - 1)
    requires !c.held || c.capacity < size
    ensures Malloc(c, size).0 == Pass
    ensures Malloc(c, size).1.held
    ensures var n := Malloc(c, size).1.capacity;
      n % BLOCK_SIZE == 0 && size <= n < size + BLOCK_SIZE
  {
    CachedSizeRounds(size);
  }

  /** A held region of at least `size` bytes is kept as it is. */
  lemma MallocKeepsLargeEnough(c: CacheState, size: i32)
    requires c.held && 0 <= size <= c.capacity
    ensures Malloc(c, size) == (Pass, c)
  {
  }

  /** A size whose rounding overflows fails with nothing held. */
  lemma MallocOverflows(c: CacheState, size: i32)
    requires ValidState(c) && INT_MAX - (BLOCK_SIZE - 1) < size
    ensures Malloc(c, size) == (Fail(OutOfMemory), CacheState(false, 0))
  {
    CachedSizeOverflows(size);
    assert c.capacity <= INT_MAX - (BLOCK_SIZE - 1) by {
      var k := c.capacity / BLOCK_SIZE;
      assert c.capacity == k * BLOCK_SIZE;
      assert k < 0x10_0000;
    }
  }

  /**
   * Every call keeps the state valid; after a successful one a region of at
   * least `size` bytes is held, and a region held before has not shrunk.
   */
  lemma MallocInvariant(c: CacheState, size: i32)
    requires ValidState(c)
    ensures ValidState(Malloc(c, size).1)
    ensures Malloc(c, size).0.Pass? ==> Malloc(c, size).1.held && size <= Malloc(c, size).1.capacity
    ensures Malloc(c, size).0.Pass? && c.held ==> c.capacity <= Malloc(c, size).1.capacity
  {
    if 0 <= size && (!c.held || c.capacity < size) {
      if size <= INT_MAX - (BLOCK_SIZE - 1) {
        CachedSizeRounds(size);
      } else {
        MallocOverflows(c, size);
      }
    }
  }

  /** Asking again for the same size right after a success changes nothing. */
  lemma MallocIdempotent(c: CacheState, size: i32)
    requires ValidState(c) && Malloc(c, size).0.Pass?
    ensures Malloc(Malloc(c, size).1, size) == (Pass, Malloc(c, size).1)
  {
    MallocInvariant(c, size);
  }

  /** Freeing a valid state leaves nothing held, and freeing twice is freeing once. */
  lemma FreeResets(c: CacheState)
    requires ValidState(c)
    ensures Free(c) == CacheState(false, 0)
    ensures Free(Free(c)) == Free(c)
  {
  }

  /** What the runtime marshaller knows of a structure type: its unmanaged size and its byte image. */
  datatype Layout<!T> = Layout(size: nat, encode: T -> seq<byte>, decode: seq<byte> -> T)

  /** The image of every value has `size` bytes. */
  ghost predicate LayoutValid<T(!new)>(layout: Layout<T>)
  {
    forall x: T :: |layout.encode(x)| == layout.size
  }

  /**
   * The argument checks of StructureToBytes and BytesToStructure with a start
   * index, in order. `startIndex + structureSize` is a 32-bit sum.
   */
  function ArgCheck(structureSize: i32, bytes: array?<byte>, startIndex: i32): (r: Outcome)
    ensures r.Pass? <==>
      0 <= structureSize && bytes != null && 0 <= startIndex && Wrap32(startIndex + structureSize) <= bytes.Length
    ensures structureSize < 0 ==> r == Fail(InvalidSize)
    ensures 0 <= structureSize && bytes == null ==> r == Fail(NullBuffer)
  {
    if structureSize < 0 then Fail(InvalidSize)
    else if bytes == null then Fail(NullBuffer)
    else if startIndex < 0 then Fail(InvalidStartIndex)
    else if Wrap32(startIndex + structureSize) > bytes.Length then Fail(BufferNotEnough)
    else Pass
  }

  /** Without overflow the checks pass exactly when the range lies inside the array. */
  lemma ArgCheckInRange(structureSize: i32, bytes: array?<byte>, startIndex: i32)
    requires startIndex + structureSize <= INT_MAX
    ensures ArgCheck(structureSize, bytes, startIndex).Pass? <==>
      0 <= structureSize && bytes != null && 0 <= startIndex && startIndex + structureSize <= bytes.Length
  {
  }

  /**
   * With overflow they pass a range that is not inside the array; Marshal.Copy's
   * own check then fails, after the region has been grown and written.
   */
  lemma ArgCheckWraps(bytes: array<byte>)
    requires bytes.Length <= INT_MAX
    ensures ArgCheck(2, bytes, INT_MAX) == Pass
    ensures INT_MAX + 2 > bytes.Length
  {
  }

  /** The scratch region and the two static fields that describe it. */
  class HGlobalCache {
    /** `s_CachedHGlobalPtr != IntPtr.Zero` */
    var held: bool
    /** `s_CachedHGlobalSize` */
    var capacity: i32
    /** The bytes of the region. */
    var region: seq<byte>

    function State(): CacheState
      reads this
    {
      CacheState(held, capacity)
    }

    ghost predicate Valid()
      reads this
    {
      ValidState(State()) && |region| == capacity
    }

    /** The static initialisers: no region held. */
    constructor ()
      ensures Valid() && State() == CacheState(false, 0)
    {
      held := false;
      capacity := 0;
      region := [];
    }

    /** FreeCachedHGlobal. */
    method FreeCachedHGlobal()
      requires Valid()
      modifies this
      ensures Valid() && State() == Free(old(State())) && !held
    {
      if held {
        held := false;
        capacity := 0;
        region := [];
      }
    }

    /**
     * MallocCachedHGlobalSize. The new state is the one `Malloc` gives; a kept
     * region keeps its bytes, a new one is zero-filled.
     */
    method MallocCachedHGlobalSize(size: i32) returns (r: Outcome)
      requires Valid()
      modifies this
      ensures Valid()
      ensures (r, State()) == Malloc(old(State()), size)
      ensures State() == old(State()) && held ==> region == old(region)
      ensures r.Pass? ==> held && size <= capacity
    {
      MallocInvariant(State(), size);
      if size < 0 {
        return Fail(InvalidSize);
      }
      if !held || capacity < size {
        FreeCachedHGlobal();
        var cachedSize := CachedSize(size);
        if cachedSize < 0 {
          // AllocHGlobal throws before the fields are assigned
          return Fail(OutOfMemory);
        }
        region := seq(cachedSize, _ => 0);
        held := true;
        capacity := cachedSize;
      }
      r := Pass;
    }

    /** StructureToPtr into the region: the image of `structure` over its first `layout.size` bytes. */
    method StructureToPtr<T(!new)>(layout: Layout<T>, structure: T)
      requires Valid() && LayoutValid(layout) && layout.size <= capacity
      modifies this
      ensures Valid() && State() == old(State())
      ensures region == Splice(old(region), 0, layout.encode(structure))
    {
      region := layout.encode(structure) + region[layout.size..];
    }

    /**
     * StructureToBytes(structure, structureSize): the first `structureSize`
     * bytes of the region after the structure has been written to it, in a fresh
     * array. The form without a size passes `layout.size`.
     */
    method StructureToBytes<T(!new)>(layout: Layout<T>, structure: T, structureSize: i32) returns (r: Result<array<byte>>)
      requires Valid() && LayoutValid(layout)
      requires structureSize < 0 || layout.size <= structureSize
      modifies this
      ensures Valid()
      ensures structureSize < 0 ==> r == Err(InvalidSize) && State() == old(State())
      ensures 0 <= structureSize ==> State() == Malloc(old(State()), structureSize).1
      ensures r.Ok? <==> Malloc(old(State()), structureSize).0.Pass?
      ensures r.Ok? ==> fresh(r.value) && r.value.Length == structureSize
      ensures r.Ok? ==> r.value[..] == region[..structureSize]
      ensures r.Ok? ==> r.value[..layout.size] == layout.encode(structure)
    {
      if structureSize < 0 {
        return Err(InvalidSize);
      }
      var m := MallocCachedHGlobalSize(structureSize);
      if m.Fail? {
        return Err(m.error);
      }
      StructureToPtr(layout, structure);
      var bytes := new byte[structureSize];
      forall i | 0 <= i < structureSize {
        bytes[i] := region[i];
      }
      assert bytes[..layout.size] == region[..structureSize][..layout.size];
      return Ok(bytes);
    }

    /**
     * StructureToBytes(structure, structureSize, bytes, startIndex): after the
     * argument checks, writes the structure to the region and copies its first
     * `structureSize` bytes to `bytes[startIndex..]`. Only that range of `bytes`
     * changes. The forms without a size or an index pass `layout.size` and 0.
     */
    method StructureToBytesAt<T(!new)>(layout: Layout<T>, structure: T, structureSize: i32, bytes: array?<byte>, startIndex: i32)
      returns (r: Outcome)
      requires Valid() && LayoutValid(layout)
      requires structureSize < 0 || layout.size <= structureSize
      modifies this, bytes
      ensures Valid()
      ensures ArgCheck(structureSize, bytes, startIndex).Fail? ==>
        r == ArgCheck(structureSize, bytes, startIndex) && State() == old(State()) && region == old(region)
      ensures r.Pass? <==>
        0 <= structureSize && bytes != null && 0 <= startIndex && startIndex + structureSize <= bytes.Length &&
        Malloc(old(State()), structureSize).0.Pass?
      ensures ArgCheck(structureSize, bytes, startIndex).Pass? ==> State() == Malloc(old(State()), structureSize).1
      ensures r.Fail? && bytes != null ==> bytes[..] == old(bytes[..])
      ensures r.Pass? ==> structureSize <= capacity
      ensures r.Pass? ==> region[..layout.size] == layout.encode(structure)
      ensures r.Pass? ==> bytes[..] == Splice(old(bytes[..]), startIndex as nat, region[..structureSize])
      ensures r.Pass? ==> bytes[startIndex..startIndex + layout.size] == layout.encode(structure)
    {
      r := ArgCheck(structureSize, bytes, startIndex);
      if r.Fail? {
        return;
      }
      r := MallocCachedHGlobalSize(structureSize);
      if r.Fail? {
        return;
      }
      StructureToPtr(layout, structure);
      if startIndex + structureSize > bytes.Length {
        // the 32-bit check wrapped; Marshal.Copy refuses the range
        return Fail(CopyOutOfRange);
      }
      forall i | startIndex <= i < startIndex + structureSize {
        bytes[i] := region[i - startIndex];
      }
      assert bytes[..] == Splice(old(bytes[..]), startIndex as nat, region[..structureSize]);
      assert bytes[startIndex..startIndex + layout.size] == region[..structureSize][..layout.size];
    }

    /**
     * BytesToStructure(structureSize, bytes, startIndex): after the argument
     * checks, copies `bytes[startIndex..startIndex + structureSize]` to the
     * region and decodes the structure from it. `bytes` is only read. The forms
     * without a size or an index pass `layout.size` and 0.
     */
    method BytesToStructure<T(!new)>(layout: Layout<T>, structureSize: i32, bytes: array?<byte>, startIndex: i32)
      returns (r: Result<T>)
      requires Valid() && LayoutValid(layout)
      requires structureSize < 0 || layout.size <= structureSize
      modifies this
      ensures Valid()
      ensures ArgCheck(structureSize, bytes, startIndex).Fail? ==>
        r == Err(ArgCheck(structureSize, bytes, startIndex).error) && State() == old(State()) && region == old(region)
      ensures r.Ok? <==>
        0 <= structureSize && bytes != null && 0 <= startIndex && startIndex + structureSize <= bytes.Length &&
        Malloc(old(State()), structureSize).0.Pass?
      ensures ArgCheck(structureSize, bytes, startIndex).Pass? ==> State() == Malloc(old(State()), structureSize).1
      ensures r.Ok? ==> structureSize <= capacity
      ensures r.Ok? ==> region[..structureSize] == bytes[startIndex..startIndex + structureSize]
      ensures r.Ok? ==> r.value == layout.decode(bytes[startIndex..startIndex + layout.size])
    {
      var check := ArgCheck(structureSize, bytes, startIndex);
      if check.Fail? {
        return Err(check.error);
      }
      var m := MallocCachedHGlobalSize(structureSize);
      if m.Fail? {
        return Err(m.error);
      }
      if startIndex + structureSize > bytes.Length {
        // the 32-bit check wrapped; Marshal.Copy refuses the range
        return Err(CopyOutOfRange);
      }
      region := bytes[startIndex..startIndex + structureSize] + region[structureSize..];
      assert region[..layout.size] == bytes[startIndex..startIndex + layout.size];
      return Ok(layout.decode(region[..layout.size]));
    }
  }

  /**
   * Round trip through a cache: the bytes StructureToBytes produces decode, via
   * BytesToStructure, to the structure whenever the layout's decoding inverts
   * its encoding.
   */
  method StructureRoundTrip<T(!new)>(cache: HGlobalCache, layout: Layout<T>, structure: T) returns (r: Result<T>)
    requires cache.Valid() && LayoutValid(layout) && layout.size <= INT_MAX
    requires layout.decode(layout.encode(structure)) == structure
    modifies cache
    ensures cache.Valid()
    ensures r.Ok? ==> r.value == structure
    ensures old(cache.State()).held && layout.size <= old(cache.State()).capacity ==> r.Ok?
  {
    var bytes := cache.StructureToBytes(layout, structure, layout.size);
    if bytes.Err? {
      return Err(bytes.error);
    }
    r := cache.BytesToStructure(layout, layout.size, bytes.value, 0);
  }
}
