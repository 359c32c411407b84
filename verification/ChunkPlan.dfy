/**
Cutting an allocation into chunks (vllm/csrc/cumem_allocator.cpp, `get_memcreate_chunk_size` and the ROCm
part of `my_malloc`). Sizes are 64-bit unsigned in the source; every addition that can wrap is written out.
*/
module ChunkPlan {
  import opened Integers

  /** Values of `unsigned long long` and `size_t`. */
  const LIMIT := 0x1_0000_0000_0000_0000

  const MB := 1024 * 1024
  const DEFAULT_MEMCREATE_CHUNK_SIZE := 256 * MB

  /** What `strtoull` makes of the environment variable. */
  datatype EnvValue = Unset | Unparsable | Parsed(megabytes: nat)

  function MemcreateChunkSize(env: EnvValue): (size: nat)
    requires env.Parsed? ==> env.megabytes < LIMIT
    ensures 0 < size < LIMIT && size % MB == 0
    ensures env.Parsed? && 0 < env.megabytes && env.megabytes * MB < LIMIT ==> size == env.megabytes * MB
    ensures (env.Parsed? && 0 < env.megabytes && env.megabytes * MB < LIMIT) || size == DEFAULT_MEMCREATE_CHUNK_SIZE
  {
    match env
    case Unset => DEFAULT_MEMCREATE_CHUNK_SIZE
    case Unparsable => DEFAULT_MEMCREATE_CHUNK_SIZE
    case Parsed(mb) =>
      if mb == 0 then DEFAULT_MEMCREATE_CHUNK_SIZE
      else if mb > (LIMIT - 1) / MB then DEFAULT_MEMCREATE_CHUNK_SIZE
      else mb * MB
  }

  /** The round-up of the source, in 64-bit arithmetic. */
  function RoundUp(x: nat, g: nat): int
    requires 0 < g
  {
    FloorTo((x + g - 1) % LIMIT, g)
  }

  function FloorTo(x: nat, g: nat): int
    requires 0 < g
  {
    (x / g) * g
  }

  predicate LeastMultiple(r: int, x: nat, g: nat)
    requires 0 < g
  {
    r % g == 0 && x <= r < x + g
  }

  lemma FloorIsMultiple(x: nat, g: nat)
    requires 0 < g
    ensures 0 <= FloorTo(x, g) <= x < FloorTo(x, g) + g && FloorTo(x, g) % g == 0
  {
    assert x == (x / g) * g + x % g;
    Quotient(FloorTo(x, g), g, x / g, 0);
    if x / g > 0 { AtLeastOnce(x / g, g); }
  }

  /** The round-up is the least multiple above its argument exactly when the addition does not wrap. */
  lemma RoundUpExact(x: nat, g: nat)
    requires x < LIMIT && 0 < g < LIMIT
    ensures LeastMultiple(RoundUp(x, g), x, g) <==> x + g - 1 < LIMIT
    ensures x + g - 1 >= LIMIT ==> RoundUp(x, g) == 0
  {
    var s := x + g - 1;
    if s < LIMIT {
      assert s % LIMIT == s;
      FloorIsMultiple(s, g);
    } else {
      assert s % LIMIT == s - LIMIT && s - LIMIT < g;
      Quotient(s - LIMIT, g, 0, s - LIMIT);
    }
  }

  function Sum(s: seq<nat>): nat {
    if s == [] then 0 else Sum(s[..|s| - 1]) + s[|s| - 1]
  }

  datatype Plan = DivisionByZero | Chunks(alignedSize: nat, chunkSize: nat, sizes: seq<nat>)

  /** The chunks cover the aligned size exactly, in equal multiples of the granularity but for the last. */
  predicate Covers(plan: Plan, size: nat, granularity: nat)
    requires 0 < granularity && plan.Chunks?
  {
    var sizes := plan.sizes;
    && LeastMultiple(plan.alignedSize, size, granularity)
    && Sum(sizes) == plan.alignedSize
    && (forall i | 0 <= i < |sizes| :: 0 < sizes[i] <= plan.chunkSize && sizes[i] % granularity == 0)
    && (forall i | 0 <= i < |sizes| - 1 :: sizes[i] == plan.chunkSize)
  }

  /** No addition of the plan wraps around. */
  predicate NoWrap(size: nat, granularity: nat, chunkSize: nat)
    requires 0 < granularity
  {
    && size + granularity - 1 < LIMIT
    && RoundUp(size, granularity) + chunkSize - 1 < LIMIT
  }

  lemma ChunkCount(a: nat, c: nat, n: int)
    requires 0 < c && n == (a + c - 1) / c
    ensures 0 <= n && a <= n * c < a + c
  {
    var r := (a + c - 1) % c;
    assert a + c - 1 == n * c + r;
  }

  lemma MultiplesDiffer(a: int, c: int, i: int, g: nat)
    requires 0 < g && a % g == 0 && c % g == 0
    ensures (a - i * c) % g == 0
  {
    var p, q := a / g, c / g;
    assert a == p * g && c == q * g;
    assert i * (q * g) == (i * q) * g;
    assert (p - i * q) * g == p * g - (i * q) * g;
    Quotient(a - i * c, g, p - i * q, 0);
  }

  lemma {:induction false} NextOffset(i: nat, n: nat, c: nat)
    requires i < n
    ensures (i + 1) * c == i * c + c <= n * c
  {
    assert n * c == (n - 1) * c + c;
    if i < n - 1 {
      NextOffset(i, n - 1, c);
    }
  }

  /** One chunk: as much as is left, up to a whole one. */
  method ChunkAt(alignedSize: nat, chunkSize: nat, i: nat, ghost n: nat) returns (size: nat)
    requires alignedSize < LIMIT && i < n && alignedSize <= n * chunkSize < alignedSize + chunkSize
    ensures i * chunkSize < alignedSize
    ensures size == if i < n - 1 then chunkSize else alignedSize - i * chunkSize
    ensures 0 < size <= chunkSize
  {
    NextOffset(i, n, chunkSize);
    if i < n - 1 { NextOffset(i + 1, n, chunkSize); }
    var rest := (alignedSize - i * chunkSize) % LIMIT;
    assert rest == alignedSize - i * chunkSize;
    size := if rest < chunkSize then rest else chunkSize;
  }

  method FillChunks(alignedSize: nat, chunkSize: nat, numChunks: nat, ghost granularity: nat)
    returns (sizes: seq<nat>)
    requires alignedSize < LIMIT && 0 < chunkSize && 0 < granularity
    requires alignedSize % granularity == 0 && chunkSize % granularity == 0
    requires numChunks > 0 ==> alignedSize <= numChunks * chunkSize < alignedSize + chunkSize
    ensures |sizes| == numChunks && Sum(sizes) == if numChunks == 0 then 0 else alignedSize
    ensures forall j | 0 <= j < |sizes| :: 0 < sizes[j] <= chunkSize && sizes[j] % granularity == 0
    ensures forall j | 0 <= j < |sizes| - 1 :: sizes[j] == chunkSize
  {
    sizes := [];
    for i := 0 to numChunks
      invariant |sizes| == i
      invariant Sum(sizes) == if i < numChunks || numChunks == 0 then i * chunkSize else alignedSize
      invariant forall j | 0 <= j < i :: 0 < sizes[j] <= chunkSize && sizes[j] % granularity == 0
      invariant forall j | 0 <= j < i && j < numChunks - 1 :: sizes[j] == chunkSize
    {
      var chunk := ChunkAt(alignedSize, chunkSize, i, numChunks);
      MultiplesDiffer(alignedSize, chunkSize, i, granularity);
      NextOffset(i, numChunks, chunkSize);
      assert (sizes + [chunk])[..i] == sizes;
      sizes := sizes + [chunk];
    }
  }

  /** The number of chunks, in 64-bit arithmetic: the right one, or none at all if the addition wraps. */
  function NumChunks(a: nat, c: nat): int
    requires 0 < c
  {
    (a + c - 1) % LIMIT / c
  }

  lemma NumChunksExact(a: nat, c: nat)
    requires a < LIMIT && 0 < c < LIMIT
    ensures var n := NumChunks(a, c);
            && (a + c - 1 < LIMIT ==> 0 <= n && a <= n * c < a + c)
            && (a + c - 1 >= LIMIT ==> n == 0 < a)
  {
    if a + c - 1 < LIMIT {
      assert (a + c - 1) % LIMIT == a + c - 1;
      ChunkCount(a, c, NumChunks(a, c));
    } else {
      assert (a + c - 1) % LIMIT == a + c - 1 - LIMIT;
      Quotient(a + c - 1 - LIMIT, c, 0, a + c - 1 - LIMIT);
    }
  }

  lemma RoundUpInRange(x: nat, g: nat)
    requires 0 < g
    ensures 0 <= RoundUp(x, g) < LIMIT && RoundUp(x, g) % g == 0
  {
    FloorIsMultiple((x + g - 1) % LIMIT, g);
  }

  /**
  Cuts an allocation into chunks. The plan covers the least multiple of the granularity above the requested
  size exactly when no addition wraps; a wrapping chunk size even makes the source divide by zero.
  */
  method PlanChunks(size: nat, granularity: nat, baseChunk: nat) returns (plan: Plan)
    requires size < LIMIT && 0 < granularity < LIMIT && 0 < baseChunk < LIMIT
    ensures plan.DivisionByZero? <==> baseChunk + granularity - 1 >= LIMIT
    ensures plan.Chunks? ==> LeastMultiple(plan.chunkSize, baseChunk, granularity)
    ensures plan.Chunks? ==> plan.alignedSize == RoundUp(size, granularity)
    ensures plan.Chunks? ==> (Covers(plan, size, granularity) <==> NoWrap(size, granularity, plan.chunkSize))
  {
    RoundUpExact(size, granularity);
    RoundUpExact(baseChunk, granularity);
    RoundUpInRange(size, granularity);
    RoundUpInRange(baseChunk, granularity);
    var alignedSize, chunkSize := RoundUp(size, granularity), RoundUp(baseChunk, granularity);
    if chunkSize == 0 {
      return DivisionByZero;
    }
    NumChunksExact(alignedSize, chunkSize);
    var numChunks := NumChunks(alignedSize, chunkSize);
    assert numChunks == 0 && alignedSize + chunkSize - 1 < LIMIT ==> alignedSize == 0;
    var sizes := FillChunks(alignedSize, chunkSize, numChunks, granularity);
    plan := Chunks(alignedSize, chunkSize, sizes);
  }

  /** A chunk size that the environment variable can ask for makes the source divide by zero at 2 MB granularity. */
  lemma DivisionByZeroIsReachable()
    ensures MemcreateChunkSize(Parsed(0xFFF_FFFF_FFFF)) + 2 * MB - 1 >= LIMIT
    ensures RoundUp(MemcreateChunkSize(Parsed(0xFFF_FFFF_FFFF)), 2 * MB) == 0
  {
    RoundUpExact(MemcreateChunkSize(Parsed(0xFFF_FFFF_FFFF)), 2 * MB);
  }
}
