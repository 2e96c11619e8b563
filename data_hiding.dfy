/** `cloakwork::data_hiding`: `scattered_value`, which keeps the bytes of a
    value split over separately allocated, separately keyed chunks, and
    `polymorphic_value`, which on every hundredth access runs one of four
    representation changes that are meant to leave the value as it is. */
module DataHiding {
  import opened Word

  // -----------------------------------------------------------------------
  // scattered_value<T, Chunks>
  // -----------------------------------------------------------------------

  /** The template arguments scattered_value's static_asserts accept: a
      type of `size` bytes split into `count` chunks. */
  predicate Shape(size: nat, count: nat) {
    size >= 1 && 1 < count <= 64 && (size >= count || count == 2)
  }

  /** The size of chunk i: bytes_per_chunk, plus one for each of the first
      `remainder` chunks. */
  function ChunkSize(perChunk: nat, remainder: nat, i: nat): (n: nat)
    ensures n == perChunk || n == perChunk + 1
  {
    perChunk + (if i < remainder then 1 else 0)
  }

  /** Where chunk i starts: the sum of the sizes of the chunks before it,
      which is how scatter_data and get advance byte_idx. */
  function ChunkStart(perChunk: nat, remainder: nat, i: nat): nat
  {
    if i == 0 then 0 else ChunkStart(perChunk, remainder, i - 1) + ChunkSize(perChunk, remainder, i - 1)
  }

  /** The chunks before i hold i * bytes_per_chunk + min(i, remainder)
      bytes. */
  lemma {:induction false} ChunkStartClosedForm(perChunk: nat, remainder: nat, i: nat)
    ensures ChunkStart(perChunk, remainder, i)
            == i * perChunk + (if i < remainder then i else remainder)
  {
    if i > 0 {
      ChunkStartClosedForm(perChunk, remainder, i - 1);
      assert i * perChunk == (i - 1) * perChunk + perChunk;
    }
  }

  /** When size == perChunk * count + remainder with remainder < count (as
      for bytes_per_chunk = size / count and remainder = size % count), the
      chunk sizes add up to the size of the value, so every chunk lies
      inside it. */
  lemma {:induction false} ChunksCoverValue(size: nat, count: nat, perChunk: nat, remainder: nat, i: nat)
    requires size == perChunk * count + remainder && remainder < count && i < count
    ensures ChunkStart(perChunk, remainder, count) == size
    ensures ChunkStart(perChunk, remainder, i) + ChunkSize(perChunk, remainder, i) <= size
  {
    ChunkStartClosedForm(perChunk, remainder, count);
    ChunkStartClosedForm(perChunk, remainder, i + 1);
    MulMonotone(i + 1, count, perChunk);
  }

  /** ChunksCoverValue for scatter_data's own bytes_per_chunk and remainder. */
  lemma ChunkInside(size: nat, count: nat, i: nat)
    requires i < count
    ensures ChunkStart(size / count, size % count, count) == size
    ensures ChunkStart(size / count, size % count, i) + ChunkSize(size / count, size % count, i) <= size
  {
    DivMod(size, count);
    ChunksCoverValue(size, count, size / count, size % count, i);
  }

  /** Every chunk before chunk n ends where chunk n starts or earlier. */
  lemma {:induction false} ChunkWithin(perChunk: nat, remainder: nat, i: nat, n: nat)
    requires i < n
    ensures ChunkStart(perChunk, remainder, i) + ChunkSize(perChunk, remainder, i)
            <= ChunkStart(perChunk, remainder, n)
    decreases n
  {
    if i < n - 1 {
      ChunkWithin(perChunk, remainder, i, n - 1);
    }
  }

  lemma MulMonotone(a: nat, c: nat, b: nat)
    requires a <= c
    ensures a * b <= c * b && b * a <= b * c
  {
    assert c * b == a * b + (c - a) * b;
  }

  const BYTE_BITS: nat := 8

  /** A uint8_t. */
  type Byte = x: nat | x < 0x100

  /** `struct chunk_holder`: a heap buffer of `size` bytes and its key. */
  datatype ChunkHolder = ChunkHolder(data: seq<Byte>, size: nat, xorKey: Byte)

  /** Chunk k holds bytes ChunkStart(k) .. ChunkStart(k) + ChunkSize(k) of
      `value`, each XORed with the chunk's key. */
  ghost predicate ChunkHolds(perChunk: nat, remainder: nat, value: seq<Byte>, k: nat, c: ChunkHolder)
  {
    c.size == ChunkSize(perChunk, remainder, k) && |c.data| == c.size
    && ChunkStart(perChunk, remainder, k) + c.size <= |value|
    && forall j :: 0 <= j < c.size ==> c.data[j] == XorByte(value[ChunkStart(perChunk, remainder, k) + j], c.xorKey)
  }

  /** XORing a byte of a chunk with the chunk's key gives back the byte of
      the value it came from. */
  lemma ChunkByte(perChunk: nat, remainder: nat, value: seq<Byte>, k: nat, c: ChunkHolder, j: nat)
    requires ChunkHolds(perChunk, remainder, value, k, c) && j < c.size
    ensures XorByte(c.data[j], c.xorKey) == value[ChunkStart(perChunk, remainder, k) + j]
  {
    ByteWidth();
    XorInvolutive(BYTE_BITS, value[ChunkStart(perChunk, remainder, k) + j], c.xorKey);
  }

  /** `static_cast<uint8_t>(CW_RANDOM_RT())` */
  function KeyByte(draw: nat): Byte {
    ByteWidth();
    Truncate(BYTE_BITS, draw)
  }

  /** `b ^ k` on uint8_t. */
  function XorByte(b: Byte, k: Byte): Byte {
    ByteWidth();
    Xor(BYTE_BITS, b, k)
  }

  lemma ByteWidth()
    ensures Pow2(BYTE_BITS) == 0x100
  {
    assert Pow2(4) == 0x10;
  }

  class ScatteredValue {
    /** sizeof(T) and Chunks. */
    const size: nat
    const count: nat
    var chunks: array<ChunkHolder>
    /** The bytes of the value last scattered; they are stored nowhere. */
    ghost var plain: seq<Byte>

    /** bytes_per_chunk and remainder, which scatter_data derives from
        sizeof(T) and Chunks. */
    const perChunk: nat
    const remainder: nat

    /** The chunk sizes add up to sizeof(T). */
    ghost predicate Layout()
      reads this
    {
      Shape(size, count) && ChunkStart(perChunk, remainder, count) == size
    }

    ghost predicate Valid()
      reads this, chunks
    {
      Layout() && |plain| == size && chunks.Length == count
      && forall i :: 0 <= i < count ==> ChunkHolds(perChunk, remainder, plain, i, chunks[i])
    }

    /** scattered_value(): scatters the bytes of `T{}`, all zero. */
    constructor Default(size: nat, count: nat, keyDraws: seq<nat>)
      requires Shape(size, count) && |keyDraws| == count
      ensures Valid() && plain == seq(size, _ => 0)
      ensures perChunk == size / count && remainder == size % count
      ensures fresh(chunks)
    {
      this.size := size;
      this.count := count;
      perChunk := size / count;
      remainder := size % count;
      ChunkInside(size, count, 0);
      chunks := new ChunkHolder[count](_ => ChunkHolder([], 0, 0));
      new;
      ScatterData(seq(size, _ => 0), keyDraws);
    }

    /** scattered_value(value) */
    constructor (size: nat, count: nat, value: seq<Byte>, keyDraws: seq<nat>)
      requires Shape(size, count) && |value| == size && |keyDraws| == count
      ensures Valid() && plain == value
      ensures perChunk == size / count && remainder == size % count
      ensures fresh(chunks)
    {
      this.size := size;
      this.count := count;
      perChunk := size / count;
      remainder := size % count;
      ChunkInside(size, count, 0);
      chunks := new ChunkHolder[count](_ => ChunkHolder([], 0, 0));
      new;
      ScatterData(value, keyDraws);
    }

    /** scatter_data: chunk i gets a fresh buffer of its size, a key from
        its own draw, and its share of the bytes XORed with that key. */
    method ScatterData(value: seq<Byte>, keyDraws: seq<nat>)
      requires Layout() && |value| == size && |keyDraws| == count
      requires chunks.Length == count
      modifies this`plain, chunks
      ensures Valid() && plain == value
      ensures forall i :: 0 <= i < count ==> chunks[i].xorKey == KeyByte(keyDraws[i])
    {
      var byteIdx := 0;
      var i := 0;
      while i < count
        invariant 0 <= i <= count && byteIdx == ChunkStart(perChunk, remainder, i)
        invariant forall k :: 0 <= k < i ==>
          ChunkHolds(perChunk, remainder, value, k, chunks[k]) && chunks[k].xorKey == KeyByte(keyDraws[k])
      {
        ChunkWithin(perChunk, remainder, i, count);
        var key := KeyByte(keyDraws[i]);
        var chunkSize := ChunkSize(perChunk, remainder, i);
        var chunk;
        chunk, byteIdx := FillChunk(value, perChunk, remainder, i, byteIdx, chunkSize, key);
        chunks[i] := chunk;
        i := i + 1;
      }
      plain := value;
    }

    /** The body of scatter_data's outer loop for chunk i: a fresh zeroed
        buffer of `chunkSize` bytes receives the bytes from `byteIdx` on,
        XORed with `key`; byte_idx moves past them. */
    static method FillChunk(value: seq<Byte>, perChunk: nat, remainder: nat, i: nat,
                            byteIdx: nat, chunkSize: nat, key: Byte)
      returns (chunk: ChunkHolder, next: nat)
      requires byteIdx == ChunkStart(perChunk, remainder, i)
      requires chunkSize == ChunkSize(perChunk, remainder, i)
      requires byteIdx + chunkSize <= |value|
      ensures ChunkHolds(perChunk, remainder, value, i, chunk) && chunk.xorKey == key
      ensures next == ChunkStart(perChunk, remainder, i + 1)
    {
      var data := new Byte[chunkSize];
      next := byteIdx;
      var j := 0;
      while j < chunkSize && next < |value|
        invariant 0 <= j <= chunkSize && next == byteIdx + j
        invariant forall m :: 0 <= m < j ==> data[m] == XorByte(value[byteIdx + m], key)
      {
        data[j] := XorByte(value[next], key);
        j := j + 1;
        next := next + 1;
      }
      chunk := ChunkHolder(data[..], chunkSize, key);
    }

    /** get(): XORs every chunk's bytes with its key back into place, which
        gives the scattered value whatever the keys are. */
    method Get() returns (r: seq<Byte>)
      requires Valid()
      ensures r == plain
    {
      var result := new Byte[size];
      var byteIdx := 0;
      var i := 0;
      while i < count
        invariant 0 <= i <= count && byteIdx == ChunkStart(perChunk, remainder, i) <= size
        invariant forall k :: 0 <= k < byteIdx ==> result[k] == plain[k]
      {
        ChunkWithin(perChunk, remainder, i, count);
        var c := chunks[i];
        assert ChunkHolds(perChunk, remainder, plain, i, c);
        var j := 0;
        while j < c.size && byteIdx < size
          invariant 0 <= j <= c.size && byteIdx == ChunkStart(perChunk, remainder, i) + j <= size
          invariant forall k :: 0 <= k < byteIdx ==> result[k] == plain[k]
        {
          ChunkByte(perChunk, remainder, plain, i, c, j);
          result[byteIdx] := XorByte(c.data[j], c.xorKey);
          j := j + 1;
          byteIdx := byteIdx + 1;
        }
        i := i + 1;
      }
      r := result[..];
    }

    /** set(value) */
    method Set(value: seq<Byte>, keyDraws: seq<nat>)
      requires Valid() && |value| == size && |keyDraws| == count
      modifies this`plain, chunks
      ensures Valid() && plain == value
    {
      ScatterData(value, keyDraws);
    }
  }

  // -----------------------------------------------------------------------
  // polymorphic_value<T> for integral T
  // -----------------------------------------------------------------------

  const COUNTER_BITS: nat := 32
  /** mutate() transforms on every MUTATION_PERIOD-th access. */
  const MUTATION_PERIOD: nat := 100

  /** The widths of the integral types polymorphic_value is used with; the
      value is held as its w-bit two's-complement pattern. */
  predicate IntegralWidth(w: nat) {
    w == 8 || w == 16 || w == 32 || w == 64
  }

  /** The four transforms of mutate() as the source writes them. Transform 0
      complements twice for 8- and 4-byte types, keeps `temp` for 1-byte
      types and complements only once for 2-byte types. Transform 1 rotates
      left and back right for unsigned types; transform 2 adds and
      subtracts `static_cast<T>(mutation_count)`; transform 3 does nothing. */
  function TransformAsWritten(w: nat, isUnsigned: bool, x: nat, count: nat, transform: nat): (r: nat)
    requires IntegralWidth(w) && Fits(w, x)
    ensures Fits(w, r)
    ensures w == 16 && transform == 0 ==> r == Not(w, x)
    ensures w != 16 || transform != 0 ==> r == x
  {
    if transform == 0 then
      if w == 16 then Not(w, x) else TransformIntended(w, isUnsigned, x, count, transform)
    else TransformIntended(w, isUnsigned, x, count, transform)
  }

  /** The same transforms with the 2-byte case complementing twice as the
      4- and 8-byte cases do: every one of them is the identity. */
  function TransformIntended(w: nat, isUnsigned: bool, x: nat, count: nat, transform: nat): (r: nat)
    requires IntegralWidth(w) && Fits(w, x)
    ensures r == x
  {
    if transform == 0 then
      if w == 8 then x
      else
        NotNot(w, x);
        Not(w, Not(w, x))
    else if transform == 1 then
      if isUnsigned then
        RotateOneRoundTrip(w, x);
        Rotr1(w, Rotl1(w, x))
      else x
    else if transform == 2 then
      var key := count % Pow2(w);
      AddSubRoundTrip(w, x, key);
      Sub(w, Add(w, x, key), key)
    else x
  }

  /** As written, transform 0 on a 2-byte value stores `0xFFFF - x`, which
      differs from x for every x: each time it is drawn it corrupts the
      value. */
  lemma AsWrittenCorruptsShort(isUnsigned: bool, x: nat, count: nat)
    requires Fits(16, x)
    ensures TransformAsWritten(16, isUnsigned, x, count, 0) == 0xFFFF - x
    ensures TransformAsWritten(16, isUnsigned, x, count, 0) != x
  {
    Pow2Values();
    NotValue(16, x);
  }

  /** `++mutation_count` on a uint32_t. */
  function NextCount(count: nat): (r: nat)
    ensures Fits(COUNTER_BITS, r)
  {
    (count + 1) % Pow2(COUNTER_BITS)
  }

  /** What mutate() leaves of a w-bit value x once the counter has become
      `count` and the transform draw was `draw`: the complement when a
      2-byte value reaches a multiple of MUTATION_PERIOD with transform 0,
      x itself otherwise. */
  function Mutated(w: nat, x: nat, count: nat, draw: nat): nat
  {
    if w == 16 && count % MUTATION_PERIOD == 0 && draw % 4 == 0 then Not(16, x) else x
  }

  /** A 2-byte polymorphic_value whose counter has reached a multiple of
      MUTATION_PERIOD and whose draw picks transform 0 no longer holds the
      value it held, and 1-, 4- and 8-byte ones always do. */
  lemma MutatedChangesOnlyShort(w: nat, x: nat, count: nat, draw: nat)
    requires IntegralWidth(w) && Fits(w, x)
    ensures Mutated(w, x, count, draw) != x
            <==> w == 16 && count % MUTATION_PERIOD == 0 && draw % 4 == 0
  {
    if w == 16 {
      Pow2Values();
      NotValue(16, x);
    }
  }

  class PolymorphicValue {
    /** 8 * sizeof(T), and whether T is unsigned. */
    const width: nat
    const isUnsigned: bool
    var value: nat
    var mutationCount: nat

    ghost predicate Valid()
      reads this
    {
      IntegralWidth(width) && Fits(width, value) && Fits(COUNTER_BITS, mutationCount)
    }

    /** polymorphic_value(): value{} */
    constructor Default(width: nat, isUnsigned: bool)
      requires IntegralWidth(width)
      ensures Valid() && value == 0 && mutationCount == 0
      ensures this.width == width && this.isUnsigned == isUnsigned
    {
      this.width := width;
      this.isUnsigned := isUnsigned;
      value := 0;
      mutationCount := 0;
    }

    /** polymorphic_value(val) */
    constructor (width: nat, isUnsigned: bool, val: nat)
      requires IntegralWidth(width) && Fits(width, val)
      ensures Valid() && value == val && mutationCount == 0
      ensures this.width == width && this.isUnsigned == isUnsigned
    {
      this.width := width;
      this.isUnsigned := isUnsigned;
      value := val;
      mutationCount := 0;
    }

    /** mutate(): bump the 32-bit counter and, on every hundredth bump, run
        the transform `CW_RANDOM_RT() % 4` picks. Every transform keeps the
        value except transform 0 on a 2-byte type, which complements it. */
    method Mutate(draw: nat)
      requires Valid()
      modifies this
      ensures Valid()
      ensures mutationCount == NextCount(old(mutationCount))
      ensures value == Mutated(width, old(value), mutationCount, draw)
    {
      mutationCount := NextCount(mutationCount);
      if mutationCount % MUTATION_PERIOD == 0 {
        var transform := draw % 4;
        value := TransformAsWritten(width, isUnsigned, value, mutationCount, transform);
      }
    }

    /** get(): mutate, then return the value mutate() left. */
    method Get(draw: nat) returns (r: nat)
      requires Valid()
      modifies this
      ensures Valid() && r == value
      ensures value == Mutated(width, old(value), mutationCount, draw)
      ensures mutationCount == NextCount(old(mutationCount))
    {
      Mutate(draw);
      r := value;
    }

    /** set(val): store, then mutate. */
    method Set(val: nat, draw: nat)
      requires Valid() && Fits(width, val)
      modifies this
      ensures Valid() && value == Mutated(width, val, mutationCount, draw)
      ensures mutationCount == NextCount(old(mutationCount))
    {
      value := val;
      Mutate(draw);
    }
  }
}
