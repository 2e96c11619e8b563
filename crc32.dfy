/** `cloakwork::anti_debug::compute_crc32`: the reflected CRC-32 of a byte
    buffer, computed one bit at a time with the branch-free mask
    `0 - (crc & 1)` choosing whether the polynomial is XORed in. Registers
    are 32-bit words of the Word module. */
module AntiDebug {
  import opened Word

  /** The reflected CRC-32 polynomial. */
  const POLY: nat := 0xEDB8_8320

  /** Bit steps per byte. */
  const BYTE_BITS: nat := 8

  /** The register's initial value and the final complement's mask. */
  const ALL_ONES: nat := 0xFFFF_FFFF

  /** One bit step as the source writes it:
      `(crc >> 1) ^ (0xEDB88320 & (0 - (crc & 1)))`. */
  function Step(c: nat): (r: nat)
    ensures Fits(32, r)
  {
    Xor(32, Shr(c, 1), And(32, POLY, Sub(32, 0, And(32, c, 1))))
  }

  /** One bit step as section 8 of RFC 1952 writes it in make_crc_table:
      `if (c & 1) c = 0xedb88320L ^ (c >> 1); else c = c >> 1;`. */
  function StepReference(c: nat): nat {
    if c % 2 == 1 then Xor(32, POLY, Shr(c, 1)) else Shr(c, 1)
  }

  /** The mask is all ones exactly when the low bit is set and zero
      otherwise, so the branch-free step is the conditional one. */
  lemma StepMatchesReference(c: nat)
    requires Fits(32, c)
    ensures Step(c) == StepReference(c)
  {
    Pow2Values();
    AndOne(32, c);
    assert Fits(32, Shr(c, 1));
    if c % 2 == 1 {
      assert Sub(32, 0, 1) == Pow2(32) - 1;
      AndAllOnes(32, POLY);
      XorComm(32, Shr(c, 1), POLY);
    } else {
      AndZeroRight(32, POLY);
      XorZero(32, Shr(c, 1));
    }
  }

  /** k bit steps of the source. */
  function Steps(c: nat, k: nat): (r: nat)
    requires Fits(32, c)
    ensures Fits(32, r)
    decreases k
  {
    if k == 0 then c else Steps(Step(c), k - 1)
  }

  /** k conditional steps of the reference. */
  function StepsReference(c: nat, k: nat): nat
    decreases k
  {
    if k == 0 then c else StepsReference(StepReference(c), k - 1)
  }

  /** The source's register after `data`: ALL_ONES, then for each byte
      `crc ^= byte` and eight bit steps. */
  function Register(data: seq<bv8>): (r: nat)
    ensures Fits(32, r)
    decreases |data|
  {
    if |data| == 0 then
      Pow2Values();
      ALL_ONES
    else
      Steps(Xor(32, Register(data[..|data| - 1]), data[|data| - 1] as nat), BYTE_BITS)
  }

  /** The same register with the reference's steps. */
  function RegisterReference(data: seq<bv8>): nat
    decreases |data|
  {
    if |data| == 0 then ALL_ONES
    else StepsReference(Xor(32, RegisterReference(data[..|data| - 1]), data[|data| - 1] as nat), BYTE_BITS)
  }

  /** The CRC-32 of section 8 of RFC 1952 (crc(buf, len), which starts
      update_crc from 0 and so its register from ALL_ONES), with each table
      entry computed by its eight conditional steps. */
  function Crc32Reference(data: seq<bv8>): nat {
    Not(32, RegisterReference(data))
  }

  /** compute_crc32(data, length). */
  method ComputeCrc32(data: seq<bv8>) returns (crc: nat)
    ensures crc == Crc32Reference(data)
  {
    crc := ALL_ONES;
    var i := 0;
    while i < |data|
      invariant 0 <= i <= |data|
      invariant crc == Register(data[..i])
    {
      crc := Xor(32, crc, data[i] as nat);
      ghost var start := crc;
      var j := 0;
      while j < BYTE_BITS
        invariant 0 <= j <= BYTE_BITS && Fits(32, crc)
        invariant Steps(start, BYTE_BITS) == Steps(crc, BYTE_BITS - j)
      {
        StepsUnfold(crc, BYTE_BITS - j);
        crc := Xor(32, Shr(crc, 1), And(32, POLY, Sub(32, 0, And(32, crc, 1))));
        j := j + 1;
      }
      RegisterSnoc(data, i);
      i := i + 1;
    }
    assert data[..i] == data;
    crc := Not(32, crc);
    RegisterMatchesReference(data);
  }

  lemma StepsUnfold(c: nat, k: nat)
    requires Fits(32, c) && k > 0
    ensures Steps(c, k) == Steps(Xor(32, Shr(c, 1), And(32, POLY, Sub(32, 0, And(32, c, 1)))), k - 1)
  {
  }

  lemma RegisterSnoc(data: seq<bv8>, i: nat)
    requires i < |data|
    ensures Register(data[..i + 1]) == Steps(Xor(32, Register(data[..i]), data[i] as nat), BYTE_BITS)
  {
    assert data[..i + 1][..i] == data[..i];
  }

  /** The CRC of the empty buffer is 0. */
  lemma EmptyCrc()
    ensures Crc32Reference([]) == 0
  {
    Pow2Values();
    NotValue(32, ALL_ONES);
  }

  lemma {:induction false} StepsMatchReference(c: nat, k: nat)
    requires Fits(32, c)
    ensures Steps(c, k) == StepsReference(c, k)
    decreases k
  {
    if k > 0 {
      StepMatchesReference(c);
      StepsMatchReference(Step(c), k - 1);
    }
  }

  /** The source's mask-driven register equals the reference's after every
      prefix of the buffer. */
  lemma {:induction false} RegisterMatchesReference(data: seq<bv8>)
    ensures Register(data) == RegisterReference(data)
    decreases |data|
  {
    if |data| > 0 {
      var prefix := data[..|data| - 1];
      RegisterMatchesReference(prefix);
      StepsMatchReference(Xor(32, Register(prefix), data[|data| - 1] as nat), BYTE_BITS);
    }
  }
}
