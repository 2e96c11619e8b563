/** `cloakwork::detail::fnv1a_hash`: 32-bit FNV-1a over the characters of a
    string literal, the terminating NUL excluded. */
module Detail {
  import opened Word

  const FNV_PRIME: nat := 0x0100_0193
  const FNV_BASIS: nat := 0x811C_9DC5

  /** `static_cast<uint32_t>(c)` for a `char` c on a target where `char` is
      signed (the default of the compilers cloakwork targets): a byte of
      0x80 or more is negative and sign-extends. */
  function CharToU32(c: bv8): (u: nat)
    ensures Fits(32, u)
    ensures c < 0x80 ==> u == c as nat
    ensures c >= 0x80 ==> u == c as nat + 0xFFFF_FF00
  {
    Pow2Values();
    if c < 0x80 then c as nat else c as nat + 0xFFFF_FF00
  }

  /** The hash of `s` from `basis`: one `hash ^= c; hash *= FNV_PRIME` per
      character, in order. */
  function Fnv1a(s: seq<bv8>, basis: nat): (h: nat)
    requires Fits(32, basis)
    ensures Fits(32, h)
    decreases |s|
  {
    if |s| == 0 then basis
    else
      Pow2Values();
      Mul(32, Xor(32, Fnv1a(s[..|s| - 1], basis), CharToU32(s[|s| - 1])), FNV_PRIME)
  }

  /** fnv1a_hash(str, basis) for `const char (&str)[N]`: hashes the first
      N - 1 characters, leaving out the terminator. */
  method Fnv1aHash(str: seq<bv8>, basis: nat) returns (hash: nat)
    requires |str| >= 1 && Fits(32, basis)
    ensures hash == Fnv1a(str[..|str| - 1], basis)
  {
    hash := basis;
    var i := 0;
    while i < |str| - 1
      invariant 0 <= i <= |str| - 1
      invariant hash == Fnv1a(str[..i], basis)
    {
      assert str[..i + 1][..i] == str[..i];
      hash := Xor(32, hash, CharToU32(str[i]));
      hash := Mul(32, hash, FNV_PRIME);
      i := i + 1;
    }
  }

  /** Hashing in two pieces, the second started from the first's hash,
      is hashing the whole. */
  lemma {:induction false} Fnv1aAppend(s: seq<bv8>, t: seq<bv8>, basis: nat)
    requires Fits(32, basis)
    ensures Fnv1a(s + t, basis) == Fnv1a(t, Fnv1a(s, basis))
    decreases |t|
  {
    if |t| == 0 {
      assert s + t == s;
    } else {
      var t' := t[..|t| - 1];
      Fnv1aAppend(s, t', basis);
      assert (s + t)[..|s + t| - 1] == s + t';
      assert (s + t)[|s + t| - 1] == t[|t| - 1];
    }
  }

  /** A literal holding only its terminator hashes to the basis, whatever
      its last byte is. */
  lemma TerminatorOnly(str: seq<bv8>, basis: nat)
    requires |str| == 1 && Fits(32, basis)
    ensures Fnv1a(str[..|str| - 1], basis) == basis
  {
    assert str[..0] == [];
  }
}
