/** `cloakwork::string_encrypt`: strings encrypted byte by byte when they are
    constructed and decrypted in place on first access. A string of N bytes
    includes its terminating NUL. The template's compile-time keys are
    parameters of the constructors. */
module StringEncrypt {

  /** `static_cast<char>(i)` of a size_t index: its low byte. */
  function LowByte(i: nat): bv8 { (i % 256) as bv8 }

  // ---------------------------------------------------------------------
  // encrypted_string
  // ---------------------------------------------------------------------

  /** k1 ^ k2 ^ k3 of encrypt_char: a key byte that depends only on the
      position i (and the two compile-time keys), never on the text. */
  function PositionKey(i: nat, key1: bv8, key2: bv8): bv8 {
    MixKeys(key1, key2, LowByte(i), LowByte(i * 3), LowByte(i * i))
  }

  /** The key byte from the low bytes of i, 3i and i*i. */
  function MixKeys(key1: bv8, key2: bv8, b1: bv8, b3: bv8, sq: bv8): bv8 {
    var k1 := key1 + b1;
    var k2 := key2 - b3;
    var k3 := sq ^ 0x5A;
    k1 ^ k2 ^ k3
  }

  /** The key stream repeats every 256 positions: bytes 256 apart are
      XORed with the same key byte, because every term of the key is taken
      modulo 256. */
  lemma PositionKeyPeriodic(i: nat, key1: bv8, key2: bv8)
    ensures PositionKey(i + 256, key1, key2) == PositionKey(i, key1, key2)
  {
    LowBytesShift(i);
  }

  /** i, 3i and i*i each keep their low byte when i grows by 256. */
  lemma LowBytesShift(i: nat)
    ensures LowByte(i + 256) == LowByte(i)
    ensures LowByte((i + 256) * 3) == LowByte(i * 3)
    ensures LowByte((i + 256) * (i + 256)) == LowByte(i * i)
  {
    ShiftedMod(i, 1);
    var t := i * 3;
    assert (i + 256) * 3 == t + 256 * 3;
    ShiftedMod(t, 3);
    var sq, m := i * i, 2 * i + 256;
    SquareShift(i);
    ShiftedMod(sq, m);
  }

  lemma SquareShift(i: nat)
    ensures (i + 256) * (i + 256) == i * i + 256 * (2 * i + 256)
  {
  }

  lemma {:induction false} ShiftedMod(x: nat, m: nat)
    ensures (x + 256 * m) % 256 == x % 256
  {
    if m > 0 {
      ShiftedMod(x, m - 1);
      assert x + 256 * m == (x + 256 * (m - 1)) + 256;
    }
  }

  /** encrypt_char(c, i). */
  function EncryptChar(c: bv8, i: nat, key1: bv8, key2: bv8): (e: bv8)
    ensures e ^ PositionKey(i, key1, key2) == c
  {
    c ^ PositionKey(i, key1, key2)
  }

  /** The ciphertext the constructor stores for `s`. */
  function Encrypted(s: seq<bv8>, key1: bv8, key2: bv8): (e: seq<bv8>)
    ensures |e| == |s|
  {
    seq(|s|, i requires 0 <= i < |s| => EncryptChar(s[i], i, key1, key2))
  }

  /** Encryption is its own inverse: decrypting applies the same XOR again. */
  lemma {:induction false} EncryptedInvolutive(s: seq<bv8>, key1: bv8, key2: bv8)
    ensures Encrypted(Encrypted(s, key1, key2), key1, key2) == s
  {
    var e := Encrypted(s, key1, key2);
    var d := Encrypted(e, key1, key2);
    forall i | 0 <= i < |s|
      ensures d[i] == s[i]
    {
      assert e[i] == s[i] ^ PositionKey(i, key1, key2);
    }
  }

  /** encrypted_string<N, Key1, Key2>: `data` holds either the plaintext or
      its ciphertext, as the `decrypted` flag says. */
  class EncryptedString {
    const key1: bv8
    const key2: bv8
    const data: array<bv8>
    var decrypted: bool
    ghost const plaintext: seq<bv8>

    ghost predicate Valid()
      reads this, data
    {
      && data.Length == |plaintext|
      && data[..] == if decrypted then plaintext else Encrypted(plaintext, key1, key2)
    }

    /** The constexpr constructor: data{encrypt_char(str[I], I)...}. */
    constructor (str: seq<bv8>, key1: bv8, key2: bv8)
      ensures Valid() && fresh(data) && plaintext == str && !decrypted
      ensures data[..] == Encrypted(str, key1, key2)
    {
      this.key1, this.key2 := key1, key2;
      plaintext := str;
      data := new bv8[|str|](i requires 0 <= i < |str| => EncryptChar(str[i], i, key1, key2));
      decrypted := false;
    }

    /** decrypt_impl: XORs every byte with its key byte, once. */
    method DecryptImpl()
      requires Valid()
      modifies this, data
      ensures Valid() && decrypted && data[..] == plaintext
      ensures old(decrypted) ==> data[..] == old(data[..])
    {
      if !decrypted {
        ghost var cipher := data[..];
        var i := 0;
        while i < data.Length
          invariant 0 <= i <= data.Length
          invariant forall k :: 0 <= k < i ==> data[k] == plaintext[k]
          invariant forall k :: i <= k < data.Length ==> data[k] == cipher[k]
        {
          var key := PositionKey(i, key1, key2);
          assert cipher[i] == EncryptChar(plaintext[i], i, key1, key2);
          data[i] := data[i] ^ key;
          i := i + 1;
        }
        decrypted := true;
      }
    }

    /** encrypt_impl, which the destructor runs: restores the ciphertext. */
    method EncryptImpl()
      requires Valid()
      modifies this, data
      ensures Valid() && !decrypted && data[..] == Encrypted(plaintext, key1, key2)
      ensures !old(decrypted) ==> data[..] == old(data[..])
    {
      if decrypted {
        ghost var cipher := Encrypted(plaintext, key1, key2);
        var i := 0;
        while i < data.Length
          invariant 0 <= i <= data.Length
          invariant forall k :: 0 <= k < i ==> data[k] == cipher[k]
          invariant forall k :: i <= k < data.Length ==> data[k] == plaintext[k]
        {
          var key := PositionKey(i, key1, key2);
          assert cipher[i] == plaintext[i] ^ key;
          data[i] := data[i] ^ key;
          i := i + 1;
        }
        decrypted := false;
      }
    }

    /** get(): decrypts on first use and exposes all N bytes. */
    method Get() returns (s: seq<bv8>)
      requires Valid()
      modifies this, data
      ensures Valid() && decrypted && s == plaintext && |s| == data.Length
      ensures old(decrypted) ==> data[..] == old(data[..])
    {
      DecryptImpl();
      s := data[..];
    }
  }

  // ---------------------------------------------------------------------
  // layered_encrypted_string
  // ---------------------------------------------------------------------

  /** The rotation of layer 2 at position i: 1 to 7 bits. */
  function RotationAt(i: nat): (n: nat)
    ensures 1 <= n <= 7
  {
    (i % 7) + 1
  }

  /** The key byte of layer 3 at position i: (i*i + i) ^ Layer3Key. */
  function Layer3At(i: nat, layer3: bv8): bv8 {
    LowByte(i * i + i) ^ layer3
  }

  /** std::rotl on a byte. */
  function Rotl(b: bv8, n: nat): bv8
    requires 1 <= n <= 7
  {
    b.RotateLeft(n)
  }

  /** std::rotr on a byte. */
  function Rotr(b: bv8, n: nat): bv8
    requires 1 <= n <= 7
  {
    b.RotateRight(n)
  }

  /** The three layers with their key bytes already chosen: XOR with k1,
      rotate left by n, XOR with k2, XOR with k3. */
  function EncryptLayers(c: bv8, k1: bv8, n: nat, k2: bv8, k3: bv8): bv8
    requires 1 <= n <= 7
  {
    (Rotl(c ^ k1, n) ^ k2) ^ k3
  }

  /** The layers undone in reverse order. */
  function DecryptLayers(c: bv8, k1: bv8, n: nat, k2: bv8, k3: bv8): bv8
    requires 1 <= n <= 7
  {
    Rotr((c ^ k3) ^ k2, n) ^ k1
  }

  /** encrypt_multilayer(c, i): layer 1 XORs with Layer1Key + i, layer 2
      rotates by (i % 7) + 1 and XORs with Layer2Key, layer 3 XORs with
      (i*i + i) ^ Layer3Key, all on bytes;
      decrypt_impl's loop body at the same position gives c back, whatever
      the three layer keys are. */
  function EncryptMultilayer(c: bv8, i: nat, layer1: bv8, layer2: bv8, layer3: bv8): (e: bv8)
    ensures DecryptMultilayer(e, i, layer1, layer2, layer3) == c
  {
    DecryptEncryptLayers(c, layer1 + LowByte(i), RotationAt(i), layer2, Layer3At(i, layer3));
    EncryptLayers(c, layer1 + LowByte(i), RotationAt(i), layer2, Layer3At(i, layer3))
  }

  /** The body of decrypt_impl's loop for position i: applying the three
      layers of position i to its result gives c back, so every byte is the
      encryption of exactly one byte. */
  function DecryptMultilayer(c: bv8, i: nat, layer1: bv8, layer2: bv8, layer3: bv8): (d: bv8)
    ensures EncryptLayers(d, layer1 + LowByte(i), RotationAt(i), layer2, Layer3At(i, layer3)) == c
  {
    EncryptDecryptLayers(c, layer1 + LowByte(i), RotationAt(i), layer2, Layer3At(i, layer3));
    DecryptLayers(c, layer1 + LowByte(i), RotationAt(i), layer2, Layer3At(i, layer3))
  }

  lemma RotlRotr(b: bv8, n: nat)
    requires 1 <= n <= 7
    ensures Rotr(Rotl(b, n), n) == b
  {
  }

  lemma RotrRotl(b: bv8, n: nat)
    requires 1 <= n <= 7
    ensures Rotl(Rotr(b, n), n) == b
  {
  }

  lemma XorTwice(a: bv8, k: bv8)
    ensures (a ^ k) ^ k == a
  {
  }

  /** Undoing the layers inverts applying them, for every choice of keys. */
  lemma DecryptEncryptLayers(c: bv8, k1: bv8, n: nat, k2: bv8, k3: bv8)
    requires 1 <= n <= 7
    ensures DecryptLayers(EncryptLayers(c, k1, n, k2, k3), k1, n, k2, k3) == c
  {
    var t1 := c ^ k1;
    var t2 := Rotl(t1, n);
    XorTwice(t2 ^ k2, k3);
    XorTwice(t2, k2);
    RotlRotr(t1, n);
    XorTwice(c, k1);
  }

  /** Applying the layers inverts undoing them, for every choice of keys. */
  lemma EncryptDecryptLayers(c: bv8, k1: bv8, n: nat, k2: bv8, k3: bv8)
    requires 1 <= n <= 7
    ensures EncryptLayers(DecryptLayers(c, k1, n, k2, k3), k1, n, k2, k3) == c
  {
    UndoFirstLayer(c, k1, n, k2, k3);
    XorTwice(c ^ k3, k2);
    XorTwice(c, k3);
  }

  lemma UndoFirstLayer(c: bv8, k1: bv8, n: nat, k2: bv8, k3: bv8)
    requires 1 <= n <= 7
    ensures Rotl(DecryptLayers(c, k1, n, k2, k3) ^ k1, n) == (c ^ k3) ^ k2
  {
    var t1 := Rotr((c ^ k3) ^ k2, n);
    XorTwice(t1, k1);
    RotrRotl((c ^ k3) ^ k2, n);
  }

  function Layered(s: seq<bv8>, layer1: bv8, layer2: bv8, layer3: bv8): (e: seq<bv8>)
    ensures |e| == |s|
  {
    seq(|s|, i requires 0 <= i < |s| => EncryptMultilayer(s[i], i, layer1, layer2, layer3))
  }

  /** Width of the 32-bit access counter behind morph(). */
  const COUNTER_LIMIT: nat := 0x1_0000_0000

  /** layered_encrypted_string<N, Layer1Key, Layer2Key, Layer3Key>. */
  class LayeredEncryptedString {
    const layer1: bv8
    const layer2: bv8
    const layer3: bv8
    const data: array<bv8>
    var decrypted: bool
    var accessCount: nat
    ghost const plaintext: seq<bv8>

    ghost predicate Valid()
      reads this, data
    {
      && data.Length == |plaintext|
      && accessCount < COUNTER_LIMIT
      && data[..] == if decrypted then plaintext else Layered(plaintext, layer1, layer2, layer3)
    }

    constructor (str: seq<bv8>, layer1: bv8, layer2: bv8, layer3: bv8)
      ensures Valid() && fresh(data) && plaintext == str && !decrypted && accessCount == 0
      ensures data[..] == Layered(str, layer1, layer2, layer3)
    {
      this.layer1, this.layer2, this.layer3 := layer1, layer2, layer3;
      plaintext := str;
      data := new bv8[|str|](i requires 0 <= i < |str| => EncryptMultilayer(str[i], i, layer1, layer2, layer3));
      decrypted := false;
      accessCount := 0;
    }

    method DecryptImpl()
      requires Valid()
      modifies this`decrypted, data
      ensures Valid() && decrypted && data[..] == plaintext
      ensures old(decrypted) ==> data[..] == old(data[..])
    {
      if !decrypted {
        var i := 0;
        while i < data.Length
          invariant 0 <= i <= data.Length
          invariant forall k :: 0 <= k < i ==> data[k] == plaintext[k]
          invariant forall k :: i <= k < data.Length ==> data[k] == EncryptMultilayer(plaintext[k], k, layer1, layer2, layer3)
        {
          assert data[i] == EncryptMultilayer(plaintext[i], i, layer1, layer2, layer3);
          data[i] := DecryptMultilayer(data[i], i, layer1, layer2, layer3);
          i := i + 1;
        }
        decrypted := true;
      }
    }

    method EncryptImpl()
      requires Valid()
      modifies this`decrypted, data
      ensures Valid() && !decrypted && data[..] == Layered(plaintext, layer1, layer2, layer3)
      ensures !old(decrypted) ==> data[..] == old(data[..])
    {
      if decrypted {
        var i := 0;
        while i < data.Length
          invariant 0 <= i <= data.Length
          invariant forall k :: 0 <= k < i ==> data[k] == EncryptMultilayer(plaintext[k], k, layer1, layer2, layer3)
          invariant forall k :: i <= k < data.Length ==> data[k] == plaintext[k]
        {
          data[i] := EncryptMultilayer(data[i], i, layer1, layer2, layer3);
          i := i + 1;
        }
        decrypted := false;
      }
    }

    /** morph(): on every tenth access while decrypted, re-encrypts and
        decrypts again; the visible bytes never change. */
    method Morph()
      requires Valid()
      modifies this`decrypted, this`accessCount, data
      ensures Valid() && decrypted == old(decrypted) && data[..] == old(data[..])
      ensures accessCount == (old(accessCount) + 1) % COUNTER_LIMIT
    {
      var count := accessCount;
      accessCount := (accessCount + 1) % COUNTER_LIMIT;
      if count % 10 == 0 && decrypted {
        EncryptImpl();
        DecryptImpl();
      }
    }

    /** get(): decrypt, morph, expose all N bytes. */
    method Get() returns (s: seq<bv8>)
      requires Valid()
      modifies this`decrypted, this`accessCount, data
      ensures Valid() && decrypted && s == plaintext
      ensures accessCount == (old(accessCount) + 1) % COUNTER_LIMIT
    {
      DecryptImpl();
      Morph();
      s := data[..];
    }
  }
}
