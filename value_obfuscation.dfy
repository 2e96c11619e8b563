/** `cloakwork::obfuscated_value` (integral path) and
    `cloakwork::mba_obfuscated`: a w-bit integer stored as
    `add_mba(v, addKey) ^ xorKey` and recovered with
    `sub_mba(stored ^ xorKey, addKey)`. The keys are runtime random draws,
    taken here as parameters and truncated to the value's width as
    `static_cast<T>` does. */
module ValueObfuscation {
  import opened Word
  import opened Mba

  /** Width of the 32-bit access counter of obfuscated_value. */
  const COUNTER_BITS: nat := 32

  /** The stored form of `v`: what `set(v)` writes. */
  function Encode(w: nat, v: nat, addKey: nat, xorKey: nat): (e: nat)
    requires Fits(w, v) && Fits(w, addKey)
    ensures Fits(w, e)
  {
    Xor(w, AddMba(w, v, addKey), xorKey)
  }

  /** The value `get()` computes from the stored form `e`. */
  function Decode(w: nat, e: nat, addKey: nat, xorKey: nat): (v: nat)
    requires Fits(w, e) && Fits(w, addKey)
    ensures Fits(w, v)
  {
    SubMba(w, Xor(w, e, xorKey), addKey)
  }

  /** get() after set(v) yields v, whatever the two keys are. */
  lemma {:induction false} DecodeEncode(w: nat, v: nat, addKey: nat, xorKey: nat)
    requires Fits(w, v) && Fits(w, addKey)
    ensures Decode(w, Encode(w, v, addKey, xorKey), addKey, xorKey) == v
  {
    var s := AddMba(w, v, addKey);
    XorInvolutive(w, s, xorKey);
    AddSubRoundTrip(w, v, addKey);
  }

  /** Every stored word is the encoding of the value it decodes to, so the
      encoding is a bijection on w-bit words for every key pair. */
  lemma {:induction false} EncodeDecode(w: nat, e: nat, addKey: nat, xorKey: nat)
    requires Fits(w, e) && Fits(w, addKey)
    ensures Encode(w, Decode(w, e, addKey, xorKey), addKey, xorKey) == e
  {
    var t := Xor(w, e, xorKey);
    SubAddRoundTrip(w, t, addKey);
    XorInvolutive(w, e, xorKey);
  }

  /** obfuscated_value<T> for an integral T of `width` bits. */
  class ObfuscatedValue {
    const width: nat
    const xorKey: nat
    const addKey: nat
    var value: nat
    var accessCount: nat
    /** The value last given to the constructor or to set(). */
    ghost var plain: nat

    ghost predicate Valid()
      reads this
    {
      && Fits(width, xorKey) && Fits(width, addKey) && Fits(width, plain)
      && Fits(COUNTER_BITS, accessCount)
      && value == Encode(width, plain, addKey, xorKey)
    }

    /** obfuscated_value(val): draws xor_key, then add_key, then set(val). */
    constructor (width: nat, val: nat, xorDraw: nat, addDraw: nat)
      requires Fits(width, val)
      ensures Valid() && this.width == width && plain == val && accessCount == 0
      ensures xorKey == Truncate(width, xorDraw) && addKey == Truncate(width, addDraw)
    {
      this.width := width;
      xorKey := Truncate(width, xorDraw);
      addKey := Truncate(width, addDraw);
      accessCount := 0;
      value := 0;
      plain := 0;
      new;
      Set(val);
    }

    /** obfuscated_value(): as above with val == 0. */
    constructor Default(width: nat, xorDraw: nat, addDraw: nat)
      ensures Valid() && this.width == width && plain == 0 && accessCount == 0
      ensures xorKey == Truncate(width, xorDraw) && addKey == Truncate(width, addDraw)
    {
      this.width := width;
      xorKey := Truncate(width, xorDraw);
      addKey := Truncate(width, addDraw);
      accessCount := 0;
      value := 0;
      plain := 0;
      new;
      Set(0);
    }

    method Set(val: nat)
      requires Fits(width, val) && Fits(width, xorKey) && Fits(width, addKey)
      requires Fits(COUNTER_BITS, accessCount)
      modifies this`value, this`plain
      ensures Valid() && plain == val
    {
      var temp := AddMba(width, val, addKey);
      value := Xor(width, temp, xorKey);
      plain := val;
    }

    /** get(): bumps the 32-bit access counter (the inline anti-debug check
        every 1000th access is a no-op here) and decodes. */
    method Get() returns (v: nat)
      requires Valid()
      modifies this`accessCount
      ensures Valid() && v == plain
      ensures accessCount == Add(COUNTER_BITS, old(accessCount), 1)
    {
      accessCount := Add(COUNTER_BITS, accessCount, 1);
      var temp := Xor(width, value, xorKey);
      v := SubMba(width, temp, addKey);
      DecodeEncode(width, plain, addKey, xorKey);
    }
  }

  /** mba_obfuscated<T> for an integral T of `width` bits. */
  class MbaObfuscated {
    const width: nat
    const key1: nat
    const key2: nat
    var encoded: nat
    /** The value last given to the constructor or to set(). */
    ghost var plain: nat

    ghost predicate Valid()
      reads this
    {
      && Fits(width, key1) && Fits(width, key2) && Fits(width, plain)
      && encoded == Encode(width, plain, key1, key2)
    }

    /** mba_obfuscated(val): draws key1, then key2, then set(val). */
    constructor (width: nat, val: nat, draw1: nat, draw2: nat)
      requires Fits(width, val)
      ensures Valid() && this.width == width && plain == val
      ensures key1 == Truncate(width, draw1) && key2 == Truncate(width, draw2)
    {
      this.width := width;
      key1 := Truncate(width, draw1);
      key2 := Truncate(width, draw2);
      encoded := 0;
      plain := 0;
      new;
      Set(val);
    }

    /** mba_obfuscated(): as above with val == 0. */
    constructor Default(width: nat, draw1: nat, draw2: nat)
      ensures Valid() && this.width == width && plain == 0
      ensures key1 == Truncate(width, draw1) && key2 == Truncate(width, draw2)
    {
      this.width := width;
      key1 := Truncate(width, draw1);
      key2 := Truncate(width, draw2);
      encoded := 0;
      plain := 0;
      new;
      Set(0);
    }

    method Set(val: nat)
      requires Fits(width, val) && Fits(width, key1) && Fits(width, key2)
      modifies this`encoded, this`plain
      ensures Valid() && plain == val
    {
      var temp := AddMba(width, val, key1);
      encoded := Xor(width, temp, key2);
      plain := val;
    }

    method Get() returns (v: nat)
      requires Valid()
      ensures v == plain
    {
      var temp := Xor(width, encoded, key2);
      v := SubMba(width, temp, key1);
      DecodeEncode(width, plain, key1, key2);
    }
  }
}
