/** `cloakwork::function_obfuscation::obfuscated_call`: a function pointer
    kept only in enciphered form, among ten decoy words. Pointers are
    `uintptr_t` values, 64-bit words; what calling an address does is given
    by a parameter `code` mapping each address to the function found there. */
module FunctionObfuscation {
  import opened Word
  import opened Random

  const PTR_BITS: nat := 64
  const PTR_OBFUSCATION_CONSTANT: nat := 0xDEAD_BEEF_CAFE_BABE
  const PTR_XOR_LAYER: nat := 0xCAFE_BABE_DEAD_C0DE
  const DECOY_COUNT: nat := 10
  /** The rotation amounts of the cipher's first and second stage. */
  const ROTATE_FIRST: nat := 13
  const ROTATE_SECOND: nat := 7

  /** obfuscate_ptr: rotl 13, XOR the key, rotr 7, add the constant, all on
      a 64-bit word. */
  function ObfuscatePtr(addr: nat, key: nat): (r: nat)
    ensures Fits(PTR_BITS, r)
  {
    var a1 := Rotl(PTR_BITS, addr, ROTATE_FIRST);
    var a2 := Xor(PTR_BITS, a1, key);
    var a3 := Rotr(PTR_BITS, a2, ROTATE_SECOND);
    Add(PTR_BITS, a3, PTR_OBFUSCATION_CONSTANT)
  }

  /** deobfuscate_ptr: subtract the constant, rotl 7, XOR the key, rotr 13. */
  function DeobfuscatePtr(obf: nat, key: nat): (r: nat)
    ensures Fits(PTR_BITS, r)
  {
    var a3 := Sub(PTR_BITS, obf, PTR_OBFUSCATION_CONSTANT);
    var a2 := Rotl(PTR_BITS, a3, ROTATE_SECOND);
    var a1 := Xor(PTR_BITS, a2, key);
    RotateRoundTrip(PTR_BITS, a1, ROTATE_FIRST);
    Rotr(PTR_BITS, a1, ROTATE_FIRST)
  }

  /** Deobfuscating an enciphered pointer gives it back, for every key. */
  lemma DeobfuscateObfuscate(addr: nat, key: nat)
    requires Fits(PTR_BITS, addr)
    ensures DeobfuscatePtr(ObfuscatePtr(addr, key), key) == addr
  {
    var a1 := Rotl(PTR_BITS, addr, ROTATE_FIRST);
    RotateRoundTrip(PTR_BITS, addr, ROTATE_FIRST);
    var a2 := Xor(PTR_BITS, a1, key);
    XorInvolutive(PTR_BITS, a1, key);
    var a3 := Rotr(PTR_BITS, a2, ROTATE_SECOND);
    RotateRoundTrip(PTR_BITS, a2, ROTATE_SECOND);
    RotateRoundTrip(PTR_BITS, a2, ROTATE_SECOND);
    AddSubRoundTrip(PTR_BITS, a3, PTR_OBFUSCATION_CONSTANT);
  }

  /** ... and every word is the encipherment of its decipherment, so the
      cipher is a bijection on 64-bit words for every key. */
  lemma ObfuscateDeobfuscate(obf: nat, key: nat)
    requires Fits(PTR_BITS, obf)
    ensures ObfuscatePtr(DeobfuscatePtr(obf, key), key) == obf
  {
    var a3 := Sub(PTR_BITS, obf, PTR_OBFUSCATION_CONSTANT);
    SubAddRoundTrip(PTR_BITS, obf, PTR_OBFUSCATION_CONSTANT);
    var a2 := Rotl(PTR_BITS, a3, ROTATE_SECOND);
    RotateRoundTrip(PTR_BITS, a3, ROTATE_SECOND);
    var a1 := Xor(PTR_BITS, a2, key);
    XorInvolutive(PTR_BITS, a2, key);
    RotateRoundTrip(PTR_BITS, a1, ROTATE_FIRST);
  }

  /** `CW_RANDOM_RT() | PTR_XOR_LAYER` keeps every bit of PTR_XOR_LAYER, so
      the key is never zero and the XOR stage never the identity. */
  lemma KeyLayerForced(keyDraw: nat)
    ensures Or(PTR_BITS, keyDraw, PTR_XOR_LAYER) >= PTR_XOR_LAYER > 0
  {
    Pow2Values();
    OrComm(PTR_BITS, keyDraw, PTR_XOR_LAYER);
    OrAtLeast(PTR_BITS, PTR_XOR_LAYER, keyDraw);
  }

  /** The constructor's loop: `decoys[i] = CW_RANDOM_RT() ^ xor_key`. */
  method FillDecoys(draws: seq<nat>, key: nat) returns (d: array<nat>)
    requires |draws| == DECOY_COUNT
    ensures fresh(d) && d.Length == DECOY_COUNT
    ensures forall i :: 0 <= i < DECOY_COUNT ==> d[i] == Xor(PTR_BITS, draws[i], key)
  {
    d := new nat[DECOY_COUNT];
    var i := 0;
    while i < DECOY_COUNT
      invariant 0 <= i <= DECOY_COUNT
      invariant forall j :: 0 <= j < i ==> d[j] == Xor(PTR_BITS, draws[j], key)
    {
      d[i] := Xor(PTR_BITS, draws[i], key);
      i := i + 1;
    }
  }

  /** One obfuscated_call<Func> object. */
  class ObfuscatedCall {
    var obfuscatedPtr: nat
    var xorKey: nat
    var decoys: array<nat>
    /** The address the object was built from; it is stored nowhere. */
    ghost var target: nat

    ghost predicate Valid()
      reads this
    {
      Fits(PTR_BITS, target) && obfuscatedPtr == ObfuscatePtr(target, xorKey)
      && decoys.Length == DECOY_COUNT
    }

    /** obfuscated_call(func): the key is a draw with the bits of
        PTR_XOR_LAYER forced on; every decoy is a draw XORed with the key,
        and then the slot CW_RAND_RT(0, 9) is overwritten with the
        enciphered pointer. */
    constructor (func: nat, keyDraw: nat, decoyDraws: seq<nat>, slotDraw: nat)
      requires Fits(PTR_BITS, func) && Fits(PTR_BITS, keyDraw)
      requires |decoyDraws| == DECOY_COUNT
      ensures Valid() && target == func
      ensures xorKey == Or(PTR_BITS, keyDraw, PTR_XOR_LAYER)
      ensures xorKey >= PTR_XOR_LAYER
      ensures fresh(decoys)
      ensures var slot := RandRange(0, DECOY_COUNT - 1, slotDraw);
        0 <= slot < decoys.Length && decoys[slot] == obfuscatedPtr
        && forall i :: 0 <= i < DECOY_COUNT && i != slot ==>
             decoys[i] == Xor(PTR_BITS, decoyDraws[i], xorKey)
    {
      var key := Or(PTR_BITS, keyDraw, PTR_XOR_LAYER);
      var ptr := ObfuscatePtr(func, key);
      var d := FillDecoys(decoyDraws, key);
      var slot := RandRange(0, DECOY_COUNT - 1, slotDraw);
      d[slot] := ptr;
      KeyLayerForced(keyDraw);
      xorKey := key;
      target := func;
      obfuscatedPtr := ptr;
      decoys := d;
    }

    /** operator(): deciphers the stored word and calls whatever is at that
        address, which is the function the object was built from. */
    method Call<A, R>(code: nat -> A -> R, arg: A) returns (r: R)
      requires Valid()
      ensures r == code(target)(arg)
    {
      var realFunc := DeobfuscatePtr(obfuscatedPtr, xorKey);
      DeobfuscateObfuscate(target, xorKey);
      r := code(realFunc)(arg);
    }
  }
}
