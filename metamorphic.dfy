/** `cloakwork::metamorphic::metamorphic_function`: a table of five
    (function, key) slots filled from a list of equivalent implementations,
    and a cursor that moves to the next slot, or with probability 20/100 to
    a random one, on every call. The functions are values of a type `F`;
    what calling one does is given by a parameter `code`. */
module Metamorphic {
  import opened Word

  const MAX_MUTATIONS: nat := 5
  const KEY_BITS: nat := 32

  /** `struct mutation { Func* func; uint32_t key; }` */
  datatype Mutation<F> = Mutation(func: F, key: nat)

  /** What the constructor leaves in slot k: the k-th listed function with
      the k-th draw truncated to uint32_t while the list lasts, a copy of
      slot 0 after it. */
  function SlotContent<F>(funcs: seq<F>, keyDraws: seq<nat>, k: nat): (m: Mutation<F>)
    requires 1 <= |funcs| && |keyDraws| == MAX_MUTATIONS && k < MAX_MUTATIONS
    ensures m.func in funcs
    ensures k < |funcs| ==> m.func == funcs[k]
    ensures k >= |funcs| ==> m.func == funcs[0]
  {
    var j := if k < |funcs| then k else 0;
    Mutation(funcs[j], Truncate(KEY_BITS, keyDraws[j]))
  }

  /** The slot operator() moves to: the next one round the table, unless
      the first draw falls below 20 out of 100, in which case the second
      draw picks it. It is always a slot of the table. */
  function NextMutation(current: nat, jumpDraw: nat, slotDraw: nat): (next: nat)
    ensures next < MAX_MUTATIONS
    ensures jumpDraw % 100 >= 20 ==> next == (current + 1) % MAX_MUTATIONS
  {
    if jumpDraw % 100 < 20 then slotDraw % MAX_MUTATIONS
    else (current + 1) % MAX_MUTATIONS
  }

  /** Without random jumps, k calls move the cursor k slots round the table,
      so every slot is reached within five calls. */
  lemma {:induction false} SteadyRotation(current: nat, k: nat)
    requires current < MAX_MUTATIONS
    ensures Rotated(current, k) == (current + k) % MAX_MUTATIONS
    decreases k
  {
    if k > 0 {
      SteadyRotation(current, k - 1);
      var p := Rotated(current, k - 1);
      assert NextMutation(p, 20, 0) == (p + 1) % MAX_MUTATIONS;
      ModSucc(current + k - 1, MAX_MUTATIONS);
    }
  }

  /** The cursor after k calls whose jump draws are all 20 (no jump). */
  function Rotated(current: nat, k: nat): nat
    decreases k
  {
    if k == 0 then current else NextMutation(Rotated(current, k - 1), 20, 0)
  }

  lemma ModSucc(a: nat, m: nat)
    requires m > 0
    ensures (a % m + 1) % m == (a + 1) % m
  {
    var q := a / m;
    assert a == q * m + a % m;
    DivModUnique(a + 1, q + (a % m + 1) / m, (a % m + 1) % m, m);
  }

  /** The constructor's two loops: one slot and one key per listed function
      while slots remain, then copies of slot 0. */
  method FillSlots<F>(funcs: seq<F>, keyDraws: seq<nat>) returns (m: array<Mutation<F>>)
    requires 1 <= |funcs| && |keyDraws| == MAX_MUTATIONS
    ensures fresh(m) && m.Length == MAX_MUTATIONS
    ensures forall k :: 0 <= k < MAX_MUTATIONS ==> m[k] == SlotContent(funcs, keyDraws, k)
  {
    m := new Mutation<F>[MAX_MUTATIONS](_ => Mutation(funcs[0], 0));
    var i := 0;
    var n := 0;
    while n < |funcs|
      invariant 0 <= n <= |funcs| && i <= n && i <= MAX_MUTATIONS && (i < MAX_MUTATIONS ==> i == n)
      invariant forall k :: 0 <= k < i ==> m[k] == SlotContent(funcs, keyDraws, k)
    {
      if i < MAX_MUTATIONS {
        m[i] := Mutation(funcs[n], Truncate(KEY_BITS, keyDraws[i]));
        i := i + 1;
      }
      n := n + 1;
    }
    while i < MAX_MUTATIONS
      invariant 1 <= i <= MAX_MUTATIONS
      invariant forall k :: 0 <= k < i ==> m[k] == SlotContent(funcs, keyDraws, k)
    {
      m[i] := m[0];
      i := i + 1;
    }
  }

  class MetamorphicFunction<F> {
    var mutations: array<Mutation<F>>
    var current: nat
    /** The list the object was built from. */
    ghost var variants: seq<F>

    ghost predicate Valid()
      reads this, mutations
    {
      mutations.Length == MAX_MUTATIONS && current < MAX_MUTATIONS
      && forall k :: 0 <= k < MAX_MUTATIONS ==> mutations[k].func in variants
    }

    /** metamorphic_function(funcs): the first five functions each get a
        slot and a fresh key; the remaining slots copy slot 0. An empty
        list would copy an uninitialised slot, hence the precondition. */
    constructor (funcs: seq<F>, keyDraws: seq<nat>)
      requires 1 <= |funcs| && |keyDraws| == MAX_MUTATIONS
      ensures Valid() && fresh(mutations) && current == 0 && variants == funcs
      ensures forall k :: 0 <= k < MAX_MUTATIONS ==>
        mutations[k] == SlotContent(funcs, keyDraws, k)
    {
      var m := FillSlots(funcs, keyDraws);
      mutations := m;
      current := 0;
      variants := funcs;
    }

    /** operator(): advance the cursor and call the function in its slot,
        which is always one of the listed implementations. */
    method Invoke<A, R>(code: F -> A -> R, arg: A, jumpDraw: nat, slotDraw: nat)
      returns (r: R)
      requires Valid()
      modifies this`current
      ensures Valid()
      ensures current == NextMutation(old(current), jumpDraw, slotDraw)
      ensures mutations[current].func in variants
      ensures r == code(mutations[current].func)(arg)
    {
      var next := (current + 1) % MAX_MUTATIONS;
      if jumpDraw % 100 < 20 {
        next := slotDraw % MAX_MUTATIONS;
      }
      current := next;
      r := code(mutations[next].func)(arg);
    }
  }
}
