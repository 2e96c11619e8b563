/** `cloakwork::control_flow`: opaque predicates, the indirect branch and
    the flattened state machine. Compile-time draws (the template default
    N of each opaque predicate) and runtime draws are parameters; the
    address of a local that the predicates read is a parameter too. */
module ControlFlow {
  import opened Word
  import opened Random

  /** The 32-bit pattern of an int: its value modulo 2^32. */
  function ToU32(s: int): (u: nat)
    ensures Fits(32, u)
  {
    s % Pow2(32)
  }

  /** An unsigned 32-bit value converted to int (two's complement). */
  function ToI32(u: nat): int
    requires Fits(32, u)
  {
    Pow2Values();
    if u >= 0x8000_0000 then u - 0x1_0000_0000 else u
  }

  lemma {:induction false} ProductEven(x: nat)
    ensures (x * (x + 1)) % 2 == 0
  {
    var q := x / 2;
    var k;
    if x % 2 == 0 {
      assert x == 2 * q;
      k := q * (x + 1);
    } else {
      assert x + 1 == 2 * (q + 1);
      k := x * (q + 1);
    }
    assert x * (x + 1) == 2 * k;
    DivModUnique(x * (x + 1), k, 0, 2);
  }

  /** opaque_true<N>(): runtime_val is the low byte of the address of a
      local, x = N + runtime_val and y = 2N + runtime_val. */
  function OpaqueTrue(n: int, address: nat): (r: bool)
    requires 1 <= n <= 100
    ensures r
  {
    var runtimeVal := address % 256;
    var x := n + runtimeVal;
    var y := n * 2 + runtimeVal;
    ProductEven(x);
    Pow2Values();
    OrAtLeast(32, x, y);
    ((x * (x + 1)) % 2 == 0)
    && (x * x - y * y + y * y == x * x)
    && Or(32, x, y) >= x
  }

  /** opaque_false<N>(): x = N + runtime_val; `~x` and `x & ~x` are taken
      on x's 32-bit pattern. */
  function OpaqueFalse(n: int, address: nat): (r: bool)
    requires 1 <= n <= 100
    ensures !r
  {
    var runtimeVal := address % 256;
    var x := n + runtimeVal;
    AndNotSelf(32, x);
    XorSelf(32, x);
    (x * x < 0)
    || And(32, x, Not(32, x)) != 0
    || Xor(32, x, x) != 0
  }

  /** indirect_branch(value) for a w-bit unsigned T: the runtime draw
      modulo 5 picks one of five identity expressions. */
  function IndirectBranch(w: nat, value: nat, draw: nat): (r: nat)
    requires Fits(w, value)
    ensures r == value
  {
    var selector := draw % 5;
    BranchIdentities(w, value);
    if selector == 0 then Xor(w, Xor(w, value, 0), 0)
    else if selector == 1 then Mul(w, value, 1) / 1
    else if selector == 2 then Sub(w, Add(w, value, 0), 0)
    // `|` binds looser than `&`: value | (0 & ~0)
    else if selector == 3 then Or(w, value, And(w, 0, Not(w, 0)))
    else Shr(Shl(w, value, 0), 0)
  }

  /** The five expressions of indirect_branch each give the value back. */
  lemma BranchIdentities(w: nat, value: nat)
    requires Fits(w, value)
    ensures Xor(w, Xor(w, value, 0), 0) == value
    ensures Mul(w, value, 1) / 1 == value
    ensures Sub(w, Add(w, value, 0), 0) == value
    ensures Or(w, value, And(w, 0, Not(w, 0))) == value
    ensures Shr(Shl(w, value, 0), 0) == value
  {
    XorZero(w, value);
    DivModUnique(value, 0, value, Pow2(w));
    AndZero(w, Not(w, 0));
    OrZero(w, value);
    assert Pow2(0) == 1;
  }

  /** The sentinel the state machine's switch tests the decoded state
      against. */
  const SENTINEL: nat := 0xDEAD_BEEF

  /** The iteration bound of execute(). */
  const MAX_ITERATIONS: nat := 100

  /** flattened_flow<Func>. */
  class FlattenedFlow {
    const stateStart: int
    const stateExec: int
    const stateEnd: int
    const stateFake1: int
    const stateFake2: int
    const stateXorKey: nat

    /** init_states(): the five states come from disjoint ranges. */
    predicate Valid() {
      && 100 <= stateStart <= 200
      && 201 <= stateExec <= 300
      && 301 <= stateEnd <= 400
      && 401 <= stateFake1 <= 500
      && 501 <= stateFake2 <= 600
      && Fits(32, stateXorKey)
    }

    /** flattened_flow(): init_states() with the key draw and then one
        CW_RAND_RT draw per state, in the source's order. */
    constructor (keyDraw: nat, startDraw: nat, execDraw: nat, endDraw: nat, fake1Draw: nat, fake2Draw: nat)
      ensures Valid()
      ensures stateXorKey == keyDraw % Pow2(32)
      ensures stateStart == RandRange(100, 200, startDraw)
      ensures stateExec == RandRange(201, 300, execDraw)
      ensures stateEnd == RandRange(301, 400, endDraw)
      ensures stateFake1 == RandRange(401, 500, fake1Draw)
      ensures stateFake2 == RandRange(501, 600, fake2Draw)
    {
      stateXorKey := keyDraw % Pow2(32);
      stateStart := RandRange(100, 200, startDraw);
      stateExec := RandRange(201, 300, execDraw);
      stateEnd := RandRange(301, 400, endDraw);
      stateFake1 := RandRange(401, 500, fake1Draw);
      stateFake2 := RandRange(501, 600, fake2Draw);
    }

    /** Neither the start nor the exec state decodes to the sentinel. */
    predicate NoSentinel()
    {
      && Xor(32, ToU32(stateStart), stateXorKey) != SENTINEL
      && Xor(32, ToU32(stateExec), stateXorKey) != SENTINEL
    }

    /** execute(func, args): `iterations` counts the loop's rounds and
        `calls` the calls of `f`; `initial` is the value-initialised
        result. The opaque predicates' template arguments are the
        compile-time draws reduced to [1, 100]. */
    method Execute<A, R>(f: A -> R, arg: A, initial: R, address: nat,
                         trueDraw: nat, falseDraw1: nat, falseDraw2: nat)
      returns (result: R, calls: nat, iterations: nat)
      requires Valid()
      ensures iterations <= MAX_ITERATIONS && calls <= iterations
      ensures calls == 0 ==> result == initial
      ensures calls > 0 ==> result == f(arg)
      ensures NoSentinel() ==> calls == 1 && iterations == 2 && result == f(arg)
    {
      var state := stateStart;
      var nextState := 0;
      result := initial;
      calls := 0;
      iterations := 0;
      while state != stateEnd && iterations < MAX_ITERATIONS
        invariant iterations <= MAX_ITERATIONS && calls <= iterations
        invariant calls == 0 ==> result == initial
        invariant calls > 0 ==> result == f(arg)
        invariant NoSentinel() ==>
          || (iterations == 0 && state == stateStart && calls == 0)
          || (iterations == 1 && state == stateExec && calls == 0)
          || (iterations == 2 && state == stateEnd && calls == 1)
        decreases MAX_ITERATIONS - iterations
      {
        iterations := iterations + 1;
        var decodedState := Xor(32, ToU32(state), stateXorKey);
        if decodedState == SENTINEL {
          nextState := ToI32(Xor(32, ToU32(stateFake1), stateXorKey));
        } else if state == stateStart {
          nextState := if OpaqueTrue(RandRange(1, 100, trueDraw), address) then stateExec else stateFake1;
          if OpaqueFalse(RandRange(1, 100, falseDraw1), address) {
            nextState := stateFake2;
          }
        } else if state == stateExec {
          result := f(arg);
          calls := calls + 1;
          nextState := stateEnd;
          if OpaqueFalse(RandRange(1, 100, falseDraw2), address) {
            nextState := stateFake1;
          }
        } else if state == stateFake1 {
          nextState := stateExec;
        } else if state == stateFake2 {
          nextState := stateStart;
        } else {
          nextState := stateStart;
        }
        state := nextState;
      }
    }
  }
}
