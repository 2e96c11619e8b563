/** The reductions cloakwork applies to a raw random draw. The draws
    themselves (CW_RANDOM_RT, CW_RANDOM_CT) are parameters of the model. */
module Random {

  /** `CW_RAND_RT(min, max)` and `CW_RAND_CT(min, max)` for a raw draw:
      `min + draw % (max - min + 1)`. */
  function RandRange(min: int, max: int, draw: nat): (r: int)
    requires min <= max
    ensures min <= r <= max
  {
    min + draw % (max - min + 1)
  }
}
