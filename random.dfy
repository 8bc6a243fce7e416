/**
 * The random source the generator draws from. `StdRng` itself is not part of
 * this model: the source is a replayable stream of raw draws, and the two
 * operations promise no more than the generator relies on.
 */
module Random {

  /** A stream of raw draws; each operation consumes the first one. */
  datatype Rng = Rng(draws: seq<nat>)
  {
    function Head(): nat { if |draws| == 0 then 0 else draws[0] }
    function Tail(): Rng { if |draws| == 0 then this else Rng(draws[1..]) }
  }

  /** `gen_range(lo..=hi)`: some value of the closed range [lo, hi]. */
  method GenRange(rng: Rng, lo: nat, hi: nat) returns (v: nat, rng': Rng)
    requires lo <= hi
    ensures lo <= v <= hi
  {
    v := lo + rng.Head() % (hi - lo + 1);
    rng' := rng.Tail();
  }

  /** `gen_bool(0.5)`: some boolean. */
  method GenBool(rng: Rng) returns (b: bool, rng': Rng)
  {
    b := rng.Head() % 2 == 0;
    rng' := rng.Tail();
  }
}
