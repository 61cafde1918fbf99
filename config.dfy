/** The values of the program's configuration module. That module is not part
    of this model: every value is left abstract, and only the facts the core
    relies on are stated as types. */
module Config {
  /** A 2D vector of 64-bit floats, modelled over the reals. */
  type Vec2 = (real, real)

  type Positive = n: nat | n > 0 witness 1

  /** A non-negative float: the closest approach of a rocket is either the
      initial sentinel F64_MAX or a squared distance. */
  type NonNegReal = r: real | r >= 0.0

  /** A valid argument of `gen_bool`, which panics outside [0, 1]. */
  type Probability = p: real | 0.0 <= p <= 1.0 witness 0.0

  /** Number of ticks in one generation, and the length of every genome. */
  const LIFESPAN: Positive
  /** Number of rockets in every generation. */
  const POP_SIZE: Positive
  /** Per-gene mutation probability handed to `mutate` by `evolve`. */
  const MUTATION_RATE: Probability

  const START_POS: Vec2
  const TARGET_POS: Vec2
  const TARGET_RADIUS: real
  /** Screen extent, as the `f64` the bounds check converts it to. */
  const SCREEN_WIDTH: real
  const SCREEN_HEIGHT: real

  /** The largest finite `f64`, (2^53 - 1) * 2^971, used as "no distance seen yet". */
  const F64_MAX: NonNegReal := 179769313486231570814527423731704356798070567525844996598917476803157260780028538760589558632766878171540458953514382464234321326889464182768467546703537516986049910576551282076245490090389328944075868508455133942304583236903222948165808559332123348274797826204144723168738177180919299881250404026184124858368.0

  function Add(a: Vec2, b: Vec2): Vec2
  {
    (a.0 + b.0, a.1 + b.1)
  }
}
