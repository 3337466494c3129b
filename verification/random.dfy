/** The C library's pseudo-random generator, `srand` / `rand`, and the program's
    `drand()` (main.cpp:13-15), as a pure stream.

    The generator's algorithm is not modelled: a `Stream` is any function that says
    what the k-th call of `rand()` returns after `srand(seed)`. What is modelled is
    how many values each step of the simulation consumes and from which seed, so
    that a run is determined by its seeds. */
module Random {

  /** RAND_MAX of the GNU C library. */
  const RAND_MAX: int := 2147483647

  /** A value `rand()` can return: the C library keeps it in `[0, RAND_MAX]`. */
  type RandValue = v: int | 0 <= v <= RAND_MAX

  /** `output(seed, k)` is the value returned by the (k+1)-th call of `rand()`
      after `srand(seed)`. */
  type Stream = (int, nat) -> RandValue

  /** The process-wide generator state: the last seed given to `srand` and how
      many values `rand()` has returned since. */
  datatype Rng = Rng(seed: int, drawn: nat)

  /** `srand(seed)`. */
  function Srand(seed: int): Rng {
    Rng(seed, 0)
  }

  /** The value of `drand()` when `rand()` returns `v`. */
  function Scaled(v: int): real {
    v as real / RAND_MAX as real
  }

  /** The k-th `drand()` value after `srand(seed)`. */
  function DrawAt(s: Stream, seed: int, k: nat): real {
    Scaled(s(seed, k))
  }


  /** `rand()`: the next value of the stream, in `[0, RAND_MAX]`, and the state
      advanced past it. */
  function Rand(s: Stream, g: Rng): (res: (int, Rng))
    ensures res.1 == Rng(g.seed, g.drawn + 1)
    ensures res.0 == s(g.seed, g.drawn)
    ensures 0 <= res.0 <= RAND_MAX
  {
    (s(g.seed, g.drawn), Rng(g.seed, g.drawn + 1))
  }

  /** `drand()`: `rand()` divided by RAND_MAX, a value in `[0, 1]`, and the state
      advanced past it. */
  function Drand(s: Stream, g: Rng): (res: (real, Rng))
    ensures res.1 == Rng(g.seed, g.drawn + 1)
    ensures res.0 == DrawAt(s, g.seed, g.drawn)
    ensures 0.0 <= res.0 <= 1.0
  {
    (DrawAt(s, g.seed, g.drawn), Rng(g.seed, g.drawn + 1))
  }

  /** `drand()` is `rand()` divided by RAND_MAX, consuming the same single draw. */
  lemma DrandIsScaledRand(s: Stream, g: Rng)
    ensures Drand(s, g) == (Scaled(Rand(s, g).0), Rand(s, g).1)
  {
  }

  /** `drand()` lies in `[0, 1]` whenever `rand()` keeps to its range. */
  lemma ScaledInUnit(v: int)
    requires 0 <= v <= RAND_MAX
    ensures 0.0 <= Scaled(v) <= 1.0
  {
  }
}
