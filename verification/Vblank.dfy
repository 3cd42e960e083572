/**
 Vblanks in microseconds: of any display, given by when a wait for the next one returns, and of displays
 that are locked to one another, a grid of a fixed period.
 */
module Vblank {
  import opened RealMath

  /** `next(t)` is the first vblank after `t`: it comes later, and stays the next one until it comes. */
  ghost predicate Ticks(next: int -> int) {
    (forall t :: t < next(t)) && (forall s, t :: s <= t < next(s) ==> next(t) == next(s))
  }

  predicate IsVblank(next: int -> int, v: int) {
    v == next(v - 1)
  }

  // ----- a fixed period

  datatype Grid = Grid(phase: int, period: int)

  predicate Sound(g: Grid) {
    g.period > 0
  }

  /** Vblank number `m`. */
  function At(g: Grid, m: int): int {
    g.phase + m * g.period
  }

  /** The number of the last vblank that is not after `t`. */
  function Index(g: Grid, t: int): int
    requires Sound(g)
  {
    (t - g.phase) / g.period
  }

  /** When `wait_for_vblank` returns if it is called at `t`. */
  function Next(g: Grid, t: int): int
    requires Sound(g)
  {
    At(g, Index(g, t) + 1)
  }

  /** The last vblank that is not after `t`. */
  function Last(g: Grid, t: int): int
    requires Sound(g)
  {
    At(g, Index(g, t))
  }

  /** Vblank `m` is not after `t` exactly when `m` is at most the index of `t`. */
  lemma AtMostIff(g: Grid, m: int, t: int)
    requires Sound(g)
    ensures At(g, m) <= t <==> m <= Index(g, t)
  {
    var q, x := Index(g, t), t - g.phase;
    assert q * g.period <= x < q * g.period + g.period;
    if m <= q {
      ProductOrder(m, q, g.period);
    } else {
      ProductOrder(q + 1, m, g.period);
      assert (q + 1) * g.period == q * g.period + g.period;
    }
  }

  lemma IndexOfAt(g: Grid, m: int)
    requires Sound(g)
    ensures Index(g, At(g, m)) == m
  {
    AtMostIff(g, m, At(g, m));
    AtMostIff(g, m + 1, At(g, m));
    assert At(g, m + 1) == At(g, m) + g.period;
  }

  lemma IndexMonotone(g: Grid, s: int, t: int)
    requires Sound(g) && s <= t
    ensures Index(g, s) <= Index(g, t)
  {
    AtMostIff(g, Index(g, s), s);
    AtMostIff(g, Index(g, s), t);
  }

  lemma NextIsAfter(g: Grid, t: int)
    requires Sound(g)
    ensures t < Next(g, t) <= t + g.period
  {
    var n := Index(g, t);
    AtMostIff(g, n + 1, t);
    AtMostIff(g, n, t);
    assert At(g, n + 1) == At(g, n) + g.period;
  }

  /** Between two vblanks the next one does not change. */
  lemma NextSame(g: Grid, s: int, t: int)
    requires Sound(g) && s <= t < Next(g, s)
    ensures Next(g, t) == Next(g, s)
  {
    IndexMonotone(g, s, t);
    AtMostIff(g, Index(g, s) + 1, t);
  }

  lemma NextMonotone(g: Grid, s: int, t: int)
    requires Sound(g) && s <= t
    ensures Next(g, s) <= Next(g, t)
  {
    IndexMonotone(g, s, t);
    ProductOrder(Index(g, s) + 1, Index(g, t) + 1, g.period);
  }

  /** The display whose vblanks are the grid. */
  function Locked(g: Grid): int -> int
    requires Sound(g)
  {
    t => Next(g, t)
  }

  lemma LockedTicks(g: Grid)
    requires Sound(g)
    ensures Ticks(Locked(g))
  {
    forall t ensures t < Locked(g)(t) {
      NextIsAfter(g, t);
    }
    forall s, t | s <= t < Locked(g)(s) ensures Locked(g)(t) == Locked(g)(s) {
      NextSame(g, s, t);
    }
  }
}
