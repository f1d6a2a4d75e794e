/** The integer side of the noise generator of worldgen/perlin.go: the
    permutation table p built by NewPerlinRandSource from a stream of random
    draws, the 1D gradients g1, and the lattice indices and table lookups of
    noise2. The random source is the sequence of values r.Int() returns. */
module Perlin {
  import opened Floats

  const B: nat := 0x100
  const N: nat := 0x1000
  const BM: nat := 0xff

  /** x & BM on a two's-complement int: its low eight bits, which is the
      Euclidean remainder modulo 256. */
  function Mask(x: int): int
  {
    x % (BM + 1)
  }

  /** p[0..B] before the shuffle: 0 .. B-1, then p[B], still zero. */
  function Start(): (s: seq<int>)
    ensures |s| == B + 1
  {
    seq(B, k => k) + [0]
  }

  /** s with entries a and b exchanged. */
  function Swap(s: seq<int>, a: nat, b: nat): (r: seq<int>)
    requires a < |s| && b < |s|
  {
    s[a := s[b]][b := s[a]]
  }

  /** The draw the shuffle step with counter i takes: draws 0 .. 6B-1 went
      to the gradients, so the step that runs t-th takes draw 6B + t - 1. */
  function ShuffleDraw(draws: seq<nat>, t: nat): nat
    requires 1 <= t <= B && |draws| >= 7 * B
  {
    draws[6 * B + t - 1] % B
  }

  /** p[0..B] after t steps of the countdown shuffle; step t has i = B - t + 1. */
  function Shuffled(draws: seq<nat>, t: nat): (s: seq<int>)
    requires t <= B && |draws| >= 7 * B
    ensures |s| == B + 1
  {
    if t == 0 then Start()
    else Swap(Shuffled(draws, t - 1), B - t + 1, ShuffleDraw(draws, t))
  }

  /** k mod B for an index of the table. */
  function Wrap(k: nat): (w: nat)
    requires k < B + B + 2
    ensures w < B && w == k % B
  {
    if k < B then k else if k < B + B then k - B else k - B - B
  }

  /** The whole table after construction: entry k is the shuffled p[k mod B]. */
  function Table(draws: seq<nat>): (t: seq<int>)
    requires |draws| >= 7 * B
  {
    var s := Shuffled(draws, B);
    seq(B + B + 2, k requires 0 <= k < B + B + 2 => s[Wrap(k)])
  }

  /** g1[i]: the draw for it, (r.Int() % 2B - B) / B. */
  function Gradient1(draws: seq<nat>, i: nat): real
    requires i < B && |draws| >= 7 * B
  {
    ((draws[6 * i] % (B + B)) - B) as real / B as real
  }

  lemma SwapMultiset(s: seq<int>, a: nat, b: nat)
    requires a < |s| && b < |s|
    ensures multiset(Swap(s, a, b)) == multiset(s)
  {
    var t := s[a := s[b]];
    assert multiset(t) == multiset(s) - multiset{s[a]} + multiset{s[b]};
    assert multiset(t[b := s[a]]) == multiset(t) - multiset{t[b]} + multiset{s[a]};
  }

  /** The shuffle only exchanges entries: the multiset of p[0..B] stays
      0 .. B-1 plus the extra zero of p[B]. */
  lemma {:induction false} ShuffledMultiset(draws: seq<nat>, t: nat)
    requires t <= B && |draws| >= 7 * B
    ensures multiset(Shuffled(draws, t)) == multiset(seq(B, k => k)) + multiset{0}
  {
    if t > 0 {
      ShuffledMultiset(draws, t - 1);
      SwapMultiset(Shuffled(draws, t - 1), B - t + 1, ShuffleDraw(draws, t));
    }
  }

  /** Every shuffled entry lies in [0, B). */
  lemma {:induction false} ShuffledRange(draws: seq<nat>, t: nat)
    requires t <= B && |draws| >= 7 * B
    ensures forall k :: 0 <= k < B + 1 ==> 0 <= Shuffled(draws, t)[k] < B
  {
    if t > 0 {
      ShuffledRange(draws, t - 1);
    }
  }

  /** The first step swaps p[B] with p[j], j the first shuffle draw mod B;
      no later step reaches index B, so p[B] ends as j. */
  lemma {:induction false} ShuffledLast(draws: seq<nat>, t: nat)
    requires 1 <= t <= B && |draws| >= 7 * B
    ensures Shuffled(draws, t)[B] == ShuffleDraw(draws, 1)
  {
    if t > 1 {
      ShuffledLast(draws, t - 1);
    }
  }

  /** The table is built from the shuffle draws 6B .. 7B-1 alone. */
  lemma {:induction false} ShuffledDraws(d1: seq<nat>, d2: seq<nat>, t: nat)
    requires t <= B && |d1| >= 7 * B && |d2| >= 7 * B
    requires d1[6 * B .. 7 * B] == d2[6 * B .. 7 * B]
    ensures Shuffled(d1, t) == Shuffled(d2, t)
  {
    if t > 0 {
      ShuffledDraws(d1, d2, t - 1);
      assert d1[6 * B + t - 1] == d1[6 * B .. 7 * B][t - 1];
    }
  }

  lemma TableDraws(d1: seq<nat>, d2: seq<nat>)
    requires |d1| >= 7 * B && |d2| >= 7 * B
    requires d1[6 * B .. 7 * B] == d2[6 * B .. 7 * B]
    ensures Table(d1) == Table(d2)
  {
    ShuffledDraws(d1, d2, B);
  }

  /** Every entry of the table lies in [0, B). */
  lemma TableRange(draws: seq<nat>)
    requires |draws| >= 7 * B
    ensures var t := Table(draws);
      |t| == B + B + 2 && forall k :: 0 <= k < |t| ==> 0 <= t[k] < B
  {
    ShuffledRange(draws, B);
  }

  /** The upper half repeats the lower one, overlap included. */
  lemma TableRepeats(draws: seq<nat>)
    requires |draws| >= 7 * B
    ensures var t := Table(draws);
      forall i :: 0 <= i < B + 2 ==> t[B + i] == t[i]
  {
  }

  /** p[0 .. B-1] is 0 .. B-1 with the value of the first shuffle draw
      replaced by a second zero: that value moved to p[B], which the copy
      loop then overwrites. */
  lemma TableMultiset(draws: seq<nat>)
    requires |draws| >= 7 * B
    ensures multiset(Table(draws)[..B]) + multiset{ShuffleDraw(draws, 1)} == multiset(seq(B, k => k)) + multiset{0}
  {
    var s := Shuffled(draws, B);
    ShuffledMultiset(draws, B);
    ShuffledLast(draws, B);
    assert Table(draws)[..B] == s[..B];
    assert s == s[..B] + [s[B]];
  }

  /** So p[0 .. B-1] is a permutation of 0 .. B-1 only when the first
      shuffle draw is a multiple of B; otherwise its value is missing. */
  lemma TableMissing(draws: seq<nat>)
    requires |draws| >= 7 * B && ShuffleDraw(draws, 1) != 0
    ensures ShuffleDraw(draws, 1) !in Table(draws)[..B]
  {
    var j := ShuffleDraw(draws, 1);
    var r := seq(B, k => k);
    TableMultiset(draws);
    assert multiset(r)[j] == 1 by {
      assert r == r[..j] + [j] + r[j + 1..];
      assert j !in r[..j] && j !in r[j + 1..];
    }
    assert (multiset(r) + multiset{0})[j] == 1;
    assert (multiset(Table(draws)[..B]) + multiset{j})[j] == 1;
    assert multiset(Table(draws)[..B])[j] == 0;
  }

  /** The four gradient indices noise2 reads: b00, b10, b01, b11. */
  datatype Corners = Corners(b00: int, b10: int, b01: int, b11: int)

  /** The table with 2B + 2 entries, as NewPerlinRandSource leaves it. */
  class Noise {
    const alpha: real
    const beta: real
    const n: int
    const p: array<int>
    const g1: array<real>

    ghost predicate Valid()
      reads this, p
    {
      p.Length == B + B + 2 && g1.Length == B + B + 2 &&
      forall k :: 0 <= k < p.Length ==> 0 <= p[k] < B
    }

    /** NewPerlinRandSource: for each i < B draw g1, g2 and g3 (1, 2 and 3
        draws), then shuffle with i from B down to 1, then copy p[0..B+1]
        and g1[0..B+1] into B .. 2B+1. The g2 and g3 draws are consumed but
        their values are not kept. */
    constructor (alpha: real, beta: real, n: int, draws: seq<nat>)
      requires |draws| >= 7 * B
      ensures Valid() && fresh(p) && fresh(g1)
      ensures p[..] == Table(draws)
      ensures forall k :: 0 <= k < g1.Length ==> g1[k] == Gradient1(draws, Wrap(k))
      ensures this.alpha == alpha && this.beta == beta && this.n == n
    {
      this.alpha := alpha;
      this.beta := beta;
      this.n := n;
      var tp := new int[B + B + 2](_ => 0);
      var tg := new real[B + B + 2](_ => 0.0);
      var next := Draw(tp, tg, draws);
      Shuffle(tp, draws, next);
      Duplicate(tp, tg, draws);
      p := tp;
      g1 := tg;
      ShuffledRange(draws, B);
    }

    /** The table lookups of noise2 at (vx, vy). Every index into p is at
        most 2 * BM, inside the 2B + 2 entries, and each corner lies in
        [0, B), so the g2 lookups are inside as well. */
    function Lookups(vx: real, vy: real): (c: Corners)
      requires Valid()
      reads this, p
      ensures 0 <= c.b00 < B && 0 <= c.b10 < B && 0 <= c.b01 < B && 0 <= c.b11 < B
    {
      var x := Lattice(vx);
      var y := Lattice(vy);
      var i := p[x.b0];
      var j := p[x.b1];
      Corners(p[i + y.b0], p[j + y.b0], p[i + y.b1], p[j + y.b1])
    }
  }

  /** The first loop of NewPerlinRandSource: p[i] := i and the g1, g2 and
      g3 draws for each i < B, six draws per i. */
  method Draw(tp: array<int>, tg: array<real>, draws: seq<nat>) returns (next: nat)
    requires tp.Length == B + B + 2 && tg.Length == B + B + 2 && |draws| >= 7 * B
    requires forall k :: 0 <= k < tp.Length ==> tp[k] == 0
    modifies tp, tg
    ensures next == 6 * B
    ensures tp[..B + 1] == Start() && forall k :: B + 1 <= k < tp.Length ==> tp[k] == 0
    ensures forall k :: 0 <= k < B ==> tg[k] == Gradient1(draws, k)
  {
    next := 0;
    var i := 0;
    while i < B
      invariant 0 <= i <= B && next == 6 * i
      invariant forall k :: 0 <= k < tp.Length ==> tp[k] == if k < i then k else 0
      invariant forall k :: 0 <= k < i ==> tg[k] == Gradient1(draws, k)
    {
      tp[i] := i;
      tg[i] := ((draws[next] % (B + B)) - B) as real / B as real;
      next := next + 1;
      for j := 0 to 2
        invariant next == 6 * i + 1 + j
      {
        next := next + 1;
      }
      for j := 0 to 3
        invariant next == 6 * i + 3 + j
      {
        next := next + 1;
      }
      i := i + 1;
    }
    assert tp[..B + 1] == Start();
  }

  /** The countdown shuffle, its counter starting where the first loop left
      it, at B. */
  method Shuffle(tp: array<int>, draws: seq<nat>, next0: nat)
    requires tp.Length == B + B + 2 && |draws| >= 7 * B && next0 == 6 * B
    requires tp[..B + 1] == Start()
    modifies tp
    ensures tp[..B + 1] == Shuffled(draws, B)
    ensures forall k :: B + 1 <= k < tp.Length ==> tp[k] == old(tp[k])
  {
    var next := next0;
    var i := B;
    while i > 0
      invariant 0 <= i <= B && next == 6 * B + (B - i)
      invariant tp[..B + 1] == Shuffled(draws, B - i)
      invariant forall k :: B + 1 <= k < tp.Length ==> tp[k] == old(tp[k])
    {
      ShuffleStep(tp, i, draws, next);
      next := next + 1;
      i := i - 1;
    }
  }

  /** The last loop: p[B + i] := p[i] and g1[B + i] := g1[i] for i < B + 2. */
  method Duplicate(tp: array<int>, tg: array<real>, draws: seq<nat>)
    requires tp.Length == B + B + 2 && tg.Length == B + B + 2 && |draws| >= 7 * B
    requires tp[..B + 1] == Shuffled(draws, B)
    requires forall k :: 0 <= k < B ==> tg[k] == Gradient1(draws, k)
    modifies tp, tg
    ensures tp[..] == Table(draws)
    ensures forall k :: 0 <= k < tg.Length ==> tg[k] == Gradient1(draws, Wrap(k))
  {
    ghost var s := Shuffled(draws, B);
    assert forall k :: 0 <= k < B ==> tp[k] == s[k] by {
      assert tp[..B + 1] == s;
    }
    for i := 0 to B + 2
      invariant forall k :: 0 <= k < B ==> tp[k] == s[k]
      invariant forall k :: B <= k < B + i ==> tp[k] == s[Wrap(k)]
      invariant forall k :: 0 <= k < B ==> tg[k] == Gradient1(draws, k)
      invariant forall k :: B <= k < B + i ==> tg[k] == Gradient1(draws, Wrap(k))
    {
      tp[B + i] := tp[i];
      tg[B + i] := tg[i];
    }
    assert tp[..] == Table(draws);
  }

  /** One step of the countdown: exchange p[i] and p[draw mod B]. */
  method ShuffleStep(tp: array<int>, i: nat, draws: seq<nat>, next: nat)
    requires tp.Length == B + B + 2 && 1 <= i <= B && |draws| >= 7 * B
    requires next == 6 * B + (B - i)
    requires tp[..B + 1] == Shuffled(draws, B - i)
    modifies tp
    ensures tp[..B + 1] == Shuffled(draws, B - i + 1)
    ensures forall k :: B + 1 <= k < tp.Length ==> tp[k] == old(tp[k])
  {
    var k := tp[i];
    var j := draws[next] % B;
    tp[i] := tp[j];
    tp[j] := k;
    assert tp[..B + 1] == Swap(old(tp[..B + 1]), i, j);
  }

  /** bx0, bx1 (or by0, by1) of noise2 for one coordinate v. */
  datatype Cell = Cell(b0: int, b1: int)

  function Lattice(v: real): (c: Cell)
    ensures 0 <= c.b0 <= BM && 0 <= c.b1 <= BM
    ensures c.b1 == (c.b0 + 1) % B
  {
    var b0 := Mask(Trunc(v + N as real));
    Cell(b0, Mask(b0 + 1))
  }

  /** The lattice repeats every B units (away from the sign change that
      truncation toward zero introduces). */
  lemma LatticePeriodic(v: real)
    requires v + N as real >= 0.0
    ensures Lattice(v + B as real) == Lattice(v)
  {
    var t := v + N as real;
    assert Trunc(t + B as real) == Trunc(t) + B;
    assert v + B as real + N as real == t + B as real;
  }

  /** The corners repeat every B units along both axes. */
  lemma LookupsPeriodic(t: Noise, vx: real, vy: real)
    requires t.Valid() && vx + N as real >= 0.0 && vy + N as real >= 0.0
    ensures t.Lookups(vx + B as real, vy) == t.Lookups(vx, vy)
    ensures t.Lookups(vx, vy + B as real) == t.Lookups(vx, vy)
  {
    LatticePeriodic(vx);
    LatticePeriodic(vy);
  }
}
