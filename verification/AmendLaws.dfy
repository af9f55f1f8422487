/** What x m} y means, cell by cell: every combination of indexes is stored into once, in row-major
    order, store k takes cell k of x modulo the cells of x, and the last store into an atom wins. */
module AmendLaws {
  import opened Arith
  import opened AmendSpec
  import opened AmendOdometer

  // ---- The stores as a list.

  /** Where the cells selected under axes i and on start, relative to their base, in row-major order. */
  function Offsets<T>(m: Amend<T>, i: nat): seq<nat>
    requires i <= |m.axes|
    decreases |m.axes| - i, 0
  {
    if i == |m.axes| then [0] else OffsetsFrom(m, i, 0)
  }

  function OffsetsFrom<T>(m: Amend<T>, i: nat, j: nat): seq<nat>
    requires i < |m.axes| && j <= m.axes[i].Max()
    decreases |m.axes| - i - 1, 1, m.axes[i].Max() - j
  {
    if j == m.axes[i].Max() then []
    else Shifted(Offsets(m, i + 1), m.Base(i, 0, j)) + OffsetsFrom(m, i, j + 1)
  }

  function Shifted(s: seq<nat>, shift: nat): (r: seq<nat>)
    ensures |r| == |s| && forall k :: 0 <= k < |s| ==> r[k] == s[k] + shift
  {
    seq(|s|, k requires 0 <= k < |s| => s[k] + shift)
  }

  ghost predicate Inside<T>(m: Amend<T>, offs: seq<nat>, base: nat, n: nat) {
    forall k :: 0 <= k < |offs| ==> base + offs[k] + m.cellsize <= n
  }

  /** Store cells c, Next(c), ... of x at the given offsets, one after the other. */
  ghost function StoreAll<T>(m: Amend<T>, z: seq<T>, c: nat, base: nat, offs: seq<nat>): (r: (seq<T>, nat))
    requires m.Valid() && c < m.Cells() && Inside(m, offs, base, |z|)
    ensures |r.0| == |z| && r.1 < m.Cells()
    decreases |offs|
  {
    if offs == [] then (z, c)
    else StoreAll(m, Store(z, base + offs[0], m.Cell(c)), m.Next(c), base, offs[1..])
  }

  lemma {:induction false} StoreAllOfSum<T>(m: Amend<T>, z: seq<T>, c: nat, base: nat, s: seq<nat>, t: seq<nat>)
    requires m.Valid() && c < m.Cells() && Inside(m, s, base, |z|) && Inside(m, t, base, |z|)
    ensures Inside(m, s + t, base, |z|)
    ensures StoreAll(m, z, c, base, s + t) ==
            (var r := StoreAll(m, z, c, base, s); StoreAll(m, r.0, r.1, base, t))
    decreases |s|
  {
    if s == [] {
      assert s + t == t;
    } else {
      assert (s + t)[1..] == s[1..] + t;
      StoreAllOfSum(m, Store(z, base + s[0], m.Cell(c)), m.Next(c), base, s[1..], t);
    }
  }

  lemma {:induction false} StoreAllShifted<T>(m: Amend<T>, z: seq<T>, c: nat, base: nat, s: seq<nat>, shift: nat)
    requires m.Valid() && c < m.Cells() && Inside(m, s, base + shift, |z|)
    ensures Inside(m, Shifted(s, shift), base, |z|)
    ensures StoreAll(m, z, c, base, Shifted(s, shift)) == StoreAll(m, z, c, base + shift, s)
    decreases |s|
  {
    if s != [] {
      assert Shifted(s, shift)[1..] == Shifted(s[1..], shift);
      StoreAllShifted(m, Store(z, base + shift + s[0], m.Cell(c)), m.Next(c), base, s[1..], shift);
    }
  }

  /** The nested loops store at the offsets in their order. */
  lemma {:induction false} NestIsList<T>(m: Amend<T>, z: seq<T>, c: nat, i: nat, base: nat)
    requires m.Valid() && i <= |m.axes| && c < m.Cells() && base + Span(m.axes, m.cellsize, i) <= |z|
    ensures Inside(m, Offsets(m, i), base, |z|)
    ensures m.Nest(z, c, i, base) == StoreAll(m, z, c, base, Offsets(m, i))
    decreases |m.axes| - i, 0
  {
    if i < |m.axes| {
      LoopIsList(m, z, c, i, base, 0);
    }
  }

  lemma {:induction false} LoopIsList<T>(m: Amend<T>, z: seq<T>, c: nat, i: nat, base: nat, j: nat)
    requires m.Valid() && i < |m.axes| && c < m.Cells() && j <= m.axes[i].Max() && base + Span(m.axes, m.cellsize, i) <= |z|
    ensures Inside(m, OffsetsFrom(m, i, j), base, |z|)
    ensures m.Loop(z, c, i, base, j) == StoreAll(m, z, c, base, OffsetsFrom(m, i, j))
    decreases |m.axes| - i - 1, 1, m.axes[i].Max() - j
  {
    hide *;
    LoopIs(m, z, c, i, base, j);
    OffsetsFromIs(m, i, j);
    if j < m.axes[i].Max() {
      var shift := m.Base(i, 0, j);
      BaseShifts(m, i, base, j);
      NestIsList(m, z, c, i + 1, base + shift);
      StoreAllShifted(m, z, c, base, Offsets(m, i + 1), shift);
      var r := m.Nest(z, c, i + 1, base + shift);
      LoopIsList(m, r.0, r.1, i, base, j + 1);
      StoreAllOfSum(m, z, c, base, Shifted(Offsets(m, i + 1), shift), OffsetsFrom(m, i, j + 1));
    } else {
      StoreNone(m, z, c, base);
    }
  }

  lemma LoopIs<T>(m: Amend<T>, z: seq<T>, c: nat, i: nat, base: nat, j: nat)
    requires m.Valid() && i < |m.axes| && c < m.Cells() && j <= m.axes[i].Max() && base + Span(m.axes, m.cellsize, i) <= |z|
    ensures j == m.axes[i].Max() ==> m.Loop(z, c, i, base, j) == (z, c)
    ensures j < m.axes[i].Max() ==>
              && m.Base(i, base, j) + Span(m.axes, m.cellsize, i + 1) <= |z|
              && var n := m.Nest(z, c, i + 1, m.Base(i, base, j)); m.Loop(z, c, i, base, j) == m.Loop(n.0, n.1, i, base, j + 1)
  {
    if j < m.axes[i].Max() {
      m.BaseInside(i, base, j, |z|);
    }
  }

  lemma OffsetsFromIs<T>(m: Amend<T>, i: nat, j: nat)
    requires m.Valid() && i < |m.axes| && j <= m.axes[i].Max()
    ensures j == m.axes[i].Max() ==> OffsetsFrom(m, i, j) == []
    ensures j < m.axes[i].Max() ==>
              OffsetsFrom(m, i, j) == Shifted(Offsets(m, i + 1), m.Base(i, 0, j)) + OffsetsFrom(m, i, j + 1)
  {
  }

  lemma StoreNone<T>(m: Amend<T>, z: seq<T>, c: nat, base: nat)
    requires m.Valid() && c < m.Cells()
    ensures Inside(m, [], base, |z|) && StoreAll(m, z, c, base, []) == (z, c)
  {
  }

  lemma BaseShifts<T>(m: Amend<T>, i: nat, base: nat, j: nat)
    requires i < |m.axes| && j < m.axes[i].Max()
    ensures m.Base(i, base, j) == base + m.Base(i, 0, j)
  {
  }

  // ---- What an atom ends up with.

  lemma {:induction false} NextIsModulo<T>(m: Amend<T>, k: nat)
    requires m.Valid()
    ensures m.wrap <= |m.axes| && m.Cells() > 0
    ensures m.Next(k % m.Cells()) == (k + 1) % m.Cells() && k % m.Cells() < m.Cells()
  {
    m.CombosPositive(m.wrap);
    ModuloStep(k, m.Cells());
  }

  ghost predicate Covers<T>(m: Amend<T>, at: nat, p: nat) {
    at <= p < at + m.cellsize
  }

  /** An atom that no store covers is untouched. */
  lemma {:induction false} UncoveredKept<T>(m: Amend<T>, z: seq<T>, c: nat, base: nat, offs: seq<nat>, p: nat)
    requires m.Valid() && c < m.Cells() && Inside(m, offs, base, |z|) && p < |z|
    requires forall k :: 0 <= k < |offs| ==> !Covers(m, base + offs[k], p)
    ensures StoreAll(m, z, c, base, offs).0[p] == z[p]
    decreases |offs|
  {
    if offs != [] {
      assert !Covers(m, base + offs[0], p);
      UncoveredKept(m, Store(z, base + offs[0], m.Cell(c)), m.Next(c), base, offs[1..], p);
    }
  }

  /** An atom keeps what the last store that covers it put there. */
  lemma {:induction false} LastStoreWins<T>(m: Amend<T>, z: seq<T>, from: nat, base: nat, offs: seq<nat>, p: nat, k: nat)
    requires m.Valid() && m.Cells() > 0 && Inside(m, offs, base, |z|) && p < |z| && k < |offs|
    requires Covers(m, base + offs[k], p) && forall l :: k < l < |offs| ==> !Covers(m, base + offs[l], p)
    ensures StoreAll(m, z, from % m.Cells(), base, offs).0[p] == m.Cell((from + k) % m.Cells())[p - base - offs[k]]
    decreases |offs|
  {
    hide *;
    NextIsModulo(m, from);
    var c := from % m.Cells();
    StoreAllStep(m, z, c, base, offs);
    var stored := Store(z, base + offs[0], m.Cell(c));
    CoversRest(m, base, offs, p, k);
    if k == 0 {
      UncoveredKept(m, stored, m.Next(c), base, offs[1..], p);
      CoversIs(m, base + offs[0], p);
    } else {
      LastStoreWins(m, stored, from + 1, base, offs[1..], p, k - 1);
    }
  }

  lemma CoversIs<T>(m: Amend<T>, at: nat, p: nat)
    ensures Covers(m, at, p) <==> at <= p < at + m.cellsize
  {
  }

  lemma StoreAllStep<T>(m: Amend<T>, z: seq<T>, c: nat, base: nat, offs: seq<nat>)
    requires m.Valid() && c < m.Cells() && Inside(m, offs, base, |z|) && offs != []
    ensures Inside(m, offs[1..], base, |z|) && base + offs[0] + m.cellsize <= |z| && m.Next(c) < m.Cells()
    ensures StoreAll(m, z, c, base, offs) == StoreAll(m, Store(z, base + offs[0], m.Cell(c)), m.Next(c), base, offs[1..])
  {
  }

  lemma CoversRest<T>(m: Amend<T>, base: nat, offs: seq<nat>, p: nat, k: nat)
    requires k < |offs| && Covers(m, base + offs[k], p) && forall l :: k < l < |offs| ==> !Covers(m, base + offs[l], p)
    ensures forall l: nat :: k <= l < |offs[1..]| ==> !Covers(m, base + offs[1..][l], p)
    ensures k > 0 ==> offs[1..][k - 1] == offs[k]
  {
    forall l: nat | k <= l < |offs[1..]| ensures !Covers(m, base + offs[1..][l], p) {
      assert offs[1..][l] == offs[l + 1];
    }
  }

  /** Store k is the last one that covers atom p. */
  ghost predicate LastCovers<T>(m: Amend<T>, k: nat, p: nat) {
    var offs := Offsets(m, 0);
    k < |offs| && Covers(m, offs[k], p) && forall l :: k < l < |offs| ==> !Covers(m, offs[l], p)
  }

  /** x m} y at an atom: the atom of the cell of x that the last store over it took. */
  lemma AtomStored<T>(m: Amend<T>, w: seq<T>, p: nat, k: nat)
    requires m.Valid() && |w| == Span(m.axes, m.cellsize, 0) && p < |w| && LastCovers(m, k, p)
    ensures m.Cells() > 0 && m.Result(w)[p] == m.Cell(k % m.Cells())[p - Offsets(m, 0)[k]]
  {
    hide *;
    ResultIsList(m, w);
    LastCoversIs(m, k, p);
    LastStoreWins(m, w, 0, 0, Offsets(m, 0), p, k);
    ModuloIs(0, m.Cells(), 0, 0);
  }

  lemma LastCoversIs<T>(m: Amend<T>, k: nat, p: nat)
    requires LastCovers(m, k, p)
    ensures var offs := Offsets(m, 0);
            && k < |offs| && Covers(m, 0 + offs[k], p) && (forall l :: k < l < |offs| ==> !Covers(m, 0 + offs[l], p))
            && 0 <= p - offs[k] < m.cellsize
  {
  }

  lemma ResultIsList<T>(m: Amend<T>, w: seq<T>)
    requires m.Valid() && |w| == Span(m.axes, m.cellsize, 0)
    ensures m.wrap <= |m.axes| && m.Cells() > 0 && Inside(m, Offsets(m, 0), 0, |w|) && m.Result(w) == StoreAll(m, w, 0, 0, Offsets(m, 0)).0
  {
    m.CombosPositive(m.wrap);
    NestIsList(m, w, 0, 0, 0);
  }

  /** x m} y at an atom that no selected cell covers: the atom of y. */
  lemma AtomKept<T>(m: Amend<T>, w: seq<T>, p: nat)
    requires m.Valid() && |w| == Span(m.axes, m.cellsize, 0) && p < |w|
    requires forall k :: 0 <= k < |Offsets(m, 0)| ==> !Covers(m, Offsets(m, 0)[k], p)
    ensures m.Result(w)[p] == w[p]
  {
    m.CombosPositive(m.wrap);
    NestIsList(m, w, 0, 0, 0);
    UncoveredKept(m, w, 0, 0, Offsets(m, 0), p);
  }

  // ---- Which combinations there are.

  /** The place of the combination d of the axes from i on. */
  function Rank<T>(m: Amend<T>, d: seq<nat>, i: nat): nat
    requires i <= |m.axes| == |d|
    decreases |d| - i
  {
    if i == |d| then 0 else d[i] * Combos(m.axes, i + 1) + Rank(m, d, i + 1)
  }

  /** Where the cell of the combination d starts: the sum of index times cell size. */
  function Address<T>(m: Amend<T>, d: seq<nat>, i: nat): nat
    requires i <= |m.axes| == |d| && Digits(m, d, |d|)
    decreases |d| - i
  {
    if i == |d| then 0
    else m.axes[i].Index(d[i]) * Stride(m.axes, m.cellsize, i) + Address(m, d, i + 1)
  }

  lemma {:induction false} OffsetsLength<T>(m: Amend<T>, i: nat)
    requires i <= |m.axes|
    ensures |Offsets(m, i)| == Combos(m.axes, i)
    decreases |m.axes| - i, 0
  {
    if i < |m.axes| {
      OffsetsFromLength(m, i, 0);
    }
  }

  lemma {:induction false} OffsetsFromLength<T>(m: Amend<T>, i: nat, j: nat)
    requires i < |m.axes| && j <= m.axes[i].Max()
    ensures |OffsetsFrom(m, i, j)| == (m.axes[i].Max() - j) * Combos(m.axes, i + 1)
    decreases |m.axes| - i - 1, 1, m.axes[i].Max() - j
  {
    if j < m.axes[i].Max() {
      OffsetsLength(m, i + 1);
      OffsetsFromLength(m, i, j + 1);
      OneMoreTimes(m.axes[i].Max() - j - 1, Combos(m.axes, i + 1));
    }
  }

  lemma SecondPart(s: seq<nat>, t: seq<nat>, k: int)
    requires 0 <= k < |t|
    ensures (s + t)[|s| + k] == t[k]
  {
  }

  /** Index q of axis i, from index j on, takes the q-th run of offsets. */
  lemma {:induction false} OffsetsRun<T>(m: Amend<T>, i: nat, j: nat, q: nat, t: nat)
    requires i < |m.axes| && j <= q < m.axes[i].Max() && t < Combos(m.axes, i + 1)
    ensures var k := (q - j) * Combos(m.axes, i + 1) + t;
            && 0 <= k < |OffsetsFrom(m, i, j)| && t < |Offsets(m, i + 1)|
            && OffsetsFrom(m, i, j)[k] == Offsets(m, i + 1)[t] + m.axes[i].Index(q) * Stride(m.axes, m.cellsize, i)
    decreases q - j
  {
    hide *;
    OffsetsLength(m, i + 1);
    FirstRun(m, i, j);
    var n := Combos(m.axes, i + 1);
    var run := Shifted(Offsets(m, i + 1), m.Base(i, 0, j));
    if j < q {
      OffsetsRun(m, i, j + 1, q, t);
      OneMoreTimes(q - j - 1, n);
      SecondPart(run, OffsetsFrom(m, i, j + 1), (q - j - 1) * n + t);
    } else {
      TimesZero(q - j, n);
    }
  }

  lemma FirstRun<T>(m: Amend<T>, i: nat, j: nat)
    requires i < |m.axes| && j < m.axes[i].Max()
    ensures OffsetsFrom(m, i, j) == Shifted(Offsets(m, i + 1), m.Base(i, 0, j)) + OffsetsFrom(m, i, j + 1)
    ensures m.Base(i, 0, j) == m.axes[i].Index(j) * Stride(m.axes, m.cellsize, i)
  {
  }

  /** Combination d is stored into at its place in row-major order. */
  lemma {:induction false} CombinationStored<T>(m: Amend<T>, d: seq<nat>, i: nat)
    requires i <= |m.axes| == |d| && Digits(m, d, |d|)
    ensures Rank(m, d, i) < |Offsets(m, i)| && Offsets(m, i)[Rank(m, d, i)] == Address(m, d, i)
    decreases |d| - i
  {
    if i < |d| {
      CombinationStored(m, d, i + 1);
      OffsetsLength(m, i + 1);
      OffsetsRun(m, i, 0, d[i], Rank(m, d, i + 1));
    }
  }

  /** Row-major order: an earlier combination has an earlier place, so that no two share one. */
  lemma {:induction false} RankOrdered<T>(m: Amend<T>, d: seq<nat>, e: seq<nat>, i: nat)
    requires |m.axes| == |d| == |e| && Digits(m, d, |d|) && Digits(m, e, |e|)
    requires i < |d| && d[..i] == e[..i] && d[i] < e[i]
    ensures Rank(m, d, 0) < Rank(m, e, 0)
  {
    CombinationStored(m, d, i + 1);
    OffsetsLength(m, i + 1);
    TimesMonotone(d[i] + 1, e[i], Combos(m.axes, i + 1));
    OneMoreTimes(d[i], Combos(m.axes, i + 1));
    assert Rank(m, d, i) < Rank(m, e, i);
    RankOrderedUp(m, d, e, i, i);
  }

  lemma {:induction false} RankOrderedUp<T>(m: Amend<T>, d: seq<nat>, e: seq<nat>, i: nat, k: nat)
    requires |m.axes| == |d| == |e| && k <= i < |d| && d[..i] == e[..i] && Rank(m, d, k) < Rank(m, e, k)
    ensures Rank(m, d, 0) < Rank(m, e, 0)
    decreases k
  {
    if k > 0 {
      assert d[k - 1] == d[..i][k - 1] == e[..i][k - 1] == e[k - 1];
      RankOrderedUp(m, d, e, i, k - 1);
    }
  }

  /** Every place belongs to a combination. */
  lemma {:induction false} PlaceHasCombination<T>(m: Amend<T>, i: nat, k: nat, front: seq<nat>) returns (d: seq<nat>)
    requires m.Valid() && |front| == i <= |m.axes| && Digits(m, front, i) && k < Combos(m.axes, i)
    ensures |d| == |m.axes| && Digits(m, d, |d|) && d[..i] == front && Rank(m, d, i) == k
    decreases |m.axes| - i
  {
    hide *;
    if i == |m.axes| {
      NoMoreAxes(m, front, k);
      d := front;
    } else {
      m.CombosPositive(i + 1);
      OneMoreAxis(m, i);
      var q, r := Divide(k, Combos(m.axes, i + 1), m.axes[i].Max());
      DigitsOf(m, front, q);
      d := PlaceHasCombination(m, i + 1, r, front + [q]);
      RankStep(m, d, i);
      assert d[i] == d[..i + 1][i] == q;
      assert d[..i] == d[..i + 1][..i] == front;
    }
  }

  lemma Divide(k: nat, n: nat, x: nat) returns (q: nat, r: nat)
    requires n > 0 && k < x * n
    ensures q < x && r < n && k == q * n + r
  {
    q, r := k / n, k % n;
    QuotientSmall(k, n, x);
  }

  lemma NoMoreAxes<T>(m: Amend<T>, d: seq<nat>, k: nat)
    requires |d| == |m.axes| && k < Combos(m.axes, |d|)
    ensures k == 0 == Rank(m, d, |d|)
  {
  }

  lemma OneMoreAxis<T>(m: Amend<T>, i: nat)
    requires i < |m.axes|
    ensures Combos(m.axes, i) == m.axes[i].Max() * Combos(m.axes, i + 1)
  {
  }

  lemma DigitsOf<T>(m: Amend<T>, front: seq<nat>, q: nat)
    requires |front| < |m.axes| && Digits(m, front, |front|) && q < m.axes[|front|].Max()
    ensures Digits(m, front + [q], |front| + 1)
  {
  }

  lemma RankStep<T>(m: Amend<T>, d: seq<nat>, i: nat)
    requires i < |d| == |m.axes|
    ensures Rank(m, d, i) == d[i] * Combos(m.axes, i + 1) + Rank(m, d, i + 1)
  {
  }
}
