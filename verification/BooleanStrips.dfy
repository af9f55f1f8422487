/** Prefix scans of Boolean tables, eight columns at a time: each lane of a word follows its own
    column, and masks say which lanes have met the value that decides. */
module BooleanStrips {
  import opened Arith
  import opened BooleanSpec
  import opened BooleanLists

  /** A table of n rows of d bytes that starts at b. */
  datatype Table = Table(x: seq<bool>, b: nat, n: nat, d: nat) {
    ghost predicate Valid() {
      b + n * d + 7 <= |x| && d > 0
    }

    function Address(r: nat, c: nat): (q: nat)
      requires r < n && c < d
      ensures b <= q < b + n * d && q + 7 < b + n * d + 7
    {
      RoomForOne(r, n, d);
      b + r * d + c
    }

    function Column(c: nat): (s: seq<bool>)
      requires Valid() && c < d
      ensures |s| == n && forall r: nat :: r < n ==> s[r] == x[Address(r, c)]
    {
      seq(n, r requires 0 <= r < n && Valid() && c < d => x[Address(r, c)])
    }

    /** What row r and column c of the result is. */
    function Goal(v: Verb, r: nat, c: nat): bool
      requires Valid() && r < n && c < d
    {
      Scan(v, Column(c), r)
    }
  }

  lemma AddressIn(t: Table, r: nat, c: nat, k: nat, c0: nat, w: nat)
    requires r < t.n && c < t.d && k < t.n && 0 < w && c0 + w <= t.d
    ensures t.Address(k, c0) + w <= t.b + t.n * t.d
    ensures t.Address(k, c0) <= t.Address(r, c) < t.Address(k, c0) + w <==> r == k && c0 <= c < c0 + w
    ensures r == k ==> t.Address(r, c) - t.Address(k, c0) == c - c0
  {
    RoomForOne(k, t.n, t.d);
    if r < k {
      RoomForOne(r, k, t.d);
    } else if k < r {
      RoomForOne(k, r, t.d);
    }
  }

  /** The columns before c0, and rows before k of the next w columns, hold the result; everything
      else is as it was. */
  ghost predicate Front(v: Verb, t: Table, z: seq<bool>, z0: seq<bool>, c0: nat, w: nat, k: nat) {
    && t.Valid() && |z| == |z0| && t.b + t.n * t.d <= |z| && c0 + w <= t.d && k <= t.n
    && (forall p: nat :: p < |z| && !(t.b <= p < t.b + t.n * t.d) ==> z[p] == z0[p])
    && forall r: nat, c: nat :: r < t.n && c < t.d ==>
         z[t.Address(r, c)] == if c < c0 || (c < c0 + w && r < k) then t.Goal(v, r, c) else z0[t.Address(r, c)]
  }

  lemma FrontBounds(v: Verb, t: Table, z: seq<bool>, z0: seq<bool>, c0: nat, w: nat, k: nat)
    requires Front(v, t, z, z0, c0, w, k)
    ensures t.Valid() && |z| == |z0| && t.b + t.n * t.d <= |z| && c0 + w <= t.d && k <= t.n
  {
  }

  lemma FrontStarts(v: Verb, t: Table, z: seq<bool>)
    requires t.Valid() && t.b + t.n * t.d <= |z|
    ensures Front(v, t, z, z, 0, 0, 0)
  {
    hide Scan;
  }

  /** A strip that is complete, or has not begun, need not be told apart from its neighbours. */
  lemma FrontTurns(v: Verb, t: Table, z: seq<bool>, z0: seq<bool>, c0: nat, w: nat, w': nat)
    requires Front(v, t, z, z0, c0, w, t.n) && c0 + w + w' <= t.d
    ensures Front(v, t, z, z0, c0 + w, w', 0)
  {
    hide Scan, Table.Goal, Table.Address, Table.Valid;
  }

  /** Row k of the strip is stored. */
  lemma FrontStep(v: Verb, t: Table, z: seq<bool>, z0: seq<bool>, c0: nat, w: nat, k: nat, z': seq<bool>, word: seq<bool>)
    requires Front(v, t, z, z0, c0, w, k) && k < t.n && 0 < w <= 8 && Word(word) && |z'| == |z|
    requires forall l: nat :: l < w ==> word[l] == t.Goal(v, k, c0 + l)
    requires var q := t.Address(k, c0);
             forall p :: 0 <= p < |z| ==> z'[p] == if q <= p < q + w then word[p - q] else z[p]
    ensures Front(v, t, z', z0, c0, w, k + 1)
  {
    var q := t.Address(k, c0);
    AddressIn(t, k, c0, k, c0, w);
    hide Scan, Table.Goal, Table.Valid;
    forall r: nat, c: nat | r < t.n && c < t.d
      ensures z'[t.Address(r, c)] ==
              if c < c0 || (c < c0 + w && r < k + 1) then t.Goal(v, r, c) else z0[t.Address(r, c)]
    {
      AddressIn(t, r, c, k, c0, w);
      hide Table.Address;
      if r == k && c0 <= c < c0 + w {
        assert word[c - c0] == t.Goal(v, k, c0 + (c - c0));
      }
    }
  }

  // ---- Words of lanes.

  function And(a: seq<bool>, b: seq<bool>): (t: seq<bool>)
    requires Word(a) && Word(b)
    ensures Word(t) && forall l :: 0 <= l < 8 ==> t[l] == (a[l] && b[l])
  {
    seq(8, l requires 0 <= l < 8 && Word(a) && Word(b) => a[l] && b[l])
  }

  function AndNot(a: seq<bool>, b: seq<bool>): (t: seq<bool>)
    requires Word(a) && Word(b)
    ensures Word(t) && forall l :: 0 <= l < 8 ==> t[l] == (a[l] && !b[l])
  {
    seq(8, l requires 0 <= l < 8 && Word(a) && Word(b) => a[l] && !b[l])
  }

  /** One value in every lane. */
  function Lanes(a: bool): (t: seq<bool>)
    ensures Word(t) && forall l :: 0 <= l < 8 ==> t[l] == a
  {
    seq(8, l => a)
  }

  /** True in the lowest w lanes: the others are finished to begin with. */
  function LowLanes(w: nat): (t: seq<bool>)
    ensures Word(t) && forall l :: 0 <= l < 8 ==> t[l] == (l < w)
  {
    seq(8, l => l < w)
  }

  predicate AnyLane(t: seq<bool>)
    requires Word(t)
  {
    exists l :: 0 <= l < 8 && t[l]
  }

  /** Lane l of the word read at row k is that row of the column. */
  lemma LaneIs(t: Table, k: nat, c0: nat, w: nat, l: nat)
    requires t.Valid() && k < t.n && l < w <= 8 && c0 + w <= t.d
    ensures t.Address(k, c0) + 8 <= |t.x| && Load(t.x, t.Address(k, c0))[l] == t.Column(c0 + l)[k]
  {
    AddressIn(t, k, c0 + l, k, c0, w);
  }

  // ---- < and <:

  /** Lane l is live while its column has not met the decider in the first k rows. */
  ghost predicate LiveAt(v: Verb, t: Table, c0: nat, w: nat, k: nat, live: seq<bool>) {
    && t.Valid() && Word(live) && w <= 8 && c0 + w <= t.d && k <= t.n
    && (forall l: nat :: w <= l < 8 ==> !live[l])
    && forall l: nat :: l < w ==> live[l] == (FirstIn(t.Column(c0 + l), Decider(v), k) == k)
  }

  lemma LiveStarts(v: Verb, t: Table, c0: nat, w: nat)
    requires t.Valid() && w <= 8 && c0 + w <= t.d
    ensures LiveAt(v, t, c0, w, 0, LowLanes(w))
  {
    hide Scan;
  }

  lemma LiveWord(v: Verb, t: Table, c0: nat, w: nat, k: nat, live: seq<bool>)
    requires LiveAt(v, t, c0, w, k, live)
    ensures t.Valid() && |live| == 8 && Word(live) && w <= 8 && c0 + w <= t.d && k <= t.n
  {
  }

  /** What the row makes of the live lanes. */
  lemma LiveStep(v: Verb, t: Table, c0: nat, w: nat, k: nat, live: seq<bool>, found: seq<bool>)
    requires LiveAt(v, t, c0, w, k, live) && k < t.n && Word(found)
    requires forall l: nat :: l < w ==> found[l] == (t.Column(c0 + l)[k] == Decider(v))
    ensures Word(live) && LiveAt(v, t, c0, w, k + 1, AndNot(live, found))
  {
    hide FirstIn, Table.Column, Decider, Table.Valid;
    forall l: nat | l < w
      ensures AndNot(live, found)[l] == (FirstIn(t.Column(c0 + l), Decider(v), k + 1) == k + 1)
    {
      FirstStep(t.Column(c0 + l), Decider(v), k);
    }
  }

  lemma FirstInTable(v: Verb, s: seq<bool>, k: nat)
    requires v in {Lt, Le} && k < |s|
    ensures Scan(v, s, k) ==
            if FirstIn(s, Decider(v), k) == k && s[k] == Decider(v) then Decider(v) else !Decider(v)
  {
    hide FirstIn, Scan;
    LtForm(v, s, k);
    FirstPrefix(s, Decider(v), k);
    FirstPrefix(s, Decider(v), k + 1);
    FirstStep(s, Decider(v), k);
  }

  lemma LtLane(v: Verb, t: Table, c0: nat, w: nat, k: nat, live: seq<bool>, l: nat)
    requires v in {Lt, Le} && LiveAt(v, t, c0, w, k, live) && k < t.n && l < w
    ensures Word(live) && t.Goal(v, k, c0 + l) == if live[l] && t.Column(c0 + l)[k] == Decider(v) then Decider(v) else !Decider(v)
  {
    FirstInTable(v, t.Column(c0 + l), k);
    hide FirstIn, Table.Column, Scan, Decider;
  }

  /** With no live lane left the rest of the strip holds the value that does not decide. */
  lemma DeadStrip(v: Verb, t: Table, z: seq<bool>, z0: seq<bool>, c0: nat, w: nat, k: nat, live: seq<bool>)
    requires v in {Lt, Le} && Front(v, t, z, z0, c0, w, k) && LiveAt(v, t, c0, w, k, live)
    requires Word(live) && !AnyLane(live) && Filled(z0, t.b, t.n * t.d, !Decider(v))
    ensures Front(v, t, z, z0, c0, w, t.n)
  {
    hide Scan, FirstIn, Table.Address, Table.Column, Table.Goal, Decider;
    forall r: nat, c: nat | r < t.n && c < t.d
      ensures z[t.Address(r, c)] ==
              if c < c0 || (c < c0 + w && r < t.n) then t.Goal(v, r, c) else z0[t.Address(r, c)]
    {
      if c0 <= c < c0 + w && r >= k {
        DeadLane(v, t, c0, w, k, live, c - c0, r);
        assert z0[t.Address(r, c)] == !Decider(v);
      }
    }
  }

  lemma DeadLane(v: Verb, t: Table, c0: nat, w: nat, k: nat, live: seq<bool>, l: nat, r: nat)
    requires v in {Lt, Le} && LiveAt(v, t, c0, w, k, live) && Word(live) && !AnyLane(live) && l < w && k <= r < t.n
    ensures t.Goal(v, r, c0 + l) == !Decider(v)
  {
    assert !live[l];
    FirstInTable(v, t.Column(c0 + l), r);
    FirstPrefix(t.Column(c0 + l), Decider(v), k);
    FirstPrefix(t.Column(c0 + l), Decider(v), r);
    hide FirstIn, Scan, Table.Column, Decider;
  }

  /** One strip of < or <: down the rows, till every lane has met the decider. */
  method StripLt(v: Verb, x: seq<bool>, z: array<bool>, b: nat, n: nat, d: nat, c0: nat, w: nat, ghost z0: seq<bool>)
    requires v in {Lt, Le} && var t := Table(x, b, n, d);
             Front(v, t, z[..], z0, c0, w, 0) && 0 < w <= 8 && Filled(z0, b, n * d, !Decider(v))
    modifies z
    ensures Front(v, Table(x, b, n, d), z[..], z0, c0, w, n)
  {
    hide *;
    ghost var t := Table(x, b, n, d);
    FrontBounds(v, t, z[..], z0, c0, w, 0);
    LiveStarts(v, t, c0, w);
    var npp, livelane := Lanes(!Decider(v)), LowLanes(w);
    NppIs(npp, !Decider(v));
    var k, q := 0, b + c0;
    while k < n
      invariant 0 <= k <= n && q == b + k * d + c0
      invariant Front(v, t, z[..], z0, c0, w, k) && LiveAt(v, t, c0, w, k, livelane)
    {
      LiveWord(v, t, c0, w, k, livelane);
      RowAddress(t, k, c0);
      ghost var z1, live := z[..], livelane;
      var xi := Load(x, q);
      WordIs(xi);
      var found := Xor(xi, npp);
      var word := Xor(npp, And(found, livelane));
      LtWord(v, t, c0, w, k, live, xi, npp);
      FrontBounds(v, t, z1, z0, c0, w, k);
      StoreLanes(z, q, word, w);
      FrontStep(v, t, z1, z0, c0, w, k, z[..], word);
      livelane := AndNot(livelane, found);
      LiveStep(v, t, c0, w, k, live, found);
      if !AnyLane(livelane) {
        LiveWord(v, t, c0, w, k + 1, livelane);
        DeadStrip(v, t, z[..], z0, c0, w, k + 1, livelane);
        return;
      }
      k, q := k + 1, q + d;
    }
  }

  lemma NppIs(npp: seq<bool>, a: bool)
    requires npp == Lanes(a)
    ensures Word(npp) && |npp| == 8 && forall l :: 0 <= l < 8 ==> npp[l] == a
  {
  }

  lemma RowAddress(t: Table, k: nat, c0: nat)
    requires t.Valid() && k < t.n && c0 < t.d
    ensures t.Address(k, c0) == t.b + k * t.d + c0 && t.Address(k, c0) + 8 <= |t.x|
    ensures t.b + (k + 1) * t.d + c0 == t.b + k * t.d + c0 + t.d
  {
    OneMoreTimes(k, t.d);
  }

  /** The word that is stored, and the lanes that have been found. */
  lemma LtWord(v: Verb, t: Table, c0: nat, w: nat, k: nat, live: seq<bool>, xi: seq<bool>, npp: seq<bool>)
    requires v in {Lt, Le} && LiveAt(v, t, c0, w, k, live) && k < t.n && 0 < w && Word(npp)
    requires t.Valid() && c0 < t.d && t.Address(k, c0) + 8 <= |t.x| && xi == Load(t.x, t.Address(k, c0))
    requires forall l :: 0 <= l < 8 ==> npp[l] == !Decider(v)
    ensures Word(xi) && Word(live)
    ensures forall l: nat :: l < w ==> Xor(xi, npp)[l] == (t.Column(c0 + l)[k] == Decider(v))
    ensures forall l: nat :: l < w ==> Xor(npp, And(Xor(xi, npp), live))[l] == t.Goal(v, k, c0 + l)
    ensures t.Address(k, c0) + w <= t.b + t.n * t.d
  {
    AddressIn(t, k, c0, k, c0, w);
    hide Table.Goal, Table.Column, Table.Address, Load, Decider;
    forall l: nat | l < w
      ensures Xor(xi, npp)[l] == (t.Column(c0 + l)[k] == Decider(v))
      ensures Xor(npp, And(Xor(xi, npp), live))[l] == t.Goal(v, k, c0 + l)
    {
      LaneIs(t, k, c0, w, l);
      LtLane(v, t, c0, w, k, live, l);
    }
  }

  // ---- >, >:, +: and *:

  /** The value of a lane after the first k rows, before row k adjusts it. */
  function Pending(v: Verb, j: nat, k: nat): bool {
    if j >= k then !Decider(v) != Odd(k) else if j + 1 == k then Decider(v) != Odd(j) else Decided(v) != Odd(j)
  }

  /** The masks of lanes still live and of lanes that met the decider in the row before, and the value
      to be stored next. */
  ghost predicate LanesAt(v: Verb, t: Table, c0: nat, w: nat, k: nat, live: seq<bool>, hit: seq<bool>, val: seq<bool>) {
    && t.Valid() && Word(live) && Word(hit) && Word(val) && w <= 8 && c0 + w <= t.d && k <= t.n
    && forall l: nat :: l < w ==> LaneAt(v, t.Column(c0 + l), k, live[l], hit[l], val[l])
  }

  ghost predicate LaneAt(v: Verb, s: seq<bool>, k: nat, live: bool, hit: bool, val: bool)
    requires k <= |s|
  {
    var j := FirstIn(s, Decider(v), k);
    live == (j == k) && hit == (j + 1 == k) && val == Pending(v, j, k)
  }

  /** One lane at one row: the adjusted value is the result, and the masks are right for the next. */
  lemma LaneStep(v: Verb, s: seq<bool>, k: nat, live: bool, hit: bool, val: bool)
    requires v in {Gt, Ge, Nor, Nand} && k < |s| && LaneAt(v, s, k, live, hit, val)
    ensures var pp, pa, ps := !Decider(v), Decider(v), Decided(v);
            var hit' := (s[k] == Decider(v)) && live;
            var live' := live && !hit';
            var out := val != ((hit' && (pa != pp)) != (hit && (ps != pa)));
            out == Scan(v, s, k) && LaneAt(v, s, k + 1, live', hit', out != live')
  {
    hide FirstIn, Scan;
    ScanForm(v, s, k);
    FirstStep(s, Decider(v), k);
    OddNext(k);
  }

  lemma OddNext(k: nat)
    ensures Odd(k + 1) == !Odd(k)
  {
  }

  lemma LanesStart(v: Verb, t: Table, c0: nat, w: nat)
    requires v in {Gt, Ge, Nor, Nand} && t.Valid() && w <= 8 && c0 + w <= t.d
    ensures LanesAt(v, t, c0, w, 0, LowLanes(w), Lanes(false), Lanes(!Decider(v)))
  {
    hide Scan, Decider;
  }

  lemma LanesWord(v: Verb, t: Table, c0: nat, w: nat, k: nat, live: seq<bool>, hit: seq<bool>, val: seq<bool>)
    requires LanesAt(v, t, c0, w, k, live, hit, val)
    ensures t.Valid() && |live| == |hit| == |val| == 8 && Word(live) && Word(hit) && Word(val)
    ensures w <= 8 && c0 + w <= t.d && k <= t.n
  {
  }

  /** The parameters in every lane, combined as the loop uses them. */
  ghost predicate Parameters(v: Verb, a: seq<bool>, pa: seq<bool>, ps: seq<bool>) {
    && Word(a) && Word(pa) && Word(ps)
    && forall l :: 0 <= l < 8 ==>
         a[l] == !Decider(v) && pa[l] == (Decider(v) != !Decider(v)) && ps[l] == (Decided(v) != Decider(v))
  }

  lemma ParametersWords(v: Verb, a: seq<bool>, pa: seq<bool>, ps: seq<bool>)
    requires Parameters(v, a, pa, ps)
    ensures |a| == |pa| == |ps| == 8 && Word(a) && Word(pa) && Word(ps)
  {
  }

  /** All lanes at one row. */
  lemma LanesStep(v: Verb, t: Table, c0: nat, w: nat, k: nat, live: seq<bool>, hit: seq<bool>, val: seq<bool>,
                  xi: seq<bool>, a: seq<bool>, pa: seq<bool>, ps: seq<bool>)
    returns (live': seq<bool>, hit': seq<bool>, out: seq<bool>)
    requires v in {Gt, Ge, Nor, Nand} && LanesAt(v, t, c0, w, k, live, hit, val) && k < t.n && 0 < w
    requires Parameters(v, a, pa, ps)
    requires t.Valid() && c0 < t.d && t.Address(k, c0) + 8 <= |t.x| && xi == Load(t.x, t.Address(k, c0))
    ensures Word(live) && Word(hit) && Word(val) && Word(xi) && Word(a) && Word(pa) && Word(ps)
    ensures hit' == And(Xor(xi, a), live) && live' == AndNot(live, hit')
    ensures out == Xor(val, Xor(And(hit', pa), And(hit, ps)))
    ensures LanesAt(v, t, c0, w, k + 1, live', hit', Xor(out, live'))
    ensures forall l: nat :: l < w ==> out[l] == t.Goal(v, k, c0 + l)
    ensures t.Address(k, c0) + w <= t.b + t.n * t.d
  {
    AddressIn(t, k, c0, k, c0, w);
    hit' := And(Xor(xi, a), live);
    live' := AndNot(live, hit');
    out := Xor(val, Xor(And(hit', pa), And(hit, ps)));
    hide Table.Column, Table.Address, Load, Decider, Decided, LaneAt, Scan, And, AndNot, Xor;
    forall l: nat | l < w
      ensures LaneAt(v, t.Column(c0 + l), k + 1, live'[l], hit'[l], Xor(out, live')[l])
      ensures out[l] == t.Goal(v, k, c0 + l)
    {
      LaneIs(t, k, c0, w, l);
      assert LaneAt(v, t.Column(c0 + l), k, live[l], hit[l], val[l]);
      LaneStep(v, t.Column(c0 + l), k, live[l], hit[l], val[l]);
    }
  }

  /** One strip of >, >:, +: or *: down all the rows. */
  method StripGt(v: Verb, x: seq<bool>, z: array<bool>, b: nat, n: nat, d: nat, c0: nat, w: nat,
                 a: seq<bool>, pp: seq<bool>, pa: seq<bool>, ps: seq<bool>, ghost z0: seq<bool>)
    requires v in {Gt, Ge, Nor, Nand} && Front(v, Table(x, b, n, d), z[..], z0, c0, w, 0) && 0 < w <= 8
    requires Parameters(v, a, pa, ps) && pp == Lanes(!Decider(v))
    modifies z
    ensures Front(v, Table(x, b, n, d), z[..], z0, c0, w, n)
  {
    hide *;
    ghost var t := Table(x, b, n, d);
    FrontBounds(v, t, z[..], z0, c0, w, 0);
    LanesStart(v, t, c0, w);
    ParametersWords(v, a, pa, ps);
    var livelane, hit, storeval := LowLanes(w), Lanes(false), pp;
    var k, q := 0, b + c0;
    while k < n
      invariant 0 <= k <= n && q == b + k * d + c0
      invariant Front(v, t, z[..], z0, c0, w, k) && LanesAt(v, t, c0, w, k, livelane, hit, storeval)
    {
      LanesWord(v, t, c0, w, k, livelane, hit, storeval);
      RowAddress(t, k, c0);
      ghost var z1 := z[..];
      FrontBounds(v, t, z1, z0, c0, w, k);
      var xi := Load(x, q);
      ghost var live', hit', out := LanesStep(v, t, c0, w, k, livelane, hit, storeval, xi, a, pa, ps);
      var posthit := hit;
      hit := And(Xor(xi, a), livelane);
      livelane := AndNot(livelane, hit);
      storeval := Xor(storeval, Xor(And(hit, pa), And(posthit, ps)));
      StoreLanes(z, q, storeval, w);
      FrontStep(v, t, z1, z0, c0, w, k, z[..], storeval);
      storeval := Xor(storeval, livelane);
      k, q := k + 1, q + d;
    }
  }

  // ---- Whole tables.

  /** One table: its strips of eight columns, and the last one. */
  method ScanTable(v: Verb, x: seq<bool>, z: array<bool>, b: nat, n: nat, d: nat)
    requires v != Ne && v != Eq && Table(x, b, n, d).Valid() && b + n * d <= z.Length
    requires v in {Lt, Le} ==> Filled(z[..], b, n * d, !Decider(v))
    modifies z
    ensures Front(v, Table(x, b, n, d), z[..], old(z[..]), 0, d, n)
  {
    hide *;
    ghost var t, z0 := Table(x, b, n, d), z[..];
    TableHasColumns(t);
    FrontStarts(v, t, z0);
    FrontNothing(v, t, z0);
    var c0 := 0;
    while d - c0 > 8
      invariant 0 <= c0 < d && Front(v, t, z[..], z0, 0, c0, n)
    {
      Widen(v, t, z[..], z0, c0, 8);
      Strip(v, x, z, b, n, d, c0, 8, z0);
      Join(v, t, z[..], z0, c0, 8);
      c0 := c0 + 8;
    }
    Widen(v, t, z[..], z0, c0, d - c0);
    Strip(v, x, z, b, n, d, c0, d - c0, z0);
    Join(v, t, z[..], z0, c0, d - c0);
  }

  lemma TableHasColumns(t: Table)
    requires t.Valid()
    ensures t.d > 0
  {
  }

  lemma FrontNothing(v: Verb, t: Table, z: seq<bool>)
    requires Front(v, t, z, z, 0, 0, 0)
    ensures Front(v, t, z, z, 0, 0, t.n)
  {
    hide Table.Goal, Table.Address, Table.Valid;
  }

  lemma Widen(v: Verb, t: Table, z: seq<bool>, z0: seq<bool>, c0: nat, w: nat)
    requires Front(v, t, z, z0, 0, c0, t.n) && c0 + w <= t.d
    ensures Front(v, t, z, z0, c0, w, 0)
  {
    FrontTurns(v, t, z, z0, 0, c0, w);
  }

  lemma Join(v: Verb, t: Table, z: seq<bool>, z0: seq<bool>, c0: nat, w: nat)
    requires Front(v, t, z, z0, c0, w, t.n)
    ensures Front(v, t, z, z0, 0, c0 + w, t.n)
  {
    hide Table.Goal, Table.Address, Table.Valid;
  }

  method Strip(v: Verb, x: seq<bool>, z: array<bool>, b: nat, n: nat, d: nat, c0: nat, w: nat, ghost z0: seq<bool>)
    requires v != Ne && v != Eq && Front(v, Table(x, b, n, d), z[..], z0, c0, w, 0) && 0 < w <= 8
    requires v in {Lt, Le} ==> Filled(z0, b, n * d, !Decider(v))
    modifies z
    ensures Front(v, Table(x, b, n, d), z[..], z0, c0, w, n)
  {
    hide Front, Filled;
    if v in {Lt, Le} {
      StripLt(v, x, z, b, n, d, c0, w, z0);
    } else {
      ApasIs(v);
      var apas := Apas(v);
      var a, pp := Lanes(!BitAt(apas, 0)), Lanes(BitAt(apas, 1));
      var pa, ps := Lanes(BitAt(apas, 2) != BitAt(apas, 1)), Lanes(BitAt(apas, 3) != BitAt(apas, 2));
      StripGt(v, x, z, b, n, d, c0, w, a, pp, pa, ps, z0);
    }
  }

  /** Table i of m, each of n rows of d bytes, holds the result. */
  ghost predicate TablesDone(v: Verb, x: seq<bool>, z: seq<bool>, m: nat, n: nat, d: nat) {
    forall i: nat :: i < m ==> TableDone(v, Table(x, i * (n * d), n, d), z)
  }

  ghost predicate TableDone(v: Verb, t: Table, z: seq<bool>) {
    t.Valid() && t.b + t.n * t.d <= |z|
    && forall r: nat, c: nat :: r < t.n && c < t.d ==> z[t.Address(r, c)] == t.Goal(v, r, c)
  }

  lemma FrontDone(v: Verb, t: Table, z: seq<bool>, z0: seq<bool>)
    requires Front(v, t, z, z0, 0, t.d, t.n)
    ensures TableDone(v, t, z) && |z| == |z0|
    ensures forall p: nat :: p < |z| && !(t.b <= p < t.b + t.n * t.d) ==> z[p] == z0[p]
  {
    hide Table.Goal, Table.Address;
  }

  lemma TableKept(v: Verb, t: Table, z: seq<bool>, z': seq<bool>, q: nat)
    requires TableDone(v, t, z) && |z| == |z'| && t.b + t.n * t.d <= q && forall p: nat :: p < q && p < |z| ==> z'[p] == z[p]
    ensures TableDone(v, t, z')
  {
    hide Table.Goal;
  }

  lemma NextTable(v: Verb, x: seq<bool>, z: seq<bool>, z': seq<bool>, i: nat, n: nat, d: nat)
    requires TablesDone(v, x, z, i, n, d) && TableDone(v, Table(x, i * (n * d), n, d), z') && |z| == |z'|
    requires forall p: nat :: p < i * (n * d) && p < |z| ==> z'[p] == z[p]
    ensures TablesDone(v, x, z', i + 1, n, d)
  {
    hide TableDone;
    var nd := n * d;
    forall k: nat | k < i + 1 ensures TableDone(v, Table(x, k * nd, n, d), z') {
      if k < i {
        RoomForOne(k, i, nd);
        assert TableDone(v, Table(x, k * nd, n, d), z);
        TableKept(v, Table(x, k * nd, n, d), z, z', i * nd);
      }
    }
  }

  /** What is left to be scanned is filled, for the scans that need it. */
  ghost predicate Ready(v: Verb, z: seq<bool>, b: nat, n: nat) {
    v in {Lt, Le} ==> Filled(z, b, n, !Decider(v))
  }

  lemma ReadyPart(v: Verb, z: seq<bool>, b: nat, n: nat, k: nat)
    requires Ready(v, z, b, n) && k <= n
    ensures v in {Lt, Le} ==> Filled(z, b, k, !Decider(v))
  {
  }

  lemma ReadyRest(v: Verb, z: seq<bool>, z': seq<bool>, b: nat, n: nat, k: nat)
    requires Ready(v, z, b, n) && k <= n && |z| == |z'|
    requires forall p: nat :: p < |z| && !(b <= p < b + k) ==> z'[p] == z[p]
    ensures Ready(v, z', b + k, n - k)
  {
    hide Decider;
  }

  method Fill(v: Verb, z: array<bool>, n: nat)
    requires n <= z.Length
    modifies z
    ensures Ready(v, z[..], 0, n)
    ensures forall p: nat :: n <= p < z.Length ==> z[p] == old(z[p])
  {
    if v in {Lt, Le} {
      for p := 0 to n
        invariant forall l: nat :: l < p ==> z[l] == !Decider(v)
        invariant forall l: nat :: n <= l < z.Length ==> z[l] == old(z[l])
      {
        z[p] := !Decider(v);
      }
    }
  }

  /** The prefix scan of table i. */
  method ScanNext(v: Verb, x: seq<bool>, z: array<bool>, ghost i: nat, n: nat, d: nat, b: nat, ghost nd: nat, ghost total: nat)
    requires v != Ne && v != Eq && d > 0 && nd == n * d && AtTable(b, i, nd) && b + nd <= total <= z.Length && total + 7 <= |x|
    requires TablesDone(v, x, z[..], i, n, d) && Ready(v, z[..], b, total - b)
    modifies z
    ensures TablesDone(v, x, z[..], i + 1, n, d) && Ready(v, z[..], b + nd, total - b - nd)
    ensures forall p: nat :: total <= p < z.Length ==> z[p] == old(z[p])
  {
    hide *;
    ghost var z0, t := z[..], Table(x, b, n, d);
    TableIsAt(b, i, nd);
    TableIsValid(t);
    ReadyPart(v, z0, b, total - b, nd);
    ScanTable(v, x, z, b, n, d);
    FrontDone(v, t, z[..], z0);
    NextTable(v, x, z0, z[..], i, n, d);
    ReadyRest(v, z0, z[..], b, total - b, nd);
  }

  /** The prefix scan of every table of m, column by column. */
  method ScanTables(v: Verb, x: seq<bool>, z: array<bool>, m: nat, n: nat, d: nat)
    requires v != Ne && v != Eq && d > 0 && m * (n * d) + 7 <= |x| && m * (n * d) <= z.Length
    modifies z
    ensures TablesDone(v, x, z[..], m, n, d)
    ensures forall p: nat :: m * (n * d) <= p < z.Length ==> z[p] == old(z[p])
  {
    hide *;
    var nd := Area(n, d);
    var total := Area(m, nd);
    Fill(v, z, total);
    ghost var z0 := z[..];
    TablesNone(v, x, z0, n, d);
    var i: nat, b: nat := 0, 0;
    FirstTable(nd);
    while i < m
      invariant 0 <= i <= m && AtTable(b, i, nd) && b <= total && TablesDone(v, x, z[..], i, n, d)
      invariant Ready(v, z[..], b, total - b)
      invariant forall p: nat :: total <= p < z.Length ==> z[p] == z0[p]
    {
      TableFits(b, i, m, nd, total);
      ScanNext(v, x, z, i, n, d, b, nd, total);
      i, b := i + 1, b + nd;
    }
  }

  lemma TableIsValid(t: Table)
    requires t.d > 0 && t.b + t.n * t.d + 7 <= |t.x|
    ensures t.Valid()
  {
  }

  lemma TablesNone(v: Verb, x: seq<bool>, z: seq<bool>, n: nat, d: nat)
    ensures TablesDone(v, x, z, 0, n, d)
  {
  }

  function Area(n: nat, d: nat): (a: nat)
    ensures a == n * d
  {
    TimesMonotone(0, n, d);
    n * d
  }

  /** b is where table i begins. */
  ghost predicate AtTable(b: nat, i: nat, nd: nat) {
    b == i * nd
  }

  lemma TableIsAt(b: nat, i: nat, nd: nat)
    ensures AtTable(b, i, nd) <==> b == i * nd
  {
  }

  lemma FirstTable(nd: nat)
    ensures AtTable(0, 0, nd)
  {
  }

  lemma TableFits(b: nat, i: nat, m: nat, nd: nat, total: nat)
    requires i < m && AtTable(b, i, nd) && total == m * nd
    ensures b + nd <= total && AtTable(b + nd, i + 1, nd)
  {
    RoomForOne(i, m, nd);
    OneMoreTimes(i, nd);
  }
}
