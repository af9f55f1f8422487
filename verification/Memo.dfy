/** The memo table behind `u M.`: an open-addressed hash table with downward linear
    probing, over parallel tables of keys and results.  The hash is emptied when it
    grows and is rebuilt by the next insertion. */
module Memo {
  import opened Wrappers

  const IMIN: int := -0x8000_0000_0000_0000
  const W32: int := 0x1_0000_0000
  const W64: int := 0x1_0000_0000_0000_0000

  /** The starting slot of the pair (x,y) in a table of n slots: unsigned 64-bit arithmetic,
      cut to 32 bits, scaled by n in 64 bits, and the high half taken. */
  function Home(n: nat, x: int, y: int): (h: nat)
    requires n > 0
    ensures h < n
  {
    var h32 := (7 * (x % W64) + 10495464745870458733 * (y % W64)) % W64 % W32;
    HomeInRange(h32, n);
    h32 * n % W64 / W32
  }

  lemma HomeInRange(h32: nat, n: nat)
    requires h32 < W32 && n > 0
    ensures 0 <= h32 * n % W64 / W32 < n
  {
    if n < W32 {
      ProductBelow(h32, n);
      assert h32 * n % W64 == h32 * n;
      QuotientBelow(h32 * n, n);
    }
  }

  lemma ProductBelow(h32: nat, n: nat)
    requires h32 < W32 && 0 < n < W32
    ensures h32 * n < W32 * n < W64
  {
  }

  lemma QuotientBelow(p: nat, n: nat)
    requires p < W32 * n
    ensures p / W32 < n
  {
  }

  /** How many downward steps lead from slot h to slot p in a table of n slots. */
  function Steps(h: int, p: int, n: int): int {
    if p <= h then h - p else h - p + n
  }

  // ---- What a table stands for: the log of its insertions, searched from the oldest.

  datatype Entry<V> = Entry(x: int, y: int, value: V)

  predicate Matches<V>(e: Entry<V>, x: int, y: int) {
    e.x == x && e.y == y
  }

  function Lookup<V>(log: seq<Entry<V>>, x: int, y: int): Option<V> {
    if log == [] then None
    else if Matches(log[0], x, y) then Some(log[0].value)
    else Lookup(log[1..], x, y)
  }

  lemma {:induction false} LookupFirst<V>(log: seq<Entry<V>>, x: int, y: int, i: nat)
    requires i < |log| && Matches(log[i], x, y)
    requires forall j :: 0 <= j < i ==> !Matches(log[j], x, y)
    ensures Lookup(log, x, y) == Some(log[i].value)
  {
    if i > 0 {
      LookupFirst(log[1..], x, y, i - 1);
    }
  }

  lemma {:induction false} LookupNone<V>(log: seq<Entry<V>>, x: int, y: int)
    requires forall j :: 0 <= j < |log| ==> !Matches(log[j], x, y)
    ensures Lookup(log, x, y) == None
  {
    if log != [] {
      LookupNone(log[1..], x, y);
    }
  }

  /** An insertion decides the lookups of its own key, and only when the key is new. */
  lemma {:induction false} LookupAfterInsert<V>(log: seq<Entry<V>>, e: Entry<V>, x: int, y: int)
    ensures Lookup(log + [e], x, y) ==
            if Lookup(log, x, y).None? && Matches(e, x, y) then Some(e.value) else Lookup(log, x, y)
  {
    if log == [] {
      assert (log + [e])[1..] == [];
    } else {
      assert (log + [e])[1..] == log[1..] + [e];
      LookupAfterInsert(log[1..], e, x, y);
    }
  }

  /** The finite map a log stands for: the first result stored under a pair is the one kept. */
  function AsMap<V>(log: seq<Entry<V>>): map<(int, int), V> {
    if log == [] then map[]
    else
      var m, e := AsMap(log[..|log| - 1]), log[|log| - 1];
      if (e.x, e.y) in m then m else m[(e.x, e.y) := e.value]
  }

  lemma {:induction false} LookupIsMap<V>(log: seq<Entry<V>>, x: int, y: int)
    ensures Lookup(log, x, y) == if (x, y) in AsMap(log) then Some(AsMap(log)[(x, y)]) else None
  {
    if log != [] {
      LookupIsMap(log[..|log| - 1], x, y);
      LookupAfterInsert(log[..|log| - 1], log[|log| - 1], x, y);
      assert log == log[..|log| - 1] + [log[|log| - 1]];
    }
  }

  function Below(n: nat): (r: set<int>)
    ensures forall p :: p in r <==> 0 <= p < n
    ensures |r| == n
  {
    if n == 0 then {} else Below(n - 1) + {n - 1}
  }

  function Elements(s: seq<int>): (r: set<int>)
    ensures forall p :: p in r <==> p in s
    ensures |r| <= |s|
  {
    if s == [] then {} else {s[0]} + Elements(s[1..])
  }

  /** Fewer slots than the table has leave one of its slots free. */
  lemma FreeSlotExists(slots: seq<int>, n: nat)
    requires |slots| < n
    ensures exists p :: 0 <= p < n && p !in slots
  {
    var all, taken := Below(n), Elements(slots);
    assert all == (all - taken) + (all * taken);
    assert taken == (taken - all) + (all * taken);
    assert all - taken != {};
    var p :| p in all - taken;
  }

  /** The three tables held by a memoed verb.  A key row holds the right argument first. */
  class Table<V(0)> {
    const granted: nat -> nat  // slots the allocator hands out for a request; 0 when it fails
    var hash: array<int>         // -1 for an empty slot, else an index into keys and results
    var hashCount: nat
    var keys: array<(int, int)>
    var keyCount: nat
    var results: array<V>
    var resultCount: nat
    ghost var slots: seq<int>    // where the hash holds each entry

    ghost predicate Shape()
      reads this
    {
      && hash as object != results && keys as object != results && hash as object != keys
      && keyCount == resultCount <= keys.Length
      && resultCount <= results.Length
      && keys.Length > 0 && results.Length > 0
      && hash.Length >= 3 && 2 * resultCount <= hash.Length + 2
      && (forall n :: granted(n) == 0 || granted(n) >= n)
      && |slots| == hashCount
    }

    /** Entry i sits where probing from its home slot leads, past older entries only. */
    ghost predicate Placed(i: nat)
      requires Shape() && i < hashCount <= keyCount
      reads this, hash, keys
    {
      var home := Home(hash.Length, keys[i].1, keys[i].0);
      && 0 <= slots[i] < hash.Length && hash[slots[i]] == i
      && forall p :: 0 <= p < hash.Length && Steps(home, p, hash.Length) < Steps(home, slots[i], hash.Length)
                     ==> 0 <= hash[p] < i
    }

    ghost predicate Indexed()
      requires Shape() && hashCount <= keyCount
      reads this, hash, keys
    {
      && (forall p :: 0 <= p < hash.Length ==> hash[p] == -1 || (0 <= hash[p] < hashCount && slots[hash[p]] == p))
      && (forall i :: 0 <= i < hashCount ==> Placed(i))
    }

    /** The hash indexes every entry, or was emptied by its growth and indexes none. */
    ghost predicate Valid()
      reads this, hash, keys
    {
      && Shape()
      && (hashCount == resultCount || (hashCount == 0 && 2 * resultCount <= hash.Length))
      && Indexed()
    }

    function Log(): (log: seq<Entry<V>>)
      requires keyCount == resultCount <= keys.Length && resultCount <= results.Length
      reads this, keys, results
      ensures |log| == resultCount
      ensures forall i :: 0 <= i < resultCount ==> log[i] == Entry(keys[i].1, keys[i].0, results[i])
    {
      seq(resultCount, i requires 0 <= i < keyCount <= keys.Length && keyCount <= results.Length
                         reads this, keys, results
                         => Entry(keys[i].1, keys[i].0, results[i]))
    }

    constructor (hashSize: nat, size: nat, granted: nat -> nat)
      requires hashSize >= 3 && size > 0
      requires forall n :: granted(n) == 0 || granted(n) >= n
      ensures Valid() && fresh(hash) && fresh(keys) && fresh(results)
      ensures Log() == []
    {
      this.granted := granted;
      hash := new int[hashSize](_ => -1);
      hashCount, keyCount, resultCount := 0, 0, 0;
      keys := new (int, int)[size];
      results := new V[size];
      slots := [];
    }

    /** Some slot is empty, so that probing for an absent key ends. */
    lemma EmptySlotExists() returns (e: nat)
      requires Valid()
      ensures e < hash.Length && hash[e] == -1
    {
      FreeSlotExists(slots, hash.Length);
      var p :| 0 <= p < hash.Length && p !in slots;
      e := p;
    }

    /** What probing has seen decides the lookup. */
    lemma ProbeDecides(x: int, y: int, p: nat)
      requires Valid() && hashCount == resultCount && p < hash.Length
      requires var home := Home(hash.Length, x, y);
               forall q :: 0 <= q < hash.Length && Steps(home, q, hash.Length) < Steps(home, p, hash.Length)
                           ==> hash[q] >= 0 && !Matches(Log()[hash[q]], x, y)
      requires hash[p] < 0 || Matches(Log()[hash[p]], x, y)
      ensures Lookup(Log(), x, y) == if hash[p] < 0 then None else Some(results[hash[p]])
    {
      var home := Home(hash.Length, x, y);
      forall j | 0 <= j < resultCount && (hash[p] < 0 || j < hash[p])
        ensures !Matches(Log()[j], x, y)
      {
        assert Placed(j);
      }
      if hash[p] < 0 {
        LookupNone(Log(), x, y);
      } else {
        LookupFirst(Log(), x, y, hash[p]);
      }
    }

    /** Look up a pair.  A hash emptied by its growth answers "not found" until it is rebuilt. */
    method Get(x: int, y: int) returns (z: Option<V>)
      requires Valid()
      ensures z == if hashCount == resultCount then Lookup(Log(), x, y) else None
    {
      z := None;
      var hi := Home(hash.Length, x, y);
      ghost var home := hi;
      ghost var e := EmptySlotExists();
      while hash[hi] >= 0
        invariant 0 <= hi < hash.Length && z == None
        invariant forall q :: 0 <= q < hash.Length && Steps(home, q, hash.Length) < Steps(home, hi, hash.Length)
                              ==> hash[q] >= 0 && !Matches(Log()[hash[q]], x, y)
        decreases Steps(hi, e, hash.Length)
      {
        if keys[hash[hi]].0 == y && keys[hash[hi]].1 == x {
          ProbeDecides(x, y, hi);
          z := Some(results[hash[hi]]);
          return;
        }
        hi := hi - 1;
        if hi < 0 {
          hi := hi + hash.Length;
        }
      }
      if hashCount == resultCount {
        ProbeDecides(x, y, hi);
      }
    }

    /** Find where probing for a new entry ends. */
    method FindEmpty(x: int, y: int) returns (hi: nat)
      requires Shape() && hashCount <= keyCount && hashCount < hash.Length && Indexed()
      ensures hi < hash.Length && hash[hi] == -1
      ensures var home := Home(hash.Length, x, y);
              forall p :: 0 <= p < hash.Length && Steps(home, p, hash.Length) < Steps(home, hi, hash.Length)
                          ==> 0 <= hash[p] < hashCount
    {
      var h: int := Home(hash.Length, x, y);
      ghost var home := h;
      FreeSlotExists(slots, hash.Length);
      ghost var e :| 0 <= e < hash.Length && e !in slots;
      while 0 <= hash[h]
        invariant 0 <= h < hash.Length
        invariant forall q :: 0 <= q < hash.Length && Steps(home, q, hash.Length) < Steps(home, h, hash.Length)
                              ==> 0 <= hash[q] < hashCount
        decreases Steps(h, e, hash.Length)
      {
        h := h - 1;
        if h < 0 {
          h := h + hash.Length;
        }
      }
      hi := h;
    }

    /** Grow the key table; false when the allocator fails. */
    method ExtendKeys() returns (ok: bool)
      requires Valid()
      modifies `keys
      ensures Valid() && Log() == old(Log()) && hashCount == old(hashCount)
      ensures ok ==> fresh(keys) && keys.Length >= 2 * old(keys.Length)
      ensures ok == (granted(2 * old(keys.Length)) > 0)
      ensures !ok ==> keys == old(keys)
    {
      var n := granted(2 * keys.Length);
      ok := n > 0;
      if ok {
        var z := new (int, int)[n];
        forall i | 0 <= i < keyCount { z[i] := keys[i]; }
        keys := z;
        assert Indexed() by {
          forall i | 0 <= i < hashCount ensures Placed(i) { assert old(Placed(i)); }
        }
      }
    }

    /** Grow the result table; false when the allocator fails. */
    method ExtendResults() returns (ok: bool)
      requires Valid()
      modifies `results
      ensures Valid() && Log() == old(Log()) && hashCount == old(hashCount)
      ensures ok ==> fresh(results) && results.Length >= 2 * old(results.Length)
      ensures ok == (granted(2 * old(results.Length)) > 0)
      ensures !ok ==> results == old(results)
    {
      var n := granted(2 * results.Length);
      ok := n > 0;
      if ok {
        var z := new V[n];
        forall i | 0 <= i < resultCount { z[i] := results[i]; }
        results := z;
        assert Indexed() by {
          forall i | 0 <= i < hashCount ensures Placed(i) { assert old(Placed(i)); }
        }
      }
    }

    /** Grow the hash, which empties it; false when the allocator fails. */
    method ExtendHash() returns (ok: bool)
      requires Valid()
      modifies `hash, `hashCount, `slots
      ensures Valid() && Log() == old(Log())
      ensures ok ==> fresh(hash) && hash.Length >= 2 * old(hash.Length) && hashCount == 0
      ensures ok == (granted(2 * old(hash.Length)) > 0)
      ensures !ok ==> hash == old(hash) && hashCount == old(hashCount)
    {
      var n := granted(2 * hash.Length);
      ok := n > 0;
      if ok {
        hash := new int[n](_ => -1);
        hashCount := 0;
        slots := [];
      }
    }

    /** Fill an emptied hash with entries 0 up to but not including n. */
    method Rehash()
      requires Valid() && hashCount == 0
      modifies this`hashCount, this`slots, hash
      ensures Valid() && hashCount == resultCount
    {
      slots := [];
      var i := 0;
      while i < resultCount
        invariant 0 <= i <= resultCount && hashCount == i
        invariant Shape() && Indexed()
      {
        var j := FindEmpty(keys[i].1, keys[i].0);
        SetSlot(i, j);
        i := i + 1;
      }
    }

    /** Let the hash point to entry i, the next one. */
    method SetSlot(i: nat, hi: nat)
      requires Shape() && i == hashCount < keyCount && Indexed() && hi < hash.Length && hash[hi] == -1
      requires var home := Home(hash.Length, keys[i].1, keys[i].0);
               forall p :: 0 <= p < hash.Length && Steps(home, p, hash.Length) < Steps(home, hi, hash.Length)
                           ==> 0 <= hash[p] < i
      modifies this`hashCount, this`slots, hash
      ensures Shape() && hashCount == i + 1 && Indexed()
    {
      hash[hi] := i;
      hashCount := hashCount + 1;
      slots := slots + [hi];
      forall j | 0 <= j < hashCount
        ensures Placed(j)
      {
        if j < i {
          assert old(Placed(j));
        }
      }
    }

    /** The part of an insertion that needs room in all three tables. */
    method Insert(x: int, y: int, z: V)
      requires Valid()
      requires keyCount < keys.Length && resultCount < results.Length && 2 * hashCount <= hash.Length
      modifies this`hashCount, this`slots, this`keyCount, this`resultCount, hash, keys, results
      ensures Valid() && hashCount == resultCount
      ensures Log() == old(Log()) + [Entry(x, y, z)]
    {
      if hashCount == 0 {
        Rehash();
      }
      Append(x, y, z);
      var hi := FindEmpty(x, y);
      SetSlot(resultCount - 1, hi);
    }

    /** Store a key and its result after the others, not yet pointed to by the hash. */
    method Append(x: int, y: int, z: V)
      requires Valid() && hashCount == resultCount
      requires keyCount < keys.Length && resultCount < results.Length && 2 * hashCount <= hash.Length
      modifies this`keyCount, this`resultCount, keys, results
      ensures Shape() && hashCount + 1 == keyCount && Indexed()
      ensures Log() == old(Log()) + [Entry(x, y, z)]
    {
      results[resultCount] := z;
      keys[keyCount] := (y, x);
      keyCount := keyCount + 1;
      resultCount := resultCount + 1;
      forall i | 0 <= i < hashCount
        ensures Placed(i)
      {
        assert old(Placed(i));
      }
    }

    /** Insert the result for a pair, growing the tables that are full; false when the
        allocator fails, and then nothing was inserted. */
    method Put(x: int, y: int, z: V) returns (ok: bool)
      requires Valid()
      modifies this, hash, keys, results
      ensures Valid()
      ensures ok ==> hashCount == resultCount && Log() == old(Log()) + [Entry(x, y, z)]
      ensures !ok ==> hashCount == old(hashCount) && Log() == old(Log())
      ensures (forall n :: n > 0 ==> granted(n) > 0) ==> ok
      ensures hash == old(hash) || fresh(hash)
      ensures keys == old(keys) || fresh(keys)
      ensures results == old(results) || fresh(results)
    {
      while true
        invariant Valid() && Log() == old(Log())
        invariant hashCount == old(hashCount) ||
                  (keyCount < keys.Length && resultCount < results.Length && 2 * hashCount <= hash.Length)
        invariant hash == old(hash) || fresh(hash)
        invariant keys == old(keys) || fresh(keys)
        invariant results == old(results) || fresh(results)
        decreases keyCount == keys.Length, resultCount == results.Length, 2 * hashCount > hash.Length
      {
        if keyCount == keys.Length {
          ok := ExtendKeys();
          if !ok { return; }
        } else if resultCount == results.Length {
          ok := ExtendResults();
          if !ok { return; }
        } else if 2 * hashCount > hash.Length {
          ok := ExtendHash();
          if !ok { return; }
        } else {
          break;
        }
      }
      Insert(x, y, z);
      ok := true;
    }
  }

  // ---- The memoed verb.

  /** An argument: an atom whose value is a whole number, or anything else. */
  datatype Noun = Atom(value: int) | Other(id: int)

  datatype Call = Monad(y: Noun) | Dyad(x: Noun, y: Noun)

  /** The value under which an argument is remembered; IMIN when it is not memoable. */
  function Int0(w: Noun): int {
    if w.Atom? then w.value else IMIN
  }

  /** The pair under which a call is remembered.  A monad uses its argument twice. */
  function Key(c: Call): Option<(int, int)> {
    var x := Int0(if c.Monad? then c.y else c.x);
    var y := if c.Dyad? && x != IMIN then Int0(c.y) else x;
    if x == IMIN || y == IMIN then None else Some((x, y))
  }

  /** What one call returns, and the log it leaves. */
  function Step<V>(f: Call -> Option<V>, log: seq<Entry<V>>, c: Call): (Option<V>, seq<Entry<V>>) {
    match Key(c)
    case None => (f(c), log)
    case Some((x, y)) =>
      var found := Lookup(log, x, y);
      if found.Some? then (found, log)
      else if f(c).None? then (None, log)
      else (f(c), log + [Entry(x, y, f(c).value)])
  }

  /** The log once a call returns that looked its pair up in the log before. */
  function Remembered<V>(f: Call -> Option<V>, before: seq<Entry<V>>, log: seq<Entry<V>>, c: Call): seq<Entry<V>> {
    match Key(c)
    case None => log
    case Some((x, y)) =>
      if Lookup(before, x, y).Some? || f(c).None? then log else log + [Entry(x, y, f(c).value)]
  }

  /** The lookup that a call begins with, and what it tells: whether the verb is to run, and the pair under
      which its result is to be remembered. */
  method Recall<V(0)>(t: Table<V>, c: Call) returns (z: Option<V>, run: bool, key: Option<(int, int)>)
    requires t.Valid() && t.hashCount == t.resultCount
    ensures key == Key(c) && (run <==> z.None?)
    ensures z == if Key(c).Some? then Lookup(t.Log(), Key(c).value.0, Key(c).value.1) else None
  {
    var x := Int0(if c.Monad? then c.y else c.x);
    var y := if c.Dyad? && x != IMIN then Int0(c.y) else x;
    if x == IMIN || y == IMIN {
      return None, true, None;
    }
    z := t.Get(x, y);
    run, key := z.None?, Some((x, y));
  }

  /** The insertion that a call ends with, whatever has been inserted since its lookup. */
  method Remember<V(0)>(t: Table<V>, key: Option<(int, int)>, z: Option<V>) returns (r: Option<V>)
    requires t.Valid() && t.hashCount == t.resultCount
    modifies t, t.hash, t.keys, t.results
    ensures t.Valid() && t.hashCount == t.resultCount
    ensures (r == z && t.Log() == if key.Some? && z.Some? then old(t.Log()) + [Entry(key.value.0, key.value.1, z.value)]
                                  else old(t.Log()))
            || (r == None && t.Log() == old(t.Log()))
    ensures (forall n :: n > 0 ==> t.granted(n) > 0) ==> r == z
  {
    r := z;
    if key.Some? && z.Some? {
      var ok := t.Put(key.value.0, key.value.1, z.value);
      if !ok {
        r := None;
      }
    }
  }

  /** One call of the verb memoed with table t, when nothing is inserted while the verb runs; f gives the verb's
      own results, None for an error.  Without allocation failures the call is the step of the specification. */
  method Memo12<V(0)>(t: Table<V>, f: Call -> Option<V>, c: Call) returns (z: Option<V>)
    requires t.Valid() && t.hashCount == t.resultCount
    modifies t, t.hash, t.keys, t.results
    ensures t.Valid() && t.hashCount == t.resultCount
    ensures (z, t.Log()) == Step(f, old(t.Log()), c) || (z == None && t.Log() == old(t.Log()))
    ensures (forall n :: n > 0 ==> t.granted(n) > 0) ==> (z, t.Log()) == Step(f, old(t.Log()), c)
  {
    var run, key;
    z, run, key := Recall(t, c);
    if run {
      z := Remember(t, key, f(c));
    }
  }

  // ---- Whole runs of a memoed verb.

  function LogAfter<V>(f: Call -> Option<V>, calls: seq<Call>): seq<Entry<V>> {
    if calls == [] then []
    else Step(f, LogAfter(f, calls[..|calls| - 1]), calls[|calls| - 1]).1
  }

  /** What call j of a run returns. */
  function Returned<V>(f: Call -> Option<V>, calls: seq<Call>, j: nat): Option<V>
    requires j < |calls|
  {
    Step(f, LogAfter(f, calls[..j]), calls[j]).0
  }

  /** The result of the first call of a run that has key k and returns. */
  function FirstOfKey<V>(f: Call -> Option<V>, calls: seq<Call>, k: (int, int)): Option<V> {
    if calls == [] then None
    else
      var earlier := FirstOfKey(f, calls[..|calls| - 1], k);
      var c := calls[|calls| - 1];
      if earlier.Some? then earlier else if Key(c) == Some(k) then f(c) else None
  }

  lemma {:induction false} LogHoldsFirst<V>(f: Call -> Option<V>, calls: seq<Call>, k: (int, int))
    ensures Lookup(LogAfter(f, calls), k.0, k.1) == FirstOfKey(f, calls, k)
  {
    if calls != [] {
      var before, c := calls[..|calls| - 1], calls[|calls| - 1];
      LogHoldsFirst(f, before, k);
      if Key(c).Some? && f(c).Some? {
        var e := Entry(Key(c).value.0, Key(c).value.1, f(c).value);
        LookupAfterInsert(LogAfter(f, before), e, k.0, k.1);
      }
    }
  }

  lemma {:induction false} FirstWitness<V>(f: Call -> Option<V>, calls: seq<Call>, k: (int, int)) returns (i: nat)
    requires FirstOfKey(f, calls, k).Some?
    ensures i < |calls| && Key(calls[i]) == Some(k) && f(calls[i]) == FirstOfKey(f, calls, k)
  {
    var before := calls[..|calls| - 1];
    if FirstOfKey(f, before, k).Some? {
      i := FirstWitness(f, before, k);
    } else {
      i := |calls| - 1;
    }
  }

  lemma {:induction false} FirstKept<V>(f: Call -> Option<V>, calls: seq<Call>, k: (int, int), i: nat)
    requires i <= |calls| && FirstOfKey(f, calls[..i], k).Some?
    ensures FirstOfKey(f, calls, k) == FirstOfKey(f, calls[..i], k)
  {
    if i < |calls| {
      assert calls[..|calls| - 1][..i] == calls[..i];
      FirstKept(f, calls[..|calls| - 1], k, i);
    } else {
      assert calls[..i] == calls;
    }
  }

  /** Calls i and j are `f n` and `n f n` in some order, and the first of them gives a value
      that is not what the other should return. */
  predicate Confused<V(==)>(f: Call -> Option<V>, calls: seq<Call>, i: nat, j: nat)
    requires i < |calls| && j < |calls|
  {
    var c, d := calls[i], calls[j];
    && c.Monad? != d.Monad?
    && (if c.Monad? then d == Dyad(c.y, c.y) else c == Dyad(d.y, d.y))
    && c.y.Atom? && c.y.value != IMIN
    && f(c).Some? && f(d) != f(c)
  }

  lemma SameKey(c: Call, d: Call)
    requires Key(c).Some?
    ensures Key(c) == Key(d) <==>
            c == d || (c == Monad(d.y) && d == Dyad(d.y, d.y)) || (d == Monad(c.y) && c == Dyad(c.y, c.y))
    ensures (c == Monad(d.y) && d == Dyad(d.y, d.y)) || (d == Monad(c.y) && c == Dyad(c.y, c.y))
            ==> c.y.Atom? && c.y.value != IMIN
  {
  }

  lemma ReturnedIs<V>(f: Call -> Option<V>, calls: seq<Call>, j: nat)
    requires j < |calls|
    ensures Returned(f, calls, j) ==
            if Key(calls[j]).Some? && FirstOfKey(f, calls[..j], Key(calls[j]).value).Some?
            then FirstOfKey(f, calls[..j], Key(calls[j]).value) else f(calls[j])
  {
    if Key(calls[j]).Some? {
      LogHoldsFirst(f, calls[..j], Key(calls[j]).value);
    }
  }

  /** A memoed verb returns what the verb returns, throughout a run, exactly when the run never
      mixes `f n` and `n f n` on an n where they differ.  The table is shared by both valences. */
  lemma MemoExactIff<V>(f: Call -> Option<V>, calls: seq<Call>)
    ensures (forall j :: 0 <= j < |calls| ==> Returned(f, calls, j) == f(calls[j])) <==>
            (forall i, j :: 0 <= i < j < |calls| ==> !Confused(f, calls, i, j))
  {
    forall j | 0 <= j < |calls| && forall i :: 0 <= i < j ==> !Confused(f, calls, i, j)
      ensures Returned(f, calls, j) == f(calls[j])
    {
      ReturnedIs(f, calls, j);
      if Returned(f, calls, j) != f(calls[j]) {
        var i := FirstWitness(f, calls[..j], Key(calls[j]).value);
        SameKey(calls[i], calls[j]);
        assert Confused(f, calls, i, j);
      }
    }
    forall i, j | 0 <= i < j < |calls| && Confused(f, calls, i, j)
      ensures Returned(f, calls, i) != f(calls[i]) || Returned(f, calls, j) != f(calls[j])
    {
      ConfusionShows(f, calls, i, j);
    }
  }

  lemma ConfusionShows<V>(f: Call -> Option<V>, calls: seq<Call>, i: nat, j: nat)
    requires i < j < |calls| && Confused(f, calls, i, j)
    ensures Returned(f, calls, i) != f(calls[i]) || Returned(f, calls, j) != f(calls[j])
  {
    ReturnedIs(f, calls, i);
    ReturnedIs(f, calls, j);
    SameKey(calls[i], calls[j]);
    var k := Key(calls[i]).value;
    assert calls[..i + 1][..i] == calls[..i];
    assert calls[..j][..i + 1] == calls[..i + 1];
    FirstKept(f, calls[..j], k, i + 1);
  }

  // ---- Calls that overlap: a memoed verb that calls itself, or runs in several threads.

  /** The calls are in the order in which they return; call j makes its lookup when begun[j] calls have
      returned. */
  ghost predicate Overlap(calls: seq<Call>, begun: seq<nat>) {
    |begun| == |calls| && forall j :: 0 <= j < |calls| ==> begun[j] <= j
  }

  lemma OverlapPart(calls: seq<Call>, begun: seq<nat>, n: nat)
    requires Overlap(calls, begun) && n <= |calls|
    ensures |begun| == |calls| && Overlap(calls[..n], begun[..n]) && (n < |calls| ==> begun[n] <= n)
  {
  }

  ghost function LogOver<V>(f: Call -> Option<V>, calls: seq<Call>, begun: seq<nat>): seq<Entry<V>>
    requires Overlap(calls, begun)
    decreases |calls|
  {
    if calls == [] then []
    else
      var n := |calls| - 1;
      OverlapPart(calls, begun, n);
      OverlapPart(calls, begun, begun[n]);
      Remembered(f, LogOver(f, calls[..begun[n]], begun[..begun[n]]), LogOver(f, calls[..n], begun[..n]), calls[n])
  }

  /** What call j returns. */
  ghost function ReturnedOver<V>(f: Call -> Option<V>, calls: seq<Call>, begun: seq<nat>, j: nat): Option<V>
    requires Overlap(calls, begun) && j < |calls|
  {
    OverlapPart(calls, begun, begun[j]);
    Step(f, LogOver(f, calls[..begun[j]], begun[..begun[j]]), calls[j]).0
  }

  /** The table answers with the first call of the key that has returned. */
  lemma {:induction false} OverHoldsFirst<V>(f: Call -> Option<V>, calls: seq<Call>, begun: seq<nat>, k: (int, int))
    requires Overlap(calls, begun)
    ensures Lookup(LogOver(f, calls, begun), k.0, k.1) == FirstOfKey(f, calls, k)
    decreases |calls|
  {
    if calls != [] {
      var n := |calls| - 1;
      OverlapPart(calls, begun, n);
      OverlapPart(calls, begun, begun[n]);
      OverHoldsFirst(f, calls[..n], begun[..n], k);
      if Key(calls[n]).Some? {
        var (x, y) := Key(calls[n]).value;
        OverHoldsFirst(f, calls[..begun[n]], begun[..begun[n]], (x, y));
        if FirstOfKey(f, calls[..begun[n]], (x, y)).Some? {
          assert calls[..n][..begun[n]] == calls[..begun[n]];
          FirstKept(f, calls[..n], (x, y), begun[n]);
        } else if f(calls[n]).Some? {
          LookupAfterInsert(LogOver(f, calls[..n], begun[..n]), Entry(x, y, f(calls[n]).value), k.0, k.1);
        }
      }
    }
  }

  lemma ReturnedOverIs<V>(f: Call -> Option<V>, calls: seq<Call>, begun: seq<nat>, j: nat)
    requires Overlap(calls, begun) && j < |calls|
    ensures begun[j] <= j < |calls|
    ensures ReturnedOver(f, calls, begun, j) ==
            if Key(calls[j]).Some? && FirstOfKey(f, calls[..begun[j]], Key(calls[j]).value).Some?
            then FirstOfKey(f, calls[..begun[j]], Key(calls[j]).value) else f(calls[j])
  {
    if Key(calls[j]).Some? {
      OverlapPart(calls, begun, begun[j]);
      OverHoldsFirst(f, calls[..begun[j]], begun[..begun[j]], Key(calls[j]).value);
    }
  }

  /** No call before call i has returned a value under the same key. */
  ghost predicate FirstToReturn<V(!new)>(f: Call -> Option<V>, calls: seq<Call>, i: nat)
    requires i < |calls|
  {
    forall m :: 0 <= m < i && Key(calls[m]) == Key(calls[i]) ==> f(calls[m]).None?
  }

  lemma {:induction false} FirstIsFirst<V(!new)>(f: Call -> Option<V>, calls: seq<Call>, k: (int, int), i: nat)
    requires i < |calls| && Key(calls[i]) == Some(k) && f(calls[i]).Some? && FirstToReturn(f, calls, i)
    ensures FirstOfKey(f, calls, k) == f(calls[i])
  {
    if i < |calls| - 1 {
      FirstIsFirst(f, calls[..|calls| - 1], k, i);
    } else {
      NoneBefore(f, calls[..i], k);
    }
  }

  lemma {:induction false} NoneBefore<V(!new)>(f: Call -> Option<V>, calls: seq<Call>, k: (int, int))
    requires forall m :: 0 <= m < |calls| && Key(calls[m]) == Some(k) ==> f(calls[m]).None?
    ensures FirstOfKey(f, calls, k).None?
  {
    if calls != [] {
      NoneBefore(f, calls[..|calls| - 1], k);
    }
  }

  lemma {:induction false} FirstReturner<V(!new)>(f: Call -> Option<V>, calls: seq<Call>, k: (int, int)) returns (i: nat)
    requires FirstOfKey(f, calls, k).Some?
    ensures i < |calls| && Key(calls[i]) == Some(k) && f(calls[i]) == FirstOfKey(f, calls, k) && FirstToReturn(f, calls, i)
  {
    var before := calls[..|calls| - 1];
    if FirstOfKey(f, before, k).Some? {
      i := FirstReturner(f, before, k);
    } else {
      i := |calls| - 1;
      NoneReturned(f, before, k);
    }
  }

  lemma {:induction false} NoneReturned<V(!new)>(f: Call -> Option<V>, calls: seq<Call>, k: (int, int))
    requires FirstOfKey(f, calls, k).None?
    ensures forall m :: 0 <= m < |calls| && Key(calls[m]) == Some(k) ==> f(calls[m]).None?
  {
    if calls != [] {
      NoneReturned(f, calls[..|calls| - 1], k);
    }
  }

  /** Overlapping calls return what the verb returns, exactly if none of them makes its lookup after a call
      it is confused with was the first of its key to return.  Insertions during a call do no harm. */
  lemma OverlapExactIff<V(!new)>(f: Call -> Option<V>, calls: seq<Call>, begun: seq<nat>)
    requires Overlap(calls, begun)
    ensures (forall j :: 0 <= j < |calls| ==> ReturnedOver(f, calls, begun, j) == f(calls[j])) <==>
            (forall i, j :: 0 <= i < |calls| && 0 <= j < |calls| && i < begun[j] && FirstToReturn(f, calls, i) ==>
                              !Confused(f, calls, i, j))
  {
    forall j | 0 <= j < |calls|
      && forall i :: 0 <= i < |calls| && i < begun[j] && FirstToReturn(f, calls, i) ==> !Confused(f, calls, i, j)
      ensures ReturnedOver(f, calls, begun, j) == f(calls[j])
    {
      OverlapExactAt(f, calls, begun, j);
    }
    forall i, j | 0 <= i < |calls| && 0 <= j < |calls| && i < begun[j] && FirstToReturn(f, calls, i) && Confused(f, calls, i, j)
      ensures ReturnedOver(f, calls, begun, j) != f(calls[j])
    {
      OverlapShows(f, calls, begun, i, j);
    }
  }

  lemma OverlapExactAt<V(!new)>(f: Call -> Option<V>, calls: seq<Call>, begun: seq<nat>, j: nat)
    requires Overlap(calls, begun) && j < |calls|
    requires forall i :: 0 <= i < |calls| && i < begun[j] && FirstToReturn(f, calls, i) ==> !Confused(f, calls, i, j)
    ensures ReturnedOver(f, calls, begun, j) == f(calls[j])
  {
    ReturnedOverIs(f, calls, begun, j);
    var before := calls[..begun[j]];
    if Key(calls[j]).Some? && FirstOfKey(f, before, Key(calls[j]).value).Some? {
      var i := FirstReturner(f, before, Key(calls[j]).value);
      assert FirstToReturn(f, calls, i) by {
        assert forall m :: 0 <= m <= i ==> before[m] == calls[m];
      }
      assert !Confused(f, calls, i, j);
      SameKey(calls[i], calls[j]);
    }
  }

  lemma OverlapShows<V(!new)>(f: Call -> Option<V>, calls: seq<Call>, begun: seq<nat>, i: nat, j: nat)
    requires Overlap(calls, begun) && j < |calls| && i < begun[j] && i < |calls|
    requires FirstToReturn(f, calls, i) && Confused(f, calls, i, j)
    ensures ReturnedOver(f, calls, begun, j) != f(calls[j])
  {
    ReturnedOverIs(f, calls, begun, j);
    SameKey(calls[i], calls[j]);
    FirstIsFirst(f, calls[..begun[j]], Key(calls[i]).value, i);
  }

  /** Negation and subtraction: `- 5` and then `5 - 5`, which the memoed verb answers with _5. */
  lemma SharedTableExample()
    ensures var minus := (c: Call) => if c.y.Other? then None
                                      else if c.Monad? then Some(-c.y.value)
                                      else if c.x.Other? then None else Some(c.x.value - c.y.value);
            var calls := [Monad(Atom(5)), Dyad(Atom(5), Atom(5))];
            minus(calls[1]) == Some(0) && Returned(minus, calls, 1) == Some(-5)
  {
    var minus := (c: Call) => if c.y.Other? then None
                              else if c.Monad? then Some(-c.y.value)
                              else if c.x.Other? then None else Some(c.x.value - c.y.value);
    var calls := [Monad(Atom(5)), Dyad(Atom(5), Atom(5))];
    ReturnedIs(minus, calls, 1);
    assert calls[..1] == [Monad(Atom(5))];
    assert FirstOfKey(minus, calls[..1], (5, 5)) == Some(-5);
  }
}
