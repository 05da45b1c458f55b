/**
  The set of student numbers: open addressing with linear probing over a
  power-of-two table, kept under 0.7 load by doubling.
 */
module StudentNoSet {

  datatype Slot = Free | Used(text: string)

  datatype SetResult = Inserted | Duplicate | NotReady

  // ---- Masking ----

  predicate IsPow2(n: nat) {
    n == 1 || (n > 1 && n % 2 == 0 && IsPow2(n / 2))
  }

  /** Bitwise and on naturals. */
  function BitAnd(x: nat, y: nat): nat {
    if x == 0 || y == 0 then 0 else (x % 2) * (y % 2) + 2 * BitAnd(x / 2, y / 2)
  }

  lemma HalveMod(x: nat, c: nat)
    requires c > 0
    ensures x % (2 * c) == x % 2 + 2 * ((x / 2) % c)
  {
    var q, r := (x / 2) / c, (x / 2) % c;
    assert x == 2 * (q * c + r) + x % 2;
    assert x == q * (2 * c) + (2 * r + x % 2);
    ModUnique(x, 2 * c, q, 2 * r + x % 2);
  }

  lemma Multiples(a: int, b: int, m: nat)
    requires a < b
    ensures a * m + m <= b * m
  {
    assert (b - a - 1) * m >= 0;
  }

  lemma ModUnique(x: nat, m: nat, q: nat, r: nat)
    requires m > 0 && r < m && x == q * m + r
    ensures x % m == r
  {
    var q' := x / m;
    assert x == q' * m + x % m;
    if q < q' {
      Multiples(q, q', m);
    } else if q' < q {
      Multiples(q', q, m);
    }
  }

  /** Masking with capacity - 1 is the remainder by the capacity. */
  lemma {:induction false} MaskIsMod(x: nat, c: nat)
    requires IsPow2(c)
    ensures BitAnd(x, c - 1) == x % c
  {
    if x != 0 && c > 1 {
      MaskIsMod(x / 2, c / 2);
      HalveMod(x, c / 2);
      assert (c - 1) % 2 == 1 && (c - 1) / 2 == c / 2 - 1;
    }
  }

  // ---- The table as a sequence of slots ----

  /** How many steps a probe takes from slot home to slot p. */
  function Distance(home: nat, p: nat, capacity: nat): nat
    requires home < capacity && p < capacity
  {
    if p >= home then p - home else p - home + capacity
  }

  function Home(hash: string -> nat, x: string, capacity: nat): (p: nat)
    requires capacity > 0
    ensures p < capacity
  {
    hash(x) % capacity
  }

  /** The first d slots of a probe from home are occupied. */
  ghost predicate Busy(t: seq<Slot>, home: nat, d: nat)
    requires home < |t|
  {
    forall p :: 0 <= p < |t| && Distance(home, p, |t|) < d ==> t[p].Used?
  }

  /** The first d slots of a probe from home do not hold x. */
  ghost predicate Misses(t: seq<Slot>, home: nat, d: nat, x: string)
    requires home < |t|
  {
    forall p :: 0 <= p < |t| && Distance(home, p, |t|) < d ==> t[p] != Used(x)
  }

  /** Every slot from an entry's home to the entry itself, cyclically, is occupied. */
  ghost predicate Probed(t: seq<Slot>, hash: string -> nat) {
    forall p :: 0 <= p < |t| && t[p].Used? ==>
      var home := Home(hash, t[p].text, |t|); Busy(t, home, Distance(home, p, |t|))
  }

  ghost predicate Distinct(t: seq<Slot>) {
    forall p, q :: 0 <= p < q < |t| && t[p].Used? && t[q].Used? ==> t[p].text != t[q].text
  }

  ghost function Elements(t: seq<Slot>): set<string> {
    set p | 0 <= p < |t| && t[p].Used? :: t[p].text
  }

  /** The number of occupied slots. */
  ghost function Load(t: seq<Slot>): (n: nat)
    ensures n <= |t|
  {
    if t == [] then 0 else Load(t[..|t| - 1]) + if t[|t| - 1].Used? then 1 else 0
  }

  lemma {:induction false} LoadFull(t: seq<Slot>)
    requires forall p :: 0 <= p < |t| ==> t[p].Used?
    ensures Load(t) == |t|
  {
    if t != [] {
      LoadFull(t[..|t| - 1]);
    }
  }

  lemma {:induction false} LoadUpdate(t: seq<Slot>, p: nat, x: string)
    requires p < |t| && t[p].Free?
    ensures Load(t[p := Used(x)]) == Load(t) + 1
  {
    var t', n := t[p := Used(x)], |t| - 1;
    if p == n {
      assert t'[..n] == t[..n];
    } else {
      LoadUpdate(t[..n], p, x);
      assert t'[..n] == t[..n][p := Used(x)];
    }
  }

  lemma {:induction false} LoadEmpty(t: seq<Slot>)
    requires forall p :: 0 <= p < |t| ==> t[p].Free?
    ensures Load(t) == 0
  {
    if t != [] {
      LoadEmpty(t[..|t| - 1]);
    }
  }

  /** The count kept by the table is the size of the set. */
  lemma {:induction false} LoadIsSize(t: seq<Slot>)
    requires Distinct(t)
    ensures |Elements(t)| == Load(t)
  {
    if t != [] {
      var s, e := t[..|t| - 1], t[|t| - 1];
      assert t == s + [e];
      LoadIsSize(s);
      Append(s, e);
    }
  }

  /** A probe step past an occupied slot: the table is not full, so it has not gone round yet. */
  lemma ProbeStep(t: seq<Slot>, home: nat, q: nat, next: nat, d: nat)
    requires home < |t| && q < |t| && Distance(home, q, |t|) == d
    requires Busy(t, home, d) && t[q].Used? && Load(t) < |t|
    requires next == if q + 1 == |t| then 0 else q + 1
    ensures Busy(t, home, d + 1) && Distance(home, next, |t|) == d + 1
  {
    if d + 1 == |t| {
      LoadFull(t);
      assert false;
    }
  }

  lemma MissStep(t: seq<Slot>, home: nat, q: nat, d: nat, x: string)
    requires home < |t| && q < |t| && Distance(home, q, |t|) == d && Misses(t, home, d, x) && t[q] != Used(x)
    ensures Misses(t, home, d + 1, x)
  {
  }

  lemma NextProbe(q: nat, capacity: nat)
    requires q < capacity && IsPow2(capacity)
    ensures BitAnd(q + 1, capacity - 1) == if q + 1 == capacity then 0 else q + 1
  {
    MaskIsMod(q + 1, capacity);
    ModUnique(q + 1, capacity, if q + 1 == capacity then 1 else 0, if q + 1 == capacity then 0 else q + 1);
  }

  /** A probe for x that ends in a free slot without meeting x shows that x is absent. */
  lemma FreeSlotMeansAbsent(t: seq<Slot>, hash: string -> nat, x: string, q: nat)
    requires q < |t| && Probed(t, hash) && t[q].Free?
    requires var home := Home(hash, x, |t|); Misses(t, home, Distance(home, q, |t|), x)
    ensures x !in Elements(t)
  {
    if p :| 0 <= p < |t| && t[p] == Used(x) {
      assert false;
    }
  }

  /** Filling the free slot at the end of a probe for x keeps the table in order. */
  lemma FillProbed(t: seq<Slot>, hash: string -> nat, x: string, q: nat)
    requires q < |t| && Probed(t, hash) && t[q].Free?
    requires var home := Home(hash, x, |t|); Busy(t, home, Distance(home, q, |t|))
    ensures Probed(t[q := Used(x)], hash)
  {
    var t' := t[q := Used(x)];
    forall p | 0 <= p < |t'| && t'[p].Used?
      ensures var home := Home(hash, t'[p].text, |t'|); Busy(t', home, Distance(home, p, |t'|))
    {
      var home := Home(hash, t'[p].text, |t'|);
      assert Busy(t, home, Distance(home, p, |t|));
    }
  }

  /** Filling a free slot with an absent string adds exactly that string. */
  lemma FillElements(t: seq<Slot>, x: string, q: nat)
    requires q < |t| && Distinct(t) && t[q].Free? && x !in Elements(t)
    ensures var t' := t[q := Used(x)]; Distinct(t') && Elements(t') == Elements(t) + {x} && Load(t') == Load(t) + 1
  {
    var t' := t[q := Used(x)];
    LoadUpdate(t, q, x);
    forall p | 0 <= p < |t| && t[p].Used? ensures t[p].text != x {
      assert t[p].text in Elements(t);
    }
    forall y | y in Elements(t) ensures y in Elements(t') {
      var p :| 0 <= p < |t| && t[p].Used? && t[p].text == y;
      assert t'[p].Used? && t'[p].text == y;
    }
    assert t'[q].Used? && t'[q].text == x;
    forall y | y in Elements(t') ensures y in Elements(t) + {x} {
      var p :| 0 <= p < |t'| && t'[p].Used? && t'[p].text == y;
      assert p != q ==> t[p].Used? && t[p].text == y;
    }
  }

  class StudentNoSet {
    const hash: string -> nat
    var slots: array<Slot>
    var count: nat

    ghost predicate Valid()
      reads this, slots
    {
      && Probed(slots[..], hash) && Distinct(slots[..])
      && count == Load(slots[..])
      && (slots.Length == 0 || (slots.Length >= 2 && IsPow2(slots.Length) && count * 10 < slots.Length * 7))
    }

    /** Whether the table has been set up; without one there are no slots. */
    predicate Ready()
      reads this
    {
      slots.Length != 0
    }

    ghost function Contents(): set<string>
      reads this, slots
    {
      Elements(slots[..])
    }

    constructor (hash: string -> nat)
      ensures Valid() && !Ready() && Contents() == {} && this.hash == hash
      ensures fresh(slots)
    {
      this.hash := hash;
      slots := new Slot[0];
      count := 0;
    }

    method Drop()
      modifies this
      ensures Valid() && !Ready() && Contents() == {} && fresh(slots)
    {
      slots := new Slot[0];
      count := 0;
    }

    method Init()
      modifies this
      ensures Valid() && Ready() && Contents() == {} && fresh(slots)
    {
      slots := new Slot[1024](_ => Free);
      count := 0;
      LoadEmpty(slots[..]);
    }

    /** The probe loop of lookup and insertion: stops at x or at the free slot where x would go. */
    method Probe(x: string) returns (probe: nat)
      requires Valid() && Ready()
      ensures probe < slots.Length
      ensures var t, home := slots[..], Home(hash, x, slots.Length);
        && Busy(t, home, Distance(home, probe, |t|)) && Misses(t, home, Distance(home, probe, |t|), x)
        && (t[probe].Used? ==> t[probe].text == x)
    {
      var mask := slots.Length - 1;
      probe := BitAnd(hash(x), mask);
      MaskIsMod(hash(x), slots.Length);
      ghost var t, home, d := slots[..], Home(hash, x, slots.Length), 0;
      while slots[probe].Used? && slots[probe].text != x
        invariant probe < slots.Length && Distance(home, probe, |t|) == d
        invariant Busy(t, home, d) && Misses(t, home, d, x)
        decreases |t| - d
      {
        NextProbe(probe, slots.Length);
        ProbeStep(t, home, probe, BitAnd(probe + 1, mask), d);
        MissStep(t, home, probe, d, x);
        probe, d := BitAnd(probe + 1, mask), d + 1;
      }
    }

    method Contains(x: string) returns (found: bool)
      requires Valid()
      ensures found <==> x in Contents()
    {
      if slots.Length == 0 {
        return false;
      }
      var probe := Probe(x);
      found := slots[probe].Used?;
      if found {
        assert slots[..][probe].text in Contents();
      } else {
        FreeSlotMeansAbsent(slots[..], hash, x, probe);
      }
    }

    /** Moves every entry to a table of the given size. */
    method Rehash(newCapacity: nat)
      requires Valid() && count < newCapacity && IsPow2(newCapacity) && newCapacity >= 2 && count * 10 < newCapacity * 7
      modifies this
      ensures Valid() && slots.Length == newCapacity && fresh(slots)
      ensures Contents() == old(Contents()) && count == old(count)
    {
      var newSlots := new Slot[newCapacity](_ => Free);
      LoadEmpty(newSlots[..]);
      ghost var t := slots[..];
      var i := 0;
      while i < slots.Length
        invariant i <= |t| == slots.Length && slots[..] == t && slots == old(slots) && count == old(count)
        invariant Probed(newSlots[..], hash) && Distinct(newSlots[..])
        invariant Elements(newSlots[..]) == Elements(t[..i]) && Load(newSlots[..]) == Load(t[..i])
      {
        assert t[..i + 1][..i] == t[..i];
        if slots[i].Used? {
          PlaceNext(t, i);
          MoveTo(newSlots, slots[i].text);
        } else {
          Append(t[..i], t[i]);
          assert t[..i + 1] == t[..i] + [t[i]];
        }
        i := i + 1;
      }
      assert t[..i] == t;
      slots := newSlots;
    }

    /** Puts an absent string into the first free slot of its probe. */
    method MoveTo(table: array<Slot>, x: string)
      requires table.Length >= 2 && IsPow2(table.Length)
      requires Probed(table[..], hash) && Distinct(table[..]) && Load(table[..]) < table.Length
      requires x !in Elements(table[..])
      modifies table
      ensures Probed(table[..], hash) && Distinct(table[..])
      ensures Elements(table[..]) == old(Elements(table[..])) + {x} && Load(table[..]) == old(Load(table[..])) + 1
    {
      var mask := table.Length - 1;
      var probe: nat := BitAnd(hash(x), mask);
      MaskIsMod(hash(x), table.Length);
      ghost var t, home, d := table[..], Home(hash, x, table.Length), 0;
      while table[probe].Used?
        invariant table[..] == t && probe < table.Length && Distance(home, probe, |t|) == d
        invariant Busy(t, home, d)
        decreases |t| - d
      {
        NextProbe(probe, table.Length);
        ProbeStep(t, home, probe, BitAnd(probe + 1, mask), d);
        probe, d := BitAnd(probe + 1, mask), d + 1;
      }
      FillProbed(t, hash, x, probe);
      FillElements(t, x, probe);
      table[probe] := Used(x);
      assert table[..] == t[probe := Used(x)];
    }

    method Insert(x: string) returns (res: SetResult)
      requires Valid()
      modifies this, slots
      ensures Valid() && (slots == old(slots) || fresh(slots)) && (Ready() <==> old(Ready()))
      ensures res == if !old(Ready()) then NotReady else if x in old(Contents()) then Duplicate else Inserted
      ensures Contents() == if res == Inserted then old(Contents()) + {x} else old(Contents())
    {
      if slots.Length == 0 {
        return NotReady;
      }
      if (count + 1) * 10 >= slots.Length * 7 {
        Rehash(slots.Length * 2);
      }
      var probe := Probe(x);
      ghost var t := slots[..];
      if slots[probe].Used? {
        assert t[probe].text in Elements(t);
        return Duplicate;
      }
      FreeSlotMeansAbsent(t, hash, x, probe);
      FillProbed(t, hash, x, probe);
      FillElements(t, x, probe);
      slots[probe] := Used(x);
      count := count + 1;
      assert slots[..] == t[probe := Used(x)];
      res := Inserted;
    }
  }

  lemma PlaceNext(t: seq<Slot>, i: nat)
    requires i < |t| && Distinct(t) && t[i].Used?
    ensures t[i].text !in Elements(t[..i]) && Elements(t[..i + 1]) == Elements(t[..i]) + {t[i].text}
    ensures Load(t[..i + 1]) == Load(t[..i]) + 1 && Load(t[..i + 1]) <= Load(t)
  {
    LoadPrefix(t, i + 1);
    NotBefore(t, i);
    assert t[..i + 1] == t[..i] + [t[i]];
    Append(t[..i], t[i]);
  }

  lemma NotBefore(t: seq<Slot>, i: nat)
    requires i < |t| && Distinct(t) && t[i].Used?
    ensures t[i].text !in Elements(t[..i])
  {
    var s := t[..i];
    forall p | 0 <= p < |s| && s[p].Used? ensures s[p].text != t[i].text {
      assert s[p] == t[p];
    }
  }

  lemma Append(s: seq<Slot>, e: Slot)
    ensures Elements(s + [e]) == Elements(s) + (if e.Used? then {e.text} else {})
    ensures Load(s + [e]) == Load(s) + if e.Used? then 1 else 0
  {
    var s' := s + [e];
    assert s'[..|s|] == s;
    assert forall p :: 0 <= p < |s'| ==> s'[p] == if p < |s| then s[p] else e;
    forall y | y in Elements(s) ensures y in Elements(s') {
      var p :| 0 <= p < |s| && s[p].Used? && s[p].text == y;
      assert s'[p].Used? && s'[p].text == y;
    }
    assert e.Used? ==> s'[|s|].Used? && s'[|s|].text == e.text;
  }

  lemma {:induction false} LoadPrefix(t: seq<Slot>, i: nat)
    requires i <= |t|
    ensures Load(t[..i]) <= Load(t)
  {
    if i < |t| {
      LoadPrefix(t[..|t| - 1], i);
      assert t[..|t| - 1][..i] == t[..i];
    } else {
      assert t[..i] == t;
    }
  }
}
