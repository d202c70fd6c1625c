/** The open-addressing table from identities to indices that both instrumentation engines build: linear probing
    over a power-of-two number of slots, never a deletion.  `width` is the number of bits of `size_t`. */
module HashIndex {
  import opened Bits
  import opened CStrings

  const HASH_SEED: nat := 5381
  const HASH_MULTIPLIER: nat := 33
  const HASH_REDUCTION: nat := 104729

  type Width = w: nat | w >= 32 witness 64

  function SizeMax(width: Width): (m: nat)
    ensures m >= 0xFFFF_FFFF
  {
    PowerValues();
    Pow2Sum(32, width - 32);
    MulAtLeast(Pow2(32), Pow2(width - 32));
    Pow2(width) - 1
  }

  // The hash.

  /** One byte in unbounded arithmetic: reducing first keeps the result a `size_t`. */
  function HashStep(hash: nat, byte: nat, sizeMax: nat): (next: nat)
    requires 0xFFFF_FFFF <= sizeMax && byte < 256
    ensures next <= sizeMax
  {
    (if hash > (sizeMax - byte) / HASH_MULTIPLIER then hash % HASH_REDUCTION else hash) * HASH_MULTIPLIER + byte
  }

  function HashOf(text: Text, width: Width): (hash: nat)
    ensures hash <= SizeMax(width)
  {
    if text == [] then HASH_SEED
    else HashStep(HashOf(text[..|text| - 1], width), text[|text| - 1] as nat, SizeMax(width))
  }

  /** The hash in `size_t` arithmetic, which could wrap and never does. */
  method Hash(text: Text, width: Width) returns (hash: nat)
    ensures hash == HashOf(text, width)
  {
    hide SizeMax;
    hash := HASH_SEED;
    for cursor := 0 to |text|
      invariant hash == HashOf(text[..cursor], width)
    {
      assert text[..cursor + 1][..cursor] == text[..cursor];
      hash := WrappingStep(hash, text[cursor] as nat, SizeMax(width));
    }
    assert text[..|text|] == text;
  }

  method WrappingStep(hash: nat, byte: nat, sizeMax: nat) returns (next: nat)
    requires 0xFFFF_FFFF <= sizeMax && byte < 256
    ensures next == HashStep(hash, byte, sizeMax)
  {
    next := hash;
    if next > (sizeMax - byte) / HASH_MULTIPLIER {
      next := next % HASH_REDUCTION;
    }
    SmallRemainder(next * HASH_MULTIPLIER + byte, sizeMax + 1);
    next := (next * HASH_MULTIPLIER + byte) % (sizeMax + 1);
  }

  // The slots.

  datatype Slot = Free | Taken(usr: Text, indexPlusOne: nat)

  /** Capacities start at 16 and double, and are themselves `size_t` values. */
  ghost predicate IsCapacity(capacity: nat, width: Width) {
    capacity > 0 && capacity <= SizeMax(width) && exists k: nat :: capacity == Pow2(k)
  }

  function Home(usr: Text, capacity: nat, width: Width): (slot: nat)
    requires capacity > 0
    ensures slot < capacity
  {
    HashOf(usr, width) % capacity
  }

  /** The slot `probe` places after `home`, around the end of the array. */
  function At(home: nat, probe: nat, capacity: nat): (slot: nat)
    requires home < capacity && probe < capacity
    ensures slot < capacity
  {
    if home + probe < capacity then home + probe else home + probe - capacity
  }

  lemma AtHome(home: nat, capacity: nat)
    requires home < capacity
    ensures At(home, 0, capacity) == home
  {
  }

  /** The masks of the C code are remainders. */
  lemma MaskIsRemainder(x: nat, capacity: nat, width: Width)
    requires IsCapacity(capacity, width)
    ensures And(x, capacity - 1, width) == x % capacity
  {
    var k: nat :| capacity == Pow2(k);
    if k > width {
      Pow2Sum(width, k - width);
      MulAtLeast(Pow2(width), Pow2(k - width));
    }
    AndMask(x, k, width);
  }

  lemma MaskStep(home: nat, probe: nat, capacity: nat, width: Width)
    requires IsCapacity(capacity, width) && home < capacity && probe + 1 < capacity
    ensures And(At(home, probe, capacity) + 1, capacity - 1, width) == At(home, probe + 1, capacity)
  {
    hide And;
    MaskIsRemainder(At(home, probe, capacity) + 1, capacity, width);
    SmallRemainder(At(home, probe, capacity) + 1, capacity);
  }

  /** Probing for `usr` goes past this slot. */
  predicate Blocks(slot: Slot, usr: Text) { slot.Taken? && slot.usr != usr }

  ghost predicate BlockedBefore(slots: seq<Slot>, usr: Text, probe: nat, width: Width) {
    && probe <= |slots|
    && forall p :: 0 <= p < probe ==> Blocks(slots[At(Home(usr, |slots|, width), p, |slots|)], usr)
  }

  /** Probing for `usr` finds the entry with this index. */
  ghost predicate Finds(slots: seq<Slot>, usr: Text, index: nat, width: Width) {
    exists probe :: 0 <= probe < |slots| && BlockedBefore(slots, usr, probe, width)
      && slots[At(Home(usr, |slots|, width), probe, |slots|)] == Taken(usr, index + 1)
  }

  /** The table holds exactly the entries of `entries`, each where probing finds it. */
  ghost predicate Represents(slots: seq<Slot>, entries: map<Text, nat>, width: Width) {
    && (forall j :: 0 <= j < |slots| && slots[j].Taken? ==>
          slots[j].usr in entries && slots[j].indexPlusOne == entries[slots[j].usr] + 1)
    && (forall usr :: usr in entries ==> Finds(slots, usr, entries[usr], width))
    && TakenCount(slots) == |entries|
  }

  function TakenCount(slots: seq<Slot>): (count: nat)
    ensures count <= |slots|
  {
    if slots == [] then 0 else TakenCount(slots[..|slots| - 1]) + if slots[|slots| - 1].Taken? then 1 else 0
  }

  lemma {:induction false} TakenCountUpdate(slots: seq<Slot>, j: nat, slot: Slot)
    requires j < |slots| && slots[j].Free? && slot.Taken?
    ensures TakenCount(slots[j := slot]) == TakenCount(slots) + 1
  {
    var n := |slots| - 1;
    if j == n {
      assert slots[j := slot][..n] == slots[..n];
    } else {
      assert slots[j := slot][..n] == slots[..n][j := slot];
      TakenCountUpdate(slots[..n], j, slot);
    }
  }

  lemma {:induction false} TakenCountFull(slots: seq<Slot>)
    requires forall j :: 0 <= j < |slots| ==> slots[j].Taken?
    ensures TakenCount(slots) == |slots|
  {
    if slots != [] {
      TakenCountFull(slots[..|slots| - 1]);
    }
  }

  lemma {:induction false} TakenCountEmpty(slots: seq<Slot>)
    requires forall j :: 0 <= j < |slots| ==> slots[j].Free?
    ensures TakenCount(slots) == 0
  {
    if slots != [] {
      TakenCountEmpty(slots[..|slots| - 1]);
    }
  }

  lemma EmptyTable(slots: seq<Slot>, width: Width)
    requires forall j :: 0 <= j < |slots| ==> slots[j].Free?
    ensures Represents(slots, map[], width)
  {
    TakenCountEmpty(slots);
  }

  /** Probing `capacity` times visits every slot. */
  lemma ProbesCover(slots: seq<Slot>, usr: Text, width: Width)
    requires |slots| > 0 && BlockedBefore(slots, usr, |slots|, width)
    ensures forall j :: 0 <= j < |slots| ==> Blocks(slots[j], usr)
  {
    var home := Home(usr, |slots|, width);
    forall j | 0 <= j < |slots|
      ensures Blocks(slots[j], usr)
    {
      var probe := if j >= home then j - home else j + |slots| - home;
      assert At(home, probe, |slots|) == j;
    }
  }

  // The operations.

  datatype Outcome = Inserted | Present | Full

  /** The probe loop that both insertions share; they differ in what they make of `Present`. */
  method Insert(slots: array<Slot>, usr: Text, index: nat, width: Width, ghost entries: map<Text, nat>)
    returns (outcome: Outcome)
    requires IsCapacity(slots.Length, width) && Represents(slots[..], entries, width)
    modifies slots
    ensures outcome == if usr in entries then Present else if |entries| == slots.Length then Full else Inserted
    ensures Represents(slots[..], if outcome == Inserted then entries[usr := index] else entries, width)
  {
    hide And, HashOf, At, TakenCount, Finds;
    var capacity := slots.Length;
    var hash := Hash(usr, width);
    ghost var home := Home(usr, capacity, width);
    MaskIsRemainder(hash, capacity, width);
    AtHome(home, capacity);
    var slot := And(hash, capacity - 1, width);
    for probe := 0 to capacity
      invariant probe < capacity ==> slot == At(home, probe, capacity)
      invariant slots[..] == old(slots[..])
      invariant BlockedBefore(slots[..], usr, probe, width)
    {
      if slots[slot].Free? {
        TableStaysRepresented(slots[..], entries, usr, index, probe, width);
        slots[slot] := Taken(usr, index + 1);
        assert slots[..] == old(slots[..])[slot := Taken(usr, index + 1)];
        return Inserted;
      }
      if slots[slot].usr == usr {
        return Present;
      }
      if probe + 1 < capacity {
        MaskStep(home, probe, capacity, width);
      }
      slot := And(slot + 1, capacity - 1, width);
    }
    ProbesCover(slots[..], usr, width);
    FullMeansAbsent(slots[..], entries, usr, width);
    TakenCountFull(slots[..]);
    return Full;
  }

  /** Probing for an entry meets no free slot before it. */
  lemma FindsBeforeFree(slots: seq<Slot>, usr: Text, index: nat, probe: nat, width: Width)
    requires Finds(slots, usr, index, width)
    requires probe < |slots| && BlockedBefore(slots, usr, probe, width)
    ensures slots[At(Home(usr, |slots|, width), probe, |slots|)].Taken?
  {
    hide Home, At;
    var home := Home(usr, |slots|, width);
    var found :| 0 <= found < |slots| && BlockedBefore(slots, usr, found, width)
      && slots[At(home, found, |slots|)] == Taken(usr, index + 1);
    if probe < found {
      assert Blocks(slots[At(home, probe, |slots|)], usr);
    }
  }

  /** A free slot on the probe path proves absence, because no insertion ever passes one. */
  lemma FreeMeansAbsent(slots: seq<Slot>, entries: map<Text, nat>, usr: Text, probe: nat, width: Width)
    requires Represents(slots, entries, width)
    requires probe < |slots| && BlockedBefore(slots, usr, probe, width)
    requires slots[At(Home(usr, |slots|, width), probe, |slots|)].Free?
    ensures usr !in entries
  {
    hide Home, At;
    if usr in entries {
      FindsBeforeFree(slots, usr, entries[usr], probe, width);
    }
  }

  lemma FullMeansAbsent(slots: seq<Slot>, entries: map<Text, nat>, usr: Text, width: Width)
    requires Represents(slots, entries, width)
    requires forall j :: 0 <= j < |slots| ==> Blocks(slots[j], usr)
    ensures usr !in entries
  {
  }

  lemma FindsStays(slots: seq<Slot>, j: nat, slot: Slot, usr: Text, index: nat, width: Width)
    requires j < |slots| && slots[j].Free? && Finds(slots, usr, index, width)
    requires slot.Taken? && slot.usr != usr
    ensures Finds(slots[j := slot], usr, index, width)
  {
    hide Home, At;
    var home := Home(usr, |slots|, width);
    var probe :| 0 <= probe < |slots| && BlockedBefore(slots, usr, probe, width)
      && slots[At(home, probe, |slots|)] == Taken(usr, index + 1);
    assert BlockedBefore(slots[j := slot], usr, probe, width);
  }

  lemma TableStaysRepresented(
    slots: seq<Slot>, entries: map<Text, nat>, usr: Text, index: nat, probe: nat, width: Width)
    requires Represents(slots, entries, width)
    requires probe < |slots| && BlockedBefore(slots, usr, probe, width)
    requires slots[At(Home(usr, |slots|, width), probe, |slots|)].Free?
    ensures usr !in entries && |entries| < |slots|
    ensures Represents(slots[At(Home(usr, |slots|, width), probe, |slots|) := Taken(usr, index + 1)],
      entries[usr := index], width)
  {
    hide Home, At, TakenCount;
    var j := At(Home(usr, |slots|, width), probe, |slots|);
    var after := slots[j := Taken(usr, index + 1)];
    FreeMeansAbsent(slots, entries, usr, probe, width);
    TakenCountUpdate(slots, j, Taken(usr, index + 1));
    assert BlockedBefore(after, usr, probe, width);
    assert Finds(after, usr, index, width);
    forall other | other in entries
      ensures Finds(after, other, entries[other], width)
    {
      FindsStays(slots, j, Taken(usr, index + 1), other, entries[other], width);
    }
  }

  method Lookup(slots: array<Slot>, usr: Text, missing: nat, width: Width, ghost entries: map<Text, nat>)
    returns (found: nat)
    requires IsCapacity(slots.Length, width) && Represents(slots[..], entries, width)
    ensures found == if usr != [] && usr in entries then entries[usr] else missing
  {
    found := missing;
    if usr == [] {
      return;
    }
    hide And, HashOf, At, TakenCount, Finds;
    var capacity := slots.Length;
    var hash := Hash(usr, width);
    ghost var home := Home(usr, capacity, width);
    MaskIsRemainder(hash, capacity, width);
    AtHome(home, capacity);
    var slot := And(hash, capacity - 1, width);
    for probe := 0 to capacity
      invariant probe < capacity ==> slot == At(home, probe, capacity)
      invariant BlockedBefore(slots[..], usr, probe, width)
    {
      if slots[slot].Free? {
        FreeMeansAbsent(slots[..], entries, usr, probe, width);
        return;
      }
      if slots[slot].usr == usr {
        return slots[slot].indexPlusOne - 1;
      }
      if probe + 1 < capacity {
        MaskStep(home, probe, capacity, width);
      }
      slot := And(slot + 1, capacity - 1, width);
    }
    ProbesCover(slots[..], usr, width);
    FullMeansAbsent(slots[..], entries, usr, width);
  }
}
