/**
 The per-thread cache of frame descriptors: an open-addressing hash table with
 at most 16 linear probes whose growth drops every entry.  The table operations
 are specified on values (Table); the class updates them in place.
 */
module TraceCache {
  import opened Machine
  import opened Descriptor

  const HASH_MIN_BITS: nat := 14
  const MAX_PROBES: nat := 16
  const HASH_MULTIPLIER: int := 0x9e37_79b9_7f4a_7c16

  datatype Table = Table(slots: seq<Frame>, logSize: nat, used: nat)

  /** What one unwind step finds at each pc. */
  type Oracle = word -> StepResult

  predicate Shape(t: Table) {
    t.logSize >= HASH_MIN_BITS && |t.slots| == Pow2(t.logSize)
  }

  lemma {:induction false} RoomForProbes(logSize: nat)
    requires logSize >= HASH_MIN_BITS
    ensures Pow2(logSize) >= 0x4000
  {
    if logSize > HASH_MIN_BITS {
      RoomForProbes(logSize - 1);
    } else {
      assert Pow2(7) == 128;
      Pow2Add(7, 7);
    }
  }

  /** x & (2^bits - 1) */
  function LowBits(x: nat, bits: nat): (r: nat)
    ensures r < Pow2(bits)
  {
    if bits == 0 then 0 else x % 2 + 2 * LowBits(x / 2, bits - 1)
  }

  /** The multiplicative hash of a pc, masked to the table's size. */
  function Home(pc: word, logSize: nat): (h: nat)
    ensures h < Pow2(logSize)
  {
    LowBits(U64(pc * HASH_MULTIPLIER) / 0x800_0000_0000, logSize)
  }

  /** The k-th probe after home, wrapping once. */
  function SlotAt(home: nat, k: nat, n: nat): (i: nat)
    requires home < n && k <= n
    ensures k < n ==> i < n
  {
    if home + k >= n then home + k - n else home + k
  }

  predicate Occupied(slots: seq<Frame>, i: nat)
    requires i < |slots|
  {
    slots[i].virtualAddress != 0
  }

  /** Probes from the k-th until a slot that is empty or holds pc; 16 when there is none. */
  function Probe(slots: seq<Frame>, home: nat, pc: word, k: nat): (r: nat)
    requires k <= MAX_PROBES <= |slots| && home < |slots|
    ensures k <= r <= MAX_PROBES
    decreases MAX_PROBES - k
  {
    if k == MAX_PROBES then k
    else
      var i := SlotAt(home, k, |slots|);
      if slots[i].virtualAddress == pc || slots[i].virtualAddress == 0 then k
      else Probe(slots, home, pc, k + 1)
  }

  function Buckets(n: nat): seq<Frame> {
    seq(n, _ => EMPTY_FRAME)
  }

  function Expanded(t: Table): Table {
    Table(Buckets(Pow2(t.logSize + 2)), t.logSize + 2, 0)
  }

  /** Put a descriptor into an empty slot. */
  function Fill(t: Table, i: nat, f: Frame): Table
    requires i < |t.slots|
  {
    t.(slots := t.slots[i := f], used := t.used + 1)
  }

  /** The branch a lookup takes, with the slot it answers. */
  datatype Outcome = Hit(slot: nat) | Insert(slot: nat) | Grow(slot: nat) | NoMemory

  function Decide(t: Table, pc: word, canAllocate: bool): (r: Outcome)
    requires Shape(t)
    ensures r.Hit? || r.Insert? ==> r.slot < |t.slots|
    ensures r.Grow? ==> r.slot == Home(pc, t.logSize + 2)
  {
    RoomForProbes(t.logSize);
    var home := Home(pc, t.logSize);
    var k := Probe(t.slots, home, pc, 0);
    var i := SlotAt(home, k, |t.slots|);
    if k < MAX_PROBES && t.slots[i].virtualAddress == pc then Hit(i)
    else if k == MAX_PROBES || t.used >= |t.slots| / 2 then
      if canAllocate then Grow(Home(pc, t.logSize + 2)) else NoMemory
    else Insert(i)
  }

  /**
   trace_lookup: the table afterwards and the slot describing pc, if any.  f is
   the descriptor a miss computes, canAllocate whether an expansion gets memory.
   */
  function Lookup(t: Table, pc: word, f: Frame, canAllocate: bool): (r: (Table, Option<nat>))
    requires Shape(t)
    ensures Shape(r.0)
    ensures r.1.Some? ==> r.1.value < |r.0.slots|
  {
    Carried(t, Decide(t, pc, canAllocate), f)
  }

  /** The branch d carried out. */
  function Carried(t: Table, d: Outcome, f: Frame): (Table, Option<nat>)
    requires d.Insert? ==> d.slot < |t.slots|
    requires d.Grow? ==> d.slot < Pow2(t.logSize + 2)
  {
    match d
    case Hit(i) => (t, Some(i))
    case Insert(i) => (Fill(t, i, f), Some(i))
    case Grow(i) => (Fill(Expanded(t), i, f), Some(i))
    case NoMemory => (t, None)
  }

  /** The descriptor in the slot a lookup answers. */
  function Answered(t: Table, pc: word, f: Frame, canAllocate: bool): Option<Frame>
    requires Shape(t)
  {
    var r := Lookup(t, pc, f, canAllocate);
    if r.1.None? then None else Some(r.0.slots[r.1.value])
  }

  /** What loc[X30] gives after a lookup: only a miss steps the cursor and may move it. */
  function LinkAfter(t: Table, pc: word, canAllocate: bool, r: StepResult, left: Option<word>, x30: Option<word>): Option<word>
    requires Shape(t)
  {
    LinkBy(Decide(t, pc, canAllocate), r, left, x30)
  }

  function LinkBy(d: Outcome, r: StepResult, left: Option<word>, x30: Option<word>): Option<word> {
    if d.Hit? || d.NoMemory? || KeepsX30(r) then x30 else left
  }

  // ----- the invariant -----

  function CountOccupied(slots: seq<Frame>): nat {
    if slots == [] then 0
    else CountOccupied(slots[..|slots| - 1]) + (if slots[|slots| - 1].virtualAddress != 0 then 1 else 0)
  }

  /** How many probes after its home a slot is. */
  function Distance(home: nat, i: nat, n: nat): (d: nat)
    requires home < n && i < n
    ensures d < n
  {
    if i >= home then i - home else i + n - home
  }

  /** The k-th probe from home meets a key. */
  predicate Taken(slots: seq<Frame>, home: nat, k: nat)
    requires home < |slots| && k < |slots|
  {
    slots[SlotAt(home, k, |slots|)].virtualAddress != 0
  }

  /** A key homed at home and kept in slot i is found by probing: close by, no empty slot before it. */
  ghost predicate Placed(slots: seq<Frame>, home: nat, i: nat)
    requires home < |slots| && i < |slots|
  {
    && Distance(home, i, |slots|) < MAX_PROBES
    && forall k :: 0 <= k < Distance(home, i, |slots|) ==> Taken(slots, home, k)
  }

  ghost predicate DistinctKeys(slots: seq<Frame>) {
    forall i, j :: 0 <= i < j < |slots| && Occupied(slots, i) ==>
      slots[i].virtualAddress != slots[j].virtualAddress
  }

  ghost predicate Inv(t: Table, o: Oracle) {
    && Shape(t)
    && t.used == CountOccupied(t.slots)
    && 2 * t.used <= |t.slots|
    && DistinctKeys(t.slots)
    && (forall i :: 0 <= i < |t.slots| && Occupied(t.slots, i) ==>
          Placed(t.slots, Home(t.slots[i].virtualAddress, t.logSize), i))
    && (forall i :: 0 <= i < |t.slots| && Occupied(t.slots, i) ==>
          t.slots[i] == Describe(t.slots[i].virtualAddress, o(t.slots[i].virtualAddress)))
  }

  lemma {:induction false} CountEmpty(slots: seq<Frame>)
    requires forall i :: 0 <= i < |slots| ==> !Occupied(slots, i)
    ensures CountOccupied(slots) == 0
  {
    if slots != [] {
      var rest := slots[..|slots| - 1];
      assert !Occupied(slots, |slots| - 1);
      forall i | 0 <= i < |rest| ensures !Occupied(rest, i) {
        assert !Occupied(slots, i);
      }
      CountEmpty(rest);
    }
  }

  lemma {:induction false} CountFill(slots: seq<Frame>, i: nat, f: Frame)
    requires i < |slots| && !Occupied(slots, i) && f.virtualAddress != 0
    ensures CountOccupied(slots[i := f]) == CountOccupied(slots) + 1
  {
    var m := |slots| - 1;
    if i == m {
      assert slots[i := f][..m] == slots[..m];
    } else {
      assert slots[i := f][..m] == slots[..m][i := f];
      CountFill(slots[..m], i, f);
    }
  }

  lemma FreshTable(logSize: nat, o: Oracle)
    requires logSize >= HASH_MIN_BITS
    ensures Inv(Table(Buckets(Pow2(logSize)), logSize, 0), o)
  {
    CountEmpty(Buckets(Pow2(logSize)));
  }

  /** Before the probe's result every slot is taken by another key. */
  lemma {:induction false} ProbeSkips(slots: seq<Frame>, home: nat, pc: word, from: nat, k: nat)
    requires from <= MAX_PROBES <= |slots| && home < |slots|
    requires from <= k < Probe(slots, home, pc, from)
    ensures Taken(slots, home, k)
    ensures slots[SlotAt(home, k, |slots|)].virtualAddress != pc
    decreases k - from
  {
    if from < k {
      ProbeSkips(slots, home, pc, from + 1, k);
    }
  }

  lemma {:induction false} ProbeStops(slots: seq<Frame>, home: nat, pc: word, from: nat)
    requires from <= MAX_PROBES <= |slots| && home < |slots|
    ensures var k := Probe(slots, home, pc, from);
      k < MAX_PROBES ==>
        (var i := SlotAt(home, k, |slots|);
         slots[i].virtualAddress == pc || !Occupied(slots, i))
    decreases MAX_PROBES - from
  {
    if Probe(slots, home, pc, from) != from {
      ProbeStops(slots, home, pc, from + 1);
    }
  }

  /** A placed key is found, and found in its own slot. */
  lemma ProbeReaches(slots: seq<Frame>, home: nat, i: nat)
    requires MAX_PROBES <= |slots| && home < |slots| && i < |slots|
    requires DistinctKeys(slots) && Occupied(slots, i) && Placed(slots, home, i)
    ensures Probe(slots, home, slots[i].virtualAddress, 0) == Distance(home, i, |slots|) < MAX_PROBES
  {
    var pc := slots[i].virtualAddress;
    var k := Probe(slots, home, pc, 0);
    var d := Distance(home, i, |slots|);
    if d < k {
      ProbeSkips(slots, home, pc, 0, d);
    } else if k < d {
      ProbeStops(slots, home, pc, 0);
      assert Taken(slots, home, k);
      assert Occupied(slots, SlotAt(home, k, |slots|));
    }
  }

  lemma ProbeFinds(t: Table, o: Oracle, i: nat)
    requires Inv(t, o) && i < |t.slots| && Occupied(t.slots, i)
    ensures MAX_PROBES <= |t.slots|
    ensures var pc := t.slots[i].virtualAddress;
      var home := Home(pc, t.logSize);
      var k := Probe(t.slots, home, pc, 0);
      k < MAX_PROBES && SlotAt(home, k, |t.slots|) == i
  {
    RoomForProbes(t.logSize);
    ProbeReaches(t.slots, Home(t.slots[i].virtualAddress, t.logSize), i);
  }

  lemma FillKeepsDistinct(slots: seq<Frame>, s: nat, f: Frame)
    requires s < |slots| && !Occupied(slots, s) && DistinctKeys(slots)
    requires forall i :: 0 <= i < |slots| ==> slots[i].virtualAddress != f.virtualAddress
    ensures DistinctKeys(slots[s := f])
  {
    var slots' := slots[s := f];
    forall i, j | 0 <= i < j < |slots| && Occupied(slots', i)
      ensures slots'[i].virtualAddress != slots'[j].virtualAddress
    {
      if i != s { assert Occupied(slots, i); }
    }
  }

  lemma FillKeepsPlaced(slots: seq<Frame>, s: nat, f: Frame, home: nat, i: nat)
    requires s < |slots| && home < |slots| && i < |slots| && i != s
    requires f.virtualAddress != 0 && Placed(slots, home, i)
    ensures Placed(slots[s := f], home, i)
  {
    var slots' := slots[s := f];
    forall k | 0 <= k < Distance(home, i, |slots|)
      ensures Taken(slots', home, k)
    {
      assert Taken(slots, home, k);
    }
  }

  lemma FilledIsPlaced(slots: seq<Frame>, home: nat, k: nat, f: Frame)
    requires MAX_PROBES <= |slots| && home < |slots|
    requires k == Probe(slots, home, f.virtualAddress, 0) < MAX_PROBES
    ensures Placed(slots[SlotAt(home, k, |slots|) := f], home, SlotAt(home, k, |slots|))
  {
    var s := SlotAt(home, k, |slots|);
    assert Distance(home, s, |slots|) == k;
    var slots' := slots[s := f];
    forall m | 0 <= m < k ensures Taken(slots', home, m) {
      ProbeSkips(slots, home, f.virtualAddress, 0, m);
    }
  }

  lemma AbsentKey(t: Table, o: Oracle, pc: word)
    requires Inv(t, o) && pc != 0 && MAX_PROBES <= |t.slots|
    requires var home := Home(pc, t.logSize);
      var k := Probe(t.slots, home, pc, 0);
      k < MAX_PROBES ==> t.slots[SlotAt(home, k, |t.slots|)].virtualAddress != pc
    ensures forall i :: 0 <= i < |t.slots| ==> t.slots[i].virtualAddress != pc
  {
    forall i | 0 <= i < |t.slots| ensures t.slots[i].virtualAddress != pc {
      if t.slots[i].virtualAddress == pc {
        ProbeFinds(t, o, i);
      }
    }
  }

  /** Filling the empty slot the probe stopped at keeps the table well formed. */
  lemma FillKeepsInv(t: Table, o: Oracle, pc: word, k: nat)
    requires Inv(t, o) && pc != 0 && MAX_PROBES <= |t.slots|
    requires k == Probe(t.slots, Home(pc, t.logSize), pc, 0) < MAX_PROBES
    requires !Occupied(t.slots, SlotAt(Home(pc, t.logSize), k, |t.slots|))
    requires t.used < |t.slots| / 2
    ensures Inv(Fill(t, SlotAt(Home(pc, t.logSize), k, |t.slots|), Describe(pc, o(pc))), o)
  {
    var home := Home(pc, t.logSize);
    var f := Describe(pc, o(pc));
    var s := SlotAt(home, k, |t.slots|);
    CountFill(t.slots, s, f);
    AbsentKey(t, o, pc);
    FillKeepsDistinct(t.slots, s, f);
    FilledIsPlaced(t.slots, home, k, f);
    forall i | 0 <= i < |t.slots| && Occupied(t.slots[s := f], i) && i != s
      ensures Placed(t.slots[s := f], Home(t.slots[i].virtualAddress, t.logSize), i)
    {
      assert Occupied(t.slots, i);
      FillKeepsPlaced(t.slots, s, f, Home(t.slots[i].virtualAddress, t.logSize), i);
    }
  }

  // ----- what one lookup does -----

  /** A key that is present is found where it is, and the table does not change. */
  lemma LookupHit(t: Table, o: Oracle, i: nat, f: Frame, canAllocate: bool)
    requires Inv(t, o) && i < |t.slots| && Occupied(t.slots, i)
    ensures Lookup(t, t.slots[i].virtualAddress, f, canAllocate) == (t, Some(i))
  {
    ProbeFinds(t, o, i);
  }

  lemma HitHoldsKey(t: Table, pc: word, canAllocate: bool)
    requires Shape(t) && Decide(t, pc, canAllocate).Hit?
    ensures t.slots[Decide(t, pc, canAllocate).slot].virtualAddress == pc
    ensures pc != 0 ==> Occupied(t.slots, Decide(t, pc, canAllocate).slot)
  {
  }

  /** Afterwards the table is well formed and the answered slot describes pc. */
  ghost predicate LookupSound(t: Table, o: Oracle, pc: word, canAllocate: bool)
    requires Shape(t)
  {
    var r := Lookup(t, pc, Describe(pc, o(pc)), canAllocate);
    && Inv(r.0, o)
    && (r.1.Some? ==> r.0.slots[r.1.value] == Describe(pc, o(pc)))
    && (r.1.None? ==> !canAllocate && r.0 == t)
  }

  lemma HitSound(t: Table, o: Oracle, pc: word, canAllocate: bool)
    requires Inv(t, o) && pc != 0 && Decide(t, pc, canAllocate).Hit?
    ensures LookupSound(t, o, pc, canAllocate)
  {
    HitHoldsKey(t, pc, canAllocate);
  }

  lemma InsertSound(t: Table, o: Oracle, pc: word, canAllocate: bool)
    requires Inv(t, o) && pc != 0 && Decide(t, pc, canAllocate).Insert?
    ensures LookupSound(t, o, pc, canAllocate)
  {
    RoomForProbes(t.logSize);
    var home := Home(pc, t.logSize);
    ProbeStops(t.slots, home, pc, 0);
    FillKeepsInv(t, o, pc, Probe(t.slots, home, pc, 0));
  }

  lemma GrowSound(t: Table, o: Oracle, pc: word, canAllocate: bool)
    requires Shape(t) && pc != 0 && Decide(t, pc, canAllocate).Grow?
    ensures LookupSound(t, o, pc, canAllocate)
  {
    FillFresh(t, o, pc);
  }

  lemma FillFresh(t: Table, o: Oracle, pc: word)
    requires Shape(t) && pc != 0
    ensures Inv(Carried(t, Grow(Home(pc, t.logSize + 2)), Describe(pc, o(pc))).0, o)
    ensures var i := Home(pc, t.logSize + 2);
      Fill(Expanded(t), i, Describe(pc, o(pc))).slots[i] == Describe(pc, o(pc))
  {
    var t' := Expanded(t);
    FreshTable(t'.logSize, o);
    RoomForProbes(t'.logSize);
    var home := Home(pc, t'.logSize);
    assert Probe(t'.slots, home, pc, 0) == 0;
    FillKeepsInv(t', o, pc, 0);
  }

  /** Every lookup keeps the table well formed and returns the descriptor of its pc. */
  lemma LookupKeepsInv(t: Table, o: Oracle, pc: word, canAllocate: bool)
    requires Inv(t, o) && pc != 0
    ensures LookupSound(t, o, pc, canAllocate)
  {
    match Decide(t, pc, canAllocate)
    case Hit(_) => HitSound(t, o, pc, canAllocate);
    case Insert(_) => InsertSound(t, o, pc, canAllocate);
    case Grow(_) => GrowSound(t, o, pc, canAllocate);
    case NoMemory =>
  }

  /** The finite map the table stands for. */
  ghost function Contents(t: Table): map<word, Frame>
    requires DistinctKeys(t.slots)
  {
    map i | 0 <= i < |t.slots| && Occupied(t.slots, i) :: t.slots[i].virtualAddress := t.slots[i]
  }

  /** A lookup must enlarge the table: pc is absent and has no free probe, or half the slots are used. */
  ghost predicate MustExpand(t: Table, pc: word)
    requires Shape(t) && DistinctKeys(t.slots)
  {
    RoomForProbes(t.logSize);
    && pc !in Contents(t)
    && (|| t.used >= |t.slots| / 2
        || forall k :: 0 <= k < MAX_PROBES ==> Taken(t.slots, Home(pc, t.logSize), k))
  }

  lemma AllProbesTaken(slots: seq<Frame>, home: nat, pc: word)
    requires MAX_PROBES <= |slots| && home < |slots|
    requires forall i :: 0 <= i < |slots| ==> slots[i].virtualAddress != pc
    ensures Probe(slots, home, pc, 0) == MAX_PROBES
      <==> forall k :: 0 <= k < MAX_PROBES ==> Taken(slots, home, k)
  {
    var r := Probe(slots, home, pc, 0);
    ProbeStops(slots, home, pc, 0);
    forall k | 0 <= k < r ensures Taken(slots, home, k) {
      ProbeSkips(slots, home, pc, 0, k);
    }
    assert r < MAX_PROBES ==> !Taken(slots, home, r);
  }

  /** Decide, told in terms of the map. */
  lemma DecideByContents(t: Table, o: Oracle, pc: word, canAllocate: bool)
    requires Inv(t, o) && pc != 0
    ensures var d := Decide(t, pc, canAllocate);
      && (d.Hit? <==> pc in Contents(t))
      && (d.Grow? <==> MustExpand(t, pc) && canAllocate)
      && (d.NoMemory? <==> MustExpand(t, pc) && !canAllocate)
      && (d.Insert? ==> !Occupied(t.slots, d.slot))
      && (d.Hit? ==> Occupied(t.slots, d.slot))
  {
    RoomForProbes(t.logSize);
    var home := Home(pc, t.logSize);
    var k := Probe(t.slots, home, pc, 0);
    ProbeStops(t.slots, home, pc, 0);
    if pc in Contents(t) {
      var j :| 0 <= j < |t.slots| && Occupied(t.slots, j) && t.slots[j].virtualAddress == pc;
      ProbeFinds(t, o, j);
    } else {
      if k < MAX_PROBES && t.slots[SlotAt(home, k, |t.slots|)].virtualAddress == pc {
        assert Occupied(t.slots, SlotAt(home, k, |t.slots|));
      }
      AbsentKey(t, o, pc);
      AllProbesTaken(t.slots, home, pc);
    }
  }

  /** The map afterwards: present keys change nothing, absent keys are added, growth forgets. */
  ghost predicate RefinesMap(t: Table, o: Oracle, pc: word, canAllocate: bool)
    requires Shape(t) && DistinctKeys(t.slots)
  {
    var f := Describe(pc, o(pc));
    var r := Lookup(t, pc, f, canAllocate);
    && DistinctKeys(r.0.slots)
    && (r.1.None? <==> MustExpand(t, pc) && !canAllocate)
    && (r.1.Some? ==>
          Contents(r.0) == if MustExpand(t, pc) then map[pc := f] else Contents(t)[pc := f])
    && r.0.logSize == (if MustExpand(t, pc) && canAllocate then t.logSize + 2 else t.logSize)
  }

  lemma HitRefines(t: Table, o: Oracle, pc: word, canAllocate: bool)
    requires Inv(t, o) && pc != 0 && Decide(t, pc, canAllocate).Hit?
    ensures RefinesMap(t, o, pc, canAllocate)
  {
    var f := Describe(pc, o(pc));
    var i := Decide(t, pc, canAllocate).slot;
    DecideByContents(t, o, pc, canAllocate);
    HitHoldsKey(t, pc, canAllocate);
    assert Contents(t)[pc] == t.slots[i];
    assert Contents(t) == Contents(t)[pc := f];
  }

  lemma InsertRefines(t: Table, o: Oracle, pc: word, canAllocate: bool)
    requires Inv(t, o) && pc != 0 && Decide(t, pc, canAllocate).Insert?
    ensures RefinesMap(t, o, pc, canAllocate)
  {
    DecideByContents(t, o, pc, canAllocate);
    LookupKeepsInv(t, o, pc, canAllocate);
    FilledContents(t, Decide(t, pc, canAllocate).slot, Describe(pc, o(pc)));
  }

  lemma GrowRefines(t: Table, o: Oracle, pc: word, canAllocate: bool)
    requires Inv(t, o) && pc != 0 && Decide(t, pc, canAllocate).Grow?
    ensures RefinesMap(t, o, pc, canAllocate)
  {
    DecideByContents(t, o, pc, canAllocate);
    LookupKeepsInv(t, o, pc, canAllocate);
    FilledContents(Expanded(t), Decide(t, pc, canAllocate).slot, Describe(pc, o(pc)));
    assert Contents(Expanded(t)) == map[];
  }

  /** The table refines a map. */
  lemma LookupRefinesMap(t: Table, o: Oracle, pc: word, canAllocate: bool)
    requires Inv(t, o) && pc != 0
    ensures RefinesMap(t, o, pc, canAllocate)
  {
    match Decide(t, pc, canAllocate)
    case Hit(_) => HitRefines(t, o, pc, canAllocate);
    case Insert(_) => InsertRefines(t, o, pc, canAllocate);
    case Grow(_) => GrowRefines(t, o, pc, canAllocate);
    case NoMemory => DecideByContents(t, o, pc, canAllocate);
  }

  lemma FilledContents(t: Table, i: nat, f: Frame)
    requires i < |t.slots| && !Occupied(t.slots, i) && f.virtualAddress != 0
    requires DistinctKeys(t.slots) && DistinctKeys(Fill(t, i, f).slots)
    ensures Contents(Fill(t, i, f)) == Contents(t)[f.virtualAddress := f]
  {
    var slots' := t.slots[i := f];
    assert Occupied(slots', i);
    forall j | 0 <= j < |t.slots| && Occupied(t.slots, j)
      ensures Occupied(slots', j) && slots'[j] == t.slots[j]
    {
    }
  }

  // ----- runs -----

  datatype Request = Request(pc: word, canAllocate: bool)

  function Run(t: Table, o: Oracle, requests: seq<Request>): (t': Table)
    requires Shape(t)
    ensures Shape(t')
    decreases |requests|
  {
    if requests == [] then t
    else
      var q := requests[0];
      Run(Lookup(t, q.pc, Describe(q.pc, o(q.pc)), q.canAllocate).0, o, requests[1..])
  }

  /** Safety over whole runs from the empty cache. */
  lemma {:induction false} ReachableInv(t: Table, o: Oracle, requests: seq<Request>)
    requires Inv(t, o)
    requires forall q :: q in requests ==> q.pc != 0
    ensures Inv(Run(t, o, requests), o)
    ensures Run(t, o, requests).logSize >= t.logSize
    decreases |requests|
  {
    if requests != [] {
      var q := requests[0];
      LookupKeepsInv(t, o, q.pc, q.canAllocate);
      ReachableInv(Lookup(t, q.pc, Describe(q.pc, o(q.pc)), q.canAllocate).0, o, requests[1..]);
    }
  }

  lemma SlotKept(t: Table, o: Oracle, pc: word, canAllocate: bool, i: nat)
    requires Inv(t, o) && pc != 0 && i < |t.slots| && Occupied(t.slots, i)
    requires Lookup(t, pc, Describe(pc, o(pc)), canAllocate).0.logSize == t.logSize
    ensures var t' := Lookup(t, pc, Describe(pc, o(pc)), canAllocate).0;
      i < |t'.slots| && t'.slots[i] == t.slots[i]
  {
    RoomForProbes(t.logSize);
    ProbeStops(t.slots, Home(pc, t.logSize), pc, 0);
  }

  /** As long as the table has not grown, a filled slot keeps its descriptor and answers its pc. */
  lemma {:induction false} FilledSlotStays(t: Table, o: Oracle, requests: seq<Request>, i: nat, canAllocate: bool)
    requires Inv(t, o) && i < |t.slots| && Occupied(t.slots, i)
    requires forall q :: q in requests ==> q.pc != 0
    requires Run(t, o, requests).logSize == t.logSize
    ensures var t' := Run(t, o, requests);
      var pc := t.slots[i].virtualAddress;
      && i < |t'.slots| && t'.slots[i] == t.slots[i]
      && Lookup(t', pc, Describe(pc, o(pc)), canAllocate) == (t', Some(i))
    decreases |requests|
  {
    if requests == [] {
      LookupHit(t, o, i, Describe(t.slots[i].virtualAddress, o(t.slots[i].virtualAddress)), canAllocate);
    } else {
      var q := requests[0];
      var t1 := Lookup(t, q.pc, Describe(q.pc, o(q.pc)), q.canAllocate).0;
      LookupKeepsInv(t, o, q.pc, q.canAllocate);
      ReachableInv(t1, o, requests[1..]);
      SlotKept(t, o, q.pc, q.canAllocate, i);
      FilledSlotStays(t1, o, requests[1..], i, canAllocate);
    }
  }

  /** Slots without a key hold the frame they were created with. */
  ghost predicate BlankWhereEmpty(t: Table) {
    forall i :: 0 <= i < |t.slots| && !Occupied(t.slots, i) ==> t.slots[i] == EMPTY_FRAME
  }

  /** The 16 probes of pc 0 meet an empty slot. */
  ghost predicate ZeroMeetsEmpty(t: Table)
    requires Shape(t)
  {
    RoomForProbes(t.logSize);
    Probe(t.slots, Home(0, t.logSize), 0, 0) < MAX_PROBES
  }

  /**
   A pc of 0 equals the key of an empty slot. Its lookup is right if and only if
   what an empty slot holds happens to describe it, or, where no probe is empty,
   if the table cannot grow: grown, it counts a key that is not there.
   */
  lemma ZeroPcSoundIff(t: Table, o: Oracle, canAllocate: bool)
    requires Inv(t, o) && BlankWhereEmpty(t)
    ensures LookupSound(t, o, 0, canAllocate) <==>
      if ZeroMeetsEmpty(t) then Describe(0, o(0)) == EMPTY_FRAME else !canAllocate
  {
    if ZeroMeetsEmpty(t) {
      ZeroHits(t, o, canAllocate);
    } else if canAllocate {
      ZeroGrows(t, o);
    }
  }

  lemma ZeroHits(t: Table, o: Oracle, canAllocate: bool)
    requires Inv(t, o) && BlankWhereEmpty(t) && ZeroMeetsEmpty(t)
    ensures LookupSound(t, o, 0, canAllocate) <==> Describe(0, o(0)) == EMPTY_FRAME
  {
    RoomForProbes(t.logSize);
    ProbeStops(t.slots, Home(0, t.logSize), 0, 0);
  }

  lemma ZeroGrows(t: Table, o: Oracle)
    requires Shape(t) && !ZeroMeetsEmpty(t)
    ensures !LookupSound(t, o, 0, true)
  {
    RoomForProbes(t.logSize);
    var f := Describe(0, o(0));
    assert Lookup(t, 0, f, true).0 == Fill(Expanded(t), Home(0, t.logSize + 2), f);
    KeylessFillMiscounts(t.logSize + 2, Home(0, t.logSize + 2), f, o);
  }

  lemma KeylessFillMiscounts(logSize: nat, i: nat, f: Frame, o: Oracle)
    requires i < Pow2(logSize) && f.virtualAddress == 0
    ensures !Inv(Fill(Table(Buckets(Pow2(logSize)), logSize, 0), i, f), o)
  {
    CountEmpty(Buckets(Pow2(logSize))[i := f]);
  }

  /** A lookup of a nonzero pc leaves the slots without a key blank. */
  lemma LookupKeepsBlank(t: Table, o: Oracle, pc: word, canAllocate: bool)
    requires Inv(t, o) && pc != 0 && BlankWhereEmpty(t)
    ensures BlankWhereEmpty(Lookup(t, pc, Describe(pc, o(pc)), canAllocate).0)
  {
    var t' := Lookup(t, pc, Describe(pc, o(pc)), canAllocate).0;
    if Decide(t, pc, canAllocate).Insert? {
      forall i | 0 <= i < |t'.slots| && !Occupied(t'.slots, i) ensures t'.slots[i] == EMPTY_FRAME {
        assert !Occupied(t.slots, i);
      }
    }
  }

  /** So every table reached from a fresh one with nonzero pcs is one that ZeroPcSoundIff speaks of. */
  lemma {:induction false} ReachableBlank(t: Table, o: Oracle, requests: seq<Request>)
    requires Inv(t, o) && BlankWhereEmpty(t)
    requires forall q :: q in requests ==> q.pc != 0
    ensures BlankWhereEmpty(Run(t, o, requests))
    decreases |requests|
  {
    if requests != [] {
      var q := requests[0];
      LookupKeepsInv(t, o, q.pc, q.canAllocate);
      LookupKeepsBlank(t, o, q.pc, q.canAllocate);
      ReachableBlank(Lookup(t, q.pc, Describe(q.pc, o(q.pc)), q.canAllocate).0, o, requests[1..]);
    }
  }

  // ----- the cache as the source keeps it -----

  /** The probes end at slot at, where they find addr, or run out over other keys. */
  ghost predicate StopsAt(t: Table, pc: word, at: nat, addr: word)
    requires Shape(t)
  {
    RoomForProbes(t.logSize);
    var home := Home(pc, t.logSize);
    var k := Probe(t.slots, home, pc, 0);
    if k < MAX_PROBES then at == SlotAt(home, k, |t.slots|) && addr == t.slots[at].virtualAddress
    else addr != 0 && addr != pc
  }

  lemma StopDecides(t: Table, pc: word, canAllocate: bool, at: nat, addr: word)
    requires Shape(t) && StopsAt(t, pc, at, addr)
    ensures var d := Decide(t, pc, canAllocate);
      if addr == pc then d == Hit(at)
      else if addr != 0 || t.used >= |t.slots| / 2 then
        d == if canAllocate then Grow(Home(pc, t.logSize + 2)) else NoMemory
      else at < |t.slots| && d == Insert(at) && t.slots[at].virtualAddress == 0
  {
    RoomForProbes(t.logSize);
    ProbeStops(t.slots, Home(pc, t.logSize), pc, 0);
  }

  class Cache {
    var frames: array<Frame>
    var logSize: nat
    var used: nat

    ghost function Value(): Table
      reads this, frames
    {
      Table(frames[..], logSize, used)
    }

    /** trace_cache_create with its buckets allocated. */
    constructor ()
      ensures fresh(frames)
      ensures Value() == Table(Buckets(Pow2(HASH_MIN_BITS)), HASH_MIN_BITS, 0)
    {
      frames := new Frame[Pow2(HASH_MIN_BITS)](_ => EMPTY_FRAME);
      logSize := HASH_MIN_BITS;
      used := 0;
      new;
      assert frames[..] == Buckets(Pow2(HASH_MIN_BITS));
    }

    /** trace_cache_buckets: null when there is no memory. */
    static method NewBuckets(n: nat, canAllocate: bool) returns (a: array?<Frame>)
      ensures a == null <==> !canAllocate
      ensures a != null ==> fresh(a) && a[..] == Buckets(n)
    {
      if !canAllocate {
        return null;
      }
      a := new Frame[n](_ => EMPTY_FRAME);
      for i := 0 to n
        invariant forall j :: 0 <= j < i ==> a[j] == EMPTY_FRAME
      {
        a[i] := EMPTY_FRAME;
      }
    }

    method Expand(canAllocate: bool) returns (ok: bool)
      modifies this
      ensures ok == canAllocate
      ensures ok ==> fresh(frames) && Value() == Expanded(old(Value()))
      ensures !ok ==> frames == old(frames) && Value() == old(Value())
    {
      var newLogSize := logSize + 2;
      var newFrames := NewBuckets(Pow2(newLogSize), canAllocate);
      if newFrames == null {
        return false;
      }
      frames := newFrames;
      logSize := newLogSize;
      used := 0;
      return true;
    }

    /** The probing loop of trace_lookup: the slot it stops at and the key found there. */
    method FindSlot(pc: word) returns (at: nat, addr: word)
      requires Shape(Value())
      ensures StopsAt(Value(), pc, at, addr)
    {
      RoomForProbes(logSize);
      var size := frames.Length;
      ghost var home, slots := Home(pc, logSize), frames[..];
      at := Home(pc, logSize);
      addr := 0;
      var i := 0;
      while i < MAX_PROBES
        invariant i <= MAX_PROBES && at < size && at == SlotAt(home, i, size)
        invariant Probe(slots, home, pc, 0) == Probe(slots, home, pc, i)
        invariant i > 0 ==> addr != 0 && addr != pc
      {
        addr := frames[at].virtualAddress;
        assert addr == slots[at].virtualAddress;
        if addr == pc {
          return;
        }
        if addr == 0 {
          return;
        }
        at := at + 1;
        if at >= size {
          at := at - size;
        }
        i := i + 1;
      }
    }

    /** trace_lookup; slot indexes frames afterwards. */
    method LookupSlot(cursor: Cursor, r: StepResult, left: Option<word>, pc: word, canAllocate: bool)
      returns (slot: Option<nat>)
      requires Shape(Value())
      modifies this, frames, cursor`frameInfo, cursor`x30
      ensures Value() == Lookup(old(Value()), pc, Describe(pc, r), canAllocate).0
      ensures slot == Lookup(old(Value()), pc, Describe(pc, r), canAllocate).1
      ensures frames == old(frames) || fresh(frames)
      ensures cursor.x30 == LinkAfter(old(Value()), pc, canAllocate, r, left, old(cursor.x30))
    {
      var at, addr := FindSlot(pc);
      StopDecides(Value(), pc, canAllocate, at, addr);
      if addr == pc {
        return Some(at);
      }
      slot := Miss(cursor, r, left, pc, canAllocate, at, addr, Decide(Value(), pc, canAllocate));
    }

    /** The rest of trace_lookup, where the probes stopped at a slot of another key or of none. */
    method Miss(cursor: Cursor, r: StepResult, left: Option<word>, pc: word, canAllocate: bool,
                start: nat, key: word, ghost d: Outcome)
      returns (slot: Option<nat>)
      requires frames.Length == Pow2(logSize) && (d.Insert? ==> start < frames.Length)
      requires if key != 0 || used >= frames.Length / 2
               then d == if canAllocate then Grow(Home(pc, logSize + 2)) else NoMemory
               else start < frames.Length && d == Insert(start) && frames[start].virtualAddress == 0
      modifies this, frames, cursor`frameInfo, cursor`x30
      ensures (Value(), slot) == Carried(old(Value()), d, Describe(pc, r))
      ensures frames == old(frames) || fresh(frames)
      ensures cursor.x30 == LinkBy(d, r, left, old(cursor.x30))
    {
      var at, addr := start, key;
      if addr != 0 || used >= frames.Length / 2 {
        var ok := Expand(canAllocate);
        if !ok {
          return None;
        }
        at := Home(pc, logSize);
        assert |frames[..]| == Pow2(logSize);
        addr := frames[at].virtualAddress;
      }
      if addr == 0 {
        used := used + 1;
      }
      var f := cursor.InitAddr(pc, r, left);
      frames[at] := f;
      return Some(at);
    }

    ghost predicate Valid(o: Oracle)
      reads this, frames
    {
      Inv(Value(), o)
    }

    /** The descriptor a lookup answers, if any; on a well-formed cache it is that of a nonzero pc. */
    method FrameAt(cursor: Cursor, o: Oracle, left: Option<word>, pc: word, canAllocate: bool)
      returns (f: Option<Frame>)
      requires Shape(Value())
      modifies this, frames, cursor`frameInfo, cursor`x30
      ensures frames == old(frames) || fresh(frames)
      ensures Value() == Lookup(old(Value()), pc, Describe(pc, o(pc)), canAllocate).0
      ensures f == Answered(old(Value()), pc, Describe(pc, o(pc)), canAllocate)
      ensures cursor.x30 == LinkAfter(old(Value()), pc, canAllocate, o(pc), left, old(cursor.x30))
      ensures old(Valid(o)) && pc != 0 ==>
        && Valid(o)
        && (f.Some? ==> f.value == Describe(pc, o(pc)))
        && (f.None? ==> !canAllocate && MustExpand(old(Value()), pc) && Value() == old(Value()))
    {
      ghost var t := Value();
      if Inv(t, o) && pc != 0 {
        LookupKeepsInv(t, o, pc, canAllocate);
        LookupRefinesMap(t, o, pc, canAllocate);
      }
      var slot := LookupSlot(cursor, o(pc), left, pc, canAllocate);
      if slot.None? {
        return None;
      }
      assert frames[slot.value] == Value().slots[slot.value];
      return Some(frames[slot.value]);
    }
  }
}
