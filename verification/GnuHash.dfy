/** The number of dynamic symbols, from the hash tables of an ELF object. */
module GnuHash {
  import opened Machine

  /** A GNU hash table: its 32-bit words, and whether the Bloom filter's are 64-bit ones. */
  datatype Table = Table(words: seq<word32>, wide: bool)

  const HEADER: int := 4

  predicate HasHeader(t: Table) {
    |t.words| >= HEADER
  }

  function Buckets(t: Table): nat
    requires HasHeader(t)
  {
    t.words[0]
  }

  function SymOffset(t: Table): nat
    requires HasHeader(t)
  {
    t.words[1]
  }

  /** Where the buckets start: after the header and the Bloom filter. */
  function BucketBase(t: Table): nat
    requires HasHeader(t)
  {
    HEADER + (t.words[2] as int) * (if t.wide then 2 else 1)
  }

  predicate HasBuckets(t: Table) {
    HasHeader(t) && BucketBase(t) + Buckets(t) <= |t.words|
  }

  function Bucket(t: Table, i: nat): word32
    requires HasBuckets(t) && i < Buckets(t)
  {
    t.words[BucketBase(t) + i]
  }

  /** The words of the chains, one for each symbol from the offset on. */
  predicate InChains(t: Table, n: nat) {
    HasBuckets(t) && SymOffset(t) <= n && BucketBase(t) + Buckets(t) + (n - SymOffset(t)) < |t.words|
  }

  function ChainWord(t: Table, n: nat): word32
    requires InChains(t, n)
  {
    t.words[BucketBase(t) + Buckets(t) + (n - SymOffset(t))]
  }

  /** The low bit of a chain word marks the last symbol of its chain. */
  predicate EndsChain(t: Table, n: nat) {
    InChains(t, n) && ChainWord(t, n) % 2 == 1
  }

  // ----- what the count should be -----

  /** Every nonempty bucket is at or above the nonempty ones before it. */
  ghost predicate Nondecreasing(t: Table)
    requires HasBuckets(t)
  {
    forall i, j :: 0 <= i < j < Buckets(t) && Bucket(t, i) != 0 && Bucket(t, j) != 0 ==> Bucket(t, i) <= Bucket(t, j)
  }

  /** The last nonempty of the first n buckets, or 0. */
  function LastBucket(t: Table, n: nat): word32
    requires HasBuckets(t) && n <= Buckets(t)
  {
    if n == 0 then 0 else if Bucket(t, n - 1) != 0 then Bucket(t, n - 1) else LastBucket(t, n - 1)
  }

  /** Following the chain of bucket i leads to symbol n. */
  ghost predicate Leads(t: Table, i: nat, n: nat)
    requires HasBuckets(t) && i < Buckets(t)
  {
    && Bucket(t, i) != 0 && Bucket(t, i) <= n
    && forall k :: Bucket(t, i) <= k < n ==> !EndsChain(t, k)
  }

  ghost predicate Reachable(t: Table, n: nat)
    requires HasBuckets(t)
  {
    exists i :: 0 <= i < Buckets(t) && Leads(t, i, n)
  }

  ghost predicate Rejected(t: Table)
    requires HasBuckets(t)
  {
    var last := LastBucket(t, Buckets(t));
    !Nondecreasing(t) || 0 < last < SymOffset(t)
  }

  /** The table ends the chain of its last bucket, at a symbol whose number can be counted. */
  ghost predicate Terminated(t: Table)
    requires HasBuckets(t)
  {
    exists n :: LastBucket(t, Buckets(t)) <= n < TWO_32 - 1 && EndsChain(t, n)
  }

  /** One more than the largest symbol any chain leads to; 0 when every bucket is empty. */
  ghost predicate IsCount(t: Table, c: nat)
    requires HasBuckets(t)
  {
    && (c == 0 <==> forall i :: 0 <= i < Buckets(t) ==> Bucket(t, i) == 0)
    && (c > 0 ==> Reachable(t, c - 1))
    && forall n: nat :: Reachable(t, n) ==> n < c
  }

  // ----- the count -----

  lemma {:induction false} LastIsLargest(t: Table, n: nat, i: nat)
    requires HasBuckets(t) && i < n <= Buckets(t) && Nondecreasing(t) && Bucket(t, i) != 0
    ensures Bucket(t, i) <= LastBucket(t, n)
  {
    if i < n - 1 && Bucket(t, n - 1) == 0 {
      LastIsLargest(t, n - 1, i);
    }
  }

  lemma {:induction false} LastFound(t: Table, n: nat) returns (i: nat)
    requires HasBuckets(t) && n <= Buckets(t) && LastBucket(t, n) != 0
    ensures i < n && Bucket(t, i) == LastBucket(t, n)
    ensures forall j :: i < j < n ==> Bucket(t, j) == 0
  {
    if Bucket(t, n - 1) != 0 {
      i := n - 1;
    } else {
      i := LastFound(t, n - 1);
    }
  }

  /** The chain of the last bucket ends at the largest symbol of all. */
  lemma EndOfLastChain(t: Table, end: nat)
    requires HasBuckets(t) && Nondecreasing(t)
    requires 0 < LastBucket(t, Buckets(t)) <= end && EndsChain(t, end)
    requires forall k :: LastBucket(t, Buckets(t)) <= k < end ==> !EndsChain(t, k)
    ensures IsCount(t, end + 1)
  {
    var i := LastFound(t, Buckets(t));
    assert Leads(t, i, end);
    forall n: nat | Reachable(t, n) ensures n < end + 1 {
      var j :| 0 <= j < Buckets(t) && Leads(t, j, n);
      LastIsLargest(t, Buckets(t), j);
    }
  }

  lemma {:induction false} EmptyBuckets(t: Table, n: nat)
    requires HasBuckets(t) && n <= Buckets(t) && LastBucket(t, n) == 0
    ensures forall i :: 0 <= i < n ==> Bucket(t, i) == 0
  {
    if n > 0 {
      EmptyBuckets(t, n - 1);
    }
  }

  /** The last nonempty bucket, unless the buckets go down somewhere. */
  method ScanBuckets(t: Table) returns (last: Option<word32>)
    requires HasBuckets(t)
    ensures last == if Nondecreasing(t) then Some(LastBucket(t, Buckets(t))) else None
  {
    var count := 0;
    for i := 0 to t.words[0]
      invariant count == LastBucket(t, i)
      invariant forall k, j :: 0 <= k < j < i && Bucket(t, k) != 0 && Bucket(t, j) != 0 ==> Bucket(t, k) <= Bucket(t, j)
      invariant forall k :: 0 <= k < i && Bucket(t, k) != 0 ==> Bucket(t, k) <= count
    {
      var b := Bucket(t, i);
      if b != 0 {
        if b < count {
          ghost var k := LastFound(t, i);
          assert Bucket(t, k) > Bucket(t, i);
          return None;
        }
        count := b;
      }
    }
    last := Some(count);
  }

  /** dynamic_symtab_count from a GNU hash table; None is the error return. */
  method CountGnu(t: Table) returns (r: Option<word32>)
    requires HasBuckets(t) && (!Rejected(t) && LastBucket(t, Buckets(t)) != 0 ==> Terminated(t))
    ensures Rejected(t) ==> r == None
    ensures !Rejected(t) ==> r.Some? && IsCount(t, r.value)
  {
    var last := ScanBuckets(t);
    if last.None? {
      return None;
    }
    var count := last.value;
    if count != 0 {
      if count < t.words[1] {
        return None;
      }
      count := FollowChain(t, count, BucketBase(t) + Buckets(t) + (count - t.words[1]));
      EndOfLastChain(t, count - 1);
    } else {
      EmptyBuckets(t, t.words[0]);
    }
    r := Some(count);
  }

  /** Count on to the end of the chain that starts at symbol `last`, whose word is at index `at`. */
  method FollowChain(t: Table, last: word32, at: nat) returns (count: word32)
    requires HasBuckets(t) && SymOffset(t) <= last && at == BucketBase(t) + Buckets(t) + (last - SymOffset(t))
    requires exists n :: last <= n < TWO_32 - 1 && EndsChain(t, n)
    ensures count > last && EndsChain(t, count - 1)
    ensures forall k :: last <= k < count - 1 ==> !EndsChain(t, k)
  {
    ghost var end :| last <= end < TWO_32 - 1 && EndsChain(t, end);
    count := last;
    var hashval := at;
    var done := false;
    while !done
      invariant last <= count <= TWO_32 - 1 && hashval == at + (count - last)
      invariant done ==> count > last && EndsChain(t, count - 1)
      invariant forall k :: last <= k < (if done then count - 1 else count) ==> !EndsChain(t, k)
      decreases !done, end - count
    {
      assert count <= end;
      done := t.words[hashval] % 2 == 1;
      assert done == EndsChain(t, count);
      count := count + 1;
      hashval := hashval + 1;
    }
  }

  /** Prefer the System V table, which stores the count. */
  method DynamicSymtabCount(wanted: bool, sysv: Option<seq<word32>>, gnu: Option<Table>) returns (r: Option<word32>)
    requires sysv.Some? ==> |sysv.value| >= 2
    requires sysv.None? && gnu.Some? ==>
      HasBuckets(gnu.value) && (!Rejected(gnu.value) && LastBucket(gnu.value, Buckets(gnu.value)) != 0 ==> Terminated(gnu.value))
    ensures r.None? <==> !wanted || (sysv.None? && (gnu.None? || Rejected(gnu.value)))
    ensures r.Some? && sysv.Some? ==> r.value == sysv.value[1]
    ensures r.Some? && sysv.None? ==> IsCount(gnu.value, r.value)
  {
    if !wanted || (sysv.None? && gnu.None?) {
      return None;
    }
    if sysv.Some? {
      return Some(sysv.value[1]);
    }
    r := CountGnu(gnu.value);
  }

  // ----- a table by its parts -----

  /** What a table is put together from, in this order; the Bloom filter is in words of an address's size. */
  datatype Parts = Parts(symOffset: word32, shift: word32, bloomSize: word32, bloom: seq<word32>,
                         buckets: seq<word32>, chains: seq<word32>, wide: bool)

  predicate Fitting(p: Parts) {
    |p.bloom| == (if p.wide then p.bloomSize + p.bloomSize else p.bloomSize) && |p.buckets| < 0x1_0000_0000
  }

  function Assembled(p: Parts): Table
    requires Fitting(p)
  {
    Table([|p.buckets|, p.symOffset, p.bloomSize, p.shift] + p.bloom + p.buckets + p.chains, p.wide)
  }

  lemma AssembledParts(p: Parts)
    requires Fitting(p)
    ensures var t := Assembled(p);
      && HasBuckets(t) && Buckets(t) == |p.buckets| && SymOffset(t) == p.symOffset
      && (forall i :: 0 <= i < |p.buckets| ==> Bucket(t, i) == p.buckets[i])
  {
    var t := Assembled(p);
    assert BucketBase(t) == 4 + |p.bloom|;
    forall i | 0 <= i < |p.buckets| ensures Bucket(t, i) == p.buckets[i] {
      assert t.words[4 + |p.bloom| + i] == p.buckets[i];
    }
  }

  /** The low bit of a symbol's chain word ends its chain. */
  predicate IsLast(p: Parts, n: nat) {
    p.symOffset <= n < p.symOffset + |p.chains| && p.chains[n - p.symOffset] % 2 == 1
  }

  lemma AssembledChain(p: Parts, n: nat)
    requires Fitting(p)
    ensures EndsChain(Assembled(p), n) <==> IsLast(p, n)
  {
    AssembledParts(p);
    var t := Assembled(p);
    var base := BucketBase(t) + Buckets(t);
    assert base == 4 + |p.bloom| + |p.buckets|;
    if p.symOffset <= n < p.symOffset + |p.chains| {
      assert t.words[base + (n - p.symOffset)] == p.chains[n - p.symOffset];
    }
  }

  /** Symbol n is in the chain that starts at the symbol in bucket i. */
  ghost predicate Chained(p: Parts, i: nat, n: nat)
    requires i < |p.buckets|
  {
    p.buckets[i] != 0 && p.buckets[i] <= n && forall k :: p.buckets[i] <= k < n ==> !IsLast(p, k)
  }

  lemma AssembledLeads(p: Parts, i: nat, n: nat)
    requires Fitting(p) && i < |p.buckets|
    ensures HasBuckets(Assembled(p)) && i < Buckets(Assembled(p))
    ensures Leads(Assembled(p), i, n) <==> Chained(p, i, n)
  {
    AssembledParts(p);
    forall k: nat ensures EndsChain(Assembled(p), k) <==> IsLast(p, k) {
      AssembledChain(p, k);
    }
  }

  ghost predicate InSomeChain(p: Parts, n: nat) {
    exists i :: 0 <= i < |p.buckets| && Chained(p, i, n)
  }

  /** The count by the parts: one more than the largest symbol in any chain, 0 without one. */
  ghost predicate IsCountOf(p: Parts, c: nat) {
    && (c == 0 <==> forall i :: 0 <= i < |p.buckets| ==> p.buckets[i] == 0)
    && (c > 0 ==> InSomeChain(p, c - 1))
    && (forall n: nat :: InSomeChain(p, n) ==> n < c)
  }

  lemma AssembledReachable(p: Parts, n: nat)
    requires Fitting(p)
    ensures HasBuckets(Assembled(p)) && (Reachable(Assembled(p), n) <==> InSomeChain(p, n))
  {
    AssembledParts(p);
    forall i | 0 <= i < |p.buckets| ensures Leads(Assembled(p), i, n) <==> Chained(p, i, n) {
      AssembledLeads(p, i, n);
    }
  }

  /** The count of a table is that of its parts. */
  lemma AssembledCount(p: Parts, c: nat)
    requires Fitting(p)
    ensures HasBuckets(Assembled(p)) && (IsCount(Assembled(p), c) <==> IsCountOf(p, c))
  {
    AssembledParts(p);
    forall n: nat ensures Reachable(Assembled(p), n) <==> InSomeChain(p, n) {
      AssembledReachable(p, n);
    }
  }

  /** Bucket j is below an earlier one, and both have symbols. */
  predicate GoesDown(p: Parts, i: nat, j: nat) {
    i < j < |p.buckets| && p.buckets[j] != 0 && p.buckets[i] > p.buckets[j]
  }

  /** Bucket i is the last with symbols, and starts below the first symbol hashed. */
  predicate LastTooLow(p: Parts, i: nat) {
    i < |p.buckets| && 0 < p.buckets[i] < p.symOffset && forall j :: i < j < |p.buckets| ==> p.buckets[j] == 0
  }

  /** The table is rejected if and only if nonempty buckets go down, or the last of them is too low. */
  lemma AssembledRejected(p: Parts)
    requires Fitting(p)
    ensures HasBuckets(Assembled(p))
    ensures Rejected(Assembled(p)) <==> (exists i, j :: GoesDown(p, i, j)) || (exists i :: LastTooLow(p, i))
  {
    AssembledDescends(p);
    AssembledTooLow(p);
  }

  lemma AssembledDescends(p: Parts)
    requires Fitting(p)
    ensures HasBuckets(Assembled(p)) && (!Nondecreasing(Assembled(p)) <==> exists i, j :: GoesDown(p, i, j))
  {
    AssembledParts(p);
    var t := Assembled(p);
    if !Nondecreasing(t) {
      var i, j :| 0 <= i < j < Buckets(t) && Bucket(t, i) != 0 && Bucket(t, j) != 0 && Bucket(t, i) > Bucket(t, j);
      assert GoesDown(p, i, j);
    }
    if i, j :| GoesDown(p, i, j) {
      assert Bucket(t, i) > Bucket(t, j);
    }
  }

  lemma AssembledTooLow(p: Parts)
    requires Fitting(p)
    ensures HasBuckets(Assembled(p))
    ensures 0 < LastBucket(Assembled(p), Buckets(Assembled(p))) < SymOffset(Assembled(p)) <==> exists i :: LastTooLow(p, i)
  {
    AssembledParts(p);
    var t := Assembled(p);
    if 0 < LastBucket(t, Buckets(t)) < SymOffset(t) {
      var i := LastFound(t, Buckets(t));
      assert LastTooLow(p, i);
    }
    if i :| LastTooLow(p, i) {
      LastIsAt(t, Buckets(t), i);
    }
  }

  lemma {:induction false} LastIsAt(t: Table, n: nat, i: nat)
    requires HasBuckets(t) && i < n <= Buckets(t) && Bucket(t, i) != 0
    requires forall j :: i < j < n ==> Bucket(t, j) == 0
    ensures LastBucket(t, n) == Bucket(t, i)
  {
    if i < n - 1 {
      LastIsAt(t, n - 1, i);
    }
  }
}
