/** The partition check of signature aggregation: distinct counters in write-once cells force a bijection. */
module Partition {
  import opened Arith
  import opened KoalaBear

  const MAX_RECURSIONS: nat := 16

  const MAX_N_SIGS: F := 0x8000

  /** The indices in the order in which they are written: raw signatures, then each recursive source. */
  function Written(raw: seq<F>, subs: seq<seq<F>>): (all: seq<F>)
    ensures |all| >= |raw|
  {
    if subs == [] then raw else Written(raw, subs[..|subs| - 1]) + subs[|subs| - 1]
  }

  /** Every number below n is written exactly once, and nothing else. */
  ghost predicate IsPartition(s: seq<F>, n: nat) {
    && |s| == n
    && (forall i {:trigger s[i]} :: 0 <= i < |s| ==> s[i] < n)
    && (forall i, j {:trigger s[i], s[j]} :: 0 <= i < j < |s| ==> s[i] != s[j])
  }

  /** The counter after k increments of a field element that started at zero. */
  function Counter(k: nat): F { k % P }

  /** A final content of the buffer that satisfies every write, and the closing equality. */
  ghost predicate Holds(s: seq<F>, n: nat, buffer: map<nat, F>) {
    && (forall k {:trigger s[k]} :: 0 <= k < |s| ==> s[k] < n && s[k] in buffer && buffer[s[k]] == Counter(k))
    && Counter(|s|) == n
  }

  // -- What any satisfying memory forces ---------------------------------------------------------------------

  lemma CountersDiffer(i: nat, j: nat)
    requires i < j < P
    ensures Counter(i) == i && Counter(i) != Counter(j)
  {
  }

  /** There are fewer than p writes: the first p would already need p cells. */
  lemma FewWrites(s: seq<F>, n: nat, buffer: map<nat, F>)
    requires n < P && Holds(s, n, buffer)
    ensures |s| < P
  {
    if |s| >= P {
      var first := seq(P, (i: int) requires 0 <= i < P => s[i] as nat);
      forall i, j | 0 <= i < j < |first| ensures first[i] != first[j] {
        CountersDiffer(i, j);
        assert buffer[s[i]] == Counter(i) && buffer[s[j]] == Counter(j);
      }
      forall i | 0 <= i < |first| ensures first[i] < n { assert s[i] < n; }
      Pigeonhole(first, n);
      assert false;
    }
  }

  /** Some memory satisfies the writes exactly when the indices are a bijection onto 0..n. */
  lemma WritesForceBijection(s: seq<F>, n: nat)
    requires n < P
    ensures (exists buffer: map<nat, F> :: Holds(s, n, buffer)) <==> IsPartition(s, n)
  {
    if buffer: map<nat, F> :| Holds(s, n, buffer) { WritesAreDistinct(s, n, buffer); }
    if IsPartition(s, n) {
      var buffer := BufferOf(s, |s|);
      BufferHolds(s, |s|);
      assert Counter(|s|) == n;
      assert Holds(s, n, buffer);
    }
  }

  lemma WritesAreDistinct(s: seq<F>, n: nat, buffer: map<nat, F>)
    requires n < P && Holds(s, n, buffer)
    ensures IsPartition(s, n)
  {
    FewWrites(s, n, buffer);
    forall i, j {:trigger s[i], s[j]} | 0 <= i < j < |s| ensures s[i] != s[j] {
      CountersDiffer(i, j);
      assert buffer[s[i]] == Counter(i) && buffer[s[j]] == Counter(j);
    }
  }

  /** The buffer after k writes. */
  function BufferOf(s: seq<F>, k: nat): map<nat, F>
    requires k <= |s|
  {
    if k == 0 then map[] else BufferOf(s, k - 1)[s[k - 1] as nat := Counter(k - 1)]
  }

  lemma {:induction false} BufferHolds(s: seq<F>, k: nat)
    requires k <= |s| && forall i, j {:trigger s[i], s[j]} :: 0 <= i < j < |s| ==> s[i] != s[j]
    ensures forall i {:trigger s[i]} :: 0 <= i < k ==> s[i] in BufferOf(s, k) && BufferOf(s, k)[s[i]] == Counter(i)
  {
    if k > 0 { BufferHolds(s, k - 1); }
  }

  /** n distinct numbers below n reach every number below n. */
  lemma PartitionIsOnto(s: seq<F>, n: nat, v: nat)
    requires IsPartition(s, n) && v < n
    ensures exists i :: 0 <= i < |s| && s[i] == v
  {
    if forall i :: 0 <= i < |s| ==> s[i] != v {
      var t := seq(n, (i: int) requires 0 <= i < n => if s[i] < v then s[i] as nat else s[i] as nat - 1);
      forall i, j | 0 <= i < j < n ensures t[i] != t[j] { assert s[i] != s[j] && s[i] != v && s[j] != v; }
      forall i | 0 <= i < n ensures t[i] < n - 1 { assert s[i] < n && s[i] != v; }
      Pigeonhole(t, n - 1);
      assert false;
    }
  }

  // -- The program -------------------------------------------------------------------------------------------

  /** The range checks on the header; a single recursive source leaves no room for duplicates. */
  ghost predicate HeaderOk(nSigs: F, nDup: F, subs: seq<seq<F>>) {
    && nSigs != 0 && FSub(nSigs, 1) < MAX_N_SIGS && |subs| <= MAX_RECURSIONS && nDup < MAX_N_SIGS
    && (|subs| == 1 ==> nDup == 0)
  }

  ghost predicate SourcesOk(subs: seq<seq<F>>) {
    forall r {:trigger subs[r]} :: 0 <= r < |subs| ==> 0 < |subs[r]| < MAX_N_SIGS
  }

  /** One recursive source and no raw signature: the source's own claim is passed on and no index is read. */
  predicate OneToOne(raw: seq<F>, subs: seq<seq<F>>) {
    |subs| == 1 && raw == []
  }

  lemma TotalDoesNotWrap(nSigs: F, nDup: F)
    requires nSigs != 0 && FSub(nSigs, 1) < MAX_N_SIGS && nDup < MAX_N_SIGS
    ensures FAdd(nSigs, nDup) == nSigs + nDup < 0x1_0000
  {
  }

  /** A write-once cell: the first write sets it, a later one must agree. */
  method WriteOnce(buffer: map<nat, F>, idx: F, value: F) returns (ok: bool, after: map<nat, F>)
    ensures ok <==> idx in buffer ==> buffer[idx] == value
    ensures after == if ok then buffer[idx as nat := value] else buffer
  {
    after := buffer;
    if idx in buffer && buffer[idx] != value { return false, after; }
    ok, after := true, buffer[idx as nat := value];
  }

  /** After the first k writes: the cells written so far and nothing else. */
  ghost predicate Consistent(s: seq<F>, n: nat, buffer: map<nat, F>, k: nat)
    requires k <= |s|
  {
    && (forall i {:trigger s[i]} :: 0 <= i < k ==> s[i] < n && s[i] in buffer && buffer[s[i]] == Counter(i))
    && (forall v {:trigger v in buffer} :: v in buffer ==>
        exists i :: 0 <= i < k && s[i] == v && buffer[v] == Counter(i))
  }

  /** One step: a failed range check or a conflicting cell rules a partition out. */
  lemma WriteStep(s: seq<F>, n: nat, buffer: map<nat, F>, k: nat)
    requires k < |s| && Consistent(s, n, buffer, k) && n < P
    ensures s[k] >= n ==> !IsPartition(s, n)
    ensures s[k] in buffer && buffer[s[k]] != Counter(k) ==> !IsPartition(s, n)
    ensures s[k] < n && (s[k] in buffer ==> buffer[s[k]] == Counter(k)) ==>
        Consistent(s, n, buffer[s[k] as nat := Counter(k)], k + 1)
  {
    if s[k] < n && (s[k] in buffer ==> buffer[s[k]] == Counter(k)) { ConsistentGrows(s, n, buffer, k); }
    if s[k] in buffer {
      var i :| 0 <= i < k && s[i] == s[k];
    }
  }

  lemma ConsistentGrows(s: seq<F>, n: nat, buffer: map<nat, F>, k: nat)
    requires k < |s| && Consistent(s, n, buffer, k) && s[k] < n && (s[k] in buffer ==> buffer[s[k]] == Counter(k))
    ensures Consistent(s, n, buffer[s[k] as nat := Counter(k)], k + 1)
  {
    var after := buffer[s[k] as nat := Counter(k)];
    forall v {:trigger v in after} | v in after
        ensures exists i :: 0 <= i < k + 1 && s[i] == v && after[v] == Counter(i) {
      if v == s[k] {
        assert s[k] == v && after[v] == Counter(k);
      } else {
        assert v in buffer;
        var i :| 0 <= i < k && s[i] == v && buffer[v] == Counter(i);
        assert after[v] == Counter(i);
      }
    }
  }

  /**
   * The header and partition checks of the program: accepted exactly when the header is in range and, unless a single
   * source is passed on, the sources are and the indices are a bijection.
   */
  method CheckPartition(nSigs: F, nDup: F, raw: seq<F>, subs: seq<seq<F>>) returns (ok: bool)
    ensures ok <==>
      && HeaderOk(nSigs, nDup, subs)
      && (OneToOne(raw, subs) || (SourcesOk(subs) && IsPartition(Written(raw, subs), nSigs + nDup)))
  {
    hide IsPartition, Consistent, Written, FSub, FAdd;
    if nSigs == 0 || FSub(nSigs, 1) >= MAX_N_SIGS || |subs| > MAX_RECURSIONS || nDup >= MAX_N_SIGS { return false; }
    if |subs| == 1 {
      if nDup != 0 { return false; }
      if |raw| == 0 { return true; }
    }
    TotalDoesNotWrap(nSigs, nDup);
    var nTotal := FAdd(nSigs, nDup);
    ghost var s := Written(raw, subs);
    var buffer: map<nat, F>, written: bool := map[], true;
    StartsConsistent(s, nTotal);
    RawFirst(raw, subs);
    var i := 0;
    while i < |raw|
      invariant 0 <= i <= |raw| && Consistent(s, nTotal, buffer, i)
    {
      WriteStep(s, nTotal, buffer, i);
      var idx := raw[i];
      if idx >= nTotal { return false; }
      written, buffer := WriteOnce(buffer, idx, Counter(i));
      if !written { return false; }
      i := i + 1;
    }
    var counter := Counter(|raw|);
    var recIdx, done := 0, |raw|;
    while recIdx < |subs|
      invariant 0 <= recIdx <= |subs| && done == |Written(raw, subs[..recIdx])| <= |s| && counter == Counter(done)
      invariant Consistent(s, nTotal, buffer, done)
      invariant forall r {:trigger subs[r]} :: 0 <= r < recIdx ==> 0 < |subs[r]| < MAX_N_SIGS
    {
      var sub := subs[recIdx];
      if |sub| == 0 || |sub| >= MAX_N_SIGS { return false; }
      NextSource(raw, subs, recIdx);
      var j := 0;
      while j < |sub|
        invariant 0 <= j <= |sub| && counter == Counter(done + j) && Consistent(s, nTotal, buffer, done + j)
      {
        WriteStep(s, nTotal, buffer, done + j);
        var idx := sub[j];
        if idx >= nTotal { return false; }
        written, buffer := WriteOnce(buffer, idx, counter);
        if !written { return false; }
        counter := FAdd(counter, 1);
        CounterStep(done + j);
        j := j + 1;
      }
      done := done + |sub|;
      recIdx := recIdx + 1;
    }
    AllSources(raw, subs);
    ok := counter == nTotal;
    CloseOff(s, nTotal, buffer);
  }

  lemma StartsConsistent(s: seq<F>, n: nat)
    ensures Consistent(s, n, map[], 0)
  {
  }

  lemma CounterStep(k: nat)
    ensures FAdd(Counter(k), 1) == Counter(k + 1)
  {
  }

  lemma {:induction false} RawFirst(raw: seq<F>, subs: seq<seq<F>>)
    ensures Written(raw, subs)[..|raw|] == raw && forall i {:trigger raw[i]} :: 0 <= i < |raw| ==>
        Written(raw, subs)[i] == raw[i]
    ensures Written(raw, subs[..0]) == raw
  {
    if subs != [] { RawFirst(raw, subs[..|subs| - 1]); }
  }

  /** The entries of source r come right after those of the sources before it. */
  lemma {:induction false} NextSource(raw: seq<F>, subs: seq<seq<F>>, r: nat)
    requires r < |subs|
    ensures var done, s := |Written(raw, subs[..r])|, Written(raw, subs);
            && |Written(raw, subs[..r + 1])| == done + |subs[r]| <= |s|
            && forall j {:trigger subs[r][j]} :: 0 <= j < |subs[r]| ==> s[done + j] == subs[r][j]
    decreases |subs|
  {
    var last := |subs| - 1;
    if r < last {
      NextSource(raw, subs[..last], r);
      assert subs[..last][..r] == subs[..r] && subs[..last][..r + 1] == subs[..r + 1];
    } else {
      assert subs[..r + 1] == subs;
    }
  }

  lemma AllSources(raw: seq<F>, subs: seq<seq<F>>)
    ensures Written(raw, subs[..|subs|]) == Written(raw, subs)
  {
    assert subs[..|subs|] == subs;
  }

  lemma CloseOff(s: seq<F>, n: nat, buffer: map<nat, F>)
    requires Consistent(s, n, buffer, |s|) && n < P
    ensures Counter(|s|) == n <==> IsPartition(s, n)
  {
    if Counter(|s|) == n { WritesAreDistinct(s, n, buffer); }
  }
}
