/** The metrics of a table (common/raw_hashtable.h:1037-1104) agree with the lookups they describe. */
module TableMetrics {
  import opened Bits
  import opened Probe
  import opened MetadataGroup
  import opened TableLayout
  import opened TableGrowth
  import opened RawHashtable

  // --- The work of looking up a present key ---

  // A lookup of a key does one particular amount of work.
  lemma LookupWorkIsUnique<K, V>(t: Sound<K, V>, key: K, n: nat, f: nat, n': nat, f': nat)
    requires t.LookupWork(key, n, f) && t.LookupWork(key, n', f')
    ensures n == n' && f == f'
  {
    hide Table.Ok, Table.FailedBefore, Table.Group, Table.TagQuery, Table.Follows, MatchCount, IsPow2, PassesFirst, GroupAt;
    SoundSize(t);
    GroupCount(t.w, |t.meta|);
    if n < n' { ProbeDistinct(t.w.GroupOf(HashIndex(t.hash(key))), t.Groups(), n, n'); }
    if n' < n { ProbeDistinct(t.w.GroupOf(HashIndex(t.hash(key))), t.Groups(), n', n); }
  }

  lemma LookupWorkExists<K, V>(t: Sound<K, V>, key: K) returns (n: nat, f: nat)
    requires key in t.slotOf
    ensures t.LookupWork(key, n, f)
  {
    KeyHasItsByte(t, key);
    n :| ReachesAt(t.w, t.meta, t.hash(key), t.slotOf[key], n);
    ProbeInBounds(t, key, n);
    SameGroup(t.w, t.Probed(key, n), t.slotOf[key]);
    f := t.FailedBefore(key, n)
         + MatchCount(t.Group(t.ProbeIndex(key, n)), t.TagQuery(key), t.slotOf[key] - t.ProbeIndex(key, n));
  }

  // The calls to Next, and the comparisons in vain, of a lookup for the key in slot i.
  ghost function Distance<K, V>(t: Sound<K, V>, i: nat): nat
    requires i in t.owner
  {
    OwnerHasSlot(t, i);
    WorkOf(t, t.owner[i]).0
  }

  ghost function Compares<K, V>(t: Sound<K, V>, i: nat): nat
    requires i in t.owner
  {
    OwnerHasSlot(t, i);
    WorkOf(t, t.owner[i]).1
  }

  lemma WorkOfSlot<K, V>(t: Sound<K, V>, i: nat)
    requires i in t.owner
    ensures t.LookupWork(t.owner[i], Distance(t, i), Compares(t, i))
  {
    OwnerHasSlot(t, i);
  }

  ghost function WorkOf<K, V>(t: Sound<K, V>, key: K): (p: (nat, nat))
    requires key in t.slotOf
    ensures t.LookupWork(key, p.0, p.1)
  {
    assert exists n, f :: t.LookupWork(key, n, f) by {
      var n, f := LookupWorkExists(t, key);
    }
    var n, f :| t.LookupWork(key, n, f);
    (n, f)
  }

  lemma WorkIs<K, V>(t: Sound<K, V>, i: nat, n: nat, f: nat)
    requires i in t.owner && t.LookupWork(t.owner[i], n, f)
    ensures Distance(t, i) == n && Compares(t, i) == f
  {
    WorkOfSlot(t, i);
    LookupWorkIsUnique(t, t.owner[i], n, f, Distance(t, i), Compares(t, i));
  }

  // --- Adding up over the table ---

  datatype Tally = Tally(keys: nat, probedKeys: nat, sumDistance: nat, maxDistance: nat, sumCompares: nat, maxCompares: nat) {
    function Add(distance: nat, compares: nat): Tally {
      Tally(keys + 1, probedKeys + (if distance > 0 then 1 else 0),
            sumDistance + distance, if distance > maxDistance then distance else maxDistance,
            sumCompares + compares, if compares > maxCompares then compares else maxCompares)
    }
  }

  const NO_KEYS := Tally(0, 0, 0, 0, 0, 0)

  ghost function TallyUpTo<K, V>(t: Sound<K, V>, n: nat): Tally {
    if n == 0 then NO_KEYS
    else if n - 1 in t.owner then TallyUpTo(t, n - 1).Add(Distance(t, n - 1), Compares(t, n - 1))
    else TallyUpTo(t, n - 1)
  }

  lemma {:induction false} TallySkips<K, V>(t: Sound<K, V>, n: nat, m: nat)
    requires n <= m && forall i :: n <= i < m ==> i !in t.owner
    ensures TallyUpTo(t, m) == TallyUpTo(t, n)
  {
    if n == m {
    } else {
      TallySkips(t, n, m - 1);
    }
  }

  ghost function OwnedBelow<K, V>(t: Table<K, V>, n: nat): set<nat> {
    set i: nat | i in t.owner && i < n
  }

  ghost function ProbedBelow<K, V>(t: Sound<K, V>, n: nat): set<nat> {
    set i: nat | i in t.owner && i < n && Distance(t, i) > 0
  }

  lemma TallyStep<K, V>(t: Sound<K, V>, n: nat)
    requires n > 0
    ensures n - 1 in t.owner ==> TallyUpTo(t, n) == TallyUpTo(t, n - 1).Add(Distance(t, n - 1), Compares(t, n - 1))
    ensures n - 1 !in t.owner ==> TallyUpTo(t, n) == TallyUpTo(t, n - 1)
  {}

  lemma TallyStart<K, V>(t: Sound<K, V>)
    ensures TallyUpTo(t, 0) == NO_KEYS
  {}

  lemma BelowStep<K, V>(t: Sound<K, V>, n: nat)
    requires n > 0
    ensures |OwnedBelow(t, n)| == |OwnedBelow(t, n - 1)| + (if n - 1 in t.owner then 1 else 0)
    ensures |ProbedBelow(t, n)| == |ProbedBelow(t, n - 1)| + (if n - 1 in t.owner && Distance(t, n - 1) > 0 then 1 else 0)
  {
    hide Table.Ok, Distance;
    if n - 1 in t.owner {
      assert OwnedBelow(t, n) == OwnedBelow(t, n - 1) + {n - 1};
      if Distance(t, n - 1) > 0 {
        assert ProbedBelow(t, n) == ProbedBelow(t, n - 1) + {n - 1};
      } else {
        assert ProbedBelow(t, n) == ProbedBelow(t, n - 1);
      }
    } else {
      assert OwnedBelow(t, n) == OwnedBelow(t, n - 1) && ProbedBelow(t, n) == ProbedBelow(t, n - 1);
    }
  }

  lemma BelowStart<K, V>(t: Sound<K, V>)
    ensures OwnedBelow(t, 0) == {} && ProbedBelow(t, 0) == {}
  {}

  // The tally counts the keys below n, and those whose lookup leaves its first group.
  lemma {:induction false} TallyCounts<K, V>(t: Sound<K, V>, n: nat)
    ensures TallyUpTo(t, n).keys == |OwnedBelow(t, n)| && TallyUpTo(t, n).probedKeys == |ProbedBelow(t, n)|
  {
    hide Table.Ok, Distance, Compares, TallyUpTo, OwnedBelow, ProbedBelow;
    if n == 0 {
      TallyStart(t);
      BelowStart(t);
    } else {
      TallyCounts(t, n - 1);
      TallyStep(t, n);
      BelowStep(t, n);
    }
  }

  // Its maxima bound every lookup, and some lookup attains them.
  ghost predicate IsMaxDistance<K, V>(t: Sound<K, V>, n: nat, m: nat) {
    && (forall i :: i in t.owner && i < n ==> Distance(t, i) <= m)
    && (m > 0 ==> exists i :: i in t.owner && i < n && Distance(t, i) == m)
  }

  ghost predicate IsMaxCompares<K, V>(t: Sound<K, V>, n: nat, m: nat) {
    && (forall i :: i in t.owner && i < n ==> Compares(t, i) <= m)
    && (m > 0 ==> exists i :: i in t.owner && i < n && Compares(t, i) == m)
  }

  lemma {:induction false} TallyMaxima<K, V>(t: Sound<K, V>, n: nat)
    ensures IsMaxDistance(t, n, TallyUpTo(t, n).maxDistance) && IsMaxCompares(t, n, TallyUpTo(t, n).maxCompares)
  {
    hide Table.Ok, Distance, Compares, TallyUpTo;
    TallyStart(t);
    if n == 0 {
    } else {
      TallyMaxima(t, n - 1);
      TallyStep(t, n);
    }
  }

  // --- Sums over the keys ---

  // The sum of a quantity over a set of slots.
  ghost function SumOver(slots: set<nat>, f: map<nat, nat>): nat
    requires slots <= f.Keys
  {
    if slots == {} then 0
    else
      var i :| i in slots;
      f[i] + SumOver(slots - {i}, f)
  }

  // It does not matter which slot is taken first.
  lemma {:induction false} SumWithout(slots: set<nat>, f: map<nat, nat>, i: nat)
    requires slots <= f.Keys && i in slots
    ensures SumOver(slots, f) == f[i] + SumOver(slots - {i}, f)
    decreases |slots|
  {
    var j :| j in slots && SumOver(slots, f) == f[j] + SumOver(slots - {j}, f);
    if i == j {
    } else {
      SumWithout(slots - {j}, f, i);
      SumWithout(slots - {i}, f, j);
      assert slots - {i} - {j} == slots - {j} - {i};
    }
  }

  ghost function Distances<K, V>(t: Sound<K, V>): map<nat, nat> {
    map i | i in t.owner :: Distance(t, i)
  }

  ghost function AllCompares<K, V>(t: Sound<K, V>): map<nat, nat> {
    map i | i in t.owner :: Compares(t, i)
  }

  lemma SumStep<K, V>(t: Sound<K, V>, n: nat, f: map<nat, nat>)
    requires n > 0 && t.owner.Keys == f.Keys
    ensures OwnedBelow(t, n) <= f.Keys && OwnedBelow(t, n - 1) <= f.Keys
    ensures SumOver(OwnedBelow(t, n), f) == SumOver(OwnedBelow(t, n - 1), f) + (if n - 1 in f then f[n - 1] else 0)
  {
    hide Table.Ok, SumOver;
    if n - 1 in f {
      SumWithout(OwnedBelow(t, n), f, n - 1);
      assert OwnedBelow(t, n) - {n - 1} == OwnedBelow(t, n - 1);
    } else {
      assert OwnedBelow(t, n) == OwnedBelow(t, n - 1);
    }
  }

  lemma SumStart<K, V>(t: Sound<K, V>, f: map<nat, nat>)
    ensures OwnedBelow(t, 0) == {} && SumOver({}, f) == 0
  {}

  lemma CostsOf<K, V>(t: Sound<K, V>)
    ensures Distances(t).Keys == t.owner.Keys == AllCompares(t).Keys
    ensures forall i :: i in t.owner ==> Distances(t)[i] == Distance(t, i) && AllCompares(t)[i] == Compares(t, i)
  {}

  // The tally adds up what the lookups of the keys below n cost.
  lemma {:induction false} TallySums<K, V>(t: Sound<K, V>, n: nat)
    ensures Distances(t).Keys == t.owner.Keys == AllCompares(t).Keys && OwnedBelow(t, n) <= t.owner.Keys
    ensures TallyUpTo(t, n).sumDistance == SumOver(OwnedBelow(t, n), Distances(t))
    ensures TallyUpTo(t, n).sumCompares == SumOver(OwnedBelow(t, n), AllCompares(t))
  {
    hide Table.Ok, Distance, Compares, Distances, AllCompares, TallyUpTo, SumOver;
    CostsOf(t);
    if n == 0 {
      TallyStart(t);
      SumStart(t, Distances(t));
      SumStart(t, AllCompares(t));
    } else {
      TallySums(t, n - 1);
      TallyStep(t, n);
      SumStep(t, n, Distances(t));
      SumStep(t, n, AllCompares(t));
    }
  }

  // As many owned slots as keys.
  lemma OwnedSlotsAreKeys<K, V>(t: Sound<K, V>)
    ensures |OwnedBelow(t, |t.meta|)| == |t.contents|
  {
    SoundKeys(t);
    forall i | i in t.owner ensures i < |t.meta| && t.owner[i] in t.contents { OwnerIsLive(t, i); }
    forall k | k in t.contents ensures t.slotOf[k] in OwnedBelow(t, |t.meta|) { KeyHasItsByte(t, k); }
    BijectionSize(OwnedBelow(t, |t.meta|), t.contents.Keys, t.owner, t.slotOf);
    assert |t.contents.Keys| == |t.contents|;
  }

  lemma {:induction false} BijectionSize<A, B>(a: set<A>, b: set<B>, f: map<A, B>, g: map<B, A>)
    requires forall x :: x in a ==> x in f && f[x] in b && f[x] in g && g[f[x]] == x
    requires forall y :: y in b ==> y in g && g[y] in a && g[y] in f && f[g[y]] == y
    ensures |a| == |b|
    decreases |a|
  {
    if a == {} {
      assert b == {};
    } else {
      var x :| x in a;
      BijectionSize(a - {x}, b - {f[x]}, f, g);
    }
  }

  // --- The computation ---

  datatype Metrics = Metrics(keyCount: nat, deletedCount: nat, storageBytes: nat,
                             probedKeyCount: nat, probeAvgDistance: real, probeMaxDistance: nat,
                             probeAvgCompares: real, probeMaxCompares: nat)

  function CountDeleted(meta: seq<Byte>, n: nat): nat
    requires n <= |meta|
  {
    if n == 0 then 0 else CountDeleted(meta, n - 1) + (if meta[n - 1] == DELETED then 1 else 0)
  }

  lemma {:induction false} DeletedAreSlots(meta: seq<Byte>, n: nat)
    requires n <= |meta|
    ensures CountDeleted(meta, n) == |SlotsWith(meta, n, DELETED)|
  {
    if n == 0 {
      NoSlots(meta, DELETED);
    } else {
      DeletedAreSlots(meta, n - 1);
      SlotsWithStep(meta, n - 1, DELETED);
    }
  }

  // Matches below `upto`, counted by walking the match range.
  method CountMatches(bytes: seq<Byte>, q: Query, upto: nat) returns (c: nat)
    requires upto <= |bytes|
    ensures c == MatchCount(bytes, q, upto)
  {
    c := 0;
    var b := NextMatch(bytes, q, 0);
    if b < upto { MatchCountSkips(bytes, q, 0, b); } else { MatchCountSkips(bytes, q, 0, upto); }
    while b < upto
      invariant b < upto ==> q.Accepts(bytes[b])
      invariant b <= |bytes|
      invariant c == MatchCount(bytes, q, if b < upto then b else upto)
      decreases |bytes| - b
    {
      var next := NextMatch(bytes, q, b + 1);
      c := c + 1;
      MatchCountStep(bytes, q, b, if next < upto then next else upto);
      b := next;
    }
  }

  method GroupMatches<K(==), V>(table: MapBase<K, V>, gi: nat, q: Query, upto: nat, ghost t: Sound<K, V>) returns (n: nat)
    requires table.Abs() == t && gi + t.w.Size() <= table.metadata.Length && upto <= t.w.Size()
    ensures upto <= |t.Group(gi)| && n == MatchCount(t.Group(gi), q, upto)
  {
    hide Table.Ok, MatchCount;
    var bytes := table.metadata[gi..gi + table.w.Size()];
    assert bytes == t.Group(gi);
    n := CountMatches(bytes, q, upto);
  }

  // Follows the probe sequence of a key to its group, counting steps and candidates passed.
  method WalkToGroup<K(==), V>(table: MapBase<K, V>, h: HashCode, gi: nat, ghost i: nat, ghost t: Sound<K, V>)
    returns (probed: bool, distance: nat, compares: nat)
    requires table.Abs() == t && table.allocSize == table.metadata.Length
    requires i in t.owner && h == t.hash(t.owner[i])
    requires gi == t.w.First(t.w.GroupOf(gi)) && gi <= i < gi + t.w.Size()
    ensures distance <= Distance(t, i) && t.ProbeIndex(t.owner[i], distance) == gi
    ensures compares == t.FailedBefore(t.owner[i], distance) && probed == (distance > 0)
  {
    hide Table.Ok, Table.Missed, HasEmpty, GroupAt, IsPow2, MatchCount, ProbeSequence.Valid, Distance, ProbeMaskFromSize;
    ghost var key := t.owner[i];
    var q := HasTag(HashTag(h));
    SoundFacts(t, key);
    var s := new ProbeSequence(table.w, HashIndex(h), table.allocSize);
    FollowsIndex(t, s, key);
    probed := s.Index() != gi;
    distance, compares := 0, 0;
    while s.Index() != gi
      invariant fresh(s) && t.Follows(s, key) && s.taken == distance <= Distance(t, i)
      invariant s.p == t.ProbeIndex(key, distance)
      invariant compares == t.FailedBefore(key, distance)
      invariant probed == (distance > 0 || s.p != gi)
      decreases Distance(t, i) - distance
    {
      ProbeInBounds(t, key, distance);
      NotYetThere(t, i, gi, distance);
      var n := GroupMatches(table, s.Index(), q, table.w.Size(), t);
      compares := compares + n;
      distance := distance + 1;
      s.Next();
      FollowsIndex(t, s, key);
    }
  }

  // What the metrics count for the key in slot gi + b.
  method ProbeOf<K(==), V>(table: MapBase<K, V>, gi: nat, b: nat, ghost t: Sound<K, V>)
    returns (probed: bool, distance: nat, compares: nat)
    requires table.Abs() == t && table.allocSize == table.metadata.Length && gi + t.w.Size() <= table.allocSize
    requires gi + b in t.owner && t.w.First(t.w.GroupOf(gi)) == gi && b < t.w.Size()
    ensures distance == Distance(t, gi + b) && compares == Compares(t, gi + b)
    ensures probed == (distance > 0)
  {
    hide Table.Ok, Distance, Compares, MatchCount, NextMatch;
    OwnerIsLive(t, gi + b);
    assert table.entries[gi + b] == t.ents[gi + b];
    var h := table.hash(table.entries[gi + b].key);
    probed, distance, compares := WalkToGroup(table, h, gi, gi + b, t);
    OwnByteMatches(t, gi, b);
    var n := GroupMatches(table, gi, HasTag(HashTag(h)), b, t);
    compares := compares + n;
    Arrived(t, gi + b, gi, distance, n);
  }

  // The check that a key's own group has a match for its tag cannot fail.
  lemma OwnByteMatches<K, V>(t: Sound<K, V>, gi: nat, b: nat)
    requires gi + b in t.owner && gi + t.w.Size() <= |t.meta| && b < t.w.Size()
    ensures NextMatch(t.Group(gi), t.TagQuery(t.owner[gi + b]), 0) < t.w.Size()
  {
    var i := gi + b;
    OwnerHasSlot(t, i);
    KeyHasItsByte(t, t.owner[i]);
    assert t.Group(gi)[b] == t.meta[i];
  }

  // Before the key's group is reached the probe goes on, for at most its distance.
  lemma NotYetThere<K, V>(t: Sound<K, V>, i: nat, gi: nat, n: nat)
    requires i in t.owner && gi == t.w.First(t.w.GroupOf(gi)) && gi <= i < gi + t.w.Size()
    requires n <= Distance(t, i) && t.ProbeIndex(t.owner[i], n) != gi
    ensures n < Distance(t, i) < t.Groups()
  {
    hide Table.Ok, Distance, Compares, MatchCount, HasEmpty, GroupAt, PassesFirst,
         Table.FailedBefore, Table.Group, Table.TagQuery;
    OwnerHasSlot(t, i);
    SameGroup(t.w, t.w.GroupOf(gi), i);
    WorkOfSlot(t, i);
  }

  lemma Arrived<K, V>(t: Sound<K, V>, i: nat, gi: nat, n: nat, c: nat)
    requires i in t.owner && gi == t.w.First(t.w.GroupOf(gi)) && gi <= i < gi + t.w.Size()
    requires n <= Distance(t, i) && t.ProbeIndex(t.owner[i], n) == gi && gi + t.w.Size() <= |t.meta|
    requires c == MatchCount(t.Group(gi), t.TagQuery(t.owner[i]), i - gi)
    ensures Distance(t, i) == n && Compares(t, i) == t.FailedBefore(t.owner[i], n) + c
  {
    hide *;
    OwnerHasSlot(t, i);
    ArrivedReaches(t, i, gi, n);
    ArrivedWork(t, t.owner[i], n, c);
    WorkIs(t, i, n, t.FailedBefore(t.owner[i], n) + c);
  }

  lemma ArrivedReaches<K, V>(t: Sound<K, V>, i: nat, gi: nat, n: nat)
    requires i in t.owner && gi == t.w.First(t.w.GroupOf(gi)) && gi <= i < gi + t.w.Size()
    requires n <= Distance(t, i) && t.ProbeIndex(t.owner[i], n) == gi
    ensures t.Groups() > 0 && ReachesAt(t.w, t.meta, t.hash(t.owner[i]), i, n)
  {
    hide Table.Ok, Distance, Compares, MatchCount, HasEmpty, GroupAt, Table.FailedBefore, Table.Group, Table.TagQuery;
    OwnerHasSlot(t, i);
    WorkOfSlot(t, i);
    SameGroup(t.w, t.w.GroupOf(gi), i);
    ProbeInBounds(t, t.owner[i], n);
  }

  lemma ArrivedWork<K, V>(t: Sound<K, V>, key: K, n: nat, c: nat)
    requires key in t.slotOf && t.Groups() > 0 && ReachesAt(t.w, t.meta, t.hash(key), t.slotOf[key], n)
    requires t.ProbeIndex(key, n) <= t.slotOf[key] < t.ProbeIndex(key, n) + t.w.Size() <= |t.meta|
    requires c == MatchCount(t.Group(t.ProbeIndex(key, n)), t.TagQuery(key), t.slotOf[key] - t.ProbeIndex(key, n))
    ensures t.LookupWork(key, n, t.FailedBefore(key, n) + c)
  {
    hide Table.Ok, MatchCount, ReachesAt, Table.FailedBefore, Table.Group, Table.TagQuery, Table.ProbeIndex;
  }

  method ComputeMetrics<K(==), V>(table: MapBase<K, V>, entryBytes: nat) returns (m: Metrics)
    requires table.Valid()
    ensures var t: Sound<K, V> := table.Abs();
            && m.keyCount == |table.contents| && m.deletedCount == |SlotsWith(t.meta, |t.meta|, DELETED)|
            && m.storageBytes == table.allocSize + entryBytes * table.allocSize
            && m.probedKeyCount == |ProbedBelow(t, |t.meta|)|
            && IsMaxDistance(t, |t.meta|, m.probeMaxDistance) && IsMaxCompares(t, |t.meta|, m.probeMaxCompares)
            && Distances(t).Keys == t.owner.Keys == AllCompares(t).Keys && OwnedBelow(t, |t.meta|) <= t.owner.Keys
            && m.probeAvgDistance * m.keyCount as real == SumOver(OwnedBelow(t, |t.meta|), Distances(t)) as real
            && m.probeAvgCompares * m.keyCount as real == SumOver(OwnedBelow(t, |t.meta|), AllCompares(t)) as real
            && (m.keyCount == 0 ==> m.probeAvgDistance == 0.0 && m.probeAvgCompares == 0.0)
  {
    hide Table.Ok, Distance, Compares, Distances, AllCompares, SumOver, TallyUpTo, OwnedBelow, ProbedBelow, SlotsWith,
         IsMaxDistance, IsMaxCompares;
    ghost var t: Sound<K, V> := table.Abs();
    SoundSize(t);
    var deleted := DeletedSlots(table);
    DeletedAreSlots(t.meta, |t.meta|);
    var y := TallyTable(table, t);
    TallyCounts(t, |t.meta|);
    TallyMaxima(t, |t.meta|);
    TallySums(t, |t.meta|);
    OwnedSlotsAreKeys(t);
    m := Metrics(y.keys, deleted, table.allocSize + entryBytes * table.allocSize, y.probedKeys,
                 if y.keys > 0 then y.sumDistance as real / y.keys as real else 0.0, y.maxDistance,
                 if y.keys > 0 then y.sumCompares as real / y.keys as real else 0.0, y.maxCompares);
    if y.keys == 0 { NoKeysNoSums(t, |t.meta|); }
  }

  lemma {:induction false} NoKeysNoSums<K, V>(t: Sound<K, V>, n: nat)
    requires TallyUpTo(t, n).keys == 0
    ensures TallyUpTo(t, n).sumDistance == 0 && TallyUpTo(t, n).sumCompares == 0
  {
    hide Table.Ok, Distance, Compares, TallyUpTo;
    TallyStart(t);
    if n == 0 {
    } else {
      TallyStep(t, n);
      NoKeysNoSums(t, n - 1);
    }
  }

  method DeletedSlots<K(==), V>(table: MapBase<K, V>) returns (c: nat)
    ensures c == CountDeleted(table.metadata[..], table.metadata.Length)
  {
    c := 0;
    for i := 0 to table.metadata.Length
      invariant c == CountDeleted(table.metadata[..], i)
    {
      if table.metadata[i] == DELETED { c := c + 1; }
    }
  }

  // Walks all present slots group by group, adding up what looking each key up costs.
  method TallyTable<K(==), V>(table: MapBase<K, V>, ghost t: Sound<K, V>) returns (y: Tally)
    requires table.Abs() == t && table.allocSize == table.metadata.Length == |t.meta|
    ensures y == TallyUpTo(t, |t.meta|)
  {
    hide *;
    TableFits(table, t);
    TallyStart(t);
    y := NO_KEYS;
    var gi := 0;
    while gi < table.allocSize
      invariant gi <= table.allocSize && t.w.First(t.w.GroupOf(gi)) == gi
      invariant y == TallyUpTo(t, gi)
    {
      NextGroup(t.w, gi, table.allocSize);
      y := TallyGroup(table, gi, y, t);
      gi := gi + table.w.Size();
    }
  }

  lemma TableFits<K, V>(table: MapBase<K, V>, t: Sound<K, V>)
    requires table.Abs() == t
    ensures t.w == table.w && IsTableSize(|t.meta|) && t.w.First(t.w.GroupOf(0)) == 0
  {
    hide Table.Ok, IsTableSize;
    SoundSize(t);
  }

  method TallyGroup<K(==), V>(table: MapBase<K, V>, gi: nat, y0: Tally, ghost t: Sound<K, V>) returns (y: Tally)
    requires table.Abs() == t && table.allocSize == table.metadata.Length == |t.meta|
    requires gi + t.w.Size() <= |t.meta| && t.w.First(t.w.GroupOf(gi)) == gi && y0 == TallyUpTo(t, gi)
    ensures y == TallyUpTo(t, gi + t.w.Size())
  {
    hide Table.Ok, Distance, Compares, TallyUpTo, NextMatch;
    var bytes := table.metadata[gi..gi + table.w.Size()];
    assert bytes == t.Group(gi);
    y := y0;
    var b := NextMatch(bytes, AnyPresent, 0);
    TallyGap(t, gi, 0, b);
    while b < table.w.Size()
      invariant b <= |bytes| && (b < |bytes| ==> AnyPresent.Accepts(bytes[b]))
      invariant y == TallyUpTo(t, gi + b)
      decreases |bytes| - b
    {
      PresentInGroup(t, gi, b);
      var probed, distance, compares := ProbeOf(table, gi, b, t);
      y := Tally(y.keys + 1, y.probedKeys + (if probed then 1 else 0),
                 y.sumDistance + distance, if distance > y.maxDistance then distance else y.maxDistance,
                 y.sumCompares + compares, if compares > y.maxCompares then compares else y.maxCompares);
      TallyStep(t, gi + b + 1);
      var from := b + 1;
      b := NextMatch(bytes, AnyPresent, from);
      TallyGap(t, gi, from, b);
    }
  }

  lemma PresentInGroup<K, V>(t: Sound<K, V>, gi: nat, b: nat)
    requires gi + t.w.Size() <= |t.meta| && b < t.w.Size() && AnyPresent.Accepts(t.Group(gi)[b])
    ensures gi + b in t.owner
  {}

  lemma TallyGap<K, V>(t: Sound<K, V>, gi: nat, from: nat, next: nat)
    requires gi + t.w.Size() <= |t.meta| && from <= next <= t.w.Size()
    requires forall i :: from <= i < next ==> !AnyPresent.Accepts(t.Group(gi)[i])
    ensures TallyUpTo(t, gi + next) == TallyUpTo(t, gi + from)
  {
    hide TallyUpTo;
    ScanGap(t, gi, from, next);
    forall i | gi + from <= i < gi + next ensures i !in t.owner {
      assert !IsPresent(t.meta[i]);
    }
    TallySkips(t, gi + from, gi + next);
  }
}
