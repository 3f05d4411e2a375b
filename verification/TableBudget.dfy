/** The growth budget (common/raw_hashtable.h:117-120, 1321-1337): what it counts, and that it reaches zero. */
module TableBudget {
  import opened Bits
  import opened MetadataGroup
  import opened TableLayout
  import opened TableGrowth
  import opened RawHashtable
  import opened TableMetrics
  import opened HashtableRuns

  lemma {:induction false} UsedAreLiveOrDeleted(meta: seq<Byte>, n: nat)
    requires n <= |meta| && forall i :: 0 <= i < |meta| ==> ValidByte(meta[i])
    ensures CountNonEmpty(meta, n) == CountPresent(meta, n) + CountDeleted(meta, n)
  {
    if n == 0 {
    } else {
      UsedAreLiveOrDeleted(meta, n - 1);
    }
  }

  lemma {:induction false} PresentAreOwned<K, V>(t: Sound<K, V>, n: nat)
    requires n <= |t.meta|
    ensures CountPresent(t.meta, n) == |OwnedBelow(t, n)|
  {
    hide Table.Ok;
    if n == 0 {
      assert OwnedBelow(t, n) == {};
    } else {
      PresentAreOwned(t, n - 1);
      OwnedIsPresent(t, n - 1);
      BelowStep(t, n);
    }
  }

  // The bytes in use are one for each key and one for each tombstone.
  lemma UsedIsKeysAndTombstones<K, V>(t: Sound<K, V>)
    ensures Used(t.meta) == |t.contents| + CountDeleted(t.meta, |t.meta|)
  {
    UsedAreLiveOrDeleted(t.meta, |t.meta|);
    PresentAreOwned(t, |t.meta|);
    OwnedSlotsAreKeys(t);
  }

  // The budget is conserved: with the keys and the tombstones it makes seven eighths of the slots,
  // and it is never negative.
  lemma BudgetIsConserved<K, V>(m: MapBase<K, V>)
    requires m.Valid()
    ensures 8 * (m.growthBudget + |m.contents| + |SlotsWith(m.metadata[..], m.metadata.Length, DELETED)|) == 7 * m.allocSize
    ensures m.growthBudget >= 0
  {
    hide Table.Ok, Used, CountDeleted, SlotsWith, GrowthThreshold;
    var t: Sound<K, V> := m.Abs();
    SoundSize(t);
    SevenEighths(m.allocSize);
    m.BudgetIsNotNegative();
    UsedIsKeysAndTombstones(t);
    DeletedAreSlots(t.meta, |t.meta|);
  }

  lemma {:induction false} DistinctKeysAdd<K, V>(kvs: seq<(K, V)>, n: nat)
    requires n <= |kvs| && forall i, j :: 0 <= i < j < |kvs| ==> kvs[i].0 != kvs[j].0
    ensures var m := MapAfter(map[], Inserts(kvs[..n]));
            |m| == n && forall k :: k in m ==> exists i :: 0 <= i < n && kvs[i].0 == k
  {
    if n == 0 {
    } else {
      DistinctKeysAdd(kvs, n - 1);
      var ops := Inserts(kvs[..n]);
      assert kvs[..n][..n - 1] == kvs[..n - 1];
      assert ops[..n - 1] == Inserts(kvs[..n - 1]);
      var before := MapAfter(map[], Inserts(kvs[..n - 1]));
      assert MapAfter(map[], ops) == before[kvs[n - 1].0 := kvs[n - 1].1];
      assert kvs[n - 1].0 !in before;
    }
  }

  // The budget does reach zero: after a clear, different keys for seven eighths of the slots fill the
  // table without growing it.
  method FillToThreshold<K(==), V>(m: MapBase<K, V>, kvs: seq<(K, V)>)
    requires m.Valid() && 8 * |kvs| == 7 * m.allocSize
    requires forall i, j :: 0 <= i < j < |kvs| ==> kvs[i].0 != kvs[j].0
    modifies m, m.metadata, m.entries
    ensures m.Valid() && m.SameOrFresh() && m.allocSize == old(m.allocSize)
    ensures m.contents == MapAfter(map[], Inserts(kvs)) && |m.contents| == |kvs|
    ensures m.growthBudget == 0 && SlotsWith(m.metadata[..], m.metadata.Length, DELETED) == {}
  {
    hide Table.Ok, Used, CountDeleted, SlotsWith, GrowthThreshold;
    m.ClearImpl();
    InsertAll(m, kvs);
    assert kvs[..|kvs|] == kvs;
    DistinctKeysAdd(kvs, |kvs|);
    BudgetIsConserved(m);
  }

  // The next new key doubles the table, whatever the hash function.
  method FillAndGrow<K(==), V>(m: MapBase<K, V>, kvs: seq<(K, V)>, key: K, v: V)
    requires m.Valid() && 8 * |kvs| == 7 * m.allocSize
    requires forall i, j :: 0 <= i < j < |kvs| ==> kvs[i].0 != kvs[j].0
    requires forall i :: 0 <= i < |kvs| ==> kvs[i].0 != key
    modifies m, m.metadata, m.entries
    ensures m.Valid() && m.allocSize == 2 * old(m.allocSize)
    ensures m.contents == MapAfter(map[], Inserts(kvs))[key := v]
  {
    hide Table.Ok, Used, CountDeleted, GrowthThreshold;
    FillToThreshold(m, kvs);
    assert kvs[..|kvs|] == kvs;
    DistinctKeysAdd(kvs, |kvs|);
    forall i | 0 <= i < m.metadata.Length ensures m.metadata[i] != DELETED {
      assert i !in SlotsWith(m.metadata[..], m.metadata.Length, DELETED);
    }
    var inserted := m.Insert(key, v);
  }
}
