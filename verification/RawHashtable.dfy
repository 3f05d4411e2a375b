/** The open-addressing hash table and the map built on it
    (common/raw_hashtable.h, common/map.h). */
module RawHashtable {
  import opened Bits
  import opened Options
  import opened Probe
  import opened MetadataGroup
  import opened TableLayout
  import opened TableGrowth

  const MIN_ALLOCATED_SIZE := 64

  class MapBase<K(==), V> {
    const w: Width
    const hash: K -> HashCode
    const triviallyRelocatable: bool
    const triviallyDestructible: bool
    const smallAllocSize: nat

    var allocSize: nat
    var growthBudget: int
    var metadata: array<Byte>
    var entries: array<Slot<K, V>>

    // The abstract map, and which slot holds which key.
    ghost var contents: map<K, V>
    ghost var owner: map<nat, K>
    ghost var slotOf: map<K, nat>

    ghost function Abs(): Table<K, V>
      reads this, metadata, entries
    {
      Table(w, hash, metadata[..], entries[..], owner, slotOf, contents)
    }

    ghost predicate Valid()
      reads this, metadata, entries
    {
      && allocSize == metadata.Length == entries.Length
      && Abs().Ok()
      && growthBudget == GrowthThreshold(allocSize) - Used(metadata[..])
    }

    // What a move leaves behind: to be destroyed or assigned to.
    ghost predicate MovedFrom()
      reads this
    {
      allocSize == metadata.Length == entries.Length == 0 && owner == map[] && slotOf == map[] && contents == map[]
    }

    lemma BudgetIsNotNegative()
      requires Valid()
      ensures 0 <= growthBudget <= GrowthThreshold(allocSize)
    {}

    // Scans one group for a key: the inner loop of LookupEntry and InsertImpl.
    // `failed` counts the key comparisons that did not match.
    method FindInGroup(key: K, groupIndex: nat, ghost t: Sound<K, V>) returns (at: Option<nat>, ghost failed: nat)
      requires Abs() == t && groupIndex + w.Size() <= metadata.Length
      ensures at.Some? <==> t.InGroup(key, groupIndex)
      ensures at.Some? ==> at.value == t.slotOf[key]
      ensures failed == MatchCount(t.Group(groupIndex), t.TagQuery(key),
                                   if at.Some? then at.value - groupIndex else w.Size())
    {
      hide Table.Ok, MatchCount, NextMatch;
      var q := HasTag(HashTag(hash(key)));
      var bytes := metadata[groupIndex..groupIndex + w.Size()];
      assert bytes == t.Group(groupIndex) && q == t.TagQuery(key);
      failed := 0;
      var b := NextMatch(bytes, q, 0);
      MatchCountSkips(bytes, q, 0, b);
      KeyIsCandidate(t, key, groupIndex, 0);
      while b < w.Size()
        invariant b <= w.Size() == |bytes|
        invariant failed == MatchCount(bytes, q, b)
        invariant b < w.Size() ==> q.Accepts(bytes[b])
        invariant t.InGroup(key, groupIndex) ==> b <= t.slotOf[key] - groupIndex
        decreases w.Size() - b
      {
        CandidateIsLive(t, key, groupIndex, b);
        if entries[groupIndex + b].key == key {
          return Some(groupIndex + b), failed;
        }
        var next := NextMatch(bytes, q, b + 1);
        MatchCountStep(bytes, q, b, next);
        failed := failed + 1;
        KeyIsCandidate(t, key, groupIndex, b + 1);
        b := next;
      }
      return None, failed;
    }

    // One step of a lookup: finds the key in the group, or decides whether to go on.
    method InspectGroup(key: K, groupIndex: nat, ghost t: Sound<K, V>, ghost n: nat)
      returns (at: Option<nat>, empty: nat, ghost failed: nat)
      requires Abs() == t && t.Missed(key, n) && groupIndex == t.ProbeIndex(key, n)
      ensures at.Some? ==> key in t.slotOf && at.value == t.slotOf[key]
      ensures at.Some? ==> t.LookupWork(key, n, t.FailedBefore(key, n) + failed)
      ensures at.None? && empty < w.Size() ==>
                && key !in t.slotOf && groupIndex + empty < |t.meta| && t.meta[groupIndex + empty] == EMPTY
                && t.EndsAt(key, n) && t.FirstIn(key, n, AnyEmpty) == Some(groupIndex + empty)
      ensures at.None? && empty >= w.Size() ==> t.Missed(key, n + 1)
      ensures at.None? && empty >= w.Size() ==> t.FailedBefore(key, n + 1) == t.FailedBefore(key, n) + failed
    {
      hide *;
      GroupFits(key, groupIndex, t, n);
      at, failed := FindInGroup(key, groupIndex, t);
      empty := NextMatch(metadata[groupIndex..groupIndex + w.Size()], AnyEmpty, 0);
      if at.Some? {
        FoundAtStep(t, key, n, failed);
      } else {
        EmptyScan(t, key, n);
        if empty < w.Size() {
          EmptyEndsSearch(t, key, n);
          FirstEmpty(t, key, n, empty);
          ProbeEnds(t, key, n);
        } else {
          MissOneMore(t, key, n);
          FailedStep(t, key, n);
        }
      }
    }

    lemma GroupFits(key: K, groupIndex: nat, t: Sound<K, V>, n: nat)
      requires Abs() == t && groupIndex == t.ProbeIndex(key, n)
      ensures t.w == w && groupIndex + w.Size() <= metadata.Length == |t.meta|
      ensures metadata[groupIndex..groupIndex + w.Size()] == t.Group(groupIndex) && |t.Group(groupIndex)| == w.Size()
      ensures var e := NextMatch(t.Group(groupIndex), AnyEmpty, 0); e < w.Size() ==> t.meta[groupIndex + e] == EMPTY
    {
      hide Table.Ok, NextMatch;
      ProbeInBounds(t, key, n);
    }

    // Looks a key up. `nexts` counts the calls to Next, `failed` the comparisons in vain.
    method LookupEntry(key: K) returns (at: Option<nat>, ghost nexts: nat, ghost failed: nat)
      requires Valid()
      ensures at == if key in contents then Some(slotOf[key]) else None
      ensures nexts < Abs().Groups()
      ensures at.Some? ==> Abs().LookupWork(key, nexts, failed)
    {
      at, nexts, failed := ProbeForKey(key, Abs());
    }

    // A probe sequence at the first group of a key.
    method StartProbe(h: HashCode, ghost key: K, ghost t: Sound<K, V>) returns (s: ProbeSequence)
      requires Abs() == t && metadata.Length == allocSize && h == hash(key)
      ensures fresh(s) && t.Follows(s, key) && s.taken == 0 && t.Missed(key, 0)
      ensures t.FailedBefore(key, 0) == 0 && t.FirstDeleted(key, 0) == None
    {
      hide Table.Ok, Table.Missed, GroupAt, ProbeMaskFromSize, IsPow2, Table.FailedBefore, Table.FirstDeleted;
      SoundFacts(t, key);
      NothingProbed(t, key);
      s := new ProbeSequence(w, HashIndex(h), allocSize);
    }

    // On to the next group, while the groups so far were full.
    static method StepProbe(s: ProbeSequence, ghost key: K, ghost t: Sound<K, V>)
      requires t.Follows(s, key) && t.Missed(key, s.taken + 1)
      modifies s
      ensures t.Follows(s, key) && s.taken == old(s.taken) + 1
    {
      hide Table.Ok, Table.Missed, ProbeSequence.Valid;
      MoreGroups(t, key, s.taken + 1);
      s.Next();
    }

    method ProbeForKey(key: K, ghost t: Sound<K, V>) returns (at: Option<nat>, ghost nexts: nat, ghost failed: nat)
      requires Abs() == t && metadata.Length == allocSize
      ensures at.Some? ==> key in t.slotOf && at.value == t.slotOf[key] && t.LookupWork(key, nexts, failed)
      ensures at.None? ==> key !in t.slotOf
      ensures nexts < t.Groups()
    {
      hide *;
      var s := StartProbe(hash(key), key, t);
      failed := 0;
      nexts := 0;
      while true
        invariant fresh(s) && t.Follows(s, key) && nexts == s.taken
        invariant t.Missed(key, nexts)
        invariant failed == t.FailedBefore(key, nexts)
        decreases t.Groups() - nexts
      {
        FollowsIndex(t, s, key);
        var empty;
        ghost var here;
        at, empty, here := InspectGroup(key, s.Index(), t, nexts);
        failed := failed + here;
        if at.Some? || empty < w.Size() { return; }
        nexts := nexts + 1;
        StepProbe(s, key, t);
      }
    }

    // --- Insertion ---

    // Slot i is on the path of the key: storing the key there keeps the table laid out.
    static ghost predicate CanPlace(t: Table<K, V>, key: K, i: nat) {
      i < |t.meta| && t.Groups() > 0 && Reaches(t.w, t.meta, t.hash(key), i)
    }

    // The probe of InsertImpl: the key's slot if it is present; otherwise the first empty slot on
    // its path and the first tombstone on it, if there is one.
    method ProbeForInsert(key: K, ghost t: Sound<K, V>)
      returns (at: Option<nat>, deleted: Option<nat>, empty: nat, ghost n: nat)
      requires Abs() == t && metadata.Length == allocSize
      ensures at.Some? ==> key in t.slotOf && at.value == t.slotOf[key]
      ensures at.None? ==> key !in t.slotOf && CanPlace(t, key, empty) && t.meta[empty] == EMPTY
      ensures at.None? && deleted.Some? ==> CanPlace(t, key, deleted.value) && t.meta[deleted.value] == DELETED
      ensures at.None? ==>
                && t.EndsAt(key, n) && t.FirstIn(key, n, AnyEmpty) == Some(empty) && deleted == t.FirstDeleted(key, n + 1)
                && t.InsertsAt(key, n, if deleted.Some? then deleted.value else empty)
    {
      hide *;
      var s := StartProbe(hash(key), key, t);
      deleted := None;
      n := 0;
      while true
        invariant fresh(s) && t.Follows(s, key) && n == s.taken
        invariant t.Missed(key, n)
        invariant deleted.Some? ==> CanPlace(t, key, deleted.value) && DeletedAt(t, deleted.value)
        invariant deleted == t.FirstDeleted(key, n)
        decreases t.Groups() - n
      {
        FollowsIndex(t, s, key);
        FirstDeletedStep(t, key, n);
        var gi := s.Index();
        ghost var here;
        at, empty, here := InspectGroup(key, gi, t, n);
        if at.Some? { return at, deleted, 0, n; }
        if deleted.None? {
          deleted := FindDeleted(key, gi, t, n);
        }
        if empty < w.Size() {
          empty := gi + empty;
          WhereToInsert(t, key, n, deleted, empty);
          return at, deleted, empty, n;
        }
        n := n + 1;
        StepProbe(s, key, t);
      }
    }

    static ghost predicate DeletedAt(t: Table<K, V>, i: nat) {
      i < |t.meta| && t.meta[i] == DELETED
    }

    static lemma WhereToInsert(t: Sound<K, V>, key: K, n: nat, deleted: Option<nat>, empty: nat)
      requires t.Missed(key, n) && t.FirstIn(key, n, AnyEmpty) == Some(empty) && deleted == t.FirstDeleted(key, n + 1)
      requires empty < |t.meta| && t.meta[empty] == EMPTY
      requires deleted.Some? ==> DeletedAt(t, deleted.value)
      ensures CanPlace(t, key, empty)
      ensures deleted.Some? ==> deleted.value < |t.meta| && t.meta[deleted.value] == DELETED
      ensures t.InsertsAt(key, n, if deleted.Some? then deleted.value else empty)
    {
      hide Table.Ok, Table.Missed, Reaches, NextMatch, Table.FirstDeleted;
      ProbeInBounds(t, key, n);
      ReachesInGroup(t, key, n, empty);
    }

    method FindDeleted(key: K, gi: nat, ghost t: Sound<K, V>, ghost n: nat) returns (deleted: Option<nat>)
      requires Abs() == t && t.Missed(key, n) && gi == t.ProbeIndex(key, n)
      ensures deleted.Some? ==> CanPlace(t, key, deleted.value) && DeletedAt(t, deleted.value)
      ensures deleted == t.FirstIn(key, n, AnyDeleted)
    {
      hide Table.Ok, Table.Missed, Reaches;
      ProbeInBounds(t, key, n);
      var d := NextMatch(metadata[gi..gi + w.Size()], AnyDeleted, 0);
      if d == w.Size() { return None; }
      ReachesInGroup(t, key, n, gi + d);
      assert t.meta[gi + d] == metadata[gi + d] == DELETED;
      return Some(gi + d);
    }

    // Inserts a key that is not present into a table that has room and no tombstones in the way;
    // the entry is left to the caller.
    method InsertIntoEmpty(h: HashCode, ghost key: K, ghost t: Sound<K, V>) returns (i: nat, ghost n: nat)
      requires Abs() == t && metadata.Length == allocSize
      requires h == hash(key) && key !in t.slotOf
      modifies this`owner, this`slotOf, metadata
      ensures CanPlace(t, key, i) && t.meta[i] == EMPTY && Abs() == t.Placed(key, i)
      ensures t.EndsAt(key, n) && t.FirstIn(key, n, AnyEmpty) == Some(i)
    {
      hide *;
      var s := StartProbe(h, key, t);
      n := 0;
      while true
        invariant fresh(s) && t.Follows(s, key) && n == s.taken
        invariant Abs() == t && t.Missed(key, n)
        decreases t.Groups() - n
      {
        FollowsIndex(t, s, key);
        var empty := FindEmpty(key, s.Index(), t, n);
        if empty.Some? {
          i := empty.value;
          SetPresent(h, key, i, t);
          return;
        }
        n := n + 1;
        StepProbe(s, key, t);
      }
    }

    method FindEmpty(ghost key: K, gi: nat, ghost t: Sound<K, V>, ghost n: nat) returns (empty: Option<nat>)
      requires Abs() == t && key !in t.slotOf && t.Missed(key, n) && gi == t.ProbeIndex(key, n)
      ensures empty.None? ==> t.Missed(key, n + 1)
      ensures empty.Some? ==>
                && empty.value < metadata.Length && CanPlace(t, key, empty.value) && t.meta[empty.value] == EMPTY
                && t.EndsAt(key, n) && t.FirstIn(key, n, AnyEmpty) == empty
    {
      hide Table.Ok, Table.Missed, Table.InGroup, HasEmpty, GroupAt, IsPow2, Reaches, Table.EndsAt, Table.FirstIn;
      ProbeInBounds(t, key, n);
      EmptyScan(t, key, n);
      var e := NextMatch(metadata[gi..gi + w.Size()], AnyEmpty, 0);
      if e < w.Size() {
        ReachesInGroup(t, key, n, gi + e);
        FirstEmpty(t, key, n, e);
        ProbeEnds(t, key, n);
        assert t.meta[gi + e] == metadata[gi + e];
        return Some(gi + e);
      }
      NotInGroup(t, key, n);
      MissOneMore(t, key, n);
      return None;
    }

    method SetPresent(h: HashCode, ghost key: K, i: nat, ghost t: Sound<K, V>)
      requires Abs() == t && i < metadata.Length && h == hash(key)
      modifies this`owner, this`slotOf, metadata
      ensures Abs() == t.Placed(key, i)
    {
      metadata[i] := PresentByte(HashTag(h));
      owner := owner[i := key];
      slotOf := slotOf[key := i];
    }

    // --- Growth ---

    // Moves an entry from the old storage and destroys it there; trivially relocatable entries are
    // only copied, their old bits stay.
    method MoveEntry(to: nat, oldEntries: array<Slot<K, V>>, o: nat)
      requires to < entries.Length && o < oldEntries.Length && entries != oldEntries
      modifies entries, oldEntries
      ensures entries[..] == old(entries[..])[to := old(oldEntries[o])]
      ensures oldEntries[..] == if triviallyRelocatable then old(oldEntries[..]) else old(oldEntries[..])[o := Raw]
    {
      entries[to] := oldEntries[o];
      if !triviallyRelocatable { oldEntries[o] := Raw; }
    }

    // While doubling: the old arrays still hold table t, the fields hold new ones of twice the size.
    ghost predicate Growing(t: Sound<K, V>, oldMeta: array<Byte>, oldEntries: array<Slot<K, V>>)
      reads this, oldMeta
    {
      && t.w == w && t.hash == hash && oldMeta[..] == t.meta && oldEntries.Length == |t.meta|
      && metadata.Length == entries.Length == 2 * |t.meta|
      && oldMeta != metadata && oldEntries != entries
    }

    // Old slots below p are decided: home entries that move one by one are in their new slot,
    // undecided and probed entries are still in the old storage.
    ghost predicate Walked(t: Sound<K, V>, oldEntries: array<Slot<K, V>>, p: nat)
      reads this, entries, oldEntries
      requires entries.Length == 2 * |t.meta|
    {
      && Remains(t, oldEntries[..], p)
      && (if triviallyRelocatable then oldEntries[..] == t.ents else Moved(t, entries[..], p))
    }

    // Where the entry at old slot gi + b goes: nowhere yet if it was probed, else to the same byte
    // of the low or the high half.
    method Decide(oldEntries: array<Slot<K, V>>, gi: nat, b: nat, oldSize: nat, ghost t: Sound<K, V>)
      returns (h: HashCode, home: bool, newIndex: nat)
      requires t.w == w && t.hash == hash && oldSize == |t.meta| && oldEntries.Length == oldSize
      requires Remains(t, oldEntries[..], gi + b)
      requires gi + b in t.owner && w.First(w.GroupOf(gi)) == gi && b < w.Size()
      ensures h == hash(t.owner[gi + b]) && (home <==> HomeSlot(t, gi + b))
      ensures home ==> (newIndex == gi + b <==> Takes(t, gi + b))
      ensures home ==> (newIndex == gi + b + oldSize <==> Takes(t, gi + b + oldSize))
      ensures home ==> newIndex == gi + b || newIndex == gi + b + oldSize
    {
      hide Table.Ok, Takes, HomeSlot, And, ProbeMaskFromSize, Remains, IsPow2;
      var o := gi + b;
      OwnerIsLive(t, o);
      RemainsAt(t, oldEntries[..], o);
      assert oldEntries[o] == oldEntries[..][o] == t.ents[o];
      h := hash(oldEntries[o].key);
      MasksDecide(t, gi, o);
      var oldHashIndex := And(HashIndex(h), ProbeMaskFromSize(w, oldSize));
      home := oldHashIndex == gi;
      newIndex := And(HashIndex(h), ProbeMaskFromSize(w, 2 * oldSize)) + b;
    }

    // Decides one entry and, unless entries are copied in bulk, moves a home entry at once.
    method DecideAndMove(oldEntries: array<Slot<K, V>>, gi: nat, b: nat, oldSize: nat,
                         ghost t: Sound<K, V>, ghost oldMeta: array<Byte>)
      returns (h: HashCode, home: bool, newIndex: nat)
      requires Growing(t, oldMeta, oldEntries) && Walked(t, oldEntries, gi + b) && oldSize == |t.meta|
      requires gi + b in t.owner && w.First(w.GroupOf(gi)) == gi && b < w.Size()
      modifies entries, oldEntries
      ensures Growing(t, oldMeta, oldEntries) && Walked(t, oldEntries, gi + b + 1)
      ensures h == hash(t.owner[gi + b]) && (home <==> HomeSlot(t, gi + b))
      ensures home ==> (newIndex == gi + b <==> Takes(t, gi + b))
      ensures home ==> (newIndex == gi + b + oldSize <==> Takes(t, gi + b + oldSize))
      ensures home ==> newIndex == gi + b || newIndex == gi + b + oldSize
    {
      hide Table.Ok, Takes, HomeSlot, Moved, Remains;
      OwnerIsLive(t, gi + b);
      h, home, newIndex := Decide(oldEntries, gi, b, oldSize, t);
      if triviallyRelocatable {
        RemainsAll(t, gi + b + 1);
      } else if home {
        MovedStep(t, entries[..], newIndex, gi + b);
        RemainsStep(t, oldEntries[..], gi + b);
        assert oldEntries[gi + b] == t.ents[gi + b] by { RemainsAt(t, oldEntries[..], gi + b); }
        MoveEntry(newIndex, oldEntries, gi + b);
      } else {
        MoveSkip(t, entries[..], oldEntries[..], gi + b, gi + b + 1);
      }
    }

    method StoreGroup(at: nat, g: seq<Byte>)
      requires at + |g| <= metadata.Length
      modifies metadata
      ensures metadata[at..at + |g|] == g
      ensures forall i :: 0 <= i < metadata.Length && !(at <= i < at + |g|) ==> metadata[i] == old(metadata[i])
    {
      forall x | 0 <= x < |g| { metadata[at + x] := g[x]; }
    }

    // One group of the walk when a group fits a register: the group is loaded into two words, bytes
    // are cleared there, and each word is stored once.
    method SplitGroupInRegister(oldMeta: array<Byte>, oldEntries: array<Slot<K, V>>, gi: nat, oldSize: nat,
                                probed0: seq<(nat, HashCode)>, count0: nat, ghost t: Sound<K, V>)
      returns (probed: seq<(nat, HashCode)>, count: nat)
      requires w.Eight?
      requires Growing(t, oldMeta, oldEntries) && Walked(t, oldEntries, gi) && oldSize == |t.meta|
      requires w.First(w.GroupOf(gi)) == gi && gi + w.Size() <= oldSize
      requires Stored(t, metadata[..], gi) && probed0 == ProbedList(t, gi) && count0 == CountPresent(t.meta, gi)
      modifies metadata, entries, oldEntries
      ensures Growing(t, oldMeta, oldEntries) && Walked(t, oldEntries, gi + w.Size())
      ensures Stored(t, metadata[..], gi + w.Size())
      ensures probed == ProbedList(t, gi + w.Size()) && count == CountPresent(t.meta, gi + w.Size())
    {
      hide *;
      RegisterFits(t, oldMeta, oldEntries, gi);
      var low := new WordGroup(LoadedWord(oldMeta[gi..gi + w.Size()]));
      var present := new MatchIterator(low.word, MatchPresent);
      low.ClearDeleted();
      var high := new WordGroup(low.word);
      GroupStart(t, gi);
      WalkOn(t, oldEntries, gi, Bytes(low.word), Bytes(high.word), probed0, count0, 0);
      probed, count := WalkInRegister(oldMeta, oldEntries, gi, oldSize, low, high, present, probed0, count0, t);
      StoreBoth(gi, oldSize, Bytes(low.word), Bytes(high.word), probed, count, t);
    }

    lemma RegisterFits(t: Sound<K, V>, oldMeta: array<Byte>, oldEntries: array<Slot<K, V>>, gi: nat)
      requires Growing(t, oldMeta, oldEntries) && w.Eight? && gi + w.Size() <= |t.meta|
      ensures t.w == w && w.Size() == 8 && gi + 8 <= |t.meta| == oldMeta.Length
      ensures metadata.Length == entries.Length == 2 * |t.meta|
      ensures oldMeta[gi..gi + 8] == t.Group(gi) && ValidBytes(t.Group(gi)) && |t.Group(gi)| == 8
      ensures MatchPresent.Valid() && MatchPresent.Meaning() == AnyPresent && !MatchPresent.NeedsValidBytes()
    {
      GroupBytesValid(t, gi);
    }

    // The loop over the present entries of a group held in two words.
    method WalkInRegister(oldMeta: array<Byte>, oldEntries: array<Slot<K, V>>, gi: nat, oldSize: nat,
                          low: WordGroup, high: WordGroup, present: MatchIterator,
                          probed0: seq<(nat, HashCode)>, count0: nat, ghost t: Sound<K, V>)
      returns (probed: seq<(nat, HashCode)>, count: nat)
      requires w.Eight? && low != high && oldSize == |t.meta|
      requires w.First(w.GroupOf(gi)) == gi && gi + w.Size() <= oldSize && |t.Group(gi)| == 8
      requires present.Valid() && present.bytes == t.Group(gi) && present.q == AnyPresent && present.from == 0
      requires var next := NextMatch(t.Group(gi), AnyPresent, 0);
               && Growing(t, oldMeta, oldEntries) && Walked(t, oldEntries, gi + next)
               && GroupWalk(t, gi, Bytes(low.word), Bytes(high.word), probed0, count0, gi + next)
      modifies entries, oldEntries, low, high, present
      ensures Growing(t, oldMeta, oldEntries) && Walked(t, oldEntries, gi + 8)
      ensures GroupWalk(t, gi, Bytes(low.word), Bytes(high.word), probed, count, gi + 8)
    {
      hide *;
      RegisterFits(t, oldMeta, oldEntries, gi);
      ghost var bytes := t.Group(gi);
      probed, count := probed0, count0;
      var end := present.AtEnd();
      while !end
        invariant present.Valid() && present.bytes == bytes && present.q == AnyPresent && present.from <= |bytes| == 8
        invariant end <==> NextMatch(bytes, AnyPresent, present.from) == 8
        invariant Growing(t, oldMeta, oldEntries) && Walked(t, oldEntries, gi + NextMatch(bytes, AnyPresent, present.from))
        invariant GroupWalk(t, gi, Bytes(low.word), Bytes(high.word), probed, count,
                            gi + NextMatch(bytes, AnyPresent, present.from))
        decreases 8 - present.from
      {
        var b := present.Index();
        probed, count := StepInRegister(oldMeta, oldEntries, gi, b, oldSize, low, high, probed, count, t);
        present.Advance();
        WalkOn(t, oldEntries, gi, Bytes(low.word), Bytes(high.word), probed, count, b + 1);
        end := present.AtEnd();
      }
    }

    // From one match of a group to the next nothing happens.
    lemma WalkOn(t: Sound<K, V>, oldEntries: array<Slot<K, V>>, gi: nat, low: seq<Byte>, high: seq<Byte>,
                 probed: seq<(nat, HashCode)>, count: nat, from: nat)
      requires entries.Length == 2 * |t.meta| && gi + t.w.Size() <= |t.meta| && from <= t.w.Size()
      requires Walked(t, oldEntries, gi + from) && GroupWalk(t, gi, low, high, probed, count, gi + from)
      ensures |t.Group(gi)| == t.w.Size()
      ensures var next := NextMatch(t.Group(gi), AnyPresent, from);
              Walked(t, oldEntries, gi + next) && GroupWalk(t, gi, low, high, probed, count, gi + next)
    {
      hide Table.Ok, Walked, GroupWalk;
      var next := NextMatch(t.Group(gi), AnyPresent, from);
      GroupSkip(t, gi, low, high, probed, count, from, next);
      WalkedSkip(t, oldEntries, gi, from, next);
    }

    // One entry of the walk in registers.
    method StepInRegister(oldMeta: array<Byte>, oldEntries: array<Slot<K, V>>, gi: nat, b: nat, oldSize: nat,
                          low: WordGroup, high: WordGroup, probed0: seq<(nat, HashCode)>, count0: nat,
                          ghost t: Sound<K, V>)
      returns (probed: seq<(nat, HashCode)>, count: nat)
      requires low != high && w.Eight?
      requires Growing(t, oldMeta, oldEntries) && Walked(t, oldEntries, gi + b) && oldSize == |t.meta|
      requires w.First(w.GroupOf(gi)) == gi && gi + w.Size() <= oldSize && b < w.Size()
      requires GroupWalk(t, gi, Bytes(low.word), Bytes(high.word), probed0, count0, gi + b)
      requires AnyPresent.Accepts(t.Group(gi)[b])
      modifies entries, oldEntries, low, high
      ensures Growing(t, oldMeta, oldEntries) && Walked(t, oldEntries, gi + b + 1)
      ensures GroupWalk(t, gi, Bytes(low.word), Bytes(high.word), probed, count, gi + b + 1)
    {
      hide Table.Ok, Takes, HomeSlot, Moved, Remains, GroupWalk, Bytes;
      GroupStep(t, gi, Bytes(low.word), Bytes(high.word), probed0, count0, b);
      TakesIffHome(t, gi + b);
      var h, home, newIndex := DecideAndMove(oldEntries, gi, b, oldSize, t, oldMeta);
      probed, count := probed0, count0 + 1;
      if !home {
        probed := probed + [(gi + b, h)];
        low.ClearByte(b);
        high.ClearByte(b);
      } else if newIndex == gi + b {
        high.ClearByte(b);
      } else {
        low.ClearByte(b);
      }
    }

    method StoreBoth(gi: nat, oldSize: nat, low: seq<Byte>, high: seq<Byte>, ghost probed: seq<(nat, HashCode)>,
                     ghost count: nat, ghost t: Sound<K, V>)
      requires t.w == w && oldSize == |t.meta| && metadata.Length == 2 * oldSize && gi + w.Size() <= oldSize
      requires Stored(t, metadata[..], gi)
      requires GroupWalk(t, gi, low, high, probed, count, gi + w.Size())
      modifies metadata
      ensures Stored(t, metadata[..], gi + w.Size())
      ensures probed == ProbedList(t, gi + w.Size()) && count == CountPresent(t.meta, gi + w.Size())
    {
      hide Stored, Table.Ok, HalfAt;
      ghost var m := metadata[..];
      SoundSize(t);
      GroupSizes(t, gi, low, high, probed, count, gi + w.Size());
      OrHighBit(gi, oldSize);
      StoreGroup(gi, low);
      StoreGroup(Or(gi, oldSize), high);
      FinishGroup(t, m, metadata[..], gi, low, high, probed, count);
    }

    // Nothing to do for old slots that hold no present entry.
    lemma WalkedSkip(t: Sound<K, V>, oldEntries: array<Slot<K, V>>, gi: nat, from: nat, next: nat)
      requires entries.Length == 2 * |t.meta| && Walked(t, oldEntries, gi + from)
      requires gi + t.w.Size() <= |t.meta| && from <= next <= t.w.Size()
      requires forall i :: from <= i < next ==> !AnyPresent.Accepts(t.Group(gi)[i])
      ensures Walked(t, oldEntries, gi + next)
    {
      hide Table.Ok, Takes, HomeSlot, Moved, Remains;
      ScanGap(t, gi, from, next);
      if triviallyRelocatable {
        RemainsAll(t, gi + next);
      } else {
        MoveSkip(t, entries[..], oldEntries[..], gi + from, gi + next);
      }
    }

    // The same when a group does not fit a register: it is stored in both halves at once, and
    // bytes are overwritten in the array.
    method SplitGroupByStores(oldMeta: array<Byte>, oldEntries: array<Slot<K, V>>, gi: nat, oldSize: nat,
                              probed0: seq<(nat, HashCode)>, count0: nat, ghost t: Sound<K, V>)
      returns (probed: seq<(nat, HashCode)>, count: nat)
      requires Growing(t, oldMeta, oldEntries) && Walked(t, oldEntries, gi) && oldSize == |t.meta|
      requires w.First(w.GroupOf(gi)) == gi && gi + w.Size() <= oldSize
      requires Stored(t, metadata[..], gi) && probed0 == ProbedList(t, gi) && count0 == CountPresent(t.meta, gi)
      modifies metadata, entries, oldEntries
      ensures Growing(t, oldMeta, oldEntries) && Walked(t, oldEntries, gi + w.Size())
      ensures Stored(t, metadata[..], gi + w.Size())
      ensures probed == ProbedList(t, gi + w.Size()) && count == CountPresent(t.meta, gi + w.Size())
    {
      hide *;
      ghost var m := metadata[..];
      GrowingFits(t, oldMeta, oldEntries, gi);
      StoreTwice(gi, oldSize, WithoutDeleted(oldMeta[gi..gi + w.Size()]));
      EarlierSlotsKept(t, m, metadata[..], gi);
      GroupStart(t, gi);
      WalkOn(t, oldEntries, gi, Low(gi), High(gi, oldSize), probed0, count0, 0);
      probed, count := WalkByStores(oldMeta, oldEntries, gi, oldSize, probed0, count0, t);
      GroupEnd(t, m, gi, oldSize, probed, count);
    }

    lemma EarlierSlotsKept(t: Sound<K, V>, m: seq<Byte>, m': seq<Byte>, gi: nat)
      requires |m| == |m'| == 2 * |t.meta| && gi + w.Size() <= |t.meta|
      requires forall i :: 0 <= i < |m| ==>
                 gi <= i < gi + w.Size() || |t.meta| + gi <= i < |t.meta| + gi + w.Size() || m'[i] == m[i]
      ensures forall i :: 0 <= i < |m| && OldSlot(t, i) < gi ==> m'[i] == m[i]
    {
      hide Table.Ok;
    }

    lemma GrowingFits(t: Sound<K, V>, oldMeta: array<Byte>, oldEntries: array<Slot<K, V>>, gi: nat)
      requires Growing(t, oldMeta, oldEntries) && gi + w.Size() <= |t.meta|
      ensures t.w == w && |t.meta| == oldMeta.Length && metadata.Length == entries.Length == 2 * |t.meta|
      ensures oldMeta[gi..gi + w.Size()] == t.Group(gi) && |t.Group(gi)| == w.Size()
      ensures IsPow2(|t.meta|) && oldMeta != metadata && oldEntries != entries
    {
      hide IsPow2, IsTableSize;
      SoundSize(t);
    }

    lemma GroupEnd(t: Sound<K, V>, m: seq<Byte>, gi: nat, oldSize: nat, probed: seq<(nat, HashCode)>, count: nat)
      requires t.w == w && oldSize == |t.meta| && |m| == metadata.Length == 2 * oldSize && gi + w.Size() <= oldSize
      requires w.First(w.GroupOf(gi)) == gi && Stored(t, m, gi)
      requires forall i :: 0 <= i < |m| && OldSlot(t, i) < gi ==> metadata[i] == m[i]
      requires GroupWalk(t, gi, Low(gi), High(gi, oldSize), probed, count, gi + w.Size())
      ensures Stored(t, metadata[..], gi + w.Size())
      ensures probed == ProbedList(t, gi + w.Size()) && count == CountPresent(t.meta, gi + w.Size())
    {
      hide Stored, Table.Ok, HalfAt;
      FinishGroup(t, m, metadata[..], gi, Low(gi), High(gi, oldSize), probed, count);
    }

    // The loop over the present entries of a group stored in both halves.
    method WalkByStores(oldMeta: array<Byte>, oldEntries: array<Slot<K, V>>, gi: nat, oldSize: nat,
                        probed0: seq<(nat, HashCode)>, count0: nat, ghost t: Sound<K, V>)
      returns (probed: seq<(nat, HashCode)>, count: nat)
      requires oldSize == |t.meta| && w.First(w.GroupOf(gi)) == gi && gi + w.Size() <= oldSize
      requires metadata.Length == entries.Length == 2 * oldSize && |t.Group(gi)| == w.Size()
      requires var next := NextMatch(t.Group(gi), AnyPresent, 0);
               && Growing(t, oldMeta, oldEntries) && Walked(t, oldEntries, gi + next)
               && GroupWalk(t, gi, Low(gi), High(gi, oldSize), probed0, count0, gi + next)
      modifies metadata, entries, oldEntries
      ensures Growing(t, oldMeta, oldEntries) && Walked(t, oldEntries, gi + w.Size())
      ensures GroupWalk(t, gi, Low(gi), High(gi, oldSize), probed, count, gi + w.Size())
      ensures forall i :: 0 <= i < metadata.Length && OldSlot(t, i) < gi ==> metadata[i] == old(metadata[i])
    {
      hide *;
      GrowingFits(t, oldMeta, oldEntries, gi);
      var bytes := oldMeta[gi..gi + w.Size()];
      probed, count := probed0, count0;
      var b := NextMatch(bytes, AnyPresent, 0);
      while b < w.Size()
        invariant b <= w.Size() && (b < w.Size() ==> AnyPresent.Accepts(bytes[b]))
        invariant Growing(t, oldMeta, oldEntries) && Walked(t, oldEntries, gi + b)
        invariant GroupWalk(t, gi, Low(gi), High(gi, oldSize), probed, count, gi + b)
        invariant forall i :: 0 <= i < metadata.Length && OldSlot(t, i) < gi ==> metadata[i] == old(metadata[i])
        decreases w.Size() - b
      {
        probed, count := StepByStores(oldMeta, oldEntries, gi, b, oldSize, probed, count, t);
        WalkOn(t, oldEntries, gi, Low(gi), High(gi, oldSize), probed, count, b + 1);
        b := NextMatch(bytes, AnyPresent, b + 1);
      }
    }

    method StoreTwice(gi: nat, oldSize: nat, g: seq<Byte>)
      requires metadata.Length == 2 * oldSize && IsPow2(oldSize) && |g| == w.Size() && gi + w.Size() <= oldSize
      modifies metadata
      ensures Low(gi) == g && High(gi, oldSize) == g
      ensures forall i :: 0 <= i < metadata.Length ==>
                gi <= i < gi + w.Size() || oldSize + gi <= i < oldSize + gi + w.Size() || metadata[i] == old(metadata[i])
    {
      OrHighBit(gi, oldSize);
      StoreGroup(gi, g);
      StoreGroup(Or(gi, oldSize), g);
      assert Low(gi) == g;
    }

    // One entry of the walk by stores.
    method StepByStores(oldMeta: array<Byte>, oldEntries: array<Slot<K, V>>, gi: nat, b: nat, oldSize: nat,
                        probed0: seq<(nat, HashCode)>, count0: nat, ghost t: Sound<K, V>)
      returns (probed: seq<(nat, HashCode)>, count: nat)
      requires Growing(t, oldMeta, oldEntries) && Walked(t, oldEntries, gi + b) && oldSize == |t.meta|
      requires w.First(w.GroupOf(gi)) == gi && gi + w.Size() <= oldSize && b < w.Size()
      requires GroupWalk(t, gi, Low(gi), High(gi, oldSize), probed0, count0, gi + b)
      requires AnyPresent.Accepts(t.Group(gi)[b])
      modifies metadata, entries, oldEntries
      ensures Growing(t, oldMeta, oldEntries) && Walked(t, oldEntries, gi + b + 1)
      ensures GroupWalk(t, gi, Low(gi), High(gi, oldSize), probed, count, gi + b + 1)
      ensures forall i :: 0 <= i < metadata.Length && OldSlot(t, i) < gi ==> metadata[i] == old(metadata[i])
    {
      hide Table.Ok, Takes, HomeSlot, Moved, Remains, GroupWalk;
      GroupStep(t, gi, Low(gi), High(gi, oldSize), probed0, count0, b);
      TakesIffHome(t, gi + b);
      SoundSize(t);
      var h, home, newIndex := DecideAndMove(oldEntries, gi, b, oldSize, t, oldMeta);
      count := count0 + 1;
      probed := if home then probed0 else probed0 + [(gi + b, h)];
      ClearWrongHalf(gi, b, oldSize, home, newIndex);
    }

    ghost function Low(gi: nat): seq<Byte>
      reads this, metadata
      requires gi + w.Size() <= metadata.Length
    {
      metadata[gi..gi + w.Size()]
    }

    ghost function High(gi: nat, oldSize: nat): seq<Byte>
      reads this, metadata
      requires oldSize + gi + w.Size() <= metadata.Length
    {
      metadata[oldSize + gi..oldSize + gi + w.Size()]
    }

    // The byte stores that leave an entry's byte only where the entry goes.
    method ClearWrongHalf(gi: nat, b: nat, oldSize: nat, home: bool, newIndex: nat)
      requires metadata.Length == 2 * oldSize && IsPow2(oldSize) && gi + w.Size() <= oldSize && b < w.Size()
      requires home ==> newIndex == gi + b || newIndex == gi + b + oldSize
      modifies metadata
      ensures Low(gi) == if home && newIndex == gi + b then old(Low(gi)) else old(Low(gi))[b := EMPTY]
      ensures High(gi, oldSize)
           == if home && newIndex == gi + b + oldSize then old(High(gi, oldSize)) else old(High(gi, oldSize))[b := EMPTY]
      ensures forall i :: 0 <= i < metadata.Length && i != gi + b && i != gi + b + oldSize ==> metadata[i] == old(metadata[i])
    {
      hide IsPow2, Or, Xor, Low, High;
      var oldIndex := gi + b;
      OrHighBit(oldIndex, oldSize);
      if !home {
        EmptyByte(oldIndex, gi, b, oldSize);
        EmptyByte(Or(oldIndex, oldSize), gi, b, oldSize);
      } else {
        XorHighBit(newIndex, oldSize);
        EmptyByte(Xor(newIndex, oldSize), gi, b, oldSize);
      }
    }

    // Empties one of the two bytes of an old slot.
    method EmptyByte(at: nat, gi: nat, b: nat, oldSize: nat)
      requires metadata.Length == 2 * oldSize && gi + w.Size() <= oldSize && b < w.Size()
      requires at == gi + b || at == gi + b + oldSize
      modifies metadata
      ensures Low(gi) == if at == gi + b then old(Low(gi))[b := EMPTY] else old(Low(gi))
      ensures High(gi, oldSize) == if at == gi + b then old(High(gi, oldSize)) else old(High(gi, oldSize))[b := EMPTY]
      ensures forall i :: 0 <= i < metadata.Length && i != at ==> metadata[i] == old(metadata[i])
    {
      metadata[at] := EMPTY;
    }

    // FastByteClear holds for groups of eight.
    method SplitGroup(oldMeta: array<Byte>, oldEntries: array<Slot<K, V>>, gi: nat, oldSize: nat,
                      probed0: seq<(nat, HashCode)>, count0: nat, ghost t: Sound<K, V>)
      returns (probed: seq<(nat, HashCode)>, count: nat)
      requires Growing(t, oldMeta, oldEntries) && Walked(t, oldEntries, gi) && oldSize == |t.meta|
      requires w.First(w.GroupOf(gi)) == gi && gi + w.Size() <= oldSize
      requires Stored(t, metadata[..], gi) && probed0 == ProbedList(t, gi) && count0 == CountPresent(t.meta, gi)
      modifies metadata, entries, oldEntries
      ensures Growing(t, oldMeta, oldEntries) && Walked(t, oldEntries, gi + w.Size())
      ensures Stored(t, metadata[..], gi + w.Size())
      ensures probed == ProbedList(t, gi + w.Size()) && count == CountPresent(t.meta, gi + w.Size())
    {
      hide *;
      if w.Eight? {
        probed, count := SplitGroupInRegister(oldMeta, oldEntries, gi, oldSize, probed0, count0, t);
      } else {
        probed, count := SplitGroupByStores(oldMeta, oldEntries, gi, oldSize, probed0, count0, t);
      }
    }

    // Walks all groups of the old table, splitting them into the two halves of the new one.
    method SplitGroups(oldMeta: array<Byte>, oldEntries: array<Slot<K, V>>, oldSize: nat, ghost t: Sound<K, V>)
      returns (probed: seq<(nat, HashCode)>, count: nat)
      requires Growing(t, oldMeta, oldEntries) && oldEntries[..] == t.ents && oldSize == |t.meta|
      modifies metadata, entries, oldEntries
      ensures Growing(t, oldMeta, oldEntries) && Walked(t, oldEntries, oldSize)
      ensures metadata[..] == SplitMeta(t)
      ensures probed == ProbedList(t, oldSize) && count == CountPresent(t.meta, oldSize)
    {
      hide *;
      SplitBegins(t, oldMeta, oldEntries);
      probed, count := [], 0;
      var gi := 0;
      while gi < oldSize
        invariant gi <= oldSize && w.First(w.GroupOf(gi)) == gi
        invariant Growing(t, oldMeta, oldEntries) && Walked(t, oldEntries, gi) && Stored(t, metadata[..], gi)
        invariant probed == ProbedList(t, gi) && count == CountPresent(t.meta, gi)
      {
        NextGroup(w, gi, oldSize);
        probed, count := SplitGroup(oldMeta, oldEntries, gi, oldSize, probed, count, t);
        gi := gi + w.Size();
      }
      StoredAll(t, metadata[..]);
    }

    lemma SplitBegins(t: Sound<K, V>, oldMeta: array<Byte>, oldEntries: array<Slot<K, V>>)
      requires Growing(t, oldMeta, oldEntries) && oldEntries[..] == t.ents
      ensures Walked(t, oldEntries, 0) && Stored(t, metadata[..], 0) && ProbedList(t, 0) == [] && CountPresent(t.meta, 0) == 0
      ensures IsTableSize(|t.meta|) && w.First(w.GroupOf(0)) == 0 && metadata.Length == entries.Length == 2 * |t.meta|
    {}

    // Trivially relocatable entries are copied into both halves in bulk; only one copy is live.
    method BulkCopy(oldEntries: array<Slot<K, V>>, oldSize: nat)
      requires oldEntries.Length == oldSize && entries.Length == 2 * oldSize && entries != oldEntries
      modifies entries
      ensures entries[..] == oldEntries[..] + oldEntries[..]
    {
      forall i | 0 <= i < oldSize { entries[i] := oldEntries[i]; }
      forall i | 0 <= i < oldSize { entries[oldSize + i] := oldEntries[i]; }
    }

    // Inserts the entry of old slot o again and moves it over.
    method Reinsert(h: HashCode, o: nat, oldEntries: array<Slot<K, V>>, ghost key: K, ghost v: V, ghost cur: Sound<K, V>)
      returns (ghost next: Sound<K, V>, ghost i: nat)
      requires Abs() == cur && metadata.Length == allocSize && Used(cur.meta) < GrowthThreshold(|cur.meta|)
      requires h == hash(key) && key !in cur.slotOf
      requires o < oldEntries.Length && oldEntries[o] == Live(key, v) && oldEntries != entries
      modifies this`owner, this`slotOf, this`contents, metadata, entries, oldEntries
      ensures Abs() == next && AddsKey(cur, next, key, v, i)
      ensures oldEntries[..] == if triviallyRelocatable then old(oldEntries[..]) else old(oldEntries[..])[o := Raw]
    {
      hide Table.Ok, Table.OkExcept, Reaches;
      SoundKeys(cur);
      SoundSize(cur);
      ghost var n;
      var at;
      at, n := InsertIntoEmpty(h, key, cur);
      i := at;
      PlacedIsOkExcept(cur, key, i);
      FilledIsOk(cur.Placed(key, i), key, i, v);
      MoveEntry(at, oldEntries, o);
      contents := contents[key := v];
      next := cur.Placed(key, i).Filled(key, i, v);
    }

    // Puts the probed entries back, after the home entries are in place.
    method ReinsertProbed(probed: seq<(nat, HashCode)>, oldEntries: array<Slot<K, V>>, ghost t: Sound<K, V>,
                          ghost split: Sound<K, V>)
      returns (ghost next: Sound<K, V>)
      requires allocSize == metadata.Length && oldEntries != entries
      requires Abs() == split && Owned(t, probed) && Restored(t, split, probed, 0)
      requires probed == ProbedList(t, |t.meta|) && Pending(t, probed, oldEntries[..], 0)
      modifies this`owner, this`slotOf, this`contents, metadata, entries, oldEntries
      ensures Abs() == next && Restored(t, next, probed, |probed|)
    {
      hide *;
      var j := 0;
      next := split;
      while j < |probed|
        invariant j <= |probed| && Abs() == next && Restored(t, next, probed, j)
        invariant Pending(t, probed, oldEntries[..], j)
      {
        next := ReinsertOne(probed, j, oldEntries, t, next);
        j := j + 1;
      }
    }

    method ReinsertOne(probed: seq<(nat, HashCode)>, j: nat, oldEntries: array<Slot<K, V>>, ghost t: Sound<K, V>,
                       ghost cur: Sound<K, V>)
      returns (ghost next: Sound<K, V>)
      requires allocSize == metadata.Length && oldEntries != entries && j < |probed|
      requires Abs() == cur && Owned(t, probed) && Restored(t, cur, probed, j)
      requires probed == ProbedList(t, |t.meta|) && Pending(t, probed, oldEntries[..], j)
      modifies this`owner, this`slotOf, this`contents, metadata, entries, oldEntries
      ensures Abs() == next && Restored(t, next, probed, j + 1)
      ensures Pending(t, probed, oldEntries[..], j + 1)
    {
      NextIsMissing(t, cur, probed, j);
      RoomForProbed(t, cur, probed, j);
      ghost var key := t.owner[probed[j].0];
      hide Table.Ok, ProbedList, Restored, AddsKey;
      ghost var was, i := oldEntries[..], 0;
      next, i := Reinsert(probed[j].1, probed[j].0, oldEntries, key, t.contents[key], cur);
      RestoreOne(t, cur, next, probed, j, i);
      PendingStep(t, probed, was, oldEntries[..], j);
    }

    function ComputeNextAllocSize(oldAllocSize: nat): nat {
      2 * oldAllocSize
    }

    // Switches to new storage of twice the size and splits the home entries into it.
    method SplitIntoNewStorage(ghost t: Sound<K, V>)
      returns (probed: seq<(nat, HashCode)>, count: nat, oldEntries: array<Slot<K, V>>, ghost split: Sound<K, V>)
      requires Abs() == t && allocSize == metadata.Length
      modifies this, entries
      ensures fresh(metadata) && fresh(entries) && oldEntries == old(entries)
      ensures Abs() == split && allocSize == metadata.Length == 2 * |t.meta|
      ensures growthBudget == GrowthThreshold(allocSize)
      ensures Owned(t, probed) && Restored(t, split, probed, 0)
      ensures probed == ProbedList(t, |t.meta|) && Pending(t, probed, oldEntries[..], 0)
      ensures count == CountPresent(t.meta, |t.meta|)
    {
      hide Table.Ok, SplitTable, SplitMeta, HomeKey, NewSlot, ProbedList, CountPresent, Moved, Remains, Restored, Owned, Pending;
      SoundSize(t);
      var oldSize, oldMeta := allocSize, metadata;
      oldEntries := entries;
      allocSize := ComputeNextAllocSize(oldSize);
      metadata := new Byte[allocSize];
      entries := new Slot<K, V>[allocSize](_ => Raw);
      growthBudget := GrowthThreshold(allocSize);
      probed, count := SplitGroups(oldMeta, oldEntries, oldSize, t);
      if triviallyRelocatable { BulkCopy(oldEntries, oldSize); }
      SplitEntries(t, entries[..]);
      SplitIsRestored(t, entries[..]);
      ProbedEntries(t, probed, oldEntries[..]);
      SplitFields(t, entries[..]);
      split := SplitTable(t, entries[..]);
      owner, slotOf, contents := split.owner, split.slotOf, split.contents;
    }

    // Doubles the allocation.
    method GrowToNextAllocSize()
      requires Valid()
      modifies this, entries
      ensures Valid() && fresh(metadata) && fresh(entries)
      ensures contents == old(contents) && allocSize == 2 * old(allocSize) && growthBudget > 0
      ensures growthBudget == GrowthThreshold(allocSize) - CountPresent(old(metadata[..]), old(allocSize))
      ensures forall i :: 0 <= i < metadata.Length ==> metadata[i] != DELETED
      ensures forall k :: k in old(slotOf) && HomeKey(old(Abs()), k) ==> k in slotOf && slotOf[k] == NewSlot(old(Abs()), k)
    {
      hide Table.Ok, HomeKey, NewSlot, ProbedList, CountPresent, Restored, Owned, Pending;
      ghost var t: Sound<K, V> := Abs();
      ghost var split, next;
      var probed, count, oldEntries;
      probed, count, oldEntries, split := SplitIntoNewStorage(t);
      next := ReinsertProbed(probed, oldEntries, t, split);
      growthBudget := growthBudget - count;
      GrownFacts(t, next, probed, count);
      SoundSize(next);
      FromSound(next);
    }

    // The invariant, from its value.
    lemma FromSound(t: Sound<K, V>)
      requires Abs() == t && allocSize == metadata.Length
      requires growthBudget == GrowthThreshold(allocSize) - Used(metadata[..])
      ensures Valid()
    {}

    // Inserts every entry of one old group into the new table.
    method RehashGroup(oldMeta: array<Byte>, oldEntries: array<Slot<K, V>>, gi: nat, count0: nat,
                       ghost t: Sound<K, V>, ghost cur: Sound<K, V>)
      returns (count: nat, ghost next: Sound<K, V>)
      requires allocSize == metadata.Length && oldMeta != metadata && oldEntries != entries
      requires oldMeta[..] == t.meta && oldEntries.Length == |t.meta| && t.hash == hash && t.w == w
      requires gi + w.Size() <= |t.meta| <= allocSize && count0 == CountPresent(t.meta, gi)
      requires Abs() == cur && Rehashed(t, cur, allocSize, gi) && RemainsFrom(t, oldEntries[..], gi)
      modifies this`owner, this`slotOf, this`contents, metadata, entries, oldEntries
      ensures Abs() == next && Rehashed(t, next, allocSize, gi + w.Size())
      ensures RemainsFrom(t, oldEntries[..], gi + w.Size())
      ensures count == CountPresent(t.meta, gi + w.Size())
    {
      hide Table.Ok, Rehashed, RemainsFrom, CountPresent, AddsKey, NextMatch;
      var bytes := oldMeta[gi..gi + w.Size()];
      assert bytes == t.Group(gi);
      next := cur;
      count := count0;
      var b := NextMatch(bytes, AnyPresent, 0);
      RehashGap(t, next, oldEntries[..], allocSize, gi, 0, b);
      while b < w.Size()
        invariant b <= w.Size() && (b < w.Size() ==> AnyPresent.Accepts(bytes[b]))
        invariant Abs() == next && Rehashed(t, next, allocSize, gi + b) && RemainsFrom(t, oldEntries[..], gi + b)
        invariant count == CountPresent(t.meta, gi + b)
        decreases w.Size() - b
      {
        next := RehashEntry(oldEntries, gi, b, t, next);
        count := count + 1;
        var from := b + 1;
        b := NextMatch(bytes, AnyPresent, from);
        RehashGap(t, next, oldEntries[..], allocSize, gi, from, b);
      }
    }

    method RehashEntry(oldEntries: array<Slot<K, V>>, gi: nat, b: nat, ghost t: Sound<K, V>, ghost cur: Sound<K, V>)
      returns (ghost next: Sound<K, V>)
      requires allocSize == metadata.Length && oldEntries != entries && t.hash == hash && t.w == w
      requires gi + w.Size() <= |t.meta| <= allocSize && b < w.Size() && AnyPresent.Accepts(t.Group(gi)[b])
      requires Abs() == cur && Rehashed(t, cur, allocSize, gi + b) && RemainsFrom(t, oldEntries[..], gi + b)
      modifies this`owner, this`slotOf, this`contents, metadata, entries, oldEntries
      ensures Abs() == next && Rehashed(t, next, allocSize, gi + b + 1)
      ensures RemainsFrom(t, oldEntries[..], gi + b + 1)
      ensures CountPresent(t.meta, gi + b + 1) == CountPresent(t.meta, gi + b) + 1
    {
      hide Table.Ok, Rehashed, RemainsFrom, CountPresent, AddsKey, ProbedList, HomeSlot;
      var o := gi + b;
      assert t.Group(gi)[b] == t.meta[o];
      ghost var was, i := oldEntries[..], 0;
      RehashNext(t, cur, was, allocSize, o);
      WalkStep(t, o);
      var h := hash(oldEntries[o].key);
      ghost var key := t.owner[o];
      next, i := Reinsert(h, o, oldEntries, key, t.contents[key], cur);
      RehashOne(t, cur, next, was, oldEntries[..], allocSize, o, i);
    }

    // Switches to new, empty storage.
    method StartEmpty(target: nat, ghost t: Sound<K, V>) returns (ghost cur: Sound<K, V>)
      requires Abs() == t && IsTableSize(target)
      modifies this
      ensures fresh(metadata) && fresh(entries) && allocSize == metadata.Length == target
      ensures growthBudget == GrowthThreshold(target)
      ensures Abs() == cur && Rehashed(t, cur, target, 0)
    {
      hide Table.Ok, Rehashed, IsPow2;
      allocSize := target;
      metadata := new Byte[target](_ => EMPTY);
      entries := new Slot<K, V>[target](_ => Raw);
      growthBudget := GrowthThreshold(target);
      cur := EmptyTable(w, hash, target);
      owner, slotOf, contents := cur.owner, cur.slotOf, cur.contents;
      EmptyFields<K, V>(w, hash, target);
      RehashBegins(t, target);
      assert metadata[..] == cur.meta;
      assert entries[..] == cur.ents;
    }

    lemma RehashStarts(t: Sound<K, V>)
      requires t.w == w
      ensures RemainsFrom(t, t.ents, 0) && CountPresent(t.meta, 0) == 0 && |t.ents| == |t.meta|
      ensures IsTableSize(|t.meta|) && w.First(w.GroupOf(0)) == 0
    {}

    method RehashGroups(oldMeta: array<Byte>, oldEntries: array<Slot<K, V>>, oldSize: nat,
                        ghost t: Sound<K, V>, ghost cur: Sound<K, V>)
      returns (count: nat, ghost next: Sound<K, V>)
      requires allocSize == metadata.Length && oldMeta != metadata && oldEntries != entries
      requires oldMeta[..] == t.meta && oldEntries[..] == t.ents && t.hash == hash && t.w == w
      requires oldSize == |t.meta| <= allocSize && Abs() == cur && Rehashed(t, cur, allocSize, 0)
      modifies this`owner, this`slotOf, this`contents, metadata, entries, oldEntries
      ensures Abs() == next && Rehashed(t, next, allocSize, oldSize) && count == CountPresent(t.meta, oldSize)
    {
      hide *;
      RehashStarts(t);
      count, next := 0, cur;
      var gi := 0;
      while gi < oldSize
        invariant gi <= oldSize && w.First(w.GroupOf(gi)) == gi
        invariant Abs() == next && Rehashed(t, next, allocSize, gi) && RemainsFrom(t, oldEntries[..], gi)
        invariant count == CountPresent(t.meta, gi)
      {
        NextGroup(w, gi, oldSize);
        count, next := RehashGroup(oldMeta, oldEntries, gi, count, t, next);
        gi := gi + w.Size();
      }
    }

    // Growth by more than a doubling: every entry is inserted again.
    method RehashInto(target: nat)
      requires Valid() && IsPow2(target) && target >= 2 * allocSize
      modifies this, entries
      ensures Valid() && fresh(metadata) && fresh(entries)
      ensures contents == old(contents) && allocSize == target && growthBudget > 0
      ensures growthBudget == GrowthThreshold(target) - CountPresent(old(metadata[..]), old(allocSize))
    {
      hide Table.Ok, Rehashed, CountPresent, IsPow2;
      ghost var t: Sound<K, V> := Abs();
      SoundSize(t);
      var oldSize, oldMeta, oldEntries := allocSize, metadata, entries;
      ghost var cur := StartEmpty(target, t);
      ghost var next;
      var count;
      count, next := RehashGroups(oldMeta, oldEntries, oldSize, t, cur);
      growthBudget := growthBudget - count;
      RehashedFacts(t, next, target);
      FromSound(next);
    }

    // Grows to a power-of-two allocation; does nothing if the table is at least that large.
    method GrowToAllocSizeImpl(target: nat)
      requires Valid() && IsPow2(target)
      modifies this, entries
      ensures Valid() && contents == old(contents)
      ensures target <= old(allocSize) ==>
                && allocSize == old(allocSize) && growthBudget == old(growthBudget) && Abs() == old(Abs())
                && metadata == old(metadata) && entries == old(entries)
      ensures target > old(allocSize) ==> allocSize == target && growthBudget > 0 && fresh(metadata) && fresh(entries)
      ensures target > old(allocSize) ==>
                growthBudget == GrowthThreshold(target) - CountPresent(old(metadata[..]), old(allocSize))
    {
      if target <= allocSize { return; }
      SoundSize(Abs());
      Pow2Order(allocSize, target);
      if target == ComputeNextAllocSize(allocSize) {
        GrowToNextAllocSize();
      } else {
        RehashInto(target);
      }
    }

    // --- The operations ---

    // The slot of a key, or a slot reserved for it: its byte carries the tag, the budget is paid,
    // and only its entry is left for the caller to construct.
    ghost predicate Reserved(key: K, i: nat)
      reads this, metadata, entries
    {
      && allocSize == metadata.Length
      && Abs().OkExcept(key, i)
      && growthBudget == GrowthThreshold(allocSize) - Used(metadata[..])
    }

    // Nothing reallocated, or both arrays.
    twostate predicate SameOrFresh()
      reads this
    {
      (metadata == old(metadata) && entries == old(entries)) || (fresh(metadata) && fresh(entries))
    }

    // An insertion costs at most one unit of budget, and grows only when there is none.
    twostate predicate WithinBudget()
      reads this
    {
      && growthBudget >= 0 && allocSize >= old(allocSize)
      && (old(growthBudget) > 0 ==> allocSize == old(allocSize) && growthBudget >= old(growthBudget) - 1)
    }

    method InsertImpl(key: K) returns (i: nat, inserted: bool, ghost n: nat)
      requires Valid()
      modifies this, metadata, entries
      ensures contents == old(contents) && inserted == (key !in contents)
      ensures !inserted ==> Valid() && i == slotOf[key] && Abs() == old(Abs())
      ensures inserted ==> Reserved(key, i)
      ensures SameOrFresh() && WithinBudget()
      ensures inserted ==> old(Abs()).EndsAt(key, n)
      ensures inserted && (old(Abs()).FirstDeleted(key, n + 1).Some? || old(growthBudget) > 0) ==>
                && old(Abs()).InsertsAt(key, n, i) && metadata == old(metadata) && allocSize == old(allocSize)
                && metadata[..] == old(metadata[..])[i := PresentByte(HashTag(hash(key)))]
                && growthBudget == old(growthBudget) - (if old(metadata[..])[i] == EMPTY then 1 else 0)
      ensures inserted && old(Abs()).FirstDeleted(key, n + 1).None? && old(growthBudget) == 0 ==>
                fresh(metadata) && fresh(entries) && allocSize == 2 * old(allocSize)
    {
      hide Table.Ok, Table.OkExcept, CanPlace, Table.EndsAt, Table.FirstDeleted, Table.FirstIn,
           Table.InsertsAt;
      ghost var t: Sound<K, V> := Abs();
      SoundKeys(t);
      SoundSize(t);
      UsedBound(t);
      var at, deleted, empty;
      at, deleted, empty, n := ProbeForInsert(key, t);
      if at.Some? {
        return at.value, false, n;
      }
      inserted := true;
      if deleted.Some? {
        i := deleted.value;
        ReserveSlot(key, i, t);
      } else if growthBudget == 0 {
        i := GrowAndInsert(key);
      } else {
        growthBudget := growthBudget - 1;
        i := empty;
        ReserveSlot(key, i, t);
      }
    }

    // return_insert_at_index: sets the byte of a slot found by the probe.
    method ReserveSlot(key: K, i: nat, ghost t: Sound<K, V>)
      requires Abs() == t && metadata.Length == allocSize && key !in t.contents
      requires CanPlace(t, key, i) && !IsPresent(t.meta[i])
      requires t.meta[i] == EMPTY ==> growthBudget == GrowthThreshold(allocSize) - Used(t.meta) - 1 >= 0
      requires t.meta[i] != EMPTY ==> growthBudget == GrowthThreshold(allocSize) - Used(t.meta)
      modifies this`owner, this`slotOf, metadata
      ensures contents == old(contents) && Reserved(key, i)
      ensures metadata[..] == t.meta[i := PresentByte(HashTag(hash(key)))]
    {
      hide Table.Ok, Table.OkExcept;
      PlacedIsOkExcept(t, key, i);
      SetPresent(hash(key), key, i, t);
    }

    // Doubles, then inserts into the now roomy table.
    method GrowAndInsert(key: K) returns (i: nat)
      requires Valid() && key !in contents
      modifies this, entries
      ensures contents == old(contents) && Reserved(key, i)
      ensures fresh(metadata) && fresh(entries) && allocSize == 2 * old(allocSize) && growthBudget >= 0
    {
      hide Table.Ok, Table.OkExcept, CountPresent, IsPow2;
      GrowToNextAllocSize();
      growthBudget := growthBudget - 1;
      ghost var t: Sound<K, V> := Abs();
      SoundKeys(t);
      ghost var n;
      i, n := InsertIntoEmpty(hash(key), key, t);
      PlacedIsOkExcept(t, key, i);
    }

    // Constructs the entry of a reserved slot.
    method Construct(i: nat, key: K, v: V)
      requires Reserved(key, i)
      modifies this`contents, entries
      ensures Valid() && contents == old(contents)[key := v]
    {
      hide Table.Ok, Table.OkExcept, Used, GrowthThreshold;
      ghost var t := Abs();
      FilledIsOk(t, key, i, v);
      entries[i] := Live(key, v);
      contents := contents[key := v];
      assert Abs() == t.Filled(key, i, v);
    }

    // Replaces the value of the entry of a present key.
    method Replace(i: nat, key: K, v: V)
      requires Valid() && key in contents && i == slotOf[key]
      modifies this`contents, entries
      ensures Valid() && contents == old(contents)[key := v] && slotOf == old(slotOf)
    {
      hide Table.Ok;
      ghost var t: Sound<K, V> := Abs();
      RefilledIsOk(t, key, v);
      entries[i] := Live(key, v);
      contents := contents[key := v];
      assert Abs() == t.Filled(key, i, v);
    }

    // Erases a key. In a group that has an empty slot nothing probes past, so the slot becomes
    // empty and its budget is returned; in a full group a tombstone keeps probes going.
    method EraseImpl(key: K) returns (erased: bool)
      requires Valid()
      modifies this, metadata, entries
      ensures Valid() && contents == old(contents) - {key} && erased == (key in old(contents))
      ensures metadata == old(metadata) && entries == old(entries) && allocSize == old(allocSize)
      ensures erased ==>
                var i := old(slotOf[key]);
                var full := !HasEmpty(w, old(metadata[..]), w.GroupOf(i));
                && i < old(allocSize)
                && metadata[..] == old(metadata[..])[i := if full then DELETED else EMPTY]
                && growthBudget == old(growthBudget) + (if full then 0 else 1)
      ensures !erased ==> Abs() == old(Abs()) && growthBudget == old(growthBudget)
    {
      hide Table.Ok, HasEmpty;
      ghost var t: Sound<K, V> := Abs();
      SoundKeys(t);
      ghost var n, failed := 0, 0;
      var at;
      at, n, failed := ProbeForKey(key, t);
      erased := at.Some?;
      if erased {
        RemoveAt(key, at.value, t);
      } else {
        assert contents - {key} == contents;
      }
    }

    method RemoveAt(key: K, i: nat, ghost t: Sound<K, V>)
      requires Abs() == t && key in t.slotOf && i == t.slotOf[key]
      requires allocSize == metadata.Length && growthBudget == GrowthThreshold(allocSize) - Used(metadata[..])
      modifies this`growthBudget, this`owner, this`slotOf, this`contents, metadata, entries
      ensures Valid() && contents == old(contents) - {key} && i < metadata.Length
      ensures var full := !HasEmpty(w, t.meta, w.GroupOf(i));
              && metadata[..] == t.meta[i := if full then DELETED else EMPTY]
              && growthBudget == old(growthBudget) + (if full then 0 else 1)
    {
      hide Table.Ok, HasEmpty, Used, GrowthThreshold;
      SoundSize(t);
      KeyHasItsByte(t, key);
      var full := GroupIsFull(i, t);
      ghost var b := if full then DELETED else EMPTY;
      if full {
        metadata[i] := DELETED;
      } else {
        metadata[i] := EMPTY;
        growthBudget := growthBudget + 1;
      }
      if !triviallyDestructible { entries[i] := Raw; }
      owner, slotOf, contents := owner - {i}, slotOf - {key}, contents - {key};
      RemovedIsOk(t, key, b, entries[i]);
      ghost var next: Sound<K, V> := t.Removed(key, i, b, entries[i]);
      assert metadata[..] == next.meta && entries[..] == next.ents;
      FromSound(next);
    }

    method GroupIsFull(i: nat, ghost t: Sound<K, V>) returns (full: bool)
      requires Abs() == t && i < metadata.Length
      ensures full <==> !HasEmpty(w, t.meta, w.GroupOf(i))
    {
      hide Table.Ok, HasEmpty, IsPow2;
      SoundSize(t);
      GroupStartOf(w, |t.meta|, i);
      var gi := AndNot(i, w.Size() - 1);
      GroupEmptyScan(w, t.meta, gi, w.GroupOf(i));
      assert metadata[gi..gi + w.Size()] == t.meta[gi..gi + w.Size()];
      full := NextMatch(metadata[gi..gi + w.Size()], AnyEmpty, 0) == w.Size();
    }

    // Destroys every constructed entry, unless that is trivial.
    method DestroyEntries(ghost t: Sound<K, V>)
      requires Abs() == t && metadata.Length == entries.Length
      modifies entries
    {
      if !triviallyDestructible {
        forall i | 0 <= i < metadata.Length && IsPresent(metadata[i]) { entries[i] := Raw; }
      }
    }

    // Erases everything but keeps the allocation.
    method ClearImpl()
      requires Valid()
      modifies this, metadata, entries
      ensures Valid() && contents == map[] && allocSize == old(allocSize)
      ensures metadata == old(metadata) && entries == old(entries)
      ensures growthBudget == GrowthThreshold(allocSize) && 8 * growthBudget == 7 * allocSize
    {
      hide Table.Ok;
      ghost var t: Sound<K, V> := Abs();
      SoundSize(t);
      SevenEighths(allocSize);
      DestroyEntries(t);
      forall i | 0 <= i < metadata.Length { metadata[i] := EMPTY; }
      growthBudget := GrowthThreshold(allocSize);
      owner, slotOf, contents := map[], map[], map[];
      AllEmptyIsOk(Abs());
    }

    // Grows so that `count` more keys can be inserted without growing again.
    method GrowForInsertCountImpl(count: int)
      requires Valid()
      modifies this, entries
      ensures Valid() && contents == old(contents) && growthBudget > count
      ensures count < old(growthBudget) ==> Abs() == old(Abs()) && metadata == old(metadata) && entries == old(entries)
      ensures count >= old(growthBudget) ==>
                && allocSize > old(allocSize) && fresh(metadata) && fresh(entries)
                && forall size: nat :: IsTableSize(size) ==>
                     (size >= allocSize <==> 7 * size > 8 * (old(Used(metadata[..])) + count))
    {
      hide Table.Ok, CountPresent, NextPowerOf2, IsPow2, GrowTarget;
      if count < growthBudget { return; }
      ghost var t: Sound<K, V> := Abs();
      SoundSize(t);
      UsedBound(t);
      GrowTargetIsEnough(allocSize, growthBudget, count);
      var usedBudget := GrowthThreshold(allocSize) - growthBudget;
      var target := GrowTarget(usedBudget, count);
      forall size: nat | IsTableSize(size)
        ensures size >= target <==> 7 * size > 8 * (usedBudget + count)
      {
        GrowTargetIsLeast(usedBudget, count, size);
      }
      GrowToAllocSizeImpl(target);
    }

    // --- The map (common/map.h) ---

    method Insert(key: K, v: V) returns (inserted: bool)
      requires Valid()
      modifies this, metadata, entries
      ensures Valid() && SameOrFresh() && WithinBudget()
      ensures inserted == (key !in old(contents))
      ensures contents == if key in old(contents) then old(contents) else old(contents)[key := v]
      ensures inserted && old(growthBudget) == 0 && DELETED !in old(metadata[..]) ==> allocSize == 2 * old(allocSize)
    {
      hide Table.Ok, Table.OkExcept, Used, GrowthThreshold, Table.FirstDeleted, Table.EndsAt, Table.InsertsAt;
      ghost var t: Sound<K, V> := Abs();
      var i;
      ghost var n;
      i, inserted, n := InsertImpl(key);
      if DELETED !in t.meta { NoneDeleted(t, key, n + 1); }
      if inserted { Construct(i, key, v); }
    }

    // The general update: a fresh key gets `insertValue`, a present one has its value updated.
    method UpdateWith(key: K, insertValue: V, update: V -> V) returns (inserted: bool)
      requires Valid()
      modifies this, metadata, entries
      ensures Valid() && SameOrFresh() && WithinBudget()
      ensures inserted == (key !in old(contents))
      ensures contents == old(contents)[key := if key in old(contents) then update(old(contents)[key]) else insertValue]
    {
      hide Table.Ok, Table.OkExcept, Used, GrowthThreshold;
      var i;
      ghost var n;
      i, inserted, n := InsertImpl(key);
      if inserted {
        Construct(i, key, insertValue);
      } else {
        EntryOf(key);
        Replace(i, key, update(entries[i].value));
      }
    }

    lemma EntryOf(key: K)
      requires Valid() && key in contents
      ensures slotOf[key] < entries.Length && entries[slotOf[key]] == Live(key, contents[key])
    {
      KeyHasItsByte(Abs(), key);
    }

    method Update(key: K, v: V) returns (inserted: bool)
      requires Valid()
      modifies this, metadata, entries
      ensures Valid() && SameOrFresh() && WithinBudget()
      ensures inserted == (key !in old(contents)) && contents == old(contents)[key := v]
    {
      inserted := UpdateWith(key, v, _ => v);
    }

    method Lookup(key: K) returns (r: Option<V>)
      requires Valid()
      ensures r == if key in contents then Some(contents[key]) else None
    {
      ghost var n, failed := 0, 0;
      var at;
      at, n, failed := LookupEntry(key);
      if at.None? { return None; }
      EntryOf(key);
      return Some(entries[at.value].value);
    }

    method Contains(key: K) returns (r: bool)
      requires Valid()
      ensures r == (key in contents)
    {
      ghost var n, failed := 0, 0;
      var at;
      at, n, failed := LookupEntry(key);
      r := at.Some?;
    }

    // --- Construction, copy and move ---

    // A table starts empty, in its small buffer if it has one, else in a minimal allocation.
    constructor (w: Width, hash: K -> HashCode, triviallyRelocatable: bool, triviallyDestructible: bool, smallAllocSize: nat)
      requires smallAllocSize == 0 || IsTableSize(smallAllocSize)
      ensures Valid() && contents == map[] && fresh(metadata) && fresh(entries)
      ensures this.w == w && this.hash == hash && this.smallAllocSize == smallAllocSize
      ensures allocSize == (if smallAllocSize > 0 then smallAllocSize else 64)
      ensures growthBudget == GrowthThreshold(allocSize) && 8 * growthBudget == 7 * allocSize
    {
      this.w, this.hash := w, hash;
      this.triviallyRelocatable, this.triviallyDestructible := triviallyRelocatable, triviallyDestructible;
      this.smallAllocSize := smallAllocSize;
      var size := InitialSize(smallAllocSize);
      allocSize := size;
      metadata := new Byte[size](_ => EMPTY);
      entries := new Slot<K, V>[size](_ => Raw);
      growthBudget := GrowthThreshold(size);
      owner, slotOf, contents := map[], map[], map[];
      new;
      SevenEighths(allocSize);
      AllEmptyIsOk(Abs());
    }

    // Back to the initial state: everything is erased and the allocation is the initial one again.
    method Reset()
      requires (Valid() || MovedFrom()) && (smallAllocSize == 0 || IsTableSize(smallAllocSize))
      modifies this, entries
      ensures Valid() && contents == map[] && fresh(metadata) && fresh(entries)
      ensures allocSize == (if smallAllocSize > 0 then smallAllocSize else 64)
      ensures growthBudget == GrowthThreshold(allocSize) && 8 * growthBudget == 7 * allocSize
    {
      hide *;
      InitialSizeIsTableSize(smallAllocSize);
      SevenEighths(InitialSize(smallAllocSize));
      Destroy();
      SetUpEmpty(InitialSize(smallAllocSize));
    }

    // New storage with nothing in it.
    method SetUpEmpty(size: nat)
      requires IsTableSize(size)
      modifies this`allocSize, this`metadata, this`entries, this`growthBudget, this`owner, this`slotOf, this`contents
      ensures Valid() && contents == map[] && fresh(metadata) && fresh(entries)
      ensures allocSize == size && growthBudget == GrowthThreshold(size)
    {
      hide Table.Ok, IsTableSize;
      allocSize := size;
      metadata := new Byte[size](_ => EMPTY);
      entries := new Slot<K, V>[size](_ => Raw);
      growthBudget := GrowthThreshold(size);
      owner, slotOf, contents := map[], map[], map[];
      AllEmptyIsOk(Abs());
    }

    // Copies every slot of a table of the same size: bytes with their tombstones, and the entries
    // of present slots.
    method CopySlotsFrom(arg: MapBase<K, V>, ghost t: Sound<K, V>)
      requires arg.Abs() == t && arg != this && arg.w == w && arg.hash == hash
      requires metadata.Length == entries.Length == allocSize == |t.meta|
      requires metadata != arg.metadata && entries != arg.entries
      modifies this`owner, this`slotOf, this`contents, metadata, entries
      ensures Abs().Ok() && metadata[..] == t.meta && contents == t.contents && slotOf == t.slotOf
    {
      hide Table.Ok;
      SoundSize(t);
      forall i | 0 <= i < allocSize { metadata[i] := arg.metadata[i]; }
      forall i | 0 <= i < allocSize && IsPresent(arg.metadata[i]) { entries[i] := arg.entries[i]; }
      owner, slotOf, contents := arg.owner, arg.slotOf, arg.contents;
      assert metadata[..] == t.meta;
      CopiedIsOk(t, entries[..]);
      assert Abs() == t.(ents := entries[..]);
    }

    // Assignment from another table: reuses the storage if the sizes agree. Either table may have
    // been moved from.
    method AssignFrom(arg: MapBase<K, V>)
      requires (Valid() || MovedFrom()) && (arg.Valid() || arg.MovedFrom()) && arg.w == w && arg.hash == hash
      requires arg != this ==> metadata != arg.metadata && entries != arg.entries
      modifies this, metadata, entries
      ensures old(arg.Valid()) ==> Valid() && growthBudget == old(arg.growthBudget)
      ensures old(arg.MovedFrom()) ==> MovedFrom()
      ensures contents == old(arg.contents) && metadata[..] == old(arg.metadata[..]) && SameOrFresh()
      ensures arg != this ==> arg.Abs() == old(arg.Abs()) && arg.growthBudget == old(arg.growthBudget)
      ensures arg != this ==> arg.allocSize == old(arg.allocSize) && (old(arg.Valid()) ==> arg.Valid())
    {
      hide Table.Ok;
      SizeTellsState();
      arg.SizeTellsState();
      if arg.allocSize == allocSize {
        if arg == this || allocSize == 0 { return; }
        DestroyEntries(Abs());
      } else {
        Destroy();
        if arg.allocSize == 0 {
          BecomeMovedFrom();
          return;
        }
        SetUpStorage(arg.allocSize);
      }
      CopyFrom(arg);
    }

    // A table is moved from exactly when its size is zero.
    lemma SizeTellsState()
      requires Valid() || MovedFrom()
      ensures MovedFrom() <==> allocSize == 0
      ensures MovedFrom() <==> !Valid()
    {
      if Valid() { SoundSize(Abs()); }
    }

    method Destroy()
      requires Valid() || MovedFrom()
      modifies entries
    {
      hide Table.Ok;
      SizeTellsState();
      if allocSize == 0 { return; }
      DestroyEntries(Abs());
    }

    method BecomeMovedFrom()
      modifies this
      ensures MovedFrom() && fresh(metadata) && fresh(entries)
    {
      allocSize := 0;
      metadata := new Byte[0];
      entries := new Slot<K, V>[0](_ => Raw);
      owner, slotOf, contents := map[], map[], map[];
    }

    // Storage of the given size: what is there if it fits, else new.
    method SetUpStorage(size: nat)
      modifies this`allocSize, this`metadata, this`entries
      ensures metadata.Length == entries.Length == allocSize == size && fresh(metadata) && fresh(entries)
    {
      allocSize := size;
      metadata := new Byte[size];
      entries := new Slot<K, V>[size](_ => Raw);
    }

    // Fills storage of the right size with the slots of another table.
    method CopyFrom(arg: MapBase<K, V>)
      requires arg.Valid() && arg != this && arg.w == w && arg.hash == hash
      requires metadata.Length == entries.Length == allocSize == arg.allocSize
      requires metadata != arg.metadata && entries != arg.entries
      modifies this`growthBudget, this`owner, this`slotOf, this`contents, metadata, entries
      ensures Valid() && contents == arg.contents && growthBudget == arg.growthBudget
      ensures metadata[..] == arg.metadata[..] && arg.Valid() && arg.Abs() == old(arg.Abs())
    {
      hide Table.Ok;
      ghost var t: Sound<K, V> := arg.Abs();
      SoundSize(t);
      growthBudget := arg.growthBudget;
      CopySlotsFrom(arg, t);
      FromSound(Abs());
      arg.FromSound(t);
    }

    // Takes over another table: its heap storage as it is, or slot by slot out of a small buffer.
    // The other table is left moved-from; moving a table into itself empties it that way.
    method MoveFrom(arg: MapBase<K, V>)
      requires (Valid() || MovedFrom()) && (arg.Valid() || arg.MovedFrom()) && arg.w == w && arg.hash == hash
      requires arg != this ==> metadata != arg.metadata && entries != arg.entries
      modifies this, entries, arg
      ensures arg.MovedFrom()
      ensures arg != this && old(arg.Valid()) ==> Valid() && growthBudget == old(arg.growthBudget)
      ensures arg != this && old(arg.MovedFrom()) ==> MovedFrom()
      ensures arg != this ==> contents == old(arg.contents) && metadata[..] == old(arg.metadata[..])
      ensures arg != this && old(arg.Valid()) && arg.smallAllocSize != old(arg.allocSize) ==>
                metadata == old(arg.metadata) && entries == old(arg.entries)
      ensures arg != this && old(arg.Valid()) && arg.smallAllocSize == old(arg.allocSize) ==>
                fresh(metadata) && fresh(entries)
    {
      hide Table.Ok, Used, GrowthThreshold;
      arg.SizeTellsState();
      Destroy();
      allocSize := 0;
      if arg.allocSize == 0 {
        BecomeMovedFrom();
        return;
      }
      TakeOver(arg);
      arg.BecomeMovedFrom();
    }

    // Makes the contents of another table those of this one.
    method TakeOver(arg: MapBase<K, V>)
      requires arg.Valid() && arg != this && arg.w == w && arg.hash == hash
      modifies this
      ensures Valid() && contents == arg.contents && growthBudget == arg.growthBudget && metadata[..] == arg.metadata[..]
      ensures arg.smallAllocSize != arg.allocSize ==> metadata == arg.metadata && entries == arg.entries
      ensures arg.smallAllocSize == arg.allocSize ==> fresh(metadata) && fresh(entries)
    {
      hide Table.Ok, Used, GrowthThreshold;
      if arg.allocSize == arg.smallAllocSize {
        SetUpStorage(arg.allocSize);
        CopyFrom(arg);
      } else {
        allocSize := arg.allocSize;
        growthBudget := arg.growthBudget;
        metadata, entries := arg.metadata, arg.entries;
        owner, slotOf, contents := arg.owner, arg.slotOf, arg.contents;
      }
    }
  }

  lemma {:induction false} NoneDeleted<K, V>(t: Sound<K, V>, key: K, n: nat)
    requires DELETED !in t.meta
    ensures t.FirstDeleted(key, n) == None
  {
    hide Table.Ok, NextMatch;
    if n == 0 {
    } else {
      NoneDeleted(t, key, n - 1);
      ProbeInBounds(t, key, n - 1);
    }
  }

  lemma GroupBytesValid<K, V>(t: Sound<K, V>, gi: nat)
    requires gi + t.w.Size() <= |t.meta|
    ensures ValidBytes(t.Group(gi))
  {}

  function InitialSize(smallAllocSize: nat): nat {
    if smallAllocSize > 0 then smallAllocSize else MIN_ALLOCATED_SIZE
  }

  lemma InitialSizeIsTableSize(smallAllocSize: nat)
    requires smallAllocSize == 0 || IsTableSize(smallAllocSize)
    ensures IsTableSize(InitialSize(smallAllocSize))
    ensures InitialSize(smallAllocSize) == if smallAllocSize > 0 then smallAllocSize else 64
  {}
}
