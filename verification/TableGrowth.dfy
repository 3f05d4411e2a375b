/** Doubling a table without rehashing most of it (common/raw_hashtable.h:1672-1887).

    Doubling adds one bit to every hash index. An entry in its home group goes
    to the same byte of the low or of the high half; an entry that was probed
    is set aside and inserted again. `SplitMeta` is the metadata after the first
    part. The lemmas say that the split table is sound, that it holds exactly
    the home entries, and that nothing is counted twice. */
module TableGrowth {
  import opened Bits
  import opened Probe
  import opened MetadataGroup
  import opened TableLayout

  // --- Where an entry goes ---

  ghost predicate HomeKey<K, V>(t: Table<K, V>, k: K) {
    k in t.slotOf && t.Probed(k, 0) == t.w.GroupOf(t.slotOf[k])
  }

  ghost predicate HomeSlot<K, V>(t: Table<K, V>, o: nat) {
    o in t.owner && t.Probed(t.owner[o], 0) == t.w.GroupOf(o)
  }

  // The home group of a key after doubling.
  function NewHome<K, V>(t: Table<K, V>, k: K): nat {
    var groups := t.w.GroupOf(2 * |t.meta|);
    if groups == 0 then 0 else t.w.GroupOf(HashIndex(t.hash(k))) % groups
  }

  // Slot i of the doubled table comes from this old slot.
  function OldSlot<K, V>(t: Table<K, V>, i: nat): nat {
    if i < |t.meta| then i else i - |t.meta|
  }

  // Slot i of the doubled table takes over its old slot's entry.
  ghost predicate Takes<K, V>(t: Table<K, V>, i: nat) {
    i < 2 * |t.meta| && OldSlot(t, i) in t.owner && NewHome(t, t.owner[OldSlot(t, i)]) == t.w.GroupOf(i)
  }

  ghost function NewSlot<K, V>(t: Table<K, V>, k: K): nat
    requires k in t.slotOf
  {
    if NewHome(t, k) == t.w.GroupOf(t.slotOf[k]) then t.slotOf[k] else t.slotOf[k] + |t.meta|
  }

  lemma DoubledGroups(w: Width, size: nat)
    requires IsTableSize(size)
    ensures IsTableSize(2 * size) && w.GroupOf(2 * size) == 2 * w.GroupOf(size) > 0
    ensures forall i: nat :: w.GroupOf(i + size) == w.GroupOf(i) + w.GroupOf(size)
  {
    GroupCount(w, size);
  }

  lemma ModHalves(x: nat, n: nat)
    requires n > 0
    ensures x % (2 * n) == x % n || x % (2 * n) == x % n + n
  {
    var q, r := x / (2 * n), x % (2 * n);
    assert x == q * (2 * n) + r;
    if r < n {
      assert x == (2 * q) * n + r;
      DivModUnique(x, n, 2 * q, r);
    } else {
      assert x == (2 * q + 1) * n + (r - n);
      DivModUnique(x, n, 2 * q + 1, r - n);
    }
  }

  // The new home group is the old one, in the low or in the high half.
  lemma NewHomeIsOldHome<K, V>(t: Sound<K, V>, k: K)
    ensures t.Probed(k, 0) < t.Groups()
    ensures NewHome(t, k) == t.Probed(k, 0) || NewHome(t, k) == t.Probed(k, 0) + t.Groups()
  {
    DoubledGroups(t.w, |t.meta|);
    ModHalves(t.w.GroupOf(HashIndex(t.hash(k))), t.Groups());
  }

  // An old slot's entry is taken over by one slot if it is at home, by none otherwise.
  lemma GroupsAre<K, V>(t: Table<K, V>)
    ensures t.Groups() == t.w.GroupOf(|t.meta|)
  {}

  lemma TakesIffHome<K, V>(t: Sound<K, V>, o: nat)
    requires o < |t.meta|
    ensures HomeSlot(t, o) <==> Takes(t, o) || Takes(t, o + |t.meta|)
    ensures !(Takes(t, o) && Takes(t, o + |t.meta|))
  {
    hide Table.Ok, IsTableSize, IsPow2, Table.Probed, NewHome, Width.GroupOf, Table.Groups;
    SoundSize(t);
    DoubledGroups(t.w, |t.meta|);
    SlotGroup(t.w, o, |t.meta|);
    GroupsAre(t);
    if o in t.owner { NewHomeIsOldHome(t, t.owner[o]); }
  }

  lemma SlotGroup(w: Width, i: nat, size: nat)
    requires IsTableSize(size) && i < size
    ensures w.GroupOf(i) < w.GroupOf(size)
  {
    GroupCount(w, size);
  }

  lemma HomeKeyTakes<K, V>(t: Sound<K, V>, k: K)
    requires HomeKey(t, k)
    ensures Takes(t, NewSlot(t, k)) && OldSlot(t, NewSlot(t, k)) == t.slotOf[k] && t.owner[t.slotOf[k]] == k
  {
    KeyHasItsByte(t, k);
    assert t.slotOf[k] in t.owner;
    TakesIffHome(t, t.slotOf[k]);
  }

  lemma TakesIsNewSlot<K, V>(t: Sound<K, V>, i: nat)
    requires Takes(t, i)
    ensures HomeKey(t, t.owner[OldSlot(t, i)]) && NewSlot(t, t.owner[OldSlot(t, i)]) == i
  {
    var o := OldSlot(t, i);
    TakesIffHome(t, o);
    assert t.owner[o] in t.slotOf && t.slotOf[t.owner[o]] == o;
  }

  // --- The split table ---

  ghost function SplitByte<K, V>(t: Table<K, V>, i: nat): Byte
    requires i < 2 * |t.meta|
  {
    if Takes(t, i) then t.meta[OldSlot(t, i)] else EMPTY
  }

  ghost function SplitMeta<K, V>(t: Table<K, V>): (m: seq<Byte>)
    ensures |m| == 2 * |t.meta|
    ensures forall i :: 0 <= i < |m| ==> m[i] == SplitByte(t, i)
  {
    seq(2 * |t.meta|, i requires 0 <= i < 2 * |t.meta| => SplitByte(t, i))
  }

  ghost function SplitTable<K, V>(t: Table<K, V>, ents: seq<Slot<K, V>>): Table<K, V> {
    Table(t.w, t.hash, SplitMeta(t), ents,
          map i: nat | 0 <= i < 2 * |t.meta| && Takes(t, i) :: t.owner[OldSlot(t, i)],
          map k | k in t.slotOf && HomeKey(t, k) :: NewSlot(t, k),
          map k | k in t.contents && HomeKey(t, k) :: t.contents[k])
  }

  lemma SplitReaches<K, V>(t: Sound<K, V>, i: nat)
    requires Takes(t, i)
    ensures t.w.GroupOf(2 * |t.meta|) > 0
    ensures Reaches(t.w, SplitMeta(t), t.hash(t.owner[OldSlot(t, i)]), i)
  {
    SoundSize(t);
    hide Table.Ok, IsTableSize, SplitByte, HasEmpty;
    DoubledGroups(t.w, |t.meta|);
    HomeIsReached(t.w, SplitMeta(t), t.hash(t.owner[OldSlot(t, i)]), i);
  }

  // A slot of the first probed group is reached at once.
  lemma HomeIsReached(w: Width, meta: seq<Byte>, h: HashCode, i: nat)
    requires w.GroupOf(|meta|) > 0 && w.GroupOf(HashIndex(h)) % w.GroupOf(|meta|) == w.GroupOf(i)
    ensures Reaches(w, meta, h, i)
  {
    hide HasEmpty;
    assert ReachesAt(w, meta, h, i, 0);
  }

  lemma SplitOwner<K, V>(t: Sound<K, V>, ents: seq<Slot<K, V>>, i: nat)
    requires Takes(t, i)
    ensures var s := SplitTable(t, ents);
            && i in s.owner && s.owner[i] in s.slotOf && s.slotOf[s.owner[i]] == i
            && s.meta[i] == PresentByte(HashTag(s.hash(s.owner[i])))
            && s.w.GroupOf(|s.meta|) > 0 && Reaches(s.w, s.meta, s.hash(s.owner[i]), i)
  {
    TakesIsNewSlot(t, i);
    SplitReaches(t, i);
    KeyHasItsByte(t, t.owner[OldSlot(t, i)]);
  }

  lemma SplitSlotOf<K, V>(t: Sound<K, V>, ents: seq<Slot<K, V>>, k: K)
    requires HomeKey(t, k)
    ensures var s := SplitTable(t, ents);
            k in s.slotOf && s.slotOf[k] in s.owner && s.owner[s.slotOf[k]] == k
  {
    HomeKeyTakes(t, k);
  }

  lemma SplitBytes<K, V>(t: Sound<K, V>, i: nat)
    requires i < 2 * |t.meta|
    ensures ValidByte(SplitMeta(t)[i]) && (Takes(t, i) <==> IsPresent(SplitMeta(t)[i]))
    ensures SplitMeta(t)[i] != DELETED
  {}

  lemma SplitLayout<K, V>(t: Sound<K, V>, ents: seq<Slot<K, V>>)
    ensures var s := SplitTable(t, ents); Layout(s.w, s.meta, s.hash, s.owner, s.slotOf)
  {
    hide Table.Ok, HomeKey, Takes, Reaches, NewSlot, ProbeGroup, Width.GroupOf;
    var s := SplitTable(t, ents);
    SplitSize(t);
    forall i | i in s.owner
      ensures s.owner[i] in s.slotOf && s.slotOf[s.owner[i]] == i
      ensures s.meta[i] == PresentByte(HashTag(s.hash(s.owner[i])))
      ensures Reaches(s.w, s.meta, s.hash(s.owner[i]), i)
    {
      SplitOwner(t, ents, i);
    }
    forall k | k in s.slotOf ensures s.slotOf[k] in s.owner && s.owner[s.slotOf[k]] == k {
      SplitSlotOf(t, ents, k);
    }
    forall i | 0 <= i < |s.meta| ensures ValidByte(s.meta[i]) && (i in s.owner <==> IsPresent(s.meta[i])) {
      SplitBytes(t, i);
    }
  }

  lemma SplitSize<K, V>(t: Sound<K, V>)
    ensures IsTableSize(2 * |t.meta|) && t.w.GroupOf(2 * |t.meta|) > 0
  {}

  // --- Counting ---

  function CountPresent(meta: seq<Byte>, n: nat): (c: nat)
    requires n <= |meta|
    ensures c <= CountNonEmpty(meta, n)
  {
    if n == 0 then 0 else CountPresent(meta, n - 1) + (if IsPresent(meta[n - 1]) then 1 else 0)
  }

  // The old slots below n whose entries were probed, in order, with their hashes.
  ghost function ProbedList<K, V>(t: Table<K, V>, n: nat): seq<(nat, HashCode)> {
    if n == 0 then []
    else if n - 1 in t.owner && !HomeSlot(t, n - 1) then ProbedList(t, n - 1) + [(n - 1, t.hash(t.owner[n - 1]))]
    else ProbedList(t, n - 1)
  }

  lemma {:induction false} ProbedListIsExact<K, V>(t: Table<K, V>, n: nat)
    ensures forall j :: 0 <= j < |ProbedList(t, n)| ==>
              var (o, h) := ProbedList(t, n)[j];
              o < n && o in t.owner && !HomeSlot(t, o) && h == t.hash(t.owner[o])
    ensures forall i, j :: 0 <= i < j < |ProbedList(t, n)| ==> ProbedList(t, n)[i].0 < ProbedList(t, n)[j].0
    ensures forall o :: 0 <= o < n && o in t.owner && !HomeSlot(t, o) ==> Listed(ProbedList(t, n), o)
  {
    hide HomeSlot, Listed;
    if n == 0 {
    } else {
      ProbedListIsExact(t, n - 1);
      var a, b := ProbedList(t, n - 1), ProbedList(t, n);
      forall o | 0 <= o < n && o in t.owner && !HomeSlot(t, o) ensures Listed(b, o) {
        StillListed(a, b, o);
      }
    }
  }

  predicate Listed(list: seq<(nat, HashCode)>, o: nat) {
    exists j :: 0 <= j < |list| && list[j].0 == o
  }

  lemma StillListed(a: seq<(nat, HashCode)>, b: seq<(nat, HashCode)>, o: nat)
    requires a <= b
    ensures Listed(a, o) ==> Listed(b, o)
    ensures |b| > 0 && b[|b| - 1].0 == o ==> Listed(b, o)
  {}

  lemma {:induction false} SplitCount<K, V>(t: Sound<K, V>, n: nat)
    requires n <= |t.meta|
    ensures CountNonEmpty(SplitMeta(t), n) + CountNonEmpty(SplitMeta(t), |t.meta| + n) + |ProbedList(t, n)|
         == CountNonEmpty(SplitMeta(t), |t.meta|) + CountPresent(t.meta, n)
  {
    hide *;
    if n == 0 {
      SplitBytesFit(t);
      NothingCounted(SplitMeta(t), t.meta);
      NothingListed(t);
    } else {
      SplitCount(t, n - 1);
      SplitBytesAt(t, n - 1);
      OneMoreCounted(SplitMeta(t), n);
      OneMoreCounted(SplitMeta(t), |t.meta| + n);
      OneMoreListed(t, n);
    }
  }

  lemma SplitBytesFit<K, V>(t: Sound<K, V>)
    ensures |SplitMeta(t)| == 2 * |t.meta|
  {}

  lemma NothingCounted(meta: seq<Byte>, meta': seq<Byte>)
    ensures CountNonEmpty(meta, 0) == 0 && CountPresent(meta', 0) == 0
  {}

  lemma NothingListed<K, V>(t: Table<K, V>)
    ensures ProbedList(t, 0) == []
  {}

  lemma OneMoreCounted(meta: seq<Byte>, n: nat)
    requires 0 < n <= |meta|
    ensures CountNonEmpty(meta, n) == CountNonEmpty(meta, n - 1) + (if meta[n - 1] == EMPTY then 0 else 1)
  {}

  lemma OneMoreListed<K, V>(t: Sound<K, V>, n: nat)
    requires 0 < n <= |t.meta|
    ensures |ProbedList(t, n)| == |ProbedList(t, n - 1)| + (if n - 1 in t.owner && !HomeSlot(t, n - 1) then 1 else 0)
    ensures CountPresent(t.meta, n) == CountPresent(t.meta, n - 1) + (if n - 1 in t.owner then 1 else 0)
  {
    hide Table.Ok, HomeSlot;
    OwnedIsPresent(t, n - 1);
  }

  // The two copies of an old byte: one is kept if its slot is a home slot, else none.
  lemma SplitBytesAt<K, V>(t: Sound<K, V>, o: nat)
    requires o < |t.meta|
    ensures |SplitMeta(t)| == 2 * |t.meta|
    ensures (if SplitMeta(t)[o] == EMPTY then 0 else 1) + (if SplitMeta(t)[|t.meta| + o] == EMPTY then 0 else 1)
         == if o in t.owner && HomeSlot(t, o) then 1 else 0
  {
    hide Table.Ok, Takes, HomeSlot;
    TakesIffHome(t, o);
    OwnedIsPresent(t, o);
    HomeIsOwned(t, o);
    SplitByteFacts(t, o);
    SplitByteFacts(t, |t.meta| + o);
  }

  lemma HomeIsOwned<K, V>(t: Sound<K, V>, o: nat)
    ensures HomeSlot(t, o) ==> o in t.owner
  {}

  lemma SplitByteFacts<K, V>(t: Sound<K, V>, i: nat)
    requires i < 2 * |t.meta|
    ensures SplitMeta(t)[i] == EMPTY <==> !Takes(t, i)
  {}

  // No entry is in both halves and no probed entry in either: the split holds the rest, once each.
  lemma SplitUsed<K, V>(t: Sound<K, V>)
    ensures Used(SplitMeta(t)) + |ProbedList(t, |t.meta|)| == CountPresent(t.meta, |t.meta|)
    ensures CountPresent(t.meta, |t.meta|) <= GrowthThreshold(|t.meta|) < GrowthThreshold(2 * |t.meta|)
  {
    hide Table.Ok, CountPresent, ProbedList, SplitMeta, GrowthThreshold;
    SplitCount(t, |t.meta|);
    SplitBytesFit(t);
    PresentBelowThreshold(t);
  }

  lemma SplitIsSound<K, V>(t: Sound<K, V>, ents: seq<Slot<K, V>>)
    requires |ents| == 2 * |t.meta|
    requires forall i :: 0 <= i < |ents| && Takes(t, i) ==> OldSlot(t, i) < |t.ents| && ents[i] == t.ents[OldSlot(t, i)]
    ensures SplitTable(t, ents).Ok()
  {
    hide Layout, SplitMeta, Used, GrowthThreshold, HomeKey, Takes, NewSlot;
    SplitLayout(t, ents);
    SplitUsed(t);
    SplitBytesFit(t);
    var s := SplitTable(t, ents);
    forall k | k in s.contents ensures s.slotOf[k] < |ents| && s.ents[s.slotOf[k]] == Live(k, s.contents[k]) {
      HomeKeyTakes(t, k);
      KeyHasItsByte(t, k);
    }
  }

  // --- The walk over the old table, one old slot at a time ---

  // The byte for old slot o in one half (base 0 or the old size) once slots below p are decided:
  // decided slots have their final byte, the others still the old one without tombstones.
  ghost function PartialByte<K, V>(t: Table<K, V>, base: nat, o: nat, p: nat): Byte
    requires o < |t.meta| && base + o < 2 * |t.meta|
  {
    if o < p then SplitByte(t, base + o) else if t.meta[o] == DELETED then EMPTY else t.meta[o]
  }

  // Deciding slot p clears its byte in every half that does not take its entry.
  lemma PartialStep<K, V>(t: Sound<K, V>, base: nat, o: nat, p: nat)
    requires o < |t.meta| && p < |t.meta| && (base == 0 || base == |t.meta|)
    ensures PartialByte(t, base, o, p + 1) == if o == p && !Takes(t, base + p) then EMPTY else PartialByte(t, base, o, p)
  {
    hide Table.Ok, NewSlot;
    if o == p && Takes(t, base + p) { OwnedIsPresent(t, p); }
  }

  lemma {:induction false} WalkSkip<K, V>(t: Sound<K, V>, p: nat, p': nat)
    requires p <= p' <= |t.meta| && forall x :: p <= x < p' ==> !IsPresent(t.meta[x])
    ensures ProbedList(t, p') == ProbedList(t, p) && CountPresent(t.meta, p') == CountPresent(t.meta, p)
  {
    hide Table.Ok, ProbedList, CountPresent;
    if p == p' {
    } else {
      WalkSkip(t, p, p' - 1);
      AbsentStep(t, p' - 1);
    }
  }

  lemma AbsentStep<K, V>(t: Sound<K, V>, p: nat)
    requires p < |t.meta| && !IsPresent(t.meta[p])
    ensures ProbedList(t, p + 1) == ProbedList(t, p) && CountPresent(t.meta, p + 1) == CountPresent(t.meta, p)
  {
    assert p !in t.owner by { if p in t.owner { OwnedIsPresent(t, p); } }
    hide Table.Ok, HomeSlot;
  }

  // Entries moved so far, for entries that are moved one by one.
  ghost predicate Moved<K, V>(t: Table<K, V>, ents: seq<Slot<K, V>>, p: nat)
    requires |ents| == 2 * |t.meta|
  {
    forall i :: 0 <= i < |ents| && Takes(t, i) && OldSlot(t, i) < p ==>
      OldSlot(t, i) < |t.ents| && ents[i] == t.ents[OldSlot(t, i)]
  }

  // Old entries that are still in place: undecided ones, and probed ones.
  ghost predicate Remains<K, V>(t: Table<K, V>, was: seq<Slot<K, V>>, p: nat)
  {
    |was| == |t.ents| && forall o :: 0 <= o < |was| && o in t.owner && (o >= p || !HomeSlot(t, o)) ==> was[o] == t.ents[o]
  }

  lemma RemainsAll<K, V>(t: Table<K, V>, p: nat)
    ensures Remains(t, t.ents, p)
  {}

  lemma RemainsAt<K, V>(t: Table<K, V>, was: seq<Slot<K, V>>, p: nat)
    requires Remains(t, was, p) && p < |was| && p in t.owner
    ensures was[p] == t.ents[p]
  {}

  lemma MovedStep<K, V>(t: Sound<K, V>, ents: seq<Slot<K, V>>, i: nat, p: nat)
    requires |ents| == 2 * |t.meta| && Moved(t, ents, p) && p < |t.meta| && p < |t.ents|
    requires Takes(t, i) && OldSlot(t, i) == p
    ensures Moved(t, ents[i := t.ents[p]], p + 1)
  {
    TakesIffHome(t, p);
    OnlyTaker(t, i, p);
    hide Table.Ok, Takes;
  }

  lemma OnlyTaker<K, V>(t: Sound<K, V>, i: nat, p: nat)
    requires p < |t.meta| && Takes(t, i) && OldSlot(t, i) == p
    ensures forall x :: 0 <= x < 2 * |t.meta| && Takes(t, x) && OldSlot(t, x) == p ==> x == i
  {
    TakesIffHome(t, p);
    hide Table.Ok, Takes;
    forall x | 0 <= x < 2 * |t.meta| && Takes(t, x) && OldSlot(t, x) == p ensures x == i {}
  }

  lemma RemainsStep<K, V>(t: Table<K, V>, was: seq<Slot<K, V>>, p: nat)
    requires Remains(t, was, p) && p < |was| && HomeSlot(t, p)
    ensures Remains(t, was[p := Raw], p + 1)
  {}

  lemma MoveSkip<K, V>(t: Sound<K, V>, ents: seq<Slot<K, V>>, was: seq<Slot<K, V>>, p: nat, p': nat)
    requires |ents| == 2 * |t.meta| && Moved(t, ents, p) && Remains(t, was, p)
    requires p <= p' <= |t.meta| && forall x :: p <= x < p' ==> !HomeSlot(t, x)
    ensures Moved(t, ents, p') && Remains(t, was, p')
  {
    hide Table.Ok, Takes, HomeSlot;
    SoundSize(t);
    forall i | 0 <= i < |ents| && Takes(t, i) && OldSlot(t, i) < p'
      ensures OldSlot(t, i) < |t.ents| && ents[i] == t.ents[OldSlot(t, i)]
    {
      TakesIffHome(t, OldSlot(t, i));
    }
  }

  // The masks of the source decide whether an entry is at home and which half takes it.
  lemma MasksDecide<K, V>(t: Sound<K, V>, gi: nat, o: nat)
    requires gi < |t.meta| && t.w.First(t.w.GroupOf(gi)) == gi && t.w.GroupOf(o) == t.w.GroupOf(gi) && o in t.owner
    ensures var x := HashIndex(t.hash(t.owner[o]));
            var oldHash := And(x, ProbeMaskFromSize(t.w, |t.meta|));
            var newIndex := And(x, ProbeMaskFromSize(t.w, 2 * |t.meta|));
            && (oldHash == gi <==> HomeSlot(t, o))
            && (oldHash == gi ==>
                && (newIndex == gi || newIndex == gi + |t.meta|)
                && (newIndex == gi <==> Takes(t, o))
                && (newIndex == gi + |t.meta| <==> Takes(t, o + |t.meta|)))
  {
    hide Table.Ok, And, ProbeMaskFromSize, IsPow2, IsTableSize, HomeKey, Table.Probed, Table.Groups, NewHome, Width.GroupOf;
    var k := t.owner[o];
    SoundSize(t);
    DoubledGroups(t.w, |t.meta|);
    GroupCount(t.w, |t.meta|);
    GroupsAre(t);
    OwnedIsPresent(t, o);
    MasksFindHomes(t, k);
    NewHomeIsOldHome(t, k);
  }

  // The masks of the two sizes lead to the first slots of the key's two home groups.
  lemma MasksFindHomes<K, V>(t: Sound<K, V>, k: K)
    ensures And(HashIndex(t.hash(k)), ProbeMaskFromSize(t.w, |t.meta|)) == t.w.First(t.Probed(k, 0))
    ensures And(HashIndex(t.hash(k)), ProbeMaskFromSize(t.w, 2 * |t.meta|)) == t.w.First(NewHome(t, k))
  {
    hide And, ProbeMaskFromSize, IsPow2;
    DoubledGroups(t.w, |t.meta|);
    ProbeMaskMeaning(t.w, HashIndex(t.hash(k)), |t.meta|);
    ProbeMaskMeaning(t.w, HashIndex(t.hash(k)), 2 * |t.meta|);
  }

  // --- One group of the walk ---

  // `bytes` is the group of one half at gi once slots below p are decided.
  ghost predicate HalfAt<K, V>(t: Table<K, V>, base: nat, gi: nat, bytes: seq<Byte>, p: nat)
    requires gi + t.w.Size() <= |t.meta| && (base == 0 || base == |t.meta|)
  {
    |bytes| == t.w.Size() && forall x :: 0 <= x < |bytes| ==> bytes[x] == PartialByte(t, base, gi + x, p)
  }

  lemma HalfStart<K, V>(t: Sound<K, V>, base: nat, gi: nat)
    requires gi + t.w.Size() <= |t.meta| && (base == 0 || base == |t.meta|)
    ensures HalfAt(t, base, gi, WithoutDeleted(t.Group(gi)), gi)
  {}

  lemma HalfStep<K, V>(t: Sound<K, V>, base: nat, gi: nat, bytes: seq<Byte>, b: nat)
    requires gi + t.w.Size() <= |t.meta| && (base == 0 || base == |t.meta|) && b < t.w.Size()
    requires HalfAt(t, base, gi, bytes, gi + b)
    ensures HalfAt(t, base, gi, if Takes(t, base + gi + b) then bytes else bytes[b := EMPTY], gi + b + 1)
  {
    hide Table.Ok, PartialByte, Takes;
    var r := if Takes(t, base + gi + b) then bytes else bytes[b := EMPTY];
    forall x | 0 <= x < |r| ensures r[x] == PartialByte(t, base, gi + x, gi + b + 1) {
      PartialStep(t, base, gi + x, gi + b);
      assert base + (gi + b) == base + gi + b;
    }
  }

  lemma HalfSkip<K, V>(t: Sound<K, V>, base: nat, gi: nat, bytes: seq<Byte>, p: nat, p': nat)
    requires gi + t.w.Size() <= |t.meta| && (base == 0 || base == |t.meta|)
    requires HalfAt(t, base, gi, bytes, p)
    requires p <= p' <= |t.meta| && forall x :: p <= x < p' ==> !IsPresent(t.meta[x])
    ensures HalfAt(t, base, gi, bytes, p')
  {}

  // Both halves have their final bytes for the old slots below p.
  ghost predicate Stored<K, V>(t: Table<K, V>, m: seq<Byte>, p: nat) {
    |m| == 2 * |t.meta| && forall i :: 0 <= i < |m| && OldSlot(t, i) < p ==> m[i] == SplitByte(t, i)
  }

  lemma StoredGroup<K, V>(t: Sound<K, V>, m: seq<Byte>, m': seq<Byte>, gi: nat, low: seq<Byte>, high: seq<Byte>)
    requires gi + t.w.Size() <= |t.meta| && Stored(t, m, gi) && |m'| == |m|
    requires HalfAt(t, 0, gi, low, gi + t.w.Size()) && HalfAt(t, |t.meta|, gi, high, gi + t.w.Size())
    requires m'[gi..gi + t.w.Size()] == low
    requires m'[|t.meta| + gi..|t.meta| + gi + t.w.Size()] == high
    requires forall i :: 0 <= i < |m| && OldSlot(t, i) < gi ==> m'[i] == m[i]
    ensures Stored(t, m', gi + t.w.Size())
  {
    hide Table.Ok, SplitByte;
    forall i | 0 <= i < |m'| && OldSlot(t, i) < gi + t.w.Size() ensures m'[i] == SplitByte(t, i) {
      if OldSlot(t, i) >= gi {
        if i < |t.meta| {
          assert m'[i] == low[i - gi] == PartialByte(t, 0, i, gi + t.w.Size());
        } else {
          var x := i - |t.meta| - gi;
          assert m'[i] == high[x] == PartialByte(t, |t.meta|, gi + x, gi + t.w.Size());
        }
      }
    }
  }

  // All groups are stored: the new metadata is the split.
  lemma StoredAll<K, V>(t: Table<K, V>, m: seq<Byte>)
    requires Stored(t, m, |t.meta|)
    ensures m == SplitMeta(t)
  {}

  lemma WalkStep<K, V>(t: Sound<K, V>, p: nat)
    requires p < |t.meta| && IsPresent(t.meta[p])
    ensures p in t.owner && CountPresent(t.meta, p + 1) == CountPresent(t.meta, p) + 1
    ensures ProbedList(t, p + 1)
         == if HomeSlot(t, p) then ProbedList(t, p) else ProbedList(t, p) + [(p, t.hash(t.owner[p]))]
  {}

  // Present bytes of a group, seen through the scan.
  lemma ScanGap<K, V>(t: Sound<K, V>, gi: nat, from: nat, next: nat)
    requires gi + t.w.Size() <= |t.meta| && from <= next <= t.w.Size()
    requires forall i :: from <= i < next ==> !AnyPresent.Accepts(t.Group(gi)[i])
    ensures forall x :: gi + from <= x < gi + next ==> !IsPresent(t.meta[x]) && !HomeSlot(t, x)
  {
    forall x | gi + from <= x < gi + next ensures !IsPresent(t.meta[x]) && !HomeSlot(t, x) {
      assert t.Group(gi)[x - gi] == t.meta[x];
    }
  }

  // Both halves of a group, the probed list and the count, at old slot p.
  ghost predicate GroupWalk<K, V>(t: Table<K, V>, gi: nat, low: seq<Byte>, high: seq<Byte>,
                                  probed: seq<(nat, HashCode)>, count: nat, p: nat)
    requires gi + t.w.Size() <= |t.meta| && p <= |t.meta|
  {
    && HalfAt(t, 0, gi, low, p) && HalfAt(t, |t.meta|, gi, high, p)
    && probed == ProbedList(t, p) && count == CountPresent(t.meta, p)
  }

  lemma GroupSizes<K, V>(t: Table<K, V>, gi: nat, low: seq<Byte>, high: seq<Byte>,
                         probed: seq<(nat, HashCode)>, count: nat, p: nat)
    requires gi + t.w.Size() <= |t.meta| && p <= |t.meta| && GroupWalk(t, gi, low, high, probed, count, p)
    ensures |low| == |high| == t.w.Size()
  {}

  lemma GroupSkip<K, V>(t: Sound<K, V>, gi: nat, low: seq<Byte>, high: seq<Byte>,
                        probed: seq<(nat, HashCode)>, count: nat, from: nat, next: nat)
    requires gi + t.w.Size() <= |t.meta| && from <= next <= t.w.Size()
    requires GroupWalk(t, gi, low, high, probed, count, gi + from)
    requires forall i :: from <= i < next ==> !AnyPresent.Accepts(t.Group(gi)[i])
    ensures GroupWalk(t, gi, low, high, probed, count, gi + next)
  {
    hide Table.Ok, HalfAt, ProbedList, CountPresent, HomeSlot;
    ScanGap(t, gi, from, next);
    HalfSkip(t, 0, gi, low, gi + from, gi + next);
    HalfSkip(t, |t.meta|, gi, high, gi + from, gi + next);
    WalkSkip(t, gi + from, gi + next);
  }

  // Deciding the entry at old slot gi + b.
  lemma GroupStep<K, V>(t: Sound<K, V>, gi: nat, low: seq<Byte>, high: seq<Byte>,
                        probed: seq<(nat, HashCode)>, count: nat, b: nat)
    requires gi + t.w.Size() <= |t.meta| && b < t.w.Size()
    requires GroupWalk(t, gi, low, high, probed, count, gi + b)
    requires AnyPresent.Accepts(t.Group(gi)[b])
    ensures gi + b in t.owner && |low| == |high| == t.w.Size()
    ensures GroupWalk(t, gi, if Takes(t, gi + b) then low else low[b := EMPTY],
                      if Takes(t, gi + b + |t.meta|) then high else high[b := EMPTY],
                      if HomeSlot(t, gi + b) then probed else probed + [(gi + b, t.hash(t.owner[gi + b]))],
                      count + 1, gi + b + 1)
  {
    hide Table.Ok, PartialByte, ProbedList, CountPresent, HomeSlot, Takes;
    assert t.Group(gi)[b] == t.meta[gi + b];
    assert 0 + gi + b == gi + b && |t.meta| + gi + b == gi + b + |t.meta|;
    HalfStep(t, 0, gi, low, b);
    HalfStep(t, |t.meta|, gi, high, b);
    WalkStep(t, gi + b);
  }

  lemma GroupStart<K, V>(t: Sound<K, V>, gi: nat)
    requires gi + t.w.Size() <= |t.meta|
    ensures GroupWalk(t, gi, WithoutDeleted(t.Group(gi)), WithoutDeleted(t.Group(gi)),
                      ProbedList(t, gi), CountPresent(t.meta, gi), gi)
  {
    HalfStart(t, 0, gi);
    HalfStart(t, |t.meta|, gi);
  }

  lemma FinishGroup<K, V>(t: Sound<K, V>, m: seq<Byte>, m': seq<Byte>, gi: nat, low: seq<Byte>, high: seq<Byte>,
                          probed: seq<(nat, HashCode)>, count: nat)
    requires gi + t.w.Size() <= |t.meta| && Stored(t, m, gi) && |m'| == |m|
    requires GroupWalk(t, gi, low, high, probed, count, gi + t.w.Size())
    requires m'[gi..gi + t.w.Size()] == low
    requires m'[|t.meta| + gi..|t.meta| + gi + t.w.Size()] == high
    requires forall i :: 0 <= i < |m| && OldSlot(t, i) < gi ==> m'[i] == m[i]
    ensures Stored(t, m', gi + t.w.Size())
    ensures probed == ProbedList(t, gi + t.w.Size()) && count == CountPresent(t.meta, gi + t.w.Size())
  {
    hide Table.Ok, Stored, HalfAt;
    StoredGroup(t, m, m', gi, low, high);
  }

  // --- Putting the probed entries back ---

  ghost function HomeKeys<K, V>(t: Table<K, V>): set<K> {
    set k | k in t.slotOf && HomeKey(t, k)
  }

  ghost predicate Owned<K, V>(t: Table<K, V>, slots: seq<(nat, HashCode)>) {
    forall x :: 0 <= x < |slots| ==> slots[x].0 in t.owner
  }

  // The keys of the first j entries of a list of old slots.
  ghost function KeysOf<K, V>(t: Table<K, V>, slots: seq<(nat, HashCode)>, j: nat): set<K>
    requires j <= |slots| && Owned(t, slots)
  {
    set x | 0 <= x < j :: t.owner[slots[x].0]
  }

  // Part-way through: the home keys sit where the split put them and the first j probed ones are back.
  ghost predicate Restored<K, V>(t: Table<K, V>, cur: Table<K, V>, slots: seq<(nat, HashCode)>, j: nat)
    requires j <= |slots| && Owned(t, slots)
  {
    && cur.w == t.w && cur.hash == t.hash && |cur.meta| == |cur.ents| == 2 * |t.meta|
    && cur.slotOf.Keys == HomeKeys(t) + KeysOf(t, slots, j)
    && (forall k :: k in cur.contents ==> k in t.contents && cur.contents[k] == t.contents[k])
    && (forall k :: k in t.slotOf && HomeKey(t, k) ==> k in cur.slotOf && cur.slotOf[k] == NewSlot(t, k))
    && (forall i :: 0 <= i < |cur.meta| ==> cur.meta[i] != DELETED)
    && Used(cur.meta) == Used(SplitMeta(t)) + j
  }

  // A key is put back in a slot of its own.
  ghost predicate AddsKey<K, V>(cur: Table<K, V>, next: Table<K, V>, key: K, v: V, i: nat)
  {
    && i < |cur.meta| && i < |cur.ents| && cur.meta[i] == EMPTY && key !in cur.slotOf
    && next == cur.Placed(key, i).Filled(key, i, v)
  }

  lemma SplitIsRestored<K, V>(t: Sound<K, V>, ents: seq<Slot<K, V>>)
    requires |ents| == 2 * |t.meta|
    ensures var slots := ProbedList(t, |t.meta|);
            && Owned(t, slots) && Restored(t, SplitTable(t, ents), slots, 0)
  {
    ProbedListIsExact(t, |t.meta|);
    forall i | 0 <= i < 2 * |t.meta| ensures SplitMeta(t)[i] != DELETED { SplitBytes(t, i); }
  }

  lemma RestoreOne<K, V>(t: Sound<K, V>, cur: Sound<K, V>, next: Table<K, V>, slots: seq<(nat, HashCode)>, j: nat, i: nat)
    requires j < |slots| && Owned(t, slots)
    requires Restored(t, cur, slots, j)
    requires t.owner[slots[j].0] in t.contents
    requires AddsKey(cur, next, t.owner[slots[j].0], t.contents[t.owner[slots[j].0]], i)
    ensures Restored(t, next, slots, j + 1)
  {
    hide Table.Ok, HomeKey, NewSlot, SplitMeta;
    UsedAfterUpdate(cur.meta, i, PresentByte(HashTag(t.hash(t.owner[slots[j].0]))));
    assert KeysOf(t, slots, j + 1) == KeysOf(t, slots, j) + {t.owner[slots[j].0]};
  }

  // The next probed key is neither at home nor back yet.
  lemma NextIsMissing<K, V>(t: Sound<K, V>, cur: Table<K, V>, slots: seq<(nat, HashCode)>, j: nat)
    requires slots == ProbedList(t, |t.meta|) && j < |slots| && Owned(t, slots) && Restored(t, cur, slots, j)
    ensures t.owner[slots[j].0] !in cur.slotOf
  {
    ProbedListIsExact(t, |t.meta|);
    hide ProbedList, NewSlot;
    var k := t.owner[slots[j].0];
    assert t.slotOf[k] == slots[j].0;
    forall x | 0 <= x < j ensures t.owner[slots[x].0] != k {
      assert slots[x].0 < slots[j].0 && t.slotOf[t.owner[slots[x].0]] == slots[x].0;
    }
  }

  // With every probed key back, every key is back.
  lemma AllRestored<K, V>(t: Sound<K, V>, cur: Sound<K, V>, slots: seq<(nat, HashCode)>)
    requires slots == ProbedList(t, |t.meta|) && Owned(t, slots) && Restored(t, cur, slots, |slots|)
    ensures cur.contents == t.contents
    ensures Used(cur.meta) == CountPresent(t.meta, |t.meta|)
  {
    hide *;
    RestoredMap(t, cur, slots);
    RestoredUse(t, cur, slots);
  }

  lemma RestoredUse<K, V>(t: Sound<K, V>, cur: Table<K, V>, slots: seq<(nat, HashCode)>)
    requires slots == ProbedList(t, |t.meta|) && Owned(t, slots) && Restored(t, cur, slots, |slots|)
    ensures Used(cur.meta) == CountPresent(t.meta, |t.meta|)
  {
    hide Table.Ok, ProbedList, SplitMeta;
    SplitUsed(t);
  }

  lemma RestoredMap<K, V>(t: Sound<K, V>, cur: Sound<K, V>, slots: seq<(nat, HashCode)>)
    requires slots == ProbedList(t, |t.meta|) && Owned(t, slots) && Restored(t, cur, slots, |slots|)
    ensures cur.contents == t.contents
  {
    SoundKeys(t);
    SoundKeys(cur);
    hide Table.Ok, HomeKey, NewSlot, SplitMeta, ProbedList;
    forall k | k in t.slotOf ensures k in cur.slotOf { EveryKeyIsBack(t, slots, k); }
    assert cur.contents.Keys == t.contents.Keys;
  }

  lemma EveryKeyIsBack<K, V>(t: Sound<K, V>, slots: seq<(nat, HashCode)>, k: K)
    requires slots == ProbedList(t, |t.meta|) && Owned(t, slots) && k in t.slotOf
    ensures k in HomeKeys(t) || k in KeysOf(t, slots, |slots|)
  {
    KeyHasItsByte(t, k);
    var o := t.slotOf[k];
    assert o in t.owner && t.owner[o] == k;
    if !HomeKey(t, k) {
      ProbedIsListed(t, slots, o);
    }
  }

  lemma ProbedIsListed<K, V>(t: Sound<K, V>, slots: seq<(nat, HashCode)>, o: nat)
    requires slots == ProbedList(t, |t.meta|) && Owned(t, slots)
    requires o < |t.meta| && o in t.owner && !HomeSlot(t, o)
    ensures t.owner[o] in KeysOf(t, slots, |slots|)
  {
    ProbedListIsExact(t, |t.meta|);
    hide Table.Ok, ProbedList;
    var x :| 0 <= x < |slots| && slots[x].0 == o;
    assert t.owner[slots[x].0] in KeysOf(t, slots, |slots|);
  }

  // The entries of the listed slots from the j-th on are still in the old storage.
  ghost predicate Pending<K, V>(t: Table<K, V>, slots: seq<(nat, HashCode)>, was: seq<Slot<K, V>>, j: nat) {
    forall x :: j <= x < |slots| ==>
      && slots[x].0 < |was| && slots[x].0 in t.owner && t.owner[slots[x].0] in t.contents
      && slots[x].1 == t.hash(t.owner[slots[x].0])
      && was[slots[x].0] == Live(t.owner[slots[x].0], t.contents[t.owner[slots[x].0]])
  }

  lemma ProbedEntries<K, V>(t: Sound<K, V>, slots: seq<(nat, HashCode)>, was: seq<Slot<K, V>>)
    requires slots == ProbedList(t, |t.meta|) && Remains(t, was, |t.meta|)
    ensures Pending(t, slots, was, 0)
  {
    ProbedListIsExact(t, |t.meta|);
    hide ProbedList;
    forall x | 0 <= x < |slots|
      ensures slots[x].0 < |was| && slots[x].0 in t.owner && t.owner[slots[x].0] in t.contents
      ensures was[slots[x].0] == Live(t.owner[slots[x].0], t.contents[t.owner[slots[x].0]])
    {
      var k := t.owner[slots[x].0];
      assert t.slotOf[k] == slots[x].0;
      KeyHasItsByte(t, k);
    }
  }

  // Moving the j-th entry leaves the later ones alone, whether or not its old bits are destroyed.
  lemma PendingStep<K, V>(t: Sound<K, V>, slots: seq<(nat, HashCode)>, was: seq<Slot<K, V>>, was': seq<Slot<K, V>>, j: nat)
    requires slots == ProbedList(t, |t.meta|) && j < |slots| && Pending(t, slots, was, j)
    requires slots[j].0 < |was| && (was' == was || was' == was[slots[j].0 := Raw])
    ensures Pending(t, slots, was', j + 1)
  {
    ProbedListIsExact(t, |t.meta|);
  }

  // There is room for every probed entry.
  lemma RoomForProbed<K, V>(t: Sound<K, V>, cur: Table<K, V>, slots: seq<(nat, HashCode)>, j: nat)
    requires slots == ProbedList(t, |t.meta|) && j < |slots| && Owned(t, slots) && Restored(t, cur, slots, j)
    ensures Used(cur.meta) < GrowthThreshold(|cur.meta|)
  {
    hide Table.Ok, ProbedList, SplitMeta;
    SplitUsed(t);
  }

  // Entries are in place for the split, whether they were moved one by one or copied in bulk.
  lemma SplitEntries<K, V>(t: Sound<K, V>, ents: seq<Slot<K, V>>)
    requires |ents| == 2 * |t.meta| && (Moved(t, ents, |t.meta|) || ents == t.ents + t.ents)
    ensures SplitTable(t, ents).Ok()
  {
    hide Table.Ok, Takes, SplitTable;
    SoundSize(t);
    SplitIsSound(t, ents);
  }

  // After doubling: the map is unchanged, there is budget again, and home entries are where one
  // more hash bit puts them.
  lemma GrownFacts<K, V>(t: Sound<K, V>, next: Sound<K, V>, slots: seq<(nat, HashCode)>, count: nat)
    requires slots == ProbedList(t, |t.meta|) && Owned(t, slots) && Restored(t, next, slots, |slots|)
    requires count == CountPresent(t.meta, |t.meta|)
    ensures next.contents == t.contents && |next.meta| == 2 * |t.meta|
    ensures Used(next.meta) == count < GrowthThreshold(2 * |t.meta|)
    ensures forall i :: 0 <= i < |next.meta| ==> next.meta[i] != DELETED
    ensures forall k :: k in t.slotOf && HomeKey(t, k) ==> k in next.slotOf && next.slotOf[k] == NewSlot(t, k)
  {
    hide Table.Ok, ProbedList, SplitMeta, HomeKey, NewSlot, CountPresent;
    AllRestored(t, next, slots);
    SplitUsed(t);
  }

  // --- Growing by more than a doubling: every entry is inserted again ---

  ghost function KeysBelow<K, V>(t: Table<K, V>, p: nat): set<K> {
    set k | k in t.slotOf && t.slotOf[k] < p
  }

  // The keys of old slots below p are in the new table.
  ghost predicate Rehashed<K, V>(t: Table<K, V>, cur: Table<K, V>, size: nat, p: nat)
    requires p <= |t.meta|
  {
    && cur.w == t.w && cur.hash == t.hash && |cur.meta| == |cur.ents| == size
    && cur.slotOf.Keys == KeysBelow(t, p)
    && (forall k :: k in cur.contents ==> k in t.contents && cur.contents[k] == t.contents[k])
    && (forall i :: 0 <= i < |cur.meta| ==> cur.meta[i] != DELETED)
    && Used(cur.meta) == CountPresent(t.meta, p)
  }

  ghost predicate RemainsFrom<K, V>(t: Table<K, V>, was: seq<Slot<K, V>>, p: nat) {
    |was| == |t.ents| && forall o :: p <= o < |was| && o in t.owner ==> was[o] == t.ents[o]
  }

  lemma RehashBegins<K, V>(t: Sound<K, V>, size: nat)
    requires IsTableSize(size)
    ensures Rehashed(t, EmptyTable(t.w, t.hash, size), size, 0)
  {
    var e: Table<K, V> := EmptyTable(t.w, t.hash, size);
    EmptyLayout(t.w, e.meta, t.hash);
  }

  lemma RehashSkip<K, V>(t: Sound<K, V>, cur: Table<K, V>, was: seq<Slot<K, V>>, size: nat, p: nat, p': nat)
    requires p <= p' <= |t.meta| && Rehashed(t, cur, size, p) && RemainsFrom(t, was, p)
    requires forall x :: p <= x < p' ==> !IsPresent(t.meta[x])
    ensures Rehashed(t, cur, size, p') && RemainsFrom(t, was, p')
  {
    WalkSkip(t, p, p');
    forall k | k in t.slotOf && t.slotOf[k] < p' ensures t.slotOf[k] < p {
      KeyHasItsByte(t, k);
    }
    assert KeysBelow(t, p') == KeysBelow(t, p);
  }

  // The next key to insert: its entry is still there and there is room for it.
  lemma RehashNext<K, V>(t: Sound<K, V>, cur: Table<K, V>, was: seq<Slot<K, V>>, size: nat, p: nat)
    requires p < |t.meta| <= size && IsPresent(t.meta[p]) && Rehashed(t, cur, size, p) && RemainsFrom(t, was, p)
    ensures p in t.owner && t.owner[p] in t.contents && t.owner[p] !in cur.slotOf
    ensures p < |was| && was[p] == Live(t.owner[p], t.contents[t.owner[p]])
    ensures Used(cur.meta) < GrowthThreshold(|cur.meta|)
  {
    hide Table.Ok, CountPresent, Used;
    PresentIsLive(t, p);
    KeyHasItsByte(t, t.owner[p]);
    RoomForNext(t, size, p);
  }

  lemma RoomForNext<K, V>(t: Sound<K, V>, size: nat, p: nat)
    requires p < |t.meta| <= size && IsPresent(t.meta[p])
    ensures CountPresent(t.meta, p) < GrowthThreshold(size)
  {
    hide Table.Ok;
    CountIsMonotone(t.meta, p + 1, |t.meta|);
    PresentBelowThreshold(t);
    ThresholdIsMonotone(|t.meta|, size);
  }

  lemma ThresholdIsMonotone(n: nat, m: nat)
    requires n <= m
    ensures GrowthThreshold(n) <= GrowthThreshold(m)
  {}

  lemma {:induction false} CountIsMonotone(meta: seq<Byte>, n: nat, m: nat)
    requires n <= m <= |meta|
    ensures CountPresent(meta, n) <= CountPresent(meta, m)
  {
    if n == m {
    } else {
      CountIsMonotone(meta, n, m - 1);
    }
  }

  lemma RehashOne<K, V>(t: Sound<K, V>, cur: Sound<K, V>, next: Table<K, V>, was: seq<Slot<K, V>>, was': seq<Slot<K, V>>,
                        size: nat, p: nat, i: nat)
    requires p < |t.meta| && IsPresent(t.meta[p]) && Rehashed(t, cur, size, p) && RemainsFrom(t, was, p)
    requires p in t.owner && t.owner[p] in t.contents
    requires AddsKey(cur, next, t.owner[p], t.contents[t.owner[p]], i)
    requires p < |was| && (was' == was || was' == was[p := Raw])
    ensures Rehashed(t, next, size, p + 1) && RemainsFrom(t, was', p + 1)
  {
    hide Table.Ok, ProbedList, CountPresent, KeysBelow, HomeSlot;
    UsedAfterUpdate(cur.meta, i, PresentByte(HashTag(t.hash(t.owner[p]))));
    BelowNext(t, p);
    WalkStep(t, p);
  }

  lemma BelowNext<K, V>(t: Sound<K, V>, p: nat)
    requires p in t.owner
    ensures KeysBelow(t, p + 1) == KeysBelow(t, p) + {t.owner[p]}
  {}

  lemma RehashedFacts<K, V>(t: Sound<K, V>, next: Sound<K, V>, size: nat)
    requires Rehashed(t, next, size, |t.meta|) && size >= 2 * |t.meta|
    ensures next.contents == t.contents
    ensures Used(next.meta) == CountPresent(t.meta, |t.meta|) < GrowthThreshold(size)
  {
    hide Table.Ok;
    SoundKeys(t);
    SoundKeys(next);
    AllBelow(t);
    PresentBelowThreshold(t);
    assert next.contents.Keys == t.contents.Keys;
  }

  lemma AllBelow<K, V>(t: Sound<K, V>)
    ensures KeysBelow(t, |t.meta|) == t.slotOf.Keys
  {}

  lemma PresentBelowThreshold<K, V>(t: Sound<K, V>)
    ensures CountPresent(t.meta, |t.meta|) <= GrowthThreshold(|t.meta|)
    ensures forall size :: size >= 2 * |t.meta| ==> GrowthThreshold(|t.meta|) < GrowthThreshold(size)
  {}

  lemma SplitFields<K, V>(t: Table<K, V>, ents: seq<Slot<K, V>>)
    ensures var s := SplitTable(t, ents); s.w == t.w && s.hash == t.hash && s.meta == SplitMeta(t) && s.ents == ents
  {}

  lemma RehashGap<K, V>(t: Sound<K, V>, cur: Table<K, V>, was: seq<Slot<K, V>>, size: nat, gi: nat, from: nat, next: nat)
    requires gi + t.w.Size() <= |t.meta| && from <= next <= t.w.Size()
    requires forall i :: from <= i < next ==> !AnyPresent.Accepts(t.Group(gi)[i])
    requires Rehashed(t, cur, size, gi + from) && RemainsFrom(t, was, gi + from)
    ensures Rehashed(t, cur, size, gi + next) && RemainsFrom(t, was, gi + next)
    ensures CountPresent(t.meta, gi + next) == CountPresent(t.meta, gi + from)
  {
    hide Table.Ok, Rehashed, RemainsFrom, CountPresent, ProbedList, HomeSlot;
    ScanGap(t, gi, from, next);
    RehashSkip(t, cur, was, size, gi + from, gi + next);
    WalkSkip(t, gi + from, gi + next);
  }

  lemma EmptyFields<K, V>(w: Width, hash: K -> HashCode, size: nat)
    requires IsTableSize(size)
    ensures var e: Table<K, V> := EmptyTable(w, hash, size);
            e.w == w && e.hash == hash && e.meta == seq(size, _ => EMPTY) && e.ents == seq(size, _ => Raw)
  {}

  // --- How far to grow for a number of insertions ---

  // llvm::NextPowerOf2: the least power of two strictly above x.
  function NextPowerOf2(x: nat): (p: nat)
    ensures IsPow2(p) && x < p && (x > 0 ==> p <= 2 * x)
  {
    if x == 0 then 1 else 2 * NextPowerOf2(x / 2)
  }

  function GrowTarget(usedBudget: nat, count: nat): nat {
    var budgetNeeded := usedBudget + count;
    NextPowerOf2(budgetNeeded + budgetNeeded / 7)
  }

  lemma {:induction false} NextPowerIsLeast(x: nat, p: nat)
    requires IsPow2(p) && p > x
    ensures p >= NextPowerOf2(x)
  {
    if x == 0 {
    } else {
      NextPowerIsLeast(x / 2, p / 2);
    }
  }

  // The target is the least table size with seven eighths of it above the need.
  lemma GrowTargetIsLeast(usedBudget: nat, count: nat, size: nat)
    requires IsPow2(size) && size >= 8
    ensures size >= GrowTarget(usedBudget, count) <==> 7 * size > 8 * (usedBudget + count)
  {
    var need := usedBudget + count;
    var q := size / 8;
    assert IsPow2(8);
    Pow2Divides(8, size);
    hide NextPowerOf2, IsPow2;
    SeventhMore(need, q);
    if size > need + need / 7 { NextPowerIsLeast(need + need / 7, size); }
  }

  lemma SeventhMore(need: nat, q: nat)
    ensures 8 * q > need + need / 7 <==> 7 * q > need
  {}

  // When the budget is not above `count`, the target is larger than the table and its threshold
  // covers the used slots and `count` more: the check in the source cannot fail.
  lemma GrowTargetIsEnough(size: nat, budget: nat, count: nat)
    requires IsTableSize(size) && budget <= GrowthThreshold(size) && count >= budget
    ensures var used := GrowthThreshold(size) - budget;
            var target := GrowTarget(used, count);
            IsPow2(target) && target > size && GrowthThreshold(target) > used + count
  {}

  lemma UsedBound<K, V>(t: Sound<K, V>)
    ensures IsTableSize(|t.meta|) && Used(t.meta) <= GrowthThreshold(|t.meta|)
    ensures CountPresent(t.meta, |t.meta|) <= Used(t.meta)
  {}
}
