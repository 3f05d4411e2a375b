/** What the metadata of a table means (common/raw_hashtable.h:54-122).

    `Layout` is the invariant of the open-addressing table: present bytes carry
    the tag of the key they own, no key owns two slots, and the probe sequence
    of a key passes no group with an empty slot before it reaches the key.
    The lemmas say how single byte changes keep it. */
module TableLayout {
  import opened Bits
  import opened Options
  import opened Probe
  import opened MetadataGroup

  type HashCode = h: nat | h < 0x1_0000_0000_0000_0000

  // HashCode::ExtractIndexAndTag<7>
  function HashIndex(h: HashCode): nat {
    h / 128
  }

  function HashTag(h: HashCode): Tag {
    h % 128
  }

  // Index and tag are the hash split in two.
  lemma IndexAndTag(h: HashCode)
    ensures HashIndex(h) * 128 + HashTag(h) == h
  {}

  // A slot's storage: raw memory, or a constructed key and value.
  datatype Slot<+K, +V> = Raw | Live(key: K, value: V)

  // --- Groups and probes ---

  ghost predicate HasEmpty(w: Width, meta: seq<Byte>, g: nat) {
    exists i :: 0 <= i < |meta| && w.GroupOf(i) == g && meta[i] == EMPTY
  }

  // The group a hash probes after j steps.
  function ProbeGroup(w: Width, size: nat, h: HashCode, j: nat): (g: nat)
    requires w.GroupOf(size) > 0
    ensures g < w.GroupOf(size)
  {
    GroupAt(w.GroupOf(HashIndex(h)), w.GroupOf(size), j)
  }

  // The first j probed groups are full: a lookup gets past them.
  ghost predicate PassesFirst(w: Width, meta: seq<Byte>, h: HashCode, j: nat)
    requires w.GroupOf(|meta|) > 0
  {
    forall t :: 0 <= t < j ==> !HasEmpty(w, meta, ProbeGroup(w, |meta|, h, t))
  }

  // A lookup for h inspects slot i at step j.
  ghost predicate ReachesAt(w: Width, meta: seq<Byte>, h: HashCode, i: nat, j: nat)
    requires w.GroupOf(|meta|) > 0
  {
    && j < w.GroupOf(|meta|)
    && ProbeGroup(w, |meta|, h, j) == w.GroupOf(i)
    && PassesFirst(w, meta, h, j)
  }

  ghost predicate Reaches(w: Width, meta: seq<Byte>, h: HashCode, i: nat)
    requires w.GroupOf(|meta|) > 0
  {
    exists j :: ReachesAt(w, meta, h, i, j)
  }

  lemma TableHasGroups(w: Width, size: nat)
    requires IsTableSize(size)
    ensures w.GroupOf(size) > 0
  {}

  // --- Non-empty slots and the load factor ---

  // 7/8 of the slots may be filled or deleted.
  function GrowthThreshold(size: nat): nat {
    size - size / 8
  }

  lemma SevenEighths(size: nat)
    requires IsTableSize(size)
    ensures 8 * GrowthThreshold(size) == 7 * size
  {
    Pow2Divides(8, size);
  }

  // The slots among the first n that are not empty.
  function CountNonEmpty(meta: seq<Byte>, n: nat): (c: nat)
    requires n <= |meta|
    ensures c <= n
  {
    if n == 0 then 0 else CountNonEmpty(meta, n - 1) + (if meta[n - 1] == EMPTY then 0 else 1)
  }

  function Used(meta: seq<Byte>): (c: nat)
    ensures c <= |meta|
  {
    CountNonEmpty(meta, |meta|)
  }

  lemma {:induction false} CountAfterUpdate(meta: seq<Byte>, i: nat, b: Byte, n: nat)
    requires i < |meta| && n <= |meta|
    ensures CountNonEmpty(meta[i := b], n)
         == CountNonEmpty(meta, n)
            + (if i < n && meta[i] == EMPTY && b != EMPTY then 1 else 0)
            - (if i < n && meta[i] != EMPTY && b == EMPTY then 1 else 0)
  {
    if n == 0 {
    } else {
      CountAfterUpdate(meta, i, b, n - 1);
    }
  }

  lemma UsedAfterUpdate(meta: seq<Byte>, i: nat, b: Byte)
    requires i < |meta|
    ensures Used(meta[i := b])
         == Used(meta) + (if meta[i] == EMPTY then 0 else -1) + (if b == EMPTY then 0 else 1)
  {
    CountAfterUpdate(meta, i, b, |meta|);
  }

  lemma {:induction false} FullCount(meta: seq<Byte>, n: nat)
    requires n <= |meta| && forall i :: 0 <= i < n ==> meta[i] != EMPTY
    ensures CountNonEmpty(meta, n) == n
  {
    if n == 0 {
    } else {
      FullCount(meta, n - 1);
    }
  }

  lemma {:induction false} EmptyCount(meta: seq<Byte>, n: nat)
    requires n <= |meta| && forall i :: 0 <= i < n ==> meta[i] == EMPTY
    ensures CountNonEmpty(meta, n) == 0
  {
    if n == 0 {
    } else {
      EmptyCount(meta, n - 1);
    }
  }

  // The slots among the first n with a certain byte.
  ghost function SlotsWith(meta: seq<Byte>, n: nat, b: Byte): set<nat>
    requires n <= |meta|
  {
    set i: nat | i < n && meta[i] == b
  }

  lemma SlotsWithStep(meta: seq<Byte>, n: nat, b: Byte)
    requires n < |meta|
    ensures |SlotsWith(meta, n + 1, b)| == |SlotsWith(meta, n, b)| + (if meta[n] == b then 1 else 0)
  {
    if meta[n] == b {
      assert SlotsWith(meta, n + 1, b) == SlotsWith(meta, n, b) + {n};
    } else {
      assert SlotsWith(meta, n + 1, b) == SlotsWith(meta, n, b);
    }
  }

  lemma NoSlots(meta: seq<Byte>, b: Byte)
    ensures SlotsWith(meta, 0, b) == {}
  {}

  lemma {:induction false} OthersAreEmpty(meta: seq<Byte>, n: nat)
    requires n <= |meta|
    ensures CountNonEmpty(meta, n) + |SlotsWith(meta, n, EMPTY)| == n
  {
    if n == 0 {
      NoSlots(meta, EMPTY);
    } else {
      OthersAreEmpty(meta, n - 1);
      SlotsWithStep(meta, n - 1, EMPTY);
    }
  }

  // The load factor leaves an empty slot.
  lemma SomeSlotIsEmpty(meta: seq<Byte>) returns (i: nat)
    requires |meta| >= 8 && Used(meta) <= GrowthThreshold(|meta|)
    ensures i < |meta| && meta[i] == EMPTY
  {
    if forall i :: 0 <= i < |meta| ==> meta[i] != EMPTY {
      FullCount(meta, |meta|);
    }
    i :| 0 <= i < |meta| && meta[i] == EMPTY;
  }

  // Every probe meets an empty slot before it runs out of groups.
  lemma ProbeMeetsEmpty(w: Width, meta: seq<Byte>, h: HashCode) returns (j: nat)
    requires IsTableSize(|meta|) && w.GroupOf(|meta|) > 0 && Used(meta) <= GrowthThreshold(|meta|)
    ensures j < w.GroupOf(|meta|) && HasEmpty(w, meta, ProbeGroup(w, |meta|, h, j))
  {
    var i := SomeSlotIsEmpty(meta);
    GroupCount(w, |meta|);
    j := ProbeCovers(w.GroupOf(HashIndex(h)), w.GroupOf(|meta|), w.GroupOf(i));
  }

  // --- The invariant ---

  ghost predicate Layout<K>(w: Width, meta: seq<Byte>, hash: K -> HashCode, owner: map<nat, K>, slotOf: map<K, nat>) {
    && IsTableSize(|meta|) && w.GroupOf(|meta|) > 0
    && (forall i :: 0 <= i < |meta| ==> ValidByte(meta[i]))
    && (forall i :: i in owner <==> 0 <= i < |meta| && IsPresent(meta[i]))
    && (forall i :: i in owner ==> owner[i] in slotOf && slotOf[owner[i]] == i)
    && (forall k :: k in slotOf ==> slotOf[k] in owner && owner[slotOf[k]] == k)
    && (forall i :: i in owner ==> meta[i] == PresentByte(HashTag(hash(owner[i]))))
    && (forall i :: i in owner ==> Reaches(w, meta, hash(owner[i]), i))
  }

  lemma EmptyLayout<K>(w: Width, meta: seq<Byte>, hash: K -> HashCode)
    requires IsTableSize(|meta|) && forall i :: 0 <= i < |meta| ==> meta[i] == EMPTY
    ensures Layout(w, meta, hash, map[], map[]) && Used(meta) == 0
  {
    TableHasGroups(w, |meta|);
    EmptyCount(meta, |meta|);
  }

  // Losing empty slots never hides an entry from its probe.
  lemma ReachesWithFewerEmpties(w: Width, meta: seq<Byte>, meta': seq<Byte>, h: HashCode, i: nat)
    requires |meta| == |meta'| && w.GroupOf(|meta|) > 0
    requires forall g :: HasEmpty(w, meta', g) ==> HasEmpty(w, meta, g)
    requires Reaches(w, meta, h, i)
    ensures Reaches(w, meta', h, i)
  {
    var j :| ReachesAt(w, meta, h, i, j);
    assert ReachesAt(w, meta', h, i, j);
  }

  lemma FillKeepsFull(w: Width, meta: seq<Byte>, i: nat, b: Byte, g: nat)
    requires i < |meta| && b != EMPTY && HasEmpty(w, meta[i := b], g)
    ensures HasEmpty(w, meta, g)
  {}

  // Storing a new key in a slot its probe reaches, be it empty or a tombstone.
  lemma LayoutInsert<K>(w: Width, meta: seq<Byte>, hash: K -> HashCode, owner: map<nat, K>, slotOf: map<K, nat>,
                        key: K, i: nat)
    requires Layout(w, meta, hash, owner, slotOf)
    requires key !in slotOf && i < |meta| && !IsPresent(meta[i]) && Reaches(w, meta, hash(key), i)
    ensures Layout(w, meta[i := PresentByte(HashTag(hash(key)))], hash, owner[i := key], slotOf[key := i])
  {
    var meta' := meta[i := PresentByte(HashTag(hash(key)))];
    forall g | HasEmpty(w, meta', g) ensures HasEmpty(w, meta, g) {
      FillKeepsFull(w, meta, i, meta'[i], g);
    }
    var owner', slotOf' := owner[i := key], slotOf[key := i];
    forall x | x in owner' ensures Reaches(w, meta', hash(owner'[x]), x) {
      ReachesWithFewerEmpties(w, meta, meta', hash(owner'[x]), x);
    }
  }

  // A slot may become empty only in a group that already has an empty slot.
  lemma EraseKeepsFull(w: Width, meta: seq<Byte>, i: nat, b: Byte, g: nat)
    requires i < |meta| && (b == EMPTY ==> HasEmpty(w, meta, w.GroupOf(i)))
    requires HasEmpty(w, meta[i := b], g)
    ensures HasEmpty(w, meta, g)
  {}

  lemma LayoutErase<K>(w: Width, meta: seq<Byte>, hash: K -> HashCode, owner: map<nat, K>, slotOf: map<K, nat>,
                       i: nat, b: Byte)
    requires Layout(w, meta, hash, owner, slotOf) && i in owner
    requires b == DELETED || (b == EMPTY && HasEmpty(w, meta, w.GroupOf(i)))
    ensures Layout(w, meta[i := b], hash, owner - {i}, slotOf - {owner[i]})
  {
    var meta' := meta[i := b];
    forall g | HasEmpty(w, meta', g) ensures HasEmpty(w, meta, g) {
      EraseKeepsFull(w, meta, i, b, g);
    }
    var owner', slotOf' := owner - {i}, slotOf - {owner[i]};
    forall x | x in owner' ensures Reaches(w, meta', hash(owner'[x]), x) {
      ReachesWithFewerEmpties(w, meta, meta', hash(owner'[x]), x);
    }
  }

  // --- A whole table as a value ---

  // The arrays of a table together with the map they represent.
  datatype Table<!K, V> = Table(w: Width, hash: K -> HashCode, meta: seq<Byte>, ents: seq<Slot<K, V>>,
                                owner: map<nat, K>, slotOf: map<K, nat>, contents: map<K, V>) {
    // Keys are laid out; the entry of every key of the map is constructed with its value.
    ghost predicate Ok() {
      && Layout(w, meta, hash, owner, slotOf)
      && |ents| == |meta|
      && Used(meta) <= GrowthThreshold(|meta|)
      && contents.Keys == slotOf.Keys
      && (forall k :: k in contents ==> ents[slotOf[k]] == Live(k, contents[k]))
    }

    // As Ok, but the entry of one key at slot i is still to be constructed.
    ghost predicate OkExcept(key: K, i: nat) {
      && Layout(w, meta, hash, owner, slotOf)
      && |ents| == |meta|
      && Used(meta) <= GrowthThreshold(|meta|)
      && key !in contents && slotOf.Keys == contents.Keys + {key} && slotOf[key] == i
      && (forall k :: k in contents ==> ents[slotOf[k]] == Live(k, contents[k]))
    }

    // The metadata gives slot i to a new key.
    ghost function Placed(key: K, i: nat): Table<K, V>
      requires i < |meta|
    {
      this.(meta := meta[i := PresentByte(HashTag(hash(key)))], owner := owner[i := key], slotOf := slotOf[key := i])
    }

    // The entry at slot i is constructed.
    ghost function Filled(key: K, i: nat, v: V): Table<K, V>
      requires i < |ents|
    {
      this.(ents := ents[i := Live(key, v)], contents := contents[key := v])
    }

    // The key at slot i is gone; the slot's byte becomes b and its storage e.
    ghost function Removed(key: K, i: nat, b: Byte, e: Slot<K, V>): Table<K, V>
      requires i < |meta| && i < |ents|
    {
      this.(meta := meta[i := b], ents := ents[i := e],
            owner := owner - {i}, slotOf := slotOf - {key}, contents := contents - {key})
    }

    function Groups(): nat {
      w.GroupOf(|meta|)
    }

    function TagQuery(key: K): Query {
      HasTag(HashTag(hash(key)))
    }

    // The metadata bytes of the group that starts at groupIndex.
    function Group(groupIndex: nat): seq<Byte> {
      if groupIndex + w.Size() <= |meta| then meta[groupIndex..groupIndex + w.Size()]
      else seq(w.Size(), _ => EMPTY)
    }

    // The slot of a key lies in the group that starts at groupIndex.
    predicate InGroup(key: K, groupIndex: nat) {
      key in slotOf && groupIndex <= slotOf[key] < groupIndex + w.Size()
    }

    // The group probed at step j, and its first slot.
    function Probed(key: K, j: nat): nat {
      if Groups() == 0 then 0 else ProbeGroup(w, |meta|, hash(key), j)
    }

    function ProbeIndex(key: K, j: nat): nat {
      w.First(Probed(key, j))
    }

    // The first n probed groups are full and none of them holds the key.
    ghost predicate Missed(key: K, n: nat) {
      forall j :: 0 <= j < n ==>
        !HasEmpty(w, meta, Probed(key, j)) && (key in slotOf ==> Probed(key, j) != w.GroupOf(slotOf[key]))
    }

    // Candidates whose key is compared in vain in the first n probed groups.
    function FailedBefore(key: K, n: nat): nat {
      if n == 0 then 0
      else FailedBefore(key, n - 1) + MatchCount(Group(ProbeIndex(key, n - 1)), TagQuery(key), w.Size())
    }

    // The first slot of the n-th probed group whose byte matches.
    function FirstIn(key: K, n: nat, q: Query): Option<nat> {
      var group := Group(ProbeIndex(key, n));
      var b := NextMatch(group, q, 0);
      if b < |group| then Some(ProbeIndex(key, n) + b) else None
    }

    // The first tombstone in the first n probed groups.
    function FirstDeleted(key: K, n: nat): Option<nat> {
      if n == 0 then None
      else if FirstDeleted(key, n - 1).Some? then FirstDeleted(key, n - 1)
      else FirstIn(key, n - 1, AnyDeleted)
    }

    // The probe for a key that is not there ends at the n-th group, the first one with an empty slot.
    ghost predicate EndsAt(key: K, n: nat) {
      && n < Groups() && HasEmpty(w, meta, Probed(key, n))
      && forall j :: 0 <= j < n ==> !HasEmpty(w, meta, Probed(key, j))
    }

    // A new key goes to the first tombstone on its path, else to the first empty slot.
    ghost predicate InsertsAt(key: K, n: nat, i: nat) {
      && i < |meta|
      && (match FirstDeleted(key, n + 1)
          case Some(d) => i == d && meta[i] == DELETED
          case None => FirstIn(key, n, AnyEmpty) == Some(i) && meta[i] == EMPTY)
    }

    // The work of a successful lookup: `nexts` steps of the probe, and every candidate of the
    // groups before plus those before the slot in its own group compared in vain.
    ghost predicate LookupWork(key: K, nexts: nat, failed: nat) {
      && key in slotOf && Groups() > 0
      && ReachesAt(w, meta, hash(key), slotOf[key], nexts)
      && InGroup(key, ProbeIndex(key, nexts))
      && failed == FailedBefore(key, nexts)
                   + MatchCount(Group(ProbeIndex(key, nexts)), TagQuery(key), slotOf[key] - ProbeIndex(key, nexts))
    }

    // `s` is walking the probe sequence of `key` in this table.
    ghost predicate Follows(s: ProbeSequence, key: K)
      reads s
    {
      s.Valid() && s.w == w && s.size == |meta| && s.start == HashIndex(hash(key))
    }
  }

  // A table in which everything is as it should be.
  type Sound<!K, V> = t: Table<K, V> | t.Ok() ghost witness EmptyTable(Eight, (k: K) => 0, 16)

  ghost function EmptyTable<K, V>(w: Width, hash: K -> HashCode, size: nat): (t: Table<K, V>)
    requires IsTableSize(size)
    ensures t.Ok()
  {
    var meta := seq(size, _ => EMPTY);
    EmptyLayout(w, meta, hash);
    Table(w, hash, meta, seq(size, _ => Raw), map[], map[], map[])
  }

  lemma SoundFacts<K, V>(t: Sound<K, V>, key: K)
    ensures IsTableSize(|t.meta|) && t.Groups() > 0 && |t.ents| == |t.meta|
    ensures t.contents.Keys == t.slotOf.Keys
    ensures t.Missed(key, 0)
  {}

  lemma SoundSize<K, V>(t: Sound<K, V>)
    ensures IsTableSize(|t.meta|) && IsPow2(|t.meta|) && |t.ents| == |t.meta|
  {}

  // The load factor: an eighth of the slots or more is empty.
  lemma EighthIsEmpty<K, V>(t: Sound<K, V>)
    ensures 8 * |SlotsWith(t.meta, |t.meta|, EMPTY)| >= |t.meta|
  {
    hide IsTableSize, SlotsWith;
    OthersAreEmpty(t.meta, |t.meta|);
    SevenEighths(|t.meta|);
  }

  lemma SoundKeys<K, V>(t: Sound<K, V>)
    ensures t.contents.Keys == t.slotOf.Keys
  {}

  lemma KeyIsOwner<K, V>(t: Sound<K, V>, key: K)
    requires key in t.slotOf
    ensures t.slotOf[key] in t.owner && t.owner[t.slotOf[key]] == key
  {}

  lemma OwnerHasSlot<K, V>(t: Sound<K, V>, i: nat)
    requires i in t.owner
    ensures t.owner[i] in t.slotOf && t.slotOf[t.owner[i]] == i
  {}

  lemma OwnedIsPresent<K, V>(t: Sound<K, V>, i: nat)
    ensures i in t.owner <==> i < |t.meta| && IsPresent(t.meta[i])
  {}

  // A slot whose byte carries a tag holds a constructed entry, owned by its key.
  lemma PresentIsLive<K, V>(t: Sound<K, V>, i: nat)
    requires i < |t.meta| && IsPresent(t.meta[i])
    ensures |t.ents| == |t.meta| && t.ents[i].Live?
    ensures t.ents[i].key in t.slotOf && t.slotOf[t.ents[i].key] == i
    ensures i in t.owner && t.owner[i] == t.ents[i].key
  {
    assert i in t.owner && t.owner[i] in t.slotOf;
  }

  lemma OwnerIsLive<K, V>(t: Sound<K, V>, i: nat)
    requires i in t.owner
    ensures i < |t.meta| == |t.ents| && IsPresent(t.meta[i]) && t.ents[i].Live? && t.ents[i].key == t.owner[i]
  {
    PresentIsLive(t, i);
  }

  lemma KeyHasItsByte<K, V>(t: Sound<K, V>, key: K)
    requires key in t.slotOf
    ensures t.slotOf[key] < |t.meta| == |t.ents| && t.Groups() > 0 && key in t.contents
    ensures t.meta[t.slotOf[key]] == PresentByte(HashTag(t.hash(key)))
    ensures Reaches(t.w, t.meta, t.hash(key), t.slotOf[key])
    ensures t.ents[t.slotOf[key]] == Live(key, t.contents[key])
  {
    assert t.slotOf[key] in t.owner;
    assert key in t.contents;
  }

  // A key stored in the group is not stepped over by a scan for its tag.
  lemma KeyIsCandidate<K, V>(t: Sound<K, V>, key: K, groupIndex: nat, from: nat)
    requires groupIndex + t.w.Size() <= |t.meta| && from <= t.w.Size()
    ensures t.InGroup(key, groupIndex) && groupIndex + from <= t.slotOf[key]
            ==> NextMatch(t.Group(groupIndex), t.TagQuery(key), from) <= t.slotOf[key] - groupIndex
  {
    if t.InGroup(key, groupIndex) && groupIndex + from <= t.slotOf[key] {
      KeyHasItsByte(t, key);
      assert t.Group(groupIndex)[t.slotOf[key] - groupIndex] == t.meta[t.slotOf[key]];
    }
  }

  lemma CandidateIsLive<K, V>(t: Sound<K, V>, key: K, groupIndex: nat, b: nat)
    requires groupIndex + t.w.Size() <= |t.meta| && b < t.w.Size()
    requires t.TagQuery(key).Accepts(t.Group(groupIndex)[b])
    ensures |t.ents| == |t.meta| && t.ents[groupIndex + b].Live?
    ensures t.ents[groupIndex + b].key == key <==> t.InGroup(key, groupIndex) && t.slotOf[key] == groupIndex + b
  {
    hide Table.Ok;
    var i := groupIndex + b;
    assert t.Group(groupIndex)[b] == t.meta[i];
    PresentIsLive(t, i);
    OwnerHasSlot(t, i);
    if t.InGroup(key, groupIndex) && t.slotOf[key] == i { KeyIsOwner(t, key); }
  }

  // --- Probing for a key ---

  lemma ProbeInBounds<K, V>(t: Sound<K, V>, key: K, j: nat)
    ensures t.Groups() > 0 && t.Probed(key, j) == ProbeGroup(t.w, |t.meta|, t.hash(key), j)
    ensures t.ProbeIndex(key, j) + t.w.Size() <= |t.meta| == |t.ents|
    ensures t.w.GroupOf(t.ProbeIndex(key, j)) == t.Probed(key, j)
  {}

  lemma SameGroup(w: Width, g: nat, i: nat)
    ensures w.GroupOf(i) == g <==> w.First(g) <= i < w.First(g) + w.Size()
  {}

  // The scan for an empty slot answers whether the group has one.
  lemma EmptyScan<K, V>(t: Sound<K, V>, key: K, j: nat)
    ensures NextMatch(t.Group(t.ProbeIndex(key, j)), AnyEmpty, 0) < t.w.Size() <==> HasEmpty(t.w, t.meta, t.Probed(key, j))
  {
    ProbeInBounds(t, key, j);
    GroupEmptyScan(t.w, t.meta, t.ProbeIndex(key, j), t.Probed(key, j));
  }

  lemma GroupEmptyScan(w: Width, meta: seq<Byte>, gi: nat, g: nat)
    requires gi == w.First(g) && gi + w.Size() <= |meta|
    ensures NextMatch(meta[gi..gi + w.Size()], AnyEmpty, 0) < w.Size() <==> HasEmpty(w, meta, g)
  {}

  lemma ProbeEnds<K, V>(t: Sound<K, V>, key: K, n: nat)
    requires t.Missed(key, n) && HasEmpty(t.w, t.meta, t.Probed(key, n))
    ensures t.EndsAt(key, n)
  {
    MoreGroups(t, key, n);
  }

  // An empty slot of the group where the probe ends, and the first one at that.
  lemma FirstEmpty<K, V>(t: Sound<K, V>, key: K, n: nat, e: nat)
    requires e == NextMatch(t.Group(t.ProbeIndex(key, n)), AnyEmpty, 0) && e < t.w.Size()
    ensures t.FirstIn(key, n, AnyEmpty) == Some(t.ProbeIndex(key, n) + e) && HasEmpty(t.w, t.meta, t.Probed(key, n))
  {
    hide Table.Ok, HasEmpty, NextMatch;
    ProbeInBounds(t, key, n);
    EmptyScan(t, key, n);
  }

  lemma NothingProbed<K, V>(t: Table<K, V>, key: K)
    ensures t.FailedBefore(key, 0) == 0 && t.FirstDeleted(key, 0) == None
  {}

  lemma FailedStep<K, V>(t: Table<K, V>, key: K, n: nat)
    ensures t.FailedBefore(key, n + 1) == t.FailedBefore(key, n) + MatchCount(t.Group(t.ProbeIndex(key, n)), t.TagQuery(key), t.w.Size())
  {
    hide MatchCount;
  }

  lemma FirstDeletedStep<K, V>(t: Table<K, V>, key: K, n: nat)
    ensures t.FirstDeleted(key, n + 1)
         == if t.FirstDeleted(key, n).Some? then t.FirstDeleted(key, n) else t.FirstIn(key, n, AnyDeleted)
  {}

  lemma MissOneMore<K, V>(t: Sound<K, V>, key: K, n: nat)
    requires t.Missed(key, n)
    requires !t.InGroup(key, t.ProbeIndex(key, n)) && !HasEmpty(t.w, t.meta, t.Probed(key, n))
    ensures t.Missed(key, n + 1)
  {}

  lemma NotInGroup<K, V>(t: Sound<K, V>, key: K, n: nat)
    requires key !in t.slotOf
    ensures !t.InGroup(key, t.ProbeIndex(key, n))
  {}

  // While the groups seen so far are full there is another group to try.
  lemma MoreGroups<K, V>(t: Sound<K, V>, key: K, n: nat)
    requires t.Missed(key, n)
    ensures n < t.Groups()
  {
    var j := ProbeMeetsEmpty(t.w, t.meta, t.hash(key));
    ProbeInBounds(t, key, j);
  }

  // A group with an empty slot ends the search.
  lemma EmptyEndsSearch<K, V>(t: Sound<K, V>, key: K, n: nat)
    requires t.Missed(key, n)
    requires !t.InGroup(key, t.ProbeIndex(key, n)) && HasEmpty(t.w, t.meta, t.Probed(key, n))
    ensures key !in t.slotOf
  {
    if key in t.slotOf {
      KeyHasItsByte(t, key);
      var j :| ReachesAt(t.w, t.meta, t.hash(key), t.slotOf[key], j);
      SearchedBefore(t, key, n, j);
    }
  }

  // A key is not reached at a step already searched, nor past a group with an empty slot.
  lemma SearchedBefore<K, V>(t: Sound<K, V>, key: K, n: nat, j: nat)
    requires t.Groups() > 0 && t.Missed(key, n) && !t.InGroup(key, t.ProbeIndex(key, n))
    requires HasEmpty(t.w, t.meta, t.Probed(key, n))
    requires key in t.slotOf
    ensures !ReachesAt(t.w, t.meta, t.hash(key), t.slotOf[key], j)
  {
    assert t.Probed(key, j) == ProbeGroup(t.w, |t.meta|, t.hash(key), j);
    assert t.Probed(key, n) == ProbeGroup(t.w, |t.meta|, t.hash(key), n);
    SameGroup(t.w, t.Probed(key, n), t.slotOf[key]);
  }

  // A key found in the group probed at step n is reached at step n.
  lemma FoundAtStep<K, V>(t: Sound<K, V>, key: K, n: nat, failed: nat)
    requires t.Missed(key, n) && t.InGroup(key, t.ProbeIndex(key, n))
    requires failed == MatchCount(t.Group(t.ProbeIndex(key, n)), t.TagQuery(key),
                                  t.slotOf[key] - t.ProbeIndex(key, n))
    ensures t.LookupWork(key, n, t.FailedBefore(key, n) + failed)
  {
    MoreGroups(t, key, n);
    SameGroup(t.w, t.Probed(key, n), t.slotOf[key]);
    forall j | 0 <= j < n ensures !HasEmpty(t.w, t.meta, ProbeGroup(t.w, |t.meta|, t.hash(key), j)) {
      assert !HasEmpty(t.w, t.meta, t.Probed(key, j));
    }
  }

  lemma FollowsIndex<K, V>(t: Table<K, V>, s: ProbeSequence, key: K)
    requires t.Follows(s, key)
    ensures s.Index() == t.ProbeIndex(key, s.taken) && s.taken < t.Groups()
  {}

  lemma ReachesInGroup<K, V>(t: Sound<K, V>, key: K, n: nat, i: nat)
    requires t.Missed(key, n) && t.ProbeIndex(key, n) <= i < t.ProbeIndex(key, n) + t.w.Size()
    ensures t.Groups() > 0 && Reaches(t.w, t.meta, t.hash(key), i)
  {
    MoreGroups(t, key, n);
    SameGroup(t.w, t.Probed(key, n), i);
    forall j | 0 <= j < n ensures !HasEmpty(t.w, t.meta, ProbeGroup(t.w, |t.meta|, t.hash(key), j)) {
      assert !HasEmpty(t.w, t.meta, t.Probed(key, j));
    }
    assert ReachesAt(t.w, t.meta, t.hash(key), i, n);
  }

  // --- How single changes keep a table sound ---

  lemma PlacedIsOkExcept<K, V>(t: Sound<K, V>, key: K, i: nat)
    requires key !in t.contents && i < |t.meta| && !IsPresent(t.meta[i])
    requires t.Groups() > 0 && Reaches(t.w, t.meta, t.hash(key), i)
    requires t.meta[i] == EMPTY ==> Used(t.meta) < GrowthThreshold(|t.meta|)
    ensures t.Placed(key, i).OkExcept(key, i)
    ensures Used(t.Placed(key, i).meta) == Used(t.meta) + (if t.meta[i] == EMPTY then 1 else 0)
  {
    LayoutInsert(t.w, t.meta, t.hash, t.owner, t.slotOf, key, i);
    UsedAfterUpdate(t.meta, i, PresentByte(HashTag(t.hash(key))));
  }

  lemma FilledIsOk<K, V>(t: Table<K, V>, key: K, i: nat, v: V)
    requires t.OkExcept(key, i)
    ensures i < |t.ents| && t.Filled(key, i, v).Ok()
  {
    assert i in t.owner;
    assert forall k :: k in t.contents ==> t.slotOf[k] in t.owner && t.slotOf[k] != i;
  }

  // The value of a present key is replaced in place.
  lemma RefilledIsOk<K, V>(t: Sound<K, V>, key: K, v: V)
    requires key in t.contents
    ensures key in t.slotOf && t.slotOf[key] < |t.ents| && t.Filled(key, t.slotOf[key], v).Ok()
  {
    KeyHasItsByte(t, key);
    assert forall k :: k in t.contents && k != key ==> t.slotOf[k] in t.owner && t.slotOf[k] != t.slotOf[key];
  }

  lemma RemovedIsOk<K, V>(t: Sound<K, V>, key: K, b: Byte, e: Slot<K, V>)
    requires key in t.slotOf
    requires b == DELETED || (b == EMPTY && HasEmpty(t.w, t.meta, t.w.GroupOf(t.slotOf[key])))
    ensures t.slotOf[key] < |t.meta| == |t.ents|
    ensures t.Removed(key, t.slotOf[key], b, e).Ok()
    ensures Used(t.meta[t.slotOf[key] := b]) == Used(t.meta) - (if b == EMPTY then 1 else 0)
  {
    hide Layout, Used, GrowthThreshold, HasEmpty;
    KeyHasItsByte(t, key);
    KeyIsOwner(t, key);
    var i := t.slotOf[key];
    LayoutErase(t.w, t.meta, t.hash, t.owner, t.slotOf, i, b);
    LessUsed(t.meta, i, b);
    forall k | k in t.contents && k != key ensures t.slotOf[k] < |t.ents| && t.slotOf[k] != i {
      KeyHasItsByte(t, k);
      KeyIsOwner(t, k);
    }
  }

  lemma LessUsed(meta: seq<Byte>, i: nat, b: Byte)
    requires i < |meta| && IsPresent(meta[i]) && (b == DELETED || b == EMPTY)
    ensures Used(meta[i := b]) == Used(meta) - (if b == EMPTY then 1 else 0)
  {
    UsedAfterUpdate(meta, i, b);
  }

  lemma GroupStartOf(w: Width, size: nat, i: nat)
    requires IsTableSize(size) && i < size
    ensures AndNot(i, w.Size() - 1) == w.First(w.GroupOf(i)) && w.First(w.GroupOf(i)) + w.Size() <= size
  {
    AndNotLowMask(i, w.Size());
    GroupCount(w, size);
  }

  lemma AllEmptyIsOk<K, V>(t: Table<K, V>)
    requires IsTableSize(|t.meta|) && |t.ents| == |t.meta| && forall i :: 0 <= i < |t.meta| ==> t.meta[i] == EMPTY
    requires t.owner == map[] && t.slotOf == map[] && t.contents == map[]
    ensures t.Ok() && Used(t.meta) == 0
  {
    EmptyLayout(t.w, t.meta, t.hash);
  }

  // A slot-by-slot copy that takes over the entries of present slots is sound.
  lemma CopiedIsOk<K, V>(t: Sound<K, V>, ents: seq<Slot<K, V>>)
    requires |ents| == |t.meta| == |t.ents|
    requires forall i :: 0 <= i < |ents| && IsPresent(t.meta[i]) ==> ents[i] == t.ents[i]
    ensures t.(ents := ents).Ok()
  {}
}
