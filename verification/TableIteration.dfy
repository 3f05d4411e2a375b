/** Iterating over the entries of a table (common/raw_hashtable.h:487-573, 1106-1250).

    A release build walks the groups in order. A debug build starts at any group
    and strides by any odd number of groups. Both are walks with a start and a
    stride (0 and 1 in a release build), and every such walk yields every
    present slot exactly once. */
module TableIteration {
  import opened Bits
  import opened Probe
  import opened MetadataGroup
  import opened TableLayout
  import opened RawHashtable

  // --- What a walk yields ---

  function Shifted(base: nat, offsets: seq<nat>): (r: seq<nat>)
    ensures |r| == |offsets| && forall i :: 0 <= i < |r| ==> r[i] == base + offsets[i]
  {
    seq(|offsets|, i requires 0 <= i < |offsets| => base + offsets[i])
  }

  // The present slots of group g, in order.
  function GroupSlots<K, V>(t: Table<K, V>, g: nat): seq<nat> {
    Shifted(t.w.First(g), MatchList(t.Group(t.w.First(g)), AnyPresent, 0))
  }

  // The slots yielded from the i-th visited group on.
  function WalkFrom<K, V>(t: Table<K, V>, start: nat, stride: nat, i: nat): seq<nat>
    decreases t.Groups() - i
  {
    if i >= t.Groups() then []
    else GroupSlots(t, StrideGroup(start, stride, t.Groups(), i)) + WalkFrom(t, start, stride, i + 1)
  }

  // --- Every present slot, exactly once ---

  lemma {:induction false} IncreasingHasNoDuplicates(s: seq<nat>, x: nat)
    requires forall i, j :: 0 <= i < j < |s| ==> s[i] < s[j]
    ensures multiset(s)[x] == if x in s then 1 else 0
  {
    if s == [] {
    } else {
      var a, b := s[..|s| - 1], s[|s| - 1];
      IncreasingHasNoDuplicates(a, x);
      assert s == a + [b];
      assert b !in a;
    }
  }

  lemma GroupSlotsCount<K, V>(t: Sound<K, V>, g: nat, x: nat)
    requires g < t.Groups()
    ensures multiset(GroupSlots(t, g))[x] == if x in t.owner && t.w.GroupOf(x) == g then 1 else 0
  {
    GroupInBounds(t, g);
    var first := t.w.First(g);
    var m := MatchList(t.Group(first), AnyPresent, 0);
    MatchListIsExact(t.Group(first), AnyPresent, 0);
    IncreasingHasNoDuplicates(GroupSlots(t, g), x);
    SameGroup(t.w, g, x);
    GroupSlotMember(t, g, x);
  }

  lemma GroupInBounds<K, V>(t: Sound<K, V>, g: nat)
    requires g < t.Groups()
    ensures t.w.First(g) + t.w.Size() <= |t.meta| == |t.ents|
  {}

  lemma GroupSlotMember<K, V>(t: Sound<K, V>, g: nat, x: nat)
    requires g < t.Groups()
    ensures x in GroupSlots(t, g) <==> x in t.owner && t.w.GroupOf(x) == g
  {
    OwnedIsPresent(t, x);
    hide Table.Ok, MatchList, ValidByte;
    GroupInBounds(t, g);
    SameGroup(t.w, g, x);
    var first := t.w.First(g);
    var bytes := t.Group(first);
    assert |bytes| == t.w.Size() && forall j :: 0 <= j < |bytes| ==> bytes[j] == t.meta[first + j];
    if x in GroupSlots(t, g) {
      var i :| 0 <= i < |GroupSlots(t, g)| && GroupSlots(t, g)[i] == x;
      MatchAt(bytes, AnyPresent, i);
    }
    if x in t.owner && t.w.GroupOf(x) == g {
      assert bytes[x - first] == t.meta[x];
      var i := IndexOfMatch(bytes, AnyPresent, x - first);
      assert GroupSlots(t, g)[i] == x;
    }
  }

  // The visit at which slot x's group is seen decides where x is still to come.
  lemma {:induction false} WalkCount<K, V>(t: Sound<K, V>, start: nat, stride: nat, i: nat, x: nat, visit: nat)
    requires stride % 2 == 1 && x in t.owner && IsPow2(t.Groups())
    requires visit < t.Groups() && StrideGroup(start, stride, t.Groups(), visit) == t.w.GroupOf(x)
    ensures multiset(WalkFrom(t, start, stride, i))[x] == if i <= visit then 1 else 0
    decreases t.Groups() - i
  {
    hide Table.Ok, GroupSlots, StrideGroup, IsPow2, Table.Groups;
    if i >= t.Groups() {
    } else {
      WalkCount(t, start, stride, i + 1, x, visit);
      GroupSlotsCount(t, StrideGroup(start, stride, t.Groups(), i), x);
      if i < visit {
        StrideDistinct(start, stride, t.Groups(), i, visit);
      } else if visit < i {
        StrideDistinct(start, stride, t.Groups(), visit, i);
      }
    }
  }

  lemma {:induction false} WalkSkipsOthers<K, V>(t: Sound<K, V>, start: nat, stride: nat, i: nat, x: nat)
    requires x !in t.owner
    ensures multiset(WalkFrom(t, start, stride, i))[x] == 0
    decreases t.Groups() - i
  {
    hide Table.Ok, GroupSlots, StrideGroup, Table.Groups;
    if i >= t.Groups() {
    } else {
      WalkSkipsOthers(t, start, stride, i + 1, x);
      GroupSlotsCount(t, StrideGroup(start, stride, t.Groups(), i), x);
    }
  }

  // Any start and any odd stride: each present slot is yielded exactly once and nothing else is.
  lemma WalkYieldsEachEntryOnce<K, V>(t: Sound<K, V>, start: nat, stride: nat, x: nat)
    requires stride % 2 == 1
    ensures multiset(WalkFrom(t, start, stride, 0))[x] == if x in t.owner then 1 else 0
  {
    SoundSize(t);
    GroupCount(t.w, |t.meta|);
    if x in t.owner {
      OwnerIsLive(t, x);
      GroupOfSlot(t, x);
      var visit := StrideCovers(start, stride, t.Groups(), t.w.GroupOf(x));
      WalkCount(t, start, stride, 0, x, visit);
    } else {
      WalkSkipsOthers(t, start, stride, 0, x);
    }
  }

  lemma GroupOfSlot<K, V>(t: Sound<K, V>, x: nat)
    requires x < |t.meta|
    ensures t.w.GroupOf(x) < t.Groups()
  {
    GroupCount(t.w, |t.meta|);
  }

  // A scrambled debug walk yields the same collection of slots as the in-order release walk.
  lemma DebugWalkIsRelease<K, V>(t: Sound<K, V>, start: nat, stride: nat)
    requires stride % 2 == 1
    ensures multiset(WalkFrom(t, start, stride, 0)) == multiset(WalkFrom(t, 0, 1, 0))
  {
    var a, b := multiset(WalkFrom(t, start, stride, 0)), multiset(WalkFrom(t, 0, 1, 0));
    forall x: nat ensures a[x] == b[x] {
      WalkYieldsEachEntryOnce(t, start, stride, x);
      WalkYieldsEachEntryOnce(t, 0, 1, x);
    }
    assert forall x :: a[x] == b[x];
  }

  // --- The traversal order of a range ---

  // Where a walk starts and how far it strides, both in slots.
  datatype Order = Order(startGroup: nat, step: nat)

  // The order a debug build draws from two entropy values.
  function DrawOrder(w: Width, size: nat, entropy0: nat, entropy1: nat): Order
    requires size > 0
  {
    var numGroups := w.GroupOf(size);
    var strideGroups := Or(if numGroups > 0 then And(entropy1, numGroups - 1) else 0, 1);
    Order(And(entropy0, ProbeMaskFromSize(w, size)), w.First(strideGroups))
  }

  // The order names a group of the table and an odd number of groups.
  ghost predicate OddOrder(w: Width, size: nat, o: Order) {
    && o.startGroup == w.First(w.GroupOf(o.startGroup)) && w.GroupOf(o.startGroup) < w.GroupOf(size)
    && o.step == w.First(w.GroupOf(o.step)) && w.GroupOf(o.step) % 2 == 1
  }

  lemma DrawnOrderIsOdd(w: Width, size: nat, entropy0: nat, entropy1: nat)
    requires IsTableSize(size)
    ensures OddOrder(w, size, DrawOrder(w, size, entropy0, entropy1))
  {
    ProbeMaskMeaning(w, entropy0, size);
    var stride := Or(And(entropy1, w.GroupOf(size) - 1), 1);
    OrOneIsOdd(And(entropy1, w.GroupOf(size) - 1));
    hide And, Or, ProbeMaskFromSize, IsTableSize;
    FirstOfGroup(w, w.GroupOf(entropy0) % w.GroupOf(size));
    FirstOfGroup(w, stride);
    hide Width.GroupOf, Width.First;
  }

  lemma FirstOfGroup(w: Width, g: nat)
    ensures w.GroupOf(w.First(g)) == g
  {}

  lemma OrOneIsOdd(a: nat)
    ensures Or(a, 1) % 2 == 1
  {}

  lemma StrideNext(start: nat, stride: nat, groups: nat, i: nat)
    requires groups > 0
    ensures (StrideGroup(start, stride, groups, i) + stride) % groups == StrideGroup(start, stride, groups, i + 1)
  {
    assert (i + 1) * stride == i * stride + stride;
    ModOfModPlus(start + i * stride, stride, groups);
  }

  lemma InOrderIsStrideOne(groups: nat, i: nat)
    requires i < groups
    ensures StrideGroup(0, 1, groups, i) == i
  {}

  // --- The iterator ---

  class EntryIterator<K(==), V> {
    const table: MapBase<K, V>
    const debug: bool
    const step: nat
    const probeMask: nat
    var groupIndex: nat       // debug: first slot of the current group
    var groupsRemaining: int  // debug: groups still to visit
    var groupOffset: int      // release: current group, counted up to zero from the end
    var presentBits: seq<nat> // matches of the current group still to come, the current one first

    ghost const t: Sound<K, V>
    ghost const start: nat
    ghost const stride: nat
    ghost var visit: nat

    // begin(): the first present entry in the given order.
    constructor (table: MapBase<K, V>, debug: bool, order: Order)
      requires table.Valid() && OddOrder(table.w, table.allocSize, order)
      ensures Valid() && this.table == table && t == table.Abs() && this.debug == debug && stride % 2 == 1
      ensures !debug ==> start == 0 && stride == 1
      ensures debug ==> start == table.w.GroupOf(order.startGroup) && stride == table.w.GroupOf(order.step)
      ensures Rest() == WalkFrom(t, start, stride, 0)
    {
      ghost var v: Sound<K, V> := table.Abs();
      this.table, this.debug, t := table, debug, v;
      groupIndex := order.startGroup;
      groupsRemaining := table.w.GroupOf(table.allocSize) - 1;
      probeMask := ProbeMaskFromSize(table.w, table.allocSize);
      step := if debug then order.step else table.w.Size();
      var size: int := table.allocSize;
      groupOffset := -size;
      presentBits := [];
      start := if debug then table.w.GroupOf(order.startGroup) else 0;
      stride := if debug then table.w.GroupOf(order.step) else 1;
      visit := 0;
      new;
      hide Table.Ok, MapBase.Abs, ProbeMaskFromSize, IsPow2, StrideGroup;
      SoundSize(v);
      FirstVisit(table.w, start, stride, v.Groups());
      Begin();
    }

    // Moves to the first present entry.
    method Begin()
      requires SameTable() && At() && visit == 0
      modifies this`groupIndex, this`groupsRemaining, this`groupOffset, this`presentBits, this`visit
      ensures Valid() && Rest() == WalkFrom(t, start, stride, 0)
    {
      hide Table.Ok, MapBase.Abs, ProbeMaskFromSize, IsPow2, StrideGroup, WalkFrom, GroupSlots, MatchList;
      LoadGroup();
      WalkStepFrom(t, start, stride, 0);
      if presentBits == [] { AdvanceToNextPresentGroup(); }
    }

    // The first slot of the current group.
    function GroupStart(): int
      reads this, table
    {
      if debug then groupIndex else table.allocSize + groupOffset
    }

    ghost predicate SameTable()
      reads this, table, table.metadata, table.entries
    {
      && table.Abs() == t && table.allocSize == table.metadata.Length
      && t.w == table.w && |t.meta| == table.allocSize
      && stride % 2 == 1 && step == t.w.First(stride)
      && probeMask == ProbeMaskFromSize(t.w, |t.meta|)
      && (!debug ==> start == 0 && stride == 1)
    }

    // Positioned at the group of the current visit.
    ghost predicate At()
      reads this, table
    {
      && visit < t.Groups()
      && GroupStart() == t.w.First(StrideGroup(start, stride, t.Groups(), visit))
      && (debug ==> groupsRemaining == t.Groups() - 1 - visit)
    }

    ghost predicate Valid()
      reads this, table, table.metadata, table.entries
    {
      SameTable() && (presentBits != [] ==> At())
    }

    // What is still to be yielded.
    ghost function Rest(): seq<nat>
      reads this, table
    {
      if presentBits == [] || GroupStart() < 0 then []
      else Shifted(GroupStart(), presentBits) + WalkFrom(t, start, stride, visit + 1)
    }

    predicate AtEnd()
      reads this
    {
      presentBits == []
    }

    lemma RestAtEnd()
      requires AtEnd()
      ensures Rest() == []
    {}

    // operator*: the slot of the current entry.
    method Deref() returns (slot: nat)
      requires Valid() && !AtEnd()
      ensures Rest() != [] && slot == Rest()[0]
    {
      hide Table.Ok, WalkFrom, StrideGroup;
      slot := GroupStart() + presentBits[0];
    }

    // operator++
    method Advance()
      requires Valid() && !AtEnd()
      modifies this
      ensures Valid() && old(Rest()) != [] && Rest() == old(Rest())[1..]
    {
      hide Table.Ok, WalkFrom, StrideGroup, MapBase.Abs, ProbeMaskFromSize;
      ghost var first, later := Shifted(GroupStart(), presentBits), WalkFrom(t, start, stride, visit + 1);
      presentBits := presentBits[1..];
      assert Shifted(GroupStart(), presentBits) == first[1..];
      assert (first + later)[1..] == first[1..] + later;
      if presentBits == [] {
        AdvanceToNextPresentGroup();
      }
    }

    method AdvanceToNextPresentGroup()
      requires SameTable() && At()
      modifies this`groupIndex, this`groupsRemaining, this`groupOffset, this`presentBits, this`visit
      ensures Valid() && Rest() == WalkFrom(t, start, stride, old(visit) + 1)
    {
      if debug { AdvanceDebug(); } else { AdvanceInOrder(); }
    }

    method AdvanceDebug()
      requires SameTable() && At() && debug
      modifies this`groupIndex, this`groupsRemaining, this`presentBits, this`visit
      ensures Valid() && Rest() == WalkFrom(t, start, stride, old(visit) + 1)
    {
      hide Table.Ok, WalkFrom, StrideGroup, MapBase.Abs, ProbeMaskFromSize;
      groupsRemaining := groupsRemaining - 1;
      while groupsRemaining >= 0
        invariant SameTable() && visit < t.Groups() && groupsRemaining == t.Groups() - 2 - visit
        invariant GroupStart() == t.w.First(StrideGroup(start, stride, t.Groups(), visit))
        invariant WalkFrom(t, start, stride, visit + 1) == WalkFrom(t, start, stride, old(visit) + 1)
        decreases groupsRemaining
      {
        StrideTo(groupIndex);
        groupIndex := And(groupIndex + step, probeMask);
        visit := visit + 1;
        LoadGroup();
        WalkStepFrom(t, start, stride, visit);
        if presentBits != [] { return; }
        groupsRemaining := groupsRemaining - 1;
      }
      presentBits := [];
      WalkEnds(t, start, stride, visit + 1);
    }

    // One masked stride leads to the next visited group.
    lemma StrideTo(gi: nat)
      requires SameTable() && visit + 1 < t.Groups()
      requires gi == t.w.First(StrideGroup(start, stride, t.Groups(), visit))
      ensures And(gi + step, probeMask) == t.w.First(StrideGroup(start, stride, t.Groups(), visit + 1))
    {
      hide Table.Ok, ProbeMaskFromSize, StrideGroup;
      SoundSize(t);
      StrideNext(start, stride, t.Groups(), visit);
      ProbeMaskMeaning(t.w, gi + step, |t.meta|);
      assert t.w.GroupOf(gi + step) == StrideGroup(start, stride, t.Groups(), visit) + stride;
    }

    method AdvanceInOrder()
      requires SameTable() && At() && !debug
      modifies this`groupOffset, this`presentBits, this`visit
      ensures Valid() && Rest() == WalkFrom(t, start, stride, old(visit) + 1)
    {
      hide Table.Ok, WalkFrom, MapBase.Abs, ProbeMaskFromSize, StrideGroup, IsTableSize, IsPow2, GroupSlots, MatchList;
      SoundSize(t);
      GroupCount(t.w, |t.meta|);
      InOrderIsStrideOne(t.Groups(), visit);
      groupOffset := groupOffset + table.w.Size();
      visit := visit + 1;
      while groupOffset != 0
        invariant SameTable() && visit <= t.Groups() && table.allocSize + groupOffset == t.w.First(visit)
        invariant WalkFrom(t, start, stride, visit) == WalkFrom(t, start, stride, old(visit) + 1)
        decreases t.Groups() - visit
      {
        InOrderIsStrideOne(t.Groups(), visit);
        LoadGroup();
        WalkStepFrom(t, start, stride, visit);
        if presentBits != [] { return; }
        groupOffset := groupOffset + table.w.Size();
        visit := visit + 1;
      }
      presentBits := [];
      WalkEnds(t, start, stride, visit);
    }

    // MatchPresent of the current group.
    method LoadGroup()
      requires SameTable() && visit < t.Groups()
      requires GroupStart() == t.w.First(StrideGroup(start, stride, t.Groups(), visit))
      modifies this`presentBits
      ensures SameTable()
      ensures Shifted(GroupStart(), presentBits) == GroupSlots(t, StrideGroup(start, stride, t.Groups(), visit))
    {
      hide Table.Ok, StrideGroup, MatchList;
      GroupInBounds(t, StrideGroup(start, stride, t.Groups(), visit));
      presentBits := MatchList(table.metadata[GroupStart()..GroupStart() + table.w.Size()], AnyPresent, 0);
    }
  }

  lemma WalkStepFrom<K, V>(t: Table<K, V>, start: nat, stride: nat, i: nat)
    requires i < t.Groups()
    ensures WalkFrom(t, start, stride, i)
         == GroupSlots(t, StrideGroup(start, stride, t.Groups(), i)) + WalkFrom(t, start, stride, i + 1)
  {}

  lemma WalkEnds<K, V>(t: Table<K, V>, start: nat, stride: nat, i: nat)
    requires i >= t.Groups()
    ensures WalkFrom(t, start, stride, i) == []
  {}

  lemma FirstVisit(w: Width, start: nat, stride: nat, groups: nat)
    requires start < groups
    ensures StrideGroup(start, stride, groups, 0) == start
  {}

  // A range-based for loop over the entries: yields the slots in the order of the walk.
  method ForEachEntry<K(==), V>(table: MapBase<K, V>, debug: bool, order: Order)
    returns (slots: seq<nat>, pairs: seq<(K, V)>, ghost start: nat, ghost stride: nat)
    requires table.Valid() && OddOrder(table.w, table.allocSize, order)
    ensures stride % 2 == 1 && slots == WalkFrom(table.Abs(), start, stride, 0)
    ensures debug ==> start == table.w.GroupOf(order.startGroup) && stride == table.w.GroupOf(order.step)
    ensures !debug ==> start == 0 && stride == 1
    ensures |pairs| == |slots| && Yielded(table.Abs(), slots, pairs)
  {
    ghost var t: Sound<K, V> := table.Abs();
    hide *;
    var it := new EntryIterator(table, debug, order);
    start, stride := it.start, it.stride;
    slots, pairs := [], [];
    NothingYielded(t);
    while !it.AtEnd()
      invariant fresh(it) && it.table == table && it.t == t && it.start == start && it.stride == stride && it.Valid()
      invariant slots + it.Rest() == WalkFrom(t, start, stride, 0)
      invariant |pairs| == |slots| && Yielded(t, slots, pairs)
      decreases |it.Rest()|
    {
      var i, e := TakeEntry(it, slots, t);
      YieldedOne(t, slots, pairs, i, e);
      pairs := pairs + [(e.key, e.value)];
      slots := slots + [i];
    }
    it.RestAtEnd();
  }

  lemma NothingYielded<K, V>(t: Table<K, V>)
    ensures Yielded(t, [], [])
  {}

  lemma YieldedOne<K, V>(t: Table<K, V>, slots: seq<nat>, pairs: seq<(K, V)>, i: nat, e: Slot<K, V>)
    requires |pairs| == |slots| && Yielded(t, slots, pairs)
    requires i in t.owner && t.owner[i] in t.contents && e == Live(t.owner[i], t.contents[t.owner[i]])
    ensures Yielded(t, slots + [i], pairs + [(e.key, e.value)])
  {}

  ghost predicate Yielded<K, V>(t: Table<K, V>, slots: seq<nat>, pairs: seq<(K, V)>)
    requires |pairs| == |slots|
  {
    forall j :: 0 <= j < |slots| ==>
      && slots[j] in t.owner && t.owner[slots[j]] in t.contents
      && pairs[j] == (t.owner[slots[j]], t.contents[t.owner[slots[j]]])
  }

  // One turn of the loop: the current entry, then on to the next.
  method TakeEntry<K(==), V>(it: EntryIterator<K, V>, ghost slots: seq<nat>, ghost t: Sound<K, V>)
    returns (i: nat, e: Slot<K, V>)
    requires it.Valid() && !it.AtEnd() && it.t == t && it.stride % 2 == 1
    requires slots + it.Rest() == WalkFrom(t, it.start, it.stride, 0)
    modifies it
    ensures it.Valid()
    ensures old(it.Rest()) != [] && slots + [i] + it.Rest() == WalkFrom(t, it.start, it.stride, 0)
    ensures |it.Rest()| < |old(it.Rest())|
    ensures i in t.owner && t.owner[i] in t.contents && e == Live(t.owner[i], t.contents[t.owner[i]])
  {
    hide Table.Ok, WalkFrom, EntryIterator.Rest, EntryIterator.At;
    ghost var rest := it.Rest();
    i := it.Deref();
    assert rest[0] in slots + rest;
    YieldedIsLive(t, it.start, it.stride, slots + rest, i);
    e := it.table.entries[i];
    it.Advance();
    assert rest == [i] + it.Rest();
    assert slots + ([i] + it.Rest()) == slots + [i] + it.Rest();
  }

  // A slot that a walk yields holds a constructed entry of the map.
  lemma YieldedIsLive<K, V>(t: Sound<K, V>, start: nat, stride: nat, all: seq<nat>, i: nat)
    requires stride % 2 == 1 && all == WalkFrom(t, start, stride, 0) && i in all
    ensures i in t.owner && i < |t.ents| && t.owner[i] in t.contents && t.ents[i] == Live(t.owner[i], t.contents[t.owner[i]])
  {
    WalkYieldsEachEntryOnce(t, start, stride, i);
    assert multiset(all)[i] > 0;
    OwnerIsLive(t, i);
    KeyHasItsByte(t, t.owner[i]);
  }

  // So a loop sees every key of the map exactly once and nothing else, whatever the order.
  lemma EachKeyOnce<K, V>(t: Sound<K, V>, start: nat, stride: nat)
    requires stride % 2 == 1
    ensures forall k :: k in t.contents ==> k in t.slotOf && multiset(WalkFrom(t, start, stride, 0))[t.slotOf[k]] == 1
    ensures forall x :: x in WalkFrom(t, start, stride, 0) ==>
              x in t.owner && t.owner[x] in t.contents && t.owner[x] in t.slotOf && t.slotOf[t.owner[x]] == x
  {
    hide Table.Ok, WalkFrom;
    SoundKeys(t);
    forall k | k in t.contents
      ensures k in t.slotOf && multiset(WalkFrom(t, start, stride, 0))[t.slotOf[k]] == 1
    {
      KeyIsOwner(t, k);
      WalkYieldsEachEntryOnce(t, start, stride, t.slotOf[k]);
    }
    forall x | x in WalkFrom(t, start, stride, 0)
      ensures x in t.owner && t.owner[x] in t.contents && t.owner[x] in t.slotOf && t.slotOf[t.owner[x]] == x
    {
      assert multiset(WalkFrom(t, start, stride, 0))[x] > 0;
      WalkYieldsEachEntryOnce(t, start, stride, x);
      OwnerHasSlot(t, x);
    }
  }
}
