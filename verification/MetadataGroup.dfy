/** Groups of metadata bytes (common/raw_hashtable_metadata_group.h).

    First the byte-level meaning that the table relies on: which byte values
    exist and what a scan of a group for the next match returns. Then the
    8-byte group as one 64-bit word, with the bit tricks the source uses, and
    the proof that stepping through the word gives exactly the byte-level scan. */
module MetadataGroup {
  import opened Bits

  // --- Byte level ---

  const EMPTY: Byte := 0
  const DELETED: Byte := 1
  const PRESENT_MASK: Byte := 128

  type Tag = t: nat | t < 128

  predicate IsPresent(b: Byte) {
    b >= PRESENT_MASK
  }

  // The only values a table ever stores.
  predicate ValidByte(b: Byte) {
    b == EMPTY || b == DELETED || IsPresent(b)
  }

  // tag | PresentMask
  function PresentByte(tag: Tag): (b: Byte)
    ensures IsPresent(b)
  {
    tag + PRESENT_MASK
  }

  // What a scan looks for.
  datatype Query = HasTag(tag: Tag) | AnyPresent | AnyEmpty | AnyDeleted {
    predicate Accepts(b: Byte) {
      match this
      case HasTag(t) => b == PresentByte(t)
      case AnyPresent => IsPresent(b)
      case AnyEmpty => b == EMPTY
      case AnyDeleted => b == DELETED
    }
  }

  // The first match at or after `from`; the group's length when there is none.
  function NextMatch(bytes: seq<Byte>, q: Query, from: nat): (r: nat)
    requires from <= |bytes|
    ensures from <= r <= |bytes|
    ensures forall i :: from <= i < r ==> !q.Accepts(bytes[i])
    ensures r < |bytes| ==> q.Accepts(bytes[r])
    decreases |bytes| - from
  {
    if from == |bytes| then from
    else if q.Accepts(bytes[from]) then from
    else NextMatch(bytes, q, from + 1)
  }

  // All matches at or after `from`, in increasing order.
  function MatchList(bytes: seq<Byte>, q: Query, from: nat): seq<nat>
    requires from <= |bytes|
    decreases |bytes| - from
  {
    if from == |bytes| then []
    else if q.Accepts(bytes[from]) then [from] + MatchList(bytes, q, from + 1)
    else MatchList(bytes, q, from + 1)
  }

  // The list holds exactly the matching positions, strictly increasing.
  lemma {:induction false} MatchListIsExact(bytes: seq<Byte>, q: Query, from: nat)
    requires from <= |bytes|
    ensures var r := MatchList(bytes, q, from);
            && (forall b :: b in r <==> from <= b < |bytes| && q.Accepts(bytes[b]))
            && (forall i, j :: 0 <= i < j < |r| ==> r[i] < r[j])
    decreases |bytes| - from
  {
    hide Query.Accepts;
    if from == |bytes| {
    } else {
      MatchListIsExact(bytes, q, from + 1);
      var rest := MatchList(bytes, q, from + 1);
      if q.Accepts(bytes[from]) { InFront(from, rest); }
    }
  }

  lemma InFront(from: nat, rest: seq<nat>)
    requires forall b :: b in rest ==> from < b
    requires forall i, j :: 0 <= i < j < |rest| ==> rest[i] < rest[j]
    ensures var r := [from] + rest; forall i, j :: 0 <= i < j < |r| ==> r[i] < r[j]
    ensures forall b :: b in [from] + rest <==> b == from || b in rest
  {
    var r := [from] + rest;
    forall i, j | 0 <= i < j < |r| ensures r[i] < r[j] {
      assert r[j] == rest[j - 1] && rest[j - 1] in rest;
      if i > 0 { assert r[i] == rest[i - 1]; }
    }
  }

  lemma MatchAt(bytes: seq<Byte>, q: Query, i: nat)
    requires i < |MatchList(bytes, q, 0)|
    ensures var j := MatchList(bytes, q, 0)[i]; j < |bytes| && q.Accepts(bytes[j])
  {
    hide MatchList;
    MatchListIsExact(bytes, q, 0);
    assert MatchList(bytes, q, 0)[i] in MatchList(bytes, q, 0);
  }

  lemma IndexOfMatch(bytes: seq<Byte>, q: Query, j: nat) returns (i: nat)
    requires j < |bytes| && q.Accepts(bytes[j])
    ensures i < |MatchList(bytes, q, 0)| && MatchList(bytes, q, 0)[i] == j
  {
    hide MatchList;
    MatchListIsExact(bytes, q, 0);
    i :| 0 <= i < |MatchList(bytes, q, 0)| && MatchList(bytes, q, 0)[i] == j;
  }

  lemma {:induction false} MatchListStep(bytes: seq<Byte>, q: Query, from: nat)
    requires from <= |bytes|
    ensures NextMatch(bytes, q, from) == |bytes| ==> MatchList(bytes, q, from) == []
    ensures NextMatch(bytes, q, from) < |bytes| ==>
              MatchList(bytes, q, from)
              == [NextMatch(bytes, q, from)] + MatchList(bytes, q, NextMatch(bytes, q, from) + 1)
    decreases |bytes| - from
  {
    if from == |bytes| || q.Accepts(bytes[from]) {
    } else {
      assert NextMatch(bytes, q, from) == NextMatch(bytes, q, from + 1);
      assert MatchList(bytes, q, from) == MatchList(bytes, q, from + 1);
      MatchListStep(bytes, q, from + 1);
    }
  }

  // How many positions below `upto` match: the candidates a scan has stepped over.
  function MatchCount(bytes: seq<Byte>, q: Query, upto: nat): (c: nat)
    requires upto <= |bytes|
    ensures c <= upto
  {
    if upto == 0 then 0 else MatchCount(bytes, q, upto - 1) + (if q.Accepts(bytes[upto - 1]) then 1 else 0)
  }

  lemma {:induction false} MatchCountSkips(bytes: seq<Byte>, q: Query, from: nat, upto: nat)
    requires from <= upto <= |bytes|
    requires forall i :: from <= i < upto ==> !q.Accepts(bytes[i])
    ensures MatchCount(bytes, q, upto) == MatchCount(bytes, q, from)
  {
    if from >= upto {
    } else {
      MatchCountSkips(bytes, q, from, upto - 1);
    }
  }

  lemma MatchCountStep(bytes: seq<Byte>, q: Query, b: nat, next: nat)
    requires b < next <= |bytes| && q.Accepts(bytes[b])
    requires forall i :: b < i < next ==> !q.Accepts(bytes[i])
    ensures MatchCount(bytes, q, next) == MatchCount(bytes, q, b) + 1
  {}

  // Tombstones become empty, everything else stays.
  function WithoutDeleted(bytes: seq<Byte>): (r: seq<Byte>)
    ensures |r| == |bytes|
    ensures forall i :: 0 <= i < |r| ==> r[i] == if bytes[i] == DELETED then EMPTY else bytes[i]
  {
    seq(|bytes|, i requires 0 <= i < |bytes| => if bytes[i] == DELETED then EMPTY else bytes[i])
  }

  // --- The 8-byte group as a word ---

  const MSBS: bv64 := 0x8080_8080_8080_8080
  const LSBS: bv64 := 0x0101_0101_0101_0101

  // The bit offset of byte i, least significant byte first.
  function Offset(i: nat): (s: bv64)
    requires i < 8
    ensures IsOffset(s)
  {
    match i
    case 0 => 0 case 1 => 8 case 2 => 16 case 3 => 24
    case 4 => 32 case 5 => 40 case 6 => 48 case 7 => 56
  }

  predicate IsOffset(s: bv64) {
    s <= 56 && s & 7 == 0
  }

  function LaneAt(w: bv64, s: bv64): bv64
    requires s <= 56
  {
    (w >> s) & 0xff
  }

  function Lane(w: bv64, i: nat): bv64
    requires i < 8
  {
    LaneAt(w, Offset(i))
  }

  // The four scans at word level; the tag is the caller's 7-bit value.
  datatype WordQuery = MatchTag(tag: bv8) | MatchPresent | MatchEmpty | MatchDeleted {
    predicate Valid() {
      MatchTag? ==> tag < 0x80
    }

    // The byte-level scan this one computes.
    function Meaning(): Query
      requires Valid()
    {
      match this
      case MatchTag(t) => TagIsSmall(t); HasTag(t as nat)
      case MatchPresent => AnyPresent
      case MatchEmpty => AnyEmpty
      case MatchDeleted => AnyDeleted
    }

    predicate NeedsValidBytes() {
      MatchEmpty? || MatchDeleted?
    }

    // Which lanes it accepts.
    predicate AcceptsLane(lane: bv64) {
      match this
      case MatchTag(t) => lane == (t as bv64) | 0x80
      case MatchPresent => lane & 0x80 != 0
      case MatchEmpty => lane == 0
      case MatchDeleted => lane == 1
    }

    // The bits the source computes.
    function Run(w: bv64): bv64 {
      match this
      case MatchTag(t) => PortableMatch(w, t as bv64)
      case MatchPresent => PortableMatchPresent(w)
      case MatchEmpty => PortableMatchEmpty(w)
      case MatchDeleted => PortableMatchDeleted(w)
    }
  }

  lemma TagIsSmall(t: bv8)
    requires t < 0x80
    ensures t as nat < 128
  {}

  predicate ValidLane(lane: bv64) {
    lane == 0 || lane == 1 || lane & 0x80 != 0
  }

  // --- The matching algorithms, as the source computes them ---

  function PortableMatch(w: bv64, tag: bv64): bv64 {
    var broadcast := (LSBS * tag) + MSBS;
    MatchBroadcast(w, broadcast)
  }

  function MatchBroadcast(w: bv64, broadcast: bv64): bv64 {
    (MSBS - MatchBits(w, broadcast)) & (w & MSBS)
  }

  function MatchBits(w: bv64, broadcast: bv64): bv64 {
    (w | MSBS) ^ broadcast
  }

  function PortableMatchPresent(w: bv64): bv64 {
    w & MSBS
  }

  function PortableMatchEmpty(w: bv64): bv64 {
    !(w | (w << 7)) & MSBS
  }

  function PortableMatchDeleted(w: bv64): bv64 {
    !(w | ((!w) << 7)) & MSBS
  }

  function PortableClearDeleted(w: bv64): bv64 {
    w & ((!LSBS) | (w >> 7))
  }

  lemma WidenSmall(y: bv8)
    requires y < 0x80
    ensures y as bv64 < 0x80
  {}

  // The broadcast puts the present byte of the tag in every lane; its addition never carries.
  lemma BroadcastLane(tag: bv64, s: bv64)
    requires tag < 0x80 && IsOffset(s)
    ensures LaneAt((LSBS * tag) + MSBS, s) == tag | 0x80
  {}

  lemma BroadcastDoesNotCarry(tag: bv64)
    requires tag < 0x80
    ensures (LSBS * tag) + MSBS == (LSBS * tag) | MSBS
  {}

  // The subtraction stays inside each lane because no lane of x exceeds 0x7f.
  lemma SubtractLane(x: bv64, s: bv64)
    requires s <= 56 && s & 7 == 0 && x & MSBS == 0
    ensures LaneAt(Borrow(x), s) == if LaneAt(x, s) == 0 then 0x80 else 0
  {}

  lemma MatchLane(w: bv64, broadcast: bv64, s: bv64)
    requires IsOffset(s) && broadcast & MSBS == MSBS
    ensures LaneAt(MatchBroadcast(w, broadcast), s) == if LaneAt(w, s) == LaneAt(broadcast, s) then 0x80 else 0
  {
    hide LaneAt, MatchBroadcast;
    MatchedLane(w, broadcast, s);
    LaneSizes(w, broadcast, s);
    MatchedByte(LaneAt(w, s), LaneAt(broadcast, s));
  }

  lemma LaneSizes(w: bv64, broadcast: bv64, s: bv64)
    requires IsOffset(s) && broadcast & MSBS == MSBS
    ensures LaneAt(w, s) < 0x100 && 0x80 <= LaneAt(broadcast, s) < 0x100
  {}

  lemma MatchedLane(w: bv64, broadcast: bv64, s: bv64)
    requires IsOffset(s) && broadcast & MSBS == MSBS
    ensures LaneAt(MatchBroadcast(w, broadcast), s) ==
              (if (LaneAt(w, s) | 0x80) ^ LaneAt(broadcast, s) == 0 then 0x80 else 0) & LaneAt(w, s)
  {
    hide LaneAt, MatchBroadcast, MatchBits, Borrow;
    BorrowedFrom(w, broadcast);
    BorrowLane(w, broadcast, s);
    XorLane(w, broadcast, s);
    AndLane(Borrow(MatchBits(w, broadcast)), w, s);
  }

  function Borrow(x: bv64): bv64 {
    (MSBS - x) & MSBS
  }

  lemma BorrowedFrom(w: bv64, broadcast: bv64)
    ensures MatchBroadcast(w, broadcast) == Borrow(MatchBits(w, broadcast)) & w
  {}

  lemma BorrowLane(w: bv64, broadcast: bv64, s: bv64)
    requires IsOffset(s) && broadcast & MSBS == MSBS
    ensures LaneAt(Borrow(MatchBits(w, broadcast)), s) == if LaneAt(MatchBits(w, broadcast), s) == 0 then 0x80 else 0
  {
    hide LaneAt, MatchBits, Borrow;
    NoMsbs(w, broadcast);
    OffsetBits(s);
    SubtractLane(MatchBits(w, broadcast), s);
  }

  lemma OffsetBits(s: bv64)
    requires IsOffset(s)
    ensures s <= 56 && s & 7 == 0
  {}

  lemma NoMsbs(w: bv64, broadcast: bv64)
    requires broadcast & MSBS == MSBS
    ensures MatchBits(w, broadcast) & MSBS == 0
  {}

  lemma XorLane(w: bv64, broadcast: bv64, s: bv64)
    requires IsOffset(s) && broadcast & MSBS == MSBS
    ensures LaneAt(MatchBits(w, broadcast), s) == (LaneAt(w, s) | 0x80) ^ LaneAt(broadcast, s)
  {}

  lemma AndLane(a: bv64, b: bv64, s: bv64)
    requires IsOffset(s)
    ensures LaneAt(a & b, s) == LaneAt(a, s) & LaneAt(b, s)
  {}

  // One byte of the match: the present bit survives exactly where nothing differs.
  lemma MatchedByte(lane: bv64, tag: bv64)
    requires lane < 0x100 && 0x80 <= tag < 0x100
    ensures (if (lane | 0x80) ^ tag == 0 then 0x80 else 0) & lane == if lane == tag then 0x80 else 0
  {}

  lemma MatchPresentLane(w: bv64, s: bv64)
    requires IsOffset(s)
    ensures LaneAt(PortableMatchPresent(w), s) == if LaneAt(w, s) & 0x80 != 0 then 0x80 else 0
  {}

  lemma MatchEmptyLane(w: bv64, s: bv64)
    requires IsOffset(s) && ValidLane(LaneAt(w, s))
    ensures LaneAt(PortableMatchEmpty(w), s) == if LaneAt(w, s) == 0 then 0x80 else 0
  {}

  lemma MatchDeletedLane(w: bv64, s: bv64)
    requires IsOffset(s) && ValidLane(LaneAt(w, s))
    ensures LaneAt(PortableMatchDeleted(w), s) == if LaneAt(w, s) == 1 then 0x80 else 0
  {}

  lemma MatchTagLane(w: bv64, tag: bv64, s: bv64)
    requires IsOffset(s) && tag < 0x80
    ensures LaneAt(PortableMatch(w, tag), s) == if LaneAt(w, s) == tag | 0x80 then 0x80 else 0
  {
    BroadcastLane(tag, s);
    BroadcastKeepsMsbs(tag);
    MatchLane(w, (LSBS * tag) + MSBS, s);
  }

  lemma BroadcastKeepsMsbs(tag: bv64)
    requires tag < 0x80
    ensures ((LSBS * tag) + MSBS) & MSBS == MSBS
  {}

  // Exactly the high bit of exactly the matching lanes: no carry or borrow leaks between lanes.
  lemma QueryIsExact(w: bv64, q: WordQuery, s: bv64)
    requires IsOffset(s) && q.Valid() && (q.NeedsValidBytes() ==> ValidLane(LaneAt(w, s)))
    ensures LaneAt(q.Run(w), s) == if q.AcceptsLane(LaneAt(w, s)) then 0x80 else 0
  {
    hide LaneAt, PortableMatch, PortableMatchPresent, PortableMatchEmpty, PortableMatchDeleted;
    match q {
      case MatchTag(t) => WidenSmall(t); MatchTagLane(w, t as bv64, s);
      case MatchPresent => MatchPresentLane(w, s);
      case MatchEmpty => MatchEmptyLane(w, s);
      case MatchDeleted => MatchDeletedLane(w, s);
    }
  }

  // Clearing tombstones zeroes exactly the tombstones.
  lemma ClearDeletedIsExact(w: bv64, s: bv64)
    requires IsOffset(s) && ValidLane(LaneAt(w, s))
    ensures LaneAt(PortableClearDeleted(w), s) == if LaneAt(w, s) == 1 then 0 else LaneAt(w, s)
  {
    if s == 0 {} else if s == 8 {} else if s == 16 {} else if s == 24 {}
    else if s == 32 {} else if s == 40 {} else if s == 48 {} else { assert s == 56; }
  }

  // --- The word as a sequence of bytes ---

  function ByteOf(lane: bv64): Byte
    requires lane < 0x100
  {
    (lane as bv8) as nat
  }

  lemma LaneIsByte(w: bv64, s: bv64)
    requires s <= 56
    ensures LaneAt(w, s) < 0x100
  {}

  function LaneByte(w: bv64, i: nat): Byte
    requires i < 8
  {
    LaneIsByte(w, Offset(i));
    ByteOf(Lane(w, i))
  }

  function Bytes(w: bv64): (b: seq<Byte>)
    ensures |b| == 8 && forall i :: 0 <= i < 8 ==> b[i] == LaneByte(w, i)
  {
    seq(8, i requires 0 <= i < 8 => LaneByte(w, i))
  }

  lemma ByteOfFacts(lane: bv64)
    requires lane < 0x100
    ensures ByteOf(lane) == 0 <==> lane == 0
    ensures ByteOf(lane) == 1 <==> lane == 1
    ensures ByteOf(lane) >= 128 <==> lane & 0x80 != 0
  {}

  lemma AcceptsAgrees(q: WordQuery, lane: bv64)
    requires lane < 0x100 && q.Valid()
    ensures q.AcceptsLane(lane) <==> q.Meaning().Accepts(ByteOf(lane))
    ensures ValidLane(lane) <==> ValidByte(ByteOf(lane))
  {}

  predicate ValidBytes(b: seq<Byte>) {
    forall i :: 0 <= i < |b| ==> ValidByte(b[i])
  }

  // `bits` has the high bit of exactly the lanes that match at or after `from`.
  ghost predicate Shows(bits: bv64, bytes: seq<Byte>, q: Query, from: nat)
    requires |bytes| == 8
  {
    forall i :: 0 <= i < 8 ==> Lane(bits, i) == if from <= i && q.Accepts(bytes[i]) then 0x80 else 0
  }

  // The matching algorithms find exactly the bytes that match.
  lemma QueryShows(w: bv64, q: WordQuery)
    requires q.Valid() && (q.NeedsValidBytes() ==> ValidBytes(Bytes(w)))
    ensures Shows(q.Run(w), Bytes(w), q.Meaning(), 0)
  {
    hide LaneAt, Offset, ByteOf, WordQuery.Run;
    forall i | 0 <= i < 8
      ensures Lane(q.Run(w), i) == if q.Meaning().Accepts(Bytes(w)[i]) then 0x80 else 0
    {
      var s := Offset(i);
      LaneIsByte(w, s);
      AcceptsAgrees(q, LaneAt(w, s));
      assert Bytes(w)[i] == LaneByte(w, i) == ByteOf(LaneAt(w, s));
      QueryIsExact(w, q, s);
    }
  }

  // --- Stepping through the matches ---

  function ByteSwap(w: bv64): bv64 {
    (w >> 56) | ((w >> 40) & 0xff00) | ((w >> 24) & 0xff_0000) | ((w >> 8) & 0xff00_0000)
    | ((w << 8) & 0xff_0000_0000) | ((w << 24) & 0xff00_0000_0000)
    | ((w << 40) & 0xff_0000_0000_0000) | (w << 56)
  }

  // Leading zero bits of the top n bits of w.
  function LeadingZeros(w: bv64, n: nat): nat
    decreases n
  {
    if n == 0 || w & 0x8000_0000_0000_0000 != 0 then 0 else 1 + LeadingZeros(w << 1, n - 1)
  }

  // BitIndex::index of the byte encoding.
  function FirstIndex(bits: bv64): nat {
    LeadingZeros(ByteSwap(bits), 64) / 8
  }

  function Shl(v: bv64, s: bv64): bv64
    requires s <= 56
  {
    v << s
  }

  function TopByte(v: bv64): bv64 {
    v >> 56
  }

  lemma SwappedLane(w: bv64, s: bv64)
    requires IsOffset(s)
    ensures TopByte(Shl(ByteSwap(w), s)) == LaneAt(w, s)
  {}

  lemma ShiftOnce(v: bv64)
    requires v >> 56 == 0
    ensures v & 0x8000_0000_0000_0000 == 0
    ensures (v << 1) & 0x8000_0000_0000_0000 == 0
    ensures ((v << 1) << 1) == v << 2
    ensures (v << 2) & 0x8000_0000_0000_0000 == 0 && (v << 2) << 1 == v << 3
    ensures (v << 3) & 0x8000_0000_0000_0000 == 0 && (v << 3) << 1 == v << 4
    ensures (v << 4) & 0x8000_0000_0000_0000 == 0 && (v << 4) << 1 == v << 5
    ensures (v << 5) & 0x8000_0000_0000_0000 == 0 && (v << 5) << 1 == v << 6
    ensures (v << 6) & 0x8000_0000_0000_0000 == 0 && (v << 6) << 1 == v << 7
    ensures (v << 7) & 0x8000_0000_0000_0000 == 0 && (v << 7) << 1 == v << 8
  {}

  lemma SkipZeroByte(v: bv64, n: nat)
    requires n >= 8 && TopByte(v) == 0
    ensures LeadingZeros(v, n) == 8 + LeadingZeros(Shl(v, 8), n - 8)
  {
    ShiftOnce(v);
    assert LeadingZeros(v, n) == 2 + LeadingZeros(v << 2, n - 2);
    assert LeadingZeros(v << 2, n - 2) == 2 + LeadingZeros(v << 4, n - 4);
    assert LeadingZeros(v << 4, n - 4) == 2 + LeadingZeros(v << 6, n - 6);
    assert LeadingZeros(v << 6, n - 6) == 2 + LeadingZeros(v << 8, n - 8);
  }

  lemma ShiftByteMore(v: bv64, s: bv64)
    requires s <= 48
    ensures Shl(Shl(v, s), 8) == Shl(v, s + 8)
  {}

  lemma {:induction false} LeadingZerosOfLanes(w: bv64, j: nat, k: nat)
    requires j <= k < 8
    requires Lane(w, k) & 0x80 != 0
    requires forall i :: j <= i < k ==> Lane(w, i) == 0
    ensures LeadingZeros(Shl(ByteSwap(w), Offset(j)), 64 - 8 * j) == 8 * (k - j)
    decreases k - j
  {
    hide *;
    if j == k {
      LaneStops(w, j);
    } else {
      LaneSkipped(w, j);
      LeadingZerosOfLanes(w, j + 1, k);
    }
  }

  lemma LaneStops(w: bv64, j: nat)
    requires j < 8 && Lane(w, j) & 0x80 != 0
    ensures LeadingZeros(Shl(ByteSwap(w), Offset(j)), 64 - 8 * j) == 0
  {}

  lemma LaneSkipped(w: bv64, j: nat)
    requires j < 7 && Lane(w, j) == 0
    ensures LeadingZeros(Shl(ByteSwap(w), Offset(j)), 64 - 8 * j)
         == 8 + LeadingZeros(Shl(ByteSwap(w), Offset(j + 1)), 64 - 8 * (j + 1))
  {
    hide ByteSwap, LeadingZeros, Shl, TopByte, LaneAt;
    var s := Offset(j);
    NextOffset(j);
    SwappedLane(w, s);
    SkipZeroByte(Shl(ByteSwap(w), s), 64 - 8 * j);
    ShiftByteMore(ByteSwap(w), s);
  }

  lemma NextOffset(j: nat)
    requires j < 7
    ensures Offset(j + 1) == Offset(j) + 8 && Offset(j) <= 48
  {}

  // The index decoded from the word is the next match.
  lemma FirstIndexIsNextMatch(bits: bv64, bytes: seq<Byte>, q: Query, from: nat)
    requires |bytes| == 8 && from <= 8 && Shows(bits, bytes, q, from)
    ensures bits == 0 <==> NextMatch(bytes, q, from) == 8
    ensures bits != 0 ==> FirstIndex(bits) == NextMatch(bytes, q, from)
  {
    hide ByteSwap, LaneAt, LeadingZeros, Shl, Offset;
    var k := NextMatch(bytes, q, from);
    if k < 8 {
      LeadingZerosOfLanes(bits, 0, k);
      ShiftByZero(ByteSwap(bits));
      assert Lane(bits, k) == 0x80;
      ZeroLanes(Offset(k));
    } else {
      forall i | 0 <= i < 8 ensures Lane(bits, i) == 0 {}
      AllLanesZero(bits);
    }
  }

  lemma ShiftByZero(v: bv64)
    ensures Shl(v, Offset(0)) == v
  {}

  lemma ZeroLanes(s: bv64)
    requires s <= 56
    ensures LaneAt(0, s) == 0
  {}

  lemma AllLanesZero(w: bv64)
    requires forall i :: 0 <= i < 8 ==> Lane(w, i) == 0
    ensures w == 0
  {
    var a, b, c, d := Lane(w, 0), Lane(w, 1), Lane(w, 2), Lane(w, 3);
    var e, f, g, h := Lane(w, 4), Lane(w, 5), Lane(w, 6), Lane(w, 7);
  }

  // Clearing the lowest set bit removes the first match and keeps the rest.
  lemma ClearLowestLane(bits: bv64, sk: bv64, s: bv64)
    requires IsOffset(sk) && IsOffset(s)
    requires LaneAt(bits, sk) == 0x80 && bits & ((1 << sk) - 1) == 0
    ensures LaneAt(bits & (bits - 1), s) == if s == sk then 0 else LaneAt(bits, s)
  {}

  lemma LowBitsStep(w: bv64, s: bv64)
    requires s <= 48 && IsOffset(s) && w & ((1 << s) - 1) == 0 && LaneAt(w, s) == 0
    ensures w & ((1 << (s + 8)) - 1) == 0
  {}

  lemma {:induction false} LowLanesZero(w: bv64, k: nat)
    requires k < 8 && forall i :: 0 <= i < k ==> Lane(w, i) == 0
    ensures w & ((1 << Offset(k)) - 1) == 0
  {
    if k == 0 {
    } else {
      LowLanesZero(w, k - 1);
      assert Lane(w, k - 1) == 0;
      LowBitsStep(w, Offset(k - 1));
      assert Offset(k) == Offset(k - 1) + 8;
    }
  }

  lemma AdvanceShows(bits: bv64, bytes: seq<Byte>, q: Query, from: nat)
    requires |bytes| == 8 && from <= 8 && bits != 0 && Shows(bits, bytes, q, from)
    ensures NextMatch(bytes, q, from) < 8
    ensures Shows(bits & (bits - 1), bytes, q, NextMatch(bytes, q, from) + 1)
  {
    hide LaneAt, Offset;
    FirstIndexIsNextMatch(bits, bytes, q, from);
    var k := NextMatch(bytes, q, from);
    LowLanesZero(bits, k);
    assert Lane(bits, k) == 0x80;
    var next := bits & (bits - 1);
    forall i | 0 <= i < 8
      ensures Lane(next, i) == if k + 1 <= i && q.Accepts(bytes[i]) then 0x80 else 0
    {
      assert Lane(bits, i) == LaneAt(bits, Offset(i));
      ClearLowestLane(bits, Offset(k), Offset(i));
      OffsetInjective(i, k);
    }
  }

  lemma OffsetInjective(i: nat, j: nat)
    requires i < 8 && j < 8
    ensures Offset(i) == Offset(j) <==> i == j
  {}

  // The iterator over a match range: each step reports the next match of the byte-level scan.
  class MatchIterator {
    var bits: bv64
    ghost const bytes: seq<Byte>
    ghost const q: Query
    ghost var from: nat

    ghost predicate Valid()
      reads this
    {
      |bytes| == 8 && from <= 8 && Shows(bits, bytes, q, from)
    }

    constructor (w: bv64, wq: WordQuery)
      requires wq.Valid() && (wq.NeedsValidBytes() ==> ValidBytes(Bytes(w)))
      ensures Valid() && from == 0 && bytes == Bytes(w) && q == wq.Meaning()
    {
      QueryShows(w, wq);
      bits := wq.Run(w);
      bytes, q, from := Bytes(w), wq.Meaning(), 0;
    }

    method AtEnd() returns (end: bool)
      requires Valid()
      ensures end <==> NextMatch(bytes, q, from) == 8
    {
      FirstIndexIsNextMatch(bits, bytes, q, from);
      end := bits == 0;
    }

    method Index() returns (i: nat)
      requires Valid() && NextMatch(bytes, q, from) < 8
      ensures i == NextMatch(bytes, q, from)
    {
      FirstIndexIsNextMatch(bits, bytes, q, from);
      i := FirstIndex(bits);
    }

    method Advance()
      requires Valid() && NextMatch(bytes, q, from) < 8
      modifies this
      ensures Valid() && from == old(NextMatch(bytes, q, from)) + 1
    {
      hide NextMatch, Shows, FirstIndex;
      FirstIndexIsNextMatch(bits, bytes, q, from);
      AdvanceShows(bits, bytes, q, from);
      bits := bits & (bits - 1);
      from := NextMatch(bytes, q, from) + 1;
    }
  }

  lemma AppendOne<T>(a: seq<T>, x: T, b: seq<T>)
    ensures a + ([x] + b) == (a + [x]) + b
  {}

  // A whole walk over the word visits exactly the matching bytes, once each, in increasing order.
  method CollectMatches(w: bv64, wq: WordQuery) returns (found: seq<nat>)
    requires wq.Valid() && (wq.NeedsValidBytes() ==> ValidBytes(Bytes(w)))
    ensures found == MatchList(Bytes(w), wq.Meaning(), 0)
  {
    hide *;
    found := [];
    var it := new MatchIterator(w, wq);
    ghost var bytes, q := it.bytes, it.q;
    ghost var all := MatchList(bytes, q, 0);
    ghost var rest := all;
    var end := it.AtEnd();
    while !end
      invariant fresh(it) && it.Valid() && it.bytes == bytes && it.q == q && it.from <= |bytes| == 8
      invariant end <==> NextMatch(bytes, q, it.from) == 8
      invariant rest == MatchList(bytes, q, it.from)
      invariant found + rest == all
      decreases 8 - it.from
    {
      MatchListStep(bytes, q, it.from);
      var i := it.Index();
      rest := MatchList(bytes, q, i + 1);
      AppendOne(found, i, rest);
      found := found + [i];
      it.Advance();
      end := it.AtEnd();
    }
    MatchListStep(bytes, q, it.from);
  }

  // --- Changing a group held in a word ---

  // The byte of a group at a bit offset.
  function ByteMask(s: bv64): bv64
    requires IsOffset(s)
  {
    0xff << s
  }

  lemma ClearByteLane(w: bv64, sk: bv64, s: bv64)
    requires IsOffset(sk) && IsOffset(s)
    ensures LaneAt(w & !ByteMask(sk), s) == if s == sk then 0 else LaneAt(w, s)
  {
    if s == 0 {} else if s == 8 {} else if s == 16 {} else if s == 24 {}
    else if s == 32 {} else if s == 40 {} else if s == 48 {} else { assert s == 56; }
  }

  function ClearedWord(w: bv64, k: nat): bv64
    requires k < 8
  {
    w & !ByteMask(Offset(k))
  }

  lemma ClearedLane(w: bv64, k: nat, i: nat)
    requires k < 8 && i < 8
    ensures Lane(ClearedWord(w, k), i) == if i == k then 0 else Lane(w, i)
  {
    hide LaneAt, Offset, ByteMask, IsOffset;
    ClearByteLane(w, Offset(k), Offset(i));
    OffsetInjective(i, k);
  }

  class WordGroup {
    var word: bv64

    constructor (w: bv64)
      ensures word == w
    {
      word := w;
    }

    method ClearByte(k: nat)
      requires k < 8
      modifies this
      ensures Bytes(word) == old(Bytes(word))[k := EMPTY]
    {
      hide Lane, ByteOf, ClearedWord;
      ghost var before := word;
      word := ClearedWord(word, k);
      ByteOfFacts(0);
      forall i | 0 <= i < 8
        ensures Bytes(word)[i] == if i == k then EMPTY else Bytes(before)[i]
      {
        ClearedLane(before, k, i);
        assert Bytes(word)[i] == LaneByte(word, i) && Bytes(before)[i] == LaneByte(before, i);
      }
    }

    method ClearDeleted()
      requires ValidBytes(Bytes(word))
      modifies this
      ensures Bytes(word) == WithoutDeleted(old(Bytes(word)))
    {
      hide LaneAt, Offset, ByteOf, PortableClearDeleted;
      ghost var before := word;
      word := PortableClearDeleted(word);
      ByteOfFacts(0);
      forall i | 0 <= i < 8
        ensures Bytes(word)[i] == WithoutDeleted(Bytes(before))[i]
      {
        var s := Offset(i);
        LaneIsByte(before, s);
        assert Bytes(word)[i] == LaneByte(word, i) && Bytes(before)[i] == LaneByte(before, i);
        AcceptsAgrees(MatchDeleted, LaneAt(before, s));
        ClearDeletedIsExact(before, s);
      }
    }
  }

  // --- Loading eight bytes from memory ---

  function WordOf(a: bv8, b: bv8, c: bv8, d: bv8, e: bv8, f: bv8, g: bv8, h: bv8): bv64 {
    (a as bv64) | ((b as bv64) << 8) | ((c as bv64) << 16) | ((d as bv64) << 24)
    | ((e as bv64) << 32) | ((f as bv64) << 40) | ((g as bv64) << 48) | ((h as bv64) << 56)
  }

  lemma WordOfLanes(a: bv8, b: bv8, c: bv8, d: bv8, e: bv8, f: bv8, g: bv8, h: bv8)
    ensures var w := WordOf(a, b, c, d, e, f, g, h);
            && LaneAt(w, 0) == a as bv64 && LaneAt(w, 8) == b as bv64
            && LaneAt(w, 16) == c as bv64 && LaneAt(w, 24) == d as bv64
            && LaneAt(w, 32) == e as bv64 && LaneAt(w, 40) == f as bv64
            && LaneAt(w, 48) == g as bv64 && LaneAt(w, 56) == h as bv64
  {
    LowLanes(a, b, c, d, e, f, g, h);
    HighLanes(a, b, c, d, e, f, g, h);
  }

  lemma LowLanes(a: bv8, b: bv8, c: bv8, d: bv8, e: bv8, f: bv8, g: bv8, h: bv8)
    ensures var w := WordOf(a, b, c, d, e, f, g, h);
            && LaneAt(w, 0) == a as bv64 && LaneAt(w, 8) == b as bv64
            && LaneAt(w, 16) == c as bv64 && LaneAt(w, 24) == d as bv64
  {}

  lemma HighLanes(a: bv8, b: bv8, c: bv8, d: bv8, e: bv8, f: bv8, g: bv8, h: bv8)
    ensures var w := WordOf(a, b, c, d, e, f, g, h);
            && LaneAt(w, 32) == e as bv64 && LaneAt(w, 40) == f as bv64
            && LaneAt(w, 48) == g as bv64 && LaneAt(w, 56) == h as bv64
  {}

  function LoadWord(m: seq<bv8>): bv64
    requires |m| == 8
  {
    WordOf(m[0], m[1], m[2], m[3], m[4], m[5], m[6], m[7])
  }

  lemma ByteOfWidened(x: bv8)
    ensures x as bv64 < 0x100 && ByteOf(x as bv64) == x as nat
  {}

  lemma LoadedLane(m: seq<bv8>, i: nat)
    requires |m| == 8 && i < 8
    ensures Lane(LoadWord(m), i) == m[i] as bv64
  {
    hide LaneAt, WordOf;
    WordOfLanes(m[0], m[1], m[2], m[3], m[4], m[5], m[6], m[7]);
    match i case 0 => case 1 => case 2 => case 3 => case 4 => case 5 => case 6 => case 7 =>
  }

  // The loaded word shows the memory bytes in order.
  lemma LoadKeepsBytes(m: seq<bv8>, i: nat)
    requires |m| == 8 && i < 8
    ensures Bytes(LoadWord(m))[i] == m[i] as nat
  {
    hide Lane, LaneAt, ByteOf, LoadWord;
    LoadedLane(m, i);
    ByteOfWidened(m[i]);
    assert Bytes(LoadWord(m))[i] == LaneByte(LoadWord(m), i);
  }

  lemma NextByte(x: bv8)
    requires x != 0xff
    ensures (x + 1) as nat == x as nat + 1
  {}

  // A metadata byte as the machine holds it.
  function ToBits(b: Byte): (r: bv8)
    ensures r as nat == b
  {
    if b == 0 then 0
    else
      var x := ToBits(b - 1);
      NextByte(x);
      x + 1
  }

  // A group of eight metadata bytes in a word.
  function LoadedWord(m: seq<Byte>): (w: bv64)
    requires |m| == 8
    ensures Bytes(w) == m
  {
    hide Bytes, LoadWord;
    var bits := seq(8, i requires 0 <= i < 8 => ToBits(m[i]));
    assert Bytes(LoadWord(bits)) == m by {
      forall i | 0 <= i < 8 ensures Bytes(LoadWord(bits))[i] == m[i] { LoadKeepsBytes(bits, i); }
    }
    LoadWord(bits)
  }
}
