/** Whole runs of the hash map: it answers like a plain finite map, whatever the hash function,
    the group width and the growth in between. */
module HashtableRuns {
  import opened Bits
  import opened Options
  import opened RawHashtable
  import opened TableLayout

  datatype Op<K, V> =
    | Insert(key: K, value: V)
    | Update(key: K, value: V)
    | Erase(key: K)
    | Lookup(key: K)
    | Clear
    | GrowToAllocSize(size: nat)
    | GrowForInsertCount(count: int)
  {
    // The caller's obligation: allocation sizes are powers of two.
    predicate Allowed() {
      GrowToAllocSize? ==> IsPow2(size)
    }

    predicate IsGrowth() {
      GrowToAllocSize? || GrowForInsertCount?
    }
  }

  datatype Answer<V> = Done | Flag(b: bool) | Found(r: Option<V>)

  // --- The plain map ---

  function Step<K(==), V>(m: map<K, V>, op: Op<K, V>): (map<K, V>, Answer<V>) {
    match op
    case Insert(k, v) => (if k in m then m else m[k := v], Flag(k !in m))
    case Update(k, v) => (m[k := v], Flag(k !in m))
    case Erase(k) => (m - {k}, Flag(k in m))
    case Lookup(k) => (m, Found(if k in m then Some(m[k]) else None))
    case Clear => (map[], Done)
    case GrowToAllocSize(_) => (m, Done)
    case GrowForInsertCount(_) => (m, Done)
  }

  function MapAfter<K(==), V>(m: map<K, V>, ops: seq<Op<K, V>>): map<K, V> {
    if ops == [] then m else Step(MapAfter(m, ops[..|ops| - 1]), ops[|ops| - 1]).0
  }

  function Answers<K(==), V>(m: map<K, V>, ops: seq<Op<K, V>>): seq<Answer<V>> {
    if ops == [] then []
    else
      var before := ops[..|ops| - 1];
      Answers(m, before) + [Step(MapAfter(m, before), ops[|ops| - 1]).1]
  }

  // --- The hash map does the same ---

  method Perform<K(==), V>(t: MapBase<K, V>, op: Op<K, V>) returns (answer: Answer<V>)
    requires t.Valid() && op.Allowed()
    modifies t, t.metadata, t.entries
    ensures t.Valid() && (t.contents, answer) == Step(old(t.contents), op)
    ensures t.SameOrFresh()
  {
    hide Table.Ok, Used, GrowthThreshold, IsPow2;
    answer := Done;
    match op {
      case Insert(k, v) =>
        var b := t.Insert(k, v);
        answer := Flag(b);
      case Update(k, v) =>
        var b := t.Update(k, v);
        answer := Flag(b);
      case Erase(k) =>
        var b := t.EraseImpl(k);
        answer := Flag(b);
      case Lookup(k) =>
        var r := t.Lookup(k);
        answer := Found(r);
      case Clear =>
        t.ClearImpl();
      case GrowToAllocSize(size) =>
        t.GrowToAllocSizeImpl(size);
      case GrowForInsertCount(count) =>
        t.GrowForInsertCountImpl(count);
    }
  }

  // Over every run the table answers exactly as the plain map does.
  method Run<K(==), V>(t: MapBase<K, V>, ops: seq<Op<K, V>>) returns (answers: seq<Answer<V>>)
    requires t.Valid() && forall i :: 0 <= i < |ops| ==> ops[i].Allowed()
    modifies t, t.metadata, t.entries
    ensures t.Valid() && t.contents == MapAfter(old(t.contents), ops)
    ensures answers == Answers(old(t.contents), ops)
    ensures t.SameOrFresh()
  {
    hide Table.Ok, Used, GrowthThreshold, IsPow2, Step;
    answers := [];
    var i := 0;
    while i < |ops|
      invariant i <= |ops| && t.Valid() && t.SameOrFresh()
      invariant t.contents == MapAfter(old(t.contents), ops[..i])
      invariant answers == Answers(old(t.contents), ops[..i])
    {
      var a := Perform(t, ops[i]);
      assert ops[..i + 1][..i] == ops[..i];
      answers := answers + [a];
      i := i + 1;
    }
    assert ops[..i] == ops;
  }

  // Two tables with the same contents cannot be told apart, whatever their hash functions, group
  // widths, sizes and histories.
  method Compare<K(==), V>(t: MapBase<K, V>, u: MapBase<K, V>, ops: seq<Op<K, V>>)
    returns (answers: seq<Answer<V>>, answers': seq<Answer<V>>)
    requires t.Valid() && u.Valid() && t != u && t.metadata != u.metadata && t.entries != u.entries
    requires t.contents == u.contents && forall i :: 0 <= i < |ops| ==> ops[i].Allowed()
    modifies t, t.metadata, t.entries, u, u.metadata, u.entries
    ensures answers == answers' && t.contents == u.contents
  {
    hide Table.Ok, Used, GrowthThreshold, IsPow2, Answers, MapAfter;
    answers := Run(t, ops);
    answers' := Run(u, ops);
  }

  // After making room for a number of insertions, that many insertions never grow the table.
  method InsertAll<K(==), V>(t: MapBase<K, V>, kvs: seq<(K, V)>)
    requires t.Valid()
    modifies t, t.metadata, t.entries
    ensures t.Valid() && t.SameOrFresh()
    ensures t.contents == MapAfter(old(t.contents), Inserts(kvs))
    ensures t.allocSize >= old(t.allocSize)
    ensures old(t.growthBudget) >= |kvs| ==> t.allocSize == old(t.allocSize)
  {
    hide Table.Ok, Used, GrowthThreshold, IsPow2;
    t.BudgetIsNotNegative();
    var i := 0;
    while i < |kvs|
      invariant i <= |kvs| && t.Valid() && t.SameOrFresh() && t.growthBudget >= 0
      invariant t.contents == MapAfter(old(t.contents), Inserts(kvs[..i]))
      invariant t.allocSize >= old(t.allocSize)
      invariant old(t.growthBudget) >= |kvs| ==> t.allocSize == old(t.allocSize) && t.growthBudget >= |kvs| - i
    {
      var b := t.Insert(kvs[i].0, kvs[i].1);
      assert kvs[..i + 1][..i] == kvs[..i];
      assert Inserts(kvs[..i + 1])[..i] == Inserts(kvs[..i]);
      i := i + 1;
    }
    assert kvs[..i] == kvs;
  }

  function Inserts<K(==), V>(kvs: seq<(K, V)>): (ops: seq<Op<K, V>>)
    ensures |ops| == |kvs| && forall i :: 0 <= i < |ops| ==> ops[i] == Insert(kvs[i].0, kvs[i].1)
  {
    seq(|kvs|, i requires 0 <= i < |kvs| => Insert(kvs[i].0, kvs[i].1))
  }

  method ReserveAndInsert<K(==), V>(t: MapBase<K, V>, kvs: seq<(K, V)>) returns (reserved: nat)
    requires t.Valid()
    modifies t, t.metadata, t.entries
    ensures t.Valid() && t.contents == MapAfter(old(t.contents), Inserts(kvs))
    ensures t.allocSize == reserved
  {
    hide Table.Ok, Used, GrowthThreshold, IsPow2;
    t.GrowForInsertCountImpl(|kvs|);
    reserved := t.allocSize;
    InsertAll(t, kvs);
  }

  // --- What runs of the plain map mean ---

  // What one key sees of a run: operations on other keys and growth do not touch it.
  function KeyStep<K(==), V>(r: Option<V>, key: K, op: Op<K, V>): Option<V> {
    match op
    case Insert(k, v) => if k == key && r.None? then Some(v) else r
    case Update(k, v) => if k == key then Some(v) else r
    case Erase(k) => if k == key then None else r
    case Clear => None
    case _ => r
  }

  function KeyAfter<K(==), V>(r: Option<V>, key: K, ops: seq<Op<K, V>>): Option<V> {
    if ops == [] then r else KeyStep(KeyAfter(r, key, ops[..|ops| - 1]), key, ops[|ops| - 1])
  }

  function Get<K(==), V>(m: map<K, V>, key: K): Option<V> {
    if key in m then Some(m[key]) else None
  }

  lemma {:induction false} KeysAreIndependent<K, V>(m: map<K, V>, key: K, ops: seq<Op<K, V>>)
    ensures Get(MapAfter(m, ops), key) == KeyAfter(Get(m, key), key, ops)
  {
    if ops == [] {
    } else {
      KeysAreIndependent(m, key, ops[..|ops| - 1]);
    }
  }

  // --- Growth ---

  // A run with its growth operations left out.
  function WithoutGrowth<K, V>(ops: seq<Op<K, V>>): seq<Op<K, V>> {
    if ops == [] then []
    else
      var rest := WithoutGrowth(ops[..|ops| - 1]);
      if ops[|ops| - 1].IsGrowth() then rest else rest + [ops[|ops| - 1]]
  }

  // The answers of a run that are not those of growth operations.
  function AnswersWithoutGrowth<K, V>(ops: seq<Op<K, V>>, answers: seq<Answer<V>>): seq<Answer<V>>
    requires |ops| == |answers|
  {
    if ops == [] then []
    else
      var rest := AnswersWithoutGrowth(ops[..|ops| - 1], answers[..|ops| - 1]);
      if ops[|ops| - 1].IsGrowth() then rest else rest + [answers[|ops| - 1]]
  }

  lemma {:induction false} WithoutGrowthIsAllowed<K, V>(ops: seq<Op<K, V>>)
    requires forall i :: 0 <= i < |ops| ==> ops[i].Allowed()
    ensures forall i :: 0 <= i < |WithoutGrowth(ops)| ==> WithoutGrowth(ops)[i].Allowed()
  {
    hide IsPow2;
    if ops == [] {
    } else {
      WithoutGrowthIsAllowed(ops[..|ops| - 1]);
      var rest := WithoutGrowth(ops[..|ops| - 1]);
      var all := WithoutGrowth(ops);
      forall i | 0 <= i < |all| ensures all[i].Allowed() {
        assert ops[|ops| - 1].Allowed();
        if i < |rest| { assert all[i] == rest[i] && rest[i].Allowed(); } else { assert all[i] == ops[|ops| - 1]; }
      }
    }
  }

  lemma {:induction false} PlainMapIgnoresGrowth<K, V>(m: map<K, V>, ops: seq<Op<K, V>>)
    ensures |Answers(m, ops)| == |ops| && MapAfter(m, WithoutGrowth(ops)) == MapAfter(m, ops)
    ensures Answers(m, WithoutGrowth(ops)) == AnswersWithoutGrowth(ops, Answers(m, ops))
  {
    if ops == [] {
    } else {
      var before := ops[..|ops| - 1];
      PlainMapIgnoresGrowth(m, before);
      var kept := WithoutGrowth(before);
      assert (kept + [ops[|ops| - 1]])[..|kept|] == kept;
      assert Answers(m, ops)[..|before|] == Answers(m, before);
    }
  }

  // Growing a table anywhere in a run cannot be noticed: another table with the same contents that
  // runs the same operations without the growth gives the same answers and ends with the same map.
  method GrowthIsInvisible<K(==), V>(t: MapBase<K, V>, u: MapBase<K, V>, ops: seq<Op<K, V>>)
    returns (answers: seq<Answer<V>>, answers': seq<Answer<V>>)
    requires t.Valid() && u.Valid() && t != u && t.metadata != u.metadata && t.entries != u.entries
    requires t.contents == u.contents && forall i :: 0 <= i < |ops| ==> ops[i].Allowed()
    modifies t, t.metadata, t.entries, u, u.metadata, u.entries
    ensures |answers| == |ops| && answers' == AnswersWithoutGrowth(ops, answers)
    ensures t.Valid() && u.Valid() && t.contents == u.contents
  {
    hide Table.Ok, Used, GrowthThreshold, IsPow2, Answers, MapAfter, WithoutGrowth, AnswersWithoutGrowth;
    ghost var m := t.contents;
    WithoutGrowthIsAllowed(ops);
    PlainMapIgnoresGrowth(m, ops);
    answers := Run(t, ops);
    answers' := Run(u, WithoutGrowth(ops));
  }
}
