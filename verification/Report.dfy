/** `print_outstanding_allocs`: the walk over the live records, its filters, the grouping by
    stack into the global array, and the sort. */
module Report {
  import opened Words
  import opened Kernel
  import opened MapSums
  import opened Selection
  import opened Sorting

  const EFAULT: int := 14
  const EEXIST: int := 17

  /** One line of the report (`struct allocation`). */
  datatype Row = Row(stackId: S32, size: U64, count: U64, frames: ManualStack)

  // ----- The walk

  function IndexOf(keys: seq<U64>, key: U64): (i: nat)
    requires key in keys
    ensures i < |keys| && keys[i] == key
  {
    if keys[0] == key then 0 else 1 + IndexOf(keys[1..], key)
  }

  /** `bpf_map_get_next_key` on a map that iterates in the order `keys`: the key after `prev`,
      the first key if `prev` is absent, None at the end. */
  function NextKey(keys: seq<U64>, prev: U64): Option<U64> {
    var i := if prev in keys then IndexOf(keys, prev) + 1 else 0;
    if i < |keys| then Some(keys[i]) else None
  }

  /** Where a walk starting from cursor 0 begins. */
  function Start(keys: seq<U64>): (i: nat)
    ensures i <= |keys|
  {
    if 0 in keys then IndexOf(keys, 0) + 1 else 0
  }

  /** The keys that it visits, in order. */
  function Visited(keys: seq<U64>): seq<U64> {
    keys[Start(keys)..]
  }

  predicate Distinct<T(==)>(s: seq<T>) {
    forall i, j :: 0 <= i < j < |s| ==> s[i] != s[j]
  }

  function Cursor(keys: seq<U64>, p: nat): U64
    requires p <= |Visited(keys)|
  {
    if p == 0 then 0 else Visited(keys)[p - 1]
  }

  lemma {:induction false} IndexIsUnique(keys: seq<U64>, i: nat)
    requires Distinct(keys) && i < |keys|
    ensures IndexOf(keys, keys[i]) == i
  {
    var j := IndexOf(keys, keys[i]);
    assert keys[j] == keys[i];
  }

  lemma KeyAfter(keys: seq<U64>, i: nat)
    requires Distinct(keys) && i < |keys|
    ensures NextKey(keys, keys[i]) == if i + 1 < |keys| then Some(keys[i + 1]) else None
  {
    IndexIsUnique(keys, i);
  }

  /** The cursor that has moved `p` times moves on to the `p`-th visited key. */
  lemma {:induction false} CursorMoves(keys: seq<U64>, p: nat)
    requires Distinct(keys) && p <= |Visited(keys)|
    ensures NextKey(keys, Cursor(keys, p)) == if p < |Visited(keys)| then Some(Visited(keys)[p]) else None
  {
    if p > 0 {
      KeyAfter(keys, Start(keys) + p - 1);
    }
  }

  /** The walk visits no key twice and nothing but keys, and it visits every key exactly when 0 is not one. */
  lemma {:induction false} WalkCompleteIff(keys: seq<U64>)
    requires Distinct(keys)
    ensures Distinct(Visited(keys)) && forall k :: k in Visited(keys) ==> k in keys
    ensures (forall k :: k in keys ==> k in Visited(keys)) <==> 0 !in keys
  {
  }

  // ----- Filters and grouping

  /** The age test in unsigned arithmetic: an early clock wraps around. */
  predicate TooYoung(rec: AllocInfo, now: U64, minAge: U64) {
    Sub(now, minAge) < rec.timestamp
  }

  /** Neither too young nor without a valid stack. */
  predicate Kept(rec: AllocInfo, now: U64, minAge: U64) {
    !TooYoung(rec, now, minAge) && rec.stackId >= 0
  }

  predicate Missing(rec: AllocInfo, now: U64, minAge: U64) {
    !TooYoung(rec, now, minAge) && rec.stackId < 0 && rec.stackId != -EFAULT
  }

  predicate Collision(rec: AllocInfo, now: U64, minAge: U64) {
    !TooYoung(rec, now, minAge) && rec.stackId == -EEXIST
  }

  predicate HasRow(rows: seq<Row>, stackId: S32) {
    exists i :: 0 <= i < |rows| && rows[i].stackId == stackId
  }

  /** The first row of the stack; `|rows|` if there is none. */
  function RowOf(rows: seq<Row>, stackId: S32): (i: nat)
    ensures i <= |rows|
    ensures forall j :: 0 <= j < i ==> rows[j].stackId != stackId
    ensures i < |rows| ==> rows[i].stackId == stackId
    ensures i < |rows| <==> HasRow(rows, stackId)
  {
    if rows == [] then 0
    else if rows[0].stackId == stackId then 0
    else
      var i := RowOf(rows[1..], stackId);
      assert forall j :: 1 <= j < |rows| ==> rows[j] == rows[1..][j - 1];
      1 + i
  }

  function Put(rows: seq<Row>, rec: AllocInfo): seq<Row> {
    var i := RowOf(rows, rec.stackId);
    if i < |rows| then rows[i := rows[i].(size := Add(rows[i].size, rec.size), count := Add(rows[i].count, 1))]
    else rows + [Row(rec.stackId, rec.size, 1, rec.frames)]
  }

  function GroupRows(recs: seq<AllocInfo>): seq<Row> {
    if recs == [] then [] else Put(GroupRows(recs[..|recs| - 1]), recs[|recs| - 1])
  }

  /** The records that survive the filters; the p-th visit reads the clock as `clock(p)`. */
  function Survivors(recs: seq<AllocInfo>, clock: nat -> U64, minAge: U64): seq<AllocInfo> {
    if recs == [] then []
    else
      var n := |recs| - 1;
      Survivors(recs[..n], clock, minAge) + if Kept(recs[n], clock(n), minAge) then [recs[n]] else []
  }

  function Count(recs: seq<AllocInfo>, clock: nat -> U64, minAge: U64, what: (AllocInfo, U64, U64) -> bool): nat {
    if recs == [] then 0
    else
      var n := |recs| - 1;
      Count(recs[..n], clock, minAge, what) + if what(recs[n], clock(n), minAge) then 1 else 0
  }

  /** What the walk has gathered so far. */
  datatype Tally = Tally(rows: seq<Row>, missing: nat, collision: nat)

  function Take(t: Tally, rec: AllocInfo, now: U64, minAge: U64): Tally {
    Tally(if Kept(rec, now, minAge) then Put(t.rows, rec) else t.rows,
          t.missing + if Missing(rec, now, minAge) then 1 else 0,
          t.collision + if Collision(rec, now, minAge) then 1 else 0)
  }

  function TallyOf(recs: seq<AllocInfo>, clock: nat -> U64, minAge: U64): Tally {
    if recs == [] then Tally([], 0, 0)
    else
      var n := |recs| - 1;
      Take(TallyOf(recs[..n], clock, minAge), recs[n], clock(n), minAge)
  }

  lemma {:induction false} TallyMeaning(recs: seq<AllocInfo>, clock: nat -> U64, minAge: U64)
    ensures TallyOf(recs, clock, minAge).rows == GroupRows(Survivors(recs, clock, minAge))
    ensures TallyOf(recs, clock, minAge).missing == Count(recs, clock, minAge, Missing)
    ensures TallyOf(recs, clock, minAge).collision == Count(recs, clock, minAge, Collision)
  {
    if recs != [] {
      var n := |recs| - 1;
      TallyMeaning(recs[..n], clock, minAge);
      var front := Survivors(recs[..n], clock, minAge);
      if Kept(recs[n], clock(n), minAge) {
        assert (front + [recs[n]])[..|front|] == front;
      } else {
        assert front + [] == front;
      }
    }
  }

  /** Descending size, as alloc_size_compare has it. */
  function Compare(x: Row, y: Row): int {
    if x.size > y.size then -1 else if x.size < y.size then 1 else 0
  }

  function NotAfter(): (Row, Row) -> bool {
    (x: Row, y: Row) => Compare(x, y) <= 0
  }

  lemma NotAfterIsTotal()
    ensures TotalPreorder(NotAfter())
  {
  }

  lemma LargestFirst(shown: seq<Row>)
    requires SortedBy(shown, NotAfter())
    ensures forall i, j :: 0 <= i < j < |shown| ==> shown[i].size >= shown[j].size
  {
    forall i, j | 0 <= i < j < |shown| ensures shown[i].size >= shown[j].size {
      assert NotAfter()(shown[i], shown[j]);
    }
  }

  // ----- What the filters mean

  /** The record is at least `minAge` old, by subtraction in 64 bits: a clock below `minAge` wraps
      around and lets almost everything pass. */
  lemma OldEnoughIff(rec: AllocInfo, now: U64, minAge: U64)
    ensures !TooYoung(rec, now, minAge) <==>
      if now >= minAge then now - rec.timestamp >= minAge else now - rec.timestamp + TWO64 >= minAge
  {
  }

  /** The visits at which the record is old enough and its stack id satisfies `what`. */
  function Visits(recs: seq<AllocInfo>, clock: nat -> U64, minAge: U64, what: S32 -> bool): set<nat> {
    set p | 0 <= p < |recs| && OldEnough(recs[p], clock(p), minAge) && what(recs[p].stackId)
  }

  predicate OldEnough(rec: AllocInfo, now: U64, minAge: U64) {
    (now - minAge) % 0x1_0000_0000_0000_0000 >= rec.timestamp
  }

  lemma VisitsNext(recs: seq<AllocInfo>, clock: nat -> U64, minAge: U64, what: S32 -> bool)
    requires recs != []
    ensures var n := |recs| - 1;
      |Visits(recs, clock, minAge, what)| == |Visits(recs[..n], clock, minAge, what)|
        + if OldEnough(recs[n], clock(n), minAge) && what(recs[n].stackId) then 1 else 0
  {
    var n := |recs| - 1;
    var before, after := Visits(recs[..n], clock, minAge, what), Visits(recs, clock, minAge, what);
    assert after == before + if OldEnough(recs[n], clock(n), minAge) && what(recs[n].stackId) then {n} else {};
  }

  /** The warning counts: old enough records with a stack error other than -14 (a fault), and those
      with error -17 (a hash collision). */
  lemma {:induction false} WarningCounts(recs: seq<AllocInfo>, clock: nat -> U64, minAge: U64)
    ensures TallyOf(recs, clock, minAge).missing == |Visits(recs, clock, minAge, (id: S32) => id < 0 && id != -14)|
    ensures TallyOf(recs, clock, minAge).collision == |Visits(recs, clock, minAge, (id: S32) => id == -17)|
  {
    if recs != [] {
      WarningCounts(recs[..|recs| - 1], clock, minAge);
      VisitsNext(recs, clock, minAge, (id: S32) => id < 0 && id != -14);
      VisitsNext(recs, clock, minAge, (id: S32) => id == -17);
    }
  }

  /** The visits that reach the rows: old enough, with a valid stack. */
  function ReachesRows(clock: nat -> U64, minAge: U64): (AllocInfo, nat) -> bool {
    (rec: AllocInfo, p: nat) => OldEnough(rec, clock(p), minAge) && rec.stackId >= 0
  }

  /** Those records are grouped, each once and in the order of the walk. */
  lemma {:induction false} SurvivorsInOrder(recs: seq<AllocInfo>, clock: nat -> U64, minAge: U64) returns (idx: seq<nat>)
    ensures Selects(recs, ReachesRows(clock, minAge), idx)
    ensures Picks(recs, (rec: AllocInfo) => rec, idx, Survivors(recs, clock, minAge))
  {
    if recs == [] {
      idx := [];
    } else {
      var n := |recs| - 1;
      var before := SurvivorsInOrder(recs[..n], clock, minAge);
      SurvivorsNext(recs, clock, minAge);
      idx := PickedNext(recs, ReachesRows(clock, minAge), (rec: AllocInfo) => rec, before,
                        Survivors(recs[..n], clock, minAge), Survivors(recs, clock, minAge));
    }
  }

  lemma SurvivorsNext(recs: seq<AllocInfo>, clock: nat -> U64, minAge: U64)
    requires recs != []
    ensures var n := |recs| - 1;
      Survivors(recs, clock, minAge) == if ReachesRows(clock, minAge)(recs[n], n)
        then Survivors(recs[..n], clock, minAge) + [recs[n]] else Survivors(recs[..n], clock, minAge)
  {
  }

  // ----- The method

  class Printer {
    const minAge: U64
    const rows: array<Row>

    constructor (minAge: U64, entries: nat)
      ensures this.minAge == minAge && rows.Length == entries && fresh(rows)
    {
      this.minAge := minAge;
      rows := new Row[entries](_ => Row(0, 0, 0, []));
    }

    /** Adds one record to the first `nr` rows. */
    method PutRow(nr: nat, rec: AllocInfo) returns (nr': nat)
      requires nr < rows.Length
      modifies rows
      ensures nr <= nr' <= nr + 1
      ensures rows[..nr'] == Put(old(rows[..nr]), rec)
    {
      ghost var before := rows[..nr];
      var i := 0;
      while i < nr && rows[i].stackId != rec.stackId
        invariant i <= nr
        invariant forall j :: 0 <= j < i ==> before[j].stackId != rec.stackId
        invariant rows[..nr] == before
      {
        i := i + 1;
      }
      if i < nr {
        assert before[i].stackId == rec.stackId;
        rows[i] := rows[i].(size := Add(rows[i].size, rec.size), count := Add(rows[i].count, 1));
        assert rows[..nr] == before[i := rows[i]];
        return nr;
      }
      rows[nr] := Row(rec.stackId, rec.size, 1, rec.frames);
      assert rows[..nr + 1] == before + [rows[nr]];
      return nr + 1;
    }

    /** Filters one record and adds it to the rows or to the counts. */
    method TakeRecord(nr: nat, missing: nat, collision: nat, rec: AllocInfo, now: U64)
      returns (nr': nat, missing': nat, collision': nat)
      requires nr < rows.Length
      modifies rows
      ensures nr' <= nr + 1 <= rows.Length
      ensures var t := Take(Tally(old(rows[..nr]), missing, collision), rec, now, minAge);
        rows[..nr'] == t.rows && missing' == t.missing && collision' == t.collision
    {
      nr', missing', collision' := nr, missing, collision;
      if Sub(now, minAge) < rec.timestamp {
        return;
      }
      if rec.stackId < 0 {
        missing' := missing + if rec.stackId != -EFAULT then 1 else 0;
        collision' := collision + if rec.stackId == -EEXIST then 1 else 0;
        return;
      }
      nr' := PutRow(nr, rec);
    }

    /** The walk over the map `m`, which iterates in the order `keys`. */
    method Collect(keys: seq<U64>, m: map<U64, AllocInfo>, clock: nat -> U64)
      returns (nr: nat, missing: nat, collision: nat)
      requires Enumerates(keys, m) && |keys| <= rows.Length
      modifies rows
      ensures nr <= rows.Length
      ensures var t := TallyOf(ValuesOf(Visited(keys), m), clock, minAge);
        rows[..nr] == t.rows && missing == t.missing && collision == t.collision
    {
      ghost var recs := ValuesOf(Visited(keys), m);
      nr, missing, collision := 0, 0, 0;
      var prev: U64 := 0;
      var p := 0;
      while true
        invariant nr <= p <= |recs| && prev == Cursor(keys, p)
        invariant Tallied(rows[..nr], missing, collision, recs, p, clock)
        decreases |recs| - p
      {
        VisitNext(keys, m, p);
        var next := NextKey(keys, prev);
        if next.None? {
          break;
        }
        var curr := next.value;
        TalliedNext(rows[..nr], missing, collision, recs, p, clock);
        nr, missing, collision := TakeRecord(nr, missing, collision, m[curr], clock(p));
        prev := curr;
        p := p + 1;
      }
      assert recs[..p] == recs;
    }

    /** Each move of the cursor yields the next visited record. */
    lemma VisitNext(keys: seq<U64>, m: map<U64, AllocInfo>, p: nat)
      requires Enumerates(keys, m) && p <= |Visited(keys)|
      ensures var recs, next := ValuesOf(Visited(keys), m), NextKey(keys, Cursor(keys, p));
        if p < |recs| then next.Some? && next.value in m && m[next.value] == recs[p] && Cursor(keys, p + 1) == next.value
        else next.None?
    {
      CursorMoves(keys, p);
    }

    ghost predicate Tallied(rs: seq<Row>, missing: nat, collision: nat, recs: seq<AllocInfo>, p: nat, clock: nat -> U64)
      requires p <= |recs|
    {
      var t := TallyOf(recs[..p], clock, minAge);
      rs == t.rows && missing == t.missing && collision == t.collision
    }

    lemma TalliedNext(rs: seq<Row>, missing: nat, collision: nat, recs: seq<AllocInfo>, p: nat, clock: nat -> U64)
      requires p < |recs| && Tallied(rs, missing, collision, recs, p, clock)
      ensures TallyOf(recs[..p + 1], clock, minAge) == Take(Tally(rs, missing, collision), recs[p], clock(p), minAge)
    {
      assert recs[..p + 1][..p] == recs[..p];
    }

    /** Returns the rows as they are printed; afterwards their stack ids are cleared. */
    method PrintOutstandingAllocs(keys: seq<U64>, m: map<U64, AllocInfo>, clock: nat -> U64)
      returns (shown: seq<Row>, missing: nat, collision: nat)
      requires Enumerates(keys, m) && |keys| <= rows.Length
      modifies rows
      ensures forall i, j :: 0 <= i < j < |shown| ==> shown[i].size >= shown[j].size
      ensures var t := TallyOf(ValuesOf(Visited(keys), m), clock, minAge);
        multiset(shown) == multiset(t.rows) && missing == t.missing && collision == t.collision
      ensures |shown| <= rows.Length && forall i :: 0 <= i < |shown| ==> rows[i].stackId == 0
    {
      var nr: nat;
      nr, missing, collision := Collect(keys, m, clock);
      NotAfterIsTotal();
      Qsort(rows, nr, NotAfter());
      shown := rows[..nr];
      LargestFirst(shown);
      ClearIds(nr);
    }

    method ClearIds(nr: nat)
      requires nr <= rows.Length
      modifies rows
      ensures forall i :: 0 <= i < nr ==> rows[i] == old(rows[i]).(stackId := 0)
      ensures forall i :: nr <= i < rows.Length ==> rows[i] == old(rows[i])
    {
      for i := 0 to nr
        invariant forall j :: 0 <= j < i ==> rows[j] == old(rows[j]).(stackId := 0)
        invariant forall j :: i <= j < rows.Length ==> rows[j] == old(rows[j])
      {
        rows[i] := rows[i].(stackId := 0);
      }
    }
  }
}
