/**
 `computecorrections` of the installer: which identifiers of an image differ from the
 configured ones, and in which order they can be renumbered. Lines are matched by whole
 fields.
 */
module Corrections {
  import opened Lists
  import opened Walks
  import opened LineOrder
  import Text

  /** One `name:oldid:name:newid` line, the names coming from the two pasted lists. */
  datatype Row = Row(name: string, oldId: Id, nameDup: string, newId: Id)

  datatype Computed = Ordered(rows: seq<Row>) | UnknownNames(names: seq<string>) | Loops(rows: seq<Row>)

  function OldIds(s: seq<Row>): seq<Id> { Map(s, (r: Row) => r.oldId) }
  function NewIds(s: seq<Row>): seq<Id> { Map(s, (r: Row) => r.newId) }

  /** `paste -d :`; a list that ends early leaves empty fields. */
  function Paste(a: seq<Entry>, b: seq<Entry>): (r: seq<Row>) {
    seq(if |a| >= |b| then |a| else |b|, i requires 0 <= i =>
      var x := if i < |a| then a[i] else Entry("", "");
      var y := if i < |b| then b[i] else Entry("", "");
      Row(x.name, x.id, y.name, y.id))
  }

  // ---------------------------------------------------------------- ordering the rows

  ghost predicate Functional(rows: seq<Row>) {
    forall r, s :: r in rows && s in rows && r.oldId == s.oldId ==> r == s
  }

  /** The relation old identifier -> new identifier of a list of rows. */
  ghost function Relation(rows: seq<Row>): map<Id, Id>
    requires Functional(rows)
  {
    map r | r in rows :: r.oldId := r.newId
  }

  lemma RelationHas(rows: seq<Row>, x: Id)
    requires Functional(rows)
    ensures x in Relation(rows) <==> exists r :: r in rows && r.oldId == x
    ensures forall r :: r in rows && r.oldId == x ==> Relation(rows)[x] == r.newId
  {
  }

  lemma RelationLast(rows: seq<Row>, last: Row, x: Id)
    requires Functional(rows + [last])
    ensures Functional(rows)
    ensures x in Relation(rows + [last]) <==> x in Relation(rows) || x == last.oldId
    ensures x in Relation(rows) ==> Relation(rows + [last])[x] == Relation(rows)[x]
    ensures x == last.oldId ==> Relation(rows + [last])[x] == last.newId
  {
    assert forall r :: r in rows + [last] <==> r in rows || r == last;
    RelationHas(rows, x);
    RelationHas(rows + [last], x);
    hide Relation;
    if x in Relation(rows) {
      var r :| r in rows && r.oldId == x;
      assert r in rows + [last];
    }
    assert last in rows + [last];
  }

  /** No row gives out an identifier that it or a later row still has to move away. */
  ghost predicate SafeOrder(rows: seq<Row>) {
    forall i, j :: 0 <= i <= j < |rows| ==> rows[i].newId != rows[j].oldId
  }

  /** The new identifiers that no row of `left` holds any more. */
  function FreeTargets(left: seq<Row>): seq<Id> { Keep(NewIds(left), t => t !in OldIds(left)) }

  function RowsTo(rows: seq<Row>, ids: seq<Id>): seq<Row> { Keep(rows, (r: Row) => r.newId in ids) }
  function RowsNotTo(rows: seq<Row>, ids: seq<Id>): seq<Row> { Keep(rows, (r: Row) => r.newId !in ids) }

  /** Where the ordering loop stands: every row is emitted or left, and the order so far is safe. */
  ghost predicate Ordering(rows: seq<Row>, emitted: seq<Row>, left: seq<Row>)
    requires Functional(rows)
  {
    && multiset(emitted) + multiset(left) == multiset(rows)
    && SafeOrder(emitted)
    && (forall i, s :: 0 <= i < |emitted| && s in left ==> emitted[i].newId != s.oldId)
    && (forall r :: r in left ==> r in rows)
    && (forall r :: r in rows && ReachesCycle(Relation(rows), r.oldId) ==> r in left)
  }

  /**
   The ordering loop. It always ends; what it cannot emit are exactly the rows whose walk
   runs into a cycle, which are the rows on cycles when new identifiers are distinct.
   */
  method OrderRows(rows: seq<Row>) returns (emitted: seq<Row>, left: seq<Row>)
    requires Functional(rows)
    ensures multiset(emitted) + multiset(left) == multiset(rows)
    ensures SafeOrder(emitted)
    ensures forall r :: r in left <==> r in rows && ReachesCycle(Relation(rows), r.oldId)
    ensures left == [] <==> Acyclic(Relation(rows))
    ensures Injective(Relation(rows)) ==>
      forall r :: r in left <==> r in rows && OnCycle(Relation(rows), r.oldId)
  {
    emitted, left := [], rows;
    while true
      invariant Ordering(rows, emitted, left)
      decreases |left|
    {
      var freeTargets := FreeTargets(left);
      if freeTargets == [] { break; }
      OrderStep(rows, emitted, left);
      emitted, left := emitted + RowsTo(left, freeTargets), RowsNotTo(left, freeTargets);
    }
    NoFreeTarget(left);
    LeftoverReach(rows, left);
    LeftoverAcyclic(rows, left);
    if Injective(Relation(rows)) {
      LeftoverOnCycle(rows, left);
    }
  }

  /** What one round takes out and leaves. */
  lemma BatchFacts(left: seq<Row>, batch: seq<Row>, rest: seq<Row>)
    requires FreeTargets(left) != []
    requires batch == RowsTo(left, FreeTargets(left)) && rest == RowsNotTo(left, FreeTargets(left))
    ensures multiset(batch) + multiset(rest) == multiset(left) && |rest| < |left|
    ensures forall r :: r in left <==> r in batch || r in rest
    ensures forall r, s :: r in batch && s in left ==> r.newId != s.oldId
  {
    var freeTargets := FreeTargets(left);
    KeepSplits(left, (r: Row) => r.newId in freeTargets, (r: Row) => r.newId !in freeTargets);
    FreeRows(left, freeTargets);
    var r :| r in left && r.newId in freeTargets;
    assert r in batch;
  }

  /** One round: the rows with a free new identifier go, the rest stays. */
  lemma OrderStep(rows: seq<Row>, emitted: seq<Row>, left: seq<Row>)
    requires Functional(rows) && Ordering(rows, emitted, left)
    requires FreeTargets(left) != []
    ensures Ordering(rows, emitted + RowsTo(left, FreeTargets(left)), RowsNotTo(left, FreeTargets(left)))
    ensures |RowsNotTo(left, FreeTargets(left))| < |left|
  {
    var batch, rest := RowsTo(left, FreeTargets(left)), RowsNotTo(left, FreeTargets(left));
    BatchFacts(left, batch, rest);
    hide ReachesCycle, Relation, RowsTo, RowsNotTo, FreeTargets;
    BatchIsSafe(emitted, left, batch, rest);
    assert multiset(emitted + batch) + multiset(rest) == multiset(rows);
    hide SafeOrder;
    CyclicRowsStay(rows, left, batch, rest);
  }

  lemma CyclicRowsStay(rows: seq<Row>, left: seq<Row>, batch: seq<Row>, rest: seq<Row>)
    requires Functional(rows)
    requires forall r :: r in left ==> r in batch || r in rest
    requires forall r, s :: r in batch && s in left ==> r.newId != s.oldId
    requires forall r :: r in rows && ReachesCycle(Relation(rows), r.oldId) ==> r in left
    ensures forall r :: r in rows && ReachesCycle(Relation(rows), r.oldId) ==> r in rest
  {
    hide ReachesCycle, Relation;
    forall r | r in rows && ReachesCycle(Relation(rows), r.oldId) ensures r in rest {
      var s := HeldTarget(rows, left, r);
    }
  }

  lemma BatchIsSafe(emitted: seq<Row>, left: seq<Row>, batch: seq<Row>, rest: seq<Row>)
    requires SafeOrder(emitted)
    requires forall i, s :: 0 <= i < |emitted| && s in left ==> emitted[i].newId != s.oldId
    requires forall r :: r in batch || r in rest ==> r in left
    requires forall r, s :: r in batch && s in left ==> r.newId != s.oldId
    ensures SafeOrder(emitted + batch)
    ensures forall i, s :: 0 <= i < |emitted + batch| && s in rest ==> (emitted + batch)[i].newId != s.oldId
  {
    var all := emitted + batch;
    forall i | 0 <= i < |all| ensures i < |emitted| || all[i] in batch {
      if i >= |emitted| { assert all[i] == batch[i - |emitted|]; }
    }
  }

  /** The rows to emit are those whose new identifier no remaining row still holds. */
  lemma FreeRows(left: seq<Row>, freeTargets: seq<Id>)
    requires freeTargets == FreeTargets(left)
    ensures forall r, s :: r in left && r.newId in freeTargets && s in left ==> r.newId != s.oldId
    ensures forall r :: r in left && r.newId !in freeTargets ==> r.newId in OldIds(left)
    ensures freeTargets != [] ==> exists r :: r in left && r.newId in freeTargets
  {
    forall s | s in left ensures s.oldId in OldIds(left) && s.newId in NewIds(left) {
      RowIds(left, s);
    }
    if freeTargets != [] {
      var t := freeTargets[0];
      assert t in freeTargets;
      var i :| 0 <= i < |left| && NewIds(left)[i] == t;
      assert left[i] in left && left[i].newId in freeTargets;
    }
  }

  lemma RowIds(rows: seq<Row>, r: Row)
    requires r in rows
    ensures r.oldId in OldIds(rows) && r.newId in NewIds(rows)
  {
    var i :| 0 <= i < |rows| && rows[i] == r;
    assert OldIds(rows)[i] == r.oldId && NewIds(rows)[i] == r.newId;
  }

  lemma NoFreeTarget(left: seq<Row>)
    requires FreeTargets(left) == []
    ensures forall r :: r in left ==> r.newId in OldIds(left)
  {
    forall r | r in left ensures r.newId in OldIds(left) {
      RowIds(left, r);
    }
  }

  /** A row that reaches a cycle waits for another row that does. */
  lemma HeldTarget(rows: seq<Row>, left: seq<Row>, r: Row) returns (s: Row)
    requires Functional(rows) && r in rows
    requires ReachesCycle(Relation(rows), r.oldId)
    requires forall s :: s in rows && ReachesCycle(Relation(rows), s.oldId) ==> s in left
    ensures r in left && s in left && s.oldId == r.newId
  {
    var m := Relation(rows);
    ReachesCycleStep(m, r.oldId);
    assert m[r.oldId] == r.newId;
    ReachesCycleStep(m, r.newId);
    s :| s in rows && s.oldId == r.newId;
  }

  ghost predicate Leftover(rows: seq<Row>, left: seq<Row>)
    requires Functional(rows)
  {
    && (forall r :: r in left ==> r in rows)
    && (forall r :: r in left ==> r.newId in OldIds(left))
    && (forall r :: r in rows && ReachesCycle(Relation(rows), r.oldId) ==> r in left)
  }

  lemma LeftoverStuck(rows: seq<Row>, left: seq<Row>)
    requires Functional(rows) && Leftover(rows, left)
    ensures Stuck(Relation(rows), Range(OldIds(left)))
    ensures forall r :: r in left ==> r.oldId in Range(OldIds(left))
  {
    var m, held := Relation(rows), Range(OldIds(left));
    forall x | x in held ensures x in m && m[x] in held {
      var i :| 0 <= i < |left| && OldIds(left)[i] == x;
      assert left[i] in left && left[i] in rows && m[left[i].oldId] == left[i].newId;
    }
    forall r | r in left ensures r.oldId in held {
      RowIds(left, r);
    }
  }

  lemma LeftoverReach(rows: seq<Row>, left: seq<Row>)
    requires Functional(rows) && Leftover(rows, left)
    ensures forall r :: r in left ==> ReachesCycle(Relation(rows), r.oldId)
  {
    LeftoverStuck(rows, left);
    forall r | r in left ensures ReachesCycle(Relation(rows), r.oldId) {
      var a, b := StuckReachesCycle(Relation(rows), Range(OldIds(left)), r.oldId);
    }
  }

  lemma LeftoverAcyclic(rows: seq<Row>, left: seq<Row>)
    requires Functional(rows) && Leftover(rows, left)
    ensures left == [] <==> Acyclic(Relation(rows))
  {
    var m := Relation(rows);
    LeftoverStuck(rows, left);
    if left != [] {
      assert left[0] in left;
      var a, b := StuckReachesCycle(m, Range(OldIds(left)), left[0].oldId);
    } else {
      forall x | x in m ensures !OnCycle(m, x) {
        var r :| r in rows && r.oldId == x;
        if OnCycle(m, x) {
          CycleReachesItself(m, x);
        }
      }
    }
  }

  lemma LeftoverOnCycle(rows: seq<Row>, left: seq<Row>)
    requires Functional(rows) && Leftover(rows, left) && Injective(Relation(rows))
    ensures forall r :: r in left <==> r in rows && OnCycle(Relation(rows), r.oldId)
  {
    var m := Relation(rows);
    LeftoverStuck(rows, left);
    forall r | r in left ensures OnCycle(m, r.oldId) {
      StuckIsOnCycle(m, Range(OldIds(left)), r.oldId);
    }
    forall r | r in rows && OnCycle(m, r.oldId) ensures r in left {
      CycleReachesItself(m, r.oldId);
    }
  }

  // ---------------------------------------------------------------- which rows are needed

  /** The two sorted lists of names are compared: equal texts are equal multisets of lines. */
  predicate Known(actual: seq<Entry>, desired: seq<Entry>) {
    multiset(Names(actual)) == multiset(Keep(Names(desired), n => n in Names(actual)))
  }

  /** A well-formed image table: one line and one identifier per name. */
  ghost predicate WellFormed(actual: seq<Entry>) {
    ColonFree(actual) && NoDup(Names(actual)) && NoDup(Ids(actual))
  }

  /** A list of `name:id` lines as a table; the last line of a name counts. */
  ghost function Table(s: seq<Entry>): map<string, Id> {
    if s == [] then map[] else Table(s[..|s| - 1])[s[|s| - 1].name := s[|s| - 1].id]
  }

  /** The configured identifiers of the names that occur in the image. */
  ghost function Wanted(actual: seq<Entry>, desired: seq<Entry>): map<string, Id> {
    map n | n in Table(actual) && n in Table(desired) :: Table(desired)[n]
  }

  /** The simultaneous renumbering: old identifier -> configured identifier where they differ. */
  ghost function Renumbering(table: map<string, Id>, want: map<string, Id>): map<Id, Id>
    requires Injective(table) && table.Keys <= want.Keys
  {
    map n | n in table && table[n] != want[n] :: table[n] := want[n]
  }

  /** `rows` holds one row for each name whose identifier differs, and nothing else. */
  ghost predicate Plan(table: map<string, Id>, want: map<string, Id>, rows: seq<Row>)
    requires table.Keys <= want.Keys
  {
    && (forall r :: r in rows ==>
         r.name in table && table[r.name] != want[r.name] && r == Row(r.name, table[r.name], r.name, want[r.name]))
    && (forall n :: n in table && table[n] != want[n] ==> Row(n, table[n], n, want[n]) in rows)
  }

  lemma {:induction false} CountOne<T>(s: seq<T>, x: T)
    ensures NoDup(s) && x in s ==> multiset(s)[x] == 1
    ensures multiset(s)[x] == 1 ==>
      exists i :: 0 <= i < |s| && s[i] == x && forall j :: 0 <= j < |s| && s[j] == x ==> j == i
  {
    if s != [] {
      var t, y := s[..|s| - 1], s[|s| - 1];
      assert s == t + [y];
      CountOne(t, x);
      if multiset(s)[x] == 1 {
        if y == x {
          assert x !in t;
          assert s[|s| - 1] == x;
        } else {
          var i :| 0 <= i < |t| && t[i] == x && forall j :: 0 <= j < |t| && t[j] == x ==> j == i;
          assert s[i] == x;
        }
      }
    }
  }

  /** The comparison of the name lists accepts exactly when each name is configured once. */
  lemma KnownExactlyOnce(actual: seq<Entry>, desired: seq<Entry>)
    requires NoDup(Names(actual))
    ensures Known(actual, desired) <==>
      forall n :: n in Names(actual) ==> multiset(Names(desired))[n] == 1
  {
    var a, d := Names(actual), Names(desired);
    var both := Keep(d, n => n in Names(actual));
    forall n ensures multiset(both)[n] == if n in a then multiset(d)[n] else 0 {
      KeepCount(d, n => n in Names(actual), n);
    }
    forall n | n in a ensures multiset(a)[n] == 1 {
      CountOne(a, n);
    }
    if forall n :: n in a ==> multiset(d)[n] == 1 {
      forall n ensures multiset(a)[n] == multiset(both)[n] {
      }
    }
  }

  lemma {:induction false} TableOf(s: seq<Entry>)
    ensures forall n :: n in Table(s) <==> n in Names(s)
    ensures forall n :: n in Table(s) ==> Entry(n, Table(s)[n]) in s
  {
    if s != [] {
      var t, e := s[..|s| - 1], s[|s| - 1];
      TableOf(t);
      assert s == t + [e];
      assert Names(s) == Names(t) + [e.name];
    }
  }

  lemma NamedEntry(s: seq<Entry>, e: Entry)
    requires e in s
    ensures e.name in Names(s) && e.id in Ids(s)
  {
    var i :| 0 <= i < |s| && s[i] == e;
    assert Names(s)[i] == e.name && Ids(s)[i] == e.id;
  }

  lemma ActualTable(actual: seq<Entry>)
    requires WellFormed(actual)
    ensures forall e :: e in actual <==> e.name in Table(actual) && Table(actual)[e.name] == e.id
    ensures Injective(Table(actual))
  {
    var t := Table(actual);
    TableOf(actual);
    forall e, f | e in actual && f in actual && (e.name == f.name || e.id == f.id) ensures e == f {
      var i :| 0 <= i < |actual| && actual[i] == e;
      var j :| 0 <= j < |actual| && actual[j] == f;
      assert Names(actual)[i] == e.name && Names(actual)[j] == f.name;
      assert Ids(actual)[i] == e.id && Ids(actual)[j] == f.id;
    }
    forall e | e in actual ensures e.name in t && t[e.name] == e.id {
      NamedEntry(actual, e);
      assert Entry(e.name, t[e.name]) in actual;
    }
    forall a, b | a in t && b in t && t[a] == t[b] ensures a == b {
      assert Entry(a, t[a]) in actual && Entry(b, t[b]) in actual;
    }
  }

  /** Once the names are accepted, each has exactly one configured identifier. */
  lemma WantedTable(actual: seq<Entry>, desired: seq<Entry>)
    requires WellFormed(actual) && Known(actual, desired)
    ensures Wanted(actual, desired).Keys == Table(actual).Keys
    ensures forall d :: d in desired && d.name in Table(actual) ==> Wanted(actual, desired)[d.name] == d.id
    ensures forall n :: n in Table(actual) ==> Entry(n, Wanted(actual, desired)[n]) in desired
  {
    TableOf(actual);
    TableOf(desired);
    KnownExactlyOnce(actual, desired);
    forall d, e | d in desired && e in desired && d.name in Names(actual) && d.name == e.name ensures d == e {
      CountOne(Names(desired), d.name);
      var i :| 0 <= i < |desired| && desired[i] == d;
      var j :| 0 <= j < |desired| && desired[j] == e;
      assert Names(desired)[i] == d.name && Names(desired)[j] == e.name;
    }
    forall n | n in Table(actual) ensures n in Table(desired) {
      CountOne(Names(desired), n);
    }
    forall d | d in desired && d.name in Table(actual) ensures Wanted(actual, desired)[d.name] == d.id {
      assert Entry(d.name, Table(desired)[d.name]) in desired;
    }
  }

  function Needed(actual: seq<Entry>, desired: seq<Entry>): seq<string> {
    var correct := Keep(desired, d => d in actual);
    Names(Keep(actual, a => a !in correct))
  }

  function Lines(s: seq<Entry>, names: seq<string>): seq<Entry> {
    Keep(s, (e: Entry) => e.name in names)
  }

  lemma NeededNames(actual: seq<Entry>, desired: seq<Entry>)
    requires WellFormed(actual) && Known(actual, desired)
    ensures Wanted(actual, desired).Keys == Table(actual).Keys
    ensures forall n :: n in Needed(actual, desired) <==>
      n in Table(actual) && Table(actual)[n] != Wanted(actual, desired)[n]
  {
    var t, w := Table(actual), Wanted(actual, desired);
    ActualTable(actual);
    WantedTable(actual, desired);
    var correct := Keep(desired, d => d in actual);
    var wrong := Keep(actual, a => a !in correct);
    forall n | n in Names(wrong) ensures n in t && t[n] != w[n] {
      var i :| 0 <= i < |wrong| && Names(wrong)[i] == n;
      assert wrong[i] in wrong && wrong[i] in actual && wrong[i] !in correct;
      assert Entry(n, w[n]) in desired;
    }
    forall n | n in t && t[n] != w[n] ensures n in Names(wrong) {
      assert Entry(n, t[n]) in wrong;
      NamedEntry(wrong, Entry(n, t[n]));
    }
  }

  lemma LinesSorted(s: seq<Entry>, names: seq<string>)
    requires Sorted(s) && ColonFree(s)
    requires forall d, e :: d in s && e in s && d.name == e.name && d.name in names ==> d == e
    requires forall n :: n in names ==> n in Names(s)
    ensures NamesSorted(Names(Lines(s, names)))
    ensures forall n :: n in Names(Lines(s, names)) <==> n in names
  {
    var r := Lines(s, names);
    KeepSorted(s, (e: Entry) => e.name in names);
    forall i, j | 0 <= i < j < |r| ensures Names(r)[i] != Names(r)[j] {
      assert r[i] in r && r[j] in r && LineLess(r[i], r[j]);
      LineIrreflexive(r[i]);
    }
    SortedByName(r);
    forall n | n in names ensures n in Names(r) {
      var i :| 0 <= i < |s| && Names(s)[i] == n;
      assert s[i] in s && s[i] in r;
      NamedEntry(r, s[i]);
    }
    forall n | n in Names(r) ensures n in names {
      var i :| 0 <= i < |r| && Names(r)[i] == n;
      assert r[i] in r;
    }
  }

  lemma LineIrreflexive(e: Entry)
    ensures !LineLess(e, e)
  {
    Text.LessIrreflexive(Line(e));
  }

  lemma LinesAlign(actual: seq<Entry>, desired: seq<Entry>)
    requires WellFormed(actual) && Known(actual, desired)
    requires Sorted(actual) && Sorted(desired) && ColonFree(desired)
    ensures var need := Needed(actual, desired);
      Names(Lines(actual, need)) == Names(Lines(desired, need)) &&
      forall n :: n in Names(Lines(actual, need)) <==> n in need
  {
    var need := Needed(actual, desired);
    ActualTable(actual);
    WantedTable(actual, desired);
    NeededNames(actual, desired);
    TableOf(actual);
    forall n | n in need ensures n in Names(desired) {
      NamedEntry(desired, Entry(n, Wanted(actual, desired)[n]));
    }
    LinesSorted(actual, need);
    LinesSorted(desired, need);
    SameNamesAlign(Names(Lines(actual, need)), Names(Lines(desired, need)));
  }

  /** The rows of two lists with the same names. */
  lemma PastedRows(olds: seq<Entry>, news: seq<Entry>)
    requires Names(olds) == Names(news)
    ensures |Paste(olds, news)| == |olds| == |news|
    ensures forall i :: 0 <= i < |olds| ==>
      news[i].name == olds[i].name && Paste(olds, news)[i] == Row(olds[i].name, olds[i].id, olds[i].name, news[i].id)
  {
    assert |olds| == |Names(olds)| == |Names(news)| == |news|;
    forall i | 0 <= i < |olds| ensures news[i].name == olds[i].name {
      assert Names(olds)[i] == Names(news)[i];
    }
  }

  lemma NamePlace(s: seq<Entry>, n: string)
    requires n in Names(s)
    ensures exists i :: 0 <= i < |s| && s[i].name == n
  {
    var i :| 0 <= i < |s| && Names(s)[i] == n;
    assert s[i].name == n;
  }

  /** The pasted lists align: every row carries one name, with its old and its configured identifier. */
  lemma PastedPlan(actual: seq<Entry>, desired: seq<Entry>, rows: seq<Row>)
    requires WellFormed(actual) && Known(actual, desired)
    requires Sorted(actual) && Sorted(desired) && ColonFree(desired)
    requires rows == Paste(Lines(actual, Needed(actual, desired)), Lines(desired, Needed(actual, desired)))
    ensures Wanted(actual, desired).Keys == Table(actual).Keys && Injective(Table(actual))
    ensures Plan(Table(actual), Wanted(actual, desired), rows)
  {
    LinesAlign(actual, desired);
    ActualTable(actual);
    WantedTable(actual, desired);
    NeededNames(actual, desired);
    AlignedPlan(actual, desired, Needed(actual, desired), Table(actual), Wanted(actual, desired), rows);
  }

  lemma AlignedPlan(actual: seq<Entry>, desired: seq<Entry>, need: seq<string>,
                    t: map<string, Id>, w: map<string, Id>, rows: seq<Row>)
    requires t.Keys == w.Keys
    requires forall e :: e in actual ==> e.name in t && t[e.name] == e.id
    requires forall d :: d in desired && d.name in w ==> w[d.name] == d.id
    requires forall n :: n in need <==> n in t && t[n] != w[n]
    requires Names(Lines(actual, need)) == Names(Lines(desired, need))
    requires forall n :: n in need ==> n in Names(Lines(actual, need))
    requires rows == Paste(Lines(actual, need), Lines(desired, need))
    ensures Plan(t, w, rows)
  {
    var olds, news := Lines(actual, need), Lines(desired, need);
    PastedRows(olds, news);
    hide Names, Paste;
    forall i | 0 <= i < |rows|
      ensures rows[i].name in need && rows[i] == Row(rows[i].name, t[rows[i].name], rows[i].name, w[rows[i].name])
    {
      assert olds[i] in olds && news[i] in news;
    }
    forall n | n in need ensures Row(n, t[n], n, w[n]) in rows {
      NamePlace(olds, n);
      var i :| 0 <= i < |olds| && olds[i].name == n;
      assert rows[i].name == n;
    }
  }

  /** The relation of a plan is the simultaneous renumbering itself. */
  lemma PlanRelation(t: map<string, Id>, w: map<string, Id>, rows: seq<Row>)
    requires Injective(t) && t.Keys <= w.Keys && Plan(t, w, rows)
    ensures Functional(rows) && Relation(rows) == Renumbering(t, w)
  {
    var m := Renumbering(t, w);
    forall r | r in rows ensures r.oldId in m && m[r.oldId] == r.newId {
      assert t[r.name] == r.oldId;
    }
    assert Functional(rows);
    forall x | x in m ensures x in Relation(rows) {
      var n :| n in t && t[n] != w[n] && t[n] == x;
      assert Row(n, t[n], n, w[n]) in rows;
    }
  }

  lemma PastedDistinct(actual: seq<Entry>, desired: seq<Entry>, rows: seq<Row>)
    requires WellFormed(actual) && Known(actual, desired)
    requires Sorted(actual) && Sorted(desired) && ColonFree(desired)
    requires rows == Paste(Lines(actual, Needed(actual, desired)), Lines(desired, Needed(actual, desired)))
    ensures NoDup(rows)
  {
    var need := Needed(actual, desired);
    var olds, news := Lines(actual, need), Lines(desired, need);
    LinesAlign(actual, desired);
    PastedRows(olds, news);
    KeepSorted(actual, (e: Entry) => e.name in need);
    hide Needed, Keep, Paste, Names;
    forall i, j | 0 <= i < j < |rows| ensures rows[i] != rows[j] {
      assert LineLess(olds[i], olds[j]);
      LineIrreflexive(olds[i]);
      assert rows[i].name == olds[i].name && rows[i].oldId == olds[i].id;
    }
  }

  lemma SameSizeNoDup<T>(a: seq<T>, b: seq<T>)
    requires NoDup(a) && multiset(a) == multiset(b)
    ensures NoDup(b)
  {
    forall i, j | 0 <= i < j < |b| ensures b[i] != b[j] {
      assert b == b[..i] + [b[i]] + b[i + 1..j] + [b[j]] + b[j + 1..];
      assert b[i] in multiset(b);
      assert b[i] in multiset(a) && b[i] in a;
      CountOne(a, b[i]);
      assert multiset(b)[b[i]] == 1;
    }
  }

  /**
   `computecorrections`. It stops on names without exactly one configured identifier, and on
   cycles, naming the rows that run into one; otherwise it lists one row for each name whose
   identifier differs, in an order in which no row hands out an identifier still in use.
   */
  method ComputeCorrections(actual: seq<Entry>, desired: seq<Entry>) returns (r: Computed)
    requires WellFormed(actual) && ColonFree(desired) && Sorted(actual) && Sorted(desired)
    ensures r.UnknownNames? <==> !Known(actual, desired)
    ensures r.UnknownNames? ==> r.names == Keep(Names(actual), n => n !in Names(desired))
    ensures !r.UnknownNames? ==> Injective(Table(actual)) && Wanted(actual, desired).Keys == Table(actual).Keys
    ensures !r.UnknownNames? ==>
      (r.Ordered? <==> Acyclic(Renumbering(Table(actual), Wanted(actual, desired))))
    ensures r.Ordered? ==> Plan(Table(actual), Wanted(actual, desired), r.rows) && SafeOrder(r.rows) && NoDup(r.rows)
    ensures r.Loops? ==> forall q :: q in r.rows ==>
      q.name in Table(actual) && Table(actual)[q.name] != Wanted(actual, desired)[q.name] &&
      q == Row(q.name, Table(actual)[q.name], q.name, Wanted(actual, desired)[q.name])
    ensures r.Loops? ==>
      forall n :: n in Table(actual) && Table(actual)[n] != Wanted(actual, desired)[n] ==>
        (Row(n, Table(actual)[n], n, Wanted(actual, desired)[n]) in r.rows <==>
         ReachesCycle(Renumbering(Table(actual), Wanted(actual, desired)), Table(actual)[n]))
  {
    if !Known(actual, desired) {
      return UnknownNames(Keep(Names(actual), n => n !in Names(desired)));
    }
    var need := Needed(actual, desired);
    var corrections := Paste(Lines(actual, need), Lines(desired, need));
    PastedPlan(actual, desired, corrections);
    PastedDistinct(actual, desired, corrections);
    ghost var t, w := Table(actual), Wanted(actual, desired);
    PlanRelation(t, w, corrections);
    var emitted, left := OrderRows(corrections);
    if left != [] {
      return Loops(left);
    }
    assert multiset(emitted) == multiset(corrections);
    assert forall x :: x in emitted <==> x in multiset(emitted);
    assert forall x :: x in corrections <==> x in multiset(corrections);
    SameSizeNoDup(corrections, emitted);
    return Ordered(emitted);
  }
}
