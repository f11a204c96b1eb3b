/**
 `fixuidsandgids` of the installer: the user and group identifiers of a freshly built
 system image are renumbered in place, in passwd, in group and on every file.
 */
module ImageIds {
  import opened Lists
  import opened Walks
  import opened LineOrder
  import opened Corrections
  import opened RenumberRun

  /** The fields of a passwd line that the installer touches. */
  datatype Account = Account(name: string, uid: Id, gid: Id)

  datatype Owner = Owner(uid: Id, gid: Id)

  /** `cut -d : -f 1,3 passwd`. */
  function UserEntries(passwd: seq<Account>): seq<Entry> { Map(passwd, (a: Account) => Entry(a.name, a.uid)) }

  /** Every name of `actual` has exactly one identifier in `desired`. */
  ghost predicate ConfiguredOnce(actual: seq<Entry>, desired: seq<Entry>) {
    forall e :: e in actual ==> exists id :: OnlyId(desired, e.name, id)
  }

  ghost predicate OnlyId(desired: seq<Entry>, name: string, id: Id) {
    Entry(name, id) in desired && forall other :: Entry(name, other) in desired ==> other == id
  }

  ghost function Target(desired: seq<Entry>, name: string): Id
    requires exists id :: OnlyId(desired, name, id)
  {
    var id :| OnlyId(desired, name, id); id
  }

  /** The renumbering the configuration asks for: identifiers of lines that it does not contain. */
  ghost function Moves(actual: seq<Entry>, desired: seq<Entry>): map<Id, Id>
    requires WellFormed(actual) && ConfiguredOnce(actual, desired)
  {
    ActualTable(actual);
    map e | e in actual && e !in desired :: e.id := Target(desired, e.name)
  }

  /** Only identifiers of the image move, and each to the one configured for its name. */
  lemma MovesMeaning(actual: seq<Entry>, desired: seq<Entry>, x: Id)
    requires WellFormed(actual) && ConfiguredOnce(actual, desired)
    ensures (forall i :: 0 <= i < |actual| ==> actual[i].id != x) ==> AtOnce(Moves(actual, desired), x) == x
    ensures forall e :: e in actual && e.id == x ==> Entry(e.name, AtOnce(Moves(actual, desired), x)) in desired
  {
    ActualTable(actual);
    forall e | e in actual && e.id == x ensures Entry(e.name, AtOnce(Moves(actual, desired), x)) in desired {
      assert OnlyId(desired, e.name, Target(desired, e.name));
      if e !in desired { assert x in Moves(actual, desired); }
    }
  }

  /** When a phase can be carried out; a phase with nothing to do fails, see `FixUids`. */
  ghost predicate Fixable(actual: seq<Entry>, desired: seq<Entry>)
    requires WellFormed(actual)
  {
    && ConfiguredOnce(actual, desired)
    && Acyclic(Moves(actual, desired))
    && exists e :: e in actual && e !in desired
  }

  lemma UnlistedStay(actual: seq<Entry>, desired: seq<Entry>)
    requires WellFormed(actual) && Fixable(actual, desired)
    ensures forall x :: (forall i :: 0 <= i < |actual| ==> actual[i].id != x) ==> AtOnce(Moves(actual, desired), x) == x
  {
    forall x | forall i :: 0 <= i < |actual| ==> actual[i].id != x ensures AtOnce(Moves(actual, desired), x) == x {
      MovesMeaning(actual, desired, x);
    }
  }

  /** Identifiers the configuration provides are numbers, so their texts are not empty. */
  ghost predicate Numbered(desired: seq<Entry>) { forall d :: d in desired ==> d.id != "" }

  /**
   An image that already agrees with the configuration is not fixable, although its names are
   configured and there is no cycle: the empty list still feeds one line to the loop.
   */
  lemma CorrectImageRefused()
    ensures var image := [Entry("root", "0")];
      WellFormed(image) && ConfiguredOnce(image, image) && Acyclic(Moves(image, image)) && !Fixable(image, image)
  {
    assert OnlyId([Entry("root", "0")], "root", "0");
  }

  // ---------------------------------------------------------------- sorted and unsorted lists

  lemma SortedTables(actual: seq<Entry>, desired: seq<Entry>)
    requires WellFormed(actual) && ColonFree(desired)
    ensures var a, d := Sort(actual, false), Sort(desired, true);
      Sorted(a) && Sorted(d) && ColonFree(d) &&
      (forall e :: e in a <==> e in actual) && (forall e :: e in d <==> e in desired)
  {
    forall i, j | 0 <= i < j < |actual| ensures actual[i] != actual[j] {
      assert Names(actual)[i] != Names(actual)[j];
    }
    SortSorts(actual, false);
    SortSorts(desired, true);
  }

  lemma SortedWellFormed(actual: seq<Entry>, a: seq<Entry>)
    requires WellFormed(actual) && Sorted(a) && (forall e :: e in a <==> e in actual)
    ensures WellFormed(a)
  {
    ActualTable(actual);
    var t := Table(actual);
    forall i, j | 0 <= i < j < |a| ensures Names(a)[i] != Names(a)[j] && Ids(a)[i] != Ids(a)[j] {
      assert a[i] in a && a[j] in a && LineLess(a[i], a[j]);
      LineIrreflexive(a[i]);
      assert a[i] in actual && a[j] in actual;
    }
  }

  lemma SortedNoDup(d: seq<Entry>)
    requires Sorted(d)
    ensures NoDup(d)
  {
    forall i, j | 0 <= i < j < |d| ensures d[i] != d[j] {
      assert LineLess(d[i], d[j]);
      LineIrreflexive(d[i]);
    }
  }

  /** The name check of the installer says: configured exactly once. */
  lemma KnownMeansConfigured(a: seq<Entry>, d: seq<Entry>)
    requires WellFormed(a) && Sorted(d)
    ensures Known(a, d) <==> ConfiguredOnce(a, d)
  {
    KnownExactlyOnce(a, d);
    SortedNoDup(d);
    if Known(a, d) {
      WantedTable(a, d);
      ActualTable(a);
      forall e | e in a ensures exists id :: OnlyId(d, e.name, id) {
        assert OnlyId(d, e.name, Wanted(a, d)[e.name]);
      }
    }
    if ConfiguredOnce(a, d) {
      forall n | n in Names(a) ensures multiset(Names(d))[n] == 1 {
        NameOnce(a, d, n);
      }
    }
  }

  lemma SameOnce(actual: seq<Entry>, desired: seq<Entry>, a: seq<Entry>, d: seq<Entry>)
    requires (forall e :: e in a <==> e in actual) && (forall e :: e in d <==> e in desired)
    ensures ConfiguredOnce(a, d) <==> ConfiguredOnce(actual, desired)
  {
    forall n, id ensures OnlyId(d, n, id) <==> OnlyId(desired, n, id) {
    }
  }

  lemma NameOnce(a: seq<Entry>, d: seq<Entry>, n: string)
    requires ConfiguredOnce(a, d) && NoDup(d) && n in Names(a)
    ensures multiset(Names(d))[n] == 1
  {
    var k :| 0 <= k < |a| && Names(a)[k] == n;
    assert a[k] in a;
    var id :| OnlyId(d, a[k].name, id);
    var i :| 0 <= i < |d| && d[i] == Entry(n, id);
    forall j | 0 <= j < |d| && Names(d)[j] == n ensures j == i {
      assert d[j] in d && d[j] == Entry(n, d[j].id);
    }
    OnlyPlaceCounts(Names(d), i);
  }

  lemma {:induction false} OnlyPlaceCounts<T>(s: seq<T>, i: nat)
    requires i < |s| && forall j :: 0 <= j < |s| && s[j] == s[i] ==> j == i
    ensures multiset(s)[s[i]] == 1
  {
    var x := s[i];
    assert s == s[..i] + [x] + s[i + 1..];
    assert x !in s[..i] && x !in s[i + 1..];
  }

  /** The renumbering computed from the sorted lists is the one the configuration asks for. */
  lemma MovesComputed(actual: seq<Entry>, desired: seq<Entry>)
    requires WellFormed(actual) && ColonFree(desired) && ConfiguredOnce(actual, desired)
    ensures var a, d := Sort(actual, false), Sort(desired, true);
      WellFormed(a) && Known(a, d) && Wanted(a, d).Keys == Table(a).Keys && Injective(Table(a)) &&
      Renumbering(Table(a), Wanted(a, d)) == Moves(actual, desired) &&
      (forall e :: e in actual ==> e.name in Table(a) && Table(a)[e.name] == e.id) &&
      (forall n :: n in Table(a) ==> Entry(n, Table(a)[n]) in actual) &&
      (forall n :: n in Table(a) ==> Entry(n, Wanted(a, d)[n]) in desired)
  {
    var a, d := Sort(actual, false), Sort(desired, true);
    SortedTables(actual, desired);
    SortedWellFormed(actual, a);
    SameOnce(actual, desired, a, d);
    KnownMeansConfigured(a, d);
    ActualTable(a);
    WantedTable(a, d);
    var t, w, m := Table(a), Wanted(a, d), Moves(actual, desired);
    forall e | e in actual ensures w[e.name] == Target(desired, e.name) {
      assert Entry(e.name, Target(desired, e.name)) in d;
    }
    RenumberingIsMoves(actual, desired, t, w);
  }

  lemma RenumberingIsMoves(actual: seq<Entry>, desired: seq<Entry>, t: map<string, Id>, w: map<string, Id>)
    requires WellFormed(actual) && ConfiguredOnce(actual, desired)
    requires t.Keys == w.Keys && Injective(t)
    requires forall e :: e in actual <==> e.name in t && t[e.name] == e.id
    requires forall e :: e in actual ==> w[e.name] == Target(desired, e.name)
    ensures Renumbering(t, w) == Moves(actual, desired)
  {
    var m, r := Moves(actual, desired), Renumbering(t, w);
    forall e | e in actual ensures e in desired <==> w[e.name] == t[e.name] {
    }
    forall x | x in m ensures x in r && r[x] == m[x] {
      var e :| e in actual && e !in desired && e.id == x;
      assert t[e.name] == x;
    }
    forall x | x in r ensures x in m {
      var n :| n in t && t[n] != w[n] && t[n] == x;
      assert Entry(n, x) in actual;
    }
  }

  // ---------------------------------------------------------------- the image

  /** The lines `while read` sees: `echo` of an empty list still feeds one empty line. */
  function Fed(rows: seq<Row>): seq<Row> { if rows == [] then [Row("", "", "", "")] else rows }

  /**
   A row is carried out unless the pasted names differ, which is reported, or there is no new
   identifier, which leaves `chown` without an owner argument.
   */
  predicate Feasible(r: Row) { r.name == r.nameDup && r.newId != "" }

  function UsersAfter(passwd: seq<Account>, rows: seq<Row>): seq<Account> {
    Map(passwd, (a: Account) => a.(uid := RunName(rows, a.name, a.uid)))
  }

  function PrimaryGroupsAfter(passwd: seq<Account>, rows: seq<Row>): seq<Account> {
    Map(passwd, (a: Account) => a.(gid := RunIds(rows, a.gid)))
  }

  function GroupsAfter(group: seq<Entry>, rows: seq<Row>): seq<Entry> {
    Map(group, (g: Entry) => g.(id := RunName(rows, g.name, g.id)))
  }

  function UserFilesAfter(files: map<string, Owner>, rows: seq<Row>): map<string, Owner> {
    map f | f in files :: files[f].(uid := RunIds(rows, files[f].uid))
  }

  function GroupFilesAfter(files: map<string, Owner>, rows: seq<Row>): map<string, Owner> {
    map f | f in files :: files[f].(gid := RunIds(rows, files[f].gid))
  }

  /**
   Carrying out `rows` one by one renumbers every identifier as the configuration asks, and
   the line of a name and the files of its identifier get the same, configured, identifier.
   */
  ghost predicate CarriesOut(actual: seq<Entry>, desired: seq<Entry>, rows: seq<Row>)
    requires WellFormed(actual) && ConfiguredOnce(actual, desired)
  {
    && (forall e :: e in actual ==> Entry(e.name, RunName(rows, e.name, e.id)) in desired)
    && (forall e :: e in actual ==> RunIds(rows, e.id) == RunName(rows, e.name, e.id))
    && (forall x :: RunIds(rows, x) == AtOnce(Moves(actual, desired), x))
    && (rows == [] <==> forall e :: e in actual ==> e in desired)
    && (forall r :: r in rows ==> Feasible(r))
  }

  /** There is a row for each line that the configuration does not contain, and no other row. */
  ghost predicate Asked(actual: seq<Entry>, desired: seq<Entry>, rows: seq<Row>) {
    && (forall r :: r in rows ==> r.nameDup == r.name && Entry(r.name, r.newId) in desired)
    && (forall r :: r in rows ==> Entry(r.name, r.oldId) in actual && Entry(r.name, r.oldId) !in desired)
    && (forall e :: e in actual && e !in desired ==> exists r :: r in rows && r.name == e.name && r.oldId == e.id)
  }

  lemma PlanCarriedOut(actual: seq<Entry>, desired: seq<Entry>, rows: seq<Row>)
    requires WellFormed(actual) && ColonFree(desired) && Numbered(desired) && ConfiguredOnce(actual, desired)
    requires var a, d := Sort(actual, false), Sort(desired, true);
      Wanted(a, d).Keys == Table(a).Keys && Plan(Table(a), Wanted(a, d), rows)
    requires SafeOrder(rows)
    ensures CarriesOut(actual, desired, rows) && Asked(actual, desired, rows)
  {
    var a, d := Sort(actual, false), Sort(desired, true);
    var t, w := Table(a), Wanted(a, d);
    MovesComputed(actual, desired);
    PlanRelation(t, w, rows);
    forall x ensures RunIds(rows, x) == AtOnce(Moves(actual, desired), x) {
      SafeRunIsSimultaneous(rows, x);
    }
    WholeRunReachesWanted(t, w, rows);
    forall e | e in actual
      ensures Entry(e.name, RunName(rows, e.name, e.id)) in desired
      ensures RunIds(rows, e.id) == RunName(rows, e.name, e.id)
    {
      OwnerFollowsName(t, w, rows, e.name);
      assert TableAfter(t, rows)[e.name] == w[e.name];
    }
    forall r | r in rows ensures Feasible(r) && Entry(r.name, r.oldId) in actual && Entry(r.name, r.oldId) !in desired {
      var id :| OnlyId(desired, r.name, id);
      assert Entry(r.name, w[r.name]) in desired;
    }
    forall e | e in actual && e !in desired ensures exists r :: r in rows && r.name == e.name && r.oldId == e.id {
      assert Row(e.name, t[e.name], e.name, w[e.name]) in rows;
    }
    if rows != [] {
      assert rows[0] in rows;
    }
  }

  /** The common part of both phases: the two lists are sorted and the rows computed in full. */
  method PlanPhase(actual: seq<Entry>, configured: seq<Entry>) returns (plan: Option<seq<Row>>)
    requires WellFormed(actual) && ColonFree(configured) && Numbered(configured)
    ensures plan.Some? <==> ConfiguredOnce(actual, configured) && Acyclic(Moves(actual, configured))
    ensures plan.Some? ==> CarriesOut(actual, configured, plan.value) && Asked(actual, configured, plan.value)
    ensures plan.Some? ==> forall r :: r in plan.value ==> r.name == r.nameDup && r.newId != ""
    ensures plan.Some? && plan.value != [] <==> Fixable(actual, configured)
  {
    var a, d := Sort(actual, false), Sort(configured, true);
    SortedTables(actual, configured);
    SortedWellFormed(actual, a);
    KnownMeansConfigured(a, d);
    SameOnce(actual, configured, a, d);
    var r := ComputeCorrections(a, d);
    if r.UnknownNames? { return None; }
    MovesComputed(actual, configured);
    if r.Loops? { return None; }
    PlanCarriedOut(actual, configured, r.rows);
    return Some(r.rows);
  }

  lemma UsersCarriedOut(passwd: seq<Account>, configured: seq<Entry>, rows: seq<Row>)
    requires WellFormed(UserEntries(passwd)) && ConfiguredOnce(UserEntries(passwd), configured)
    requires CarriesOut(UserEntries(passwd), configured, rows)
    ensures forall a :: a in UsersAfter(passwd, rows) ==> Entry(a.name, a.uid) in configured
    ensures forall x :: RunIds(rows, x) == AtOnce(Moves(UserEntries(passwd), configured), x)
    ensures forall i :: 0 <= i < |passwd| ==> UsersAfter(passwd, rows)[i].uid == RunIds(rows, passwd[i].uid)
  {
    forall i | 0 <= i < |passwd|
      ensures Entry(passwd[i].name, UsersAfter(passwd, rows)[i].uid) in configured
      ensures UsersAfter(passwd, rows)[i].uid == RunIds(rows, passwd[i].uid)
    {
      assert UserEntries(passwd)[i] in UserEntries(passwd);
    }
  }

  lemma GroupsCarriedOut(group: seq<Entry>, configured: seq<Entry>, rows: seq<Row>)
    requires WellFormed(group) && ConfiguredOnce(group, configured) && CarriesOut(group, configured, rows)
    ensures forall g :: g in GroupsAfter(group, rows) ==> g in configured
    ensures forall x :: RunIds(rows, x) == AtOnce(Moves(group, configured), x)
    ensures forall i :: 0 <= i < |group| ==> GroupsAfter(group, rows)[i].id == RunIds(rows, group[i].id)
  {
    forall i | 0 <= i < |group|
      ensures GroupsAfter(group, rows)[i] in configured
      ensures GroupsAfter(group, rows)[i].id == RunIds(rows, group[i].id)
    {
      assert group[i] in group;
    }
  }

  /** What the user phase leaves once its plan is carried out. */
  ghost predicate UsersFixed(passwd: seq<Account>, files: map<string, Owner>, configured: seq<Entry>,
                             accounts: seq<Account>, owned: map<string, Owner>)
    requires WellFormed(UserEntries(passwd)) && ConfiguredOnce(UserEntries(passwd), configured)
  {
    && |accounts| == |passwd| && owned.Keys == files.Keys
    && (forall i :: 0 <= i < |passwd| ==> accounts[i] == passwd[i].(uid := accounts[i].uid))
    && (forall a :: a in accounts ==> Entry(a.name, a.uid) in configured)
    && (forall f :: f in files ==>
         owned[f] == files[f].(uid := AtOnce(Moves(UserEntries(passwd), configured), files[f].uid)))
    && (forall f, i :: f in files && 0 <= i < |passwd| && files[f].uid == passwd[i].uid ==>
         owned[f].uid == accounts[i].uid)
  }

  lemma UsersEnd(passwd: seq<Account>, files: map<string, Owner>, configured: seq<Entry>, rows: seq<Row>)
    requires WellFormed(UserEntries(passwd)) && ConfiguredOnce(UserEntries(passwd), configured)
    requires CarriesOut(UserEntries(passwd), configured, rows)
    ensures UsersFixed(passwd, files, configured, UsersAfter(passwd, rows), UserFilesAfter(files, rows))
  {
    UsersCarriedOut(passwd, configured, rows);
    hide CarriesOut, WellFormed, ConfiguredOnce, Moves, AtOnce, RunIds, RunName;
  }

  ghost predicate GroupsFixed(passwd: seq<Account>, group: seq<Entry>, files: map<string, Owner>,
                              configured: seq<Entry>, accounts: seq<Account>, groups: seq<Entry>,
                              owned: map<string, Owner>)
    requires WellFormed(group) && ConfiguredOnce(group, configured)
  {
    && |accounts| == |passwd| && |groups| == |group| && owned.Keys == files.Keys
    && (forall i :: 0 <= i < |group| ==> groups[i].name == group[i].name)
    && (forall g :: g in groups ==> g in configured)
    && (forall i :: 0 <= i < |passwd| ==>
         accounts[i] == passwd[i].(gid := AtOnce(Moves(group, configured), passwd[i].gid)))
    && (forall f :: f in files ==> owned[f] == files[f].(gid := AtOnce(Moves(group, configured), files[f].gid)))
    && (forall f, i :: f in files && 0 <= i < |group| && files[f].gid == group[i].id ==> owned[f].gid == groups[i].id)
    && (forall k, i :: 0 <= k < |passwd| && 0 <= i < |group| && passwd[k].gid == group[i].id ==>
         accounts[k].gid == groups[i].id)
  }

  lemma GroupsEnd(passwd: seq<Account>, group: seq<Entry>, files: map<string, Owner>,
                  configured: seq<Entry>, rows: seq<Row>)
    requires WellFormed(group) && ConfiguredOnce(group, configured) && CarriesOut(group, configured, rows)
    ensures GroupsFixed(passwd, group, files, configured,
                        PrimaryGroupsAfter(passwd, rows), GroupsAfter(group, rows), GroupFilesAfter(files, rows))
  {
    GroupsCarriedOut(group, configured, rows);
    hide CarriesOut, WellFormed, ConfiguredOnce, Moves, AtOnce, RunIds, RunName;
  }

  /** One more row: the edits of passwd and group, and the change of ownership. */
  lemma OneMoreRow(passwd: seq<Account>, group: seq<Entry>, files: map<string, Owner>, rows: seq<Row>, r: Row)
    ensures UsersAfter(passwd, rows + [r]) ==
      Map(UsersAfter(passwd, rows), (a: Account) => a.(uid := Edited(a.name, a.uid, r)))
    ensures PrimaryGroupsAfter(passwd, rows + [r]) ==
      Map(PrimaryGroupsAfter(passwd, rows), (a: Account) => a.(gid := Moved(a.gid, r)))
    ensures GroupsAfter(group, rows + [r]) ==
      Map(GroupsAfter(group, rows), (g: Entry) => g.(id := Edited(g.name, g.id, r)))
    ensures UserFilesAfter(files, rows + [r]) ==
      map f | f in UserFilesAfter(files, rows) ::
        UserFilesAfter(files, rows)[f].(uid := Moved(UserFilesAfter(files, rows)[f].uid, r))
    ensures GroupFilesAfter(files, rows + [r]) ==
      map f | f in GroupFilesAfter(files, rows) ::
        GroupFilesAfter(files, rows)[f].(gid := Moved(GroupFilesAfter(files, rows)[f].gid, r))
  {
    assert (rows + [r])[..|rows + [r]| - 1] == rows;
  }

  /** The one empty line that an empty list feeds edits nothing. */
  lemma EmptyRowEditsNothing(passwd: seq<Account>, group: seq<Entry>, files: map<string, Owner>)
    ensures UsersAfter(passwd, []) == passwd == PrimaryGroupsAfter(passwd, []) && GroupsAfter(group, []) == group
    ensures UserFilesAfter(files, []) == files == GroupFilesAfter(files, [])
    ensures Map(passwd, (a: Account) => a.(uid := Edited(a.name, a.uid, Row("", "", "", "")))) == passwd
    ensures Map(passwd, (a: Account) => a.(gid := Moved(a.gid, Row("", "", "", "")))) == passwd
    ensures Map(group, (g: Entry) => g.(id := Edited(g.name, g.id, Row("", "", "", "")))) == group
  {
  }

  class Image {
    var passwd: seq<Account>
    var group: seq<Entry>
    var files: map<string, Owner>

    /**
     The loop of the first phase over the lines fed to it. It stops at the first row that
     cannot be carried out; the rows before it have been, and of a row without a new identifier
     also the edit of passwd.
     */
    method ApplyUids(rows: seq<Row>) returns (ok: bool, ghost done: nat)
      modifies this
      ensures group == old(group)
      ensures ok <==> rows != [] && forall r :: r in rows ==> r.name == r.nameDup && r.newId != ""
      ensures done <= |rows| && (done == |rows| <==> ok || rows == [])
      ensures forall i :: 0 <= i < done ==> Feasible(rows[i])
      ensures done < |rows| ==> !Feasible(rows[done])
      ensures ok ==> passwd == UsersAfter(old(passwd), rows) && files == UserFilesAfter(old(files), rows)
      ensures rows == [] ==> passwd == old(passwd) && files == old(files)
      ensures files == UserFilesAfter(old(files), rows[..done])
      ensures done == |rows| || rows[done].name != rows[done].nameDup ==>
        passwd == UsersAfter(old(passwd), rows[..done])
      ensures done < |rows| && rows[done].name == rows[done].nameDup ==>
        passwd == UsersAfter(old(passwd), rows[..done + 1])
    {
      var lines := Fed(rows);
      assert rows == [] ==> !Feasible(lines[0]) && lines[0] in lines;
      EmptyRowEditsNothing(passwd, group, files);
      hide UsersAfter, PrimaryGroupsAfter, GroupsAfter, UserFilesAfter, GroupFilesAfter, Edited, Moved;
      for i := 0 to |lines|
        invariant group == old(group)
        invariant passwd == UsersAfter(old(passwd), lines[..i])
        invariant files == UserFilesAfter(old(files), lines[..i])
        invariant forall r :: r in lines[..i] ==> Feasible(r)
      {
        var r := lines[i];
        done := if rows == [] then 0 else i;
        assert lines[..i + 1] == lines[..i] + [r] && r in lines;
        OneMoreRow(old(passwd), old(group), old(files), lines[..i], r);
        if r.name != r.nameDup { return false, done; }
        passwd := Map(passwd, (a: Account) => a.(uid := Edited(a.name, a.uid, r)));
        if r.newId == "" { return false, done; }
        files := map f | f in files :: files[f].(uid := Moved(files[f].uid, r));
      }
      assert lines[..|lines|] == lines && rows[..|rows|] == rows;
      return true, |rows|;
    }

    /** The loop of the second phase: also the primary-group column of passwd follows. */
    method ApplyGids(rows: seq<Row>) returns (ok: bool, ghost done: nat)
      modifies this
      ensures ok <==> rows != [] && forall r :: r in rows ==> r.name == r.nameDup && r.newId != ""
      ensures done <= |rows| && (done == |rows| <==> ok || rows == [])
      ensures forall i :: 0 <= i < done ==> Feasible(rows[i])
      ensures done < |rows| ==> !Feasible(rows[done])
      ensures ok ==> passwd == PrimaryGroupsAfter(old(passwd), rows)
      ensures ok ==> group == GroupsAfter(old(group), rows) && files == GroupFilesAfter(old(files), rows)
      ensures rows == [] ==> passwd == old(passwd) && group == old(group) && files == old(files)
      ensures files == GroupFilesAfter(old(files), rows[..done])
      ensures done == |rows| || rows[done].name != rows[done].nameDup ==>
        passwd == PrimaryGroupsAfter(old(passwd), rows[..done]) && group == GroupsAfter(old(group), rows[..done])
      ensures done < |rows| && rows[done].name == rows[done].nameDup ==>
        passwd == PrimaryGroupsAfter(old(passwd), rows[..done + 1]) &&
        group == GroupsAfter(old(group), rows[..done + 1])
    {
      var lines := Fed(rows);
      assert rows == [] ==> !Feasible(lines[0]) && lines[0] in lines;
      EmptyRowEditsNothing(passwd, group, files);
      hide UsersAfter, PrimaryGroupsAfter, GroupsAfter, UserFilesAfter, GroupFilesAfter, Edited, Moved;
      for i := 0 to |lines|
        invariant passwd == PrimaryGroupsAfter(old(passwd), lines[..i])
        invariant group == GroupsAfter(old(group), lines[..i])
        invariant files == GroupFilesAfter(old(files), lines[..i])
        invariant forall r :: r in lines[..i] ==> Feasible(r)
      {
        var r := lines[i];
        done := if rows == [] then 0 else i;
        assert lines[..i + 1] == lines[..i] + [r] && r in lines;
        OneMoreRow(old(passwd), old(group), old(files), lines[..i], r);
        if r.name != r.nameDup { return false, done; }
        passwd := Map(passwd, (a: Account) => a.(gid := Moved(a.gid, r)));
        group := Map(group, (g: Entry) => g.(id := Edited(g.name, g.id, r)));
        if r.newId == "" { return false, done; }
        files := map f | f in files :: files[f].(gid := Moved(files[f].gid, r));
      }
      assert lines[..|lines|] == lines && rows[..|rows|] == rows;
      return true, |rows|;
    }

    /**
     The user phase. It succeeds exactly when the configuration knows every user once, the
     renumbering has no cycle and there is something to renumber; otherwise nothing changes.
     Afterwards every user has the configured identifier and still owns the same files.
     */
    method FixUids(configured: seq<Entry>) returns (ok: bool)
      requires WellFormed(UserEntries(passwd)) && ColonFree(configured) && Numbered(configured)
      modifies this
      ensures group == old(group)
      ensures ok <==> Fixable(old(UserEntries(passwd)), configured)
      ensures !ok ==> passwd == old(passwd) && files == old(files)
      ensures |passwd| == |old(passwd)| && files.Keys == old(files).Keys
      ensures ok ==> forall i :: 0 <= i < |passwd| ==>
        passwd[i] == old(passwd)[i].(uid := passwd[i].uid)
      ensures ok ==> forall a :: a in passwd ==> Entry(a.name, a.uid) in configured
      ensures ok ==> forall f :: f in files ==>
        files[f] == old(files)[f].(uid := AtOnce(Moves(old(UserEntries(passwd)), configured), old(files)[f].uid))
      ensures ok ==> forall f, i :: f in files && 0 <= i < |passwd| && old(files)[f].uid == old(passwd)[i].uid ==>
        files[f].uid == passwd[i].uid
    {
      var actual := UserEntries(passwd);
      var plan := PlanPhase(actual, configured);
      if plan.None? { return false; }
      UsersEnd(passwd, files, configured, plan.value);
      hide CarriesOut, Asked, Fixable, WellFormed, ConfiguredOnce, Moves, AtOnce, UsersAfter, UserFilesAfter;
      ghost var done;
      ok, done := ApplyUids(plan.value);
    }

    /** The group phase: groups, the primary-group column and the group of every file follow together. */
    method FixGids(configured: seq<Entry>) returns (ok: bool)
      requires WellFormed(group) && ColonFree(configured) && Numbered(configured)
      modifies this
      ensures ok <==> Fixable(old(group), configured)
      ensures !ok ==> passwd == old(passwd) && group == old(group) && files == old(files)
      ensures |passwd| == |old(passwd)| && |group| == |old(group)| && files.Keys == old(files).Keys
      ensures ok ==> forall i :: 0 <= i < |group| ==> group[i].name == old(group)[i].name
      ensures ok ==> forall g :: g in group ==> g in configured
      ensures ok ==> forall i :: 0 <= i < |passwd| ==>
        passwd[i] == old(passwd)[i].(gid := AtOnce(Moves(old(group), configured), old(passwd)[i].gid))
      ensures ok ==> forall f :: f in files ==>
        files[f] == old(files)[f].(gid := AtOnce(Moves(old(group), configured), old(files)[f].gid))
      ensures ok ==> forall f, i :: f in files && 0 <= i < |group| && old(files)[f].gid == old(group)[i].id ==>
        files[f].gid == group[i].id
      ensures ok ==> forall k, i :: 0 <= k < |passwd| && 0 <= i < |group| && old(passwd)[k].gid == old(group)[i].id ==>
        passwd[k].gid == group[i].id
    {
      var plan := PlanPhase(group, configured);
      if plan.None? { return false; }
      GroupsEnd(passwd, group, files, configured, plan.value);
      hide CarriesOut, Asked, Fixable, WellFormed, ConfiguredOnce, Moves, AtOnce;
      hide PrimaryGroupsAfter, GroupsAfter, GroupFilesAfter;
      ghost var done;
      ok, done := ApplyGids(plan.value);
    }

    /**
     Both phases. The second one is computed only after the first was applied, so a refusal
     there leaves the users renumbered and the groups as they were, in group, in the
     primary-group column and on the files. Otherwise each file ends as the pair of the two
     substitutions, and users, primary groups, groups and files still agree.
     */
    method FixUidsAndGids(users: seq<Entry>, groups: seq<Entry>) returns (ok: bool)
      requires WellFormed(UserEntries(passwd)) && ColonFree(users) && Numbered(users)
      requires WellFormed(group) && ColonFree(groups) && Numbered(groups)
      modifies this
      ensures ok <==> Fixable(old(UserEntries(passwd)), users) && Fixable(old(group), groups)
      ensures |passwd| == |old(passwd)| && |group| == |old(group)| && files.Keys == old(files).Keys
      // a refused user phase
      ensures !Fixable(old(UserEntries(passwd)), users) ==>
        passwd == old(passwd) && group == old(group) && files == old(files)
      // users after their phase, whatever becomes of the groups
      ensures Fixable(old(UserEntries(passwd)), users) ==> forall k :: 0 <= k < |passwd| ==>
        passwd[k].name == old(passwd)[k].name && Entry(passwd[k].name, passwd[k].uid) in users
      ensures Fixable(old(UserEntries(passwd)), users) ==> forall f :: f in files ==>
        files[f].uid == AtOnce(Moves(old(UserEntries(passwd)), users), old(files)[f].uid)
      // a refused group phase
      ensures !Fixable(old(group), groups) ==> group == old(group)
      ensures !Fixable(old(group), groups) ==> forall k :: 0 <= k < |passwd| ==> passwd[k].gid == old(passwd)[k].gid
      ensures !Fixable(old(group), groups) ==> forall f :: f in files ==> files[f].gid == old(files)[f].gid
      // groups and primary groups
      ensures ok ==> forall i :: 0 <= i < |group| ==> group[i].name == old(group)[i].name && group[i] in groups
      ensures ok ==> forall k :: 0 <= k < |passwd| ==>
        passwd[k].gid == AtOnce(Moves(old(group), groups), old(passwd)[k].gid)
      ensures ok ==> forall k, i :: 0 <= k < |passwd| && 0 <= i < |group| ==>
        old(passwd)[k].gid == old(group)[i].id ==> passwd[k].gid == group[i].id
      ensures ok ==> forall k :: 0 <= k < |passwd| ==>
        (forall i :: 0 <= i < |group| ==> old(group)[i].id != old(passwd)[k].gid) ==>
        passwd[k].gid == old(passwd)[k].gid
      // files
      ensures ok ==> forall f :: f in files ==>
        files[f] == Owner(AtOnce(Moves(old(UserEntries(passwd)), users), old(files)[f].uid),
                          AtOnce(Moves(old(group), groups), old(files)[f].gid))
      ensures ok ==> forall f, k :: f in files && 0 <= k < |passwd| ==>
        old(files)[f].uid == old(passwd)[k].uid ==> files[f].uid == passwd[k].uid
      ensures ok ==> forall f, i :: f in files && 0 <= i < |group| ==>
        old(files)[f].gid == old(group)[i].id ==> files[f].gid == group[i].id
      ensures ok ==> forall f :: f in files ==>
        ((forall k :: 0 <= k < |passwd| ==> old(passwd)[k].uid != old(files)[f].uid) ==>
          files[f].uid == old(files)[f].uid) &&
        ((forall i :: 0 <= i < |group| ==> old(group)[i].id != old(files)[f].gid) ==>
          files[f].gid == old(files)[f].gid)
    {
      hide Fixable, WellFormed, ConfiguredOnce, Moves, AtOnce, ColonFree, Numbered;
      ghost var actual := UserEntries(passwd);
      ok := FixUids(users);
      if !ok { return false; }
      ok := FixGids(groups);
      if ok {
        UnlistedStay(actual, users);
        UnlistedStay(old(group), groups);
        assert forall k :: 0 <= k < |actual| ==> actual[k].id == old(passwd)[k].uid;
      }
    }
  }
}
