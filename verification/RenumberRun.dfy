/**
 What a list of renumberings does when it is carried out row by row: on one identifier
 (`chown --from`, the primary-group column) and on the line of one name (passwd, group).
 */
module RenumberRun {
  import opened Lists
  import opened Walks
  import opened LineOrder
  import opened Corrections

  /** `chown --from=old new -R` seen by one file. */
  function Moved(x: Id, r: Row): Id { if x == r.oldId then r.newId else x }

  /** All rows in turn, seen by one file. */
  function RunIds(rows: seq<Row>, x: Id): Id {
    if rows == [] then x else Moved(RunIds(rows[..|rows| - 1], x), rows[|rows| - 1])
  }

  /** `s/^name:x:old/name:x:new/` seen by the line of `name`. */
  function Edited(name: string, x: Id, r: Row): Id { if name == r.name && x == r.oldId then r.newId else x }

  function RunName(rows: seq<Row>, name: string, x: Id): Id {
    if rows == [] then x else Edited(name, RunName(rows[..|rows| - 1], name, x), rows[|rows| - 1])
  }

  /** The same renumbering done all at once. */
  ghost function AtOnce(m: map<Id, Id>, x: Id): Id { if x in m then m[x] else x }

  lemma {:induction false} RunIdsAppend(a: seq<Row>, b: seq<Row>, x: Id)
    ensures RunIds(a + b, x) == RunIds(b, RunIds(a, x))
  {
    if b == [] {
      assert a + b == a;
    } else {
      assert (a + b)[..|a + b| - 1] == a + b[..|b| - 1];
      RunIdsAppend(a, b[..|b| - 1], x);
    }
  }

  lemma {:induction false} RunIdsUntouched(rows: seq<Row>, x: Id)
    requires forall r :: r in rows ==> r.oldId != x
    ensures RunIds(rows, x) == x
  {
    if rows != [] {
      RunIdsUntouched(rows[..|rows| - 1], x);
      assert rows[|rows| - 1] in rows;
    }
  }

  /** In a safe order, one row after the other is the same as all rows at once. */
  lemma {:induction false} SafeRunIsSimultaneous(rows: seq<Row>, x: Id)
    requires Functional(rows) && SafeOrder(rows)
    ensures RunIds(rows, x) == AtOnce(Relation(rows), x)
  {
    if rows != [] {
      hide Relation;
      var p, last := rows[..|rows| - 1], rows[|rows| - 1];
      assert rows == p + [last];
      RelationLast(p, last, x);
      SafeRunIsSimultaneous(p, x);
      RelationHas(p, x);
      if x in Relation(p) {
        var r :| r in p && r.oldId == x;
        var i :| 0 <= i < |p| && p[i] == r;
        assert rows[i].newId != rows[|rows| - 1].oldId;
      }
    }
  }

  /** The last place where a row hands out an identifier that a later row moves away. */
  lemma LastClash(rows: seq<Row>) returns (i: nat, j: nat)
    requires forall r :: r in rows ==> r.oldId != r.newId
    requires !SafeOrder(rows)
    ensures i < j < |rows| && rows[i].newId == rows[j].oldId
    ensures forall a, b :: 0 <= a < b < |rows| && b > j ==> rows[a].newId != rows[b].oldId
  {
    i, j :| 0 <= i <= j < |rows| && rows[i].newId == rows[j].oldId;
    assert rows[i] in rows;
    while exists a, b :: 0 <= a < b < |rows| && b > j && rows[a].newId == rows[b].oldId
      invariant i < j < |rows| && rows[i].newId == rows[j].oldId
      decreases |rows| - j
    {
      var a, b :| 0 <= a < b < |rows| && b > j && rows[a].newId == rows[b].oldId;
      i, j := a, b;
    }
  }

  /** An identifier waits for the first row that moves it and goes on from there. */
  lemma RunIdsFrom(rows: seq<Row>, i: nat, x: Id)
    requires i < |rows| && rows[i].oldId == x
    requires forall k :: 0 <= k < i ==> rows[k].oldId != x
    ensures RunIds(rows, x) == RunIds(rows[i + 1..], rows[i].newId)
  {
    assert rows == rows[..i] + ([rows[i]] + rows[i + 1..]);
    RunIdsUntouched(rows[..i], x);
    RunIdsAppend(rows[..i], [rows[i]] + rows[i + 1..], x);
    RunIdsAppend([rows[i]], rows[i + 1..], x);
    assert [rows[i]][..0] == [];
  }

  /** Any other order renumbers some file twice. */
  lemma UnsafeRunDiffers(rows: seq<Row>) returns (x: Id)
    requires Functional(rows) && NoDup(OldIds(rows))
    requires forall r :: r in rows ==> r.oldId != r.newId
    requires !SafeOrder(rows)
    ensures RunIds(rows, x) != AtOnce(Relation(rows), x)
  {
    hide Relation;
    var i, j := LastClash(rows);
    x := rows[i].oldId;
    forall a, b | 0 <= a < |rows| && 0 <= b < |rows| && a != b ensures rows[a].oldId != rows[b].oldId {
      assert OldIds(rows)[a] != OldIds(rows)[b];
    }
    RunIdsFrom(rows, i, x);
    var rest := rows[i + 1..];
    assert rest[j - i - 1] == rows[j] && rest[j - i..] == rows[j + 1..];
    RunIdsFrom(rest, j - i - 1, rows[j].oldId);
    RunIdsUntouched(rows[j + 1..], rows[j].newId);
    assert rows[i] in rows && rows[j] in rows;
    RelationHas(rows, x);
  }

  /** Row by row equals all at once, for every identifier, exactly for the safe orders. */
  lemma SimultaneousIffSafe(rows: seq<Row>)
    requires Functional(rows) && NoDup(OldIds(rows))
    requires forall r :: r in rows ==> r.oldId != r.newId
    ensures SafeOrder(rows) <==> forall x :: RunIds(rows, x) == AtOnce(Relation(rows), x)
  {
    if SafeOrder(rows) {
      forall x ensures RunIds(rows, x) == AtOnce(Relation(rows), x) {
        SafeRunIsSimultaneous(rows, x);
      }
    } else {
      var x := UnsafeRunDiffers(rows);
    }
  }

  // ---------------------------------------------------------------- every prefix of a run

  /** The table of names after the rows have been carried out. */
  ghost function TableAfter(t: map<string, Id>, rows: seq<Row>): map<string, Id> {
    map n | n in t :: RunName(rows, n, t[n])
  }

  /** Rows that a plan for `t` and `w` may contain. */
  ghost predicate Planned(t: map<string, Id>, w: map<string, Id>, rows: seq<Row>)
    requires t.Keys <= w.Keys
  {
    forall r :: r in rows ==>
      r.name in t && t[r.name] != w[r.name] && r == Row(r.name, t[r.name], r.name, w[r.name])
  }

  lemma {:induction false} NameAfter(t: map<string, Id>, w: map<string, Id>, rows: seq<Row>, n: string)
    requires t.Keys <= w.Keys && Planned(t, w, rows) && n in t
    ensures RunName(rows, n, t[n]) == if Row(n, t[n], n, w[n]) in rows then w[n] else t[n]
  {
    if rows != [] {
      var p, last := rows[..|rows| - 1], rows[|rows| - 1];
      assert rows == p + [last];
      NameAfter(t, w, p, n);
    }
  }

  /** After any part of the run a file of `n` is owned by the identifier the table gives `n`. */
  lemma OwnerFollowsName(t: map<string, Id>, w: map<string, Id>, rows: seq<Row>, n: string)
    requires Injective(t) && t.Keys <= w.Keys && Planned(t, w, rows) && SafeOrder(rows) && n in t
    ensures RunIds(rows, t[n]) == TableAfter(t, rows)[n]
  {
    forall r, s | r in rows && s in rows && r.oldId == s.oldId ensures r == s {
      assert t[r.name] == t[s.name];
    }
    SafeRunIsSimultaneous(rows, t[n]);
    NameAfter(t, w, rows, n);
    if t[n] in Relation(rows) {
      var r :| r in rows && r.oldId == t[n];
      assert t[r.name] == t[n];
      assert Relation(rows)[r.oldId] == r.newId;
    }
  }

  /** A file owned by no listed identifier keeps its owner throughout. */
  lemma StrangersStay(t: map<string, Id>, w: map<string, Id>, rows: seq<Row>, x: Id)
    requires t.Keys <= w.Keys && Planned(t, w, rows) && x !in t.Values
    ensures RunIds(rows, x) == x
  {
    RunIdsUntouched(rows, x);
  }

  lemma PrefixStaysInjective(t: map<string, Id>, w: map<string, Id>, rows: seq<Row>, k: nat)
    requires Injective(t) && Injective(w) && t.Keys == w.Keys && Plan(t, w, rows) && SafeOrder(rows)
    requires k <= |rows|
    ensures Injective(TableAfter(t, rows[..k]))
  {
    var p := rows[..k];
    assert Planned(t, w, p);
    forall a, b | a in t && b in t && TableAfter(t, p)[a] == TableAfter(t, p)[b] ensures a == b {
      NameAfter(t, w, p, a);
      NameAfter(t, w, p, b);
      var ra, rb := Row(a, t[a], a, w[a]), Row(b, t[b], b, w[b]);
      if ra in p && rb !in p {
        NewIdUnused(t, w, rows, k, a, b);
      } else if rb in p && ra !in p {
        NewIdUnused(t, w, rows, k, b, a);
      }
    }
  }

  /** A row already carried out never meets a name whose own row is still to come. */
  lemma NewIdUnused(t: map<string, Id>, w: map<string, Id>, rows: seq<Row>, k: nat, a: string, b: string)
    requires Injective(w) && t.Keys == w.Keys && Plan(t, w, rows) && SafeOrder(rows) && k <= |rows|
    requires a in t && b in t && a != b
    requires Row(a, t[a], a, w[a]) in rows[..k] && Row(b, t[b], b, w[b]) !in rows[..k]
    ensures w[a] != t[b]
  {
    var i :| 0 <= i < k && rows[..k][i] == Row(a, t[a], a, w[a]);
    assert rows[i] == Row(a, t[a], a, w[a]);
    if t[b] != w[b] {
      var j :| 0 <= j < |rows| && rows[j] == Row(b, t[b], b, w[b]);
      assert rows[i].newId != rows[j].oldId;
    }
  }

  lemma WholeRunReachesWanted(t: map<string, Id>, w: map<string, Id>, rows: seq<Row>)
    requires t.Keys == w.Keys && Plan(t, w, rows)
    ensures TableAfter(t, rows) == w
  {
    forall n | n in t ensures RunName(rows, n, t[n]) == w[n] {
      NameAfter(t, w, rows, n);
    }
  }

  /**
   No moment of the run gives two names one identifier exactly when the configuration gives
   them different ones; and whether or not it does, every file stays with its owner's name.
   */
  lemma NoConfusion(t: map<string, Id>, w: map<string, Id>, rows: seq<Row>)
    requires Injective(t) && t.Keys == w.Keys && Plan(t, w, rows) && SafeOrder(rows)
    ensures Injective(w) <==> forall k :: 0 <= k <= |rows| ==> Injective(TableAfter(t, rows[..k]))
    ensures forall k, n :: 0 <= k <= |rows| && n in t ==>
      RunIds(rows[..k], t[n]) == TableAfter(t, rows[..k])[n]
    ensures forall k, x :: 0 <= k <= |rows| && x !in t.Values ==> RunIds(rows[..k], x) == x
  {
    forall k, n | 0 <= k <= |rows| && n in t ensures RunIds(rows[..k], t[n]) == TableAfter(t, rows[..k])[n] {
      OwnerFollowsName(t, w, rows[..k], n);
    }
    forall k, x | 0 <= k <= |rows| && x !in t.Values ensures RunIds(rows[..k], x) == x {
      StrangersStay(t, w, rows[..k], x);
    }
    if Injective(w) {
      forall k | 0 <= k <= |rows| ensures Injective(TableAfter(t, rows[..k])) {
        PrefixStaysInjective(t, w, rows, k);
      }
    }
    WholeRunReachesWanted(t, w, rows);
    assert rows[..|rows|] == rows;
  }

  /**
   A file of an unlisted identifier keeps its number, but comes to belong to a listed name
   exactly when a row carried out so far hands that number out.
   */
  lemma StrangersAdopted(t: map<string, Id>, w: map<string, Id>, rows: seq<Row>, k: nat, x: Id)
    requires t.Keys == w.Keys && Plan(t, w, rows) && k <= |rows| && x !in t.Values
    ensures RunIds(rows[..k], x) == x
    ensures (exists n :: n in t && TableAfter(t, rows[..k])[n] == x) <==> exists r :: r in rows[..k] && r.newId == x
  {
    var p := rows[..k];
    assert Planned(t, w, p);
    StrangersStay(t, w, p, x);
    forall n | n in t ensures TableAfter(t, p)[n] == x <==> Row(n, t[n], n, w[n]) in p && w[n] == x {
      NameAfter(t, w, p, n);
    }
    if r :| r in p && r.newId == x {
      assert TableAfter(t, p)[r.name] == x;
    }
  }

  /** Nothing stops a configuration that gives two users of the image one identifier. */
  lemma OneIdForTwo()
    ensures var t, w := map["ann" := "1", "bob" := "2"], map["ann" := "3", "bob" := "3"];
      var rows := [Row("ann", "1", "ann", "3"), Row("bob", "2", "bob", "3")];
      Injective(t) && Plan(t, w, rows) && SafeOrder(rows) &&
      !Injective(TableAfter(t, rows)) && RunIds(rows, "1") == RunIds(rows, "2")
  {
    var t, w := map["ann" := "1", "bob" := "2"], map["ann" := "3", "bob" := "3"];
    var rows := [Row("ann", "1", "ann", "3"), Row("bob", "2", "bob", "3")];
    assert Injective(t) && Plan(t, w, rows) && SafeOrder(rows);
    WholeRunReachesWanted(t, w, rows);
    OwnerFollowsName(t, w, rows, "ann");
    OwnerFollowsName(t, w, rows, "bob");
    assert w["ann"] == w["bob"];
  }
}
