/**
 `name:id` lines and the order `sort` puts them in. What the installer needs from that
 order is that two sorted lists of the same names pair up line by line.
 */
module LineOrder {
  import opened Lists
  import Text

  type Id = string

  /** One `name:id` line. Identifiers are decimal texts without leading zeros. */
  datatype Entry = Entry(name: string, id: Id)

  function Names(s: seq<Entry>): seq<string> { Map(s, (e: Entry) => e.name) }
  function Ids(s: seq<Entry>): seq<Id> { Map(s, (e: Entry) => e.id) }

  function Line(e: Entry): string { e.name + ":" + e.id }

  predicate LineLess(a: Entry, b: Entry) { Text.Less(Line(a), Line(b)) }

  predicate NameLess(a: string, b: string) { Text.Less(a + ":", b + ":") }

  function Insert(e: Entry, s: seq<Entry>, unique: bool): seq<Entry> {
    if s == [] then [e]
    else if unique && Line(e) == Line(s[0]) then s
    else if LineLess(e, s[0]) then [e] + s
    else [s[0]] + Insert(e, s[1..], unique)
  }

  /** `sort`, or `sort -u` when `unique`. */
  function Sort(s: seq<Entry>, unique: bool): seq<Entry> {
    if s == [] then [] else Insert(s[0], Sort(s[1..], unique), unique)
  }

  ghost predicate Sorted(s: seq<Entry>) {
    forall i, j :: 0 <= i < j < |s| ==> LineLess(s[i], s[j])
  }

  ghost predicate ColonFree(s: seq<Entry>) {
    forall e :: e in s ==> ':' !in e.name
  }

  lemma LineInjective(a: Entry, b: Entry)
    requires ':' !in a.name && ':' !in b.name && Line(a) == Line(b)
    ensures a == b
  {
    assert Line(a) == a.name + (":" + a.id) && Line(b) == b.name + (":" + b.id);
    Text.HeadUnique(a.name, b.name, ":" + a.id, ":" + b.id, ':');
    assert (":" + a.id)[1..] == a.id && (":" + b.id)[1..] == b.id;
  }

  lemma {:induction false} InsertSorts(e: Entry, s: seq<Entry>, unique: bool)
    requires Sorted(s) && ColonFree(s) && ':' !in e.name
    requires unique || e !in s
    ensures Sorted(Insert(e, s, unique))
    ensures forall x :: x in Insert(e, s, unique) <==> x == e || x in s
  {
    if s != [] && Line(e) == Line(s[0]) {
      LineInjective(e, s[0]);
    } else if s != [] && LineLess(e, s[0]) {
      forall j | 0 < j < |s| ensures LineLess(e, s[j]) {
        Text.LessTransitive(Line(e), Line(s[0]), Line(s[j]));
      }
    } else if s != [] {
      InsertSorts(e, s[1..], unique);
      Text.LessTotal(Line(e), Line(s[0]));
      var r := Insert(e, s[1..], unique);
      assert forall x :: x in r ==> LineLess(s[0], x);
      assert s == [s[0]] + s[1..];
    }
  }

  /** `sort -u` always, and `sort` on distinct lines, list the same lines in strict order. */
  lemma {:induction false} SortSorts(s: seq<Entry>, unique: bool)
    requires ColonFree(s) && (unique || NoDup(s))
    ensures Sorted(Sort(s, unique))
    ensures forall x :: x in Sort(s, unique) <==> x in s
  {
    if s != [] {
      SortSorts(s[1..], unique);
      InsertSorts(s[0], Sort(s[1..], unique), unique);
      assert s == [s[0]] + s[1..];
    }
  }

  /** Between different names the identifiers after the colon never decide the order. */
  lemma {:induction false} NamesDecide(a: string, x: string, b: string, y: string)
    requires ':' !in a && ':' !in b && a != b
    ensures Text.Less(a + ":" + x, b + ":" + y) == NameLess(a, b)
  {
    if a != [] && b != [] {
      assert (a + ":" + x)[1..] == a[1..] + ":" + x && (b + ":" + y)[1..] == b[1..] + ":" + y;
      assert (a + ":")[1..] == a[1..] + ":" && (b + ":")[1..] == b[1..] + ":";
      if a[0] == b[0] {
        assert a == [a[0]] + a[1..] && b == [b[0]] + b[1..];
        NamesDecide(a[1..], x, b[1..], y);
      }
    } else if a == [] {
      assert (b + ":" + y)[0] == b[0] == (b + ":")[0];
    } else {
      assert (a + ":" + x)[0] == a[0] == (a + ":")[0];
    }
  }

  ghost predicate NamesSorted(ns: seq<string>) {
    forall i, j :: 0 <= i < j < |ns| ==> NameLess(ns[i], ns[j])
  }

  lemma SortedByName(s: seq<Entry>)
    requires Sorted(s) && ColonFree(s) && NoDup(Names(s))
    ensures NamesSorted(Names(s))
  {
    forall i, j | 0 <= i < j < |s| ensures NameLess(s[i].name, s[j].name) {
      assert Names(s)[i] != Names(s)[j];
      NamesDecide(s[i].name, s[i].id, s[j].name, s[j].id);
    }
  }

  /** Two strictly ordered lists of the same names are the same list. */
  lemma {:induction false} SameNamesAlign(a: seq<string>, b: seq<string>)
    requires NamesSorted(a) && NamesSorted(b)
    requires forall n :: n in a <==> n in b
    ensures a == b
  {
    assert |a| == 0 <==> |b| == 0 by {
      assert |a| > 0 ==> a[0] in a;
      assert |b| > 0 ==> b[0] in b;
    }
    if |a| > 0 {
      assert a[0] in b && b[0] in a;
      Text.LessTotal(a[0] + ":", b[0] + ":");
      assert a[0] == b[0];
      assert forall n :: n in a[1..] ==> NameLess(a[0], n);
      assert forall n :: n in b[1..] ==> NameLess(b[0], n);
      forall n ensures n in a[1..] <==> n in b[1..] {
        assert a == [a[0]] + a[1..] && b == [b[0]] + b[1..];
        assert n in a <==> n == a[0] || n in a[1..];
        assert n in b <==> n == b[0] || n in b[1..];
      }
      SameNamesAlign(a[1..], b[1..]);
      assert a == [a[0]] + a[1..] && b == [b[0]] + b[1..];
    }
  }

  lemma {:induction false} KeepSorted(s: seq<Entry>, p: Entry -> bool)
    requires Sorted(s)
    ensures Sorted(Keep(s, p))
  {
    if s != [] {
      var t, last := s[..|s| - 1], s[|s| - 1];
      KeepSorted(t, p);
      assert forall x :: x in t ==> LineLess(x, last);
      assert forall x :: x in Keep(t, p) ==> LineLess(x, last);
    }
  }
}
