/**
 Mail robots in the DMZ: their server addresses are numbered, and names are mapped to the
 numbers, separately for outgoing and incoming mail.
 */
module Robots {
  import opened Lists

  /** The `flow` attribute: absent or empty, one of three words, or anything else. */
  datatype Flow = NoFlow | SendRecv | SendOnly | RecvOnly | OtherFlow

  type Address = nat

  /** A `robot` element with either a mailing list name or a plain name. */
  datatype Robot = Robot(flow: Flow, address: Address, listName: Option<string>, name: string)

  datatype Note = Note(name: string, address: Address, flow: Flow)

  predicate Sends(n: Note) { n.flow.NoFlow? || n.flow.SendRecv? || n.flow.SendOnly? }
  predicate Receives(n: Note) { n.flow.NoFlow? || n.flow.SendRecv? || n.flow.RecvOnly? }

  const SUFFIXES := ["admin", "bounces", "confirm", "join", "leave", "owner", "request", "subscribe", "unsubscribe"]

  /** The names of a robot: a mailing list also answers under its administrative names. */
  function NotesOf(r: Robot): seq<Note> {
    match r.listName
    case None => [Note(r.name, r.address, r.flow)]
    case Some(l) => ListNotes(l, r.address, r.flow)
  }

  function ListNotes(list: string, address: Address, flow: Flow): seq<Note> {
    [Note(list, address, flow)] + Map(SUFFIXES, s => Note(list + "-" + s, address, flow))
  }

  function AllNotes(robots: seq<Robot>): seq<Note> {
    if robots == [] then [] else AllNotes(robots[..|robots| - 1]) + NotesOf(robots[|robots| - 1])
  }

  /**
   A robot is noted under its name; a mailing list under its own name and under nine names for
   its administration.
   */
  lemma {:induction false} NotesMean(robots: seq<Robot>, n: Note)
    ensures n in AllNotes(robots) <==> exists r :: r in robots && Answers(r, n)
  {
    if robots != [] {
      var t, last := robots[..|robots| - 1], robots[|robots| - 1];
      NotesMean(t, n);
      assert robots == t + [last];
      NamesMean(last, n);
    }
  }

  ghost predicate Answers(r: Robot, n: Note) {
    && n.address == r.address && n.flow == r.flow
    && if r.listName.Some? then n.name in ListNames(r.listName.value) else n.name == r.name
  }

  ghost function ListNames(l: string): seq<string> {
    [l, l + "-admin", l + "-bounces", l + "-confirm", l + "-join",
     l + "-leave", l + "-owner", l + "-request", l + "-subscribe", l + "-unsubscribe"]
  }

  lemma ListNotesMean(l: string, address: Address, flow: Flow)
    ensures ListNotes(l, address, flow) == Map(ListNames(l), name => Note(name, address, flow))
  {
    var a, b := ListNotes(l, address, flow), ListNames(l);
    assert |a| == |b| == 10;
    forall i | 0 <= i < 9 ensures l + "-" + SUFFIXES[i] == b[i + 1] {
      assert l + "-" + SUFFIXES[i] == l + ("-" + SUFFIXES[i]);
      assert "-" + SUFFIXES[i] == ["-admin", "-bounces", "-confirm", "-join", "-leave", "-owner", "-request",
                                   "-subscribe", "-unsubscribe"][i];
    }
    forall i | 0 <= i < 10 ensures a[i] == Note(b[i], address, flow) {
      if i > 0 { assert a[i].name == l + "-" + SUFFIXES[i - 1]; }
    }
  }

  lemma NamesMean(r: Robot, n: Note)
    ensures n in NotesOf(r) <==> Answers(r, n)
  {
    if r.listName.Some? {
      var l := r.listName.value;
      ListNotesMean(l, r.address, r.flow);
      MapHas(ListNames(l), r.address, r.flow, n);
    }
  }

  lemma MapHas(names: seq<string>, address: Address, flow: Flow, n: Note)
    ensures n in Map(names, name => Note(name, address, flow)) <==>
      n.name in names && n.address == address && n.flow == flow
  {
    if n.name in names && n.address == address && n.flow == flow {
      var i :| 0 <= i < |names| && names[i] == n.name;
      assert Map(names, name => Note(name, address, flow))[i] == n;
    }
  }

  /** The addresses in the order of their first mention. */
  function Seen(notes: seq<Note>): seq<Address> {
    if notes == [] then []
    else
      var before, a := Seen(notes[..|notes| - 1]), notes[|notes| - 1].address;
      if a in before then before else before + [a]
  }

  lemma {:induction false} SeenOnce(notes: seq<Note>)
    ensures NoDup(Seen(notes))
    ensures forall a :: a in Seen(notes) <==> exists n :: n in notes && n.address == a
  {
    if notes != [] {
      SeenOnce(notes[..|notes| - 1]);
      assert notes == notes[..|notes| - 1] + [notes[|notes| - 1]];
    }
  }

  predicate Allows(n: Note, out: bool) { if out then Sends(n) else Receives(n) }

  /** The last entry for `name` whose flow allows the direction. */
  ghost function LastEntry(notes: seq<Note>, name: string, out: bool): Option<Note> {
    LastWhere(notes, (n: Note) => n.name == name && Allows(n, out))
  }

  /** The numbers are the places of the addresses in the order of their first mention. */
  ghost predicate NumbersFit(numbers: map<Address, nat>, notes: seq<Note>) {
    && (forall a :: a in numbers <==> a in Seen(notes))
    && (forall i :: 0 <= i < |Seen(notes)| ==> numbers[Seen(notes)[i]] == i)
  }

  /** A dictionary maps each name to the number of the address of its last entry. */
  ghost predicate NamesFit(table: map<string, nat>, numbers: map<Address, nat>, notes: seq<Note>, out: bool) {
    && (forall s :: s in table <==> LastEntry(notes, s, out).Some?)
    && (forall s :: s in table ==>
         var address := LastEntry(notes, s, out).value.address;
         address in numbers && table[s] == numbers[address])
  }

  lemma NumbersStep(numbers: map<Address, nat>, notes: seq<Note>, n: Note)
    requires NumbersFit(numbers, notes)
    ensures var seen := Seen(notes);
      NumbersFit(if n.address in numbers then numbers else numbers[n.address := |seen|], notes + [n])
    ensures |Seen(notes + [n])| == if n.address in numbers then |Seen(notes)| else |Seen(notes)| + 1
  {
    assert (notes + [n])[..|notes + [n]| - 1] == notes;
  }

  lemma LastEntryStep(notes: seq<Note>, n: Note, name: string, out: bool)
    ensures LastEntry(notes + [n], name, out) ==
      if n.name == name && Allows(n, out) then Some(n) else LastEntry(notes, name, out)
  {
    assert (notes + [n])[..|notes + [n]| - 1] == notes;
  }

  lemma NamesStep(table: map<string, nat>, before: map<Address, nat>, after: map<Address, nat>,
                  notes: seq<Note>, n: Note, out: bool)
    requires NamesFit(table, before, notes, out) && n.address in after
    requires forall a :: a in before ==> a in after && after[a] == before[a]
    ensures NamesFit(if Allows(n, out) then table[n.name := after[n.address]] else table, after, notes + [n], out)
  {
    hide LastEntry, Allows;
    forall s ensures LastEntry(notes + [n], s, out) ==
      if n.name == s && Allows(n, out) then Some(n) else LastEntry(notes, s, out)
    {
      LastEntryStep(notes, n, s, out);
    }
  }

  class Numbering {
    var numbers: map<Address, nat>
    var num: nat
    var outgoing: map<string, nat>
    var incoming: map<string, nat>
    ghost var notes: seq<Note>

    /** The dictionaries say what the notes so far say. */
    ghost predicate Valid()
      reads this
    {
      && num == |Seen(notes)|
      && NumbersFit(numbers, notes)
      && NamesFit(outgoing, numbers, notes, true)
      && NamesFit(incoming, numbers, notes, false)
    }

    constructor ()
      ensures Valid() && notes == []
    {
      numbers, num, outgoing, incoming, notes := map[], 0, map[], map[], [];
    }

    /** `noteaddr`: numbers the address if it is new and records the name as the flow allows. */
    method NoteAddr(name: string, address: Address, flow: Flow)
      requires Valid()
      modifies this
      ensures Valid() && notes == old(notes) + [Note(name, address, flow)]
    {
      ghost var n, before := Note(name, address, flow), numbers;
      NumbersStep(numbers, notes, n);
      var number;
      if address in numbers {
        number := numbers[address];
      } else {
        numbers := numbers[address := num];
        number := num;
        num := num + 1;
      }
      NamesStep(outgoing, before, numbers, notes, n, true);
      NamesStep(incoming, before, numbers, notes, n, false);
      if flow.NoFlow? || flow.SendRecv? || flow.SendOnly? { outgoing := outgoing[name := number]; }
      if flow.NoFlow? || flow.SendRecv? || flow.RecvOnly? { incoming := incoming[name := number]; }
      notes := notes + [n];
    }

    /** A mailing list is noted under its own and its administrative names. */
    method NoteList(list: string, address: Address, flow: Flow)
      requires Valid()
      modifies this
      ensures Valid() && notes == old(notes) + ListNotes(list, address, flow)
    {
      hide Seen, NumbersFit, NamesFit;
      ghost var all := Map(SUFFIXES, s => Note(list + "-" + s, address, flow));
      NoteAddr(list, address, flow);
      for k := 0 to |SUFFIXES|
        invariant Valid() && notes == old(notes) + ([Note(list, address, flow)] + all[..k])
      {
        NoteAddr(list + "-" + SUFFIXES[k], address, flow);
        assert all[..k + 1] == all[..k] + [all[k]];
      }
      assert all[..|SUFFIXES|] == all;
    }

    /** The loop over the robots, and the list of servers filled by number. */
    method Process(robots: seq<Robot>) returns (servers: seq<Option<Address>>)
      requires Valid() && notes == []
      modifies this
      ensures Valid() && notes == AllNotes(robots)
      ensures servers == Map(Seen(notes), a => Some(a))
    {
      for i := 0 to |robots|
        invariant Valid() && notes == AllNotes(robots[..i])
      {
        hide Seen, NumbersFit, NamesFit, ListNotes;
        var r := robots[i];
        assert robots[..i + 1][..i] == robots[..i];
        match r.listName
        case Some(list) => NoteList(list, r.address, r.flow);
        case None => NoteAddr(r.name, r.address, r.flow);
      }
      assert robots[..|robots|] == robots;
      servers := FillServers();
    }

    /** Every address goes to the place of its number. */
    method FillServers() returns (servers: seq<Option<Address>>)
      requires Valid()
      ensures servers == Map(Seen(notes), a => Some(a))
    {
      ghost var seen := Seen(notes);
      SeenOnce(notes);
      SeenSize();
      servers := seq(|numbers|, _ => None);
      var rest := numbers.Keys;
      while rest != {}
        invariant rest <= numbers.Keys && |servers| == |seen|
        invariant forall i :: 0 <= i < |seen| ==> servers[i] == if seen[i] in rest then None else Some(seen[i])
        decreases rest
      {
        var a :| a in rest;
        assert a in seen;
        servers := servers[numbers[a] := Some(a)];
        rest := rest - {a};
      }
    }

    lemma SeenSize()
      requires Valid()
      ensures |numbers| == |Seen(notes)|
    {
      SeenOnce(notes);
      RangeSize(Seen(notes));
      assert numbers.Keys == Range(Seen(notes));
    }
  }

  predicate LeadsTo(servers: seq<Option<Address>>, number: nat, n: Note) {
    number < |servers| && servers[number] == Some(n.address)
  }

  /**
   Looking a name up leads to the server of the last entry for it whose flow allows the
   direction; the servers are the mentioned addresses, each once.
   */
  lemma LookupFindsLast(table: Numbering, servers: seq<Option<Address>>, name: string)
    requires table.Valid() && servers == Map(Seen(table.notes), a => Some(a))
    ensures name in table.outgoing <==> exists n :: n in table.notes && n.name == name && Sends(n)
    ensures name in table.incoming <==> exists n :: n in table.notes && n.name == name && Receives(n)
    ensures name in table.outgoing ==> LeadsTo(servers, table.outgoing[name], LastEntry(table.notes, name, true).value)
    ensures name in table.incoming ==> LeadsTo(servers, table.incoming[name], LastEntry(table.notes, name, false).value)
    ensures NoDup(servers)
    ensures forall a :: Some(a) in servers <==> exists n :: n in table.notes && n.address == a
  {
    var seen := Seen(table.notes);
    SeenOnce(table.notes);
    forall a | a in table.numbers ensures table.numbers[a] < |seen| && seen[table.numbers[a]] == a {
      var i :| 0 <= i < |seen| && seen[i] == a;
    }
    forall a ensures Some(a) in servers <==> a in seen {
      if a in seen {
        var i :| 0 <= i < |seen| && seen[i] == a;
        assert servers[i] == Some(a);
      }
    }
  }

  /** The robot answers under the name, and its flow allows the direction. */
  ghost predicate Reaches(r: Robot, name: string, out: bool) {
    && (if r.listName.Some? then name in ListNames(r.listName.value) else name == r.name)
    && (r.flow.NoFlow? || r.flow.SendRecv? || (if out then r.flow.SendOnly? else r.flow.RecvOnly?))
  }

  lemma {:induction false} LastWhereAppend<T>(a: seq<T>, b: seq<T>, p: T -> bool)
    ensures LastWhere(a + b, p) == if LastWhere(b, p).Some? then LastWhere(b, p) else LastWhere(a, p)
  {
    if b == [] {
      assert a + b == a;
    } else {
      assert (a + b)[..|a + b| - 1] == a + b[..|b| - 1];
      LastWhereAppend(a, b[..|b| - 1], p);
    }
  }

  lemma EntryOfRobot(r: Robot, name: string, out: bool)
    ensures LastEntry(NotesOf(r), name, out).Some? <==> Reaches(r, name, out)
    ensures LastEntry(NotesOf(r), name, out).Some? ==> LastEntry(NotesOf(r), name, out).value.address == r.address
  {
    NamesMean(r, Note(name, r.address, r.flow));
    forall n | n in NotesOf(r) ensures Answers(r, n) {
      NamesMean(r, n);
    }
    hide NotesOf, ListNames;
  }

  lemma {:induction false} LastRobotWins(robots: seq<Robot>, i: nat, name: string, out: bool)
    requires i < |robots| && Reaches(robots[i], name, out)
    requires forall j :: i < j < |robots| ==> !Reaches(robots[j], name, out)
    ensures var e := LastEntry(AllNotes(robots), name, out); e.Some? && e.value.address == robots[i].address
  {
    hide Reaches, NotesOf;
    var t, last := robots[..|robots| - 1], robots[|robots| - 1];
    EntryOfRobot(last, name, out);
    LastWhereAppend(AllNotes(t), NotesOf(last), (n: Note) => n.name == name && Allows(n, out));
    if i < |robots| - 1 {
      LastRobotWins(t, i, name, out);
    }
  }

  /**
   After all robots have been noted, a name leads, for each direction, to the address of the last
   robot that answers under it and whose flow allows the direction.
   */
  lemma NameLeadsToLastRobot(table: Numbering, servers: seq<Option<Address>>, robots: seq<Robot>, i: nat, name: string)
    requires table.Valid() && table.notes == AllNotes(robots) && servers == Map(Seen(table.notes), a => Some(a))
    requires i < |robots|
    ensures Reaches(robots[i], name, true) && (forall j :: i < j < |robots| ==> !Reaches(robots[j], name, true)) ==>
      name in table.outgoing && table.outgoing[name] < |servers| &&
      servers[table.outgoing[name]] == Some(robots[i].address)
    ensures Reaches(robots[i], name, false) && (forall j :: i < j < |robots| ==> !Reaches(robots[j], name, false)) ==>
      name in table.incoming && table.incoming[name] < |servers| &&
      servers[table.incoming[name]] == Some(robots[i].address)
  {
    hide Reaches;
    LookupFindsLast(table, servers, name);
    if Reaches(robots[i], name, true) && forall j :: i < j < |robots| ==> !Reaches(robots[j], name, true) {
      LastRobotWins(robots, i, name, true);
    }
    if Reaches(robots[i], name, false) && forall j :: i < j < |robots| ==> !Reaches(robots[j], name, false) {
      LastRobotWins(robots, i, name, false);
    }
  }
}
