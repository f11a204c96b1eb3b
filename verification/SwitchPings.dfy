/**
 Which hosts the monitor pings to learn whether a switch is alive: those on the far side of
 the switch, the most important ones first.
 */
module SwitchPings {
  import opened Lists
  import opened Text
  import opened Topology

  // ---------------------------------------------------------------- entries

  function Identifier(e: Elem): Option<string> { if e.name.Some? then e.name else e.ip }

  function Priority(e: Elem): int {
    if e.priority.Some? then e.priority.value else if e.tag.Switch? then 70 else 20
  }

  /** `%02d`. */
  function Pad2(p: int): string {
    if p < 0 then "-" + Dec(-p) else if p < 10 then "0" + Dec(p) else Dec(p)
  }

  function Encode(p: int, id: string): string { Pad2(p) + "_" + id }

  /** `ping[3:]`. */
  function Drop3(ping: string): string { if |ping| >= 3 then ping[3..] else [] }

  predicate Pingable(e: Elem) { !e.tag.Properties? && Identifier(e).Some? }

  function EntryOf(e: Elem): string
    requires Pingable(e)
  {
    Encode(Priority(e), Identifier(e).value)
  }

  lemma DecLength(n: nat)
    ensures n < 10 ==> |Dec(n)| == 1
    ensures 10 <= n < 100 ==> |Dec(n)| == 2
    ensures 100 <= n ==> |Dec(n)| > 2
  {
    if n >= 100 {
      assert |Dec(n)| == |Dec(n / 10)| + 1;
      DecLength(n / 10);
    }
  }

  /** Dropping three characters gives the identifier back exactly for these priorities. */
  lemma IdentifierRecovered(p: int, id: string)
    ensures Drop3(Encode(p, id)) == id <==> -9 <= p <= 99
  {
    DecLength(if p < 0 then -p else p);
    var code := Pad2(p);
    assert |Encode(p, id)| == |code| + 1 + |id|;
    if |code| == 2 {
      assert Encode(p, id)[3..] == id;
    } else {
      assert |code| > 2;
    }
  }

  lemma Pad2Digits(p: int)
    requires 0 <= p <= 99
    ensures Pad2(p) == [Digit(p / 10), Digit(p % 10)]
  {
    if p >= 10 {
      assert Dec(p) == Dec(p / 10) + [Digit(p % 10)];
    }
  }

  /** On the priorities the schema admits, text order is priority first and identifier second. */
  lemma TextOrderIsPriority(p: int, a: string, q: int, b: string)
    requires 0 <= p <= 99 && 0 <= q <= 99
    ensures Less(Encode(p, a), Encode(q, b)) <==> p < q || (p == q && Less(a, b))
  {
    Pad2Digits(p);
    Pad2Digits(q);
    var x, y := Encode(p, a), Encode(q, b);
    assert x == [Digit(p / 10)] + ([Digit(p % 10)] + ("_" + a));
    assert y == [Digit(q / 10)] + ([Digit(q % 10)] + ("_" + b));
    assert x[1..] == [Digit(p % 10)] + ("_" + a) && y[1..] == [Digit(q % 10)] + ("_" + b);
    assert x[1..][1..] == "_" + a && y[1..][1..] == "_" + b;
    LessAfter("_", a, b);
    assert Less(x[1..], y[1..]) <==> p % 10 < q % 10 || (p % 10 == q % 10 && Less(a, b));
    assert Less(x, y) <==> p / 10 < q / 10 || (p / 10 == q / 10 && Less(x[1..], y[1..]));
  }

  /** Switches and hosts with a name or an address have an entry; the name goes before the address. */
  lemma EntryMeans(e: Elem)
    ensures Pingable(e) <==> (e.tag.Switch? || e.tag.Host?) && (e.name.Some? || e.ip.Some?)
    ensures Pingable(e) ==> Identifier(e) == if e.name.Some? then e.name else e.ip
    ensures Pingable(e) && e.priority.None? ==>
      EntryOf(e) == (if e.tag.Switch? then "70_" else "20_") + Identifier(e).value
    ensures Pingable(e) && e.priority.Some? && 0 <= e.priority.value <= 99 ==>
      EntryOf(e) == [Digit(e.priority.value / 10), Digit(e.priority.value % 10)] + "_" + Identifier(e).value
  {
    Pad2Digits(70);
    Pad2Digits(20);
    assert Pad2(70) == "70" && Pad2(20) == "20";
    if e.priority.Some? && 0 <= e.priority.value <= 99 { Pad2Digits(e.priority.value); }
    if Pingable(e) {
      assert "70" + "_" + Identifier(e).value == "70_" + Identifier(e).value;
      assert "20" + "_" + Identifier(e).value == "20_" + Identifier(e).value;
    }
  }

  // ---------------------------------------------------------------- descendants

  /** All elements strictly below `e` in document order: `findall` of a path ending in `//`. */
  function Below(e: Elem): seq<Elem>
    decreases e, |e.kids| + 1
  {
    BelowFirst(e, |e.kids|)
  }

  function BelowFirst(e: Elem, k: nat): seq<Elem>
    requires k <= |e.kids|
    decreases e, k
  {
    if k == 0 then [] else BelowFirst(e, k - 1) + [e.kids[k - 1]] + Below(e.kids[k - 1])
  }

  ghost predicate IsBelow(e: Elem, x: Elem) { exists p: Place :: Within(e, p) && p != [] && At(e, p) == x }

  lemma KidIsBelow(e: Elem, k: nat)
    requires k < |e.kids|
    ensures var p: Place := [k]; Within(e, p) && At(e, p) == e.kids[k] && IsBelow(e, e.kids[k])
  {
    var p: Place := [k];
    var rest: Place := p[1..];
    assert rest == [];
    assert Within(e.kids[k], rest) && At(e.kids[k], rest) == e.kids[k];
    assert Within(e, p) && At(e, p) == e.kids[k];
  }

  lemma {:induction false} BelowComplete(e: Elem, x: Elem)
    ensures x in Below(e) <==> IsBelow(e, x)
    decreases e, |e.kids| + 1
  {
    BelowFirstComplete(e, |e.kids|, x);
  }

  lemma {:induction false} BelowFirstComplete(e: Elem, k: nat, x: Elem)
    requires k <= |e.kids|
    ensures x in BelowFirst(e, k) <==> exists p: Place :: Within(e, p) && p != [] && p[0] < k && At(e, p) == x
    decreases e, k
  {
    if k != 0 {
      hide TagText, Priority, Identifier, Pingable;
      BelowFirstComplete(e, k - 1, x);
      var kid := e.kids[k - 1];
      BelowComplete(kid, x);
      if x == kid { KidIsBelow(e, k - 1); }
      if x in Below(kid) {
        var p: Place :| Within(kid, p) && p != [] && At(kid, p) == x;
        var q: Place := [k - 1] + p;
        assert q[1..] == p && Within(e, q) && At(e, q) == x;
      }
      if exists p: Place :: Within(e, p) && p != [] && p[0] < k && At(e, p) == x {
        var p: Place :| Within(e, p) && p != [] && p[0] < k && At(e, p) == x;
        if p[0] == k - 1 {
          assert Within(kid, p[1..]) && At(kid, p[1..]) == x;
        }
      }
    }
  }

  /** The entries of the elements that can be pinged. */
  ghost function EntriesOf(s: seq<Elem>): set<string> {
    if s == [] then {}
    else
      var last := s[|s| - 1];
      EntriesOf(s[..|s| - 1]) + if Pingable(last) then {EntryOf(last)} else {}
  }

  ghost function EntriesBelow(e: Elem): set<string> { EntriesOf(Below(e)) }

  lemma {:induction false} EntriesMeaning(s: seq<Elem>, entry: string)
    ensures entry in EntriesOf(s) <==> exists x :: x in s && Pingable(x) && EntryOf(x) == entry
  {
    if s != [] {
      EntriesMeaning(s[..|s| - 1], entry);
      assert s == s[..|s| - 1] + [s[|s| - 1]];
    }
  }

  /** `collectAllInPath` for the text path of an element. */
  method CollectAllInPath(root: Elem, path: string) returns (entries: set<string>)
    ensures entries == if Find(root, path).Some? then EntriesBelow(Find(root, path).value) else {}
  {
    entries := {};
    var base := Find(root, path);
    if base.None? { return; }
    hide Find, Below, Pad2, Encode;
    var all := Below(base.value);
    for i := 0 to |all|
      invariant entries == EntriesOf(all[..i])
    {
      var subs := all[i];
      assert all[..i + 1][..i] == all[..i];
      if subs.tag.Switch? || subs.tag.Host? {
        var priority := 20;
        if subs.tag.Switch? { priority := 70; }
        if subs.priority.Some? { priority := subs.priority.value; }
        var identifier: Option<string> := None;
        if subs.ip.Some? { identifier := subs.ip; }
        if subs.name.Some? { identifier := subs.name; }
        if identifier.Some? {
          entries := entries + {Encode(priority, identifier.value)};
        }
      }
    }
    assert all[..|all|] == all;
  }

  // ---------------------------------------------------------------- sorting

  /** `sorted(entries, reverse=True)`. */
  ghost predicate Descending(list: seq<string>, entries: set<string>) {
    (forall i, j :: 0 <= i < j < |list| ==> Less(list[j], list[i])) && (forall x :: x in list <==> x in entries)
  }

  function InsertDescending(x: string, s: seq<string>): seq<string> {
    if s == [] then [x] else if Less(s[0], x) then [x] + s else [s[0]] + InsertDescending(x, s[1..])
  }

  lemma {:induction false} InsertKeepsOrder(x: string, s: seq<string>)
    requires x !in s && forall i, j :: 0 <= i < j < |s| ==> Less(s[j], s[i])
    ensures var r := InsertDescending(x, s);
      (forall i, j :: 0 <= i < j < |r| ==> Less(r[j], r[i])) && (forall y :: y in r <==> y == x || y in s)
  {
    if s != [] {
      LessTotal(x, s[0]);
      if Less(s[0], x) {
        forall j | 0 < j < |s| ensures Less(s[j], x) {
          LessTransitive(s[j], s[0], x);
        }
      } else {
        InsertKeepsOrder(x, s[1..]);
        var r := InsertDescending(x, s[1..]);
        assert s == [s[0]] + s[1..];
        assert forall y :: y in r ==> Less(y, s[0]);
      }
    }
  }

  /** There is only one such order. */
  lemma {:induction false} DescendingUnique(a: seq<string>, b: seq<string>, entries: set<string>)
    requires Descending(a, entries) && Descending(b, entries)
    ensures a == b
  {
    assert |a| == 0 <==> |b| == 0 by {
      assert |a| > 0 ==> a[0] in a;
      assert |b| > 0 ==> b[0] in b;
    }
    if |a| > 0 {
      assert a[0] in b && b[0] in a;
      LessTotal(a[0], b[0]);
      assert a[0] == b[0];
      assert forall x :: x in a[1..] ==> Less(x, a[0]);
      assert forall x :: x in b[1..] ==> Less(x, b[0]);
      LessIrreflexive(a[0]);
      assert a == [a[0]] + a[1..] && b == [b[0]] + b[1..];
      forall x ensures x in a[1..] <==> x in entries - {a[0]} {
        assert x in a <==> x == a[0] || x in a[1..];
      }
      forall x ensures x in b[1..] <==> x in entries - {a[0]} {
        assert x in b <==> x == b[0] || x in b[1..];
      }
      DescendingUnique(a[1..], b[1..], entries - {a[0]});
    }
  }

  ghost function Ordered(entries: set<string>): (list: seq<string>)
    ensures Descending(list, entries)
  {
    if entries == {} then []
    else
      var x :| x in entries;
      var rest := Ordered(entries - {x});
      InsertKeepsOrder(x, rest);
      InsertDescending(x, rest)
  }

  method SortDescending(entries: set<string>) returns (list: seq<string>)
    ensures list == Ordered(entries)
  {
    list := [];
    var rest := entries;
    while rest != {}
      invariant rest <= entries && Descending(list, entries - rest)
      decreases rest
    {
      var x :| x in rest;
      InsertKeepsOrder(x, list);
      list := InsertDescending(x, list);
      rest := rest - {x};
    }
    assert entries - rest == entries;
    DescendingUnique(list, Ordered(entries), entries);
  }

  /** Exactly the entries before a place in the list are greater than the one there. */
  lemma RankIsPlace(list: seq<string>, entries: set<string>, i: nat)
    requires Descending(list, entries) && i < |list|
    ensures |Above(entries, list[i])| == i
  {
    var front := list[..i];
    forall x ensures x in Above(entries, list[i]) <==> x in front {
      if x in Above(entries, list[i]) {
        var j :| 0 <= j < |list| && list[j] == x;
        LessTotal(list[i], list[j]);
        assert j < i;
      }
    }
    assert Above(entries, list[i]) == Range(front);
    forall j, k | 0 <= j < k < |front| ensures front[j] != front[k] {
      LessIrreflexive(list[j]);
    }
    RangeSize(front);
  }

  /** The entries that sort before `entry`. */
  ghost function Above(entries: set<string>, entry: string): set<string> {
    set x | x in entries && Less(entry, x)
  }

  // ---------------------------------------------------------------- the list of one switch

  /** The text before the first `c`. */
  function Before(s: string, c: char): string {
    if s == [] || s[0] == c then [] else [s[0]] + Before(s[1..], c)
  }

  lemma {:induction false} BeforeFree(a: string, u: string, c: char)
    requires Free(a, c) && (u == [] || u[0] == c)
    ensures Before(a + u, c) == a
  {
    if a == [] {
      assert a + u == u;
    } else {
      assert (a + u)[1..] == a[1..] + u && (a + u)[0] == a[0];
      BeforeFree(a[1..], u, c);
    }
  }

  lemma {:induction false} PlaceAppend(e: Elem, a: Place, b: Place)
    requires Within(e, a + b)
    ensures Within(e, a) && Within(At(e, a), b) && At(e, a + b) == At(At(e, a), b)
    ensures PathBelow(e, a + b) == PathBelow(e, a) + PathBelow(At(e, a), b)
  {
    hide Segment;
    if a == [] {
      assert a + b == b;
    } else {
      assert (a + b)[1..] == a[1..] + b;
      PlaceAppend(e.kids[a[0]], a[1..], b);
    }
  }

  /** The child of the switch on the way to the monitor. */
  ghost function ChildToward(root: Elem, sw: Place, monitor: Place): Elem
    requires Within(root, monitor) && sw < monitor
  {
    assert monitor == sw + monitor[|sw|..];
    PlaceAppend(root, sw, monitor[|sw|..]);
    At(root, sw).kids[monitor[|sw|]]
  }

  /** What the monitor has to ping: what is on the other side of the switch. */
  ghost function FarSide(root: Elem, sw: Place, monitor: Place): set<string>
    requires Within(root, sw) && Within(root, monitor)
  {
    if sw < monitor then
      if ChildToward(root, sw, monitor).tag.Switch?
      then EntriesBelow(root) - EntriesBelow(ChildToward(root, sw, monitor))
      else EntriesBelow(root)
    else EntriesBelow(At(root, sw))
  }

  /** `monitor_path[len(switch_path):].split('/')[1]`, the rest of the path starting with a slash. */
  function Branch(switchPath: string, monitorPath: string): string {
    if |switchPath| < |monitorPath| then Before(monitorPath[|switchPath| + 1..], '/') else []
  }

  lemma SegmentTag(e: Elem, k: nat)
    requires k < |e.kids|
    ensures "switch" <= Segment(e, k) <==> e.kids[k].tag.Switch?
  {
    var t := e.kids[k].tag;
    assert Segment(e, k)[0] == TagText(t)[0];
  }

  lemma BranchText(root: Elem, sw: Place, k: nat, rest: Place)
    requires Within(root, sw + ([k] + rest))
    ensures Within(root, sw) && k < |At(root, sw).kids|
    ensures Branch(PathText(root, sw), PathText(root, sw + ([k] + rest))) == Segment(At(root, sw), k)
  {
    hide Segment;
    PlaceAppend(root, sw, [k] + rest);
    var e := At(root, sw);
    assert ([k] + rest)[1..] == rest;
    var u := PathBelow(e.kids[k], rest);
    assert PathBelow(e, [k] + rest) == "/" + (Segment(e, k) + u);
    var s, m := PathText(root, sw), PathText(root, sw + ([k] + rest));
    assert m == s + "/" + (Segment(e, k) + u);
    assert m[|s| + 1..] == Segment(e, k) + u;
    SegmentChars(e, k);
    BeforeFree(Segment(e, k), u, '/');
  }

  lemma BranchPlace(root: Elem, sw: Place, k: nat)
    requires Within(root, sw) && k < |At(root, sw).kids| && Within(root, sw + [k])
    ensures Find(root, PathBelow(root, sw) + "/" + Segment(At(root, sw), k)) == Some(At(root, sw).kids[k])
  {
    hide Segment, Find;
    PlaceAppend(root, sw, [k]);
    var one: Place := [k];
    assert one[1..] == [];
    assert PathBelow(At(root, sw), one) == "/" + Segment(At(root, sw), k) + [];
    FindRoundTrip(root, sw + [k]);
    assert PathBelow(root, sw + [k]) == PathBelow(root, sw) + "/" + Segment(At(root, sw), k);
  }

  /** The part of the monitor's path after the switch names this child, and its path leads there. */
  lemma BranchNamesChild(root: Elem, sw: Place, monitor: Place)
    requires Within(root, sw) && Within(root, monitor) && sw < monitor
    ensures var branch := Branch(PathText(root, sw), PathText(root, monitor));
      Find(root, PathBelow(root, sw) + "/" + branch) == Some(ChildToward(root, sw, monitor)) &&
      ("switch" <= branch <==> ChildToward(root, sw, monitor).tag.Switch?)
  {
    var k, rest := monitor[|sw|], monitor[|sw| + 1..];
    assert monitor == sw + ([k] + rest);
    assert monitor == (sw + [k]) + rest;
    BranchText(root, sw, k, rest);
    PlaceAppend(root, sw + [k], rest);
    BranchPlace(root, sw, k);
    SegmentTag(At(root, sw), k);
  }

  /** What is left of a sorted list under a limit, without the priorities. */
  function Shown(full: seq<string>, limit: Option<nat>): seq<string> {
    Map(if limit.Some? && limit.value < |full| then full[..limit.value] else full, Drop3)
  }

  /** What the monitor pings for a switch. */
  ghost function PingsOf(root: Elem, sw: Place, monitor: Place): seq<string>
    requires Within(root, sw) && Within(root, monitor)
  {
    Shown(Ordered(FarSide(root, sw, monitor)), At(root, sw).pingLimit)
  }

  /**
   One round of the loop over the switches: the far side in descending order, cut off at the
   limit of the switch, without the priorities.
   */
  lemma RootPlace(root: Elem)
    ensures Within(root, []) && At(root, []) == root
  {
  }

  lemma FarSideIs(root: Elem, sw: Place, monitor: Place)
    requires Within(root, sw) && Within(root, monitor)
    ensures !(sw < monitor) ==> FarSide(root, sw, monitor) == EntriesBelow(At(root, sw))
    ensures sw < monitor ==>
      FarSide(root, sw, monitor) == EntriesBelow(root) -
        if ChildToward(root, sw, monitor).tag.Switch? then EntriesBelow(ChildToward(root, sw, monitor)) else {}
  {
    hide EntriesBelow, ChildToward, At;
  }

  method PingList(root: Elem, sw: Place, monitor: Place) returns (pings: seq<string>)
    requires Within(root, sw) && Within(root, monitor) && At(root, sw).tag.Switch? && At(root, monitor).tag.Host?
    ensures pings == PingsOf(root, sw, monitor)
  {
    RootPlace(root);
    hide Ordered, FarSide, At, EntriesBelow, Find, PathBelow, PathText, Branch, ChildToward, Segment, Within;
    var switchPath, monitorPath := PathText(root, sw), PathText(root, monitor);
    StartsWithIffAncestor(root, sw, monitor);
    FindRoundTrip(root, sw);
    FindRoundTrip(root, []);
    var pingHosts: set<string>;
    if switchPath <= monitorPath {
      assert sw != monitor;
      BranchNamesChild(root, sw, monitor);
      var branch := Branch(switchPath, monitorPath);
      var excludeHosts: set<string> := {};
      if "switch" <= branch {
        excludeHosts := CollectAllInPath(root, PathBelow(root, sw) + "/" + branch);
      }
      var allHosts := CollectAllInPath(root, PathBelow(root, []));
      pingHosts := allHosts - excludeHosts;
    } else {
      pingHosts := CollectAllInPath(root, PathBelow(root, sw));
    }
    FarSideIs(root, sw, monitor);
    var pingList := SortDescending(pingHosts);
    var limit := At(root, sw).pingLimit;
    if limit.Some? && limit.value < |pingList| { pingList := pingList[..limit.value]; }
    pings := Map(pingList, Drop3);
  }

  // ---------------------------------------------------------------- what the list means

  ghost predicate Carries(e: Elem, entry: string) {
    exists x :: IsBelow(e, x) && Pingable(x) && EntryOf(x) == entry
  }

  lemma EntriesBelowMeaning(e: Elem, entry: string)
    ensures entry in EntriesBelow(e) <==> Carries(e, entry)
  {
    EntriesMeaning(Below(e), entry);
    forall x ensures x in Below(e) <==> IsBelow(e, x) {
      BelowComplete(e, x);
    }
  }

  /**
   A switch that is not above the monitor pings exactly what is strictly below it; one above
   it pings everything except the entries strictly below the child switch toward the monitor.
   */
  lemma FarSideMeaning(root: Elem, sw: Place, monitor: Place, entry: string)
    requires Within(root, sw) && Within(root, monitor)
    ensures !(sw < monitor) ==> (entry in FarSide(root, sw, monitor) <==> Carries(At(root, sw), entry))
    ensures sw < monitor && ChildToward(root, sw, monitor).tag.Switch? ==>
      (entry in FarSide(root, sw, monitor) <==> Carries(root, entry) && !Carries(ChildToward(root, sw, monitor), entry))
    ensures sw < monitor && !ChildToward(root, sw, monitor).tag.Switch? ==>
      (entry in FarSide(root, sw, monitor) <==> Carries(root, entry))
  {
    hide At, EntriesBelow, Carries, ChildToward;
    EntriesBelowMeaning(root, entry);
    EntriesBelowMeaning(At(root, sw), entry);
    if sw < monitor { EntriesBelowMeaning(ChildToward(root, sw, monitor), entry); }
  }

  /** The priorities the schema admits. */
  ghost predicate InRange(root: Elem) {
    forall x :: IsBelow(root, x) && Pingable(x) ==> 0 <= Priority(x) <= 99
  }

  ghost predicate Shows(entries: set<string>, limit: Option<nat>, entry: string) {
    entry in entries && (limit.Some? ==> |Above(entries, entry)| < limit.value)
  }

  /** An entry is shown exactly when fewer entries than the limit sort before it. */
  lemma ShownIff(entries: set<string>, limit: Option<nat>, id: string)
    ensures id in Shown(Ordered(entries), limit) <==> exists entry :: Shows(entries, limit, entry) && Drop3(entry) == id
  {
    var full := Ordered(entries);
    var shown := Shown(full, limit);
    if id in shown {
      var i :| 0 <= i < |shown| && shown[i] == id;
      RankIsPlace(full, entries, i);
      assert full[i] in full;
      assert Shows(entries, limit, full[i]) && Drop3(full[i]) == id;
    }
    if exists entry :: Shows(entries, limit, entry) && Drop3(entry) == id {
      var entry :| Shows(entries, limit, entry) && Drop3(entry) == id;
      assert entry in full;
      var i :| 0 <= i < |full| && full[i] == entry;
      RankIsPlace(full, entries, i);
      assert shown[i] == id;
    }
  }

  /** The far side holds entries of elements of the topology only. */
  lemma FarSideCarried(root: Elem, sw: Place, monitor: Place, entry: string)
    requires Within(root, sw) && Within(root, monitor) && sw < monitor && entry in FarSide(root, sw, monitor)
    ensures Carries(root, entry)
  {
    hide Carries, ChildToward;
    FarSideMeaning(root, sw, monitor, entry);
  }

  /**
   What a switch above the monitor pings: an identifier is in its list exactly when some element
   with that identifier has an entry that the excluded side does not carry and that fewer
   entries than the limit precede.
   */
  lemma PingsMeaning(root: Elem, sw: Place, monitor: Place, id: string)
    requires Within(root, sw) && Within(root, monitor) && sw < monitor && InRange(root)
    ensures id in PingsOf(root, sw, monitor) <==>
      exists x :: IsBelow(root, x) && Pingable(x) && Identifier(x).value == id &&
        Shows(FarSide(root, sw, monitor), At(root, sw).pingLimit, EntryOf(x))
  {
    hide FarSide, IsBelow, Shows, Drop3, Pad2;
    var far, limit := FarSide(root, sw, monitor), At(root, sw).pingLimit;
    ShownIff(far, limit, id);
    if id in PingsOf(root, sw, monitor) {
      var entry :| Shows(far, limit, entry) && Drop3(entry) == id;
      assert entry in far by { ShowsIn(far, limit, entry); }
      FarSideCarried(root, sw, monitor, entry);
      var x :| IsBelow(root, x) && Pingable(x) && EntryOf(x) == entry;
      IdentifierRecovered(Priority(x), Identifier(x).value);
    }
    if x :| IsBelow(root, x) && Pingable(x) && Identifier(x).value == id && Shows(far, limit, EntryOf(x)) {
      IdentifierRecovered(Priority(x), id);
    }
  }

  lemma ShowsIn(entries: set<string>, limit: Option<nat>, entry: string)
    requires Shows(entries, limit, entry)
    ensures entry in entries
  {
  }

  ghost predicate CarriesId(near: Elem, id: string) {
    exists y :: IsBelow(near, y) && Pingable(y) && Identifier(y).value == id
  }

  /** The switch pings nothing that is strictly below its child switch toward the monitor. */
  ghost predicate Silent(root: Elem, sw: Place, monitor: Place)
    requires Within(root, sw) && Within(root, monitor) && sw < monitor
  {
    forall id :: CarriesId(ChildToward(root, sw, monitor), id) ==> id !in PingsOf(root, sw, monitor)
  }

  /** An element whose identifier the near side has, but not with this priority. */
  ghost predicate Escapes(root: Elem, near: Elem, x: Elem) {
    && IsBelow(root, x) && Pingable(x)
    && CarriesId(near, Identifier(x).value) && !Carries(near, EntryOf(x))
  }

  /**
   The exclusion compares priority and identifier together. So a switch above the monitor pings
   no identifier of the near side exactly when each element that has such an identifier with a
   priority it does not have there is pushed out of the list by the limit. Without a limit:
   exactly when there is no such element.
   */
  lemma SilentIff(root: Elem, sw: Place, monitor: Place)
    requires Within(root, sw) && Within(root, monitor) && sw < monitor && InRange(root)
    requires ChildToward(root, sw, monitor).tag.Switch?
    ensures var near, far, limit :=
        ChildToward(root, sw, monitor), FarSide(root, sw, monitor), At(root, sw).pingLimit;
      Silent(root, sw, monitor) <==>
        forall x :: Escapes(root, near, x) ==> limit.Some? && |Above(far, EntryOf(x))| >= limit.value
  {
    hide ChildToward, FarSide, At, IsBelow, PingsOf, Carries, CarriesId, EntryOf;
    var near, far, limit := ChildToward(root, sw, monitor), FarSide(root, sw, monitor), At(root, sw).pingLimit;
    forall x | IsBelow(root, x) && Pingable(x) && CarriesId(near, Identifier(x).value)
      ensures Shows(far, limit, EntryOf(x)) <==>
        Escapes(root, near, x) && !(limit.Some? && |Above(far, EntryOf(x))| >= limit.value)
    {
      FarSideMeaning(root, sw, monitor, EntryOf(x));
      OwnEntry(root, x);
    }
    forall id ensures id in PingsOf(root, sw, monitor) <==>
      exists x :: IsBelow(root, x) && Pingable(x) && Identifier(x).value == id && Shows(far, limit, EntryOf(x))
    {
      PingsMeaning(root, sw, monitor, id);
    }
    hide Shows, Above;
    if Silent(root, sw, monitor) {
      forall x | Escapes(root, near, x) ensures limit.Some? && |Above(far, EntryOf(x))| >= limit.value {
        assert Identifier(x).value !in PingsOf(root, sw, monitor);
        assert !Shows(far, limit, EntryOf(x));
      }
    }
  }

  lemma OwnEntry(root: Elem, x: Elem)
    requires IsBelow(root, x) && Pingable(x)
    ensures Carries(root, EntryOf(x))
  {
  }

  // ---------------------------------------------------------------- a topology where it fails

  /** What the schema admits below an element: hosts are leaves; in a switch they come first. */
  ghost predicate LegalBelow(e: Elem) {
    && (e.tag.Properties? ==> |e.kids| <= 1 && forall k :: k in e.kids ==> k.tag.Switch?)
    && (e.tag.Switch? ==> forall i, j :: 0 <= i < j < |e.kids| && e.kids[j].tag.Host? ==> e.kids[i].tag.Host?)
    && (e.tag.Host? ==> e.kids == [])
    && (forall i :: 0 <= i < |e.kids| ==> !e.kids[i].tag.Properties? && LegalBelow(e.kids[i]))
    && (forall i :: 0 <= i < |e.kids| ==> e.kids[i].priority.Some? ==> 0 <= e.kids[i].priority.value <= 99)
  }

  ghost predicate Legal(root: Elem) { root.tag.Properties? && LegalBelow(root) }

  lemma {:induction false} LegalInRange(e: Elem)
    requires LegalBelow(e)
    ensures InRange(e)
  {
    forall x | IsBelow(e, x) && Pingable(x) ensures 0 <= Priority(x) <= 99 {
      var p: Place :| Within(e, p) && p != [] && At(e, p) == x;
      var i, rest: Place := p[0], p[1..];
      assert !e.kids[i].tag.Properties? && LegalBelow(e.kids[i]);
      assert Within(e.kids[i], rest) && At(e.kids[i], rest) == x;
      if rest != [] {
        LegalInRange(e.kids[i]);
        assert IsBelow(e.kids[i], x);
      }
    }
  }

  function SomeHost(name: string, priority: Option<int>): Elem { Elem(Host, None, Some(name), priority, None, []) }

  function SomeSwitch(kids: seq<Elem>): Elem { Elem(Switch, None, None, None, None, kids) }

  /** A switch with one host named like a host behind its child switch, where the monitor is. */
  function TwiceNamed(): Elem {
    var near := SomeSwitch([SomeHost("monitor", None), SomeHost("host3", None)]);
    Elem(Properties, None, None, None, None, [SomeSwitch([SomeHost("host3", Some(30)), near])])
  }

  lemma TwoLeaves(e: Elem, a: Elem, b: Elem)
    requires e.kids == [a, b] && a.kids == [] && b.kids == []
    ensures forall x :: IsBelow(e, x) ==> x == a || x == b
  {
    forall x | IsBelow(e, x) ensures x == a || x == b {
      var p: Place :| Within(e, p) && p != [] && At(e, p) == x;
      var rest: Place := p[1..];
      assert Within(e.kids[p[0]], rest);
      assert rest == [] && At(e, p) == At(e.kids[p[0]], rest);
    }
  }

  lemma LegalHost(name: string, priority: Option<int>)
    ensures LegalBelow(SomeHost(name, priority))
  {
  }

  lemma LegalSwitch(kids: seq<Elem>)
    requires |kids| == 2 && kids[0].tag.Host? && !kids[1].tag.Properties?
    requires LegalBelow(kids[0]) && LegalBelow(kids[1])
    requires forall i :: 0 <= i < 2 && kids[i].priority.Some? ==> 0 <= kids[i].priority.value <= 99
    ensures LegalBelow(SomeSwitch(kids))
  {
  }

  lemma TwiceNamedLegal()
    ensures Legal(TwiceNamed())
  {
    var top := TwiceNamed().kids[0];
    LegalHost("monitor", None);
    LegalHost("host3", None);
    LegalHost("host3", Some(30));
    LegalSwitch([SomeHost("monitor", None), SomeHost("host3", None)]);
    LegalSwitch(top.kids);
  }

  lemma TwiceNamedPlaces()
    ensures var root := TwiceNamed(); var top := root.kids[0];
      Within(root, [0]) && Within(root, [0, 1, 0]) && At(root, [0]) == top &&
      At(root, [0, 1, 0]) == top.kids[1].kids[0] &&
      Within(root, [0, 0]) && At(root, [0, 0]) == top.kids[0] && IsBelow(root, top.kids[0]) &&
      ChildToward(root, [0], [0, 1, 0]) == top.kids[1]
  {
    var root := TwiceNamed();
    var top := root.kids[0];
    var empty: Place, one: Place, two: Place, p: Place, q: Place := [], [0], [1, 0], [0, 1, 0], [0, 0];
    assert one[1..] == empty && two[1..] == one && p[1..] == two && q[1..] == one;
    assert Within(top, one) && At(top, one) == top.kids[0];
    assert Within(top.kids[1], one) && At(top.kids[1], one) == top.kids[1].kids[0];
    assert Within(top, two) && At(top, two) == top.kids[1].kids[0];
    assert Within(root, q) && At(root, q) == top.kids[0];
  }

  /**
   A host named on both sides with different priorities is pinged on the wrong side: its
   identifier is strictly below the child switch toward the monitor and in the returned list.
   */
  lemma TwoPrioritiesEscape()
    ensures Legal(TwiceNamed()) && Within(TwiceNamed(), [0]) && Within(TwiceNamed(), [0, 1, 0])
    ensures At(TwiceNamed(), [0]).tag.Switch? && At(TwiceNamed(), [0, 1, 0]) == SomeHost("monitor", None)
    ensures ChildToward(TwiceNamed(), [0], [0, 1, 0]).tag.Switch? && !Silent(TwiceNamed(), [0], [0, 1, 0])
    ensures CarriesId(ChildToward(TwiceNamed(), [0], [0, 1, 0]), "host3")
    ensures "host3" in PingsOf(TwiceNamed(), [0], [0, 1, 0])
  {
    var root := TwiceNamed();
    var far, near := root.kids[0].kids[0], root.kids[0].kids[1];
    TwiceNamedLegal();
    LegalInRange(root);
    TwiceNamedPlaces();
    TwoLeaves(near, near.kids[0], near.kids[1]);
    KidIsBelow(near, 1);
    Pad2Digits(30);
    Pad2Digits(20);
    assert EntryOf(far)[0] == Digit(3);
    assert EntryOf(near.kids[0])[0] == Digit(2) && EntryOf(near.kids[1])[0] == Digit(2);
    hide EntryOf, At, ChildToward, FarSide, IsBelow, Legal, LegalBelow, InRange;
    assert !Carries(near, EntryOf(far));
    FarSideMeaning(root, [0], [0, 1, 0], EntryOf(far));
    OwnEntry(root, far);
    assert Shows(FarSide(root, [0], [0, 1, 0]), None, EntryOf(far));
    PingsMeaning(root, [0], [0, 1, 0], "host3");
    assert CarriesId(near, "host3");
  }

  /**
   The shown list holds the identifiers of the most important entries: nothing left out has a
   higher priority than something shown, and each identifier comes out as it went in.
   */
  lemma ShownAreMostImportant(full: seq<string>, entries: set<string>, limit: Option<nat>,
                              i: nat, p: int, a: string, j: nat, q: int, b: string)
    requires Descending(full, entries)
    requires i < |Shown(full, limit)| <= j < |full|
    requires full[i] == Encode(p, a) && full[j] == Encode(q, b) && 0 <= p <= 99 && 0 <= q <= 99
    ensures p >= q && Shown(full, limit)[i] == a
    ensures limit.Some? && |Shown(full, limit)| == limit.value
  {
    TextOrderIsPriority(q, b, p, a);
    IdentifierRecovered(p, a);
  }
}
