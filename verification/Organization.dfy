/**
 Two walks over the tree of organization units: one collects the values of a tag for an
 address, the other records a profile for every network.
 */
module Organization {
  import opened Lists
  import opened Networks

  /** The `network_match` element: missing, without text, or with a network. */
  datatype MatchTag = NoTag | BlankTag | MatchNet(net: Net)

  /** `tags` holds the child elements that have text. */
  datatype Ou = Ou(tags: map<string, string>, networkMatch: MatchTag, network: Option<Net>, subs: seq<Ou>)

  function Network(ou: Ou): Option<Net> {
    match ou.networkMatch
    case NoTag => ou.network
    case BlankTag => None
    case MatchNet(n) => Some(n)
  }

  predicate Matches(ou: Ou, ip: int) { Network(ou).Some? && Has(Network(ou).value, ip) }

  function Tag(ou: Ou, name: string): seq<string> { if name in ou.tags then [ou.tags[name]] else [] }

  // ---------------------------------------------------------------- reference: paths in preorder

  type Path = p: seq<Ou> | |p| > 0 witness [Ou(map[], NoTag, None, [])]

  function Extend(ou: Ou, p: Path): Path { [ou] + p }

  function Under(ou: Ou, paths: seq<Path>): seq<Path> { Map(paths, (p: Path) => Extend(ou, p)) }

  /** The paths from `ou` to every unit below it, itself first, in preorder. */
  function Paths(ou: Ou): seq<Path>
    decreases ou, |ou.subs| + 1
  {
    [[ou]] + PathsBelow(ou, |ou.subs|)
  }

  /** The paths through the first `k` units of `ou`. */
  function PathsBelow(ou: Ou, k: nat): seq<Path>
    requires k <= |ou.subs|
    decreases ou, k
  {
    if k == 0 then [] else PathsBelow(ou, k - 1) + Under(ou, Paths(ou.subs[k - 1]))
  }

  function Unit(p: Path): Ou { p[|p| - 1] }

  ghost predicate Descends(p: Path) { forall i :: 0 <= i < |p| - 1 ==> p[i + 1] in p[i].subs }

  /** The enumeration lists exactly the downward paths that start at `ou`. */
  lemma {:induction false} PathsComplete(ou: Ou, p: Path)
    ensures p in Paths(ou) <==> p[0] == ou && Descends(p)
    decreases ou, |ou.subs| + 1
  {
    PathsBelowComplete(ou, |ou.subs|, p);
    if p[0] == ou && Descends(p) && |p| > 1 {
      assert p[0 + 1] in p[0].subs;
    }
    if |p| == 1 { assert p == [p[0]]; }
    assert p in Paths(ou) <==> p == [ou] || p in PathsBelow(ou, |ou.subs|);
  }

  lemma {:induction false} PathsBelowComplete(ou: Ou, k: nat, p: Path)
    requires k <= |ou.subs|
    ensures p in PathsBelow(ou, k) <==> |p| > 1 && p[0] == ou && p[1] in ou.subs[..k] && Descends(p)
    decreases ou, k
  {
    if k != 0 {
      hide Descends, Under;
      PathsBelowComplete(ou, k - 1, p);
      assert ou.subs[..k] == ou.subs[..k - 1] + [ou.subs[k - 1]];
      var below := Paths(ou.subs[k - 1]);
      UnderHeads(ou, below);
      if |p| > 1 && p[0] == ou {
        PathsComplete(ou.subs[k - 1], p[1..]);
        UnderHas(ou, below, p);
        DescendsTail(p);
        assert p in PathsBelow(ou, k) <==> p in PathsBelow(ou, k - 1) || p in Under(ou, below);
      }
    }
  }

  lemma DescendsTail(p: Path)
    requires |p| > 1
    ensures Descends(p) <==> p[1] in p[0].subs && Descends(p[1..])
  {
    var t: Path := p[1..];
    if Descends(p) {
      assert p[0 + 1] in p[0].subs;
      forall i | 0 <= i < |t| - 1 ensures t[i + 1] in t[i].subs {
        assert p[(i + 1) + 1] in p[i + 1].subs;
      }
    }
    if p[1] in p[0].subs && Descends(t) {
      forall i | 0 <= i < |p| - 1 ensures p[i + 1] in p[i].subs {
        if i > 0 { assert t[(i - 1) + 1] in t[i - 1].subs; }
      }
    }
  }

  lemma UnderHas(ou: Ou, paths: seq<Path>, p: Path)
    requires |p| > 1 && p[0] == ou
    ensures p in Under(ou, paths) <==> p[1..] in paths
  {
    if p in Under(ou, paths) {
      var i :| 0 <= i < |paths| && Under(ou, paths)[i] == p;
      assert p[1..] == paths[i];
    }
    if p[1..] in paths {
      var i :| 0 <= i < |paths| && paths[i] == p[1..];
      assert Under(ou, paths)[i] == [ou] + p[1..] == p;
    }
  }

  lemma UnderHeads(ou: Ou, paths: seq<Path>)
    ensures forall p :: p in Under(ou, paths) ==> |p| > 1 && p[0] == ou
  {
  }

  /** The values of a tag along a path, innermost first. */
  function Values(p: Path, name: string): seq<string> {
    if |p| == 1 then Tag(p[0], name) else Values(p[1..], name) + Tag(p[0], name)
  }

  function FirstMatch(paths: seq<Path>, ip: int): Option<Path> {
    if paths == [] then None
    else if Matches(Unit(paths[0]), ip) then Some(paths[0])
    else FirstMatch(paths[1..], ip)
  }

  lemma {:induction false} FirstMatchAppend(a: seq<Path>, b: seq<Path>, ip: int)
    ensures FirstMatch(a + b, ip) == if FirstMatch(a, ip).Some? then FirstMatch(a, ip) else FirstMatch(b, ip)
  {
    if a == [] {
      assert a + b == b;
    } else {
      assert (a + b)[1..] == a[1..] + b;
      FirstMatchAppend(a[1..], b, ip);
    }
  }

  lemma {:induction false} FirstMatchUnder(ou: Ou, paths: seq<Path>, ip: int)
    ensures FirstMatch(Under(ou, paths), ip) ==
      if FirstMatch(paths, ip).Some? then Some(Extend(ou, FirstMatch(paths, ip).value)) else None
  {
    if paths != [] {
      assert Under(ou, paths)[1..] == Under(ou, paths[1..]);
      FirstMatchUnder(ou, paths[1..], ip);
    }
  }

  /** The answer for a unit: the values along the path to its first match, and whether there is one. */
  ghost function Answer(ou: Ou, ip: int, name: string): (seq<string>, bool) {
    var m := FirstMatch(Paths(ou), ip);
    if m.Some? then (Values(m.value, name), true) else ([], false)
  }

  /** The unit's own value of a tag, if it has one. */
  ghost function Own(ou: Ou, name: string): seq<string> { if name in ou.tags then [ou.tags[name]] else [] }

  /**
   A unit with a network in `network_match` answers exactly the addresses of that network,
   whatever `network` says; with an empty `network_match` it answers none; without one,
   `network` decides. What a unit does not answer, its first answering sub-unit answers.
   */
  lemma AnswerMeans(ou: Ou, ip: int, name: string)
    ensures ou.networkMatch.MatchNet? && Has(ou.networkMatch.net, ip) ==> Answer(ou, ip, name) == (Own(ou, name), true)
    ensures ou.networkMatch.MatchNet? && !Has(ou.networkMatch.net, ip) ==> AnsweredBelow(ou, ip, name)
    ensures ou.networkMatch.BlankTag? ==> AnsweredBelow(ou, ip, name)
    ensures ou.networkMatch.NoTag? && ou.network.Some? && Has(ou.network.value, ip) ==>
      Answer(ou, ip, name) == (Own(ou, name), true)
    ensures ou.networkMatch.NoTag? && (ou.network.Some? ==> !Has(ou.network.value, ip)) ==> AnsweredBelow(ou, ip, name)
  {
    hide Has;
    FirstMatchHere(ou, ip);
    if !Matches(ou, ip) { BelowMeans(ou, ip, name); }
  }

  ghost predicate AnsweredBelow(ou: Ou, ip: int, name: string) {
    && (forall i :: 0 <= i < |ou.subs| && Answer(ou.subs[i], ip, name).1 && NoneAnswers(ou.subs[..i], ip, name) ==>
         Answer(ou, ip, name) == (Answer(ou.subs[i], ip, name).0 + Own(ou, name), true))
    && (NoneAnswers(ou.subs, ip, name) ==> Answer(ou, ip, name) == ([], false))
  }

  ghost predicate NoneAnswers(subs: seq<Ou>, ip: int, name: string) {
    forall i :: 0 <= i < |subs| ==> !Answer(subs[i], ip, name).1
  }

  lemma {:induction false} NoneBelow(ou: Ou, k: nat, ip: int, name: string)
    requires k <= |ou.subs| && NoneAnswers(ou.subs[..k], ip, name)
    ensures FirstMatch(PathsBelow(ou, k), ip).None?
  {
    if k != 0 {
      assert !Answer(ou.subs[..k][k - 1], ip, name).1;
      assert forall i :: 0 <= i < k - 1 ==> ou.subs[..k - 1][i] == ou.subs[..k][i];
      NoneBelow(ou, k - 1, ip, name);
      FirstMatchNext(ou, k - 1, ip);
    }
  }

  lemma BelowMeans(ou: Ou, ip: int, name: string)
    requires !Matches(ou, ip)
    ensures AnsweredBelow(ou, ip, name)
  {
    FirstMatchHere(ou, ip);
    forall i | 0 <= i < |ou.subs| && Answer(ou.subs[i], ip, name).1 && NoneAnswers(ou.subs[..i], ip, name)
      ensures Answer(ou, ip, name) == (Answer(ou.subs[i], ip, name).0 + Own(ou, name), true)
    {
      hide PathsBelow, Paths, Values;
      NoneBelow(ou, i, ip, name);
      FirstMatchNext(ou, i, ip);
      ValuesUnder(ou, FirstMatch(Paths(ou.subs[i]), ip).value, name);
    }
    if NoneAnswers(ou.subs, ip, name) {
      assert ou.subs[..|ou.subs|] == ou.subs;
      NoneBelow(ou, |ou.subs|, ip, name);
    }
  }

  /**
   `accumulate_tags`: the tag values from the first matching unit in preorder up to the root,
   innermost first; success exactly when some unit matches.
   */
  method AccumulateTags(element: Ou, ip: int, name: string) returns (values: seq<string>, found: bool)
    ensures found <==> FirstMatch(Paths(element), ip).Some?
    ensures values == if found then Values(FirstMatch(Paths(element), ip).value, name) else []
    ensures (values, found) == Answer(element, ip, name)
    ensures element.networkMatch.BlankTag? && element.subs == [] ==> (values, found) == ([], false)
    ensures element.networkMatch.MatchNet? && Has(element.networkMatch.net, ip) ==>
      (values, found) == (Own(element, name), true)
    decreases element
  {
    AnswerMeans(element, ip, name);
    var val := Tag(element, name);
    FirstMatchHere(element, ip);
    if Matches(element, ip) { return val, true; }
    for i := 0 to |element.subs|
      invariant FirstMatch(PathsBelow(element, i), ip).None?
    {
      var subValues, subFound := AccumulateTags(element.subs[i], ip, name);
      FirstMatchNext(element, i, ip);
      if subFound {
        ValuesUnder(element, FirstMatch(Paths(element.subs[i]), ip).value, name);
        return subValues + val, true;
      }
    }
    return [], false;
  }

  lemma FirstMatchHere(ou: Ou, ip: int)
    ensures FirstMatch(Paths(ou), ip) ==
      if Matches(ou, ip) then Some([ou]) else FirstMatch(PathsBelow(ou, |ou.subs|), ip)
  {
    FirstMatchAppend([[ou]], PathsBelow(ou, |ou.subs|), ip);
    assert FirstMatch([[ou]], ip) == if Matches(ou, ip) then Some([ou]) else None;
  }

  /** The first match below unit `i` is the first match of all once the units before have none. */
  lemma FirstMatchNext(ou: Ou, i: nat, ip: int)
    requires i < |ou.subs| && FirstMatch(PathsBelow(ou, i), ip).None?
    ensures var sub := FirstMatch(Paths(ou.subs[i]), ip);
      FirstMatch(PathsBelow(ou, i + 1), ip) == if sub.Some? then Some(Extend(ou, sub.value)) else None
    ensures FirstMatch(Paths(ou.subs[i]), ip).Some? ==>
      FirstMatch(PathsBelow(ou, |ou.subs|), ip) == FirstMatch(PathsBelow(ou, i + 1), ip)
  {
    FirstMatchAppend(PathsBelow(ou, i), Under(ou, Paths(ou.subs[i])), ip);
    FirstMatchUnder(ou, Paths(ou.subs[i]), ip);
    if FirstMatch(Paths(ou.subs[i]), ip).Some? {
      FirstBelow(ou, i + 1, |ou.subs|, ip);
    }
  }

  lemma ValuesUnder(ou: Ou, p: Path, name: string)
    ensures Values(Extend(ou, p), name) == Values(p, name) + Tag(ou, name)
  {
    assert Extend(ou, p)[1..] == p;
  }

  lemma {:induction false} FirstBelow(ou: Ou, k: nat, n: nat, ip: int)
    requires k <= n <= |ou.subs| && FirstMatch(PathsBelow(ou, k), ip).Some?
    ensures FirstMatch(PathsBelow(ou, n), ip) == FirstMatch(PathsBelow(ou, k), ip)
  {
    if k < n {
      FirstBelow(ou, k, n - 1, ip);
      FirstMatchAppend(PathsBelow(ou, n - 1), Under(ou, Paths(ou.subs[n - 1])), ip);
    }
  }

  // ---------------------------------------------------------------- profiles of networks

  /** The innermost profile on a path, or the default. */
  function Profile(p: Path, default: string): string {
    var v := Values(p, "bcfg2_profile");
    if v == [] then default else v[0]
  }

  /** What recording the units of `paths` one after the other leaves. */
  function Recorded(table: map<Net, string>, paths: seq<Path>, default: string): map<Net, string> {
    if paths == [] then table
    else
      var before := Recorded(table, paths[..|paths| - 1], default);
      var p := paths[|paths| - 1];
      if Network(Unit(p)).None? then before else before[Network(Unit(p)).value := Profile(p, default)]
  }

  lemma {:induction false} RecordedAppend(table: map<Net, string>, a: seq<Path>, b: seq<Path>, default: string)
    ensures Recorded(table, a + b, default) == Recorded(Recorded(table, a, default), b, default)
  {
    if b == [] {
      assert a + b == a;
    } else {
      assert (a + b)[..|a + b| - 1] == a + b[..|b| - 1];
      RecordedAppend(table, a, b[..|b| - 1], default);
    }
  }

  /** A profile on the root is the default of everything below. */
  lemma {:induction false} RecordedUnder(table: map<Net, string>, ou: Ou, paths: seq<Path>, default: string)
    ensures Recorded(table, Under(ou, paths), default) == Recorded(table, paths, Profile([ou], default))
  {
    if paths != [] {
      assert Under(ou, paths)[..|paths| - 1] == Under(ou, paths[..|paths| - 1]);
      RecordedUnder(table, ou, paths[..|paths| - 1], default);
      var p := paths[|paths| - 1];
      ValuesUnder(ou, p, "bcfg2_profile");
      assert Under(ou, paths)[|paths| - 1] == Extend(ou, p);
    }
  }

  lemma RecordedOne(table: map<Net, string>, p: Path, default: string)
    ensures Recorded(table, [p], default) ==
      if Network(Unit(p)).None? then table else table[Network(Unit(p)).value := Profile(p, default)]
  {
    assert [p][..0] == [];
    assert Recorded(table, [p][..0], default) == table;
  }

  lemma PathsSplit(ou: Ou)
    ensures Paths(ou) == [[ou]] + PathsBelow(ou, |ou.subs|)
  {
  }

  /** Recording one unit more of `ou` is recording its subtree under the profile of `ou`. */
  lemma RecordedNext(table: map<Net, string>, ou: Ou, i: nat, default: string)
    requires i < |ou.subs|
    ensures Recorded(table, PathsBelow(ou, i + 1), default) ==
      Recorded(Recorded(table, PathsBelow(ou, i), default), Paths(ou.subs[i]), Profile([ou], default))
  {
    hide Profile, Under;
    RecordedAppend(table, PathsBelow(ou, i), Under(ou, Paths(ou.subs[i])), default);
    RecordedUnder(Recorded(table, PathsBelow(ou, i), default), ou, Paths(ou.subs[i]), default);
  }

  /** Recording the first `k` sub-units one after the other, under one inherited profile. */
  ghost function RecordedSubs(table: map<Net, string>, ou: Ou, k: nat, profile: string): map<Net, string>
    requires k <= |ou.subs|
  {
    if k == 0 then table else Recorded(RecordedSubs(table, ou, k - 1, profile), Paths(ou.subs[k - 1]), profile)
  }

  lemma NothingRecorded(table: map<Net, string>, ou: Ou, default: string)
    ensures Recorded(table, PathsBelow(ou, 0), default) == table
  {
  }

  lemma {:induction false} SubsRecorded(table: map<Net, string>, ou: Ou, k: nat, default: string)
    requires k <= |ou.subs|
    ensures RecordedSubs(table, ou, k, Profile([ou], default)) == Recorded(table, PathsBelow(ou, k), default)
  {
    NothingRecorded(table, ou, default);
    hide Profile, Recorded, Paths, PathsBelow;
    if k != 0 {
      SubsRecorded(table, ou, k - 1, default);
      RecordedNext(table, ou, k - 1, default);
    }
  }

  /**
   A unit with a network in `network_match` records that network, whatever `network` says; with
   an empty `network_match` it records nothing; without one, `network` decides. Its own profile,
   or else the inherited one, is what it records and hands down to its sub-units.
   */
  lemma FillMeans(table: map<Net, string>, ou: Ou, default: string)
    ensures var own := if "bcfg2_profile" in ou.tags then ou.tags["bcfg2_profile"] else default;
      Recorded(table, Paths(ou), default) ==
      match ou.networkMatch
      case MatchNet(n) => RecordedSubs(table[n := own], ou, |ou.subs|, own)
      case BlankTag => RecordedSubs(table, ou, |ou.subs|, own)
      case NoTag =>
        if ou.network.Some? then RecordedSubs(table[ou.network.value := own], ou, |ou.subs|, own)
        else RecordedSubs(table, ou, |ou.subs|, own)
  {
    PathsSplit(ou);
    RecordedAppend(table, [[ou]], PathsBelow(ou, |ou.subs|), default);
    RecordedOne(table, [ou], default);
    SubsRecorded(Recorded(table, [[ou]], default), ou, |ou.subs|, default);
  }

  lemma FillLeaf(table: map<Net, string>, ou: Ou, default: string)
    requires ou.subs == []
    ensures ou.networkMatch.BlankTag? ==> Recorded(table, Paths(ou), default) == table
    ensures ou.networkMatch.MatchNet? ==>
      Recorded(table, Paths(ou), default) ==
      table[ou.networkMatch.net := if "bcfg2_profile" in ou.tags then ou.tags["bcfg2_profile"] else default]
  {
    FillMeans(table, ou, default);
    hide Recorded, Paths;
  }

  class NetClasses {
    var table: map<Net, string>

    constructor ()
      ensures table == map[]
    {
      table := map[];
    }

    /** `fill_netclasses`: every unit with a network records the innermost profile above it. */
    method Fill(element: Ou, profile: string)
      modifies this
      ensures table == Recorded(old(table), Paths(element), profile)
      ensures element.networkMatch.BlankTag? && element.subs == [] ==> table == old(table)
      ensures element.networkMatch.MatchNet? && element.subs == [] ==>
        table == old(table)[element.networkMatch.net :=
                            if "bcfg2_profile" in element.tags then element.tags["bcfg2_profile"] else profile]
      decreases element
    {
      var val := Profile([element], profile);
      var network := Network(element);
      if network.Some? {
        table := table[network.value := val];
      }
      ghost var before := Recorded(old(table), [[element]], profile);
      RecordedOne(old(table), [element], profile);
      assert table == before;
      hide Paths, Recorded, Network, Profile;
      for i := 0 to |element.subs|
        invariant table == Recorded(before, PathsBelow(element, i), profile)
      {
        RecordedNext(before, element, i, profile);
        Fill(element.subs[i], val);
      }
      RecordedAppend(old(table), [[element]], PathsBelow(element, |element.subs|), profile);
      PathsSplit(element);
      if element.subs == [] { FillLeaf(old(table), element, profile); }
    }
  }

  predicate Carries(p: Path, n: Net) { Network(Unit(p)) == Some(n) }

  /** The path of the last unit in preorder that carries the network. */
  function LastFor(paths: seq<Path>, n: Net): (r: Option<Path>)
    ensures r.None? <==> forall p :: p in paths ==> !Carries(p, n)
    ensures r.Some? ==> r.value in paths && Carries(r.value, n)
  {
    LastWhere(paths, (p: Path) => Carries(p, n))
  }

  /** A network ends up with the profile of the last unit in preorder that carries it. */
  lemma {:induction false} LastRecordWins(table: map<Net, string>, paths: seq<Path>, default: string, n: Net)
    ensures var last := LastFor(paths, n);
      last.Some? ==>
        n in Recorded(table, paths, default) && Recorded(table, paths, default)[n] == Profile(last.value, default)
  {
    if paths != [] {
      LastRecordWins(table, paths[..|paths| - 1], default, n);
    }
  }

  ghost predicate NetworksOnce(paths: seq<Path>) {
    forall i, j, n :: 0 <= i < j < |paths| && Carries(paths[i], n) ==> !Carries(paths[j], n)
  }

  lemma {:induction false} FirstMatchIn(paths: seq<Path>, ip: int) returns (i: nat)
    requires FirstMatch(paths, ip).Some?
    ensures i < |paths| && paths[i] == FirstMatch(paths, ip).value && Matches(Unit(paths[i]), ip)
    ensures forall j :: 0 <= j < i ==> !Matches(Unit(paths[j]), ip)
  {
    if Matches(Unit(paths[0]), ip) {
      i := 0;
    } else {
      var k := FirstMatchIn(paths[1..], ip);
      i := k + 1;
      forall j | 0 < j < i ensures !Matches(Unit(paths[j]), ip) {
        assert paths[1..][j - 1] == paths[j];
      }
    }
  }

  lemma {:induction false} LastCarrier(paths: seq<Path>, n: Net, i: nat)
    requires i < |paths| && Carries(paths[i], n)
    requires forall j :: i < j < |paths| ==> !Carries(paths[j], n)
    ensures LastFor(paths, n) == Some(paths[i])
  {
    if i < |paths| - 1 {
      LastCarrier(paths[..|paths| - 1], n, i);
    }
  }

  /**
   The profile recorded for the network that `ip` matches is the first profile value collected
   for `ip`, or the default when none is.
   */
  ghost predicate Agree(root: Ou, ip: int, default: string)
    requires FirstMatch(Paths(root), ip).Some?
  {
    var path := FirstMatch(Paths(root), ip).value;
    var values, table := Values(path, "bcfg2_profile"), Recorded(map[], Paths(root), default);
    && Matches(Unit(path), ip)
    && Network(Unit(path)).value in table
    && table[Network(Unit(path)).value] == if values == [] then default else values[0]
  }

  /** For one address: the unit it matches and the last unit with that network have one profile. */
  lemma AgreeIff(root: Ou, ip: int, default: string)
    requires FirstMatch(Paths(root), ip).Some?
    ensures var p := FirstMatch(Paths(root), ip).value;
      Network(Unit(p)).Some? &&
      var last := LastFor(Paths(root), Network(Unit(p)).value);
      last.Some? && (Agree(root, ip, default) <==> Profile(p, default) == Profile(last.value, default))
  {
    hide Paths, Recorded, LastFor, Carries;
    var i := FirstMatchIn(Paths(root), ip);
    var n := Network(Unit(Paths(root)[i])).value;
    assert Paths(root)[i] in Paths(root) && Carries(Paths(root)[i], n) by { CarriesOwn(Paths(root)[i]); }
    LastRecordWins(map[], Paths(root), default, n);
  }

  lemma CarriesOwn(p: Path)
    ensures Network(Unit(p)).Some? ==> Carries(p, Network(Unit(p)).value)
  {
  }

  /** Some address of the unit's network is in no network of an earlier unit. */
  ghost predicate Answers(paths: seq<Path>, i: nat)
    requires i < |paths|
  {
    exists ip :: AnswersFor(paths, i, ip)
  }

  ghost predicate AnswersFor(paths: seq<Path>, i: nat, ip: int)
    requires i < |paths|
  {
    Matches(Unit(paths[i]), ip) && forall j :: 0 <= j < i ==> !Matches(Unit(paths[j]), ip)
  }

  lemma {:induction false} FirstMatchAt(paths: seq<Path>, i: nat, ip: int)
    requires i < |paths| && AnswersFor(paths, i, ip)
    ensures FirstMatch(paths, ip) == Some(paths[i])
  {
    if i > 0 {
      assert !Matches(Unit(paths[0]), ip);
      forall j | 0 <= j < i - 1 ensures !Matches(Unit(paths[1..][j]), ip) {
        assert !Matches(Unit(paths[j + 1]), ip);
      }
      FirstMatchAt(paths[1..], i - 1, ip);
    }
  }

  /** The unit's profile is the one of the last unit with the same network. */
  ghost predicate SameAsLast(paths: seq<Path>, i: nat, default: string)
    requires i < |paths| && Network(Unit(paths[i])).Some?
  {
    var last := LastFor(paths, Network(Unit(paths[i])).value);
    last.Some? && Profile(paths[i], default) == Profile(last.value, default)
  }

  /**
   The two walks agree on every address exactly when each unit that answers for some address
   inherits the same profile as the last unit in preorder that carries its network.
   */
  lemma AgreeEverywhereIff(root: Ou, default: string)
    ensures (forall ip :: FirstMatch(Paths(root), ip).Some? ==> Agree(root, ip, default)) <==>
      forall i :: 0 <= i < |Paths(root)| && Answers(Paths(root), i) ==>
        Network(Unit(Paths(root)[i])).Some? && SameAsLast(Paths(root), i, default)
  {
    hide Paths, Agree, FirstMatch, Profile, LastFor;
    var paths := Paths(root);
    forall ip | FirstMatch(paths, ip).Some?
      ensures exists i :: 0 <= i < |paths| && AnswersFor(paths, i, ip) && FirstMatch(paths, ip) == Some(paths[i])
    {
      var i := FirstMatchIn(paths, ip);
    }
    if forall ip :: FirstMatch(paths, ip).Some? ==> Agree(root, ip, default) {
      forall i | 0 <= i < |paths| && Answers(paths, i)
        ensures Network(Unit(paths[i])).Some? && SameAsLast(paths, i, default)
      {
        var ip :| AnswersFor(paths, i, ip);
        FirstMatchAt(paths, i, ip);
        AgreeIff(root, ip, default);
      }
    } else {
      var ip :| FirstMatch(paths, ip).Some? && !Agree(root, ip, default);
      var i :| 0 <= i < |paths| && AnswersFor(paths, i, ip) && FirstMatch(paths, ip) == Some(paths[i]);
      AgreeIff(root, ip, default);
      assert Answers(paths, i) && !SameAsLast(paths, i, default);
    }
  }

  /** In particular both walks agree when every network is on at most one unit. */
  lemma WalksAgree(root: Ou, ip: int, default: string)
    requires NetworksOnce(Paths(root)) && FirstMatch(Paths(root), ip).Some?
    ensures Agree(root, ip, default)
  {
    var i := FirstMatchIn(Paths(root), ip);
    var n := Network(Unit(Paths(root)[i])).value;
    assert Carries(Paths(root)[i], n);
    LastCarrier(Paths(root), n, i);
    AgreeIff(root, ip, default);
  }

  lemma LeafPaths(ou: Ou)
    requires ou.subs == []
    ensures Paths(ou) == [[ou]]
  {
  }

  lemma TwoLeaves(root: Ou, a: Ou, b: Ou)
    requires root.subs == [a, b] && a.subs == [] && b.subs == []
    ensures Paths(root) == [[root], Extend(root, [a]), Extend(root, [b])]
  {
    LeafPaths(a);
    LeafPaths(b);
    assert PathsBelow(root, 0) == [];
    assert Under(root, Paths(a)) == [Extend(root, [a])] && Under(root, Paths(b)) == [Extend(root, [b])];
    assert PathsBelow(root, 1) == [Extend(root, [a])];
    assert PathsBelow(root, 2) == [Extend(root, [a]), Extend(root, [b])];
  }

  /** One network on two units: the first unit answers the look-up, the last one the record. */
  lemma TwoCarriers(root: Ou, a: Ou, b: Ou, n: Net, ip: int, default: string)
    requires root.subs == [a, b] && a.subs == [] && b.subs == []
    requires Network(root).None? && Network(a) == Some(n) && Network(b) == Some(n) && Has(n, ip)
    ensures FirstMatch(Paths(root), ip) == Some(Extend(root, [a]))
    ensures n in Recorded(map[], Paths(root), default)
    ensures Recorded(map[], Paths(root), default)[n] == Profile(Extend(root, [b]), default)
  {
    hide Floor, Pow2, Size;
    TwoLeaves(root, a, b);
    var paths := Paths(root);
    assert paths[1..][0] == Extend(root, [a]);
    assert Carries(paths[2], n);
    LastRecordWins(map[], paths, default, n);
  }

  /** Such a network, with different profiles on the two units: the walks disagree. */
  lemma SharedNetworkDisagrees()
    ensures exists root, ip :: FirstMatch(Paths(root), ip).Some? && !Agree(root, ip, "workstation")
  {
    hide Floor, Pow2, Paths, PathsBelow, Recorded, FirstMatch;
    var n := Net(0x0A00_0000, 8);
    var a := Ou(map["bcfg2_profile" := "desktop"], NoTag, Some(n), []);
    var b := Ou(map["bcfg2_profile" := "laptop"], NoTag, Some(n), []);
    var root := Ou(map[], NoTag, None, [a, b]);
    TwoCarriers(root, a, b, n, n.address, "workstation");
    ValuesUnder(root, [a], "bcfg2_profile");
    ValuesUnder(root, [b], "bcfg2_profile");
    assert Profile(Extend(root, [a]), "workstation") == "desktop";
    assert Profile(Extend(root, [b]), "workstation") == "laptop";
  }
}
