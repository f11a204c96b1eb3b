/**
 Reverse DNS zones of possibly classless networks: section 3.5 of RFC 1035 for the names of
 addresses, section 4 of RFC 2317 for the zones of networks inside a classful one.
 */
module RevZones {
  import opened Lists
  import opened Networks
  import opened Text

  // ---------------------------------------------------------------- classful wrappers

  /** `a & b` on non-negative integers. */
  function BitAnd(a: nat, b: nat): nat {
    if a == 0 || b == 0 then 0 else (a % 2) * (b % 2) + 2 * BitAnd(a / 2, b / 2)
  }

  /** The network itself when its prefix is whole octets, else the masked network around it. */
  function Wrapper(n: Net): Net {
    if n.prefix % 8 == 0 then n
    else
      var newPrefix := 8 * (n.prefix / 8);
      MaskFits(32 - newPrefix);
      Net(BitAnd(0x1_0000_0000 - Pow2(32 - newPrefix), n.address), newPrefix)
  }

  lemma Pow2Nibble(n: nat)
    ensures Pow2(n + 4) == 16 * Pow2(n)
  {
    assert Pow2(n + 1) == 2 * Pow2(n);
    assert Pow2(n + 2) == 2 * Pow2(n + 1);
    assert Pow2(n + 3) == 2 * Pow2(n + 2);
  }

  lemma MaskFits(k: nat)
    requires k <= 32
    ensures Pow2(k) <= 0x1_0000_0000 == Pow2(32)
  {
    Pow2Nibble(0);
    Pow2Nibble(4);
    Pow2Nibble(8);
    Pow2Nibble(12);
    Pow2Nibble(16);
    Pow2Nibble(20);
    Pow2Nibble(24);
    Pow2Nibble(28);
    if k < 32 { Pow2Grows(k, 32); }
  }

  lemma {:induction false} BitAndOnes(n: nat, x: nat)
    requires x < Pow2(n)
    ensures BitAnd(Pow2(n) - 1, x) == x
  {
    if n != 0 && x != 0 {
      BitAndOnes(n - 1, x / 2);
      assert (Pow2(n) - 1) / 2 == Pow2(n - 1) - 1 && (Pow2(n) - 1) % 2 == 1;
    }
  }

  /** Masking clears the low bits. */
  lemma {:induction false} MaskClears(n: nat, k: nat, x: nat)
    requires k <= n && x < Pow2(n)
    ensures Pow2(k) <= Pow2(n)
    ensures BitAnd(Pow2(n) - Pow2(k), x) == Floor(x, k)
  {
    if k < n { Pow2Grows(k, n); }
    if k == 0 {
      BitAndOnes(n, x);
    } else {
      MaskClears(n - 1, k - 1, x / 2);
      var half := Pow2(n - 1) - Pow2(k - 1);
      assert Pow2(n) - Pow2(k) == 2 * half;
      assert BitAnd(2 * half, x) == 2 * BitAnd(half, x / 2);
    }
  }

  lemma WrapperFloors(n: Net)
    requires ValidNet(n)
    ensures var w := Wrapper(n);
      w.prefix == 8 * (n.prefix / 8) && w.prefix % 8 == 0 && ValidNet(w) && Has(w, n.address)
  {
    hide Floor, Pow2, Dec;
    var w := Wrapper(n);
    if n.prefix % 8 != 0 {
      var k := 32 - w.prefix;
      MaskFits(k);
      MaskClears(32, k, n.address);
      FloorBounds(n.address, k);
      FloorFloor(n.address, k, k);
    }
  }

  lemma PrefixFloor(p: Prefix, q: Prefix)
    requires p >= q && q % 8 == 0
    ensures 8 * (p / 8) >= q
  {
  }

  lemma WrapperWithin(n: Net, w: Net, c: Net)
    requires ValidNet(n) && ValidNet(w) && w.prefix == 8 * (n.prefix / 8) && Has(w, n.address)
    requires ValidNet(c) && c.prefix % 8 == 0 && SubnetOf(n, c)
    ensures SubnetOf(w, c)
  {
    hide Floor, Pow2, Size, ValidNet;
    SubnetShrinks(n, c);
    PrefixFloor(n.prefix, c.prefix);
    NestedOrDisjoint(w, c, n.address);
  }

  lemma WrapperAround(n: Net)
    requires ValidNet(n)
    ensures ValidNet(Wrapper(n)) && Wrapper(n).prefix % 8 == 0 && SubnetOf(n, Wrapper(n))
  {
    hide Floor, Pow2, Dec;
    WrapperFloors(n);
    NestedOrDisjoint(n, Wrapper(n), n.address);
  }

  lemma WrapperIs(n: Net, c: Net)
    requires ValidNet(n) && ValidNet(c) && c.prefix == 8 * (n.prefix / 8) && Has(c, n.address)
    ensures Wrapper(n) == c
  {
    hide Floor, Pow2, Wrapper;
    WrapperFloors(n);
    NestedOrDisjoint(Wrapper(n), c, n.address);
    NestedOrDisjoint(c, Wrapper(n), n.address);
    SubnetAntisymmetric(Wrapper(n), c);
  }

  /** The wrapper is the tightest network of whole octets around the given one. */
  lemma WrapperTightest(n: Net, c: Net)
    requires ValidNet(n) && ValidNet(c) && c.prefix % 8 == 0
    ensures SubnetOf(n, c) <==> SubnetOf(Wrapper(n), c)
  {
    WrapperAround(n);
    if SubnetOf(n, c) {
      WrapperFloors(n);
      WrapperWithin(n, Wrapper(n), c);
    }
  }

  /** The loop that collects the classful networks; three interfaces have no zones of their own. */
  method CollectClassful(networks: seq<(string, Net)>) returns (classful: set<Net>)
    ensures forall c :: c in classful <==>
      exists i :: 0 <= i < |networks| && networks[i].0 !in {"extif", "intif", "vpnif"} && Wrapper(networks[i].1) == c
  {
    classful := {};
    for k := 0 to |networks|
      invariant forall c :: c in classful <==>
        exists i :: 0 <= i < k && networks[i].0 !in {"extif", "intif", "vpnif"} && Wrapper(networks[i].1) == c
    {
      var (name, n) := networks[k];
      if name !in {"extif", "intif", "vpnif"} {
        classful := classful + {Wrapper(n)};
      }
    }
  }

  // ---------------------------------------------------------------- which classful network

  /** What `findClassful` answers when the set is iterated in the given order. */
  function Found(n: Net, order: seq<Net>): Option<Net> {
    if n in order then Some(n)
    else if order == [] then None
    else if SubnetOf(n, order[0]) then Some(order[0])
    else Found(n, order[1..])
  }

  ghost predicate NoneAround(n: Net, nets: seq<Net>) { forall c :: c in nets ==> !SubnetOf(n, c) }

  method FindClassful(n: Net, order: seq<Net>) returns (r: Option<Net>)
    ensures r == Found(n, order)
    ensures n in order ==> r == Some(n)
    ensures r.Some? && r.value != n ==>
      exists i :: 0 <= i < |order| && order[i] == r.value && NoneAround(n, order[..i])
    ensures r.None? <==> forall c :: c in order ==> c != n && !SubnetOf(n, c)
    ensures r.Some? ==> r.value in order && (r.value == n || SubnetOf(n, r.value))
  {
    if n in order { return Some(n); }
    for i := 0 to |order|
      invariant Found(n, order) == Found(n, order[i..])
      invariant NoneAround(n, order[..i])
    {
      if SubnetOf(n, order[i]) { return Some(order[i]); }
      assert order[i..][1..] == order[i + 1..];
      assert order[..i + 1] == order[..i] + [order[i]];
      assert order[i] in order;
    }
    assert order[..|order|] == order;
    return None;
  }

  ghost predicate Enumerates(order: seq<Net>, nets: set<Net>) { forall c :: c in order <==> c in nets }

  lemma {:induction false} SomeListing(nets: set<Net>) returns (order: seq<Net>)
    ensures Enumerates(order, nets)
  {
    if nets == {} {
      order := [];
    } else {
      var c :| c in nets;
      var rest := SomeListing(nets - {c});
      order := [c] + rest;
    }
  }

  lemma {:induction false} FoundUnique(n: Net, order: seq<Net>, w: Net)
    requires n !in order && w in order && SubnetOf(n, w)
    requires forall c :: c in order && SubnetOf(n, c) ==> c == w
    ensures Found(n, order) == Some(w)
  {
    if order[0] != w {
      FoundUnique(n, order[1..], w);
    }
  }

  /**
   For a network that is not itself classful, the answer is its tightest wrapper whatever the
   iteration order exactly when no second classful network of the set contains it.
   */
  lemma FindsTightestIff(n: Net, nets: set<Net>)
    requires ValidNet(n) && n.prefix % 8 != 0
    requires Wrapper(n) in nets && n !in nets
    ensures (forall order :: Enumerates(order, nets) ==> Found(n, order) == Some(Wrapper(n))) <==>
      forall c :: c in nets && SubnetOf(n, c) ==> c == Wrapper(n)
  {
    hide Floor, Pow2, Dec;
    var w := Wrapper(n);
    WrapperAround(n);
    if forall c :: c in nets && SubnetOf(n, c) ==> c == w {
      forall order | Enumerates(order, nets) ensures Found(n, order) == Some(w) {
        FoundUnique(n, order, w);
      }
    } else {
      var c :| c in nets && SubnetOf(n, c) && c != w;
      var rest := SomeListing(nets);
      assert Enumerates([c] + rest, nets);
      assert Found(n, [c] + rest) == Some(c);
    }
  }

  lemma {:induction false} FloorMultiple(q: nat, k: nat)
    ensures Floor(q * Pow2(k), k) == q * Pow2(k)
  {
    if k != 0 {
      assert q * Pow2(k) == 2 * (q * Pow2(k - 1));
      FloorMultiple(q, k - 1);
    }
  }

  lemma SmallPowers()
    ensures Pow2(7) == 0x80 && Pow2(8) == 0x100 && Pow2(23) == 0x80_0000 && Pow2(24) == 0x100_0000
  {
    Pow2Nibble(0);
    Pow2Nibble(4);
    Pow2Nibble(8);
    Pow2Nibble(12);
    Pow2Nibble(16);
    Pow2Nibble(20);
    assert Pow2(8) == 2 * Pow2(7) && Pow2(24) == 2 * Pow2(23);
  }

  /** The classful networks that 10.0.0.0/9 and 10.1.2.0/25 lead to are nested. */
  lemma NestedWrappers()
    ensures ValidNet(Net(0x0A00_0000, 9)) && Wrapper(Net(0x0A00_0000, 9)) == Net(0x0A00_0000, 8)
    ensures ValidNet(Net(0x0A01_0200, 25)) && Wrapper(Net(0x0A01_0200, 25)) == Net(0x0A01_0200, 24)
    ensures SubnetOf(Net(0x0A01_0200, 25), Net(0x0A01_0200, 24))
    ensures SubnetOf(Net(0x0A01_0200, 25), Net(0x0A00_0000, 8))
  {
    hide Floor, Pow2, Wrapper;
    SmallPowers();
    FloorMultiple(20, 23);
    FloorMultiple(10, 24);
    FloorMultiple(0x14_0204, 7);
    FloorMultiple(0x0A_0102, 8);
    WrapperIs(Net(0x0A00_0000, 9), Net(0x0A00_0000, 8));
    WrapperIs(Net(0x0A01_0200, 25), Net(0x0A01_0200, 24));
  }

  /** With both in the set, the order of iteration decides what 10.1.2.0/25 gets. */
  lemma OrderDecides(nets: set<Net>)
    requires nets == {Wrapper(Net(0x0A00_0000, 9)), Wrapper(Net(0x0A01_0200, 25))}
    ensures exists order :: Enumerates(order, nets) && Found(Net(0x0A01_0200, 25), order) == Some(Net(0x0A00_0000, 8))
    ensures exists order :: Enumerates(order, nets) && Found(Net(0x0A01_0200, 25), order) == Some(Net(0x0A01_0200, 24))
  {
    NestedWrappers();
    hide Floor, Pow2, Wrapper, SubnetOf;
    var n, wide, tight := Net(0x0A01_0200, 25), Net(0x0A00_0000, 8), Net(0x0A01_0200, 24);
    assert Enumerates([wide, tight], nets) && Found(n, [wide, tight]) == Some(wide);
    assert Enumerates([tight, wide], nets) && Found(n, [tight, wide]) == Some(tight);
  }

  // ---------------------------------------------------------------- names

  /** `str(ip).split('.')`. */
  function Octets(ip: nat): (r: seq<string>)
    ensures |r| == 4
  {
    [Dec(ip / 256 / 256 / 256), Dec(ip / 256 / 256 % 256), Dec(ip / 256 % 256), Dec(ip % 256)]
  }

  lemma OctetSplits(q: nat, r: nat)
    requires r < 256
    ensures (q * 256 + r) / 256 == q && (q * 256 + r) % 256 == r
  {
  }

  lemma OctetsOf(ip: nat, y: nat, x: nat, a: nat, b: nat, c: nat, d: nat)
    requires ip / 256 == y && ip % 256 == d && y / 256 == x && y % 256 == c && x / 256 == a && x % 256 == b
    ensures Octets(ip) == [Dec(a), Dec(b), Dec(c), Dec(d)]
  {
    hide Dec;
  }

  /** The address a.b.c.d. */
  ghost function Address(a: nat, b: nat, c: nat, d: nat): nat { ((a * 256 + b) * 256 + c) * 256 + d }

  /** It has these four decimal octets. */
  lemma OctetsMean(a: nat, b: nat, c: nat, d: nat)
    requires a < 256 && b < 256 && c < 256 && d < 256
    ensures Octets(Address(a, b, c, d)) == [Dec(a), Dec(b), Dec(c), Dec(d)]
  {
    hide Octets;
    var x := a * 256 + b;
    var y := x * 256 + c;
    OctetSplits(a, b);
    OctetSplits(x, c);
    OctetSplits(y, d);
    OctetsOf(y * 256 + d, y, x, a, b, c, d);
    assert Address(a, b, c, d) == y * 256 + d;
  }

  function Reverse<T>(s: seq<T>): (r: seq<T>)
    ensures |r| == |s|
  {
    seq(|s|, i requires 0 <= i < |s| => s[|s| - 1 - i])
  }

  /** `s[start::-1]`. */
  function DownFrom<T>(s: seq<T>, start: int): seq<T> {
    var from := if start < 0 then start + |s| else start;
    if from < 0 then [] else if from >= |s| then Reverse(s) else Reverse(s[..from + 1])
  }

  /** `s[:stop:-1]`. */
  function DownTo<T>(s: seq<T>, stop: int): seq<T> {
    var to := if stop < 0 then stop + |s| else stop;
    if to < 0 then Reverse(s) else if to >= |s| then [] else Reverse(s[to + 1..])
  }

  function HostRevIP(ip: nat, n: Net): string {
    Join(DownTo(Octets(ip), n.prefix / 8 - 1), '.')
  }

  function ClasslessShortName(n: Net, nc: Net): string
    requires n.prefix < 32
  {
    Join(Octets(n.address + 1)[nc.prefix / 8..], '-') + "-" + Join(Octets(LastHost(n))[nc.prefix / 8..], '-')
  }

  function LastHost(n: Net): nat
    requires n.prefix < 32
  {
    n.address + Size(n) - 2
  }

  function ZoneLabels(n: Net, nc: Net): seq<string>
    requires nc != n ==> n.prefix < 32
  {
    var labels := DownFrom(Octets(nc.address), nc.prefix / 8 - 1) + ["in-addr", "arpa"];
    if nc != n then [ClasslessShortName(n, nc)] + labels else labels
  }

  function NetworkZoneName(n: Net, nc: Net): string
    requires nc != n ==> n.prefix < 32
  {
    Join(ZoneLabels(n, nc), '.')
  }

  /** The name of an address for reverse look-up, section 3.5 of RFC 1035. */
  function ReverseName(ip: nat): string {
    Join(Reverse(Octets(ip)) + ["in-addr", "arpa"], '.')
  }

  lemma JoinCons(a: string, rest: seq<string>, sep: char)
    requires rest != []
    ensures Join([a], sep) == a && Join([a] + rest, sep) == a + [sep] + Join(rest, sep)
  {
    assert ([a] + rest)[1..] == rest;
  }

  lemma JoinTexts(a: string, b: string, c: string, d: string, sep: char)
    ensures Join([a], sep) == a && Join([a, b], sep) == a + [sep] + b
    ensures Join([a, b, c], sep) == a + [sep] + b + [sep] + c
    ensures Join([a, b, c, d], sep) == a + [sep] + b + [sep] + c + [sep] + d
  {
    JoinCons(a, [b], sep);
    JoinCons(b, [c], sep);
    JoinCons(c, [d], sep);
    JoinCons(a, [b, c], sep);
    JoinCons(b, [c, d], sep);
    JoinCons(a, [b, c, d], sep);
    assert Join([a, b, c], sep) == a + [sep] + (b + [sep] + c);
    assert Join([a, b, c, d], sep) == a + [sep] + (b + [sep] + (c + [sep] + d));
  }

  lemma ZoneTail(labels: seq<string>)
    requires labels != []
    ensures Join(labels + ["in-addr", "arpa"], '.') == Join(labels, '.') + ".in-addr.arpa"
  {
    JoinAppend(labels, ["in-addr", "arpa"], '.');
    JoinTexts("in-addr", "arpa", "", "", '.');
    hide Join;
    assert Join(labels, '.') + ['.'] + ("in-addr" + ['.'] + "arpa") == Join(labels, '.') + ".in-addr.arpa";
  }

  /** d.c.b.a.in-addr.arpa, section 3.5 of RFC 1035. */
  lemma ReverseNameText(a: nat, b: nat, c: nat, d: nat)
    requires a < 256 && b < 256 && c < 256 && d < 256
    ensures ReverseName(Address(a, b, c, d)) == Dec(d) + "." + Dec(c) + "." + Dec(b) + "." + Dec(a) + ".in-addr.arpa"
  {
    OctetsMean(a, b, c, d);
    hide Dec, Octets, Join, Address;
    var labels := [Dec(d), Dec(c), Dec(b), Dec(a)];
    assert Reverse([Dec(a), Dec(b), Dec(c), Dec(d)]) == labels;
    ZoneTail(labels);
    JoinTexts(Dec(d), Dec(c), Dec(b), Dec(a), '.');
  }

  /** The zone of a.0.0.0/8 is a.in-addr.arpa, and the host part of a.b.c.d in it d.c.b. */
  lemma EightBitZone(a: nat, b: nat, c: nat, d: nat, nc: Net)
    requires a < 256 && b < 256 && c < 256 && d < 256 && nc == Net(Address(a, 0, 0, 0), 8)
    ensures NetworkZoneName(nc, nc) == Dec(a) + ".in-addr.arpa"
    ensures HostRevIP(Address(a, b, c, d), nc) == Dec(d) + "." + Dec(c) + "." + Dec(b)
  {
    OctetsMean(a, b, c, d);
    OctetsMean(a, 0, 0, 0);
    hide Dec, Octets, Join, Address;
    assert DownFrom([Dec(a), Dec(0), Dec(0), Dec(0)], 0) == [Dec(a)];
    assert DownTo([Dec(a), Dec(b), Dec(c), Dec(d)], 0) == [Dec(d), Dec(c), Dec(b)];
    ZoneTail([Dec(a)]);
    JoinTexts(Dec(a), "", "", "", '.');
    JoinTexts(Dec(d), Dec(c), Dec(b), "", '.');
  }

  /** The zone of a.b.0.0/16 is b.a.in-addr.arpa, and the host part of a.b.c.d in it d.c. */
  lemma SixteenBitZone(a: nat, b: nat, c: nat, d: nat, nc: Net)
    requires a < 256 && b < 256 && c < 256 && d < 256 && nc == Net(Address(a, b, 0, 0), 16)
    ensures NetworkZoneName(nc, nc) == Dec(b) + "." + Dec(a) + ".in-addr.arpa"
    ensures HostRevIP(Address(a, b, c, d), nc) == Dec(d) + "." + Dec(c)
  {
    OctetsMean(a, b, c, d);
    OctetsMean(a, b, 0, 0);
    hide Dec, Octets, Join, Address;
    assert DownFrom([Dec(a), Dec(b), Dec(0), Dec(0)], 1) == [Dec(b), Dec(a)];
    assert DownTo([Dec(a), Dec(b), Dec(c), Dec(d)], 1) == [Dec(d), Dec(c)];
    ZoneTail([Dec(b), Dec(a)]);
    JoinTexts(Dec(b), Dec(a), "", "", '.');
    JoinTexts(Dec(d), Dec(c), "", "", '.');
  }

  /** The zone of a.b.c.0/24 is c.b.a.in-addr.arpa, and the host part of a.b.c.d in it d. */
  lemma TwentyFourBitZone(a: nat, b: nat, c: nat, d: nat, nc: Net)
    requires a < 256 && b < 256 && c < 256 && d < 256 && nc == Net(Address(a, b, c, 0), 24)
    ensures NetworkZoneName(nc, nc) == Dec(c) + "." + Dec(b) + "." + Dec(a) + ".in-addr.arpa"
    ensures HostRevIP(Address(a, b, c, d), nc) == Dec(d)
  {
    OctetsMean(a, b, c, d);
    OctetsMean(a, b, c, 0);
    hide Dec, Octets, Join, Address;
    assert DownFrom([Dec(a), Dec(b), Dec(c), Dec(0)], 2) == [Dec(c), Dec(b), Dec(a)];
    assert DownTo([Dec(a), Dec(b), Dec(c), Dec(d)], 2) == [Dec(d)];
    ZoneTail([Dec(c), Dec(b), Dec(a)]);
    JoinTexts(Dec(c), Dec(b), Dec(a), "", '.');
    JoinTexts(Dec(d), "", "", "", '.');
  }

  /** Inside a.b.0.0/16 the short name is c-d-p-q for hosts a.b.c.d to a.b.p.q. */
  lemma ShortNameText(n: Net, nc: Net, a: nat, b: nat, c: nat, d: nat, p: nat, q: nat)
    requires n.prefix < 32 && nc.prefix == 16
    requires a < 256 && b < 256 && c < 256 && d < 256 && p < 256 && q < 256
    requires n.address + 1 == Address(a, b, c, d) && LastHost(n) == Address(a, b, p, q)
    ensures ClasslessShortName(n, nc) == Dec(c) + "-" + Dec(d) + "-" + Dec(p) + "-" + Dec(q)
  {
    hide *;
    OctetsMean(a, b, c, d);
    OctetsMean(a, b, p, q);
    assert [Dec(a), Dec(b), Dec(c), Dec(d)][2..] == [Dec(c), Dec(d)];
    assert [Dec(a), Dec(b), Dec(p), Dec(q)][2..] == [Dec(p), Dec(q)];
    ShortNameOf(n, nc, Dec(c), Dec(d), Dec(p), Dec(q));
  }

  lemma ShortNameOf(n: Net, nc: Net, c: string, d: string, p: string, q: string)
    requires n.prefix < 32 && nc.prefix == 16
    requires Octets(n.address + 1)[2..] == [c, d] && Octets(LastHost(n))[2..] == [p, q]
    ensures ClasslessShortName(n, nc) == c + "-" + d + "-" + p + "-" + q
  {
    hide Octets, Join, LastHost;
    ShortNameParts(n, nc);
    assert [c, d] + [p, q] == [c, d, p, q];
    JoinTexts(c, d, p, q, '-');
  }

  // ---------------------------------------------------------------- names of addresses

  lemma OctetsInjective(x: nat, y: nat)
    requires Octets(x) == Octets(y)
    ensures x == y
  {
    DecInjective(x / 256 / 256 / 256, y / 256 / 256 / 256);
    DecInjective(x / 256 / 256 % 256, y / 256 / 256 % 256);
    DecInjective(x / 256 % 256, y / 256 % 256);
    DecInjective(x % 256, y % 256);
    assert Octets(x)[0] == Octets(y)[0] && Octets(x)[1] == Octets(y)[1];
    assert Octets(x)[2] == Octets(y)[2] && Octets(x)[3] == Octets(y)[3];
  }

  /** `x >> k`. */
  function Shift(x: nat, k: nat): nat {
    if k == 0 then x else Shift(x / 2, k - 1)
  }

  lemma {:induction false} ShiftAdds(x: nat, j: nat, k: nat)
    ensures Shift(Shift(x, j), k) == Shift(x, j + k)
  {
    if j != 0 {
      ShiftAdds(x / 2, j - 1, k);
    }
  }

  lemma {:induction false} FloorShift(x: nat, y: nat, k: nat)
    requires Floor(x, k) == Floor(y, k)
    ensures Shift(x, k) == Shift(y, k)
  {
    if k != 0 {
      FloorShift(x / 2, y / 2, k - 1);
    }
  }

  lemma ShiftNibble(x: nat)
    ensures Shift(x, 4) == x / 16
  {
    var y := x / 2;
    var z := y / 2;
    assert Shift(x, 4) == Shift(y, 3) == Shift(z, 2) == Shift(z / 2, 1) == z / 2 / 2;
  }

  lemma ShiftOctet(x: nat)
    ensures Shift(x, 8) == x / 256
  {
    ShiftNibble(x);
    ShiftNibble(x / 16);
    ShiftAdds(x, 4, 4);
  }

  lemma ShiftOctets(x: nat)
    ensures Shift(x, 8) == x / 256
    ensures Shift(x, 16) == x / 256 / 256
    ensures Shift(x, 24) == x / 256 / 256 / 256
  {
    ShiftOctet(x);
    ShiftOctet(x / 256);
    ShiftOctet(x / 256 / 256);
    ShiftAdds(x, 8, 8);
    ShiftAdds(x, 16, 8);
  }

  lemma WholeOctets(p: Prefix)
    requires p % 8 == 0
    ensures p == 0 || p == 8 || p == 16 || p == 24 || p == 32
  {
  }

  lemma SharedOctets(x: nat, y: nat, octets: nat)
    requires octets <= 4 && Shift(x, 32 - 8 * octets) == Shift(y, 32 - 8 * octets)
    ensures Octets(x)[..octets] == Octets(y)[..octets]
  {
    ShiftOctets(x);
    ShiftOctets(y);
    if octets == 4 {
    } else if octets == 3 {
    } else if octets == 2 {
    } else if octets == 1 {
    }
  }

  lemma SameShift(nc: Net, ip: nat)
    requires ValidNet(nc) && Has(nc, ip)
    ensures Shift(ip, 32 - nc.prefix) == Shift(nc.address, 32 - nc.prefix)
  {
    InBlock(nc, ip);
    FloorShift(nc.address, ip, 32 - nc.prefix);
  }

  /** The leading octets of an address are those of the classful network it is in. */
  lemma LeadingOctets(nc: Net, ip: nat)
    requires ValidNet(nc) && nc.prefix % 8 == 0 && Has(nc, ip)
    ensures Octets(ip)[..nc.prefix / 8] == Octets(nc.address)[..nc.prefix / 8]
  {
    hide Floor, Pow2, Dec;
    SameShift(nc, ip);
    WholeOctets(nc.prefix);
    SharedOctets(ip, nc.address, nc.prefix / 8);
  }

  lemma ReverseSplits<T>(s: seq<T>, k: nat)
    requires k <= |s|
    ensures Reverse(s) == Reverse(s[k..]) + Reverse(s[..k])
  {
  }

  lemma OctetChars(ip: nat, c: char)
    requires !('0' <= c <= '9')
    ensures forall o :: o in Octets(ip) ==> Free(o, c) && o != []
  {
  }

  lemma ReverseElements<T>(s: seq<T>)
    ensures forall x :: x in Reverse(s) ==> x in s
  {
    forall x | x in Reverse(s) ensures x in s {
      var i :| 0 <= i < |s| && Reverse(s)[i] == x;
      assert s[|s| - 1 - i] == x;
    }
  }

  lemma ReverseInjective<T>(s: seq<T>, t: seq<T>)
    requires Reverse(s) == Reverse(t)
    ensures s == t
  {
    assert |s| == |Reverse(s)| == |t|;
    forall i | 0 <= i < |s| ensures s[i] == t[i] {
      assert Reverse(s)[|s| - 1 - i] == Reverse(t)[|s| - 1 - i];
    }
  }

  /** Different addresses have different reverse names. */
  lemma ReverseNameInjective(x: nat, y: nat)
    requires ReverseName(x) == ReverseName(y)
    ensures x == y
  {
    var a, b := Reverse(Octets(x)) + ["in-addr", "arpa"], Reverse(Octets(y)) + ["in-addr", "arpa"];
    OctetChars(x, '.');
    OctetChars(y, '.');
    ReverseElements(Octets(x));
    ReverseElements(Octets(y));
    JoinInjective(a, b, '.');
    assert a[..4] == Reverse(Octets(x)) && b[..4] == Reverse(Octets(y));
    ReverseInjective(Octets(x), Octets(y));
    OctetsInjective(x, y);
  }

  /** For one to three whole octets, host part and zone name make up the reverse name. */
  lemma HostInZone(ip: nat, nc: Net)
    requires ValidNet(nc) && nc.prefix % 8 == 0 && 8 <= nc.prefix <= 24 && Has(nc, ip)
    ensures HostRevIP(ip, nc) + "." + NetworkZoneName(nc, nc) == ReverseName(ip)
  {
    hide Floor, Pow2, Dec;
    var k := nc.prefix / 8;
    LeadingOctets(nc, ip);
    var o := Octets(ip);
    var host, zone := DownTo(o, k - 1), DownFrom(Octets(nc.address), k - 1) + ["in-addr", "arpa"];
    assert host == Reverse(o[k..]);
    assert Octets(nc.address)[..k - 1 + 1] == o[..k];
    assert zone == Reverse(o[..k]) + ["in-addr", "arpa"];
    ReverseSplits(o, k);
    assert host + zone == Reverse(o) + ["in-addr", "arpa"];
    JoinAppend(host, zone, '.');
  }

  /** The empty host part of a whole-address or a whole-internet "network" gives no reverse name. */
  lemma NoHostPart(ip: nat, nc: Net)
    requires nc.prefix == 0 || nc.prefix == 32
    ensures HostRevIP(ip, nc) + "." + NetworkZoneName(nc, nc) != ReverseName(ip)
  {
    hide Floor, Pow2, Dec;
    var o := Octets(ip);
    assert DownTo(o, nc.prefix / 8 - 1) == [];
    assert HostRevIP(ip, nc) == [];
    assert (HostRevIP(ip, nc) + "." + NetworkZoneName(nc, nc))[0] == '.';
    var labels := Reverse(o) + ["in-addr", "arpa"];
    assert ReverseName(ip) == labels[0] + (['.'] + Join(labels[1..], '.'));
    OctetChars(ip, '.');
    assert labels[0] == o[3] && o[3] in o && o[3][0] in o[3];
    assert ReverseName(ip)[0] == o[3][0];
  }

  lemma ClassfulNameIff(nc: Net, ip: nat)
    requires ValidNet(nc) && nc.prefix % 8 == 0 && Has(nc, ip)
    ensures HostRevIP(ip, nc) + "." + NetworkZoneName(nc, nc) == ReverseName(ip) <==> 8 <= nc.prefix <= 24
  {
    hide Floor, Pow2, Dec;
    WholeOctets(nc.prefix);
    if 8 <= nc.prefix <= 24 {
      HostInZone(ip, nc);
    } else {
      NoHostPart(ip, nc);
    }
  }

  /**
   For every network and every address in it: the host part, the zone name of the wrapper and
   a dot between them are the reverse name exactly for prefix lengths 8 to 31.
   */
  lemma ReverseNameIff(n: Net, ip: nat)
    requires ValidNet(n) && Has(n, ip)
    ensures HostRevIP(ip, Wrapper(n)) + "." + NetworkZoneName(Wrapper(n), Wrapper(n)) == ReverseName(ip) <==>
      8 <= n.prefix <= 31
  {
    hide Floor, Pow2, Dec;
    WrapperAround(n);
    WrapperFloors(n);
    ClassfulNameIff(Wrapper(n), ip);
  }

  // ---------------------------------------------------------------- classless zones

  /** A network of at least two addresses inside a network of whole octets. */
  ghost predicate Inside(n: Net, nc: Net) {
    ValidNet(n) && ValidNet(nc) && nc.prefix % 8 == 0 && nc.prefix < 32 && n.prefix < 32 && SubnetOf(n, nc)
  }

  lemma HostsInside(n: Net, nc: Net)
    requires Inside(n, nc)
    ensures Has(nc, n.address + 1) && Has(nc, LastHost(n))
  {
    assert Size(n) == 2 * Pow2(32 - n.prefix - 1);
  }

  lemma ShortNameParts(n: Net, nc: Net)
    requires n.prefix < 32 && nc.prefix < 32
    ensures var k := nc.prefix / 8;
      ClasslessShortName(n, nc) == Join(Octets(n.address + 1)[k..] + Octets(LastHost(n))[k..], '-')
  {
    var k := nc.prefix / 8;
    JoinAppend(Octets(n.address + 1)[k..], Octets(LastHost(n))[k..], '-');
  }

  lemma HyphenPairs(a1: seq<string>, a2: seq<string>, b1: seq<string>, b2: seq<string>)
    requires |a1| == |a2| == |b1| == |b2| > 0
    requires forall o :: o in a1 || o in a2 || o in b1 || o in b2 ==> Free(o, '-')
    requires Join(a1 + a2, '-') == Join(b1 + b2, '-')
    ensures a1 == b1 && a2 == b2
  {
    JoinInjective(a1 + a2, b1 + b2, '-');
    assert (a1 + a2)[..|a1|] == a1 && (a1 + a2)[|a1|..] == a2;
    assert (b1 + b2)[..|a1|] == b1 && (b1 + b2)[|a1|..] == b2;
  }

  lemma ShortNameOctets(n: Net, m: Net, nc: Net)
    requires n.prefix < 32 && m.prefix < 32 && nc.prefix < 32
    requires ClasslessShortName(n, nc) == ClasslessShortName(m, nc)
    ensures var k := nc.prefix / 8;
      Octets(n.address + 1)[k..] == Octets(m.address + 1)[k..] &&
      Octets(LastHost(n))[k..] == Octets(LastHost(m))[k..]
  {
    var k := nc.prefix / 8;
    ShortNameParts(n, nc);
    ShortNameParts(m, nc);
    OctetChars(n.address + 1, '-');
    OctetChars(LastHost(n), '-');
    OctetChars(m.address + 1, '-');
    OctetChars(LastHost(m), '-');
    HyphenPairs(Octets(n.address + 1)[k..], Octets(LastHost(n))[k..],
                Octets(m.address + 1)[k..], Octets(LastHost(m))[k..]);
  }

  lemma SameLeading(nc: Net, x: nat, y: nat)
    requires ValidNet(nc) && nc.prefix % 8 == 0 && Has(nc, x) && Has(nc, y)
    requires Octets(x)[nc.prefix / 8..] == Octets(y)[nc.prefix / 8..]
    ensures x == y
  {
    var k := nc.prefix / 8;
    LeadingOctets(nc, x);
    LeadingOctets(nc, y);
    assert Octets(x) == Octets(x)[..k] + Octets(x)[k..] && Octets(y) == Octets(y)[..k] + Octets(y)[k..];
    OctetsInjective(x, y);
  }

  lemma EndsDecide(n: Net, m: Net)
    requires ValidNet(n) && ValidNet(m) && n.prefix < 32 && m.prefix < 32
    requires n.address == m.address && LastHost(n) == LastHost(m)
    ensures n == m
  {
    hide Floor, Pow2, Dec;
    SubnetAntisymmetric(n, m);
  }

  lemma SameEnds(n: Net, m: Net, nc: Net)
    requires Inside(n, nc) && Inside(m, nc)
    requires Octets(n.address + 1)[nc.prefix / 8..] == Octets(m.address + 1)[nc.prefix / 8..]
    requires Octets(LastHost(n))[nc.prefix / 8..] == Octets(LastHost(m))[nc.prefix / 8..]
    ensures n == m
  {
    hide Floor, Pow2, Dec;
    HostsInside(n, nc);
    HostsInside(m, nc);
    SameLeading(nc, n.address + 1, m.address + 1);
    SameLeading(nc, LastHost(n), LastHost(m));
    EndsDecide(n, m);
  }

  /** Networks inside one classful network have different short names. */
  lemma ShortNamesDiffer(n: Net, m: Net, nc: Net)
    requires Inside(n, nc) && Inside(m, nc)
    requires ClasslessShortName(n, nc) == ClasslessShortName(m, nc)
    ensures n == m
  {
    hide Floor, Pow2, Dec;
    ShortNameOctets(n, m, nc);
    SameEnds(n, m, nc);
  }

  lemma ShortNameChars(n: Net, nc: Net)
    requires n.prefix < 32 && nc.prefix < 32
    ensures Free(ClasslessShortName(n, nc), '.') && '-' in ClasslessShortName(n, nc)
  {
    hide Dec, Octets, Size, Pow2;
    var k := nc.prefix / 8;
    OctetChars(n.address + 1, '.');
    OctetChars(LastHost(n), '.');
    JoinChars(Octets(n.address + 1)[k..], '-', '.');
    JoinChars(Octets(LastHost(n))[k..], '-', '.');
    var first := Join(Octets(n.address + 1)[k..], '-');
    assert ClasslessShortName(n, nc)[|first|] == '-';
  }

  lemma InsideOctet(n: Net, nc: Net)
    requires Inside(n, nc) && nc.prefix == 24
    ensures n.address % 256 + Size(n) <= 256
  {
    hide Dec, Octets;
    SameShift(nc, n.address);
    SameShift(nc, Last(n));
    ShiftOctet(nc.address);
    ShiftOctet(n.address);
    ShiftOctet(Last(n));
    assert n.address / 256 == Last(n) / 256;
  }

  lemma LastOctet(a: nat, k: nat)
    requires a % 256 + k < 256
    ensures Octets(a + k)[3..] == [Dec(a % 256 + k)]
  {
    hide Dec;
    assert (a + k) % 256 == a % 256 + k;
  }

  lemma ShortNameOfOctets(n: Net, nc: Net, first: string, last: string)
    requires n.prefix < 32 && nc.prefix == 24
    requires Octets(n.address + 1)[3..] == [first] && Octets(LastHost(n))[3..] == [last]
    ensures ClasslessShortName(n, nc) == first + "-" + last
  {
    hide Octets;
  }

  lemma TwoAddresses(n: Net)
    requires n.prefix < 32
    ensures Size(n) >= 2 && LastHost(n) == n.address + (Size(n) - 2)
  {
    assert Size(n) == 2 * Pow2(32 - n.prefix - 1);
  }

  /** Inside three whole octets the short name is the range of host numbers, first to last. */
  lemma ShortNameIsHostRange(n: Net, nc: Net)
    requires Inside(n, nc) && nc.prefix == 24
    ensures Size(n) >= 2
    ensures ClasslessShortName(n, nc) == Dec(n.address % 256 + 1) + "-" + Dec(n.address % 256 + (Size(n) - 2))
  {
    hide Floor, Pow2, Dec, Octets, Join, Size, ValidNet, SubnetOf, LastHost, ClasslessShortName;
    InsideOctet(n, nc);
    TwoAddresses(n);
    LastOctet(n.address, 1);
    LastOctet(n.address, Size(n) - 2);
    ShortNameOfOctets(n, nc, Dec(n.address % 256 + 1), Dec(n.address % 256 + (Size(n) - 2)));
  }

  lemma ZoneLabelChars(n: Net, nc: Net)
    requires nc != n ==> n.prefix < 32 && nc.prefix < 32
    ensures forall l :: l in ZoneLabels(n, nc) ==> Free(l, '.')
    ensures ZoneLabels(n, nc) != []
  {
    OctetChars(nc.address, '.');
    ReverseElements(Octets(nc.address));
    var i := nc.prefix / 8;
    if i > 0 { ReverseElements(Octets(nc.address)[..i - 1 + 1]); }
    if nc != n { ShortNameChars(n, nc); }
  }

  /**
   Distinct networks inside one classful network, itself included, get distinct zone names;
   prefix lengths up to 31 are covered.
   */
  lemma ZoneNamesDiffer(n: Net, m: Net, nc: Net)
    requires Inside(n, nc) && Inside(m, nc)
    requires NetworkZoneName(n, nc) == NetworkZoneName(m, nc)
    ensures n == m
  {
    hide Floor, Pow2, Dec;
    ZoneLabelChars(n, nc);
    ZoneLabelChars(m, nc);
    JoinInjective(ZoneLabels(n, nc), ZoneLabels(m, nc), '.');
    if n != nc && m != nc {
      assert ZoneLabels(n, nc)[0] == ZoneLabels(m, nc)[0];
      ShortNamesDiffer(n, m, nc);
    }
  }

  /**
   A linking zone lists every network inside its classful network. The alias written there for
   a host, completed with the zone it is written in, is a name below the delegated label, which
   is no host label of the linking zone.
   */
  lemma LinkingZoneDelegates(n: Net, nc: Net, ip: nat)
    requires Inside(n, nc) && n != nc
    ensures (HostRevIP(ip, n) + "." + ClasslessShortName(n, nc)) + "." + NetworkZoneName(nc, nc) ==
      HostRevIP(ip, n) + "." + NetworkZoneName(n, nc)
    ensures forall other: nat :: HostRevIP(other, nc) != ClasslessShortName(n, nc)
  {
    hide Floor, Pow2, Dec;
    assert ZoneLabels(n, nc)[1..] == ZoneLabels(nc, nc);
    ZoneLabelChars(nc, nc);
    var s, z := ClasslessShortName(n, nc), NetworkZoneName(nc, nc);
    assert NetworkZoneName(n, nc) == s + ['.'] + z;
    assert (HostRevIP(ip, n) + "." + s) + "." + z == HostRevIP(ip, n) + "." + (s + "." + z);
    ShortNameChars(n, nc);
    forall other: nat ensures HostRevIP(other, nc) != s {
      OctetChars(other, '-');
      ReverseElements(Octets(other));
      var down := DownTo(Octets(other), nc.prefix / 8 - 1);
      DownToElements(Octets(other), nc.prefix / 8 - 1);
      JoinChars(down, '.', '-');
    }
  }

  /** The number of labels the host part has: the octets that the network leaves, or none. */
  lemma HostLabels(ip: nat, n: Net, labels: seq<string>)
    requires labels == DownTo(Octets(ip), n.prefix / 8 - 1)
    ensures |labels| == if n.prefix / 8 == 0 then 0 else 4 - n.prefix / 8
    ensures forall o :: o in labels ==> Free(o, '.') && o != []
  {
    hide Dec;
    OctetChars(ip, '.');
    DownToElements(Octets(ip), n.prefix / 8 - 1);
  }

  lemma JoinEmpty(a: seq<string>)
    requires forall p :: p in a ==> p != []
    ensures Join(a, '.') == [] <==> a == []
  {
    if a != [] {
      assert a[0] in a;
    }
  }

  lemma SameOctetsIff(n: Net, nc: Net, ip: nat)
    requires n.prefix < 32 && nc.prefix < 32
    ensures HostRevIP(ip, n) == HostRevIP(ip, nc) <==> n.prefix / 8 == nc.prefix / 8
  {
    hide Octets, Join, HostRevIP, Dec, Reverse;
    var a, b := DownTo(Octets(ip), n.prefix / 8 - 1), DownTo(Octets(ip), nc.prefix / 8 - 1);
    HostLabels(ip, n, a);
    HostLabels(ip, nc, b);
    JoinEmpty(a);
    JoinEmpty(b);
    HostText(ip, n);
    HostText(ip, nc);
    if HostRevIP(ip, n) == HostRevIP(ip, nc) && a != [] && b != [] {
      JoinInjective(a, b, '.');
    }
  }

  lemma HostText(ip: nat, n: Net)
    ensures HostRevIP(ip, n) == Join(DownTo(Octets(ip), n.prefix / 8 - 1), '.')
  {
  }

  lemma SameOctetsIsWrapper(n: Net, nc: Net)
    requires Inside(n, nc) && n != nc
    ensures nc == Wrapper(n) <==> n.prefix / 8 == nc.prefix / 8
  {
    hide Floor, Pow2, Dec, Size;
    WrapperFloors(n);
    SubnetShrinks(n, nc);
    if n.prefix / 8 == nc.prefix / 8 {
      WrapperIs(n, nc);
    }
  }

  /**
   The host label that the linking zone aliases is the one the network's own zone uses exactly
   when the linking network is the tightest one around it: below a wider one they differ.
   */
  lemma SameHostLabelIff(n: Net, nc: Net, ip: nat)
    requires Inside(n, nc) && n != nc
    ensures HostRevIP(ip, n) == HostRevIP(ip, nc) <==> nc == Wrapper(n)
  {
    hide HostRevIP, Wrapper, ValidNet, SubnetOf;
    SameOctetsIff(n, nc, ip);
    SameOctetsIsWrapper(n, nc);
  }

  lemma DownToElements<T>(s: seq<T>, stop: int)
    ensures forall x :: x in DownTo(s, stop) ==> x in s
  {
    var to := if stop < 0 then stop + |s| else stop;
    ReverseElements(s);
    if 0 <= to < |s| { ReverseElements(s[to + 1..]); }
  }
}
