/**
 IPv4 networks in CIDR notation, as `ipaddress.ip_network` admits them, and the cleanup
 that removes networks contained in other networks of the same set.
 */
module Networks {
  import opened Lists

  function Pow2(n: nat): (r: nat)
    ensures r >= 1
  {
    if n == 0 then 1 else 2 * Pow2(n - 1)
  }

  /** `x` with its `k` low bits cleared. */
  function Floor(x: nat, k: nat): nat {
    if k == 0 then x else 2 * Floor(x / 2, k - 1)
  }

  /** Address and prefix length. */
  datatype Net = Net(address: nat, prefix: Prefix)

  type Prefix = p: nat | p <= 32

  /** What `ip_network` admits: 32 bits, none of them set below the prefix. */
  predicate ValidNet(n: Net) {
    n.address < 0x1_0000_0000 && Floor(n.address, 32 - n.prefix) == n.address
  }

  /** Number of addresses. */
  function Size(n: Net): (r: nat)
    ensures r >= 1
  {
    Pow2(32 - n.prefix)
  }

  function Last(n: Net): int { n.address + Size(n) - 1 }

  predicate Has(n: Net, ip: int) { n.address <= ip <= Last(n) }

  /** `a.subnet_of(b)`, in both forms that the compatibility code provides. */
  predicate SubnetOf(a: Net, b: Net) { b.address <= a.address && Last(b) >= Last(a) }

  lemma {:induction false} Pow2Grows(a: nat, b: nat)
    requires a < b
    ensures Pow2(a) < Pow2(b)
  {
    if b > a + 1 {
      Pow2Grows(a, b - 1);
    }
  }

  lemma {:induction false} FloorBounds(x: nat, k: nat)
    ensures Floor(x, k) <= x < Floor(x, k) + Pow2(k)
  {
    if k != 0 {
      FloorBounds(x / 2, k - 1);
    }
  }

  lemma {:induction false} FloorBlock(x: nat, y: nat, k: nat)
    requires Floor(x, k) <= y < Floor(x, k) + Pow2(k)
    ensures Floor(y, k) == Floor(x, k)
  {
    if k != 0 {
      FloorBlock(x / 2, y / 2, k - 1);
    }
  }

  lemma {:induction false} FloorFloor(x: nat, j: nat, k: nat)
    requires j <= k
    ensures Floor(Floor(x, j), k) == Floor(x, k)
  {
    if j != 0 {
      FloorFloor(x / 2, j - 1, k - 1);
    }
  }

  lemma InBlock(n: Net, ip: nat)
    requires ValidNet(n)
    ensures Has(n, ip) <==> Floor(ip, 32 - n.prefix) == n.address
  {
    if Has(n, ip) {
      FloorBlock(n.address, ip, 32 - n.prefix);
    }
    FloorBounds(ip, 32 - n.prefix);
  }

  lemma {:induction false} FloorIsMultiple(x: nat, k: nat) returns (q: nat)
    ensures Floor(x, k) == q * Pow2(k)
  {
    if k == 0 {
      q := x;
    } else {
      q := FloorIsMultiple(x / 2, k - 1);
      assert 2 * (q * Pow2(k - 1)) == q * Pow2(k);
    }
  }

  lemma {:induction false} Multiples(d: nat, q: nat, p: nat)
    requires d < q
    ensures d * p + p <= q * p
  {
    assert q * p == (q - 1) * p + p;
    if d + 1 < q {
      Multiples(d, q - 1, p);
    }
  }

  lemma QuotientIs(x: nat, p: nat, q: nat)
    requires p > 0 && q * p <= x < q * p + p
    ensures x / p == q
  {
    var d := x / p;
    assert x == d * p + x % p;
    if d < q { Multiples(d, q, p); }
    if q < d { Multiples(q, d, p); }
  }

  /** A network holds the addresses that agree with it in the bits of the prefix. */
  lemma PrefixDecides(n: Net, ip: nat)
    requires ValidNet(n)
    ensures Has(n, ip) <==> ip / Pow2(32 - n.prefix) == n.address / Pow2(32 - n.prefix)
  {
    var p := Pow2(32 - n.prefix);
    InBlock(n, ip);
    FloorBounds(ip, 32 - n.prefix);
    var q := FloorIsMultiple(ip, 32 - n.prefix);
    var a := FloorIsMultiple(n.address, 32 - n.prefix);
    hide Floor, Pow2;
    QuotientIs(ip, p, q);
    QuotientIs(n.address, p, a);
    if a < q { Multiples(a, q, p); }
    if q < a { Multiples(q, a, p); }
  }

  /** `subnet_of` is containment of addresses. */
  lemma SubnetMeans(a: Net, b: Net)
    ensures SubnetOf(a, b) <==> forall ip :: Has(a, ip) ==> Has(b, ip)
  {
    hide Pow2;
    assert Has(a, a.address) && Has(a, Last(a));
  }

  lemma SameFloors(x: nat, y: nat, j: nat, k: nat)
    requires j <= k && Floor(x, j) == Floor(y, j)
    ensures Floor(x, k) == Floor(y, k)
  {
    FloorFloor(x, j, k);
    FloorFloor(y, j, k);
  }

  lemma SharesBlock(a: Net, b: Net, x: nat, y: nat)
    requires ValidNet(a) && ValidNet(b) && a.prefix >= b.prefix && Has(a, x) && Has(b, x) && Has(a, y)
    ensures Has(b, y)
  {
    hide Floor, Pow2;
    InBlock(a, x);
    InBlock(a, y);
    SameFloors(x, y, 32 - a.prefix, 32 - b.prefix);
    InBlock(b, x);
    InBlock(b, y);
  }

  /** Two CIDR blocks are nested or disjoint: the one with the longer prefix is the inner one. */
  lemma NestedOrDisjoint(a: Net, b: Net, ip: int)
    requires ValidNet(a) && ValidNet(b) && a.prefix >= b.prefix && Has(a, ip) && Has(b, ip)
    ensures SubnetOf(a, b)
  {
    hide Floor, Pow2;
    SharesBlock(a, b, ip, a.address);
    SharesBlock(a, b, ip, Last(a));
  }

  /** Mutual containment is equality, so `subnet_of` is a partial order on networks. */
  lemma SubnetAntisymmetric(a: Net, b: Net)
    requires ValidNet(a) && ValidNet(b) && SubnetOf(a, b) && SubnetOf(b, a)
    ensures a == b
  {
    hide Floor, Pow2;
    if a.prefix < b.prefix {
      Pow2Grows(32 - b.prefix, 32 - a.prefix);
    } else if b.prefix < a.prefix {
      Pow2Grows(32 - a.prefix, 32 - b.prefix);
    }
  }

  lemma SubnetShrinks(a: Net, b: Net)
    requires SubnetOf(a, b)
    ensures a.prefix >= b.prefix
  {
    hide Floor, Pow2;
    if a.prefix < b.prefix {
      Pow2Grows(32 - b.prefix, 32 - a.prefix);
    }
  }

  // ---------------------------------------------------------------- the cleanup

  ghost predicate ValidNets(nets: set<Net>) { forall n :: n in nets ==> ValidNet(n) }

  /** The networks of the set that no other network of the set contains. */
  ghost function Maximal(nets: set<Net>): set<Net> {
    set n | n in nets && forall m :: m in nets && SubnetOf(n, m) ==> m == n
  }

  ghost predicate Covered(nets: set<Net>, ip: int) { exists n :: n in nets && Has(n, ip) }

  /** Some pair of different places up to row `i`, column `j` of the pair walk contains `n`. */
  ghost predicate FoundContained(order: seq<Net>, n: Net, i: nat, j: nat) {
    exists x, y :: 0 <= x < y < |order| && (x < i || (x == i && y < j)) &&
      ((n == order[x] && SubnetOf(order[x], order[y])) || (n == order[y] && SubnetOf(order[y], order[x])))
  }

  /**
   `cleanup_fully_contained`. `order` is the order in which the set happens to be iterated;
   whatever it is, the result is the set of maximal networks.
   */
  method CleanupFullyContained(nets: set<Net>, order: seq<Net>) returns (r: set<Net>)
    requires ValidNets(nets)
    requires NoDup(order) && forall n :: n in order <==> n in nets
    ensures r == Maximal(nets)
  {
    var contained: set<Net> := {};
    for i := 0 to |order|
      invariant forall n :: n in contained <==> FoundContained(order, n, i, i + 1)
    {
      for j := i + 1 to |order|
        invariant forall n :: n in contained <==> FoundContained(order, n, i, j)
      {
        var a, b := order[i], order[j];
        if SubnetOf(a, b) { contained := contained + {a}; }
        if SubnetOf(b, a) { contained := contained + {b}; }
      }
    }
    r := nets - contained;
    forall n | n in nets ensures n in contained <==> exists m :: m in nets && m != n && SubnetOf(n, m) {
      ContainedAnywhere(order, n);
    }
  }

  lemma ContainedAnywhere(order: seq<Net>, n: Net)
    requires NoDup(order) && n in order
    ensures FoundContained(order, n, |order|, |order| + 1) <==> exists m :: m in order && m != n && SubnetOf(n, m)
  {
    if exists m :: m in order && m != n && SubnetOf(n, m) {
      var m :| m in order && m != n && SubnetOf(n, m);
      var x :| 0 <= x < |order| && order[x] == n;
      var y :| 0 <= y < |order| && order[y] == m;
      assert SubnetOf(order[x], order[y]);
    }
  }

  /** Every network lies inside a maximal one. */
  lemma {:induction false} MaximalAbove(nets: set<Net>, n: Net) returns (top: Net)
    requires ValidNets(nets) && n in nets
    ensures top in Maximal(nets) && SubnetOf(n, top)
    decreases n.prefix
  {
    hide Floor, Pow2;
    if n in Maximal(nets) {
      top := n;
    } else {
      var m :| m in nets && SubnetOf(n, m) && m != n;
      SubnetShrinks(n, m);
      if m.prefix == n.prefix {
        SubnetAntisymmetric(n, m);
      }
      top := MaximalAbove(nets, m);
    }
  }

  /** The maximal networks cover the same addresses as the whole set, and no address twice. */
  lemma CleanupPartitions(nets: set<Net>)
    requires ValidNets(nets)
    ensures forall ip :: Covered(Maximal(nets), ip) <==> Covered(nets, ip)
    ensures forall a, b, ip :: a in Maximal(nets) && b in Maximal(nets) && Has(a, ip) && Has(b, ip) ==> a == b
  {
    hide Floor, Pow2;
    forall ip | Covered(nets, ip) ensures Covered(Maximal(nets), ip) {
      var n :| n in nets && Has(n, ip);
      var top := MaximalAbove(nets, n);
      assert Has(top, ip);
    }
    forall a, b, ip | a in Maximal(nets) && b in Maximal(nets) && Has(a, ip) && Has(b, ip) ensures a == b {
      if a.prefix >= b.prefix {
        NestedOrDisjoint(a, b, ip);
      } else {
        NestedOrDisjoint(b, a, ip);
      }
    }
  }

  /** Any pairwise disjoint part of the set that has a network around every member is the result. */
  lemma CleanupUnique(nets: set<Net>, part: set<Net>)
    requires ValidNets(nets) && part <= nets
    requires forall a, b, ip :: a in part && b in part && Has(a, ip) && Has(b, ip) ==> a == b
    requires forall n :: n in nets ==> exists m :: m in part && SubnetOf(n, m)
    ensures part == Maximal(nets)
  {
    hide Floor, Pow2;
    forall n | n in Maximal(nets) ensures n in part {
      var m :| m in part && SubnetOf(n, m);
    }
    forall n | n in part ensures n in Maximal(nets) {
      forall m | m in nets && SubnetOf(n, m) ensures m == n {
        var top :| top in part && SubnetOf(m, top);
        assert Has(n, n.address) && Has(top, n.address);
        SubnetAntisymmetric(n, m);
      }
    }
  }
}
