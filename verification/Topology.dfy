/**
 The tree of switches and hosts, the text paths `getpath` gives to its elements, and why a
 text prefix of such a path is an ancestor.
 */
module Topology {
  import opened Lists
  import opened Text

  datatype Tag = Properties | Switch | Host

  datatype Elem = Elem(tag: Tag, ip: Option<string>, name: Option<string>, priority: Option<int>,
                       pingLimit: Option<nat>, kids: seq<Elem>)

  function TagText(t: Tag): string {
    match t
    case Properties => "Properties"
    case Switch => "switch"
    case Host => "host"
  }

  /** A place in the tree: which child to take at each step. */
  type Place = seq<nat>

  predicate Within(e: Elem, p: Place) {
    p == [] || (p[0] < |e.kids| && Within(e.kids[p[0]], p[1..]))
  }

  function At(e: Elem, p: Place): Elem
    requires Within(e, p)
  {
    if p == [] then e else At(e.kids[p[0]], p[1..])
  }

  /** How many of the first `k` children have the tag. */
  function Count(kids: seq<Elem>, t: Tag, k: nat): nat
    requires k <= |kids|
  {
    if k == 0 then 0 else Count(kids, t, k - 1) + if kids[k - 1].tag == t then 1 else 0
  }

  /** The step to child `k`: its tag, numbered when there are several of them. */
  function Segment(e: Elem, k: nat): string
    requires k < |e.kids|
  {
    var t := e.kids[k].tag;
    TagText(t) + if Count(e.kids, t, |e.kids|) > 1 then "[" + Dec(Count(e.kids, t, k + 1)) + "]" else ""
  }

  /** The path of a place below `e`. */
  function PathBelow(e: Elem, p: Place): (r: string)
    requires Within(e, p)
    ensures p == [] <==> r == []
    ensures p != [] ==> r[0] == '/'
  {
    if p == [] then [] else "/" + Segment(e, p[0]) + PathBelow(e.kids[p[0]], p[1..])
  }

  /** `getpath` for the tree under the document element. */
  function PathText(root: Elem, p: Place): string
    requires Within(root, p)
  {
    "/Properties" + PathBelow(root, p)
  }

  lemma {:induction false} CountGrows(kids: seq<Elem>, t: Tag, j: nat, k: nat)
    requires j < k <= |kids|
    ensures Count(kids, t, j) <= Count(kids, t, k)
    ensures kids[k - 1].tag == t ==> Count(kids, t, j) < Count(kids, t, k)
  {
    if j < k - 1 {
      CountGrows(kids, t, j, k - 1);
    }
  }

  /** The earlier siblings with the same tag. */
  ghost function SameBefore(kids: seq<Elem>, t: Tag, k: nat): set<nat>
    requires k <= |kids|
  {
    set j: nat | j < k && kids[j].tag == t
  }

  lemma {:induction false} CountMeans(kids: seq<Elem>, t: Tag, k: nat)
    requires k <= |kids|
    ensures Count(kids, t, k) == |SameBefore(kids, t, k)|
  {
    if k != 0 {
      CountMeans(kids, t, k - 1);
      assert SameBefore(kids, t, k) ==
        SameBefore(kids, t, k - 1) + if kids[k - 1].tag == t then {k - 1} else {};
    }
  }

  /** An only child of its tag is named by the tag; otherwise the tag carries its number, from 1. */
  lemma SegmentMeans(e: Elem, k: nat)
    requires k < |e.kids|
    ensures (forall j :: 0 <= j < |e.kids| && e.kids[j].tag == e.kids[k].tag ==> j == k) ==>
      Segment(e, k) == TagText(e.kids[k].tag)
    ensures (exists j :: 0 <= j < |e.kids| && e.kids[j].tag == e.kids[k].tag && j != k) ==>
      Segment(e, k) == TagText(e.kids[k].tag) + "[" + Dec(|SameBefore(e.kids, e.kids[k].tag, k)| + 1) + "]"
  {
    var t := e.kids[k].tag;
    var all := SameBefore(e.kids, t, |e.kids|);
    CountMeans(e.kids, t, |e.kids|);
    CountMeans(e.kids, t, k);
    assert k in all;
    if j :| 0 <= j < |e.kids| && e.kids[j].tag == t && j != k {
      assert {j, k} <= all;
      SubsetSize({j, k}, all);
    } else {
      assert all == {k};
    }
  }

  lemma SegmentChars(e: Elem, k: nat)
    requires k < |e.kids|
    ensures Free(Segment(e, k), '/')
  {
    var t := e.kids[k].tag;
    var d := Dec(Count(e.kids, t, k + 1));
    assert forall i :: 0 <= i < |d| ==> d[i] in d;
    assert Free(TagText(t), '/') && Free(d, '/');
  }

  lemma NumberedDiffer(t: string, i: nat, j: nat, u: string, v: string)
    requires t + "[" + Dec(i) + "]" + u == t + "[" + Dec(j) + "]" + v
    ensures i == j
  {
    var a, b := Dec(i), Dec(j);
    assert t + "[" + a + "]" + u == (t + "[") + (a + ("]" + u));
    assert t + "[" + b + "]" + v == (t + "[") + (b + ("]" + v));
    assert ((t + "[") + (a + ("]" + u)))[|t| + 1..] == a + ("]" + u);
    assert ((t + "[") + (b + ("]" + v)))[|t| + 1..] == b + ("]" + v);
    assert Free(a, ']') && Free(b, ']');
    HeadUnique(a, b, "]" + u, "]" + v, ']');
    DecInjective(i, j);
  }

  lemma SameTagCounts(kids: seq<Elem>, t: Tag, j: nat, k: nat)
    requires j < k < |kids| && kids[j].tag == t && kids[k].tag == t
    ensures Count(kids, t, j + 1) < Count(kids, t, k + 1) <= Count(kids, t, |kids|)
    ensures 1 <= Count(kids, t, j + 1)
  {
    CountGrows(kids, t, j, j + 1);
    CountGrows(kids, t, j + 1, k + 1);
    if k + 1 < |kids| { CountGrows(kids, t, k + 1, |kids|); }
  }

  lemma NumberedSegment(e: Elem, k: nat, u: string)
    requires k < |e.kids| && Count(e.kids, e.kids[k].tag, |e.kids|) > 1
    ensures Segment(e, k) + u ==
      TagText(e.kids[k].tag) + "[" + Dec(Count(e.kids, e.kids[k].tag, k + 1)) + "]" + u
  {
  }

  /** Steps to different children never start the same text. */
  lemma SegmentsDiffer(e: Elem, j: nat, k: nat, u: string, v: string)
    requires j < |e.kids| && k < |e.kids| && j != k
    ensures Segment(e, j) + u != Segment(e, k) + v
  {
    hide Dec, Count;
    var s, t := e.kids[j].tag, e.kids[k].tag;
    if s == t {
      if j < k { SameTagCounts(e.kids, t, j, k); } else { SameTagCounts(e.kids, t, k, j); }
      NumberedSegment(e, j, u);
      NumberedSegment(e, k, v);
      if Segment(e, j) + u == Segment(e, k) + v {
        NumberedDiffer(TagText(t), Count(e.kids, t, j + 1), Count(e.kids, t, k + 1), u, v);
      }
    } else {
      assert (Segment(e, j) + u)[0] == TagText(s)[0] && (Segment(e, k) + v)[0] == TagText(t)[0];
    }
  }

  lemma PrefixTail(p: string, u: string, v: string)
    ensures p + u <= p + v <==> u <= v
  {
    if p + u <= p + v {
      assert (p + v)[..|p + u|] == p + u;
      assert v[..|u|] == (p + v)[|p|..|p| + |u|] == u;
    }
    if u <= v {
      assert (p + v)[..|p + u|] == p + v[..|u|];
    }
  }

  lemma OtherStep(e: Elem, j: nat, k: nat, u: string, v: string)
    requires j < |e.kids| && k < |e.kids| && j != k
    ensures !("/" + Segment(e, j) + u <= "/" + Segment(e, k) + v)
  {
    var s, t := Segment(e, j), Segment(e, k);
    assert "/" + s + u == "/" + (s + u) && "/" + t + v == "/" + (t + v);
    PrefixTail("/", s + u, t + v);
    if s + u <= t + v {
      var rest := (t + v)[|s + u|..];
      assert s + (u + rest) == t + v;
      SegmentsDiffer(e, j, k, u + rest, v);
    }
  }

  /**
   One path is a text prefix of another exactly when its element is an ancestor of the other
   one or the same: no sibling's step is the beginning of another sibling's.
   */
  lemma {:induction false} PrefixIffAbove(e: Elem, a: Place, m: Place)
    requires Within(e, a) && Within(e, m)
    ensures PathBelow(e, a) <= PathBelow(e, m) <==> a <= m
  {
    if a != [] && m != [] {
      hide Segment;
      var u, v := PathBelow(e.kids[a[0]], a[1..]), PathBelow(e.kids[m[0]], m[1..]);
      if a[0] == m[0] {
        PrefixIffAbove(e.kids[a[0]], a[1..], m[1..]);
        PrefixTail("/" + Segment(e, a[0]), u, v);
        assert a <= m <==> a[1..] <= m[1..] by {
          assert a == [a[0]] + a[1..] && m == [m[0]] + m[1..];
        }
      } else {
        OtherStep(e, a[0], m[0], u, v);
      }
    }
  }

  lemma StartsWithIffAncestor(root: Elem, a: Place, m: Place)
    requires Within(root, a) && Within(root, m)
    ensures PathText(root, a) <= PathText(root, m) <==> a <= m
    ensures PathText(root, a) == PathText(root, m) <==> a == m
  {
    PrefixIffAbove(root, a, m);
    PrefixIffAbove(root, m, a);
    PrefixTail("/Properties", PathBelow(root, a), PathBelow(root, m));
    PrefixTail("/Properties", PathBelow(root, m), PathBelow(root, a));
  }

  // ---------------------------------------------------------------- looking a path up

  /** The child of `e` that a path starts with. */
  function Step(e: Elem, path: string, k: nat): (r: Option<nat>)
    requires k <= |e.kids|
    ensures r.Some? ==> r.value < |e.kids| && "/" + Segment(e, r.value) <= path
    decreases |e.kids| - k
  {
    if k == |e.kids| then None
    else if "/" + Segment(e, k) <= path && Continued(path, 1 + |Segment(e, k)|) then Some(k)
    else Step(e, path, k + 1)
  }

  predicate Continued(path: string, n: nat) { n == |path| || (n < |path| && path[n] == '/') }

  /** `find` for a path of numbered steps. */
  function Find(e: Elem, path: string): Option<Elem>
    decreases |path|
  {
    if path == [] then Some(e)
    else
      var k := Step(e, path, 0);
      if k.None? then None else Find(e.kids[k.value], path[1 + |Segment(e, k.value)|..])
  }

  lemma {:induction false} StepFinds(e: Elem, p: Place, k: nat)
    requires Within(e, p) && p != [] && k <= p[0]
    ensures Step(e, PathBelow(e, p), k) == Some(p[0])
    decreases p[0] - k
  {
    hide Segment;
    var path, seg := PathBelow(e, p), Segment(e, p[0]);
    var rest := PathBelow(e.kids[p[0]], p[1..]);
    assert path == "/" + (seg + rest);
    if k < p[0] {
      OtherStep(e, k, p[0], [], rest);
      assert "/" + Segment(e, k) + [] == "/" + Segment(e, k) && "/" + seg + rest == path;
      StepFinds(e, p, k + 1);
    } else {
      assert path == ("/" + seg) + rest;
      assert rest != [] ==> path[1 + |seg|] == rest[0];
    }
  }

  /** Looking up the path of a place finds the element there. */
  lemma {:induction false} FindRoundTrip(e: Elem, p: Place)
    requires Within(e, p)
    ensures Find(e, PathBelow(e, p)) == Some(At(e, p))
  {
    if p != [] {
      StepFinds(e, p, 0);
      var rest := PathBelow(e.kids[p[0]], p[1..]);
      assert PathBelow(e, p)[1 + |Segment(e, p[0])|..] == rest;
      FindRoundTrip(e.kids[p[0]], p[1..]);
    }
  }
}
