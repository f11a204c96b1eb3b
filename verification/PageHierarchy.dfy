/**
 The page tree of the web site: parents follow the directories in the URLs, and a
 translation without a parent of its own borrows the one of its default-language page.
 */
module PageHierarchy {
  import opened Lists
  import opened Walks

  // ---------------------------------------------------------------- paths

  predicate AllSlashes(s: string) { forall i :: 0 <= i < |s| ==> s[i] == '/' }

  /** `s[:s.rfind('/') + 1]`. */
  function ThroughLastSlash(s: string): (r: string)
    ensures |r| <= |s| && r == s[..|r|]
    ensures r != [] ==> r[|r| - 1] == '/'
  {
    if s == [] || s[|s| - 1] == '/' then s else ThroughLastSlash(s[..|s| - 1])
  }

  /** `s.rstrip('/')`. */
  function StripSlashes(s: string): (r: string)
    ensures |r| <= |s| && r == s[..|r|]
    ensures s != [] && s[|s| - 1] == '/' ==> |r| < |s|
  {
    if s == [] || s[|s| - 1] != '/' then s else StripSlashes(s[..|s| - 1])
  }

  /** `os.path.dirname`. */
  function Dirname(p: string): string {
    var head := ThroughLastSlash(p);
    if head != [] && !AllSlashes(head) then StripSlashes(head) else head
  }

  /** The URL a page looks for: the parent of a/b/ is a/, the parent of a/b.html is a/. */
  function ParentUrl(url: string): string {
    var dir := Dirname(if url == [] then [] else url[..|url| - 1]);
    if dir != [] then dir + "/" else dir
  }

  /** The directory of a text whose last slash is at `i - 1` and single. */
  lemma DirnameAt(s: string, i: nat, e: nat)
    requires 0 < e && e + 1 == i <= |s| && s[e] == '/' && s[e - 1] != '/'
    requires forall k :: i <= k < |s| ==> s[k] != '/'
    ensures Dirname(s) == s[..e]
  {
    LastSlashAt(s, i);
    assert s[..i][..e] == s[..e];
    assert s[..i][e - 1] != '/';
    assert StripSlashes(s[..e]) == s[..e];
  }

  lemma {:induction false} LastSlashAt(s: string, i: nat)
    requires 0 < i <= |s| && s[i - 1] == '/' && forall k :: i <= k < |s| ==> s[k] != '/'
    ensures ThroughLastSlash(s) == s[..i]
  {
    if |s| > i {
      LastSlashAt(s[..|s| - 1], i);
      assert s[..|s| - 1][..i] == s[..i];
    } else {
      assert s[..i] == s;
    }
  }

  /** The parent of dir/name and of dir/name/ is dir/; the parent of name and of name/ is the empty URL. */
  lemma ParentUrlMeans(dir: string, name: string)
    requires name != "" && '/' !in name
    requires dir != "" ==> dir[|dir| - 1] != '/'
    ensures dir != "" ==> ParentUrl(dir + "/" + name) == dir + "/" == ParentUrl(dir + "/" + name + "/")
    ensures ParentUrl(name) == "" == ParentUrl(name + "/")
  {
    assert (name + "/")[..|name|] == name;
    NoSlash(name);
    NoSlash(name[..|name| - 1]);
    if dir != "" {
      var url := dir + "/" + name;
      assert url[..|url| - 1] == dir + "/" + name[..|name| - 1];
      assert (url + "/")[..|url|] == url;
      DirnameAt(url[..|url| - 1], |dir| + 1, |dir|);
      DirnameAt(url, |dir| + 1, |dir|);
      assert url[..|dir|] == dir && url[..|url| - 1][..|dir|] == dir;
    }
  }

  lemma {:induction false} NoSlash(s: string)
    requires '/' !in s
    ensures ThroughLastSlash(s) == "" && Dirname(s) == ""
  {
    if s != "" {
      assert s[|s| - 1] in s;
      NoSlash(s[..|s| - 1]);
    }
  }

  /** Decreases from a URL to its parent URL. */
  function Rank(url: string): nat { 2 * |url| + if AllSlashes(url) then 0 else 1 }

  lemma ParentUrlRank(url: string)
    ensures ParentUrl(url) == url || Rank(ParentUrl(url)) < Rank(url)
  {
    if url != [] {
      var rest := url[..|url| - 1];
      var head := ThroughLastSlash(rest);
      if head != [] && AllSlashes(head) {
        assert AllSlashes(head + "/") && ParentUrl(url) == head + "/";
        if |head| == |rest| && AllSlashes(url) {
          assert url == rest + [url[|url| - 1]];
          assert ParentUrl(url) == url;
        }
      }
    }
  }

  // ---------------------------------------------------------------- pages

  class Page {
    const url: string
    const slug: string
    const sourcePath: string
    const inDefaultLang: bool
    var parent: Page?
    var parents: seq<Page>
    var children: seq<Page>
  }

  function LastIndex(n: nat, p: nat -> bool): (r: Option<nat>)
    ensures r.None? <==> forall i :: 0 <= i < n ==> !p(i)
    ensures r.Some? ==> r.value < n && p(r.value)
  {
    if n == 0 then None else if p(n - 1) then Some(n - 1) else LastIndex(n - 1, p)
  }

  lemma {:induction false} LastIndexFinds(n: nat, p: nat -> bool, i: nat)
    requires i < n && p(i)
    ensures LastIndex(n, p).Some?
  {
    if i < n - 1 {
      LastIndexFinds(n - 1, p, i);
    }
  }

  /** Page `j` is where the URL of page `i` says its parent is. */
  predicate Above(all: seq<Page>, j: nat, i: nat)
    requires i < |all|
  {
    j < |all| && all[j].url == ParentUrl(all[i].url) && all[j] != all[i]
  }

  /** Page `j` is another version of page `i`; the page itself would give itself its own parent. */
  predicate SameSource(all: seq<Page>, j: nat, i: nat)
    requires i < |all|
  {
    j < |all| && j != i && all[i].slug == all[j].slug && Dirname(all[i].sourcePath) == Dirname(all[j].sourcePath)
  }

  /** The last of the first `k` pages that is where page `i`'s URL says its parent is. */
  function UrlParentIn(all: seq<Page>, k: nat, i: nat): (r: Option<nat>)
    requires k <= |all| && i < |all|
    ensures r.Some? ==> r.value < k && Above(all, r.value, i)
  {
    LastIndex(k, (j: nat) => Above(all, j, i))
  }

  lemma UrlParentInStep(all: seq<Page>, k: nat, i: nat)
    requires k < |all| && i < |all|
    ensures UrlParentIn(all, k + 1, i) == if Above(all, k, i) then Some(k) else UrlParentIn(all, k, i)
  {
  }

  function UrlParent(all: seq<Page>, i: nat): (r: Option<nat>)
    requires i < |all|
    ensures r.Some? ==> r.value < |all| && Above(all, r.value, i)
  {
    UrlParentIn(all, |all|, i)
  }

  /** The page among the first `n` that a translation takes its parent from. */
  function Donor(all: seq<Page>, n: nat, i: nat): (r: Option<nat>)
    requires n <= |all| && i < |all|
    ensures r.Some? ==> r.value < n && r.value != i
  {
    LastIndex(n, (j: nat) => SameSource(all, j, i))
  }

  /**
   The parent of page `i` when the first `n` of `all` are the generator's pages. A borrowed
   parent is the one the donor has when page `i` is handled, so only earlier donors have one.
   */
  function ParentOf(all: seq<Page>, n: nat, i: nat): (r: Option<nat>)
    requires n <= |all| && i < |all|
    ensures r.Some? ==> r.value < |all|
    decreases i
  {
    var own := UrlParent(all, i);
    if own.Some? || all[i].inDefaultLang then own
    else
      var donor := Donor(all, n, i);
      if donor.Some? && donor.value < i then ParentOf(all, n, donor.value) else None
  }

  /** The pages whose URL parent is page `i`; a borrowed parent gains no child. */
  function ChildrenUpTo(all: seq<Page>, i: nat, k: nat): seq<Page>
    requires i < |all| && k <= |all|
  {
    if k == 0 then []
    else ChildrenUpTo(all, i, k - 1) + if Above(all, i, k - 1) then [all[k - 1]] else []
  }

  lemma {:induction false} LastIndexIs(n: nat, p: nat -> bool, i: nat)
    requires i < n && p(i) && forall j :: i < j < n ==> !p(j)
    ensures LastIndex(n, p) == Some(i)
  {
    if i < n - 1 {
      LastIndexIs(n - 1, p, i);
    }
  }

  /** Page `j` is the last other page with the URL that page `i` looks for. */
  ghost predicate LastWithUrl(all: seq<Page>, i: nat, j: nat)
    requires i < |all|
  {
    && j < |all| && all[j] != all[i] && all[j].url == ParentUrl(all[i].url)
    && forall k :: j < k < |all| && all[k] != all[i] ==> all[k].url != ParentUrl(all[i].url)
  }

  /** Page `d` is the last generator page with the slug and the directory of page `i`. */
  ghost predicate LastVersion(all: seq<Page>, n: nat, i: nat, d: nat)
    requires n <= |all| && i < |all|
  {
    && d < n && d != i
    && all[d].slug == all[i].slug && Dirname(all[d].sourcePath) == Dirname(all[i].sourcePath)
    && forall k :: d < k < n && k != i ==>
         all[k].slug != all[i].slug || Dirname(all[k].sourcePath) != Dirname(all[i].sourcePath)
  }

  /** No other generator page has the slug and the directory of page `i`. */
  ghost predicate NoVersion(all: seq<Page>, n: nat, i: nat)
    requires n <= |all| && i < |all|
  {
    forall k :: 0 <= k < n && k != i ==>
      all[k].slug != all[i].slug || Dirname(all[k].sourcePath) != Dirname(all[i].sourcePath)
  }

  /** No other page has the URL that page `i` looks for. */
  ghost predicate NoUrlParent(all: seq<Page>, i: nat)
    requires i < |all|
  {
    forall k :: 0 <= k < |all| && all[k] != all[i] ==> all[k].url != ParentUrl(all[i].url)
  }

  lemma UrlParentIs(all: seq<Page>, i: nat, j: nat)
    requires i < |all| && LastWithUrl(all, i, j)
    ensures UrlParent(all, i) == Some(j)
  {
    LastIndexIs(|all|, (k: nat) => Above(all, k, i), j);
  }

  lemma DonorIs(all: seq<Page>, n: nat, i: nat, d: nat)
    requires n <= |all| && i < |all| && LastVersion(all, n, i, d)
    ensures Donor(all, n, i) == Some(d)
  {
    LastIndexIs(n, (k: nat) => SameSource(all, k, i), d);
  }

  lemma DonorNone(all: seq<Page>, n: nat, i: nat)
    requires n <= |all| && i < |all| && NoVersion(all, n, i)
    ensures Donor(all, n, i) == None
  {
  }

  lemma UrlParentNone(all: seq<Page>, i: nat)
    requires i < |all| && NoUrlParent(all, i)
    ensures UrlParent(all, i) == None
  {
  }

  function OrNull(all: seq<Page>, o: Option<nat>): Page?
    requires o.Some? ==> o.value < |all|
  {
    if o.Some? then all[o.value] else null
  }

  // ---------------------------------------------------------------- when the ancestor walk ends

  /** The walk from page `i` comes to a page without parent within `k` steps. */
  ghost predicate EndsWithin(all: seq<Page>, n: nat, i: nat, k: nat)
    requires n <= |all| && i < |all|
    decreases k
  {
    var up := ParentOf(all, n, i);
    up.None? || (k > 0 && EndsWithin(all, n, up.value, k - 1))
  }

  ghost predicate Ends(all: seq<Page>, n: nat, i: nat)
    requires n <= |all| && i < |all|
  {
    exists k: nat :: EndsWithin(all, n, i, k)
  }

  ghost predicate AllEnd(all: seq<Page>, n: nat) {
    n <= |all| && forall i: nat :: i < |all| ==> Ends(all, n, i)
  }

  lemma {:induction false} EndsLater(all: seq<Page>, n: nat, i: nat, j: nat, k: nat)
    requires n <= |all| && i < |all| && j <= k && EndsWithin(all, n, i, j)
    ensures EndsWithin(all, n, i, k)
    decreases k
  {
    hide ParentOf;
    if ParentOf(all, n, i).Some? {
      EndsLater(all, n, ParentOf(all, n, i).value, j - 1, k - 1);
    }
  }

  lemma EndsStep(all: seq<Page>, n: nat, i: nat)
    requires n <= |all| && i < |all|
    ensures var up := ParentOf(all, n, i); Ends(all, n, i) <==> up.None? || Ends(all, n, up.value)
  {
    hide ParentOf;
    var up := ParentOf(all, n, i);
    if up.None? {
      assert EndsWithin(all, n, i, 0);
    } else if Ends(all, n, up.value) {
      var k: nat :| EndsWithin(all, n, up.value, k);
      assert EndsWithin(all, n, i, k + 1);
    } else if Ends(all, n, i) {
      var k: nat :| EndsWithin(all, n, i, k);
      assert EndsWithin(all, n, up.value, k - 1);
    }
  }

  /** No two pages have one URL that is its own parent URL, such as the empty one. */
  ghost predicate NoTwins(all: seq<Page>) {
    forall i, j :: 0 <= i < j < |all| && all[i].url == all[j].url ==> ParentUrl(all[i].url) != all[i].url
  }

  lemma UrlParentRank(all: seq<Page>, i: nat)
    requires NoTwins(all) && i < |all| && UrlParent(all, i).Some?
    ensures Rank(all[UrlParent(all, i).value].url) < Rank(all[i].url)
  {
    var j := UrlParent(all, i).value;
    assert Above(all, j, i);
    ParentUrlRank(all[i].url);
    assert i != j;
  }

  /** The page at which the URL parents of page `i` end. */
  ghost function Top(all: seq<Page>, i: nat): (r: nat)
    requires NoTwins(all) && i < |all|
    ensures r < |all| && UrlParent(all, r).None?
    decreases Rank(all[i].url)
  {
    var up := UrlParent(all, i);
    if up.None? then i
    else
      UrlParentRank(all, i);
      Top(all, up.value)
  }

  /** From each page with a borrowed parent to the page at which the URLs above that parent end. */
  ghost function Borrowed(all: seq<Page>, n: nat): map<nat, nat>
    requires NoTwins(all) && n <= |all|
  {
    map t: nat | t < |all| && UrlParent(all, t).None? && ParentOf(all, n, t).Some?
      :: Top(all, ParentOf(all, n, t).value)
  }

  /** With generator pages in the default language: the parent is the donor's URL parent. */
  lemma BorrowedMeaning(all: seq<Page>, n: nat, t: nat)
    requires NoTwins(all) && n <= |all| && t < |all|
    requires forall i :: 0 <= i < n ==> all[i].inDefaultLang
    ensures t in Borrowed(all, n) <==>
      !all[t].inDefaultLang && UrlParent(all, t).None? &&
      Donor(all, n, t).Some? && UrlParent(all, Donor(all, n, t).value).Some?
    ensures t in Borrowed(all, n) ==>
      Borrowed(all, n)[t] == Top(all, UrlParent(all, Donor(all, n, t).value).value)
  {
    hide UrlParent, Top;
    var d := Donor(all, n, t);
    if d.Some? {
      assert ParentOf(all, n, d.value) == UrlParent(all, d.value);
    }
  }

  lemma {:induction false} TopEnds(all: seq<Page>, n: nat, i: nat, k: nat)
    requires NoTwins(all) && n <= |all| && i < |all|
    ensures EndsWithin(all, n, i, k) ==> EndsWithin(all, n, Top(all, i), k)
    ensures Ends(all, n, Top(all, i)) ==> Ends(all, n, i)
    decreases Rank(all[i].url)
  {
    hide UrlParent, ParentUrl, Rank, Ends;
    var up := UrlParent(all, i);
    if up.Some? {
      UrlParentRank(all, i);
      EndsStep(all, n, i);
      TopEnds(all, n, up.value, k);
      if EndsWithin(all, n, i, k) {
        EndsLater(all, n, up.value, k - 1, k);
      }
    }
  }

  lemma {:induction false} CycleNeverEnds(all: seq<Page>, n: nat, t: nat, k: nat)
    requires NoTwins(all) && n <= |all| && t < |all| && ReachesCycle(Borrowed(all, n), t)
    ensures !EndsWithin(all, n, t, k)
    decreases k
  {
    hide ReachesCycle, ParentOf, UrlParent;
    ReachesCycleStep(Borrowed(all, n), t);
    var up := ParentOf(all, n, t).value;
    if k > 0 {
      CycleNeverEnds(all, n, Top(all, up), k - 1);
      TopEnds(all, n, up, k - 1);
    }
  }

  /** A walk that does not end goes through borrowed parents again and again. */
  lemma EndlessHasCycle(all: seq<Page>, n: nat, i: nat)
    requires NoTwins(all) && n <= |all| && i < |all| && !Ends(all, n, i)
    ensures !Acyclic(Borrowed(all, n))
  {
    hide ParentOf, UrlParent, Ends, EndsWithin;
    var m := Borrowed(all, n);
    var held := set t | t in m && !Ends(all, n, t);
    forall t | t in held ensures m[t] in held {
      EndsStep(all, n, t);
      EndlessTop(all, n, ParentOf(all, n, t).value);
    }
    EndlessTop(all, n, i);
    var a, b := StuckReachesCycle(m, held, Top(all, i));
  }

  lemma EndlessTop(all: seq<Page>, n: nat, i: nat)
    requires NoTwins(all) && n <= |all| && i < |all| && !Ends(all, n, i)
    ensures Top(all, i) in Borrowed(all, n) && !Ends(all, n, Top(all, i))
  {
    hide ParentOf, UrlParent, Ends, EndsWithin;
    TopEnds(all, n, i, 0);
    EndsStep(all, n, Top(all, i));
  }

  lemma {:induction false} TwinsNeverEnd(all: seq<Page>, n: nat, i: nat, j: nat, k: nat)
    requires NoDup(all) && n <= |all| && i < |all| && j < |all| && i != j
    requires all[i].url == all[j].url == ParentUrl(all[i].url)
    ensures !EndsWithin(all, n, i, k)
    decreases k
  {
    assert Above(all, j, i);
    LastIndexFinds(|all|, (m: nat) => Above(all, m, i), j);
    if k > 0 {
      TwinsNeverEnd(all, n, UrlParent(all, i).value, i, k - 1);
    }
  }

  /**
   The walk to the root ends from every page exactly when no two pages share a URL that is its
   own parent URL, and no page with a borrowed parent comes back to itself by going up URLs
   from that parent, borrowing again at the top, and so on. Nothing is asked of the pages.
   */
  lemma WalksEndIff(all: seq<Page>, n: nat)
    requires NoDup(all) && n <= |all|
    ensures AllEnd(all, n) <==> NoTwins(all) && Acyclic(Borrowed(all, n))
  {
    hide ParentOf, UrlParent, EndsWithin, ReachesCycle, OnCycle;
    if !NoTwins(all) {
      var i, j :| 0 <= i < j < |all| && all[i].url == all[j].url && ParentUrl(all[i].url) == all[i].url;
      forall k: nat ensures !EndsWithin(all, n, i, k) {
        TwinsNeverEnd(all, n, i, j, k);
      }
      assert !Ends(all, n, i);
    } else if !Acyclic(Borrowed(all, n)) {
      var t :| t in Borrowed(all, n) && OnCycle(Borrowed(all, n), t);
      CycleReachesItself(Borrowed(all, n), t);
      forall k: nat ensures !EndsWithin(all, n, t, k) {
        CycleNeverEnds(all, n, t, k);
      }
      assert !Ends(all, n, t);
    } else if !AllEnd(all, n) {
      var i: nat :| i < |all| && !Ends(all, n, i);
      EndlessHasCycle(all, n, i);
    }
  }

  ghost predicate DifferentUrls(all: seq<Page>) {
    forall i, j :: 0 <= i < j < |all| ==> all[i].url != all[j].url
  }

  /**
   Page lists on which it ends: different URLs, pages in the default language, and no page
   whose URL parent is a translation.
   */
  ghost predicate Climbable(all: seq<Page>, n: nat) {
    && n <= |all|
    && NoDup(all)
    && DifferentUrls(all)
    && (forall i :: 0 <= i < n ==> all[i].inDefaultLang)
    && (forall i :: 0 <= i < n ==> UrlParent(all, i).None? || UrlParent(all, i).value < n)
  }

  /** From a page to its parent, first "is a translation" and then the URL rank decreases. */
  lemma ParentDescends(all: seq<Page>, n: nat, i: nat)
    requires Climbable(all, n) && i < |all| && ParentOf(all, n, i).Some?
    ensures var p := ParentOf(all, n, i).value;
      (p < n && i >= n) || ((p < n <==> i < n) && Rank(all[p].url) < Rank(all[i].url))
  {
    if UrlParent(all, i).Some? {
      UrlParentRank(all, i);
    } else {
      var d := Donor(all, n, i).value;
      assert ParentOf(all, n, i) == ParentOf(all, n, d) == UrlParent(all, d);
    }
  }

  lemma {:induction false} ClimbableEnds(all: seq<Page>, n: nat, i: nat)
    requires Climbable(all, n) && i < |all|
    ensures Ends(all, n, i)
    decreases if i < n then 0 else 1, Rank(all[i].url)
  {
    EndsStep(all, n, i);
    if ParentOf(all, n, i).Some? {
      ParentDescends(all, n, i);
      ClimbableEnds(all, n, ParentOf(all, n, i).value);
    }
  }

  /**
   The walk may run in a circle: the page d lends its place to the translation t, but d's URL
   parent is the translation q, and q's URL parent is t.
   */
  lemma CircularTranslations(d: Page, t: Page, q: Page)
    requires d.url == "t/q/d.html" && t.url == "t/" && q.url == "t/q/"
    requires d.inDefaultLang && !t.inDefaultLang && !q.inDefaultLang
    requires d.slug == t.slug && Dirname(d.sourcePath) == Dirname(t.sourcePath)
    ensures var all := [d, t, q];
      NoDup(all) && NoTwins(all) && Borrowed(all, 1) == map[1 := 1] && !AllEnd(all, 1)
    ensures ParentOf([d, t, q], 1, 1) == Some(2) && ParentOf([d, t, q], 1, 2) == Some(1)
  {
    var all := [d, t, q];
    CircleLinks(d, t, q);
    hide LastIndex, Above, SameSource, ParentUrl, Dirname;
    assert |t.url| == 2 && |q.url| == 4 && |d.url| == 10;
    assert DifferentUrls(all);
    assert ParentOf(all, 1, 0) == Some(2);
    CircleOfOne(all, 1, 1, 2);
  }

  lemma CircleLinks(d: Page, t: Page, q: Page)
    requires d.url == "t/q/d.html" && t.url == "t/" && q.url == "t/q/"
    requires d.slug == t.slug && Dirname(d.sourcePath) == Dirname(t.sourcePath)
    ensures var all := [d, t, q];
      UrlParent(all, 0) == Some(2) && UrlParent(all, 1).None? && UrlParent(all, 2) == Some(1) &&
      Donor(all, 1, 1) == Some(0)
  {
    hide Dirname;
    var all := [d, t, q];
    assert |t.url| == 2 && |q.url| == 4 && |d.url| == 10;
    KnownParents();
    assert Above(all, 2, 0) && Above(all, 1, 2);
    assert !Above(all, 1, 0) && !Above(all, 0, 2) && !Above(all, 2, 2);
    assert UrlParent(all, 2) == LastIndex(2, (j: nat) => Above(all, j, 2)) == Some(1);
    assert !Above(all, 0, 1) && !Above(all, 1, 1) && !Above(all, 2, 1);
    assert SameSource(all, 0, 1);
  }

  lemma CircleOfOne(all: seq<Page>, n: nat, t: nat, q: nat)
    requires NoDup(all) && NoTwins(all) && n <= |all| == 3 && t < 3 && q < 3
    requires UrlParent(all, t).None? && ParentOf(all, n, t) == Some(q) && UrlParent(all, q) == Some(t)
    requires forall i: nat :: i < 3 && i != t ==> UrlParent(all, i).Some?
    ensures Borrowed(all, n) == map[t := t] && !AllEnd(all, n)
  {
    hide ParentOf, UrlParent;
    var m := Borrowed(all, n);
    assert Top(all, q) == Top(all, t) == t;
    assert m == map[t := t];
    assert Walk(m, t, 0) == Some(t);
    assert Walk(m, t, 1) == Some(t);
    assert OnCycle(m, t);
    WalksEndIff(all, n);
  }

  lemma KnownParents()
    ensures ParentUrl("t/q/d.html") == "t/q/" && ParentUrl("t/q/") == "t/" && ParentUrl("t/") == ""
  {
    hide *;
    ParentUrlMeans("t/q", "d.html");
    ParentUrlMeans("t", "q");
    ParentUrlMeans("", "t");
    assert "t/q/d.html" == "t/q" + "/" + "d.html" && "t/q/" == "t" + "/" + "q" + "/" && "t/" == "t" + "/";
  }

  // ---------------------------------------------------------------- setting the links

  ghost predicate ParentsSet(all: seq<Page>, n: nat)
    reads all
  {
    n <= |all| && forall i :: 0 <= i < |all| ==> all[i].parent == OrNull(all, ParentOf(all, n, i))
  }

  ghost predicate ChildrenSet(all: seq<Page>)
    reads all
  {
    forall i :: 0 <= i < |all| ==> all[i].children == ChildrenUpTo(all, i, |all|)
  }

  lemma AboveMeans(all: seq<Page>, j: nat, i: nat)
    requires i < |all| && j < |all|
    ensures Above(all, j, i) <==> all[j].url == ParentUrl(all[i].url) && all[j] != all[i]
  {
  }

  /**
   The parent is the last page with the parent URL. Without such a page, a page in another
   language has the parent of the last other version of it among the generator's pages, if that
   one comes earlier; any other page has none.
   */
  ghost predicate ParentRight(all: seq<Page>, n: nat, i: nat)
    requires n <= |all| && i < |all|
    reads all
  {
    && (forall j: nat :: LastWithUrl(all, i, j) ==> all[i].parent == all[j])
    && (NoUrlParent(all, i) && all[i].inDefaultLang ==> all[i].parent == null)
    && (NoUrlParent(all, i) && !all[i].inDefaultLang && NoVersion(all, n, i) ==> all[i].parent == null)
    && (forall d: nat :: NoUrlParent(all, i) && !all[i].inDefaultLang && LastVersion(all, n, i, d) ==>
         all[i].parent == if d < i then all[d].parent else null)
  }

  /** A page is a child, once, of every page with its parent URL. */
  ghost predicate ChildrenRight(all: seq<Page>, i: nat)
    requires i < |all|
    reads all
  {
    && (forall j :: 0 <= j < |all| ==>
         (all[j] in all[i].children <==> all[i] != all[j] && all[i].url == ParentUrl(all[j].url)))
    && (forall p :: p in all[i].children ==> p in all)
    && NoDup(all[i].children)
  }

  /** The links are right in terms of URLs, slugs and directories. */
  ghost predicate Linked(all: seq<Page>, n: nat)
    requires n <= |all|
    reads all
  {
    forall i: nat :: i < |all| ==> ParentRight(all, n, i) && ChildrenRight(all, i)
  }

  lemma ParentMeans(all: seq<Page>, n: nat, i: nat)
    requires NoDup(all) && i < |all| && ParentsSet(all, n)
    ensures ParentRight(all, n, i)
  {
    forall j: nat | LastWithUrl(all, i, j) ensures j < |all| && UrlParent(all, i) == Some(j) {
      UrlParentIs(all, i, j);
    }
    if NoUrlParent(all, i) {
      UrlParentNone(all, i);
      forall d: nat | LastVersion(all, n, i, d) ensures d < n && Donor(all, n, i) == Some(d) {
        DonorIs(all, n, i, d);
      }
      hide ParentUrl, UrlParent, Donor, LastVersion, NoVersion, NoUrlParent, LastWithUrl;
      if NoVersion(all, n, i) { DonorNone(all, n, i); }
    }
  }

  lemma {:induction false} ChildrenMean(all: seq<Page>, i: nat, k: nat)
    requires NoDup(all) && i < |all| && k <= |all|
    ensures forall j :: 0 <= j < |all| ==>
      (all[j] in ChildrenUpTo(all, i, k) <==> j < k && all[i] != all[j] && all[i].url == ParentUrl(all[j].url))
    ensures forall p :: p in ChildrenUpTo(all, i, k) ==> p in all[..k]
    ensures NoDup(ChildrenUpTo(all, i, k))
  {
    hide ParentUrl;
    if k != 0 {
      ChildrenMean(all, i, k - 1);
      assert all[..k] == all[..k - 1] + [all[k - 1]];
      assert all[k - 1] !in all[..k - 1];
    }
  }

  lemma ChildrenAreRight(all: seq<Page>, i: nat)
    requires NoDup(all) && i < |all| && ChildrenSet(all)
    ensures ChildrenRight(all, i)
  {
    hide ParentUrl, ChildrenUpTo;
    ChildrenMean(all, i, |all|);
    assert all[..|all|] == all;
  }

  lemma LinksMean(all: seq<Page>, n: nat)
    requires n <= |all| && NoDup(all) && ParentsSet(all, n) && ChildrenSet(all)
    ensures Linked(all, n)
  {
    hide ParentUrl, ParentRight, ChildrenRight, ParentsSet, ParentOf;
    forall i: nat | i < |all| ensures ParentRight(all, n, i) && ChildrenRight(all, i) {
      ParentMeans(all, n, i);
      ChildrenAreRight(all, i);
    }
  }

  method ClearLinks(all: seq<Page>)
    modifies all
    ensures forall k :: 0 <= k < |all| ==> all[k].parent == null && all[k].parents == [] && all[k].children == []
  {
    for i := 0 to |all|
      invariant forall k :: 0 <= k < i ==> all[k].parent == null && all[k].parents == [] && all[k].children == []
    {
      all[i].parent, all[i].parents, all[i].children := null, [], [];
    }
  }

  /** One page looks through all pages for its URL parent and registers there as a child. */
  method AttachToUrlParent(all: seq<Page>, i: nat)
    requires NoDup(all) && i < |all| && all[i].parent == null
    modifies all
    ensures all[i].parent == OrNull(all, UrlParent(all, i))
    ensures forall k :: 0 <= k < |all| && k != i ==> all[k].parent == old(all[k].parent)
    ensures forall k :: 0 <= k < |all| ==> all[k].parents == old(all[k].parents)
    ensures forall k :: 0 <= k < |all| ==>
      all[k].children == old(all[k].children) + if Above(all, k, i) then [all[i]] else []
  {
    hide ParentUrl, UrlParentIn, Above;
    var page := all[i];
    assert UrlParentIn(all, 0, i).None?;
    for j := 0 to |all|
      invariant page.parent == OrNull(all, UrlParentIn(all, j, i))
      invariant forall k :: 0 <= k < |all| && k != i ==> all[k].parent == old(all[k].parent)
      invariant forall k :: 0 <= k < |all| ==> all[k].parents == old(all[k].parents)
      invariant forall k :: 0 <= k < j ==>
        all[k].children == old(all[k].children) + if Above(all, k, i) then [page] else []
      invariant forall k :: j <= k < |all| ==> all[k].children == old(all[k].children)
    {
      UrlParentInStep(all, j, i);
      AboveMeans(all, j, i);
      var page2 := all[j];
      if page2.url == ParentUrl(page.url) && page2 != page {
        page.parent := page2;
        page2.children := page2.children + [page];
      }
    }
  }

  /** A page without a parent takes over the parent of the last other version of it. */
  method BorrowParent(all: seq<Page>, n: nat, i: nat)
    requires NoDup(all) && n <= |all| && i < |all| && all[i].parent == null
    modifies all[i]
    ensures all[i].parents == old(all[i].parents) && all[i].children == old(all[i].children)
    ensures all[i].parent == if Donor(all, n, i).Some? then old(all[Donor(all, n, i).value].parent) else null
    ensures forall d: nat :: LastVersion(all, n, i, d) ==> all[i].parent == old(all[d].parent)
    ensures NoVersion(all, n, i) ==> all[i].parent == null
  {
    forall d: nat | LastVersion(all, n, i, d) ensures Donor(all, n, i) == Some(d) { DonorIs(all, n, i, d); }
    if NoVersion(all, n, i) { DonorNone(all, n, i); }
    var page := all[i];
    for j := 0 to n
      invariant page.parents == old(page.parents) && page.children == old(page.children)
      invariant var d := LastIndex(j, (m: nat) => SameSource(all, m, i));
        page.parent == if d.Some? then old(all[d.value].parent) else null
    {
      var page2 := all[j];
      if page.slug == page2.slug && Dirname(page.sourcePath) == Dirname(page2.sourcePath) {
        page.parent := page2.parent;
      }
    }
  }

  /** The first `i` pages have been handled. */
  ghost predicate LinkedUpTo(all: seq<Page>, n: nat, i: nat)
    requires n <= |all| && i <= |all|
    reads all
  {
    && (forall k :: 0 <= k < |all| ==> all[k].parents == [])
    && (forall k :: 0 <= k < i ==> all[k].parent == OrNull(all, ParentOf(all, n, k)))
    && (forall k :: i <= k < |all| ==> all[k].parent == null)
    && (forall k :: 0 <= k < |all| ==> all[k].children == ChildrenUpTo(all, k, i))
  }

  lemma NothingLinked(all: seq<Page>, n: nat)
    requires n <= |all|
    requires forall k :: 0 <= k < |all| ==> all[k].parent == null && all[k].parents == [] && all[k].children == []
    ensures LinkedUpTo(all, n, 0)
  {
  }

  lemma AllLinked(all: seq<Page>, n: nat)
    requires n <= |all| && LinkedUpTo(all, n, |all|)
    ensures ParentsSet(all, n) && ChildrenSet(all)
    ensures forall k :: 0 <= k < |all| ==> all[k].parents == []
  {
    hide ParentOf, ChildrenUpTo;
  }

  method LinkPage(all: seq<Page>, n: nat, i: nat)
    requires NoDup(all) && n <= |all| && i < |all| && LinkedUpTo(all, n, i)
    modifies all
    ensures LinkedUpTo(all, n, i + 1)
  {
    hide Above, SameSource, LastIndex, UrlParent, UrlParentIn, Donor, ParentUrl;
    AttachToUrlParent(all, i);
    assert forall k :: 0 <= k < |all| ==> all[k].children == ChildrenUpTo(all, k, i + 1);
    label Attached:
    if all[i].parent == null && !all[i].inDefaultLang {
      BorrowParent(all, n, i);
      assert forall k :: 0 <= k < |all| ==> all[k].children == old@Attached(all[k].children);
    }
  }

  /** The first two loops: clear the links, then set parent and children of every page. */
  method SetLinks(all: seq<Page>, n: nat)
    requires NoDup(all) && n <= |all|
    modifies all
    ensures ParentsSet(all, n) && ChildrenSet(all) && Linked(all, n)
    ensures forall k :: 0 <= k < |all| ==> all[k].parents == []
  {
    hide LinkedUpTo, ParentsSet, ChildrenSet, Linked;
    ClearLinks(all);
    NothingLinked(all, n);
    for i := 0 to |all|
      invariant LinkedUpTo(all, n, i)
    {
      LinkPage(all, n, i);
    }
    AllLinked(all, n);
    LinksMean(all, n);
  }

  // ---------------------------------------------------------------- ancestors

  /** The pages of the first `k` steps of the walk, the last step first. */
  ghost function AncestorsWithin(all: seq<Page>, n: nat, i: nat, k: nat): (r: seq<nat>)
    requires n <= |all| && i < |all|
    ensures forall j :: 0 <= j < |r| ==> r[j] < |all|
    decreases k
  {
    var p := ParentOf(all, n, i);
    if k == 0 || p.None? then [] else AncestorsWithin(all, n, p.value, k - 1) + [p.value]
  }

  lemma {:induction false} SameAncestors(all: seq<Page>, n: nat, i: nat, j: nat, k: nat)
    requires n <= |all| && i < |all| && EndsWithin(all, n, i, j) && EndsWithin(all, n, i, k)
    ensures AncestorsWithin(all, n, i, j) == AncestorsWithin(all, n, i, k)
    decreases k
  {
    if ParentOf(all, n, i).Some? {
      SameAncestors(all, n, ParentOf(all, n, i).value, j - 1, k - 1);
    }
  }

  /** Page `i`'s ancestors, the root first. */
  ghost function Ancestors(all: seq<Page>, n: nat, i: nat): (r: seq<nat>)
    requires n <= |all| && i < |all| && Ends(all, n, i)
    ensures forall j :: 0 <= j < |r| ==> r[j] < |all|
  {
    var k: nat :| EndsWithin(all, n, i, k);
    AncestorsWithin(all, n, i, k)
  }

  lemma AncestorStep(all: seq<Page>, n: nat, i: nat)
    requires n <= |all| && i < |all| && Ends(all, n, i)
    ensures ParentOf(all, n, i).None? ==> Ancestors(all, n, i) == []
    ensures var up := ParentOf(all, n, i);
      up.Some? ==> Ends(all, n, up.value) && Ancestors(all, n, i) == Ancestors(all, n, up.value) + [up.value]
  {
    hide ParentOf;
    var k: nat :| EndsWithin(all, n, i, k) && Ancestors(all, n, i) == AncestorsWithin(all, n, i, k);
    var up := ParentOf(all, n, i);
    if up.Some? {
      EndsStep(all, n, i);
      var j: nat :| EndsWithin(all, n, up.value, j) &&
        Ancestors(all, n, up.value) == AncestorsWithin(all, n, up.value, j);
      SameAncestors(all, n, up.value, j, k - 1);
      assert AncestorsWithin(all, n, i, k) == AncestorsWithin(all, n, up.value, k - 1) + [up.value];
    }
  }

  ghost function AncestorPages(all: seq<Page>, n: nat, i: nat): (r: seq<Page>)
    requires n <= |all| && i < |all| && Ends(all, n, i)
  {
    var a := Ancestors(all, n, i);
    seq(|a|, k requires 0 <= k < |a| => all[a[k]])
  }

  lemma AncestorPagesStep(all: seq<Page>, n: nat, i: nat)
    requires n <= |all| && i < |all| && Ends(all, n, i)
    ensures ParentOf(all, n, i).None? ==> AncestorPages(all, n, i) == []
    ensures var up := ParentOf(all, n, i);
      up.Some? ==>
        Ends(all, n, up.value) && AncestorPages(all, n, i) == AncestorPages(all, n, up.value) + [all[up.value]]
  {
    hide ParentOf, Ends, Ancestors;
    AncestorStep(all, n, i);
  }

  /** The walk from `page` has come to `p`, page `at`, and has collected what lies between. */
  ghost predicate Climbing(all: seq<Page>, n: nat, i: nat, page: Page, p: Page, at: nat)
    requires n <= |all| && i < |all| && Ends(all, n, i)
    reads all, page
  {
    && ParentsSet(all, n) && at < |all| && p == all[at] && Ends(all, n, at)
    && AncestorPages(all, n, i) == AncestorPages(all, n, at) + page.parents
  }

  lemma ClimbOne(all: seq<Page>, n: nat, at: nat, rest: seq<Page>)
    requires n <= |all| && at < |all| && Ends(all, n, at) && ParentOf(all, n, at).Some?
    ensures var up := ParentOf(all, n, at).value;
      Ends(all, n, up) && |AncestorPages(all, n, up)| < |AncestorPages(all, n, at)| &&
      AncestorPages(all, n, at) + rest == AncestorPages(all, n, up) + ([all[up]] + rest)
  {
    hide ParentOf, AncestorPages, Ends;
    AncestorPagesStep(all, n, at);
  }

  /** The walk from one page up to its root. */
  method ClimbFrom(ghost all: seq<Page>, ghost n: nat, page: Page, ghost i: nat)
    requires n <= |all| && i < |all| && Ends(all, n, i)
    requires page == all[i] && ParentsSet(all, n) && page.parents == []
    modifies page
    ensures page.parent == old(page.parent) && page.children == old(page.children)
    ensures page.parents == AncestorPages(all, n, i)
  {
    hide ParentOf, Ends, AncestorPages;
    var p: Page := page;
    ghost var at: nat := i;
    while p.parent != null
      invariant page.parent == old(page.parent) && page.children == old(page.children)
      invariant Climbing(all, n, i, page, p, at)
      decreases |AncestorPages(all, n, at)|
    {
      ClimbOne(all, n, at, page.parents);
      page.parents := [p.parent] + page.parents;
      at := ParentOf(all, n, at).value;
      p := p.parent;
    }
    AncestorPagesStep(all, n, at);
  }

  /** `set_relationships`: `all` chains the `n` pages of the generator and its translations. */
  method SetRelationships(all: seq<Page>, n: nat)
    requires NoDup(all) && AllEnd(all, n)
    modifies all
    ensures ParentsSet(all, n) && ChildrenSet(all) && Linked(all, n)
    ensures forall i :: 0 <= i < |all| ==> all[i].parents == AncestorPages(all, n, i)
    ensures forall i :: 0 <= i < |all| ==>
      all[i].parents == if all[i].parent == null then [] else all[i].parent.parents + [all[i].parent]
  {
    hide ParentOf, AncestorPages, ChildrenUpTo, Ends, Linked;
    SetLinks(all, n);
    for i := 0 to |all|
      invariant ParentsSet(all, n) && ChildrenSet(all)
      invariant forall k :: 0 <= k < i ==> all[k].parents == AncestorPages(all, n, k)
      invariant forall k :: i <= k < |all| ==> all[k].parents == []
    {
      ClimbFrom(all, n, all[i], i);
    }
    LinksMean(all, n);
    forall i | 0 <= i < |all|
      ensures all[i].parents == if all[i].parent == null then [] else all[i].parent.parents + [all[i].parent]
    {
      AncestorPagesStep(all, n, i);
    }
  }

  lemma {:induction false} AncestorsShorter(all: seq<Page>, n: nat, i: nat)
    requires n <= |all| && i < |all| && Ends(all, n, i)
    ensures forall j :: j in Ancestors(all, n, i) ==>
      Ends(all, n, j) && |Ancestors(all, n, j)| < |Ancestors(all, n, i)|
    decreases |Ancestors(all, n, i)|
  {
    hide ParentOf, Ends, Ancestors;
    AncestorStep(all, n, i);
    if ParentOf(all, n, i).Some? {
      AncestorsShorter(all, n, ParentOf(all, n, i).value);
    }
  }

  /**
   The ancestors are a branch of a tree: they start at a page without parent, each is the
   parent of the next, the last one is the page's own parent, and no page occurs twice.
   */
  lemma {:induction false} AncestorsFormBranch(all: seq<Page>, n: nat, i: nat)
    requires n <= |all| && i < |all| && Ends(all, n, i)
    ensures var a := Ancestors(all, n, i) + [i];
      ParentOf(all, n, a[0]).None? &&
      (forall k :: 0 < k < |a| ==> ParentOf(all, n, a[k]) == Some(a[k - 1])) && NoDup(a)
    decreases |Ancestors(all, n, i)|
  {
    hide ParentOf, Ends, Ancestors;
    AncestorStep(all, n, i);
    if ParentOf(all, n, i).Some? {
      AncestorsFormBranch(all, n, ParentOf(all, n, i).value);
      AncestorsShorter(all, n, i);
    }
  }

  lemma OnlyOneAbove(all: seq<Page>, i: nat, j: nat)
    requires DifferentUrls(all) && i < |all| && j < |all|
    ensures Above(all, i, j) <==> UrlParent(all, j) == Some(i)
  {
    if Above(all, i, j) {
      LastIndexFinds(|all|, (k: nat) => Above(all, k, j), i);
      var u := UrlParent(all, j).value;
      assert all[u].url == all[i].url;
    }
  }

  lemma ChildrenStep(all: seq<Page>, i: nat, k: nat, j: nat)
    requires NoDup(all) && i < |all| && k < |all| && j < |all|
    ensures all[j] in ChildrenUpTo(all, i, k + 1) <==>
      all[j] in ChildrenUpTo(all, i, k) || (j == k && Above(all, i, k))
  {
    hide Above;
  }

  /** A page is listed as a child exactly by its URL parent; borrowing a parent does not count. */
  lemma {:induction false} ChildrenAreUrlChildren(all: seq<Page>, i: nat, k: nat)
    requires NoDup(all) && DifferentUrls(all) && i < |all| && k <= |all|
    ensures forall j :: 0 <= j < |all| ==>
      (all[j] in ChildrenUpTo(all, i, k) <==> j < k && UrlParent(all, j) == Some(i))
    ensures NoDup(ChildrenUpTo(all, i, k))
  {
    hide Above, UrlParent;
    if k != 0 {
      ChildrenAreUrlChildren(all, i, k - 1);
      OnlyOneAbove(all, i, k - 1);
      forall j | 0 <= j < |all|
        ensures all[j] in ChildrenUpTo(all, i, k) <==> j < k && UrlParent(all, j) == Some(i)
      {
        ChildrenStep(all, i, k - 1, j);
      }
    }
  }
}
