/**
 What one generator of a site keeps, hides and hands over to the sites of other languages.
 The lists are edited in place while copies of them are walked.
 */
module ContentFilter {
  import opened Lists

  /** A version of a content item: its source file and its language. */
  datatype Link = Link(source: string, lang: string)

  datatype Status = Normal | Hidden

  /** `links` are the item's translations. */
  datatype Content = Content(source: string, lang: string, url: string, status: Status, links: seq<Link>)

  /**
   The setting for untranslated content; a misspelt word is none of the three. Pages are
   hidden as they are, articles are replaced by fresh drafts.
   */
  datatype Policy = PolicyHide(drafts: bool) | PolicyRemove | PolicyKeep | PolicyOther

  datatype Items = Items(translations: seq<Content>, hiddenTranslations: seq<Content>,
                         contents: seq<Content>, hidden: seq<Content>)

  /** `list.remove(x)`: the first equal element goes. */
  function RemoveFirst(s: seq<Content>, x: Content): seq<Content> {
    if s == [] then [] else if s[0] == x then s[1..] else [s[0]] + RemoveFirst(s[1..], x)
  }

  lemma {:induction false} RemoveFirstAfter(a: seq<Content>, x: Content, b: seq<Content>)
    requires x !in a
    ensures RemoveFirst(a + ([x] + b), x) == a + b
  {
    if a == [] {
      assert a + ([x] + b) == [x] + b;
    } else {
      assert (a + ([x] + b))[1..] == a[1..] + ([x] + b);
      RemoveFirstAfter(a[1..], x, b);
    }
  }

  /** Removing while walking a copy leaves the kept part of the walked front and all of the rest. */
  lemma RemoveStep(copy: seq<Content>, i: nat, p: Content -> bool)
    requires i < |copy| && !p(copy[i])
    ensures RemoveFirst(Keep(copy[..i], p) + copy[i..], copy[i]) == Keep(copy[..i + 1], p) + copy[i + 1..]
  {
    KeepStep(copy, i, p);
    assert copy[i..] == [copy[i]] + copy[i + 1..];
    RemoveFirstAfter(Keep(copy[..i], p), copy[i], copy[i + 1..]);
  }

  lemma SkipStep(copy: seq<Content>, i: nat, p: Content -> bool)
    requires i < |copy| && p(copy[i])
    ensures Keep(copy[..i], p) + copy[i..] == Keep(copy[..i + 1], p) + copy[i + 1..]
  {
    hide Keep;
    KeepStep(copy, i, p);
    assert copy[i..] == [copy[i]] + copy[i + 1..];
  }

  /** The hidden version of an item; a fresh draft knows no translations. */
  function Hiding(c: Content, policy: Policy): Content {
    if policy.PolicyHide? && policy.drafts then c.(status := Hidden, links := []) else c.(status := Hidden)
  }

  function HideAll(s: seq<Content>, policy: Policy): seq<Content> { Map(s, c => Hiding(c, policy)) }

  /** Content stays when it is native, has no site of its own, or the policy keeps everything. */
  predicate Stays(c: Content, lang: string, sites: set<string>, policy: Policy) {
    c.lang == lang || c.lang !in sites || policy.PolicyKeep?
  }

  function Staying(s: seq<Content>, lang: string, sites: set<string>, policy: Policy): seq<Content> {
    Keep(s, c => Stays(c, lang, sites, policy))
  }

  function Leaving(s: seq<Content>, lang: string, sites: set<string>, policy: Policy): seq<Content> {
    Keep(s, c => !Stays(c, lang, sites, policy))
  }

  function WithoutSite(s: seq<Content>, sites: set<string>): seq<Content> {
    Keep(s, (c: Content) => c.lang !in sites)
  }

  function WithSite(s: seq<Content>, sites: set<string>): seq<Content> {
    Keep(s, (c: Content) => c.lang in sites)
  }

  /** The URLs of native items, later ones of a source replacing earlier ones. */
  function Recorded(db: map<string, string>, s: seq<Content>, lang: string): map<string, string> {
    if s == [] then db
    else
      var before, c := Recorded(db, s[..|s| - 1], lang), s[|s| - 1];
      if c.lang == lang then before[c.source := c.url] else before
  }

  /** The hidden versions of what leaves, and what is handed over, under a policy. */
  function HiddenBy(s: seq<Content>, lang: string, sites: set<string>, policy: Policy): seq<Content> {
    if policy.PolicyHide? then HideAll(Leaving(s, lang, sites, policy), policy) else []
  }

  function RemovedBy(s: seq<Content>, lang: string, sites: set<string>, policy: Policy): seq<Content> {
    if policy.PolicyRemove? then Leaving(s, lang, sites, policy) else []
  }

  function FilteredLists(l: Items, lang: string, sites: set<string>, policy: Policy): Items {
    Items(WithoutSite(l.translations, sites), WithoutSite(l.hiddenTranslations, sites),
          Staying(l.contents, lang, sites, policy),
          l.hidden + HiddenBy(l.contents, lang, sites, policy))
  }

  function RemovedContents(l: Items, lang: string, sites: set<string>, policy: Policy): seq<Content> {
    WithSite(l.translations, sites) + WithSite(l.hiddenTranslations, sites) + RemovedBy(l.contents, lang, sites, policy)
  }

  function NativeUrls(db: map<string, string>, l: Items, lang: string): map<string, string> {
    Recorded(Recorded(db, l.hidden, lang), l.contents, lang)
  }

  lemma TranslationStep(list: seq<Content>, i: nat, sites: set<string>)
    requires i < |list|
    ensures WithoutSite(list[..i + 1], sites) + list[i + 1..] ==
      var before := WithoutSite(list[..i], sites) + list[i..];
      if list[i].lang in sites then RemoveFirst(before, list[i]) else before
    ensures WithSite(list[..i + 1], sites) ==
      WithSite(list[..i], sites) + if list[i].lang in sites then [list[i]] else []
  {
    KeepStep(list, i, (c: Content) => c.lang in sites);
    if list[i].lang in sites {
      RemoveStep(list, i, (c: Content) => c.lang !in sites);
    } else {
      SkipStep(list, i, (c: Content) => c.lang !in sites);
    }
  }

  /** No translation with a site stays; the others stay as often as they occur. */
  ghost predicate TranslationsRight(before: seq<Content>, after: seq<Content>, sites: set<string>) {
    forall c :: multiset(after)[c] == (if c.lang in sites then 0 else multiset(before)[c])
  }

  ghost function SitedCount(s: seq<Content>, sites: set<string>, c: Content): nat {
    if c.lang in sites then multiset(s)[c] else 0
  }

  ghost predicate SitedHandedOver(list: seq<Content>, removed: seq<Content>, nowRemoved: seq<Content>,
                                  sites: set<string>) {
    forall c :: multiset(nowRemoved)[c] == multiset(removed)[c] + SitedCount(list, sites, c)
  }

  lemma TranslationsMean(list: seq<Content>, removed: seq<Content>, sites: set<string>)
    ensures TranslationsRight(list, WithoutSite(list, sites), sites)
    ensures SitedHandedOver(list, removed, removed + WithSite(list, sites), sites)
  {
    forall c
      ensures multiset(WithoutSite(list, sites))[c] == if c.lang in sites then 0 else multiset(list)[c]
      ensures multiset(WithSite(list, sites))[c] == SitedCount(list, sites, c)
    {
      SiteCounts(list, sites, c);
    }
    hide WithSite, WithoutSite;
  }

  lemma HandedOverMeans(l: Items, r0: seq<Content>, r1: seq<Content>, r2: seq<Content>, r3: seq<Content>,
                        lang: string, sites: set<string>, policy: Policy)
    requires SitedHandedOver(l.translations, r0, r1, sites) && SitedHandedOver(l.hiddenTranslations, r1, r2, sites)
    requires GoneRight(l.contents, r2, r3, lang, sites, policy)
    ensures HandedOverRight(l, r0, r3, lang, sites, policy)
  {
  }

  /** The translations with a site are handed over and, under remove, the content that leaves. */
  ghost predicate HandedOverRight(l: Items, removed: seq<Content>, nowRemoved: seq<Content>,
                                  lang: string, sites: set<string>, policy: Policy) {
    forall c :: multiset(nowRemoved)[c] ==
                multiset(removed)[c] +
                SitedCount(l.translations, sites, c) + SitedCount(l.hiddenTranslations, sites, c) +
                (if policy.PolicyRemove? && c.lang != lang then SitedCount(l.contents, sites, c) else 0)
  }

  lemma SiteCounts(s: seq<Content>, sites: set<string>, c: Content)
    ensures multiset(WithoutSite(s, sites))[c] == if c.lang in sites then 0 else multiset(s)[c]
    ensures multiset(WithSite(s, sites))[c] == if c.lang in sites then multiset(s)[c] else 0
  {
    KeepCount(s, (c: Content) => c.lang !in sites, c);
    KeepCount(s, (c: Content) => c.lang in sites, c);
  }

  lemma NothingSieved(list: seq<Content>, sites: set<string>)
    ensures WithoutSite(list[..0], sites) == [] && WithSite(list[..0], sites) == []
  {
  }

  /** The loop over one list of translations. */
  method SieveTranslations(list: seq<Content>, sites: set<string>, removed: seq<Content>)
    returns (translations: seq<Content>, nowRemoved: seq<Content>)
    ensures translations == WithoutSite(list, sites)
    ensures nowRemoved == removed + WithSite(list, sites)
    ensures TranslationsRight(list, translations, sites)
    ensures SitedHandedOver(list, removed, nowRemoved, sites)
  {
    hide TranslationsRight, SitedHandedOver;
    translations, nowRemoved := list, removed;
    NothingSieved(list, sites);
    hide WithoutSite, WithSite, RemoveFirst;
    for i := 0 to |list|
      invariant translations == WithoutSite(list[..i], sites) + list[i..]
      invariant nowRemoved == removed + WithSite(list[..i], sites)
    {
      var translation := list[i];
      TranslationStep(list, i, sites);
      if translation.lang in sites {
        translations := RemoveFirst(translations, translation);
        nowRemoved := nowRemoved + [translation];
      }
    }
    assert list[..|list|] == list;
    TranslationsMean(list, removed, sites);
  }

  /** The loop that saves the URLs of native hidden content. */
  method RecordNative(list: seq<Content>, lang: string, db: map<string, string>) returns (urls: map<string, string>)
    ensures urls == Recorded(db, list, lang)
  {
    urls := db;
    for i := 0 to |list|
      invariant urls == Recorded(db, list[..i], lang)
    {
      assert list[..i + 1][..i] == list[..i];
      if list[i].lang == lang {
        urls := urls[list[i].source := list[i].url];
      }
    }
    assert list[..|list|] == list;
  }

  /** The four results of the loop over normal content. */
  datatype Sieve = Sieve(contents: seq<Content>, hidden: seq<Content>, removed: seq<Content>,
                         urls: map<string, string>)

  /** What they are when the first `i` items of the copied list have been walked. */
  ghost function SieveAt(list: seq<Content>, i: nat, start: Sieve,
                         lang: string, sites: set<string>, policy: Policy): Sieve
    requires i <= |list|
  {
    Sieve(Staying(list[..i], lang, sites, policy) + list[i..],
          start.hidden + HiddenBy(list[..i], lang, sites, policy),
          start.removed + RemovedBy(list[..i], lang, sites, policy),
          Recorded(start.urls, list[..i], lang))
  }

  lemma SieveStep(list: seq<Content>, i: nat, start: Sieve, lang: string, sites: set<string>, policy: Policy)
    requires i < |list|
    ensures var now := SieveAt(list, i, start, lang, sites, policy);
      var next := SieveAt(list, i + 1, start, lang, sites, policy);
      var c := list[i];
      var stays := Stays(c, lang, sites, policy);
      next.contents == (if stays then now.contents else RemoveFirst(now.contents, c)) &&
      next.hidden == (if !stays && policy.PolicyHide? then now.hidden + [Hiding(c, policy)] else now.hidden) &&
      next.removed == (if !stays && policy.PolicyRemove? then now.removed + [c] else now.removed) &&
      next.urls == if c.lang == lang then now.urls[c.source := c.url] else now.urls
  {
    assert list[..i + 1][..i] == list[..i];
    KeepStep(list, i, c => !Stays(c, lang, sites, policy));
    if Stays(list[i], lang, sites, policy) {
      SkipStep(list, i, c => Stays(c, lang, sites, policy));
    } else {
      RemoveStep(list, i, c => Stays(c, lang, sites, policy));
      HidingLast(Leaving(list[..i], lang, sites, policy), list[i], policy);
    }
  }

  lemma HidingLast(s: seq<Content>, c: Content, policy: Policy)
    ensures HideAll(s + [c], policy) == HideAll(s, policy) + [Hiding(c, policy)]
  {
  }

  /** Native content, content without a site and, under keep, everything stays as often as it occurs. */
  ghost predicate KeptRight(before: seq<Content>, after: seq<Content>,
                            lang: string, sites: set<string>, policy: Policy) {
    forall c :: multiset(after)[c] ==
                (if c.lang == lang || c.lang !in sites || policy.PolicyKeep? then multiset(before)[c] else 0)
  }

  /** Under hide each other item comes back hidden, behind what was hidden before. */
  ghost predicate HiddenRight(before: seq<Content>, hidden: seq<Content>, after: seq<Content>, nowHidden: seq<Content>,
                              lang: string, sites: set<string>, policy: Policy) {
    && hidden <= nowHidden
    && |nowHidden| - |hidden| == (if policy.PolicyHide? then |before| - |after| else 0)
    && (policy.PolicyHide? ==> forall c :: c in before && c.lang != lang && c.lang in sites ==>
         Content(c.source, c.lang, c.url, Hidden, if policy.drafts then [] else c.links) in nowHidden[|hidden|..])
  }

  /** Under remove each other item is handed over. */
  ghost predicate GoneRight(before: seq<Content>, removed: seq<Content>, nowRemoved: seq<Content>,
                            lang: string, sites: set<string>, policy: Policy) {
    forall c :: multiset(nowRemoved)[c] == multiset(removed)[c] +
                (if policy.PolicyRemove? && c.lang != lang && c.lang in sites then multiset(before)[c] else 0)
  }

  lemma StayCounts(s: seq<Content>, lang: string, sites: set<string>, policy: Policy, c: Content)
    ensures multiset(Staying(s, lang, sites, policy))[c] ==
      if c.lang == lang || c.lang !in sites || policy.PolicyKeep? then multiset(s)[c] else 0
    ensures multiset(Leaving(s, lang, sites, policy))[c] ==
      if c.lang == lang || c.lang !in sites || policy.PolicyKeep? then 0 else multiset(s)[c]
  {
    KeepCount(s, c => Stays(c, lang, sites, policy), c);
    KeepCount(s, c => !Stays(c, lang, sites, policy), c);
  }

  lemma KeptMeans(s: seq<Content>, lang: string, sites: set<string>, policy: Policy)
    ensures KeptRight(s, Staying(s, lang, sites, policy), lang, sites, policy)
  {
    forall c ensures multiset(Staying(s, lang, sites, policy))[c] ==
      if c.lang == lang || c.lang !in sites || policy.PolicyKeep? then multiset(s)[c] else 0
    {
      StayCounts(s, lang, sites, policy, c);
    }
  }

  lemma HiddenMeans(s: seq<Content>, hidden: seq<Content>, lang: string, sites: set<string>, policy: Policy)
    ensures HiddenRight(s, hidden, Staying(s, lang, sites, policy), hidden + HiddenBy(s, lang, sites, policy),
                        lang, sites, policy)
  {
    var gone := Leaving(s, lang, sites, policy);
    StaySplits(s, lang, sites, policy);
    hide Staying, Leaving;
    if policy.PolicyHide? {
      forall c | c in s && c.lang != lang && c.lang in sites
        ensures Content(c.source, c.lang, c.url, Hidden, if policy.drafts then [] else c.links) in HideAll(gone, policy)
      {
        StayCounts(s, lang, sites, policy, c);
        assert c in multiset(s) && c in multiset(gone) && c in gone;
        var i :| 0 <= i < |gone| && gone[i] == c;
        assert HideAll(gone, policy)[i] == Hiding(c, policy);
      }
    }
    assert (hidden + HiddenBy(s, lang, sites, policy))[|hidden|..] == HiddenBy(s, lang, sites, policy);
  }

  lemma GoneMeans(s: seq<Content>, removed: seq<Content>, lang: string, sites: set<string>, policy: Policy)
    ensures GoneRight(s, removed, removed + RemovedBy(s, lang, sites, policy), lang, sites, policy)
  {
    hide Staying, Leaving;
    forall c ensures multiset(removed + RemovedBy(s, lang, sites, policy))[c] == multiset(removed)[c] +
      if policy.PolicyRemove? && c.lang != lang && c.lang in sites then multiset(s)[c] else 0
    {
      StayCounts(s, lang, sites, policy, c);
    }
  }

  /** The last native item of a source decides its URL. */
  ghost predicate UrlsRight(db: map<string, string>, l: Items, lang: string, urls: map<string, string>) {
    && (forall x :: x in urls <==> x in db || exists c :: c in l.hidden + l.contents && c.lang == lang && c.source == x)
    && (forall i :: 0 <= i < |l.contents| && l.contents[i].lang == lang && IsLastOf(l.contents, i) ==>
         urls[l.contents[i].source] == l.contents[i].url)
  }

  /** No later item of the same source has the same language. */
  ghost predicate IsLastOf(s: seq<Content>, i: nat)
    requires i < |s|
  {
    forall j :: i < j < |s| ==> s[j].source != s[i].source || s[j].lang != s[i].lang
  }

  lemma {:induction false} LastRecorded(db: map<string, string>, s: seq<Content>, lang: string, i: nat)
    requires i < |s| && s[i].lang == lang && IsLastOf(s, i)
    ensures s[i].source in Recorded(db, s, lang) && Recorded(db, s, lang)[s[i].source] == s[i].url
  {
    if i < |s| - 1 {
      LastRecorded(db, s[..|s| - 1], lang, i);
    }
  }

  lemma UrlsMean(db: map<string, string>, l: Items, lang: string)
    ensures UrlsRight(db, l, lang, NativeUrls(db, l, lang))
  {
    NativeSources(db, l, lang);
    forall i | 0 <= i < |l.contents| && l.contents[i].lang == lang && IsLastOf(l.contents, i)
      ensures NativeUrls(db, l, lang)[l.contents[i].source] == l.contents[i].url
    {
      assert l.contents[i] in l.hidden + l.contents;
      LastRecorded(Recorded(db, l.hidden, lang), l.contents, lang, i);
    }
  }

  /** The loop over normal content: native URLs are saved, foreign content hidden or removed. */
  method SieveContents(start: Sieve, lang: string, sites: set<string>, policy: Policy) returns (end: Sieve)
    ensures end == Sieve(Staying(start.contents, lang, sites, policy),
                         start.hidden + HiddenBy(start.contents, lang, sites, policy),
                         start.removed + RemovedBy(start.contents, lang, sites, policy),
                         Recorded(start.urls, start.contents, lang))
    ensures KeptRight(start.contents, end.contents, lang, sites, policy)
    ensures HiddenRight(start.contents, start.hidden, end.contents, end.hidden, lang, sites, policy)
    ensures GoneRight(start.contents, start.removed, end.removed, lang, sites, policy)
  {
    var list := start.contents;
    var contents, hidden, removed, urls := list, start.hidden, start.removed, start.urls;
    assert list[..0] == [];
    for i := 0 to |list|
      invariant Sieve(contents, hidden, removed, urls) == SieveAt(list, i, start, lang, sites, policy)
    {
      hide SieveAt, RemoveFirst, Hiding;
      var content := list[i];
      SieveStep(list, i, start, lang, sites, policy);
      if content.lang == lang {
        urls := urls[content.source := content.url];
      } else if content.lang in sites && !policy.PolicyKeep? {
        contents := RemoveFirst(contents, content);
        if policy.PolicyHide? {
          hidden := hidden + [Hiding(content, policy)];
        } else if policy.PolicyRemove? {
          removed := removed + [content];
        }
      }
    }
    assert list[..|list|] == list;
    end := Sieve(contents, hidden, removed, urls);
    hide *;
    KeptMeans(list, lang, sites, policy);
    HiddenMeans(list, start.hidden, lang, sites, policy);
    GoneMeans(list, start.removed, lang, sites, policy);
  }

  /** `filter_contents_translations` as a change of the lists. */
  method FilterLists(l: Items, lang: string, sites: set<string>, policy: Policy, removed: seq<Content>,
                     db: map<string, string>)
    returns (kept: Items, nowRemoved: seq<Content>, urls: map<string, string>)
    ensures kept == FilteredLists(l, lang, sites, policy)
    ensures nowRemoved == removed + RemovedContents(l, lang, sites, policy)
    ensures urls == NativeUrls(db, l, lang) && UrlsRight(db, l, lang, urls)
    ensures TranslationsRight(l.translations, kept.translations, sites)
    ensures TranslationsRight(l.hiddenTranslations, kept.hiddenTranslations, sites)
    ensures KeptRight(l.contents, kept.contents, lang, sites, policy)
    ensures HiddenRight(l.contents, l.hidden, kept.contents, kept.hidden, lang, sites, policy)
    ensures HandedOverRight(l, removed, nowRemoved, lang, sites, policy)
  {
    hide KeptRight, HiddenRight, GoneRight, HandedOverRight, TranslationsRight, SitedHandedOver, UrlsRight;
    hide WithoutSite, WithSite, Staying, HiddenBy, RemovedBy, Recorded;
    var translations, r1 := SieveTranslations(l.translations, sites, removed);
    var hiddenTranslations, r2 := SieveTranslations(l.hiddenTranslations, sites, r1);
    var urls1 := RecordNative(l.hidden, lang, db);
    var s := SieveContents(Sieve(l.contents, l.hidden, r2, urls1), lang, sites, policy);
    UrlsMean(db, l, lang);
    HandedOverMeans(l, removed, r1, r2, s.removed, lang, sites, policy);
    return Items(translations, hiddenTranslations, s.contents, s.hidden), s.removed, s.urls;
  }

  // ---------------------------------------------------------------- what the filter means

  function AllContents(l: Items): seq<Content> {
    l.translations + l.hiddenTranslations + l.contents + l.hidden
  }

  lemma SiteSplits(s: seq<Content>, sites: set<string>)
    ensures multiset(WithoutSite(s, sites)) + multiset(WithSite(s, sites)) == multiset(s)
    ensures |WithoutSite(s, sites)| + |WithSite(s, sites)| == |s|
  {
    KeepSplits(s, (c: Content) => c.lang !in sites, (c: Content) => c.lang in sites);
  }

  lemma StaySplits(s: seq<Content>, lang: string, sites: set<string>, policy: Policy)
    ensures multiset(Staying(s, lang, sites, policy)) + multiset(Leaving(s, lang, sites, policy)) == multiset(s)
    ensures |Staying(s, lang, sites, policy)| + |Leaving(s, lang, sites, policy)| == |s|
    ensures policy.PolicyKeep? ==> Leaving(s, lang, sites, policy) == []
  {
    KeepSplits(s, c => Stays(c, lang, sites, policy), c => !Stays(c, lang, sites, policy));
    var gone := Leaving(s, lang, sites, policy);
    if |gone| > 0 {
      assert gone[0] in gone;
    }
  }

  /**
   Nothing is lost or doubled under the three policies: every translation and every item of
   normal content is, as often as it occurred, kept, newly hidden or removed.
   */
  lemma EveryItemAccounted(l: Items, lang: string, sites: set<string>, policy: Policy)
    ensures var k, r := FilteredLists(l, lang, sites, policy), RemovedContents(l, lang, sites, policy);
      var gone := Leaving(l.contents, lang, sites, policy);
      k.hidden == l.hidden + (if policy.PolicyHide? then HideAll(gone, policy) else []) &&
      multiset(k.translations) + multiset(k.hiddenTranslations) + multiset(k.contents) +
        (if policy.PolicyRemove? then multiset{} else multiset(gone)) + multiset(r) ==
        multiset(l.translations) + multiset(l.hiddenTranslations) + multiset(l.contents)
    ensures policy.PolicyKeep? ==> Leaving(l.contents, lang, sites, policy) == []
  {
    hide WithoutSite, WithSite, Staying, Leaving;
    SiteSplits(l.translations, sites);
    SiteSplits(l.hiddenTranslations, sites);
    StaySplits(l.contents, lang, sites, policy);
    var a, b, gone := WithSite(l.translations, sites), WithSite(l.hiddenTranslations, sites),
      RemovedBy(l.contents, lang, sites, policy);
    assert multiset(a + b + gone) == multiset(a) + multiset(b) + multiset(gone);
  }

  /**
   As many items come out as went in exactly when the policy is one of the three words or
   nothing has to leave; under any other word the leaving items are dropped.
   */
  lemma NothingDroppedIff(l: Items, lang: string, sites: set<string>, policy: Policy)
    ensures var out := |AllContents(FilteredLists(l, lang, sites, policy))| + |RemovedContents(l, lang, sites, policy)|;
      out == |AllContents(l)| <==> !policy.PolicyOther? || Leaving(l.contents, lang, sites, policy) == []
  {
    hide WithoutSite, WithSite, Staying, Leaving;
    SiteSplits(l.translations, sites);
    SiteSplits(l.hiddenTranslations, sites);
    StaySplits(l.contents, lang, sites, policy);
  }

  /** A French page on an English site, with a misspelt policy, is nowhere after the filter. */
  lemma MisspeltPolicyDrops(page: Content)
    requires page.lang == "fr"
    ensures var l := Items([], [], [page], []);
      AllContents(FilteredLists(l, "en", {"en", "fr"}, PolicyOther)) == [] &&
      RemovedContents(l, "en", {"en", "fr"}, PolicyOther) == []
  {
    assert [page][..0] == [];
    var sites := {"en", "fr"};
    assert Staying([page], "en", sites, PolicyOther) == Staying([page][..0], "en", sites, PolicyOther) == [];
  }

  /** Removed items always have a language with a site. */
  lemma RemovedHaveSite(l: Items, lang: string, sites: set<string>, policy: Policy)
    ensures forall c :: c in RemovedContents(l, lang, sites, policy) ==> c.lang in sites && c in AllContents(l)
  {
  }

  lemma {:induction false} RecordedSources(db: map<string, string>, s: seq<Content>, lang: string)
    ensures forall x :: x in Recorded(db, s, lang) <==> x in db || exists c :: c in s && c.lang == lang && c.source == x
  {
    if s != [] {
      RecordedSources(db, s[..|s| - 1], lang);
      assert s == s[..|s| - 1] + [s[|s| - 1]];
    }
  }

  /** The saved URLs are those of the native items, hidden or not, on top of what was saved before. */
  lemma NativeSources(db: map<string, string>, l: Items, lang: string)
    ensures forall x :: x in NativeUrls(db, l, lang) <==>
      x in db || exists c :: c in l.hidden + l.contents && c.lang == lang && c.source == x
  {
    RecordedSources(db, l.hidden, lang);
    RecordedSources(Recorded(db, l.hidden, lang), l.contents, lang);
  }

  /** The last native item of a source, in the order the loops walk hidden and normal content. */
  ghost function LastNative(s: seq<Content>, lang: string, source: string): Option<Content> {
    LastWhere(s, (c: Content) => c.lang == lang && c.source == source)
  }

  lemma {:induction false} RecordedUrl(db: map<string, string>, s: seq<Content>, lang: string, source: string)
    ensures var c := LastNative(s, lang, source);
      if c.Some? then source in Recorded(db, s, lang) && Recorded(db, s, lang)[source] == c.value.url
      else source in Recorded(db, s, lang) <==> source in db
    ensures LastNative(s, lang, source).None? && source in db ==> Recorded(db, s, lang)[source] == db[source]
  {
    if s != [] {
      RecordedUrl(db, s[..|s| - 1], lang, source);
    }
  }

  /** The saved URL of a source is that of its last native item, normal before hidden. */
  lemma NativeUrlIsLast(db: map<string, string>, l: Items, lang: string, source: string)
    ensures var urls := NativeUrls(db, l, lang);
      var normal, hidden := LastNative(l.contents, lang, source), LastNative(l.hidden, lang, source);
      if normal.Some? then source in urls && urls[source] == normal.value.url
      else if hidden.Some? then source in urls && urls[source] == hidden.value.url
      else (source in urls <==> source in db) && (source in db ==> urls[source] == db[source])
  {
    RecordedUrl(db, l.hidden, lang, source);
    RecordedUrl(Recorded(db, l.hidden, lang), l.contents, lang, source);
  }
}
