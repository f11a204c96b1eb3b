/**
 The nested build of one site per language. Each site reads its sources and filters them;
 before it is written it first builds the next queued site; the innermost one links the
 sites to each other; then all are written, innermost first.
 */
module SubsiteBuild {
  import opened Lists
  import opened ContentFilter

  /** What one content generator of a site reads, and its policy setting. */
  datatype Input = Input(items: Items, policy: Policy)

  /** For each language what the generators of its site read. */
  type Reading = map<string, seq<Input>>

  /** What happens in a build; the sites are filtered and written under some locale. */
  datatype Event = Initialized | Filtered(lang: string, locale: string) | LinksUpdated |
    Written(lang: string, locale: string)

  /**
   A generator in `_GENERATOR_DB`: the language of its site, what it read, what its lists hold
   now and what it has handed over.
   */
  datatype Generator = Generator(lang: string, input: Input, items: Items, removed: seq<Content>)

  // ---------------------------------------------------------------- what is read and found

  /** The sites of a build: the main language and the queued ones. */
  ghost function SitesOf(main: string, queue: seq<string>): set<string> { {main} + Range(queue) }

  /** All inputs of the sites of some languages, each with its language. */
  ghost function InputsOf(reading: Reading, langs: set<string>): set<(string, Input)> {
    set l, i | l in langs && l in reading && i in reading[l] :: (l, i)
  }

  /** Some input holds `source` as native content. */
  ghost predicate IsNative(inputs: set<(string, Input)>, source: string) {
    exists p, c :: p in inputs && c in p.1.items.hidden + p.1.items.contents && c.lang == p.0 && c.source == source
  }

  ghost function Kept(p: (string, Input), sites: set<string>): Items {
    FilteredLists(p.1.items, p.0, sites, p.1.policy)
  }

  ghost function HandedOver(p: (string, Input), sites: set<string>): seq<Content> {
    RemovedContents(p.1.items, p.0, sites, p.1.policy)
  }

  /** Every look-up of a native URL for a removed item succeeds. */
  ghost predicate RemovedFound(reading: Reading, sites: set<string>) {
    forall p, c :: p in InputsOf(reading, sites) && c in HandedOver(p, sites) ==>
      IsNative(InputsOf(reading, sites), c.source)
  }

  /** Every look-up for a translation of an item that is still in some list succeeds. */
  ghost predicate LinksFound(reading: Reading, sites: set<string>) {
    forall p, c, l :: p in InputsOf(reading, sites) && c in AllContents(Kept(p, sites)) && l in c.links ==>
      IsNative(InputsOf(reading, sites), l.source)
  }

  /**
   All sites read the same sources: a source file has one language, whoever reads or links it,
   and the site of that language, if there is one, holds it in its normal or hidden lists.
   */
  ghost predicate SameSources(reading: Reading, sites: set<string>, catalogue: map<string, string>) {
    && (forall p, c :: p in InputsOf(reading, sites) && c in AllContents(p.1.items) ==>
         c.source in catalogue && catalogue[c.source] == c.lang)
    && (forall p, c, l :: p in InputsOf(reading, sites) && c in AllContents(p.1.items) && l in c.links ==>
         l.source in catalogue && catalogue[l.source] == l.lang)
    && (forall x :: x in catalogue && catalogue[x] in sites ==> IsNative(InputsOf(reading, sites), x))
  }

  /** Every listed translation of an item still in some list has a language with a site. */
  ghost predicate LinksHaveSites(reading: Reading, sites: set<string>) {
    forall p, c, l :: p in InputsOf(reading, sites) && c in AllContents(Kept(p, sites)) && l in c.links ==>
      l.lang in sites
  }

  /** Native sources are those whose language has a site. */
  lemma NativeIffSite(reading: Reading, sites: set<string>, catalogue: map<string, string>, x: string)
    requires SameSources(reading, sites, catalogue) && x in catalogue
    ensures IsNative(InputsOf(reading, sites), x) <==> catalogue[x] in sites
  {
    if IsNative(InputsOf(reading, sites), x) {
      var p, c :| p in InputsOf(reading, sites) && c in p.1.items.hidden + p.1.items.contents &&
        c.lang == p.0 && c.source == x;
      assert c in AllContents(p.1.items);
    }
  }

  /** The native-URL look-up for removed content never misses. */
  lemma RemovedAlwaysFound(reading: Reading, sites: set<string>, catalogue: map<string, string>)
    requires SameSources(reading, sites, catalogue)
    ensures RemovedFound(reading, sites)
  {
    forall p, c | p in InputsOf(reading, sites) && c in HandedOver(p, sites)
      ensures IsNative(InputsOf(reading, sites), c.source)
    {
      RemovedHaveSite(p.1.items, p.0, sites, p.1.policy);
      NativeIffSite(reading, sites, catalogue, c.source);
    }
  }

  /** An item in a filtered list comes from an item read, with the same or no translations. */
  lemma KeptFromRead(l: Items, lang: string, sites: set<string>, policy: Policy, c: Content)
    requires c in AllContents(FilteredLists(l, lang, sites, policy))
    ensures exists d :: d in AllContents(l) && forall k :: k in c.links ==> k in d.links
  {
    if c in HiddenBy(l.contents, lang, sites, policy) {
      var gone := Leaving(l.contents, lang, sites, policy);
      var i :| 0 <= i < |gone| && HideAll(gone, policy)[i] == c;
      assert gone[i] in gone && gone[i] in AllContents(l);
    } else {
      assert c in AllContents(l);
    }
  }

  /** The look-up for translations misses exactly when one of them has no site. */
  lemma LinksFoundIff(reading: Reading, sites: set<string>, catalogue: map<string, string>)
    requires SameSources(reading, sites, catalogue)
    ensures LinksFound(reading, sites) <==> LinksHaveSites(reading, sites)
  {
    forall p, c, l | p in InputsOf(reading, sites) && c in AllContents(Kept(p, sites)) && l in c.links
      ensures IsNative(InputsOf(reading, sites), l.source) <==> l.lang in sites
    {
      KeptFromRead(p.1.items, p.0, sites, p.1.policy, c);
      var d :| d in AllContents(p.1.items) && forall k :: k in c.links ==> k in d.links;
      NativeIffSite(reading, sites, catalogue, l.source);
    }
  }

  /**
   A build stops at the link of any item that stays in a list: of hidden content, of content in
   the language of its site or in one without a site, of translations without a site.
   */
  lemma UnsitedLinkStops(reading: Reading, sites: set<string>, lang: string, input: Input, c: Content, k: Link)
    requires lang in sites && lang in reading && input in reading[lang] && k in c.links && k.lang !in sites
    requires c in input.items.hidden || (c in input.items.contents && (c.lang == lang || c.lang !in sites)) ||
      (c in input.items.translations + input.items.hiddenTranslations && c.lang !in sites)
    ensures !LinksHaveSites(reading, sites)
  {
    var p := (lang, input);
    assert p in InputsOf(reading, sites);
    assert c in AllContents(Kept(p, sites));
  }

  /** Some generator of some site reads the item into one of its four lists. */
  ghost predicate IsRead(reading: Reading, sites: set<string>, c: Content) {
    exists l, i :: l in sites && l in reading && i in reading[l] && HasItem(i, c)
  }

  ghost predicate HasItem(i: Input, c: Content) {
    c in i.items.translations || c in i.items.hiddenTranslations || c in i.items.contents || c in i.items.hidden
  }

  /** A build without links to languages without a site passes. */
  lemma SitedLinksPass(reading: Reading, sites: set<string>)
    requires forall c: Content, k: Link :: IsRead(reading, sites, c) && k in c.links ==> k.lang in sites
    ensures LinksHaveSites(reading, sites)
  {
    forall p, c, k | p in InputsOf(reading, sites) && c in AllContents(Kept(p, sites)) && k in c.links
      ensures k.lang in sites
    {
      KeptFromRead(p.1.items, p.0, sites, p.1.policy, c);
      var d :| d in AllContents(p.1.items) && forall j :: j in c.links ==> j in d.links;
      assert HasItem(p.1, d);
      assert IsRead(reading, sites, d);
    }
  }

  /** One English page with a French translation, on a web site without a French part. */
  ghost function UnsitedPage(): Content {
    Content("page", "en", "page.html", Normal, [Link("page-fr", "fr")])
  }

  ghost function ItsTranslation(): Content {
    Content("page-fr", "fr", "page-fr.html", Normal, [Link("page", "en")])
  }

  /** The generator of the English site holds the French page among its translations. */
  ghost function UnsitedInput(): Input { Input(Items([ItsTranslation()], [], [UnsitedPage()], []), PolicyKeep) }

  lemma UnsitedSources(reading: Reading)
    requires reading == map["en" := [UnsitedInput()]]
    ensures SameSources(reading, {"en"}, map["page" := "en", "page-fr" := "fr"])
  {
    var p := ("en", UnsitedInput());
    OneInput(reading, UnsitedInput());
    hide InputsOf;
    assert AllContents(p.1.items) == [ItsTranslation(), UnsitedPage()];
    assert UnsitedPage() in p.1.items.hidden + p.1.items.contents;
    assert IsNative(InputsOf(reading, {"en"}), UnsitedPage().source);
  }

  /** The look-up of the translation's URL misses, although all sites read the same sources. */
  lemma UnsitedTranslationMisses(reading: Reading)
    requires reading == map["en" := [UnsitedInput()]]
    ensures SameSources(reading, {"en"}, map["page" := "en", "page-fr" := "fr"])
    ensures ItsTranslation() in AllContents(Kept(("en", UnsitedInput()), {"en"})) && !LinksFound(reading, {"en"})
  {
    var p := ("en", UnsitedInput());
    OneInput(reading, UnsitedInput());
    BothPagesStay(ItsTranslation(), UnsitedPage(), {"en"});
    UnsitedSources(reading);
    LinksFoundIff(reading, {"en"}, map["page" := "en", "page-fr" := "fr"]);
    hide FilteredLists, InputsOf, LinksFound, SameSources, AllContents;
    assert UnsitedPage() in AllContents(Kept(p, {"en"})) && UnsitedPage().links[0] in UnsitedPage().links;
  }

  lemma OneInput(reading: Reading, input: Input)
    requires reading == map["en" := [input]]
    ensures InputsOf(reading, {"en"}) == {("en", input)}
  {
    assert input in reading["en"];
  }

  lemma BothPagesStay(translation: Content, page: Content, sites: set<string>)
    requires page.lang == "en" && translation.lang !in sites
    ensures page in AllContents(FilteredLists(Items([translation], [], [page], []), "en", sites, PolicyKeep))
    ensures translation in AllContents(FilteredLists(Items([translation], [], [page], []), "en", sites, PolicyKeep))
  {
    assert page in Staying([page], "en", sites, PolicyKeep);
    assert translation in WithoutSite([translation], sites);
  }

  // ---------------------------------------------------------------- order of events

  /** The events of building the site of `lang` under `locale` with `queue` still to come. */
  ghost function Expected(lang: string, locale: string, queue: seq<string>): seq<Event>
    decreases |queue|, 1
  {
    [Filtered(lang, locale)] + ExpectedNext(queue) + [Written(lang, locale)]
  }

  /** A queued site is built under its own locale. */
  ghost function ExpectedNext(queue: seq<string>): seq<Event>
    decreases |queue|, 0
  {
    if queue == [] then [LinksUpdated]
    else Expected(queue[|queue| - 1], queue[|queue| - 1], queue[..|queue| - 1])
  }

  /**
   The places of the events: first the main site is filtered, then the queued ones from the last
   to the first; then the links are updated; then the queued sites are written from the first to
   the last, and the main site last. The main site has the locale of the caller, every other one
   its own.
   */
  ghost predicate WellOrdered(events: seq<Event>, main: string, locale: string, queue: seq<string>) {
    && |events| == 2 * |queue| + 3
    && events[0] == Filtered(main, locale)
    && (forall i :: 0 <= i < |queue| ==> events[|queue| - i] == Filtered(queue[i], queue[i]))
    && events[|queue| + 1] == LinksUpdated
    && (forall i :: 0 <= i < |queue| ==> events[|queue| + 2 + i] == Written(queue[i], queue[i]))
    && events[2 * |queue| + 2] == Written(main, locale)
  }

  /**
   Every site is filtered once and written once; the links are updated once, after the last
   site has been filtered and before the first one is written.
   */
  lemma {:induction false} ExpectedShape(lang: string, locale: string, queue: seq<string>)
    ensures WellOrdered(Expected(lang, locale, queue), lang, locale, queue)
    decreases |queue|
  {
    if queue != [] {
      var last, rest := queue[|queue| - 1], queue[..|queue| - 1];
      var n := |rest|;
      ExpectedShape(last, last, rest);
      var inner, events := Expected(last, last, rest), Expected(lang, locale, queue);
      assert ExpectedNext(queue) == inner;
      assert events == [Filtered(lang, locale)] + ExpectedNext(queue) + [Written(lang, locale)];
      hide Expected;
      forall i | 0 <= i < |queue| ensures events[|queue| - i] == Filtered(queue[i], queue[i]) {
        assert events[|queue| - i] == inner[n - i];
        if i < n { assert rest[i] == queue[i]; }
      }
      forall i | 0 <= i < |queue| ensures events[|queue| + 2 + i] == Written(queue[i], queue[i]) {
        assert events[|queue| + 2 + i] == inner[n + 2 + i];
        if i < n { assert rest[i] == queue[i]; }
      }
      assert events[|queue| + 1] == inner[n + 1];
    }
  }

  // ---------------------------------------------------------------- look-ups

  /** `interlink_removed_content`; false stands for the KeyError of a missing source. */
  method InterlinkRemoved(removed: seq<Content>, urls: map<string, string>) returns (ok: bool)
    ensures ok <==> forall c :: c in removed ==> c.source in urls
  {
    for i := 0 to |removed|
      invariant forall c :: c in removed[..i] ==> c.source in urls
    {
      assert removed[i] in removed;
      if removed[i].source !in urls { return false; }
      assert removed[..i + 1] == removed[..i] + [removed[i]];
    }
    assert removed[..|removed|] == removed;
    return true;
  }

  /** `interlink_translated_content`. */
  method InterlinkTranslated(items: Items, urls: map<string, string>) returns (ok: bool)
    ensures ok <==> forall c, l :: c in AllContents(items) && l in c.links ==> l.source in urls
  {
    var all := AllContents(items);
    for i := 0 to |all|
      invariant forall c, l :: c in all[..i] && l in c.links ==> l.source in urls
    {
      var links := all[i].links;
      assert all[i] in all;
      for j := 0 to |links|
        invariant forall l :: l in links[..j] ==> l.source in urls
      {
        assert links[j] in links;
        if links[j].source !in urls { return false; }
        assert links[..j + 1] == links[..j] + [links[j]];
      }
      assert links[..|links|] == links;
      assert all[..i + 1] == all[..i] + [all[i]];
    }
    assert all[..|all|] == all;
    return true;
  }

  // ---------------------------------------------------------------- the build

  ghost function Pair(g: Generator): (string, Input) { (g.lang, g.input) }

  ghost predicate FilteredGenerator(g: Generator, sites: set<string>) {
    g.items == Kept(Pair(g), sites) && g.removed == HandedOver(Pair(g), sites)
  }

  /** The generators are those of the inputs, all filtered. */
  ghost predicate GeneratorsFit(generators: seq<Generator>, sites: set<string>, inputs: set<(string, Input)>) {
    && (forall g :: g in generators ==> FilteredGenerator(g, sites) && Pair(g) in inputs)
    && (forall p :: p in inputs ==> exists g :: g in generators && Pair(g) == p)
  }

  ghost predicate UrlsFit(urls: map<string, string>, inputs: set<(string, Input)>) {
    forall x :: x in urls <==> IsNative(inputs, x)
  }

  /** The URLs saved after one more input are those of one more covered input. */
  lemma NativeGrows(covered: set<(string, Input)>, db: map<string, string>, lang: string, input: Input)
    requires UrlsFit(db, covered)
    ensures UrlsFit(NativeUrls(db, input.items, lang), covered + {(lang, input)})
  {
    NativeSources(db, input.items, lang);
    forall x ensures IsNative(covered + {(lang, input)}, x) <==> IsNative(covered, x) || NativeIn(input, lang, x) {
      if NativeIn(input, lang, x) {
        assert (lang, input) in covered + {(lang, input)};
      }
    }
  }

  ghost predicate NativeIn(input: Input, lang: string, source: string) {
    exists c :: c in input.items.hidden + input.items.contents && c.lang == lang && c.source == source
  }

  lemma GeneratorsGrow(generators: seq<Generator>, sites: set<string>, inputs: set<(string, Input)>, g: Generator)
    requires GeneratorsFit(generators, sites, inputs) && FilteredGenerator(g, sites)
    ensures GeneratorsFit(generators + [g], sites, inputs + {Pair(g)})
  {
    assert g in generators + [g];
    forall p | p in inputs + {Pair(g)} ensures exists h :: h in generators + [g] && Pair(h) == p {
      if p in inputs {
        var h :| h in generators && Pair(h) == p;
        assert h in generators + [g];
      }
    }
  }

  class Plugin {
    /** `_MAIN_SETTINGS` is set. */
    var active: bool
    /** The queue of languages still to build; `popitem` takes the last. */
    var queue: seq<string>
    /** The keys of `_SITE_DB`. */
    var sites: set<string>
    var nativeUrls: map<string, string>
    var generators: seq<Generator>
    var locale: string
    ghost var log: seq<Event>
    /** The inputs that have been filtered in this build. */
    ghost var covered: set<(string, Input)>

    constructor (locale: string)
      ensures !active && log == [] && this.locale == locale
    {
      active, queue, sites, nativeUrls, generators := false, [], {}, map[], [];
      this.locale, log, covered := locale, [], {};
    }

    /** The databases are those of the covered inputs. */
    ghost predicate Covers()
      reads this
    {
      GeneratorsFit(generators, sites, covered) && UrlsFit(nativeUrls, covered)
    }

    /** `initialize_plugin`: only the first site of a build sets the databases up. */
    method InitializePlugin(lang: string, subsites: seq<string>)
      requires active ==> Covers()
      modifies this
      ensures active && locale == old(locale) && Covers()
      ensures old(active) ==> unchanged(this)
      ensures !old(active) ==> queue == subsites && sites == SitesOf(lang, subsites)
      ensures !old(active) ==> covered == {} && log == old(log) + [Initialized]
    {
      if !active {
        active, queue, sites := true, subsites, {lang} + set l | l in subsites;
        nativeUrls, generators := map[], [];
        covered, log := {}, log + [Initialized];
      }
    }

    /** `save_generator` and `filter_contents_translations` for one generator. */
    method FilterGenerator(lang: string, input: Input)
      requires Covers()
      modifies this`generators, this`nativeUrls, this`covered
      ensures Covers() && covered == old(covered) + {(lang, input)}
    {
      hide GeneratorsFit, UrlsFit, FilteredLists, RemovedContents, NativeUrls;
      NativeGrows(covered, nativeUrls, lang, input);
      var g := Generator(lang, input, input.items, []);
      var items, removed, urls := FilterLists(g.items, g.lang, sites, g.input.policy, g.removed, nativeUrls);
      g := g.(items := items, removed := removed);
      assert [] + HandedOver(Pair(g), sites) == HandedOver(Pair(g), sites);
      GeneratorsGrow(generators, sites, covered, g);
      generators, nativeUrls := generators + [g], urls;
      covered := covered + {Pair(g)};
    }

    /** All generators of one site are saved and filtered. */
    method FilterSite(lang: string, inputs: seq<Input>)
      requires Covers()
      modifies this`generators, this`nativeUrls, this`covered
      ensures Covers() && covered == old(covered) + set i | i in inputs :: (lang, i)
    {
      hide GeneratorsFit, UrlsFit;
      for k := 0 to |inputs|
        invariant Covers() && covered == old(covered) + set i | i in inputs[..k] :: (lang, i)
      {
        FilterGenerator(lang, inputs[k]);
        assert inputs[..k + 1] == inputs[..k] + [inputs[k]];
      }
      assert inputs[..|inputs|] == inputs;
    }

    /** `update_generators`, as far as it looks native URLs up. */
    method UpdateGenerators() returns (ok: bool)
      requires Covers()
      ensures ok <==> forall g :: g in generators ==> Resolves(g, nativeUrls)
    {
      for k := 0 to |generators|
        invariant forall g :: g in generators[..k] ==> Resolves(g, nativeUrls)
      {
        var g := generators[k];
        assert g in generators;
        ok := InterlinkRemoved(g.removed, nativeUrls);
        if !ok { return false; }
        ok := InterlinkTranslated(g.items, nativeUrls);
        if !ok { return false; }
        assert generators[..k + 1] == generators[..k] + [g];
      }
      assert generators[..|generators|] == generators;
      return true;
    }

    /** The languages that still have to be built, and the inputs covered so far, make up the build. */
    ghost predicate Underway(reading: Reading, todo: set<string>, done: set<string>)
      reads this
    {
      active && Covers() && sites <= reading.Keys && done + todo == sites && covered == InputsOf(reading, done)
    }

    /**
     One run of the site generator for `lang`, after its plugin was initialized. It fails exactly
     when some look-up misses, wherever that happens; otherwise the remaining queue is built, the
     events are the expected ones and the locale is what it was.
     */
    method BuildSite(lang: string, reading: Reading, ghost done: set<string>) returns (ok: bool)
      requires Underway(reading, {lang} + Range(queue), done)
      modifies this
      ensures ok <==> RemovedFound(reading, old(sites)) && LinksFound(reading, old(sites))
      ensures ok ==> !active && queue == [] && locale == old(locale)
      ensures ok ==> log == old(log) + Expected(lang, old(locale), old(queue))
      ensures ok ==> sites == old(sites) && Covers() && covered == InputsOf(reading, sites)
      decreases |queue|, 1
    {
      hide GeneratorsFit, UrlsFit, InputsOf, RemovedFound, LinksFound;
      InputsAdd(reading, done, lang);
      FilterSite(lang, reading[lang]);
      log := log + [Filtered(lang, locale)];
      ok := CreateNextSubsite(reading, done + {lang});
      if ok {
        log := log + [Written(lang, locale)];
      }
    }

    /** `create_next_subsite`: the next site in the queue, or, after the last, the links. */
    method CreateNextSubsite(reading: Reading, ghost done: set<string>) returns (ok: bool)
      requires Underway(reading, Range(queue), done)
      modifies this
      ensures ok <==> RemovedFound(reading, old(sites)) && LinksFound(reading, old(sites))
      ensures ok ==> !active && queue == [] && locale == old(locale)
      ensures ok ==> log == old(log) + ExpectedNext(old(queue))
      ensures ok ==> sites == old(sites) && Covers() && covered == InputsOf(reading, sites)
      decreases |queue|, 0
    {
      hide GeneratorsFit, UrlsFit, InputsOf, RemovedFound, LinksFound;
      if |queue| == 0 {
        assert done == sites;
        ok := UpdateGenerators();
        ResolvesMeansFound(generators, nativeUrls, sites, reading);
        if ok {
          active := false;
          log := log + [LinksUpdated];
        }
      } else {
        var origLocale := locale;
        var lang := queue[|queue| - 1];
        RangeLast(queue);
        queue := queue[..|queue| - 1];
        locale := lang;
        InitializePlugin(lang, []);
        ok := BuildSite(lang, reading, done);
        if ok { locale := origLocale; }
      }
    }

    /**
     A whole build from the main site. With the same sources everywhere it succeeds exactly when
     no listed translation is in a language without a site; then every site is filtered and
     written once, the links are updated once in between, and the locale is back.
     */
    method Build(main: string, subsites: seq<string>, reading: Reading, ghost catalogue: map<string, string>)
      returns (ok: bool)
      requires !active && SitesOf(main, subsites) <= reading.Keys
      requires SameSources(reading, SitesOf(main, subsites), catalogue)
      modifies this
      ensures ok <==> LinksHaveSites(reading, SitesOf(main, subsites))
      ensures ok ==> !active && queue == [] && locale == old(locale)
      ensures ok ==> exists events ::
        log == old(log) + [Initialized] + events && WellOrdered(events, main, old(locale), subsites)
      ensures ok ==> forall l, i :: l in SitesOf(main, subsites) && i in reading[l] ==>
        exists g :: g in generators && HoldsFiltered(g, l, i, SitesOf(main, subsites))
      ensures ok ==> forall x :: x in nativeUrls <==> IsNative(InputsOf(reading, SitesOf(main, subsites)), x)
    {
      hide GeneratorsFit, UrlsFit, RemovedFound, LinksFound, SameSources, LinksHaveSites, Expected;
      InitializePlugin(main, subsites);
      ok := BuildSite(main, reading, {});
      RemovedAlwaysFound(reading, SitesOf(main, subsites), catalogue);
      LinksFoundIff(reading, SitesOf(main, subsites), catalogue);
      ExpectedShape(main, old(locale), subsites);
      if ok {
        assert log == old(log) + [Initialized] + Expected(main, old(locale), subsites);
        SitesCovered(generators, nativeUrls, reading, SitesOf(main, subsites));
      }
    }
  }

  ghost predicate Resolves(g: Generator, urls: map<string, string>) {
    && (forall c :: c in g.removed ==> c.source in urls)
    && (forall c, l :: c in AllContents(g.items) && l in c.links ==> l.source in urls)
  }

  lemma RangeLast(queue: seq<string>)
    requires queue != []
    ensures Range(queue) == {queue[|queue| - 1]} + Range(queue[..|queue| - 1])
  {
    assert queue == queue[..|queue| - 1] + [queue[|queue| - 1]];
  }

  lemma InputsAdd(reading: Reading, done: set<string>, lang: string)
    requires lang in reading
    ensures InputsOf(reading, done + {lang}) == InputsOf(reading, done) + set i | i in reading[lang] :: (lang, i)
  {
  }

  ghost predicate HoldsFiltered(g: Generator, lang: string, input: Input, sites: set<string>) {
    g.lang == lang && g.input == input && g.items == FilteredLists(input.items, lang, sites, input.policy)
  }

  /** Databases that fit all inputs hold, for each input of each site, its filtered lists. */
  lemma SitesCovered(generators: seq<Generator>, urls: map<string, string>, reading: Reading, sites: set<string>)
    requires GeneratorsFit(generators, sites, InputsOf(reading, sites)) && UrlsFit(urls, InputsOf(reading, sites))
    requires sites <= reading.Keys
    ensures forall l, i :: l in sites && i in reading[l] ==>
      exists g :: g in generators && HoldsFiltered(g, l, i, sites)
    ensures forall x :: x in urls <==> IsNative(InputsOf(reading, sites), x)
  {
    forall l, i | l in sites && i in reading[l]
      ensures exists g :: g in generators && HoldsFiltered(g, l, i, sites)
    {
      assert (l, i) in InputsOf(reading, sites);
      var g :| g in generators && Pair(g) == (l, i);
    }
  }

  /** Looking up in all generators is looking up in all inputs. */
  lemma ResolvesMeansFound(generators: seq<Generator>, urls: map<string, string>,
                           sites: set<string>, reading: Reading)
    requires GeneratorsFit(generators, sites, InputsOf(reading, sites)) && UrlsFit(urls, InputsOf(reading, sites))
    ensures (forall g :: g in generators ==> Resolves(g, urls)) <==>
      RemovedFound(reading, sites) && LinksFound(reading, sites)
  {
    if forall g :: g in generators ==> Resolves(g, urls) {
      forall p | p in InputsOf(reading, sites)
        ensures exists g :: g in generators && Pair(g) == p && Resolves(g, urls)
      {
        var g :| g in generators && Pair(g) == p;
      }
    }
  }
}
