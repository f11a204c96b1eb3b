# Umbrella Linux configuration logic, modelled and proved in Dafny

Umbrella Linux configures the servers of an organization from a few XML files. Most of the
repository is templates; this project models the algorithms inside it and proves what they
promise. `dafny verify dfyconfig.toml` checks everything.

| files | what they model |
|---|---|
| `LineOrder`, `Corrections`, `RenumberRun`, `ImageIds` | the installer's renumbering of users and groups in a system image |
| `Networks`, `RevZones` | sets of CIDR networks, classful wrappers, reverse DNS names |
| `PageHierarchy` | the page tree of the web site |
| `Organization` | the two walks over the tree of organization units |
| `ContentFilter`, `SubsiteBuild` | the nested build of one web site per language |
| `Topology`, `SwitchPings` | the hosts pinged to monitor a switch |
| `ZoneSerial`, `Robots` | the zone serial number and the numbering of mail robots |
| `Lists`, `Text`, `Walks` | sequences, decimal numerals, joined labels, byte order, walks that run into cycles |

## What the proofs found

Some of these say exactly when the code does what its comments or documentation promise.

- **Nothing to renumber makes the installer fail.** `echo` of an empty list feeds one empty line
  to the loop, `chown` is then called without an owner and `set -e` ends the script
  (umbrella-install:997-1007). `ImageIds.Image.FixUids` succeeds if and only if every name is
  configured exactly once, the renumbering has no cycle *and* some identifier differs.
- **Distinct desired identifiers are nowhere checked.** `RenumberRun.NoConfusion`: no moment of
  a run gives two names one identifier if and only if the configuration gives them different
  ones (`RenumberRun.OneIdForTwo` is a failing plan). The files stay with their owners' names in
  either case; a file of an unlisted identifier falls to a name once that name is given the
  identifier, and only then (`RenumberRun.StrangersAdopted`).
- **The loop that removes nested classful networks has no effect**, since `in` between two
  networks is always false (21_revzones.py:26-32). `RevZones.FindsTightestIff` says when
  `findClassful` then still answers the tightest network for every iteration order of the set;
  10.0.0.0/9 with 10.1.2.0/25 is a pair for which it does not (`RevZones.OrderDecides`).
- **Reverse names are right exactly for prefix lengths 8 to 31** (`RevZones.ReverseNameIff`).
- **Parents borrowed by translations can form a circle**, on which the ancestor walk does not
  end (`PageHierarchy.CircularTranslations`). `PageHierarchy.WalksEndIff` is the exact condition,
  for any list of distinct pages: no two pages share a URL that is its own parent URL, and no
  page comes back to itself by borrowing a parent, following URLs up from it, borrowing again at
  the top, and so on. `set_relationships` is proved for all such lists.
- **A translation in a language without a site stops the build** with a missing key
  (i18n_subsites.py:332), although the documentation says such content is always generated.
  `SubsiteBuild.Plugin.Build` succeeds if and only if no listed translation lacks a site. A
  policy word other than the three documented ones drops content
  (`ContentFilter.NothingDroppedIff`, `ContentFilter.MisspeltPolicyDrops`).
- **A host named on both sides of a switch with two priorities is pinged on the wrong side.**
  `SwitchPings.TwoPrioritiesEscape` is a topology the schema admits. `SwitchPings.SilentIff` says
  exactly when a switch above the monitor pings nothing behind its child switch toward the
  monitor: each element that shares an identifier with that side, but not the priority, is
  pushed out of the list by the ping limit; without a limit, there is no such element.
- **The zone serial falls back after too many changes in a day, and repeats itself when the
  sequence file cannot be written**, an error the script ignores. `ZoneSerial.SerialsRiseIff` gives
  the exact condition for runs in which any write may fail: at most 100 different times of a day
  count, or 99 on the day of the first written one, and every time that is followed by a later
  one of its day was written by some rendering (or was the first second of its day with nothing
  written before). `ZoneSerial.LostWriteRepeats` is a failing run.
- **A network on several organization units can make the two walks disagree**
  (`Organization.SharedNetworkDisagrees`). They agree on all addresses if and only if each unit
  that answers for some address inherits the same profile as the last unit with its network
  (`Organization.AgreeEverywhereIff`).

## Assumptions

- Lines of passwd, group and the desired lists are matched by whole fields. The scripts use
  `grep -w` and anchored substitutions; these agree with field equality when no name or
  identifier is a word inside another field. Names hold no colon. Each name and each identifier
  occurs once in an image's table. Identifiers are decimal texts without leading zeros, and
  `sort` uses byte order.
- `chown -R` and the edits by `perl` and `sed` are atomic updates of a map or of a column.
- Networks are IPv4 networks that `ip_network` accepts: no bits set below the prefix.
- Page objects are compared by identity, and no page is listed twice.
- A site generator's signals come in the order initialize, filter, writer; settings for a language
  bring the locale of that language. Content is
  compared by value in `list.remove`.
- Days are given by a function from times to YYYYMMDD that never decreases.
- XML has been parsed; elements without text count as missing tags. The topology keeps to its
  schema: the elements are switches and hosts, priorities are 0 to 99, a ping limit is not negative.

## Model

| member | source | states |
|---|---|---|
| `LineOrder.SortSorts` | Documentation/installer/umbrella-install:988-995 | `sort -u`, and `sort` of distinct lines, list the same lines in strictly increasing order |
| `LineOrder.NamesDecide` | Documentation/installer/umbrella-install:988-995 | between lines of different names the identifier after the colon never decides the order, even when one name begins another |
| `LineOrder.SameNamesAlign` | Documentation/installer/umbrella-install:955-957 | two strictly ordered lists of the same names are the same list, so pasting them pairs each name with itself |
| `Corrections.KnownExactlyOnce` | Documentation/installer/umbrella-install:942-945 | the comparison of name lists accepts if and only if each name of the image is configured exactly once |
| `Corrections.PastedPlan` | Documentation/installer/umbrella-install:952-957 | the pasted rows are exactly one row per name whose identifier differs, with its own old and configured identifier: the guard against misaligned names never fires |
| `Walks.StuckReachesCycle` | Documentation/installer/umbrella-install:961-972 | a set of identifiers that all wait for one another contains a cycle that every member reaches |
| `Corrections.OrderRows` | Documentation/installer/umbrella-install:961-968 | the ordering loop ends; emitted and left rows are a permutation of the input; no emitted row hands out an identifier still in use; the rest are exactly the rows that run into a cycle, with distinct targets exactly those on one; nothing is left if and only if there is no cycle |
| `Corrections.ComputeCorrections` | Documentation/installer/umbrella-install:932-976 | unknown names, loops or an ordered complete plan, each if and only if its condition holds; the reported loop rows are those that reach a cycle |
| `RenumberRun.SafeRunIsSimultaneous` | Documentation/installer/umbrella-install:997-1008 | row-by-row renumbering in a safe order equals the simultaneous substitution, for every identifier |
| `RenumberRun.SimultaneousIffSafe` | Documentation/installer/umbrella-install:961-968 | row-by-row equals simultaneous for all identifiers if and only if the order is safe |
| `RenumberRun.NoConfusion` | Documentation/installer/umbrella-install:997-1008 | at every prefix of a run each name's files carry the identifier its line has, strangers' files are untouched, and names have distinct identifiers if and only if the configured ones are distinct |
| `RenumberRun.WholeRunReachesWanted` | Documentation/installer/umbrella-install:1005-1005 | after all rows every name has its configured identifier |
| `RenumberRun.StrangersAdopted` | Documentation/installer/umbrella-install:1005-1007 | a file whose identifier no name of the image has keeps it, and comes to belong to a name if and only if a row carried out so far hands that identifier out |
| `RenumberRun.OneIdForTwo` | Documentation/installer/umbrella-install:997-1008 | a plan whose configuration gives two names one identifier, after which both own the same files |
| `ImageIds.KnownMeansConfigured` | Documentation/installer/umbrella-install:942-945 | on sorted lists without repeated lines, acceptance means one and only one configured identifier per name |
| `ImageIds.CorrectImageRefused` | Documentation/installer/umbrella-install:997-1007 | an image that already agrees with the configuration is a concrete case in which the phase fails |
| `ImageIds.MovesMeaning` | Documentation/installer/umbrella-install:951-957 | only identifiers of the image move, and each to the one configured for its name |
| `ImageIds.PlanPhase` | Documentation/installer/umbrella-install:994-996 | a plan exists if and only if each name is configured once and there is no cycle; it has a row for each line the configuration lacks and no other, and carried out row by row it is the simultaneous substitution |
| `ImageIds.Image.ApplyUids` | Documentation/installer/umbrella-install:997-1008 | the loop carries out exactly the rows before the first infeasible one, and of an infeasible row at most the edit of passwd; it succeeds if and only if there is a row and all are feasible |
| `ImageIds.Image.ApplyGids` | Documentation/installer/umbrella-install:1013-1025 | the same for groups, primary-group column and file groups |
| `ImageIds.Image.FixUids` | Documentation/installer/umbrella-install:991-1008 | success if and only if fixable; failure changes nothing; afterwards every user has the configured identifier, every file the simultaneous substitute, and each user owns the same files |
| `ImageIds.Image.FixGids` | Documentation/installer/umbrella-install:1010-1025 | the same for groups, with the primary groups of all users following |
| `ImageIds.Image.FixUidsAndGids` | Documentation/installer/umbrella-install:991-1026 | both phases succeed if and only if both tables are fixable; a refused first phase changes nothing, a refused second one leaves group, primary-group column and groups of files as they were; on success users, groups and primary groups have the configured identifiers, every file is the pair of the two substitutions, identifiers not in the tables stay, and files and primary groups still agree with the tables |
| `Networks.NestedOrDisjoint` | Python/20_networks.py:8-12 | two CIDR networks that share an address are nested, the longer prefix inside |
| `Networks.SubnetAntisymmetric` | Python/20_networks.py:8-12 | networks that contain each other are equal |
| `Networks.SubnetMeans` | Python/20_networks.py:8-12 | the comparison of first and last addresses is containment of addresses |
| `Networks.PrefixDecides` | Python/20_networks.py:15-18 | a network holds exactly the addresses with the same prefix bits |
| `Networks.CleanupFullyContained` | Python/20_networks.py:82-91 | whatever the iteration order, the result is the set of networks that no other one contains |
| `Networks.CleanupPartitions` | Python/20_networks.py:80-91 | the result covers the same addresses as the input and no address twice |
| `Networks.CleanupUnique` | Python/20_networks.py:80-91 | any pairwise disjoint part of the set with a network around every member is the result |
| `RevZones.MaskClears` | Python/21_revzones.py:15-15 | the bitwise mask clears exactly the low bits |
| `RevZones.WrapperTightest` | Python/21_revzones.py:10-16 | a network of whole octets contains the network if and only if it contains its wrapper |
| `RevZones.CollectClassful` | Python/21_revzones.py:6-23 | the collected networks are the wrappers of all networks except the three excluded interfaces |
| `RevZones.FindClassful` | Python/21_revzones.py:48-56 | the loop answers the network itself if listed, even when a wider one is listed too, else the first listed network around it, and nothing if and only if there is none |
| `RevZones.FindsTightestIff` | Python/21_revzones.py:48-56 | the answer is the tightest wrapper for every iteration order if and only if no second classful network of the set contains the network |
| `RevZones.OrderDecides` | Python/21_revzones.py:48-56 | 10.0.0.0/9 and 10.1.2.0/25 lead to nested classful networks, of which the iteration order picks either for the second |
| `Text.DecMeans` | Python/21_revzones.py:45-67 | a decimal numeral has its number as positional value and no leading zero |
| `RevZones.OctetsMean` | Python/21_revzones.py:59-67 | the address a.b.c.d splits into the numerals of a, b, c and d |
| `RevZones.ReverseNameText` | Python/21_revzones.py:59-67 | the reverse name of a.b.c.d is d.c.b.a.in-addr.arpa (section 3.5 of RFC 1035) |
| `RevZones.EightBitZone` | Python/21_revzones.py:59-67 | the zone of a.0.0.0/8 is a.in-addr.arpa, with host part d.c.b |
| `RevZones.SixteenBitZone` | Python/21_revzones.py:59-67 | the zone of a.b.0.0/16 is b.a.in-addr.arpa, with host part d.c |
| `RevZones.TwentyFourBitZone` | Python/21_revzones.py:59-67 | the zone of a.b.c.0/24 is c.b.a.in-addr.arpa, with host part d |
| `RevZones.ReverseNameIff` | Python/21_revzones.py:59-67 | host part, dot and zone name are the reverse name of section 3.5 of RFC 1035 if and only if the prefix length is 8 to 31 |
| `RevZones.ReverseNameInjective` | Python/21_revzones.py:66-67 | different addresses have different reverse names |
| `RevZones.ShortNameIsHostRange` | Python/21_revzones.py:42-46 | inside three whole octets the short name is the first and last host number joined by a hyphen |
| `RevZones.ShortNameText` | Python/21_revzones.py:42-46 | inside two whole octets the short name is the last two octets of the first and of the last host |
| `RevZones.ShortNamesDiffer` | Python/21_revzones.py:42-46 | different networks under one classful network have different short names, prefix length 31 included |
| `RevZones.ZoneNamesDiffer` | Python/21_revzones.py:59-63 | different networks under one classful network, itself included, have different zone names |
| `RevZones.LinkingZoneDelegates` | Cfg/etc/bind/zones/mainzone.rev/mainzone.rev.genshi:78-87 | for every network strictly inside a linking network, the alias written in the linking zone names the host below the delegated label, which is no host label of that zone (RFC 2317 section 4) |
| `RevZones.SameHostLabelIff` | Cfg/etc/bind/zones/mainzone.rev/mainzone.rev.genshi:82-83 | the host labels on both sides of the alias are equal if and only if the linking network is the tightest classful one around the network |
| `PageHierarchy.ParentUrlRank` | Documentation/website/plugins/pelican-page-hierarchy/page_hierarchy.py:59-61 | the parent URL of any URL, absolute or not, is the URL itself or ranks strictly lower |
| `PageHierarchy.ParentUrlMeans` | Documentation/website/plugins/pelican-page-hierarchy/page_hierarchy.py:59-61 | the parent of dir/name and of dir/name/ is dir/, that of name and name/ the empty URL |
| `PageHierarchy.AttachToUrlParent` | Documentation/website/plugins/pelican-page-hierarchy/page_hierarchy.py:60-65 | the page gets the last URL match as parent and is appended to the children of every match; nothing else changes |
| `PageHierarchy.BorrowParent` | Documentation/website/plugins/pelican-page-hierarchy/page_hierarchy.py:66-73 | the page takes the current parent of the last other generator page with its slug and its directory, and none if there is no such page |
| `PageHierarchy.LinksMean` | Documentation/website/plugins/pelican-page-hierarchy/page_hierarchy.py:58-73 | the specified links in terms of URLs, slugs and directories: the last page with the parent URL is the parent; a page in another language without one has the parent of the last earlier other version of it; any other page has none; children are the pages with that parent URL, each once |
| `PageHierarchy.SetLinks` | Documentation/website/plugins/pelican-page-hierarchy/page_hierarchy.py:51-73 | all parents and children are right in terms of URLs, slugs and directories, on any list of distinct pages |
| `PageHierarchy.WalksEndIff` | Documentation/website/plugins/pelican-page-hierarchy/page_hierarchy.py:59-80 | for any list of distinct pages the ancestor walk ends from every page if and only if no two pages share a URL that is its own parent URL and the borrowed parents, each followed up its URLs, form no cycle |
| `PageHierarchy.BorrowedMeaning` | Documentation/website/plugins/pelican-page-hierarchy/page_hierarchy.py:66-73 | with generator pages in the default language, the relation of that condition goes from a translation without URL parent to the top of the URLs above its donor's URL parent |
| `PageHierarchy.ClimbableEnds` | Documentation/website/plugins/pelican-page-hierarchy/page_hierarchy.py:75-80 | in particular it ends for different URLs, generator pages in the default language and none of them below a translation |
| `PageHierarchy.ParentDescends` | Documentation/website/plugins/pelican-page-hierarchy/page_hierarchy.py:75-80 | from page to parent, "is a translation" and then the URL rank decreases |
| `PageHierarchy.ClimbFrom` | Documentation/website/plugins/pelican-page-hierarchy/page_hierarchy.py:76-80 | from every page whose walk ends, the loop collects the ancestors, root first |
| `PageHierarchy.AncestorStep` | Documentation/website/plugins/pelican-page-hierarchy/page_hierarchy.py:76-80 | a page's ancestors are its parent's ancestors followed by the parent |
| `PageHierarchy.SetRelationships` | Documentation/website/plugins/pelican-page-hierarchy/page_hierarchy.py:47-80 | on every list of distinct pages from which all walks end, parents and children are right in terms of URLs, slugs and directories, and the ancestors of a page are those of its parent followed by the parent |
| `PageHierarchy.AncestorsFormBranch` | Documentation/website/plugins/pelican-page-hierarchy/page_hierarchy.py:75-80 | the ancestors and the page form a branch from a root, each the parent of the next, none twice |
| `PageHierarchy.ChildrenAreUrlChildren` | Documentation/website/plugins/pelican-page-hierarchy/page_hierarchy.py:62-73 | with different URLs a page is a child, once, exactly of its URL parent; a borrowed parent does not list it |
| `PageHierarchy.CircularTranslations` | Documentation/website/plugins/pelican-page-hierarchy/page_hierarchy.py:66-80 | three pages with different URLs of which two are each other's parent, so that the walk does not end |
| `Organization.PathsComplete` | Python/30_networking.py:109-115 | the reference enumeration lists exactly the downward paths of the tree |
| `Organization.AnswerMeans` | Python/30_networking.py:94-116 | a `network_match` with a network decides alone, an empty one matches nothing, without one `network` decides; a unit that does not match gives the answer of its first answering sub-unit followed by its own value |
| `Organization.AccumulateTags` | Python/30_networking.py:89-116 | the tag values from the first matching unit in preorder up to the root, innermost first; success if and only if some unit matches; nothing for a unit with an empty `network_match` and no sub-units |
| `Organization.NetClasses.Fill` | Python/35_organization.py:6-23 | the dictionary is what recording every unit's innermost profile in preorder leaves; a unit with an empty `network_match` and no sub-units leaves it as it was |
| `Organization.FillMeans` | Python/35_organization.py:9-23 | a `network_match` with a network is what is recorded, an empty one records nothing, without one `network` is; the own profile, else the inherited one, is recorded and handed down to the sub-units in order |
| `Organization.LastRecordWins` | Python/35_organization.py:19-22 | a network has the profile of the last unit in preorder that carries it |
| `Organization.AgreeIff` | Python/35_organization.py:6-26 | for any address that matches, the recorded profile is the first one collected, or the default, if and only if the matched unit and the last unit with its network have the same profile |
| `Organization.AgreeEverywhereIff` | Python/35_organization.py:6-26 | the walks agree on all addresses if and only if this holds for each unit with an address that no earlier unit has |
| `Organization.WalksAgree` | Python/35_organization.py:6-26 | in particular they agree when every network is on at most one unit |
| `Organization.SharedNetworkDisagrees` | Python/35_organization.py:19-22 | a tree with a shared network on which they differ |
| `ContentFilter.SieveTranslations` | Documentation/website/plugins/i18n_subsites/i18n_subsites.py:248-252 | removing from the list while walking a copy is the stable filter, also with repeated items; the translations without a site stay, as often as they occur, the others are handed over |
| `ContentFilter.SieveContents` | Documentation/website/plugins/i18n_subsites/i18n_subsites.py:261-270 | the same for normal content: native items, items without a site and, under keep, all stay as often as they occur; under hide the others come back hidden, under remove they are handed over |
| `ContentFilter.FilterLists` | Documentation/website/plugins/i18n_subsites/i18n_subsites.py:233-270 | all four lists, the removed items and the saved URLs after the filter, in terms of language, sites and policy |
| `ContentFilter.EveryItemAccounted` | Documentation/website/plugins/i18n_subsites/i18n_subsites.py:248-270 | counted with multiplicity, every item is kept, newly hidden or removed, and in one of these only |
| `ContentFilter.NothingDroppedIff` | Documentation/website/plugins/i18n_subsites/i18n_subsites.py:265-270 | as many items come out as went in if and only if the policy is hide, remove or keep or nothing has to leave |
| `ContentFilter.MisspeltPolicyDrops` | Documentation/website/plugins/i18n_subsites/i18n_subsites.py:265-270 | an untranslated page that is in no list after the filter and not handed over either |
| `ContentFilter.RemovedHaveSite` | Documentation/website/plugins/i18n_subsites/i18n_subsites.py:248-270 | removed items have a language with a site |
| `ContentFilter.NativeUrlIsLast` | Documentation/website/plugins/i18n_subsites/i18n_subsites.py:257-264 | the saved URL of a source is that of its last native item, normal before hidden, else the one saved before |
| `SubsiteBuild.Plugin.InitializePlugin` | Documentation/website/plugins/i18n_subsites/i18n_subsites.py:117-121 | the databases are set up by the first site of a build only; later calls change nothing |
| `SubsiteBuild.InterlinkRemoved` | Documentation/website/plugins/i18n_subsites/i18n_subsites.py:346-355 | succeeds if and only if every removed item's source has a saved URL |
| `SubsiteBuild.InterlinkTranslated` | Documentation/website/plugins/i18n_subsites/i18n_subsites.py:321-343 | succeeds if and only if every listed translation's source has a saved URL |
| `SubsiteBuild.RemovedAlwaysFound` | Documentation/website/plugins/i18n_subsites/i18n_subsites.py:352-353 | with the same sources everywhere the look-up for removed content never misses |
| `SubsiteBuild.LinksFoundIff` | Documentation/website/plugins/i18n_subsites/i18n_subsites.py:330-333 | the look-up for translations never misses if and only if each has a language with a site |
| `SubsiteBuild.UnsitedLinkStops` | Documentation/website/plugins/i18n_subsites/i18n_subsites.py:330-333 | a link to a language without a site stops the build from hidden content, native content, content and translations without a site |
| `SubsiteBuild.SitedLinksPass` | Documentation/website/plugins/i18n_subsites/i18n_subsites.py:330-333 | without such links in anything read, all look-ups for translations succeed |
| `SubsiteBuild.UnsitedTranslationMisses` | Documentation/website/plugins/i18n_subsites/i18n_subsites.py:330-333 | one page with a translation without a site, which the generator keeps among its translations, and for which it misses |
| `SubsiteBuild.ExpectedShape` | Documentation/website/plugins/i18n_subsites/i18n_subsites.py:409-436 | the nested events are, place by place: main site filtered, queued sites filtered from the last to the first, links updated, queued sites written from the first to the last, main site written, each site under its own locale and the main one under the caller's |
| `SubsiteBuild.Plugin.CreateNextSubsite` | Documentation/website/plugins/i18n_subsites/i18n_subsites.py:409-436 | ends with an empty queue, the expected events and the old locale, if and only if all look-ups succeed |
| `SubsiteBuild.Plugin.BuildSite` | Documentation/website/plugins/i18n_subsites/i18n_subsites.py:425-436 | one nested run of the site generator with everything it starts |
| `SubsiteBuild.Plugin.Build` | Documentation/website/plugins/i18n_subsites/i18n_subsites.py:117-121 | a whole build initializes once, filters and writes every site once under its locale, updates links once in between and restores the locale, if and only if no listed translation lacks a site; at the end every input of every site is held with its filtered lists, and the saved URLs are those of the native sources |
| `Topology.StartsWithIffAncestor` | Documentation/hacks/nagios_map/update_nagios:68-69 | one path is a text prefix of another if and only if its element is an ancestor of the other or the same |
| `Topology.SegmentMeans` | Documentation/hacks/nagios_map/update_nagios:68-75 | a step is the bare tag of an only child, else the tag with its number among the siblings of that tag, from 1 |
| `Topology.FindRoundTrip` | Documentation/hacks/nagios_map/update_nagios:40-81 | looking up the path of an element finds that element |
| `SwitchPings.EntryMeans` | Documentation/hacks/nagios_map/update_nagios:41-53 | switches and hosts with a name or else an address have an entry, which begins with the priority, 70 for a switch and 20 for a host by default |
| `SwitchPings.IdentifierRecovered` | Documentation/hacks/nagios_map/update_nagios:53-85 | dropping three characters recovers the identifier if and only if the priority is -9 to 99 |
| `SwitchPings.TextOrderIsPriority` | Documentation/hacks/nagios_map/update_nagios:53-82 | for priorities 0 to 99 text order is priority, then identifier |
| `SwitchPings.CollectAllInPath` | Documentation/hacks/nagios_map/update_nagios:38-54 | the entries of the elements strictly below the path's element |
| `SwitchPings.EntriesBelowMeaning` | Documentation/hacks/nagios_map/update_nagios:38-54 | an entry is collected if and only if a pingable strict descendant has it |
| `SwitchPings.BranchNamesChild` | Documentation/hacks/nagios_map/update_nagios:71-75 | the text cut out of the monitor's path names the child toward it, leads there, and starts with "switch" if and only if it is one |
| `SwitchPings.DescendingUnique` | Documentation/hacks/nagios_map/update_nagios:82-82 | a set has only one strictly descending list |
| `SwitchPings.PingList` | Documentation/hacks/nagios_map/update_nagios:62-86 | the list of a switch is the descending list of the far side, cut off at the limit, without priorities |
| `SwitchPings.FarSideMeaning` | Documentation/hacks/nagios_map/update_nagios:69-81 | a switch not above the monitor pings its strict descendants; one above it pings everything but the entries strictly below the child toward it |
| `SwitchPings.PingsMeaning` | Documentation/hacks/nagios_map/update_nagios:69-85 | an identifier is in the list of a switch above the monitor if and only if some element has it with an entry of the far side that fewer entries than the limit precede |
| `SwitchPings.SilentIff` | Documentation/hacks/nagios_map/update_nagios:69-85 | no identifier of the near side is in the list if and only if each element that has one with a priority it does not have there comes behind as many entries as the limit |
| `SwitchPings.TwoPrioritiesEscape` | Documentation/hacks/nagios_map/update_nagios:69-85 | a topology within the schema whose list for the top switch holds a host from behind the child switch toward the monitor |
| `SwitchPings.ShownAreMostImportant` | Documentation/hacks/nagios_map/update_nagios:82-85 | nothing left out outranks something shown; the list has the limit's length if anything is left out; identifiers come out unchanged |
| `ZoneSerial.Zone.Render` | Python/32_zone_timestamp.py:4-34 | one rendering keeps number and file if the configuration is not newer than the file, else counts up on the same day and restarts on another; the serial repeats if and only if nothing changed, and falls if and only if the day's number was 99; an unwritable file keeps its state |
| `ZoneSerial.StepRaises` | Python/32_zone_timestamp.py:17-34 | an unchanged configuration repeats the serial, a changed one lowers it if and only if the day's number was 99 |
| `ZoneSerial.NumberIsCount` | Python/32_zone_timestamp.py:8-24 | the number is the count of different times of the day written so far and the present one, from 0 or 1, modulo 100, whichever writes fail |
| `ZoneSerial.SerialsRiseIff` | Python/32_zone_timestamp.py:4-34 | over any run from no file, with any writes failing, every change raises the serial if and only if no rendering counts more than 100 times of its day, 99 on the first written day, and every time with a later one on its day was written or was the first second of its day with nothing written before; repeats are always equal (YYYYMMDDnn, RFC 1912 section 2.2) |
| `ZoneSerial.LostWriteRepeats` | Python/32_zone_timestamp.py:25-32 | a run in which two changes of one day get the same serial because the first could not be written |
| `Robots.Numbering.NoteAddr` | Python/25_firewall.py:48-61 | the dictionaries again say what all notes so far say |
| `Robots.Numbering.Process` | Python/25_firewall.py:63-81 | all names of all robots are noted, and the server list is the addresses in order of first mention |
| `Robots.Numbering.FillServers` | Python/25_firewall.py:79-81 | every address goes to the place of its number and every place is filled |
| `Robots.NotesMean` | Python/25_firewall.py:63-75 | what is noted is each robot under its name, or a mailing list under its own name and the nine names of its administration |
| `Robots.LookupFindsLast` | Python/25_firewall.py:76-85 | a name is known for a direction if and only if some entry allows it, and leads to the address of the last such entry; servers are the mentioned addresses, each once |
| `Robots.NameLeadsToLastRobot` | Python/25_firewall.py:57-81 | for each direction a name leads, over its number, to the address of the last robot that answers under it and whose flow allows the direction |

## Left out

- Installer plumbing around the renumbering: packages, containers, keys, databases, logging.
- Reading the desired identifiers from the generated XML with `xmllint`; the pairs are given.
- The intersection check of 20_networks.py:60-66 and the removal of 21_revzones.py:26-32, which have no effect; the cache of wrappers in 21_revzones.py:17-22, which only shares equal objects.
- IPv6 networks, and mixing address versions, for which `ipaddress` raises an error.
- `get_path` and the URL metadata of pages; Pelican's own processing, gettext and templates.
- Relative paths between sites and the URLs written into content: only the look-up of native URLs is modelled, and a missing key ends the build at that point.
- Generators of a site are objects in the source; here they are records in the database, and they are saved and filtered one after the other. Custom `I18N_GENERATORS_INFO` classes are not modelled; a fresh draft keeps the URL of its article.
- Parents of monitored hosts and the files written by `update_nagios:98-140`.
- A failure between writing the sequence file and setting its time.
- Duplicate names or identifiers in an image's passwd or group.
- Interfaces, routes, firewall templates, password files, boot screen and Kerberos tools: string assembly and dialogue with little to prove.
