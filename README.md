# Repository root discovery, modelled in Dafny

This project models the engine that discovers repository roots for RHEL,
CentOS and Fedora. For each distribution family, each release category
(released, latest, nightly) and each architecture, the engine builds a
catalog mapping a version key (`"M.m"` for RHEL and CentOS, `"N"` for
Fedora) to a base URI. It gets there in three steps:

- It scrapes directory listings.
- It queries Beaker (`bkr distro-trees-list`) where that is available.
- It caches what it found.

The model covers three generations of the code:

- the repository-level engine (`repos/Repository.py` and its RHEL, CentOS and Fedora providers);
- the `RepoRoots`-based engine (`repos/RepoRoots.py`, `repos/FedoraRoots.py`);
- the original root-level classes (`RepoRoots.py`, `RhelRoots.py`, `FedoraRoots.py`).

Modules, in dependency order:

- `Basics`: `Option` and `Result`.
- `Text`: decimal rendering and parsing of versions and the `"M.m"` keys; ASCII case folding for the `(?i)` flag; and Python's `rsplit(sep, 1)[0]`, `rstrip(chars)` and `replace(old, new, 1)`.
- `Listing`: a fetched page is its raw text plus its anchors `(href, text)` in document order. Every pattern of the source has the shape `<a href="(X)">\1</a>`, where X is for instance `\d+/`, `README` or `<architecture>/`. So an anchor matches only when its text repeats its href, compared up to case under `(?i)`. The matchers parse the href as the pattern does.
- `Catalogs`:
  - `dict.update` merges: `Overlay`, `Prioritized`, `MergeAll`.
  - Sub-map filters.
  - The per-architecture memo of the public queries (class `RootQueries`).
- `Selection`: the per-minor "newest z-stream" selection. `Newest` is a reference definition computed in one pass over the listing. The source's `[min, max]` range walks are loop methods proved to compute exactly it. The older gap-intolerant walk is proved to fail exactly when the listing has a gap.
- `Transport`: the two URI-content caches with their retry loops, as classes over an oracle `net(uri, attempt)`. It also defines `Web`, the page each URI yields once fetched, through which the providers read.
- `Beaker`:
  - `_beakerRoot` over an oracle `bkr(query)`: the exit-code mapping, the variant filter, and the bos → rdu → any-http tiers.
  - The two ways of cutting the `/<variant>/<arch>/os` tail: `rsplit` and `rstrip`.
- `Walks`: the `_beakerRoots` walks.
  - RHEL and CentOS walk (major, minor) pairs from a floor; a missing tree at minor 0 ends the walk.
  - Fedora walks majors from 28.
  - Each walk is proved sound and complete against the lookups it makes.
- `AgnosticCache`: the day-long JSON file cache behind `__privateAgnosticRoots`.
- The providers:
  - `RhelRepos`, `CentOSRepos`, `FedoraCommon` and `FedoraRepos` (repository-level engine);
  - `FedoraRootsRepos` (the `RepoRoots` engine);
  - `LegacyRhelRoots` and `LegacyFedoraRoots` (root-level classes).

## Model

| member | source | states |
|---|---|---|
| Text.NatToStringRoundTrip | repos/RHEL.py:138-141 | reading back a rendered version number gives the number (`int("{0}".format(n)) == n`) |
| Text.NatToStringInjective | repos/Fedora.py:56 | different Fedora majors get different keys |
| Text.KeyRoundTrip | repos/RHEL.py:163 | the key `"M.m"` reads back as major M and minor m |
| Text.KeyInjective | repos/RHEL.py:163 | two (major, minor) pairs with the same key are the same pair |
| Text.WithSlash | repos/Repository.py:343-344 | the cache key ends in "/"; a URI that already ends in "/" is unchanged, and any other URI gets exactly one "/" appended |
| Text.RSplitHead | repos/Repository.py:208-209 | `rsplit(sep, 1)[0]`: the prefix before the last occurrence of `sep`, or the whole string when `sep` does not occur |
| Text.RSplitHeadOfSuffixed | repos/Repository.py:208-209 | cutting a tail that was appended gives back what it was appended to |
| Text.RStrip | repos/FedoraRoots.py:64-65 | `rstrip(chars)`: a prefix of the input whose last character is not in `chars`, with every removed character in `chars` |
| Text.ReplaceFirst | repos/Fedora.py:134 | the string is unchanged when the pattern occurs nowhere. Otherwise the first occurrence, and only it, gives way to the replacement, with everything before and after it kept |
| Listing.Collect | repos/RHEL.py:134-136 | `re.findall`: every anchor the matcher accepts contributes its match, and every result is the match of some anchor |
| Listing.NumberedDirs | repos/RHEL.py:220-226 | the `PREFIX<N>/` directories with N at or above the floor are exactly those of the page's matching anchors |
| Listing.AtLeast | repos/RHEL.py:225-226 | `filter(int(x) >= floor)`: exactly the directories whose number reaches the floor |
| Listing.MinorDirOf | repos/RHEL.py:180 | a `{major}.m[.z]/` match carries the formatted major and names the anchor's directory |
| Catalogs.Overlay | repos/Repository.py:100-101 | `dict.update`: the union of keys, where the second catalog wins and the first keeps its other keys |
| Catalogs.Prioritized | repos/Repository.py:99-102 | three `update` passes: the union of keys, where the last catalog wins, then the middle one, then the first |
| Catalogs.MergeAll | repos/RHEL.py:28-30 | repeated `roots.update(...)`: a key is present iff some catalog has it |
| Catalogs.MergeAllStep | repos/RHEL.py:29-30 | merging one more catalog overlays it on the merge so far |
| Catalogs.MergeAllLastWins | repos/RHEL.py:29-30 | a merged key carries the value of the last catalog that has it |
| Catalogs.KeepWhere | repos/RHEL.py:212-216 | the comprehension filter: a sub-map with unchanged values, where a key stays iff the predicate holds |
| Catalogs.RootQueries.Cached | repos/Repository.py:246-275 | `_cachedX`: the provider's answer for the architecture (the default one when none is given), or the exception it raises. A memoised answer is returned without asking. A new answer is memoised and logged once. An exception leaves the memo and the log as they were. No other category's memo changes |
| Catalogs.RootQueries.Layered | repos/Repository.py:99-128 | the shape of the three public queries: the union of three categories' answers where later ones win, or the first exception in asking order. Each category before the failing one has its answer memoised. The failing one keeps its memo, and the later ones are not asked and keep theirs |
| Catalogs.RootQueries.AvailableRoots | repos/Repository.py:99-102 | released over latest over nightly when all three answer. Otherwise it raises the first exception in the order nightly, latest, released. Each category asked, up to the failing one, has its memo updated by its answer; the rest are not asked and keep their memo. At most three computations |
| Catalogs.RootQueries.AvailableLatestRoots | repos/Repository.py:112-115 | latest over released over nightly when all three answer; otherwise the first exception in the order nightly, released, latest. The memos change as for `availableRoots` |
| Catalogs.RootQueries.AvailableNightlyRoots | repos/Repository.py:125-128 | nightly over latest over released when all three answer; otherwise the first exception in the order released, latest, nightly. The memos change as for `availableRoots` |
| Catalogs.CachedTwice | repos/Repository.py:246-253 | asking twice for the same architecture gives the same answer, or the same exception, and computes at most once |
| Catalogs.PrecedenceExample | repos/RepoRoots.py:77-80 | with released {30:R}, latest {30:L, 31:L2} and nightly {30:N}, `availableRoots` gives {30:R, 31:L2} and `availableLatestRoots` gives {30:L, 31:L2} |
| Selection.NewestIndex | repos/RHEL.py:158-162 | `max(z)` then `filter(z == max)[0]`: the index of the directory of a (major, minor) pair with the highest z-stream, and the first such directory on a tie; -1 exactly when the pair is absent |
| Selection.NewestIndexUnique | repos/RHEL.py:158-162 | a pair has only one newest directory |
| Selection.NewestPrefixCatalog | repos/RHEL.py:149-165 | every directory's key is in the reference catalog, mapped to the URI of its pair's newest directory, and every key comes from a directory |
| Selection.NewestIsNewestCatalog | repos/RHEL.py:149-165 | the reference catalog has the defining properties of the selection |
| Selection.CatalogAgree | repos/RHEL.py:149-165 | two catalogs with the defining properties agree on each key |
| Selection.CatalogUnique | repos/RHEL.py:149-165 | only one catalog has the defining properties |
| Selection.IsNewestCatalogIsNewest | repos/RHEL.py:149-165 | any catalog with the defining properties is the reference one |
| Selection.NewestHasHighestZ | repos/RHEL.py:157-165 | each pair's entry is the URI of a directory with that pair's maximal z-stream |
| Selection.MinorsOf | repos/RHEL.py:153 | the minors of a major: every directory of the major contributes, and nothing else does |
| Selection.SeqMin | repos/RHEL.py:152 | `min()`: a member at or below every member |
| Selection.SeqMax | repos/RHEL.py:152 | `max()`: a member at or above every member |
| Selection.SelectMajor | repos/RHEL.py:186-199 | the inner range walk over one major's minors gives exactly the catalog of that major's directories, skipping missing minors |
| Selection.AddEntry | repos/RHEL.py:157-165 | recording the newest directory of one minor extends the walked scope by that minor |
| Selection.SelectAll | repos/RHEL.py:149-166 | the nested range walks compute exactly the reference catalog, and an empty listing gives the empty catalog |
| Selection.AddMajor | repos/RHEL.py:151-166 | merging one major's entries extends the walked scope by that major |
| Selection.SingleMajorIsNewest | repos/RHEL.py:186-199 | when every directory has the same major, the inner walk alone is the reference catalog |
| Selection.OneMajorKeys | repos/RHEL.py:186-199 | keys of a one-major selection read back as that major. At the floor major (RHEL 7, CentOS 8) every key's minor is at least the floor minor (5 for RHEL, 3 for CentOS) |
| Selection.DenseBetweenStep | RhelRoots.py:38-41 | majors without gaps up to `hi`, plus `hi` itself, are majors without gaps up to `hi + 1` |
| Selection.StrictSelectMajor | RhelRoots.py:93-100 | the unguarded inner walk succeeds iff the major has minors and no gap between its smallest and largest, and then covers exactly that major's directories |
| Selection.StrictSelectAll | RhelRoots.py:36-49 | the unguarded walk raises iff the listing is empty or has a gap, and otherwise returns the reference catalog |
| Selection.StrictAgreesWhenDense | RhelRoots.py:36-49 | on a listing without gaps the unguarded walk's catalog is the reference one |
| Selection.AboveFloor | repos/RHEL.py:135-146 | the two `filter`s: a directory stays iff it is at or above the floor |
| Selection.NewestKeysAtOrAbove | repos/RHEL.py:144-146 | every key of a selection over floor-filtered directories reads back at or above the floor |
| Selection.HighestZStreamExample | repos/RHEL.py:158-162 | of 7.5, 7.5.2 and 7.5.1, the 7.5.2 directory is chosen for key "7.5" |
| Selection.GapExample | RhelRoots.py:41-43 | a listing with 7.5 and 7.7 but no 7.6 is not dense, and the tolerant walk still yields both keys |
| Transport.Contents | repos/Repository.py:343-345 | a URI is read under its slash-terminated key; a URI that already ends in "/" is read as given |
| Transport.HttpFetch | repos/Repository.py:346-359 | the httplib loop: it makes at most `retries` attempts, and its result is stored in the cache iff it is a body rather than an exception |
| Transport.RequestsFetch | repos/RepoRoots.py:146-158 | the requests loop: it makes at most `retries` attempts and stores nothing but a 200 body |
| Transport.HttpContents.UriContents | repos/Repository.py:342-361 | a cached URI is answered with no request. Otherwise the result, the new cache and the request log are those of `HttpFetch` under the slash-terminated key |
| Transport.RequestsContents.UriContents | repos/RepoRoots.py:142-160 | the same for the exact-URI cache and `RequestsFetch` |
| Transport.HttpFetchSound | repos/Repository.py:347-359 | a returned body is empty or some attempt's 200 body. DNS and timeout errors escape only from the last attempt; any other connection error escapes at once |
| Transport.RequestsFetchSound | repos/RepoRoots.py:146-158 | a returned body is empty or a 200 body; only a 200 body is stored; an exception escapes only from a connection error on the last attempt |
| Transport.NoRetries | repos/Repository.py:358-359 | with no attempts httplib caches the empty body and requests does not |
| Transport.HttpAlwaysTimesOut | repos/Repository.py:355-357 | every attempt timing out makes every attempt and then re-raises the timeout, caching nothing |
| Transport.HttpNeverOk | repos/Repository.py:352-359 | only non-200 replies: every attempt is made and the empty body is cached |
| Transport.RequestsAlwaysTimesOut | repos/RepoRoots.py:157-160 | with requests, all timeouts give the empty body, uncached and without an exception |
| Transport.RequestsStopsOnReply | repos/RepoRoots.py:149-153 | with requests, the first reply ends the loop, and a non-200 reply gives the empty body uncached |
| Transport.TimeoutThenSuccess | repos/Repository.py:346-357 | one timeout and then a 200 give the body after two attempts on either transport |
| Transport.FetchTwice | repos/Repository.py:345 | once a URI has a body, asking again returns the same body with no new request |
| Beaker.StripRoot | repos/Repository.py:208-209 | with `rsplit`, everything before the last tail; with `rstrip`, the longest prefix that does not end in a character of the tail |
| Beaker.RSplitRecoversRoot | repos/Repository.py:208-209 | `rsplit` gives back a root to which the tail was appended |
| Beaker.RStripEatsRoot | repos/FedoraRoots.py:64-65 | `rstrip` cuts `http://h/compose/Server/x86_64/os` to `http://h/comp` |
| Beaker.TailChars | repos/FedoraRoots.py:64-65 | the character set of `/Server/x86_64/os` holds "/Serv", "x86_4os" and not "p" |
| Beaker.RSplitKeepsRoot | repos/Repository.py:208-209 | `rsplit` cuts the same URI to `http://h/compose` |
| Beaker.RStripStopsAt | repos/FedoraRoots.py:64-65 | `rstrip` stops at the last character outside the set |
| Beaker.FirstQualifying | repos/Repository.py:205-207 | the first pair of a tree that qualifies for a tier (the host suffix and an http URI), or -1 when none does |
| Beaker.QualifiedRoots | repos/Repository.py:205-210 | one tree's stripped qualifying URIs: non-empty iff a pair qualifies, and the first is the first qualifying pair's |
| Beaker.Keep | repos/Repository.py:205-207 | the filter keeps exactly the qualifying pairs, in order |
| Beaker.TierRoot | repos/Repository.py:204-212 | a tier yields nothing iff no pair of any tree qualifies. Otherwise it yields the stripped first qualifying URI of the first tree that has one |
| Beaker.TierRootShift | repos/Repository.py:204-212 | a root found past a first tree with no qualifying pair is the first-tree root of the whole list |
| Beaker.ScanTier | repos/Repository.py:204-212 | the breaking tier loop finds a root iff the tier has one, and its first element is that root |
| Beaker.OfVariant | repos/Repository.py:199-200 | the variant filter keeps exactly the trees of the variant |
| Beaker.PreferredRoot | repos/Repository.py:203-237 | there is no root iff no URI starts with "http". A Boston root wins when one exists, then an RDU root, then any http root |
| Beaker.BeakerLookup | repos/Repository.py:186-237 | exit code 1 means no distro tree; any other failure is an unexpected error; a missing executable means Beaker was not found; success yields the preferred root among the trees of the variant. Each of these holds in both directions |
| Beaker.BeakerRoot | repos/RepoRoots.py:164-223 | `_beakerRoot` returns or raises what `BeakerLookup` gives for the query's outcome |
| Walks.WalkMinors | repos/RHEL.py:86-101 | the minors loop records exactly the reached pairs that have a root. It ends within the bound at a reached minor with no tree, or stops with the Beaker failure it met at a reached minor within the bound, or returns `BoundReached` only after reaching a minor past the bound |
| Walks.PairWalk | repos/RHEL.py:80-104 | the RHEL/CentOS walk from the floor returns its one outcome. `BoundReached` exactly when it would ask past the bound. Otherwise: the roots of exactly the pairs it reached, once a major has no tree at minor 0; or Beaker-not-found or the unexpected failure, at the pair where the walk met it |
| Walks.ReachedBeforeStop | repos/RHEL.py:96-101 | nothing is asked after a pair whose lookup stops the walk: a Beaker failure anywhere, or no tree at minor 0 |
| Walks.PairCatalogUnique | repos/RHEL.py:80-104 | the catalog of a finished walk is determined by what Beaker reports |
| Walks.PairOutcomeStop | repos/RHEL.py:91-101 | a walk that stays within the bound stops at one reached pair. Its lookup decides the result: no tree means a catalog, not-found means `BeakerAbsent`, and anything else an unexpected failure |
| Walks.PairOutcomeUnique | repos/RHEL.py:80-104 | what Beaker reports leaves the walk exactly one outcome |
| Walks.NotBeyond | repos/RHEL.py:80-104 | a walk that stops within the bound, having stayed within it before, asks nothing past it |
| Walks.StoppedOutcome | repos/RHEL.py:91-101 | a Beaker failure met within the bound, or a minor past it, ends the walk with that error |
| Walks.FinishedOutcome | repos/RHEL.py:97-104 | no tree at minor 0 within the bound ends the walk with its catalog |
| Walks.BeyondOutcome | repos/RHEL.py:82-88 | reaching a pair past the bound gives `BoundReached` |
| Walks.RecordPair | repos/RHEL.py:94-95 | recording the current pair's root keeps the catalog sound and complete |
| Walks.BelowStart | repos/RHEL.py:84-85 | a new major starts at minor 0, and the floor major starts at the floor minor |
| Walks.ReachNext | repos/RHEL.py:86-88 | a pair with a result leads the walk to the next minor |
| Walks.SkipPair | repos/RHEL.py:94 | a tree with no root adds no entry |
| Walks.NextMajor | repos/RHEL.py:97-101 | no tree at a minor above 0 moves the walk to the next major |
| Walks.LastMajor | repos/RHEL.py:99-101 | no tree at minor 0 ends the walk with every reached root recorded |
| Walks.MajorWalk | repos/Fedora.py:45-61 | the Fedora walk from the floor major returns its one outcome. `BoundReached` exactly when it would ask past the bound. Otherwise: the roots of exactly the reached majors, keyed by the major, once a major has no tree; or Beaker-not-found or the unexpected failure at the major where the walk met it |
| Walks.MajorReachedBeforeStop | repos/Fedora.py:58-59 | nothing is asked after the first major without a result |
| Walks.MajorCatalogUnique | repos/Fedora.py:45-61 | the catalog of a finished Fedora walk is determined by what Beaker reports |
| Walks.MajorOutcomeStop | repos/Fedora.py:50-59 | a Fedora walk that stays within the bound stops at one reached major, whose lookup decides the result |
| Walks.MajorOutcomeUnique | repos/Fedora.py:45-61 | what Beaker reports leaves the Fedora walk exactly one outcome |
| Walks.MajorNotBeyond | repos/Fedora.py:45-61 | a Fedora walk that stops within the bound asks nothing past it |
| Walks.RecordMajor | repos/Fedora.py:54-56 | recording a major's root keeps the catalog sound and complete |
| Walks.LastFedora | repos/Fedora.py:58-59 | no tree ends the walk with every reached root recorded |
| AgnosticCache.FilePath | repos/Repository.py:367-375 | the category file lies in the class's directory under `$HOME/.python-infrastructure/repos` |
| AgnosticCache.AgnosticStore.Load | repos/Repository.py:391-400 | a file younger than 86400 s is loaded into memory, and an older one is deleted unread |
| AgnosticCache.AgnosticStore.Save | repos/Repository.py:404-411 | the category's file is (re)written with the roots, stamped now |
| AgnosticCache.AgnosticStore.Roots | repos/Repository.py:379-387 | roots come from memory, else from a fresh file, else from the finder. The finder runs only in the last case, and its roots are saved and loaded back |
| AgnosticCache.RootsTwice | repos/Repository.py:379-387 | two requests for a category agree and run the finder at most once |
| AgnosticCache.SaveThenLoad | repos/Repository.py:391-411 | a saved file is loaded back unchanged within a day |
| AgnosticCache.StaleFileIgnored | repos/Repository.py:394-396 | a file a day old or older is ignored and the finder decides |
| RhelRepos.MajorRhels | repos/RHEL.py:220-226 | `_findMajorRhels`: the numbered directories with a number of at least 7 |
| RhelRepos.LatestCandidates | repos/RHEL.py:133-147 | every surviving `latest-RHEL-M.m[.z]` directory is at or above 7.5 |
| RhelRepos.AvailableLatestMinors | repos/RHEL.py:130-167 | per (major, minor), the `/compose` URI of the newest directory of the listing; every key is at or above 7.5 |
| RhelRepos.ReleasedCandidates | repos/RHEL.py:179-185 | all of a major's released directories carry that major; for RHEL 7 none is below 7.5 |
| RhelRepos.AvailableReleasedMinors | repos/RHEL.py:176-200 | per minor, the URI of the newest directory; every key carries the major, and for RHEL 7 a minor of at least 5 |
| RhelRepos.FilterNonExistentArchitecture | repos/RHEL.py:204-216 | a sub-map with unchanged values. A key stays iff its `Server` tree (before RHEL 8) or its `BaseOS` tree lists an `<architecture>/` directory, matched up to case |
| RhelRepos.ComposeRootsAboveFloor | repos/RHEL.py:21-35 | no latest or nightly root is below 7.5 |
| RhelRepos.ReleasedRootsAboveFloor | repos/RHEL.py:66-71 | no web-scraped released root is below 7.5 |
| RhelRepos.RHEL.BeakerRoots | repos/RHEL.py:80-104 | the walk from 7.5 with `RHEL-M.m` and the Server variant before RHEL 8, and `RHEL-M.m.0` with BaseOS from RHEL 8 on. Its result is the walk's one outcome over these lookups |
| RhelRepos.RHEL.FindComposeRoots | repos/RHEL.py:25-30 | the merge over every `rhel-N` major of the minors of `/rhel-N/<kind>/RHEL-N` |
| RhelRepos.RHEL.FindReleasedRoots | repos/RHEL.py:66-71 | the merge over every `RHEL-N` released major of its minors |
| RhelRepos.RHEL.AvailableComposes | repos/RHEL.py:21-53 | latest (`rel-eng`) and nightly roots are computed once per category and then filtered by architecture |
| RhelRepos.RHEL.AvailableReleased | repos/RHEL.py:57-76 | released roots are computed once. On a miss the result is the Beaker walk's outcome, with the web's released roots in place of Beaker-not-found. Any other failure propagates and leaves the memo unchanged. A catalog is memoised under "released" and filtered by architecture |
| RhelRepos.ReleasedSourceUnique | repos/RHEL.py:57-73 | the released source (the Beaker walk, falling back to the web only when Beaker is not installed) allows one result only |
| CentOSRepos.ReleasedCandidates | repos/CentOS.py:98-105 | a major's directories, matched up to case, carry that major; for CentOS 8 none is below 8.3 |
| CentOSRepos.AvailableReleasedMinors | repos/CentOS.py:98-122 | per minor, the URI of the newest directory; the keys carry the major, and for CentOS 8 a minor of at least 3 |
| CentOSRepos.FilterNonExistentArchitecture | repos/CentOS.py:126-136 | a sub-map; a key stays iff its `BaseOS` tree lists the architecture, whatever the version |
| CentOSRepos.MajorCentOSes | repos/CentOS.py:44-47 | the `centos-N` directories, matched up to case, with N of at least 8 |
| CentOSRepos.ReleasedRootsAboveFloor | repos/CentOS.py:39-50 | no web-scraped root is below 8.3 |
| CentOSRepos.CentOS.BeakerRoots | repos/CentOS.py:59-82 | the walk from 8.3 with `CentOS-M.m` and the BaseOS variant. Its result is the walk's one outcome over these lookups |
| CentOSRepos.CentOS.FindReleasedRoots | repos/CentOS.py:39-50 | the merge over every released major, read under `centos-N` |
| CentOSRepos.CentOS.AvailableReleased | repos/CentOS.py:31-55 | released roots are computed once. On a miss the result is the Beaker walk's outcome, with the web's roots in place of Beaker-not-found. Any other failure propagates and leaves the memo unchanged. A catalog is memoised and filtered by architecture |
| CentOSRepos.CentOS.AvailableLatest | repos/CentOS.py:21-27 | latest and nightly answer exactly as released does, through the same memo, including its failures |
| CentOSRepos.ReleasedSourceUnique | repos/CentOS.py:31-51 | the released source (the Beaker walk, falling back to the web only when Beaker is not installed) allows one result only |
| CentOSRepos.CategoriesAgree | repos/CentOS.py:21-27 | once latest has an answer, released gives the same one |
| FedoraCommon.StartingPath | repos/Fedora.py:70-76 | the path is `/pub/fedora/linux`, or `/pub/fedora-secondary` exactly for secondary architectures |
| FedoraCommon.ArchivePathOfPub | repos/Fedora.py:134 | a path under `/pub/` moves to the same place under `/pub/archive/` |
| FedoraCommon.AvailableUri | repos/Fedora.py:125-135 | the root always ends in `/<version>`. It is on the archive host iff the version's listing has a `README` link, and on dl.fedoraproject.org under the path otherwise |
| FedoraCommon.ArchivedUnderPub | repos/Fedora.py:132-135 | an archived version under `/pub/X` is served from `http://archives.fedoraproject.org/pub/archive/X/<version>` |
| FedoraCommon.Versions | repos/Fedora.py:99-103 | the `\d+/` directories, matched up to case, numbered 28 or more |
| FedoraCommon.VersionKeys | repos/Fedora.py:100-103 | the scraped keys are exactly the listing's version numbers of at least 28 |
| FedoraCommon.ScrapedRoots | repos/Fedora.py:93-103 | one root per scraped version, keyed by the version and ending in `/<version>` |
| FedoraCommon.CarryingArchitecture | repos/Fedora.py:111-121 | a sub-map; a key stays iff fetching `<root>/Everything/<architecture>` gives a non-empty page |
| FedoraCommon.BeakerKeys | repos/Fedora.py:55-56 | every key of a Beaker walk is a rendered major of at least 28 |
| FedoraRepos.AgnosticKeys | repos/Fedora.py:82-107 | whichever source they come from, agnostic roots are keyed by versions of at least 28 |
| FedoraRepos.Fedora.BeakerRoots | repos/Fedora.py:45-61 | the walk from 28 with `Fedora-N`, the Server variant below 31 and Everything otherwise. Its result is the walk's one outcome over these lookups |
| FedoraRepos.Fedora.AgnosticRoots | repos/Fedora.py:82-107 | memoised per path. On a miss: for a `/releases` path the Beaker walk's outcome, with the scraped roots in place of Beaker-not-found; for any other path the scraped roots. A catalog, even an empty one, is memoised; any other failure leaves the memo unchanged |
| FedoraRepos.AgnosticSourceUnique | repos/Fedora.py:82-103 | the agnostic source of a path allows one result only |
| FedoraRepos.Fedora.AvailableCommon | repos/Fedora.py:111-121 | the path's agnostic roots that carry the architecture. A failure of the agnostic source propagates with the memo unchanged |
| FedoraRepos.Fedora.AvailableLatest | repos/Fedora.py:22-34 | latest (and nightly) is the development path, scraped once and filtered by architecture |
| FedoraRepos.Fedora.AvailableReleased | repos/Fedora.py:38-41 | the releases path through the Beaker-first memo. A memoised path answers with its memoised roots that carry the architecture, without asking Beaker. On a miss, a failure is the source's, with the memo unchanged |
| FedoraRootsRepos.FedoraRoots.BeakerRoots | repos/FedoraRoots.py:45-53 | the first lookup calls `_beakerDistroTree`, which is not defined, and raises |
| FedoraRootsRepos.FedoraRoots.AgnosticRoots | repos/FedoraRoots.py:111-136 | memoised per path; a non-releases path is scraped; a releases path not yet memoised raises, because only `RepoRootsBeakerNotFound` is caught. So no releases path is ever memoised |
| FedoraRootsRepos.FedoraRoots.AvailableCommon | repos/FedoraRoots.py:140-150 | the path's roots whose `Everything/<architecture>` page is non-empty, read through the exact-URI cache |
| FedoraRootsRepos.FedoraRoots.AvailableLatest | repos/FedoraRoots.py:22-34 | latest (and nightly) is the development path, scraped once and filtered |
| FedoraRootsRepos.FedoraRoots.AvailableReleased | repos/FedoraRoots.py:38-41 | the releases path never yields new roots: a miss raises with the memo unchanged, and a memoised path would answer with its filtered roots. No call ever memoises a releases path |
| FedoraRootsRepos.DistroTreeWalk | repos/FedoraRoots.py:47-98 | the rest of the walk, if the distro-tree lookup answered like Beaker: majors from 28, each root cut with `rstrip`. Its result is the major walk's one outcome |
| FedoraRootsRepos.ReleasedAlwaysRaises | repos/FedoraRoots.py:38-53 | whatever the provider was asked before, its released query raises, and still no releases path is memoised |
| FedoraRootsRepos.ReleasedNeverAnswers | repos/FedoraRoots.py:52-53 | a fresh provider's released query always raises |
| LegacyRhelRoots.LatestCandidates | RhelRoots.py:18-34 | the `latest-RHEL-` directories of `/composes/` at or above 7.5 |
| LegacyRhelRoots.AvailableLatest | RhelRoots.py:16-49 | the reference catalog with `/compose` URIs when the listing has no gap. It raises when the listing is empty or has a gap. Every key is at or above 7.5 |
| LegacyRhelRoots.ReleasedCandidates | RhelRoots.py:80-86 | a major's directories, matched up to case, carry that major; for RHEL 7 none is below 7.5 |
| LegacyRhelRoots.AvailableReleasedMinors | RhelRoots.py:78-101 | under `<path>/RHEL-N`, the reference catalog of the major when its minors have no gap, and otherwise the error |
| LegacyRhelRoots.MergeResults | RhelRoots.py:61-67 | the loop of `update`s succeeds iff every step does, and then holds exactly the keys of the steps |
| LegacyRhelRoots.MergeResultsStep | RhelRoots.py:64-66 | one more step gives its error, or overlays its catalog |
| LegacyRhelRoots.MergeResultsStaysErr | RhelRoots.py:64-66 | the first error is the loop's result |
| LegacyRhelRoots.Releases | RhelRoots.py:60-63 | the `released-RHEL-N` directories, matched up to case, with N of at least 7 |
| LegacyRhelRoots.AvailableReleased | RhelRoots.py:53-67 | every released major's minors, merged in order, or the first error |
| LegacyRhelRoots.AvailableRoots | RepoRoots.py:16-24 | released over latest when both succeed; an error otherwise |
| LegacyRhelRoots.AvailableLatestRoots | RepoRoots.py:28-36 | latest over released when both succeed; an error otherwise |
| LegacyFedoraRoots.StartingPath | FedoraRoots.py:63-69 | the secondary tree exactly for `ppc64le` and `s390x` |
| LegacyFedoraRoots.AvailableLatest | FedoraRoots.py:15-17 | the development tree's versions of at least 28, each mapped to a root ending in `/<version>` |
| LegacyFedoraRoots.AvailableReleased | FedoraRoots.py:21-23 | the releases tree's versions of at least 28, each mapped to a root ending in `/<version>` |
| LegacyFedoraRoots.AvailableRoots | RepoRoots.py:16-24 | the union of both trees' keys, with the releases tree winning |
| LegacyFedoraRoots.AvailableLatestRoots | RepoRoots.py:28-36 | the union of both trees' keys, with the development tree winning |

## Left out

- Networking: `httplib`, `requests` and the raw `_path_contents` of `RepoRoots.py` become the oracle `net(uri, attempt)`. The providers read pages through a `Web` function, the page each URI yields once fetched.
- The providers do not propagate transport exceptions. A fetch that raises would abort a provider call, and the model has the providers read through `Web`, which always yields a page.
- Subprocesses and JSON: `subprocess.Popen` of `bkr` and `json.loads` of its output become the oracle `bkr(query)`, which returns an exit code with parsed distro trees, or reports a missing executable or a failed launch.
- The regular-expression engine: a page is given with its anchors already extracted, and each pattern is modelled as a matcher on one anchor.
- The filesystem, `$HOME`, `os.makedirs` and `time.time()`: files are a map from path to (catalog, modification time), and `now` is an argument. JSON round-trips of a string map are taken as the identity.
- Walks.PairWalk: the `while True` loops of `_beakerRoots` are bounded by `bound` on majors and minors. The walk returns `BoundReached` exactly when it would ask about a pair past the bound; the source would go on asking Beaker.
- Walks.MajorWalk: bounded in the same way, and returns `BoundReached` exactly when it would ask about a major past the bound.
- Catalogs.RootQueries: a provider's exception is an `Err` value of the class's error type parameter. Which exception class it was, and its traceback, are not modelled.
- Text.IsDigit, Text.Lower, Text.Upper: digits and case folding are ASCII only. Python's `\d`, `int()` and `(?i)` also accept other Unicode digits and letters, which the model does not accept.
- Beaker.BeakerLookup: an `OSError` from `Popen` other than a missing executable (re-raised as `OSError`) and the `RepositoryException` of an unexpected exit code both become `BeakerFailed`. No caller catches either, so both end the query the same way.
- Transport.RequestsFetch: the oracle's `TimedOut` stands for a read timeout, which is swallowed. requests' `ConnectTimeout` is also a `ConnectionError`, so it is retried and raised like `Refused`, and the oracle has no separate outcome for it.
- RhelRepos.FilterNonExistentArchitecture: `float(key) < 8` is modelled as the parsed major being below 8, which agrees on every "M.m" key.
- `Architecture.defaultChoice()` and `Architecture.fedoraSecondary(arch)` come from a library that is not part of this model. The default architecture is a field of `RootQueries`, and secondary status is a `secondary` argument.
- Class-level state is shared by every call to a Python class. Here each class's dictionaries are fields of one object.
- The `copy()` returned by `_cachedX` is implicit, because Dafny maps are values.
- `repos/ReposCommand.py` (command-line parsing and YAML output), `setup.py`, `test.py`, the architecture classes and `discovery/distributions/Fedora.py` are not part of this model.
- `_categoryLatest`/`_categoryNightly`/`_categoryReleased` are modelled as `Catalogs.Category.Name`.
- `_findAgnostic*Roots` only raise `NotImplementedError` in the base class. `AgnosticCache.AgnosticStore.Roots` takes the finder as an argument.
- FedoraRootsRepos.DistroTreeWalk: this method assumes the missing `_beakerDistroTree(family, name)` answers with the trees that `bkr distro-trees-list` reports, and maps exit codes as `_beakerRoot` does. The source defines neither behaviour.

## Findings

| source | as written | input that shows it | evidently intended | confidence | as-written member | corrected member |
|---|---|---|---|---|---|---|
| RhelRoots.py:38-43 | `min()`/`max()` are taken over minors and z-streams with no emptiness guard | a `/composes/` listing with `latest-RHEL-7.5/` and `latest-RHEL-7.7/` but no 7.6 | skip missing minors, as `repos/RHEL.py:151-158` does | not executed | Selection.StrictSelectAll, Selection.GapExample | Selection.SelectAll |
| repos/FedoraRoots.py:64-65 | `uri.rstrip("/<variant>/<arch>/os")` strips a character set | `http://h/compose/Server/x86_64/os` becomes `http://h/comp` | cut the tail once with `rsplit`, as `repos/Repository.py:208-209` does | not executed | Beaker.RStripEatsRoot | Beaker.RSplitKeepsRoot |
| repos/FedoraRoots.py:52-53 | calls `cls._beakerDistroTree`, which neither `FedoraRoots` nor `RepoRoots` defines, and the `AttributeError` is not caught | any released query on a fresh provider | look Fedora majors up through `_beakerRoot`, as `repos/Fedora.py:45-61` does | not executed | FedoraRootsRepos.ReleasedNeverAnswers | FedoraRepos.Fedora.AgnosticRoots |
