/**
 * The RHEL provider of the repository-level engine: latest and nightly
 * roots scraped from the compose tree of download.eng.bos.redhat.com,
 * released roots from Beaker or, when Beaker is not installed, from the
 * `/released` tree, each memoised per category and then narrowed to the
 * roots that carry the requested architecture.
 */
module RhelRepos {
  import opened Basics
  import opened Text
  import opened Listing
  import opened Catalogs
  import opened Selection
  import opened Transport
  import opened Beaker
  import opened Walks

  const Host := "download.eng.bos.redhat.com"
  const MinimumMajor: nat := 7
  const MinimumMinor: nat := 5

  function PathUri(path: string): string
  {
    "http://" + Host + path
  }

  /** `_findMajorRhels(path, regex)`: the `PREFIX<N>/` directories of the listing with N at least 7. */
  function MajorRhels(web: Web, path: string, prefix: string): (r: seq<NumberedDir>)
    ensures forall d :: d in r ==> IsDigits(d.digits) && NatOf(d.digits) >= MinimumMajor
  {
    NumberedDirs(Contents(web, PathUri(path + "/")), prefix, false, MinimumMajor)
  }

  /** The `latest-RHEL-M.m[.z]/` directories of a listing, without those below 7.5. */
  function LatestCandidates(p: Page): (r: seq<VersionDir>)
    ensures forall c :: c in r ==> AtOrAbove(c, MinimumMajor, MinimumMinor)
  {
    AboveFloor(Collect(p.anchors, a => VersionDirOf(a, "latest-RHEL-", true)), MinimumMajor, MinimumMinor)
  }

  function ComposeUri(path: string): string -> string
  {
    dir => PathUri(path) + "/" + dir + "/compose"
  }

  /** What `_availableLatestMinors(path)` returns: per minor, the compose of the newest directory. */
  function LatestMinorsOf(web: Web, path: string): Catalog
  {
    Newest(LatestCandidates(Contents(web, PathUri(path + "/"))), ComposeUri(path))
  }

  /** `_availableLatestMinors(path)` (and `_availableNightlyMinors`, which is the same). */
  method AvailableLatestMinors(web: Web, path: string) returns (available: Catalog)
    ensures available == LatestMinorsOf(web, path)
    ensures forall k :: k in available ==>
              KeyMajor(k) > MinimumMajor || (KeyMajor(k) == MinimumMajor && KeyMinor(k) >= MinimumMinor)
  {
    var data := Contents(web, PathUri(path + "/"));
    var matches := LatestCandidates(data);
    available := SelectAll(matches, ComposeUri(path));
    NewestKeysAtOrAbove(matches, ComposeUri(path), MinimumMajor, MinimumMinor);
  }

  /** The `M.m[.z]/` directories of a major's released listing; minors below 5 dropped for RHEL 7. */
  function ReleasedCandidates(p: Page, major: nat): (r: seq<VersionDir>)
    ensures forall c :: c in r ==> c.major == major
    ensures major >= MinimumMajor ==> forall c :: c in r ==> AtOrAbove(c, MinimumMajor, MinimumMinor)
  {
    var matches := Collect(p.anchors, a => MinorDirOf(a, major, false));
    if major == MinimumMajor then AboveFloor(matches, MinimumMajor, MinimumMinor) else matches
  }

  function DirUri(path: string): string -> string
  {
    dir => PathUri(path) + "/" + dir
  }

  /** What `_availableReleasedMinors(path, major)` returns. */
  function ReleasedMinorsOf(web: Web, path: string, major: nat): Catalog
  {
    Newest(ReleasedCandidates(Contents(web, PathUri(path + "/")), major), DirUri(path))
  }

  /** `_availableReleasedMinors(path, major)`: per minor of `major`, the newest directory. */
  method AvailableReleasedMinors(web: Web, path: string, major: nat) returns (available: Catalog)
    ensures available == ReleasedMinorsOf(web, path, major)
    ensures forall k :: k in available ==> KeyMajor(k) == major
    ensures major == MinimumMajor ==> forall k :: k in available ==> KeyMinor(k) >= MinimumMinor
  {
    var data := Contents(web, PathUri(path + "/"));
    var matches := ReleasedCandidates(data, major);
    assert forall i :: 0 <= i < |matches| ==> matches[i] in matches;
    available := SelectMajor(matches, major, DirUri(path));
    SingleMajorIsNewest(available, matches, DirUri(path), major);
    OneMajorKeys(matches, DirUri(path), major, MinimumMajor, MinimumMinor);
  }

  /** The architecture probe of a root: its Server tree before RHEL 8, its BaseOS tree after. */
  function ArchProbe(key: string, value: string): string
  {
    value + "/" + (if KeyMajor(key) < 8 then "Server" else "BaseOS")
  }

  /**
   * `_filterNonExistentArchitecture(repoUris, architecture)`: the roots
   * whose probe listing has an `<architecture>/` directory.
   */
  function FilterNonExistentArchitecture(web: Web, repoUris: Catalog, architecture: string): (r: Catalog)
    ensures SubMap(r, repoUris)
    ensures forall k :: k in repoUris ==>
              (k in r <==> Mentions(Contents(web, ArchProbe(k, repoUris[k])), architecture + "/", true))
  {
    map k | k in repoUris && Mentions(Contents(web, ArchProbe(k, repoUris[k])), architecture + "/", true) :: repoUris[k]
  }

  /** The per-major path of the latest (`rel-eng`) or nightly (`nightly`) composes. */
  function ComposePath(kind: string, rhel: NumberedDir): string
  {
    "/" + rhel.dir + "/" + kind + "/" + UpperText(rhel.dir)
  }

  function ComposesPerMajor(web: Web, kind: string): seq<Catalog>
  {
    var rhels := MajorRhels(web, "", "rhel-");
    seq(|rhels|, i requires 0 <= i < |rhels| => LatestMinorsOf(web, ComposePath(kind, rhels[i])))
  }

  /** The agnostic latest (`kind` "rel-eng") or nightly (`kind` "nightly") roots. */
  function ComposeRootsOf(web: Web, kind: string): Catalog
  {
    MergeAll(ComposesPerMajor(web, kind))
  }

  function ReleasedPerMajor(web: Web): seq<Catalog>
  {
    var rhels := MajorRhels(web, "/released", "RHEL-");
    seq(|rhels|, i requires 0 <= i < |rhels| =>
      ReleasedMinorsOf(web, "/released/" + rhels[i].dir, NatOf(rhels[i].digits)))
  }

  /** The agnostic released roots scraped from the web. */
  function ReleasedWebRootsOf(web: Web): Catalog
  {
    MergeAll(ReleasedPerMajor(web))
  }

  /** No compose root is older than RHEL 7.5. */
  lemma ComposeRootsAboveFloor(web: Web, kind: string)
    ensures forall k :: k in ComposeRootsOf(web, kind) ==>
              KeyMajor(k) > MinimumMajor || (KeyMajor(k) == MinimumMajor && KeyMinor(k) >= MinimumMinor)
  {
    var cs := ComposesPerMajor(web, kind);
    var rhels := MajorRhels(web, "", "rhel-");
    forall k | k in MergeAll(cs)
      ensures KeyMajor(k) > MinimumMajor || (KeyMajor(k) == MinimumMajor && KeyMinor(k) >= MinimumMinor)
    {
      var i :| 0 <= i < |cs| && k in cs[i];
      var path := ComposePath(kind, rhels[i]);
      var matches := LatestCandidates(Contents(web, PathUri(path + "/")));
      NewestKeysAtOrAbove(matches, ComposeUri(path), MinimumMajor, MinimumMinor);
    }
  }

  /** No released root scraped from the web is older than RHEL 7.5. */
  lemma ReleasedRootsAboveFloor(web: Web)
    ensures forall k :: k in ReleasedWebRootsOf(web) ==>
              KeyMajor(k) > MinimumMajor || (KeyMajor(k) == MinimumMajor && KeyMinor(k) >= MinimumMinor)
  {
    var cs := ReleasedPerMajor(web);
    var rhels := MajorRhels(web, "/released", "RHEL-");
    forall k | k in MergeAll(cs)
      ensures KeyMajor(k) > MinimumMajor || (KeyMajor(k) == MinimumMajor && KeyMinor(k) >= MinimumMinor)
    {
      var i :| 0 <= i < |cs| && k in cs[i];
      assert rhels[i] in rhels;
      var major := NatOf(rhels[i].digits);
      var path := "/released/" + rhels[i].dir;
      var matches := ReleasedCandidates(Contents(web, PathUri(path + "/")), major);
      OneMajorKeys(matches, DirUri(path), major, MinimumMajor, MinimumMinor);
    }
  }

  /** The Beaker query for RHEL M.m: `RHEL-M.m` before RHEL 8, `RHEL-M.m.0` from 8 on. */
  function BeakerQuery(major: nat, minor: nat): Query
  {
    Query("RedHatEnterpriseLinux" + NatToString(major),
          "RHEL-" + Key(major, minor) + (if major < 8 then "" else ".0"))
  }

  function BeakerVariant(major: nat): string
  {
    if major < 8 then "Server" else "BaseOS"
  }

  /** What Beaker reports for each RHEL version. */
  function RhelLookup(bkr: Bkr): (nat, nat) -> Lookup
  {
    PairLookup(bkr, BeakerQuery, BeakerVariant, RSplit)
  }

  /**
   * Where `_availableReleased` takes its roots from: the outcome of the
   * Beaker walk from 7.5, with the web's released roots standing in when
   * Beaker is not installed.
   */
  ghost predicate ReleasedSource(r: Result<Catalog, WalkError>, web: Web, bkr: Bkr, bound: nat)
  {
    exists w :: PairOutcome(w, RhelLookup(bkr), MinimumMajor, MinimumMinor, bound)
                && r == OrFallback(w, ReleasedWebRootsOf(web))
  }

  /** Beaker's answers and the web leave the released roots only one value. */
  lemma ReleasedSourceUnique(a: Result<Catalog, WalkError>, b: Result<Catalog, WalkError>,
                             web: Web, bkr: Bkr, bound: nat)
    requires ReleasedSource(a, web, bkr, bound) && ReleasedSource(b, web, bkr, bound)
    ensures a == b
  {
    var wa :| PairOutcome(wa, RhelLookup(bkr), MinimumMajor, MinimumMinor, bound)
              && a == OrFallback(wa, ReleasedWebRootsOf(web));
    var wb :| PairOutcome(wb, RhelLookup(bkr), MinimumMajor, MinimumMinor, bound)
              && b == OrFallback(wb, ReleasedWebRootsOf(web));
    PairOutcomeUnique(wa, wb, RhelLookup(bkr), MinimumMajor, MinimumMinor, bound);
  }

  class RHEL {
    /** `__agnosticRoots`, keyed by category name. */
    var agnostic: map<string, Catalog>

    constructor ()
      ensures agnostic == map[]
    {
      agnostic := map[];
    }

    /** `_beakerRoots`: the walk from 7.5 with RHEL's names and variants. */
    method BeakerRoots(bkr: Bkr, bound: nat) returns (r: Result<Catalog, WalkError>)
      ensures PairOutcome(r, RhelLookup(bkr), MinimumMajor, MinimumMinor, bound)
    {
      r := PairWalk(bkr, BeakerQuery, BeakerVariant, RSplit, MinimumMajor, MinimumMinor, bound);
    }

    /** The loop of `_availableLatest`/`_availableNightly`: every major's minors, merged. */
    method FindComposeRoots(web: Web, kind: string) returns (roots: Catalog)
      ensures roots == ComposeRootsOf(web, kind)
    {
      var rhels := MajorRhels(web, "", "rhel-");
      ghost var cs := ComposesPerMajor(web, kind);
      roots := map[];
      var i := 0;
      while i < |rhels|
        invariant 0 <= i <= |rhels|
        invariant roots == MergeAll(cs[..i])
      {
        var found := AvailableLatestMinors(web, ComposePath(kind, rhels[i]));
        assert found == cs[i];
        MergeAllStep(cs, i);
        roots := Overlay(roots, found);
        i := i + 1;
      }
      assert cs[..i] == cs;
    }

    /** The web fallback of `_availableReleased`: every released major's minors, merged. */
    method FindReleasedRoots(web: Web) returns (roots: Catalog)
      ensures roots == ReleasedWebRootsOf(web)
    {
      var rhels := MajorRhels(web, "/released", "RHEL-");
      ghost var cs := ReleasedPerMajor(web);
      roots := map[];
      var i := 0;
      while i < |rhels|
        invariant 0 <= i <= |rhels|
        invariant roots == MergeAll(cs[..i])
      {
        assert rhels[i] in rhels;
        var found := AvailableReleasedMinors(web, "/released/" + rhels[i].dir, NatOf(rhels[i].digits));
        assert found == cs[i];
        MergeAllStep(cs, i);
        roots := Overlay(roots, found);
        i := i + 1;
      }
      assert cs[..i] == cs;
    }

    /** `_availableLatest(architecture)` (`kind` "rel-eng", category "latest") and `_availableNightly`. */
    method AvailableComposes(web: Web, category: Category, architecture: string) returns (r: Catalog)
      requires category != Released
      modifies this
      ensures var name := category.Name();
              && (name in old(agnostic) ==> agnostic == old(agnostic))
              && (name !in old(agnostic) ==>
                    agnostic == old(agnostic)[name := ComposeRootsOf(web, if category == Latest then "rel-eng" else "nightly")])
              && r == FilterNonExistentArchitecture(web, agnostic[name], architecture)
    {
      var name := category.Name();
      if name !in agnostic {
        var roots := FindComposeRoots(web, if category == Latest then "rel-eng" else "nightly");
        agnostic := agnostic[name := roots];
      }
      r := FilterNonExistentArchitecture(web, agnostic[name], architecture);
    }

    /**
     * `_availableReleased(architecture)`: Beaker's roots, or the web's
     * when Beaker is not installed; any other Beaker failure propagates
     * and leaves the memo as it was.
     */
    method AvailableReleased(web: Web, bkr: Bkr, bound: nat, architecture: string)
      returns (r: Result<Catalog, WalkError>)
      modifies this
      ensures "released" in old(agnostic) ==>
                agnostic == old(agnostic) && r == Ok(FilterNonExistentArchitecture(web, agnostic["released"], architecture))
      ensures "released" !in old(agnostic) && r.Err? ==>
                agnostic == old(agnostic) && ReleasedSource(r, web, bkr, bound)
      ensures "released" !in old(agnostic) && r.Ok? ==>
                && "released" in agnostic
                && agnostic == old(agnostic)["released" := agnostic["released"]]
                && ReleasedSource(Ok(agnostic["released"]), web, bkr, bound)
                && r.value == FilterNonExistentArchitecture(web, agnostic["released"], architecture)
    {
      if "released" !in agnostic {
        var roots: Catalog;
        var walk := BeakerRoots(bkr, bound);
        match walk {
          case Ok(found) =>
            roots := found;
          case Err(error) =>
            if error != BeakerAbsent {
              assert ReleasedSource(walk, web, bkr, bound);
              return Err(error);
            }
            roots := FindReleasedRoots(web);
        }
        assert OrFallback(walk, ReleasedWebRootsOf(web)) == Ok(roots);
        assert ReleasedSource(Ok(roots), web, bkr, bound);
        agnostic := agnostic["released" := roots];
      }
      r := Ok(FilterNonExistentArchitecture(web, agnostic["released"], architecture));
    }
  }
}
