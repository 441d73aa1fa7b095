/**
 * The CentOS provider: released roots from Beaker or, when Beaker is not
 * installed, from `/released/CentOS`; latest and nightly are the
 * released roots. Everything is memoised under "released" and narrowed
 * to the roots whose BaseOS tree carries the requested architecture.
 */
module CentOSRepos {
  import opened Basics
  import opened Text
  import opened Listing
  import opened Catalogs
  import opened Selection
  import opened Transport
  import opened Beaker
  import opened Walks

  const Host := "download.eng.bos.redhat.com"
  const MinimumMajor: nat := 8
  const MinimumMinor: nat := 3
  const ReleasedStartingPath := "/released/CentOS"

  function PathUri(path: string): string
  {
    "http://" + Host + path
  }

  /** The `M.m[.z]/` directories of a major's listing, matched without regard to case; minors below 3 dropped for CentOS 8. */
  function ReleasedCandidates(p: Page, major: nat): (r: seq<VersionDir>)
    ensures forall c :: c in r ==> c.major == major
    ensures major >= MinimumMajor ==> forall c :: c in r ==> AtOrAbove(c, MinimumMajor, MinimumMinor)
  {
    var matches := Collect(p.anchors, a => MinorDirOf(a, major, true));
    if major == MinimumMajor then AboveFloor(matches, MinimumMajor, MinimumMinor) else matches
  }

  function DirUri(path: string): string -> string
  {
    dir => PathUri(path) + "/" + dir
  }

  /** What `_availableReleasedMinors(path, major)` returns. */
  function ReleasedMinorsOf(web: Web, path: string, major: nat): Catalog
  {
    Newest(ReleasedCandidates(Contents(web, PathUri(path + "/")), major), DirUri(path))
  }

  /** `_availableReleasedMinors(path, major)`: per minor of `major`, the newest directory. */
  method AvailableReleasedMinors(web: Web, path: string, major: nat) returns (available: Catalog)
    ensures available == ReleasedMinorsOf(web, path, major)
    ensures forall k :: k in available ==> KeyMajor(k) == major
    ensures major == MinimumMajor ==> forall k :: k in available ==> KeyMinor(k) >= MinimumMinor
  {
    var data := Contents(web, PathUri(path + "/"));
    var matches := ReleasedCandidates(data, major);
    available := SelectMajor(matches, major, DirUri(path));
    SingleMajorIsNewest(available, matches, DirUri(path), major);
    OneMajorKeys(matches, DirUri(path), major, MinimumMajor, MinimumMinor);
  }

  /** The architecture probe of a root: always its BaseOS tree. */
  function ArchProbe(value: string): string
  {
    value + "/BaseOS"
  }

  /** `_filterNonExistentArchitecture`: the roots whose BaseOS listing has an `<architecture>/` directory. */
  function FilterNonExistentArchitecture(web: Web, repoUris: Catalog, architecture: string): (r: Catalog)
    ensures SubMap(r, repoUris)
    ensures forall k :: k in repoUris ==>
              (k in r <==> Mentions(Contents(web, ArchProbe(repoUris[k])), architecture + "/", true))
  {
    map k | k in repoUris && Mentions(Contents(web, ArchProbe(repoUris[k])), architecture + "/", true) :: repoUris[k]
  }

  /** The `centos-N/` directories of the released listing with N at least 8. */
  function MajorCentOSes(web: Web): (r: seq<NumberedDir>)
    ensures forall d :: d in r ==> IsDigits(d.digits) && NatOf(d.digits) >= MinimumMajor
  {
    NumberedDirs(Contents(web, PathUri(ReleasedStartingPath + "/")), "centos-", true, MinimumMajor)
  }

  /** A major's listing, under the lower-case name whatever the case of the matched link. */
  function MajorPath(release: NumberedDir): string
  {
    ReleasedStartingPath + "/centos-" + release.digits
  }

  function ReleasedPerMajor(web: Web): seq<Catalog>
  {
    var releases := MajorCentOSes(web);
    seq(|releases|, i requires 0 <= i < |releases| =>
      ReleasedMinorsOf(web, MajorPath(releases[i]), NatOf(releases[i].digits)))
  }

  /** The agnostic released roots scraped from the web. */
  function ReleasedWebRootsOf(web: Web): Catalog
  {
    MergeAll(ReleasedPerMajor(web))
  }

  /** No released root scraped from the web is older than CentOS 8.3. */
  lemma ReleasedRootsAboveFloor(web: Web)
    ensures forall k :: k in ReleasedWebRootsOf(web) ==>
              KeyMajor(k) > MinimumMajor || (KeyMajor(k) == MinimumMajor && KeyMinor(k) >= MinimumMinor)
  {
    var cs := ReleasedPerMajor(web);
    var releases := MajorCentOSes(web);
    forall k | k in MergeAll(cs)
      ensures KeyMajor(k) > MinimumMajor || (KeyMajor(k) == MinimumMajor && KeyMinor(k) >= MinimumMinor)
    {
      var i :| 0 <= i < |cs| && k in cs[i];
      assert releases[i] in releases;
      var major := NatOf(releases[i].digits);
      var path := MajorPath(releases[i]);
      OneMajorKeys(ReleasedCandidates(Contents(web, PathUri(path + "/")), major), DirUri(path), major, MinimumMajor, MinimumMinor);
    }
  }

  /** The Beaker query for CentOS M.m. */
  function BeakerQuery(major: nat, minor: nat): Query
  {
    Query("CentOSLinux" + NatToString(major), "CentOS-" + Key(major, minor))
  }

  function BeakerVariant(major: nat): string
  {
    "BaseOS"
  }

  function CentOSLookup(bkr: Bkr): (nat, nat) -> Lookup
  {
    PairLookup(bkr, BeakerQuery, BeakerVariant, RSplit)
  }

  /**
   * Where `_availableReleased` takes its roots from: the outcome of the
   * Beaker walk from 8.3, with the web's released roots standing in when
   * Beaker is not installed.
   */
  ghost predicate ReleasedSource(r: Result<Catalog, WalkError>, web: Web, bkr: Bkr, bound: nat)
  {
    exists w :: PairOutcome(w, CentOSLookup(bkr), MinimumMajor, MinimumMinor, bound)
                && r == OrFallback(w, ReleasedWebRootsOf(web))
  }

  /** Beaker's answers and the web leave the released roots only one value. */
  lemma ReleasedSourceUnique(a: Result<Catalog, WalkError>, b: Result<Catalog, WalkError>,
                             web: Web, bkr: Bkr, bound: nat)
    requires ReleasedSource(a, web, bkr, bound) && ReleasedSource(b, web, bkr, bound)
    ensures a == b
  {
    var wa :| PairOutcome(wa, CentOSLookup(bkr), MinimumMajor, MinimumMinor, bound)
              && a == OrFallback(wa, ReleasedWebRootsOf(web));
    var wb :| PairOutcome(wb, CentOSLookup(bkr), MinimumMajor, MinimumMinor, bound)
              && b == OrFallback(wb, ReleasedWebRootsOf(web));
    PairOutcomeUnique(wa, wb, CentOSLookup(bkr), MinimumMajor, MinimumMinor, bound);
  }

  class CentOS {
    /** `__agnosticRoots`, keyed by category name; only "released" is ever stored. */
    var agnostic: map<string, Catalog>

    constructor ()
      ensures agnostic == map[]
    {
      agnostic := map[];
    }

    /** `_beakerRoots`: the walk from 8.3 with CentOS's names and the BaseOS variant. */
    method BeakerRoots(bkr: Bkr, bound: nat) returns (r: Result<Catalog, WalkError>)
      ensures PairOutcome(r, CentOSLookup(bkr), MinimumMajor, MinimumMinor, bound)
    {
      r := PairWalk(bkr, BeakerQuery, BeakerVariant, RSplit, MinimumMajor, MinimumMinor, bound);
    }

    /** The web fallback of `_availableReleased`. */
    method FindReleasedRoots(web: Web) returns (roots: Catalog)
      ensures roots == ReleasedWebRootsOf(web)
    {
      var releases := MajorCentOSes(web);
      ghost var cs := ReleasedPerMajor(web);
      roots := map[];
      var i := 0;
      while i < |releases|
        invariant 0 <= i <= |releases|
        invariant roots == MergeAll(cs[..i])
      {
        assert releases[i] in releases;
        var found := AvailableReleasedMinors(web, MajorPath(releases[i]), NatOf(releases[i].digits));
        assert found == cs[i];
        MergeAllStep(cs, i);
        roots := Overlay(roots, found);
        i := i + 1;
      }
      assert cs[..i] == cs;
    }

    /**
     * `_availableReleased(architecture)`, which `_availableLatest` and
     * `_availableNightly` also answer with.
     */
    method AvailableReleased(web: Web, bkr: Bkr, bound: nat, architecture: string)
      returns (r: Result<Catalog, WalkError>)
      modifies this
      ensures "released" in old(agnostic) ==>
                agnostic == old(agnostic) && r == Ok(FilterNonExistentArchitecture(web, agnostic["released"], architecture))
      ensures "released" !in old(agnostic) && r.Err? ==>
                agnostic == old(agnostic) && ReleasedSource(r, web, bkr, bound)
      ensures "released" !in old(agnostic) && r.Ok? ==>
                && "released" in agnostic
                && agnostic == old(agnostic)["released" := agnostic["released"]]
                && ReleasedSource(Ok(agnostic["released"]), web, bkr, bound)
                && r.value == FilterNonExistentArchitecture(web, agnostic["released"], architecture)
    {
      if "released" !in agnostic {
        var roots: Catalog;
        var walk := BeakerRoots(bkr, bound);
        match walk {
          case Ok(found) =>
            roots := found;
          case Err(error) =>
            if error != BeakerAbsent {
              assert ReleasedSource(walk, web, bkr, bound);
              return Err(error);
            }
            roots := FindReleasedRoots(web);
        }
        assert OrFallback(walk, ReleasedWebRootsOf(web)) == Ok(roots);
        assert ReleasedSource(Ok(roots), web, bkr, bound);
        agnostic := agnostic["released" := roots];
      }
      r := Ok(FilterNonExistentArchitecture(web, agnostic["released"], architecture));
    }

    /** `_availableLatest` and `_availableNightly`: the released roots, through the same memo. */
    method AvailableLatest(web: Web, bkr: Bkr, bound: nat, architecture: string)
      returns (r: Result<Catalog, WalkError>)
      modifies this
      ensures "released" in old(agnostic) ==>
                agnostic == old(agnostic) && r == Ok(FilterNonExistentArchitecture(web, agnostic["released"], architecture))
      ensures "released" !in old(agnostic) && r.Err? ==>
                agnostic == old(agnostic) && ReleasedSource(r, web, bkr, bound)
      ensures "released" !in old(agnostic) && r.Ok? ==>
                && "released" in agnostic
                && agnostic == old(agnostic)["released" := agnostic["released"]]
                && ReleasedSource(Ok(agnostic["released"]), web, bkr, bound)
                && r.value == FilterNonExistentArchitecture(web, agnostic["released"], architecture)
    {
      r := AvailableReleased(web, bkr, bound, architecture);
    }
  }

  /** Once the memo holds the released roots, every category answers with the same filtered roots. */
  method CategoriesAgree(c: CentOS, web: Web, bkr: Bkr, bound: nat, architecture: string)
    returns (latest: Result<Catalog, WalkError>, released: Result<Catalog, WalkError>)
    modifies c
    ensures latest.Ok? ==> released == latest
  {
    latest := c.AvailableLatest(web, bkr, bound, architecture);
    released := c.AvailableReleased(web, bkr, bound, architecture);
  }
}
