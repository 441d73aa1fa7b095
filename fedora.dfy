/**
 * The Fedora provider of the repository-level engine. Roots are memoised
 * per category path; the released path asks Beaker first and scrapes the
 * web only when Beaker is not installed (an empty Beaker answer is kept
 * as it is), every other path is scraped. Latest is the development
 * path, and nightly is latest.
 */
module FedoraRepos {
  import opened Basics
  import opened Text
  import opened Listing
  import opened Catalogs
  import opened Transport
  import opened Beaker
  import opened Walks
  import opened FedoraCommon

  /** The provider reads every URI through its slash-normalising cache. */
  function View(web: Web): string -> Page
  {
    uri => Contents(web, uri)
  }

  /**
   * Where a path's agnostic roots come from: for a releases path, the
   * outcome of the Beaker walk from 28, with the scraped roots standing in
   * when Beaker is not installed; for any other path, the scraped roots.
   */
  ghost predicate AgnosticSource(r: Result<Catalog, WalkError>, web: Web, bkr: Bkr, bound: nat, path: string)
  {
    if EndsWith(path, "/releases") then
      exists w :: MajorOutcome(w, FedoraLookup(bkr, RSplit), MinimumMajor, bound)
                  && r == OrFallback(w, ScrapedRoots(View(web), path))
    else
      r == Ok(ScrapedRoots(View(web), path))
  }

  /** Beaker's answers and the web leave a path's agnostic roots only one value. */
  lemma AgnosticSourceUnique(a: Result<Catalog, WalkError>, b: Result<Catalog, WalkError>,
                             web: Web, bkr: Bkr, bound: nat, path: string)
    requires AgnosticSource(a, web, bkr, bound, path) && AgnosticSource(b, web, bkr, bound, path)
    ensures a == b
  {
    if EndsWith(path, "/releases") {
      var wa :| MajorOutcome(wa, FedoraLookup(bkr, RSplit), MinimumMajor, bound)
                && a == OrFallback(wa, ScrapedRoots(View(web), path));
      var wb :| MajorOutcome(wb, FedoraLookup(bkr, RSplit), MinimumMajor, bound)
                && b == OrFallback(wb, ScrapedRoots(View(web), path));
      MajorOutcomeUnique(wa, wb, FedoraLookup(bkr, RSplit), MinimumMajor, bound);
    }
  }

  /** Whichever way they were found, agnostic roots are keyed by versions of at least 28. */
  lemma AgnosticKeys(roots: Catalog, web: Web, bkr: Bkr, bound: nat, path: string)
    requires AgnosticSource(Ok(roots), web, bkr, bound, path)
    ensures forall k :: k in roots ==> IsDigits(k) && NatOf(k) >= MinimumMajor
  {
    if EndsWith(path, "/releases") {
      var w :| MajorOutcome(w, FedoraLookup(bkr, RSplit), MinimumMajor, bound)
               && Ok(roots) == OrFallback(w, ScrapedRoots(View(web), path));
      if w.Ok? {
        BeakerKeys(roots, bkr, RSplit);
      }
    }
  }

  class Fedora {
    /** `__agnosticRoots`, keyed by category path. */
    var agnostic: map<string, Catalog>

    constructor ()
      ensures agnostic == map[]
    {
      agnostic := map[];
    }

    /** `_beakerRoots`: the walk over majors from 28. */
    method BeakerRoots(bkr: Bkr, bound: nat) returns (r: Result<Catalog, WalkError>)
      ensures MajorOutcome(r, FedoraLookup(bkr, RSplit), MinimumMajor, bound)
    {
      r := MajorWalk(bkr, BeakerQuery, BeakerVariant, RSplit, MinimumMajor, bound);
    }

    /** `_agnosticRoots(path)`. */
    method AgnosticRoots(web: Web, bkr: Bkr, bound: nat, path: string) returns (r: Result<Catalog, WalkError>)
      modifies this
      ensures path in old(agnostic) ==> agnostic == old(agnostic) && r == Ok(agnostic[path])
      ensures path !in old(agnostic) ==> AgnosticSource(r, web, bkr, bound, path)
      ensures path !in old(agnostic) && r.Err? ==> agnostic == old(agnostic)
      ensures path !in old(agnostic) && r.Ok? ==> agnostic == old(agnostic)[path := r.value]
    {
      if path !in agnostic {
        var roots: Option<Catalog> := None;
        if EndsWith(path, "/releases") {
          var walk := BeakerRoots(bkr, bound);
          ghost var scraped := ScrapedRoots(View(web), path);
          match walk {
            case Ok(found) =>
              roots := Some(found);
            case Err(error) =>
              if error != BeakerAbsent {
                assert OrFallback(walk, scraped) == walk;
                return Err(error);
              }
          }
          if roots.None? {
            roots := Some(ScrapedRoots(View(web), path));
          }
          assert OrFallback(walk, scraped) == Ok(roots.value);
        } else {
          roots := Some(ScrapedRoots(View(web), path));
        }
        agnostic := agnostic[path := roots.value];
      }
      r := Ok(agnostic[path]);
    }

    /** `_availableCommon(path, architecture)`: the path's roots that have the architecture. */
    method AvailableCommon(web: Web, bkr: Bkr, bound: nat, path: string, architecture: string)
      returns (r: Result<Catalog, WalkError>)
      modifies this
      ensures path in old(agnostic) ==> agnostic == old(agnostic) && r.Ok?
      ensures path !in old(agnostic) && r.Ok? ==>
                && path in agnostic
                && agnostic == old(agnostic)[path := agnostic[path]]
                && AgnosticSource(Ok(agnostic[path]), web, bkr, bound, path)
      ensures r.Ok? ==> path in agnostic
                        && r.value == CarryingArchitecture(View(web), agnostic[path], architecture)
      ensures r.Err? ==> agnostic == old(agnostic) && path !in agnostic && AgnosticSource(r, web, bkr, bound, path)
    {
      var roots := AgnosticRoots(web, bkr, bound, path);
      match roots {
        case Err(error) => r := Err(error);
        case Ok(found) => r := Ok(CarryingArchitecture(View(web), found, architecture));
      }
    }

    /** `_availableLatest(architecture)`, which `_availableNightly` also answers with. */
    method AvailableLatest(web: Web, bkr: Bkr, bound: nat, secondary: bool, architecture: string)
      returns (r: Catalog)
      modifies this
      ensures var path := StartingPath(secondary) + "/development";
              && path in agnostic
              && (path in old(agnostic) ==> agnostic == old(agnostic))
              && (path !in old(agnostic) ==> agnostic == old(agnostic)[path := ScrapedRoots(View(web), path)])
              && r == CarryingArchitecture(View(web), agnostic[path], architecture)
    {
      var path := StartingPath(secondary) + "/development";
      ghost var scraped := ScrapedRoots(View(web), path);
      assert !EndsWith(path, "/releases") by {
        assert path[|path| - 1] == 't';
      }
      assert AgnosticSource(Ok(scraped), web, bkr, bound, path);
      var common := AvailableCommon(web, bkr, bound, path, architecture);
      r := common.value;
    }

    /** `_availableReleased(architecture)`. */
    method AvailableReleased(web: Web, bkr: Bkr, bound: nat, secondary: bool, architecture: string)
      returns (r: Result<Catalog, WalkError>)
      modifies this
      ensures var path := StartingPath(secondary) + "/releases";
              && (path in old(agnostic) ==>
                    agnostic == old(agnostic) && r == Ok(CarryingArchitecture(View(web), agnostic[path], architecture)))
              && (r.Err? ==> agnostic == old(agnostic) && AgnosticSource(r, web, bkr, bound, path))
              && (r.Ok? ==> path in agnostic
                            && r.value == CarryingArchitecture(View(web), agnostic[path], architecture)
                            && (path !in old(agnostic) ==> AgnosticSource(Ok(agnostic[path]), web, bkr, bound, path)))
    {
      var path := StartingPath(secondary) + "/releases";
      r := AvailableCommon(web, bkr, bound, path, architecture);
    }
  }
}
