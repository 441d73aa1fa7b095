/**
 * The Fedora provider of the older, `RepoRoots`-based engine. It scrapes
 * and filters like the repository-level provider but reads every URI
 * through the exact-URI cache, and its Beaker walk asks for a
 * `_beakerDistroTree` method that neither it nor its base class defines:
 * the first lookup raises `AttributeError`, which the walk's caller does
 * not catch. The released path therefore never yields roots; the
 * development path, which never consults Beaker, is unaffected.
 */
module FedoraRootsRepos {
  import opened Basics
  import opened Text
  import opened Listing
  import opened Catalogs
  import opened Beaker
  import opened Walks
  import opened FedoraCommon

  /** The `AttributeError` raised by the call to the missing `_beakerDistroTree`. */
  datatype RootsError = MissingDistroTreeMethod

  class FedoraRoots {
    /** `__agnosticRoots`, keyed by category path. */
    var agnostic: map<string, Catalog>

    /** No releases path is ever memoised: filling one needs the missing method. */
    ghost predicate Valid()
      reads this
    {
      forall p :: p in agnostic ==> !EndsWith(p, "/releases")
    }

    constructor ()
      ensures agnostic == map[] && Valid()
    {
      agnostic := map[];
    }

    /**
     * `_beakerRoots` as written: the first major's lookup calls the
     * missing method, before any Beaker query is made.
     */
    method BeakerRoots() returns (r: Result<Catalog, RootsError>)
      ensures r == Err(MissingDistroTreeMethod)
    {
      r := Err(MissingDistroTreeMethod);
    }

    /** `_agnosticRoots(path)`: only `RepoRootsBeakerNotFound` is caught, so the released path fails. */
    method AgnosticRoots(web: string -> Page, path: string) returns (r: Result<Catalog, RootsError>)
      modifies this
      ensures old(Valid()) ==> Valid()
      ensures path in old(agnostic) ==> agnostic == old(agnostic) && r == Ok(agnostic[path])
      ensures path !in old(agnostic) ==> (r.Err? <==> EndsWith(path, "/releases"))
      ensures path !in old(agnostic) && r.Err? ==> agnostic == old(agnostic)
      ensures path !in old(agnostic) && r.Ok? ==>
                agnostic == old(agnostic)[path := ScrapedRoots(web, path)] && r.value == ScrapedRoots(web, path)
    {
      if path !in agnostic {
        if EndsWith(path, "/releases") {
          var walk := BeakerRoots();
          return Err(walk.error);
        }
        agnostic := agnostic[path := ScrapedRoots(web, path)];
      }
      r := Ok(agnostic[path]);
    }

    /** `_availableCommon(path, architecture)`. */
    method AvailableCommon(web: string -> Page, path: string, architecture: string)
      returns (r: Result<Catalog, RootsError>)
      modifies this
      ensures old(Valid()) ==> Valid()
      ensures path in old(agnostic) ==>
                agnostic == old(agnostic) && r == Ok(CarryingArchitecture(web, agnostic[path], architecture))
      ensures path !in old(agnostic) ==> (r.Err? <==> EndsWith(path, "/releases"))
      ensures path !in old(agnostic) && r.Err? ==> agnostic == old(agnostic)
      ensures path !in old(agnostic) && r.Ok? ==>
                && agnostic == old(agnostic)[path := ScrapedRoots(web, path)]
                && r.value == CarryingArchitecture(web, ScrapedRoots(web, path), architecture)
    {
      var roots := AgnosticRoots(web, path);
      match roots {
        case Err(error) => r := Err(error);
        case Ok(found) => r := Ok(CarryingArchitecture(web, found, architecture));
      }
    }

    /** `_availableLatest(architecture)` (and `_availableNightly`): the development path. */
    method AvailableLatest(web: string -> Page, secondary: bool, architecture: string) returns (r: Catalog)
      modifies this
      ensures old(Valid()) ==> Valid()
      ensures var path := StartingPath(secondary) + "/development";
              && path in agnostic
              && (path !in old(agnostic) ==> agnostic == old(agnostic)[path := ScrapedRoots(web, path)])
              && (path in old(agnostic) ==> agnostic == old(agnostic))
              && r == CarryingArchitecture(web, agnostic[path], architecture)
    {
      var path := StartingPath(secondary) + "/development";
      assert !EndsWith(path, "/releases") by {
        assert path[|path| - 1] == 't';
      }
      var common := AvailableCommon(web, path, architecture);
      r := common.value;
    }

    /** `_availableReleased(architecture)`: the released path. */
    method AvailableReleased(web: string -> Page, secondary: bool, architecture: string)
      returns (r: Result<Catalog, RootsError>)
      modifies this
      ensures old(Valid()) ==> Valid()
      ensures var path := StartingPath(secondary) + "/releases";
              && (path in old(agnostic) ==>
                    agnostic == old(agnostic) && r == Ok(CarryingArchitecture(web, agnostic[path], architecture)))
              && (path !in old(agnostic) ==> agnostic == old(agnostic) && r == Err(MissingDistroTreeMethod))
    {
      var path := StartingPath(secondary) + "/releases";
      assert EndsWith(path, "/releases");
      r := AvailableCommon(web, path, architecture);
      if r.Err? {
        assert r.error.MissingDistroTreeMethod?;
      }
    }
  }

  /**
   * The rest of `_beakerRoots`, as it would run if the distro-tree lookup
   * answered like the `bkr distro-trees-list` call of `_beakerRoot`: the
   * walk over majors from 28, each tree URI cut with `rstrip`.
   */
  method DistroTreeWalk(bkr: Bkr, bound: nat) returns (r: Result<Catalog, WalkError>)
    ensures MajorOutcome(r, FedoraLookup(bkr, RStripChars), MinimumMajor, bound)
  {
    r := MajorWalk(bkr, BeakerQuery, BeakerVariant, RStripChars, MinimumMajor, bound);
  }

  /**
   * Released roots are never produced, whatever was asked before: no
   * call memoises the released path, so every released query raises.
   */
  method ReleasedAlwaysRaises(provider: FedoraRoots, web: string -> Page, secondary: bool, architecture: string)
    returns (r: Result<Catalog, RootsError>)
    requires provider.Valid()
    modifies provider
    ensures r == Err(MissingDistroTreeMethod) && provider.Valid()
  {
    r := provider.AvailableReleased(web, secondary, architecture);
  }

  /** Released roots are never produced: the only way to fill the memo for the released path is blocked. */
  method ReleasedNeverAnswers(web: string -> Page, secondary: bool, architecture: string)
    returns (r: Result<Catalog, RootsError>)
    ensures r == Err(MissingDistroTreeMethod)
  {
    var provider := new FedoraRoots();
    r := provider.AvailableReleased(web, secondary, architecture);
  }
}
