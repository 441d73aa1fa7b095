/**
 * The Fedora provider of the original `RepoRoots` engine: every call
 * scrapes the development or releases listing afresh, with no Beaker
 * lookup, no memo and no architecture filter; only the choice between
 * the primary and the secondary tree depends on the architecture.
 */
module LegacyFedoraRoots {
  import opened Text
  import opened Listing
  import opened Catalogs
  import FedoraCommon

  /** `_startingPath(architecture)`: ppc64le and s390x live in the secondary tree. */
  function StartingPath(architecture: string): (r: string)
    ensures StartsWith(r, "/pub/fedora")
    ensures EndsWith(r, "-secondary") <==> architecture == "ppc64le" || architecture == "s390x"
  {
    FedoraCommon.StartingPath(architecture == "ppc64le" || architecture == "s390x")
  }

  /** `_availableLatest(architecture)`: the versions of the development tree. */
  function AvailableLatest(web: string -> Page, architecture: string): (r: Catalog)
    ensures forall k :: k in r ==> IsDigits(k) && NatOf(k) >= FedoraCommon.MinimumMajor && EndsWith(r[k], "/" + k)
    ensures r.Keys == FedoraCommon.VersionKeys(web(FedoraCommon.PathUri(StartingPath(architecture) + "/development" + "/")))
  {
    FedoraCommon.ScrapedRoots(web, StartingPath(architecture) + "/development")
  }

  /** `_availableReleased(architecture)`: the versions of the releases tree. */
  function AvailableReleased(web: string -> Page, architecture: string): (r: Catalog)
    ensures forall k :: k in r ==> IsDigits(k) && NatOf(k) >= FedoraCommon.MinimumMajor && EndsWith(r[k], "/" + k)
    ensures r.Keys == FedoraCommon.VersionKeys(web(FedoraCommon.PathUri(StartingPath(architecture) + "/releases" + "/")))
  {
    FedoraCommon.ScrapedRoots(web, StartingPath(architecture) + "/releases")
  }

  /** `availableRoots`: every version of either tree, the releases tree winning. */
  function AvailableRoots(web: string -> Page, architecture: string): (r: Catalog)
    ensures r.Keys == AvailableLatest(web, architecture).Keys + AvailableReleased(web, architecture).Keys
    ensures forall k :: k in AvailableReleased(web, architecture) ==> r[k] == AvailableReleased(web, architecture)[k]
    ensures forall k :: k in r && k !in AvailableReleased(web, architecture) ==> r[k] == AvailableLatest(web, architecture)[k]
  {
    Overlay(AvailableLatest(web, architecture), AvailableReleased(web, architecture))
  }

  /** `availableLatestRoots`: every version of either tree, the development tree winning. */
  function AvailableLatestRoots(web: string -> Page, architecture: string): (r: Catalog)
    ensures r.Keys == AvailableLatest(web, architecture).Keys + AvailableReleased(web, architecture).Keys
    ensures forall k :: k in AvailableLatest(web, architecture) ==> r[k] == AvailableLatest(web, architecture)[k]
    ensures forall k :: k in r && k !in AvailableLatest(web, architecture) ==> r[k] == AvailableReleased(web, architecture)[k]
  {
    Overlay(AvailableReleased(web, architecture), AvailableLatest(web, architecture))
  }
}
