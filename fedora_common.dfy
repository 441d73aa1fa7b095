/**
 * What the two Fedora providers share: the starting paths on
 * dl.fedoraproject.org, the scrape of the numbered release directories
 * (versions 28 and up, Fedora 28 being the first with VDO), the move of
 * archived versions to archives.fedoraproject.org, the per-architecture
 * probe, and the Beaker walk over majors.
 *
 * A listing is read through `view`, the page a URI yields: the
 * repository-level provider reads through its slash-normalising cache,
 * the older one through its exact-URI cache.
 */
module FedoraCommon {
  import opened Basics
  import opened Text
  import opened Listing
  import opened Catalogs
  import opened Beaker
  import opened Walks

  const Host := "dl.fedoraproject.org"
  const ArchiveHost := "archives.fedoraproject.org"
  const MinimumMajor: nat := 28

  function PathUri(path: string): string
  {
    "http://" + Host + path
  }

  /** The primary architectures' tree, or the secondary architectures' one. */
  function StartingPath(secondary: bool): (r: string)
    ensures StartsWith(r, "/pub/fedora")
    ensures secondary <==> EndsWith(r, "-secondary")
  {
    if secondary then "/pub/fedora-secondary" else "/pub/fedora/linux"
  }

  /** Where the archive server keeps a path: its first "/pub/" becomes "/pub/archive/". */
  function ArchivePath(path: string): string
  {
    ReplaceFirst(path, "/pub/", "/pub/archive/")
  }

  /** A path under "/pub/" moves to the same place under "/pub/archive/". */
  lemma ArchivePathOfPub(rest: string)
    ensures ArchivePath("/pub/" + rest) == "/pub/archive/" + rest
  {
    var s := "/pub/" + rest;
    assert OccursAt(s, "/pub/", 0);
    assert s[5..] == rest;
  }

  /** The version's listing has a `README` link: the version has been archived. */
  predicate Archived(view: string -> Page, path: string, version: string)
  {
    Mentions(view(PathUri(path + "/" + version + "/")), "README", true)
  }

  /** `_availableUri(path, version)`: the version's root, on the archive server once archived. */
  function AvailableUri(view: string -> Page, path: string, version: string): (r: string)
    ensures EndsWith(r, "/" + version)
    ensures StartsWith(r, "http://" + ArchiveHost) <==> Archived(view, path, version)
    ensures !Archived(view, path, version) ==> StartsWith(r, PathUri(path))
  {
    var tail := "/" + version;
    if Archived(view, path, version) then
      var r := "http://" + ArchiveHost + ArchivePath(path) + tail;
      assert r[|r| - |tail|..] == tail;
      assert r[..|"http://" + ArchiveHost|] == "http://" + ArchiveHost;
      r
    else
      var r := PathUri(path) + tail;
      assert r[|r| - |tail|..] == tail;
      assert r[..|PathUri(path)|] == PathUri(path);
      assert r[7] == 'd';
      r
  }

  /** An archived version under "/pub/" is served from "/pub/archive/" on the archive host. */
  lemma ArchivedUnderPub(view: string -> Page, rest: string, version: string)
    requires Archived(view, "/pub/" + rest, version)
    ensures AvailableUri(view, "/pub/" + rest, version)
            == "http://" + ArchiveHost + "/pub/archive/" + rest + "/" + version
  {
    ArchivePathOfPub(rest);
  }

  /** The `\d+/` directories of a listing, matched without regard to case, numbered 28 or more. */
  function Versions(p: Page): (r: seq<NumberedDir>)
    ensures forall d :: d in r ==> IsDigits(d.digits) && NatOf(d.digits) >= MinimumMajor && d.dir == d.digits
  {
    NumberedDirs(p, "", true, MinimumMajor)
  }

  /** The version numbers of a listing, as written in it. */
  function VersionKeys(p: Page): (r: set<string>)
    ensures forall k :: k in r ==> IsDigits(k) && NatOf(k) >= MinimumMajor
    ensures forall k :: k in r <==> exists d :: d in Versions(p) && d.digits == k
  {
    set d | d in Versions(p) :: d.digits
  }

  /** The roots scraped from `path`'s listing, keyed by version. */
  function ScrapedRoots(view: string -> Page, path: string): (r: Catalog)
    ensures r.Keys == VersionKeys(view(PathUri(path + "/")))
    ensures forall k :: k in r ==> IsDigits(k) && NatOf(k) >= MinimumMajor
    ensures forall k :: k in r ==> EndsWith(r[k], "/" + k)
  {
    map k | k in VersionKeys(view(PathUri(path + "/"))) :: AvailableUri(view, path, k)
  }

  /** The probe of a root for an architecture: its `Everything/<architecture>` tree. */
  function EverythingProbe(value: string, architecture: string): string
  {
    value + "/Everything/" + architecture
  }

  /** The filter of `_availableCommon`: roots whose architecture tree yields a non-empty page. */
  function CarryingArchitecture(view: string -> Page, roots: Catalog, architecture: string): (r: Catalog)
    ensures SubMap(r, roots)
    ensures forall k :: k in roots ==> (k in r <==> view(EverythingProbe(roots[k], architecture)).raw != "")
  {
    map k | k in roots && view(EverythingProbe(roots[k], architecture)).raw != "" :: roots[k]
  }

  /** The Beaker query for Fedora M. */
  function BeakerQuery(major: nat): Query
  {
    Query("Fedora" + NatToString(major), "Fedora-" + NatToString(major))
  }

  function BeakerVariant(major: nat): string
  {
    if major < 31 then "Server" else "Everything"
  }

  /** What Beaker reports for each Fedora major. */
  function FedoraLookup(bkr: Bkr, mode: StripMode): nat -> Lookup
  {
    MajorLookup(bkr, BeakerQuery, BeakerVariant, mode)
  }

  /** Every key of a finished Beaker walk is a rendered major of at least 28. */
  lemma BeakerKeys(roots: Catalog, bkr: Bkr, mode: StripMode)
    requires MajorCatalog(roots, FedoraLookup(bkr, mode), MinimumMajor)
    ensures forall k :: k in roots ==> IsDigits(k) && NatOf(k) >= MinimumMajor
  {
    forall k | k in roots
      ensures IsDigits(k) && NatOf(k) >= MinimumMajor
    {
      var M: nat :| k == NatToString(M) && MajorReached(FedoraLookup(bkr, mode), MinimumMajor, M)
                    && FedoraLookup(bkr, mode)(M) == Found(Some(roots[k]));
      NatToStringRoundTrip(M);
    }
  }
}
