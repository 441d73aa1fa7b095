/**
 * The RHEL provider of the older `RepoRoots` engine. It reads the
 * `/composes` tree directly, without memo or architecture filter, and
 * its range walks have no guard: a listing with no candidates, or a
 * (major, minor) gap inside the walked range, raises `ValueError` from
 * `min()`/`max()` of an empty list instead of being skipped. Released
 * versions live under `released-RHEL-N/RHEL-N`, matched without regard to
 * case.
 */
module LegacyRhelRoots {
  import opened Basics
  import opened Text
  import opened Listing
  import opened Catalogs
  import opened Selection
  import RhelRepos

  const StartingPath := "/composes"

  /** Where the legacy engine reads a path: the page of its URI, fetched anew on every call. */
  function PathContents(web: string -> Page, path: string): Page
  {
    web(RhelRepos.PathUri(path))
  }

  /** The `latest-RHEL-M.m[.z]/` directories of `/composes/`, without those below 7.5. */
  function LatestCandidates(web: string -> Page): (r: seq<VersionDir>)
    ensures forall c :: c in r ==> AtOrAbove(c, RhelRepos.MinimumMajor, RhelRepos.MinimumMinor)
  {
    RhelRepos.LatestCandidates(PathContents(web, StartingPath + "/"))
  }

  /** What `_availableLatest` returns, or the `ValueError` it raises. */
  function LatestOf(web: string -> Page): Result<Catalog, SelectionError>
  {
    var cs := LatestCandidates(web);
    if Dense(cs) then Ok(Newest(cs, RhelRepos.ComposeUri(StartingPath))) else Err(EmptySequence)
  }

  /** `_availableLatest(architecture)`. */
  method AvailableLatest(web: string -> Page) returns (r: Result<Catalog, SelectionError>)
    ensures r == LatestOf(web)
    ensures r.Ok? ==> forall k :: k in r.value ==>
              KeyMajor(k) > RhelRepos.MinimumMajor
              || (KeyMajor(k) == RhelRepos.MinimumMajor && KeyMinor(k) >= RhelRepos.MinimumMinor)
  {
    var matches := LatestCandidates(web);
    r := StrictSelectAll(matches, RhelRepos.ComposeUri(StartingPath));
    NewestKeysAtOrAbove(matches, RhelRepos.ComposeUri(StartingPath), RhelRepos.MinimumMajor, RhelRepos.MinimumMinor);
  }

  /** The `M.m[.z]/` directories of a major's listing, any case; minors below 5 dropped for RHEL 7. */
  function ReleasedCandidates(p: Page, major: nat): (r: seq<VersionDir>)
    ensures forall c :: c in r ==> c.major == major
    ensures major == RhelRepos.MinimumMajor ==> forall c :: c in r ==> c.minor >= RhelRepos.MinimumMinor
  {
    var matches := Collect(p.anchors, a => MinorDirOf(a, major, true));
    if major == RhelRepos.MinimumMajor
    then AboveFloor(matches, RhelRepos.MinimumMajor, RhelRepos.MinimumMinor)
    else matches
  }

  /** The directory of a major's released versions. */
  function MinorsPath(path: string, major: nat): string
  {
    path + "/RHEL-" + NatToString(major)
  }

  /** What `_availableReleasedMinors(path, major)` returns, or the `ValueError` it raises. */
  function ReleasedMinorsOf(web: string -> Page, path: string, major: nat): Result<Catalog, SelectionError>
  {
    var cs := ReleasedCandidates(PathContents(web, MinorsPath(path, major) + "/"), major);
    if DenseMajor(cs, major) then Ok(Newest(cs, RhelRepos.DirUri(MinorsPath(path, major)))) else Err(EmptySequence)
  }

  /** `_availableReleasedMinors(path, major)`. */
  method AvailableReleasedMinors(web: string -> Page, path: string, major: nat)
    returns (r: Result<Catalog, SelectionError>)
    ensures r == ReleasedMinorsOf(web, path, major)
    ensures r.Ok? ==> forall k :: k in r.value ==> KeyMajor(k) == major
  {
    var minorsPath := MinorsPath(path, major);
    var matches := ReleasedCandidates(PathContents(web, minorsPath + "/"), major);
    assert forall i :: 0 <= i < |matches| ==> matches[i] in matches;
    r := StrictSelectMajor(matches, major, RhelRepos.DirUri(minorsPath));
    if r.Ok? {
      SingleMajorIsNewest(r.value, matches, RhelRepos.DirUri(minorsPath), major);
    } else {
      assert r.error.EmptySequence?;
    }
    OneMajorKeys(matches, RhelRepos.DirUri(minorsPath), major, RhelRepos.MinimumMajor, RhelRepos.MinimumMinor);
  }

  /** `dict.update` over a sequence of results: the first error, or every catalog merged in order. */
  function MergeResults(rs: seq<Result<Catalog, SelectionError>>): (r: Result<Catalog, SelectionError>)
    ensures r.Ok? <==> forall i :: 0 <= i < |rs| ==> rs[i].Ok?
    ensures r.Ok? ==> forall k :: k in r.value <==> exists i :: 0 <= i < |rs| && k in rs[i].value
  {
    if rs == [] then Ok(map[])
    else
      var init := MergeResults(rs[..|rs| - 1]);
      assert forall i :: 0 <= i < |rs| - 1 ==> rs[..|rs| - 1][i] == rs[i];
      if init.Err? then init
      else if rs[|rs| - 1].Err? then rs[|rs| - 1]
      else Ok(Overlay(init.value, rs[|rs| - 1].value))
  }

  /** The `released-RHEL-N/` directories of `/composes/`, any case, with N at least 7. */
  function Releases(web: string -> Page): (r: seq<NumberedDir>)
    ensures forall d :: d in r ==> IsDigits(d.digits) && NatOf(d.digits) >= RhelRepos.MinimumMajor
  {
    NumberedDirs(PathContents(web, StartingPath + "/"), "released-RHEL-", true, RhelRepos.MinimumMajor)
  }

  function ReleasedPerMajor(web: string -> Page): seq<Result<Catalog, SelectionError>>
  {
    var releases := Releases(web);
    seq(|releases|, i requires 0 <= i < |releases| =>
      ReleasedMinorsOf(web, StartingPath + "/" + releases[i].dir, NatOf(releases[i].digits)))
  }

  /** What `_availableReleased` returns, or the first `ValueError` it raises. */
  function ReleasedOf(web: string -> Page): Result<Catalog, SelectionError>
  {
    MergeResults(ReleasedPerMajor(web))
  }

  /** `_availableReleased(architecture)`. */
  method AvailableReleased(web: string -> Page) returns (r: Result<Catalog, SelectionError>)
    ensures r == ReleasedOf(web)
  {
    var releases := Releases(web);
    ghost var rs := ReleasedPerMajor(web);
    var available: Catalog := map[];
    var i := 0;
    while i < |releases|
      invariant 0 <= i <= |releases|
      invariant MergeResults(rs[..i]) == Ok(available)
    {
      assert releases[i] in releases;
      var minors := AvailableReleasedMinors(web, StartingPath + "/" + releases[i].dir, NatOf(releases[i].digits));
      assert minors == rs[i];
      MergeResultsStep(rs, i);
      if minors.Err? {
        MergeResultsStaysErr(rs, i + 1);
        return minors;
      }
      available := Overlay(available, minors.value);
      i := i + 1;
    }
    assert rs[..i] == rs;
    r := Ok(available);
  }

  /** One more result: its error if the merge so far succeeded, else the merge overlaid with it. */
  lemma MergeResultsStep(rs: seq<Result<Catalog, SelectionError>>, i: nat)
    requires i < |rs| && MergeResults(rs[..i]).Ok?
    ensures rs[i].Err? ==> MergeResults(rs[..i + 1]) == rs[i]
    ensures rs[i].Ok? ==> MergeResults(rs[..i + 1]) == Ok(Overlay(MergeResults(rs[..i]).value, rs[i].value))
  {
    assert rs[..i + 1][..i] == rs[..i];
  }

  /** Once a prefix fails, the whole merge fails with the same error. */
  lemma {:induction false} MergeResultsStaysErr(rs: seq<Result<Catalog, SelectionError>>, n: nat)
    requires n <= |rs| && MergeResults(rs[..n]).Err?
    ensures MergeResults(rs) == MergeResults(rs[..n])
    decreases |rs| - n
  {
    if n < |rs| {
      assert rs[..n + 1][..n] == rs[..n];
      MergeResultsStaysErr(rs, n + 1);
    } else {
      assert rs[..n] == rs;
    }
  }

  /**
   * `availableRoots`: released over latest. Either walk's error
   * propagates; `_availableLatest` runs first.
   */
  method AvailableRoots(web: string -> Page) returns (r: Result<Catalog, SelectionError>)
    ensures r.Ok? <==> LatestOf(web).Ok? && ReleasedOf(web).Ok?
    ensures r.Ok? ==> r.value == Overlay(LatestOf(web).value, ReleasedOf(web).value)
  {
    var latest := AvailableLatest(web);
    if latest.Err? {
      return latest;
    }
    var released := AvailableReleased(web);
    if released.Err? {
      return released;
    }
    r := Ok(Overlay(latest.value, released.value));
  }

  /** `availableLatestRoots`: latest over released; `_availableReleased` runs first. */
  method AvailableLatestRoots(web: string -> Page) returns (r: Result<Catalog, SelectionError>)
    ensures r.Ok? <==> LatestOf(web).Ok? && ReleasedOf(web).Ok?
    ensures r.Ok? ==> r.value == Overlay(ReleasedOf(web).value, LatestOf(web).value)
  {
    var released := AvailableReleased(web);
    if released.Err? {
      return released;
    }
    var latest := AvailableLatest(web);
    if latest.Err? {
      return latest;
    }
    r := Ok(Overlay(released.value, latest.value));
  }
}
