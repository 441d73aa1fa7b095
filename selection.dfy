/**
 * The version selector shared by the RHEL and CentOS providers: walk every
 * integer between the smallest and largest major (then minor) seen, and for
 * every (major, minor) that has directories emit one catalog entry, keyed
 * "major.minor", built from the directory with the highest z-stream (the
 * first such directory in listing order on a tie).
 *
 * `Newest` is an independent reference definition (one pass over the
 * listing); the loop methods, which follow the source's range walks, are
 * proved to compute exactly it. The gap-intolerant variant of the older
 * code returns an error exactly when the listing is not `Dense`.
 */
module Selection {
  import opened Basics
  import opened Text
  import opened Listing
  import opened Catalogs

  /** `ValueError` from `min()`/`max()` of an empty list. */
  datatype SelectionError = EmptySequence

  function KeyOf(c: VersionDir): string { Key(c.major, c.minor) }

  predicate HasPair(cs: seq<VersionDir>, major: nat, minor: nat)
  {
    exists i :: 0 <= i < |cs| && cs[i].major == major && cs[i].minor == minor
  }

  /** `cs[i]` has the highest z-stream of its (major, minor) and is the first such. */
  ghost predicate IsNewest(cs: seq<VersionDir>, i: int)
  {
    && 0 <= i < |cs|
    && (forall j :: 0 <= j < |cs| && cs[j].major == cs[i].major && cs[j].minor == cs[i].minor
                    ==> cs[j].z <= cs[i].z)
    && (forall j :: 0 <= j < i && cs[j].major == cs[i].major && cs[j].minor == cs[i].minor
                    ==> cs[j].z < cs[i].z)
  }

  /**
   * `max(z for the pair)` followed by `filter(z == max)[0]`: the index of
   * the newest directory of (major, minor), or -1 when there is none.
   */
  function NewestIndex(cs: seq<VersionDir>, major: nat, minor: nat): (r: int)
    ensures -1 <= r < |cs|
    ensures r >= 0 <==> HasPair(cs, major, minor)
    ensures r >= 0 ==> cs[r].major == major && cs[r].minor == minor && IsNewest(cs, r)
  {
    if cs == [] then -1
    else
      var init := cs[..|cs| - 1];
      var j := NewestIndex(init, major, minor);
      var c := cs[|cs| - 1];
      assert forall i :: 0 <= i < |init| ==> init[i] == cs[i];
      if c.major == major && c.minor == minor && (j < 0 || c.z > cs[j].z) then |cs| - 1 else j
  }

  lemma NewestIndexUnique(cs: seq<VersionDir>, i: int, j: int)
    requires IsNewest(cs, i) && IsNewest(cs, j)
    requires cs[i].major == cs[j].major && cs[i].minor == cs[j].minor
    ensures i == j
  {
  }

  /** The URI of the newest directory sharing `cs[i]`'s (major, minor). */
  function NewestUri(cs: seq<VersionDir>, uriOf: string -> string, i: nat): string
    requires i < |cs|
  {
    var j := NewestIndex(cs, cs[i].major, cs[i].minor);
    assert HasPair(cs, cs[i].major, cs[i].minor);
    uriOf(cs[j].dir)
  }

  /** Reference definition: one entry per directory, in listing order. */
  function NewestPrefix(cs: seq<VersionDir>, uriOf: string -> string, n: nat): Catalog
    requires n <= |cs|
  {
    if n == 0 then map[]
    else NewestPrefix(cs, uriOf, n - 1)[KeyOf(cs[n - 1]) := NewestUri(cs, uriOf, n - 1)]
  }

  function Newest(cs: seq<VersionDir>, uriOf: string -> string): Catalog
  {
    NewestPrefix(cs, uriOf, |cs|)
  }

  /** `c` lies in the part of the (major, minor) plane walked so far. */
  predicate InScope(c: VersionDir, lowMajor: nat, major: nat, minor: nat)
  {
    lowMajor <= c.major && (c.major < major || (c.major == major && c.minor < minor))
  }

  /**
   * `r` holds exactly the keys of the directories in scope, each mapped to
   * the URI of its newest directory.
   */
  ghost predicate CatalogOver(r: Catalog, cs: seq<VersionDir>, uriOf: string -> string,
                              lowMajor: nat, major: nat, minor: nat)
  {
    && (forall i :: 0 <= i < |cs| && InScope(cs[i], lowMajor, major, minor)
          ==> KeyOf(cs[i]) in r && r[KeyOf(cs[i])] == NewestUri(cs, uriOf, i))
    && (forall k :: k in r ==>
          exists i :: 0 <= i < |cs| && InScope(cs[i], lowMajor, major, minor) && KeyOf(cs[i]) == k)
  }

  /** The same, with every directory in scope. */
  ghost predicate IsNewestCatalog(r: Catalog, cs: seq<VersionDir>, uriOf: string -> string)
  {
    && (forall i :: 0 <= i < |cs| ==> KeyOf(cs[i]) in r && r[KeyOf(cs[i])] == NewestUri(cs, uriOf, i))
    && (forall k :: k in r ==> exists i :: 0 <= i < |cs| && KeyOf(cs[i]) == k)
  }

  /** The reference definition has the defining properties of the selection. */
  lemma {:induction false} NewestPrefixCatalog(cs: seq<VersionDir>, uriOf: string -> string, n: nat)
    requires n <= |cs|
    ensures forall i :: 0 <= i < n ==>
              KeyOf(cs[i]) in NewestPrefix(cs, uriOf, n)
              && NewestPrefix(cs, uriOf, n)[KeyOf(cs[i])] == NewestUri(cs, uriOf, i)
    ensures forall k :: k in NewestPrefix(cs, uriOf, n) ==> exists i :: 0 <= i < n && KeyOf(cs[i]) == k
  {
    if n > 0 {
      NewestPrefixCatalog(cs, uriOf, n - 1);
      var last := cs[n - 1];
      forall i | 0 <= i < n - 1 && KeyOf(cs[i]) == KeyOf(last)
        ensures NewestUri(cs, uriOf, i) == NewestUri(cs, uriOf, n - 1)
      {
        KeyInjective(cs[i].major, cs[i].minor, last.major, last.minor);
      }
    }
  }

  lemma NewestIsNewestCatalog(cs: seq<VersionDir>, uriOf: string -> string)
    ensures IsNewestCatalog(Newest(cs, uriOf), cs, uriOf)
  {
    NewestPrefixCatalog(cs, uriOf, |cs|);
  }

  /**
   * The keys of a selection whose directories all carry one major read
   * back as that major; at the floor major, where every minor is at least
   * `floorMinor`, so is every key's.
   */
  lemma OneMajorKeys(cs: seq<VersionDir>, uriOf: string -> string, major: nat, floorMajor: nat, floorMinor: nat)
    requires forall c :: c in cs ==> c.major == major
    requires major == floorMajor ==> forall c :: c in cs ==> c.minor >= floorMinor
    ensures forall k :: k in Newest(cs, uriOf) ==> KeyMajor(k) == major
    ensures major == floorMajor ==> forall k :: k in Newest(cs, uriOf) ==> KeyMinor(k) >= floorMinor
  {
    NewestIsNewestCatalog(cs, uriOf);
    forall k | k in Newest(cs, uriOf)
      ensures KeyMajor(k) == major && (major == floorMajor ==> KeyMinor(k) >= floorMinor)
    {
      var i :| 0 <= i < |cs| && KeyOf(cs[i]) == k;
      assert cs[i] in cs;
      KeyRoundTrip(cs[i].major, cs[i].minor);
    }
  }

  lemma CatalogAgree(a: Catalog, b: Catalog, cs: seq<VersionDir>, uriOf: string -> string, k: string)
    requires IsNewestCatalog(a, cs, uriOf) && IsNewestCatalog(b, cs, uriOf)
    requires k in a
    ensures k in b && a[k] == b[k]
  {
    var i :| 0 <= i < |cs| && KeyOf(cs[i]) == k;
  }

  /** The defining properties pin the catalog down: there is only one. */
  lemma CatalogUnique(a: Catalog, b: Catalog, cs: seq<VersionDir>, uriOf: string -> string)
    requires IsNewestCatalog(a, cs, uriOf) && IsNewestCatalog(b, cs, uriOf)
    ensures a == b
  {
    forall k | k in a ensures k in b && a[k] == b[k] {
      CatalogAgree(a, b, cs, uriOf, k);
    }
    forall k | k in b ensures k in a {
      CatalogAgree(b, a, cs, uriOf, k);
    }
  }

  /** Any catalog with the defining properties is the reference one. */
  lemma IsNewestCatalogIsNewest(r: Catalog, cs: seq<VersionDir>, uriOf: string -> string)
    requires IsNewestCatalog(r, cs, uriOf)
    ensures r == Newest(cs, uriOf)
  {
    NewestIsNewestCatalog(cs, uriOf);
    CatalogUnique(r, Newest(cs, uriOf), cs, uriOf);
  }

  /** The newest entry of a catalog has the highest z-stream of its pair. */
  lemma NewestHasHighestZ(cs: seq<VersionDir>, uriOf: string -> string, i: nat)
    requires i < |cs|
    ensures KeyOf(cs[i]) in Newest(cs, uriOf)
    ensures exists j :: 0 <= j < |cs| && IsNewest(cs, j) && cs[j].major == cs[i].major
                        && cs[j].minor == cs[i].minor && Newest(cs, uriOf)[KeyOf(cs[i])] == uriOf(cs[j].dir)
  {
    NewestIsNewestCatalog(cs, uriOf);
    var j := NewestIndex(cs, cs[i].major, cs[i].minor);
    assert HasPair(cs, cs[i].major, cs[i].minor);
  }

  /** `[x.minor for x in cs if x.major == major]`. */
  function MinorsOf(cs: seq<VersionDir>, major: nat): (r: seq<nat>)
    ensures forall i :: 0 <= i < |cs| && cs[i].major == major ==> cs[i].minor in r
    ensures forall m :: m in r ==> HasPair(cs, major, m)
  {
    if cs == [] then []
    else
      var init := cs[..|cs| - 1];
      var head := MinorsOf(init, major);
      assert forall m :: HasPair(init, major, m) ==> HasPair(cs, major, m) by {
        forall m | HasPair(init, major, m) ensures HasPair(cs, major, m) {
          var i :| 0 <= i < |init| && init[i].major == major && init[i].minor == m;
          assert cs[i] == init[i];
        }
      }
      assert forall i :: 0 <= i < |init| ==> init[i] == cs[i];
      if cs[|cs| - 1].major == major then head + [cs[|cs| - 1].minor] else head
  }

  /** `[x.major for x in cs]`. */
  function Majors(cs: seq<VersionDir>): seq<nat>
  {
    seq(|cs|, i requires 0 <= i < |cs| => cs[i].major)
  }

  /** Python's `min()` of a non-empty list. */
  function SeqMin(s: seq<nat>): (r: nat)
    requires |s| > 0
    ensures r in s && forall x :: x in s ==> r <= x
  {
    if |s| == 1 then s[0]
    else
      var m := SeqMin(s[1..]);
      assert forall x :: x in s[1..] ==> x in s;
      assert forall x :: x in s ==> x == s[0] || x in s[1..];
      if s[0] <= m then s[0] else m
  }

  /** Python's `max()` of a non-empty list. */
  function SeqMax(s: seq<nat>): (r: nat)
    requires |s| > 0
    ensures r in s && forall x :: x in s ==> x <= r
  {
    if |s| == 1 then s[0]
    else
      var m := SeqMax(s[1..]);
      assert forall x :: x in s[1..] ==> x in s;
      assert forall x :: x in s ==> x == s[0] || x in s[1..];
      if s[0] >= m then s[0] else m
  }

  /** Nothing of `major` lies below its smallest minor: the empty catalog starts the inner walk. */
  lemma MinorWalkStarts(cs: seq<VersionDir>, uriOf: string -> string, major: nat, lo: nat)
    requires forall i :: 0 <= i < |cs| && cs[i].major == major ==> lo <= cs[i].minor
    ensures CatalogOver(map[], cs, uriOf, major, major, lo)
  {
  }

  /** Past the largest minor, the inner walk has covered the whole major. */
  lemma MinorWalkEnds(r: Catalog, cs: seq<VersionDir>, uriOf: string -> string, major: nat, hi: nat)
    requires forall i :: 0 <= i < |cs| && cs[i].major == major ==> cs[i].minor <= hi
    requires CatalogOver(r, cs, uriOf, major, major, hi + 1)
    ensures CatalogOver(r, cs, uriOf, major, major + 1, 0)
  {
    forall k | k in r
      ensures exists i :: 0 <= i < |cs| && InScope(cs[i], major, major + 1, 0) && KeyOf(cs[i]) == k
    {
      var i :| 0 <= i < |cs| && InScope(cs[i], major, major, hi + 1) && KeyOf(cs[i]) == k;
      assert InScope(cs[i], major, major + 1, 0);
    }
  }

  /** Once every major is in scope, the walked catalog is the whole selection. */
  lemma MajorWalkEnds(r: Catalog, cs: seq<VersionDir>, uriOf: string -> string, hi: nat)
    requires forall i :: 0 <= i < |cs| ==> cs[i].major < hi
    requires CatalogOver(r, cs, uriOf, 0, hi, 0)
    ensures IsNewestCatalog(r, cs, uriOf)
  {
    forall k | k in r ensures exists i :: 0 <= i < |cs| && KeyOf(cs[i]) == k {
      var i :| 0 <= i < |cs| && InScope(cs[i], 0, hi, 0) && KeyOf(cs[i]) == k;
    }
  }

  /** The smallest and largest minors of `major` bound all of its directories. */
  lemma MinorBounds(cs: seq<VersionDir>, major: nat)
    requires |MinorsOf(cs, major)| > 0
    ensures forall i :: 0 <= i < |cs| && cs[i].major == major ==>
              SeqMin(MinorsOf(cs, major)) <= cs[i].minor <= SeqMax(MinorsOf(cs, major))
  {
  }

  /** The smallest and largest majors bound every directory. */
  lemma MajorBounds(cs: seq<VersionDir>)
    requires |cs| > 0
    ensures forall i :: 0 <= i < |cs| ==> SeqMin(Majors(cs)) <= cs[i].major <= SeqMax(Majors(cs))
  {
    var majors := Majors(cs);
    forall i | 0 <= i < |cs| ensures SeqMin(majors) <= cs[i].major <= SeqMax(majors) {
      assert majors[i] in majors;
    }
  }

  /**
   * The inner walk: every minor in `[min(minors), max(minors)]` of one
   * major; minors without directories are skipped.
   */
  method SelectMajor(cs: seq<VersionDir>, major: nat, uriOf: string -> string)
    returns (found: Catalog)
    ensures CatalogOver(found, cs, uriOf, major, major + 1, 0)
  {
    found := map[];
    var minors := MinorsOf(cs, major);
    if |minors| == 0 {
      return;
    }
    var lo, hi := SeqMin(minors), SeqMax(minors);
    MinorBounds(cs, major);
    MinorWalkStarts(cs, uriOf, major, lo);
    for minor := lo to hi + 1
      invariant CatalogOver(found, cs, uriOf, major, major, minor)
    {
      var j := NewestIndex(cs, major, minor);
      if j >= 0 {
        AddEntry(found, cs, uriOf, major, major, minor, j);
        found := found[Key(major, minor) := uriOf(cs[j].dir)];
      }
    }
    MinorWalkEnds(found, cs, uriOf, major, hi);
  }

  /** Adding the newest entry of (major, minor) extends the walked scope by one minor. */
  lemma AddEntry(r: Catalog, cs: seq<VersionDir>, uriOf: string -> string,
                 lowMajor: nat, major: nat, minor: nat, j: int)
    requires lowMajor <= major
    requires CatalogOver(r, cs, uriOf, lowMajor, major, minor)
    requires j == NewestIndex(cs, major, minor) && j >= 0
    ensures CatalogOver(r[Key(major, minor) := uriOf(cs[j].dir)], cs, uriOf, lowMajor, major, minor + 1)
  {
    AddEntryCovers(r, r[Key(major, minor) := uriOf(cs[j].dir)], cs, uriOf, lowMajor, major, minor, j);
    AddEntrySound(r, r[Key(major, minor) := uriOf(cs[j].dir)], cs, uriOf, lowMajor, major, minor, j);
  }

  lemma AddEntryCovers(r: Catalog, r': Catalog, cs: seq<VersionDir>, uriOf: string -> string,
                       lowMajor: nat, major: nat, minor: nat, j: int)
    requires forall i :: 0 <= i < |cs| && InScope(cs[i], lowMajor, major, minor)
               ==> KeyOf(cs[i]) in r && r[KeyOf(cs[i])] == NewestUri(cs, uriOf, i)
    requires j == NewestIndex(cs, major, minor) && j >= 0
    requires r' == r[Key(major, minor) := uriOf(cs[j].dir)]
    ensures forall i :: 0 <= i < |cs| && InScope(cs[i], lowMajor, major, minor + 1)
              ==> KeyOf(cs[i]) in r' && r'[KeyOf(cs[i])] == NewestUri(cs, uriOf, i)
  {
    forall i | 0 <= i < |cs| && InScope(cs[i], lowMajor, major, minor + 1)
      ensures KeyOf(cs[i]) in r' && r'[KeyOf(cs[i])] == NewestUri(cs, uriOf, i)
    {
      if KeyOf(cs[i]) == Key(major, minor) {
        KeyInjective(cs[i].major, cs[i].minor, major, minor);
        assert NewestUri(cs, uriOf, i) == uriOf(cs[j].dir);
      } else {
        assert InScope(cs[i], lowMajor, major, minor);
      }
    }
  }

  lemma AddEntrySound(r: Catalog, r': Catalog, cs: seq<VersionDir>, uriOf: string -> string,
                      lowMajor: nat, major: nat, minor: nat, j: int)
    requires lowMajor <= major
    requires forall k :: k in r ==>
               exists i :: 0 <= i < |cs| && InScope(cs[i], lowMajor, major, minor) && KeyOf(cs[i]) == k
    requires 0 <= j < |cs| && cs[j].major == major && cs[j].minor == minor
    requires r' == r[Key(major, minor) := uriOf(cs[j].dir)]
    ensures forall k :: k in r' ==>
              exists i :: 0 <= i < |cs| && InScope(cs[i], lowMajor, major, minor + 1) && KeyOf(cs[i]) == k
  {
    forall k | k in r'
      ensures exists i :: 0 <= i < |cs| && InScope(cs[i], lowMajor, major, minor + 1) && KeyOf(cs[i]) == k
    {
      if k == Key(major, minor) {
        assert InScope(cs[j], lowMajor, major, minor + 1) && KeyOf(cs[j]) == k;
      } else {
        var i :| 0 <= i < |cs| && InScope(cs[i], lowMajor, major, minor) && KeyOf(cs[i]) == k;
        assert InScope(cs[i], lowMajor, major, minor + 1);
      }
    }
  }

  /**
   * The outer walk: every major in `[min(majors), max(majors)]`, each
   * handled by the inner walk; empty input gives the empty catalog.
   */
  method SelectAll(cs: seq<VersionDir>, uriOf: string -> string) returns (available: Catalog)
    ensures available == Newest(cs, uriOf)
  {
    available := map[];
    if |cs| == 0 {
      IsNewestCatalogIsNewest(available, cs, uriOf);
      return;
    }
    var majors := Majors(cs);
    var lo, hi := SeqMin(majors), SeqMax(majors);
    MajorBounds(cs);
    for major := lo to hi + 1
      invariant CatalogOver(available, cs, uriOf, 0, major, 0)
    {
      var found := SelectMajor(cs, major, uriOf);
      AddMajor(available, found, cs, uriOf, major);
      available := available + found;
    }
    MajorWalkEnds(available, cs, uriOf, hi + 1);
    IsNewestCatalogIsNewest(available, cs, uriOf);
  }

  /** Merging one major's entries extends the walked scope by one major. */
  lemma AddMajor(r: Catalog, found: Catalog, cs: seq<VersionDir>, uriOf: string -> string, major: nat)
    requires CatalogOver(r, cs, uriOf, 0, major, 0)
    requires CatalogOver(found, cs, uriOf, major, major + 1, 0)
    ensures CatalogOver(r + found, cs, uriOf, 0, major + 1, 0)
  {
    forall i | 0 <= i < |cs| && InScope(cs[i], 0, major + 1, 0)
      ensures KeyOf(cs[i]) in r + found && (r + found)[KeyOf(cs[i])] == NewestUri(cs, uriOf, i)
    {
      if cs[i].major < major && KeyOf(cs[i]) in found {
        var j :| 0 <= j < |cs| && InScope(cs[j], major, major + 1, 0) && KeyOf(cs[j]) == KeyOf(cs[i]);
        KeyInjective(cs[i].major, cs[i].minor, cs[j].major, cs[j].minor);
      }
    }
    forall k | k in r + found
      ensures exists i :: 0 <= i < |cs| && InScope(cs[i], 0, major + 1, 0) && KeyOf(cs[i]) == k
    {
      if k in found {
        var j :| 0 <= j < |cs| && InScope(cs[j], major, major + 1, 0) && KeyOf(cs[j]) == k;
        assert InScope(cs[j], 0, major + 1, 0);
      } else {
        var j :| 0 <= j < |cs| && InScope(cs[j], 0, major, 0) && KeyOf(cs[j]) == k;
        assert InScope(cs[j], 0, major + 1, 0);
      }
    }
  }

  /** When every directory has the same major, one inner walk is the whole selection. */
  lemma SingleMajorIsNewest(r: Catalog, cs: seq<VersionDir>, uriOf: string -> string, major: nat)
    requires forall i :: 0 <= i < |cs| ==> cs[i].major == major
    requires CatalogOver(r, cs, uriOf, major, major + 1, 0)
    ensures r == Newest(cs, uriOf)
  {
    IsNewestCatalogIsNewest(r, cs, uriOf);
  }

  /** Every minor between the smallest and largest of `major` has a directory. */
  predicate DenseMajor(cs: seq<VersionDir>, major: nat)
  {
    var minors := MinorsOf(cs, major);
    |minors| > 0 && forall m :: SeqMin(minors) <= m <= SeqMax(minors) ==> HasPair(cs, major, m)
  }

  predicate DenseBetween(cs: seq<VersionDir>, lo: nat, hi: nat)
  {
    forall major :: lo <= major < hi ==> DenseMajor(cs, major)
  }

  lemma DenseBetweenStep(cs: seq<VersionDir>, lo: nat, hi: nat)
    requires DenseBetween(cs, lo, hi) && DenseMajor(cs, hi)
    ensures DenseBetween(cs, lo, hi + 1)
  {
  }

  /** A missing minor between the smallest and largest is a gap. */
  lemma GapBreaksDense(cs: seq<VersionDir>, major: nat, minor: nat)
    requires |MinorsOf(cs, major)| > 0
    requires SeqMin(MinorsOf(cs, major)) <= minor <= SeqMax(MinorsOf(cs, major))
    requires !HasPair(cs, major, minor)
    ensures !DenseMajor(cs, major)
  {
  }

  /** Every minor of the range present: no gap. */
  lemma NoGapIsDense(cs: seq<VersionDir>, major: nat)
    requires |MinorsOf(cs, major)| > 0
    requires forall m :: SeqMin(MinorsOf(cs, major)) <= m < SeqMax(MinorsOf(cs, major)) + 1 ==> HasPair(cs, major, m)
    ensures DenseMajor(cs, major)
  {
  }

  /** No gap anywhere: what the gap-intolerant walk needs to avoid raising. */
  predicate Dense(cs: seq<VersionDir>)
  {
    |cs| > 0 && forall major :: SeqMin(Majors(cs)) <= major <= SeqMax(Majors(cs)) ==> DenseMajor(cs, major)
  }

  /**
   * The inner walk without gap tolerance: `min()` of no minors, or `max()`
   * of the z-streams of a missing minor, raises.
   */
  method StrictSelectMajor(cs: seq<VersionDir>, major: nat, uriOf: string -> string)
    returns (r: Result<Catalog, SelectionError>)
    ensures r.Ok? <==> DenseMajor(cs, major)
    ensures r.Ok? ==> CatalogOver(r.value, cs, uriOf, major, major + 1, 0)
  {
    var minors := MinorsOf(cs, major);
    if |minors| == 0 {
      return Err(EmptySequence);
    }
    var found: Catalog := map[];
    var lo, hi := SeqMin(minors), SeqMax(minors);
    MinorBounds(cs, major);
    MinorWalkStarts(cs, uriOf, major, lo);
    for minor := lo to hi + 1
      invariant CatalogOver(found, cs, uriOf, major, major, minor)
      invariant forall m :: lo <= m < minor ==> HasPair(cs, major, m)
    {
      var j := NewestIndex(cs, major, minor);
      if j < 0 {
        GapBreaksDense(cs, major, minor);
        return Err(EmptySequence);
      }
      AddEntry(found, cs, uriOf, major, major, minor, j);
      found := found[Key(major, minor) := uriOf(cs[j].dir)];
    }
    NoGapIsDense(cs, major);
    MinorWalkEnds(found, cs, uriOf, major, hi);
    return Ok(found);
  }

  /** The outer walk without gap tolerance: an error exactly when the listing has a gap. */
  method StrictSelectAll(cs: seq<VersionDir>, uriOf: string -> string)
    returns (r: Result<Catalog, SelectionError>)
    ensures r == if Dense(cs) then Ok(Newest(cs, uriOf)) else Err(EmptySequence)
  {
    if |cs| == 0 {
      return Err(EmptySequence);
    }
    var available: Catalog := map[];
    var majors := Majors(cs);
    var lo, hi := SeqMin(majors), SeqMax(majors);
    MajorBounds(cs);
    for major := lo to hi + 1
      invariant CatalogOver(available, cs, uriOf, 0, major, 0)
      invariant DenseBetween(cs, lo, major)
    {
      var found := StrictSelectMajor(cs, major, uriOf);
      if found.Err? {
        assert !DenseMajor(cs, major);
        assert !Dense(cs);
        return Err(EmptySequence);
      }
      DenseBetweenStep(cs, lo, major);
      AddMajor(available, found.value, cs, uriOf, major);
      available := available + found.value;
    }
    assert Dense(cs);
    MajorWalkEnds(available, cs, uriOf, hi + 1);
    IsNewestCatalogIsNewest(available, cs, uriOf);
    return Ok(available);
  }

  /** On a listing without gaps the two walks agree. */
  lemma StrictAgreesWhenDense(cs: seq<VersionDir>, uriOf: string -> string, r: Catalog)
    requires Dense(cs)
    requires CatalogOver(r, cs, uriOf, 0, SeqMax(Majors(cs)) + 1, 0)
    ensures r == Newest(cs, uriOf)
  {
    MajorBounds(cs);
    MajorWalkEnds(r, cs, uriOf, SeqMax(Majors(cs)) + 1);
    IsNewestCatalogIsNewest(r, cs, uriOf);
  }

  predicate AtOrAbove(c: VersionDir, floorMajor: nat, floorMinor: nat)
  {
    c.major > floorMajor || (c.major == floorMajor && c.minor >= floorMinor)
  }

  /** The source's two `filter` calls: drop everything below `floorMajor.floorMinor`, keeping order. */
  function AboveFloor(cs: seq<VersionDir>, floorMajor: nat, floorMinor: nat): (r: seq<VersionDir>)
    ensures |r| <= |cs|
    ensures forall c :: c in r <==> c in cs && AtOrAbove(c, floorMajor, floorMinor)
  {
    if cs == [] then []
    else
      var rest := AboveFloor(cs[1..], floorMajor, floorMinor);
      assert forall c :: c in cs <==> c == cs[0] || c in cs[1..];
      if AtOrAbove(cs[0], floorMajor, floorMinor) then [cs[0]] + rest else rest
  }

  /** Every key of a selection over floor-filtered directories reads back at or above the floor. */
  lemma NewestKeysAtOrAbove(cs: seq<VersionDir>, uriOf: string -> string, floorMajor: nat, floorMinor: nat)
    requires forall c :: c in cs ==> AtOrAbove(c, floorMajor, floorMinor)
    ensures forall k :: k in Newest(cs, uriOf) ==>
              KeyMajor(k) > floorMajor || (KeyMajor(k) == floorMajor && KeyMinor(k) >= floorMinor)
  {
    NewestIsNewestCatalog(cs, uriOf);
    forall k | k in Newest(cs, uriOf)
      ensures KeyMajor(k) > floorMajor || (KeyMajor(k) == floorMajor && KeyMinor(k) >= floorMinor)
    {
      var i :| 0 <= i < |cs| && KeyOf(cs[i]) == k;
      assert cs[i] in cs;
      KeyRoundTrip(cs[i].major, cs[i].minor);
    }
  }

  /** Z-streams 7.5.0, 7.5.2 and 7.5.1 under minor 5: 7.5.2 is chosen. */
  lemma HighestZStreamExample(uriOf: string -> string)
    ensures var cs := [VersionDir("latest-RHEL-7.5", 7, 5, 0), VersionDir("latest-RHEL-7.5.2", 7, 5, 2),
                       VersionDir("latest-RHEL-7.5.1", 7, 5, 1)];
            Newest(cs, uriOf) == map[Key(7, 5) := uriOf("latest-RHEL-7.5.2")]
  {
    var cs := [VersionDir("latest-RHEL-7.5", 7, 5, 0), VersionDir("latest-RHEL-7.5.2", 7, 5, 2),
               VersionDir("latest-RHEL-7.5.1", 7, 5, 1)];
    assert NewestIndex(cs[..1], 7, 5) == 0;
    assert cs[..2][..1] == cs[..1];
    assert NewestIndex(cs[..2], 7, 5) == 1;
    assert cs[..3][..2] == cs[..2];
    assert NewestIndex(cs, 7, 5) == 1;
  }

  /** A listing with 7.5 and 7.7 but no 7.6: the tolerant walk skips 7.6, the strict one fails. */
  lemma GapExample(uriOf: string -> string)
    ensures var cs := [VersionDir("latest-RHEL-7.5", 7, 5, 0), VersionDir("latest-RHEL-7.7", 7, 7, 0)];
            && !Dense(cs)
            && Newest(cs, uriOf).Keys == {Key(7, 5), Key(7, 7)}
  {
    var cs := [VersionDir("latest-RHEL-7.5", 7, 5, 0), VersionDir("latest-RHEL-7.7", 7, 7, 0)];
    assert MinorsOf(cs, 7) == [5, 7] by {
      assert cs[..1] == [cs[0]];
      assert MinorsOf(cs[..1], 7) == [5];
    }
    assert !HasPair(cs, 7, 6);
    assert SeqMin(Majors(cs)) == 7 && SeqMax(Majors(cs)) == 7 by {
      assert Majors(cs) == [7, 7];
    }
    assert !DenseMajor(cs, 7);
    assert cs[..1] == [cs[0]];
    assert NewestPrefix(cs, uriOf, 1).Keys == {Key(7, 5)};
  }
}
