/**
 * The `_beakerRoots` enumerations: querying Beaker version after version
 * until it has no distro tree. A walk over (major, minor) pairs serves RHEL
 * and CentOS, a walk over majors alone serves Fedora. Beaker itself puts
 * no limit on how far a walk goes; here a `bound` on the numbers makes it
 * terminate, and reaching it is reported as `BoundReached`.
 */
module Walks {
  import opened Basics
  import opened Text
  import opened Catalogs
  import opened Beaker

  /** Why a walk produced no catalog. */
  datatype WalkError =
    | BeakerAbsent      // the `bkr` executable is missing
    | BeakerBroken      // `bkr` failed in an unexpected way
    | BoundReached      // the walk went past `bound`

  /** The lookup a (major, minor) walk makes for each pair. */
  function PairLookup(bkr: Bkr, query: (nat, nat) -> Query, variantOf: nat -> string, mode: StripMode)
    : (nat, nat) -> Lookup
  {
    (major: nat, minor: nat) => BeakerLookup(bkr(query(major, minor)), variantOf(major), mode)
  }

  /** The first minor asked for under `major`: the floor minor under the floor major, else 0. */
  function StartMinor(major: nat, floorMajor: nat, floorMinor: nat): nat
  {
    if major == floorMajor then floorMinor else 0
  }

  /** Major `major` ends the walk: it starts at minor 0 and has no tree there. */
  ghost predicate EndsWalk(at: (nat, nat) -> Lookup, floorMajor: nat, floorMinor: nat, major: nat)
  {
    StartMinor(major, floorMajor, floorMinor) == 0 && at(major, 0) == NoDistroTree
  }

  /**
   * The minors of `major` run out at `n`: only results from the start
   * minor up to `n`, and no tree at `n`, which is not minor 0 (there
   * running out ends the walk instead).
   */
  ghost predicate RunsOutAt(at: (nat, nat) -> Lookup, floorMajor: nat, floorMinor: nat, major: nat, n: nat)
  {
    && 0 < n
    && StartMinor(major, floorMajor, floorMinor) <= n
    && at(major, n) == NoDistroTree
    && forall j: nat :: StartMinor(major, floorMajor, floorMinor) <= j < n ==> at(major, j).Found?
  }

  /** The walk goes on from `major` to the next major. */
  ghost predicate PassesOver(at: (nat, nat) -> Lookup, floorMajor: nat, floorMinor: nat, major: nat)
  {
    exists n: nat :: RunsOutAt(at, floorMajor, floorMinor, major, n)
  }

  /**
   * The walk asks about (major, minor): every earlier major ran out at a
   * minor above 0, and every earlier minor of this major yielded a lookup
   * result.
   */
  ghost predicate Reached(at: (nat, nat) -> Lookup, floorMajor: nat, floorMinor: nat, major: nat, minor: nat)
  {
    && floorMajor <= major
    && StartMinor(major, floorMajor, floorMinor) <= minor
    && (forall m: nat :: floorMajor <= m < major ==> PassesOver(at, floorMajor, floorMinor, m))
    && (forall n: nat :: StartMinor(major, floorMajor, floorMinor) <= n < minor ==> at(major, n).Found?)
  }

  /** A lookup at `minor` that stops the whole walk: a Beaker failure, or no tree at minor 0. */
  predicate Stops(l: Lookup, minor: nat)
  {
    l == BeakerNotFound || l == BeakerFailed || (minor == 0 && l == NoDistroTree)
  }

  /** Every entry is the root of a reached pair, under that pair's key. */
  ghost predicate PairsSound(roots: Catalog, at: (nat, nat) -> Lookup, floorMajor: nat, floorMinor: nat)
  {
    forall k :: k in roots ==>
      exists major: nat, minor: nat :: k == Key(major, minor) && Reached(at, floorMajor, floorMinor, major, minor)
                             && at(major, minor) == Found(Some(roots[k]))
  }

  /** Every reached pair before (major, minor) that has a root is recorded. */
  ghost predicate PairsComplete(roots: Catalog, at: (nat, nat) -> Lookup, floorMajor: nat, floorMinor: nat,
                                major: nat, minor: nat)
  {
    forall M: nat, m: nat :: Reached(at, floorMajor, floorMinor, M, m) && (M < major || (M == major && m < minor))
                   && at(M, m).Found? && at(M, m).root.Some?
      ==> Key(M, m) in roots && roots[Key(M, m)] == at(M, m).root.value
  }

  /**
   * `roots` is what a finished walk returns: the roots of exactly the
   * reached pairs that have one, and the walk ended at a major with no
   * tree at minor 0.
   */
  ghost predicate PairCatalog(roots: Catalog, at: (nat, nat) -> Lookup, floorMajor: nat, floorMinor: nat)
  {
    && PairsSound(roots, at, floorMajor, floorMinor)
    && (forall M: nat, m: nat :: Reached(at, floorMajor, floorMinor, M, m) && at(M, m).Found? && at(M, m).root.Some?
          ==> Key(M, m) in roots && roots[Key(M, m)] == at(M, m).root.value)
    && exists major: nat :: Reached(at, floorMajor, floorMinor, major, 0) && EndsWalk(at, floorMajor, floorMinor, major)
  }

  /** The walk reaches a pair whose lookup is `outcome`. */
  ghost predicate PairMeets(at: (nat, nat) -> Lookup, floorMajor: nat, floorMinor: nat, outcome: Lookup)
  {
    exists M: nat, m: nat :: Reached(at, floorMajor, floorMinor, M, m) && at(M, m) == outcome
  }

  /** The walk asks about a pair past `bound` in its major or its minor. */
  ghost predicate PairBeyond(at: (nat, nat) -> Lookup, floorMajor: nat, floorMinor: nat, bound: nat)
  {
    exists M: nat, m: nat :: Reached(at, floorMajor, floorMinor, M, m) && (bound < M || bound < m)
  }

  /**
   * What the RHEL/CentOS `_beakerRoots` returns when its numbers are cut
   * off at `bound`: `BoundReached` exactly when the walk would ask past
   * the bound; otherwise the catalog of a finished walk, or the failure
   * it met.
   */
  ghost predicate PairOutcome(r: Result<Catalog, WalkError>, at: (nat, nat) -> Lookup,
                              floorMajor: nat, floorMinor: nat, bound: nat)
  {
    && (r == Err(BoundReached) <==> PairBeyond(at, floorMajor, floorMinor, bound))
    && (r.Ok? ==> PairCatalog(r.value, at, floorMajor, floorMinor))
    && (r == Err(BeakerAbsent) ==> PairMeets(at, floorMajor, floorMinor, BeakerNotFound))
    && (r == Err(BeakerBroken) ==> PairMeets(at, floorMajor, floorMinor, BeakerFailed))
  }

  /** Nothing the walk asks about comes after a lookup that stops it. */
  lemma ReachedBeforeStop(at: (nat, nat) -> Lookup, floorMajor: nat, floorMinor: nat,
                          M: nat, m: nat, M': nat, m': nat)
    requires Reached(at, floorMajor, floorMinor, M, m) && Stops(at(M, m), m)
    requires Reached(at, floorMajor, floorMinor, M', m')
    ensures M' < M || (M' == M && m' <= m)
  {
    assert M < M' ==> PassesOver(at, floorMajor, floorMinor, M);
  }

  /** A finished walk's catalog is determined by what Beaker reports. */
  lemma PairCatalogUnique(a: Catalog, b: Catalog, at: (nat, nat) -> Lookup, floorMajor: nat, floorMinor: nat)
    requires PairCatalog(a, at, floorMajor, floorMinor) && PairCatalog(b, at, floorMajor, floorMinor)
    ensures a == b
  {
    forall k | k in a ensures k in b && a[k] == b[k] {
      var M: nat, m: nat :| k == Key(M, m) && Reached(at, floorMajor, floorMinor, M, m)
                             && at(M, m) == Found(Some(a[k]));
    }
    forall k | k in b ensures k in a {
      var M: nat, m: nat :| k == Key(M, m) && Reached(at, floorMajor, floorMinor, M, m)
                             && at(M, m) == Found(Some(b[k]));
    }
  }

  /** The pair at which a walk that stayed within its bound stopped. */
  lemma PairOutcomeStop(r: Result<Catalog, WalkError>, at: (nat, nat) -> Lookup,
                        floorMajor: nat, floorMinor: nat, bound: nat) returns (M: nat, m: nat)
    requires PairOutcome(r, at, floorMajor, floorMinor, bound) && r != Err(BoundReached)
    ensures Reached(at, floorMajor, floorMinor, M, m) && Stops(at(M, m), m)
    ensures r.Ok? <==> at(M, m) == NoDistroTree
    ensures r == Err(BeakerAbsent) <==> at(M, m) == BeakerNotFound
  {
    if r.Ok? {
      var major: nat :| Reached(at, floorMajor, floorMinor, major, 0) && EndsWalk(at, floorMajor, floorMinor, major);
      M, m := major, 0;
    } else if r.error == BeakerAbsent {
      M, m :| Reached(at, floorMajor, floorMinor, M, m) && at(M, m) == BeakerNotFound;
    } else {
      M, m :| Reached(at, floorMajor, floorMinor, M, m) && at(M, m) == BeakerFailed;
    }
  }

  /** What Beaker reports leaves the walk exactly one outcome. */
  lemma PairOutcomeUnique(r1: Result<Catalog, WalkError>, r2: Result<Catalog, WalkError>,
                          at: (nat, nat) -> Lookup, floorMajor: nat, floorMinor: nat, bound: nat)
    requires PairOutcome(r1, at, floorMajor, floorMinor, bound)
    requires PairOutcome(r2, at, floorMajor, floorMinor, bound)
    ensures r1 == r2
  {
    if !PairBeyond(at, floorMajor, floorMinor, bound) {
      var M1, m1 := PairOutcomeStop(r1, at, floorMajor, floorMinor, bound);
      var M2, m2 := PairOutcomeStop(r2, at, floorMajor, floorMinor, bound);
      ReachedBeforeStop(at, floorMajor, floorMinor, M1, m1, M2, m2);
      ReachedBeforeStop(at, floorMajor, floorMinor, M2, m2, M1, m1);
      assert at(M1, m1) == at(M2, m2);
      if r1.Ok? {
        assert r2.Ok?;
        PairCatalogUnique(r1.value, r2.value, at, floorMajor, floorMinor);
      } else if r1.error == BeakerAbsent {
        assert r2 == Err(BeakerAbsent);
      } else {
        assert r2.Err? && r2.error != BoundReached && r2.error != BeakerAbsent;
        assert r1.error.BeakerBroken? && r2.error.BeakerBroken?;
      }
    }
  }

  /** A walk that stops within the bound, having stayed within it before, never asks past it. */
  lemma NotBeyond(at: (nat, nat) -> Lookup, floorMajor: nat, floorMinor: nat, bound: nat, M: nat, m: nat)
    requires Reached(at, floorMajor, floorMinor, M, m) && Stops(at(M, m), m)
    requires M <= bound && m <= bound
    requires forall M': nat, m': nat :: Reached(at, floorMajor, floorMinor, M', m') && M' < M ==> m' <= bound
    ensures !PairBeyond(at, floorMajor, floorMinor, bound)
  {
    forall M': nat, m': nat | Reached(at, floorMajor, floorMinor, M', m')
      ensures M' <= bound && m' <= bound
    {
      ReachedBeforeStop(at, floorMajor, floorMinor, M, m, M', m');
    }
  }

  /** How the minors of one major ended: Beaker had no tree at `minor`, or the walk must stop. */
  datatype MajorEnd = TreeRunsOut(minor: nat) | Stopped(error: WalkError)

  /**
   * The inner loop of the RHEL/CentOS `_beakerRoots`: ask for each minor
   * of `major` in turn from its start, recording every root found, until a
   * lookup is not a result.
   */
  method WalkMinors(bkr: Bkr, query: (nat, nat) -> Query, variantOf: nat -> string, mode: StripMode,
                    floorMajor: nat, floorMinor: nat, bound: nat, major: nat, start: Catalog)
    returns (roots: Catalog, end: MajorEnd)
    requires var at := PairLookup(bkr, query, variantOf, mode);
             && Reached(at, floorMajor, floorMinor, major, StartMinor(major, floorMajor, floorMinor))
             && PairsSound(start, at, floorMajor, floorMinor)
             && PairsComplete(start, at, floorMajor, floorMinor, major, 0)
    ensures var at := PairLookup(bkr, query, variantOf, mode);
            && PairsSound(roots, at, floorMajor, floorMinor)
            && (end.TreeRunsOut? ==>
                  && end.minor <= bound
                  && Reached(at, floorMajor, floorMinor, major, end.minor)
                  && at(major, end.minor) == NoDistroTree
                  && PairsComplete(roots, at, floorMajor, floorMinor, major, end.minor))
            && (end == Stopped(BeakerAbsent) ==>
                  exists m: nat :: m <= bound && Reached(at, floorMajor, floorMinor, major, m) && at(major, m) == BeakerNotFound)
            && (end == Stopped(BeakerBroken) ==>
                  exists m: nat :: m <= bound && Reached(at, floorMajor, floorMinor, major, m) && at(major, m) == BeakerFailed)
            && (end == Stopped(BoundReached) ==>
                  exists m: nat :: bound < m && Reached(at, floorMajor, floorMinor, major, m))
  {
    ghost var at := PairLookup(bkr, query, variantOf, mode);
    roots := start;
    var minor := StartMinor(major, floorMajor, floorMinor);
    BelowStart(roots, at, floorMajor, floorMinor, major);
    while minor <= bound
      invariant Reached(at, floorMajor, floorMinor, major, minor)
      invariant PairsSound(roots, at, floorMajor, floorMinor)
      invariant PairsComplete(roots, at, floorMajor, floorMinor, major, minor)
      decreases bound - minor
    {
      var found := BeakerRoot(bkr, query(major, minor), variantOf(major), mode);
      assert found == at(major, minor);
      match found {
        case NoDistroTree =>
          return roots, TreeRunsOut(minor);
        case BeakerNotFound =>
          return roots, Stopped(BeakerAbsent);
        case BeakerFailed =>
          return roots, Stopped(BeakerBroken);
        case Found(root) =>
          if root.Some? {
            RecordPair(roots, at, floorMajor, floorMinor, major, minor);
            roots := roots[Key(major, minor) := root.value];
          } else {
            SkipPair(roots, at, floorMajor, floorMinor, major, minor);
          }
          ReachNext(at, floorMajor, floorMinor, major, minor);
          minor := minor + 1;
      }
    }
    end := Stopped(BoundReached);
  }

  /**
   * The RHEL/CentOS `_beakerRoots`: from the floor version, ask for each
   * minor in turn, recording every root found, until Beaker has no tree;
   * then go on with the next major from minor 0, unless the tree was
   * already missing at minor 0. Other Beaker failures propagate.
   */
  method PairWalk(bkr: Bkr, query: (nat, nat) -> Query, variantOf: nat -> string, mode: StripMode,
                  floorMajor: nat, floorMinor: nat, bound: nat) returns (r: Result<Catalog, WalkError>)
    ensures PairOutcome(r, PairLookup(bkr, query, variantOf, mode), floorMajor, floorMinor, bound)
  {
    ghost var at := PairLookup(bkr, query, variantOf, mode);
    var roots: Catalog := map[];
    var major := floorMajor;
    while major <= bound
      invariant floorMajor <= major
      invariant forall m: nat :: floorMajor <= m < major ==> PassesOver(at, floorMajor, floorMinor, m)
      invariant forall M: nat, m: nat :: Reached(at, floorMajor, floorMinor, M, m) && M < major ==> m <= bound
      invariant PairsSound(roots, at, floorMajor, floorMinor)
      invariant PairsComplete(roots, at, floorMajor, floorMinor, major, 0)
      decreases bound - major
    {
      assert Reached(at, floorMajor, floorMinor, major, StartMinor(major, floorMajor, floorMinor));
      var end;
      roots, end := WalkMinors(bkr, query, variantOf, mode, floorMajor, floorMinor, bound, major, roots);
      match end {
        case Stopped(error) =>
          StoppedOutcome(at, floorMajor, floorMinor, bound, major, error);
          return Err(error);
        case TreeRunsOut(minor) =>
          if minor == 0 {
            FinishedOutcome(roots, at, floorMajor, floorMinor, bound, major);
            return Ok(roots);
          }
          NextMajor(roots, at, floorMajor, floorMinor, major, minor);
      }
      major := major + 1;
    }
    BeyondOutcome(at, floorMajor, floorMinor, bound, major, StartMinor(major, floorMajor, floorMinor));
    r := Err(BoundReached);
  }

  /** A walk that met a Beaker failure, or went past the bound, within one major ends with that error. */
  lemma StoppedOutcome(at: (nat, nat) -> Lookup, floorMajor: nat, floorMinor: nat, bound: nat,
                       major: nat, error: WalkError)
    requires major <= bound
    requires forall M: nat, m: nat :: Reached(at, floorMajor, floorMinor, M, m) && M < major ==> m <= bound
    requires error == BeakerAbsent ==>
               exists m: nat :: m <= bound && Reached(at, floorMajor, floorMinor, major, m) && at(major, m) == BeakerNotFound
    requires error == BeakerBroken ==>
               exists m: nat :: m <= bound && Reached(at, floorMajor, floorMinor, major, m) && at(major, m) == BeakerFailed
    requires error == BoundReached ==> exists m: nat :: bound < m && Reached(at, floorMajor, floorMinor, major, m)
    ensures PairOutcome(Err(error), at, floorMajor, floorMinor, bound)
  {
    if error == BoundReached {
      var m: nat :| bound < m && Reached(at, floorMajor, floorMinor, major, m);
      BeyondOutcome(at, floorMajor, floorMinor, bound, major, m);
    } else {
      var m: nat :| m <= bound && Reached(at, floorMajor, floorMinor, major, m)
                    && (at(major, m) == BeakerNotFound || at(major, m) == BeakerFailed)
                    && (error == BeakerAbsent <==> at(major, m) == BeakerNotFound);
      NotBeyond(at, floorMajor, floorMinor, bound, major, m);
    }
  }

  /** A walk that found no tree at minor 0 of a major within the bound returns its catalog. */
  lemma FinishedOutcome(roots: Catalog, at: (nat, nat) -> Lookup, floorMajor: nat, floorMinor: nat, bound: nat,
                        major: nat)
    requires major <= bound
    requires forall M: nat, m: nat :: Reached(at, floorMajor, floorMinor, M, m) && M < major ==> m <= bound
    requires Reached(at, floorMajor, floorMinor, major, 0) && at(major, 0) == NoDistroTree
    requires PairsSound(roots, at, floorMajor, floorMinor)
    requires PairsComplete(roots, at, floorMajor, floorMinor, major, 0)
    ensures PairOutcome(Ok(roots), at, floorMajor, floorMinor, bound)
  {
    LastMajor(roots, at, floorMajor, floorMinor, major);
    NotBeyond(at, floorMajor, floorMinor, bound, major, 0);
  }

  /** A walk that asks about a pair past the bound ends with `BoundReached`. */
  lemma BeyondOutcome(at: (nat, nat) -> Lookup, floorMajor: nat, floorMinor: nat, bound: nat, M: nat, m: nat)
    requires Reached(at, floorMajor, floorMinor, M, m) && (bound < M || bound < m)
    ensures PairOutcome(Err(BoundReached), at, floorMajor, floorMinor, bound)
  {
  }

  /** Recording the root of the pair being asked about keeps the catalog sound and complete. */
  lemma RecordPair(roots: Catalog, at: (nat, nat) -> Lookup, floorMajor: nat, floorMinor: nat,
                   major: nat, minor: nat)
    requires Reached(at, floorMajor, floorMinor, major, minor)
    requires at(major, minor).Found? && at(major, minor).root.Some?
    requires PairsSound(roots, at, floorMajor, floorMinor)
    requires PairsComplete(roots, at, floorMajor, floorMinor, major, minor)
    ensures var next := roots[Key(major, minor) := at(major, minor).root.value];
            PairsSound(next, at, floorMajor, floorMinor)
            && PairsComplete(next, at, floorMajor, floorMinor, major, minor + 1)
  {
    var next := roots[Key(major, minor) := at(major, minor).root.value];
    forall M: nat, m: nat | Reached(at, floorMajor, floorMinor, M, m) && (M < major || (M == major && m < minor + 1))
                  && at(M, m).Found? && at(M, m).root.Some?
      ensures Key(M, m) in next && next[Key(M, m)] == at(M, m).root.value
    {
      if Key(M, m) == Key(major, minor) {
        KeyInjective(M, m, major, minor);
      }
    }
  }

  /** No pair of a major lies below its start. */
  lemma BelowStart(roots: Catalog, at: (nat, nat) -> Lookup, floorMajor: nat, floorMinor: nat, major: nat)
    requires PairsComplete(roots, at, floorMajor, floorMinor, major, 0)
    ensures PairsComplete(roots, at, floorMajor, floorMinor, major, StartMinor(major, floorMajor, floorMinor))
  {
  }

  /** A minor that yields a result lets the walk reach the next one. */
  lemma ReachNext(at: (nat, nat) -> Lookup, floorMajor: nat, floorMinor: nat, major: nat, minor: nat)
    requires Reached(at, floorMajor, floorMinor, major, minor) && at(major, minor).Found?
    ensures Reached(at, floorMajor, floorMinor, major, minor + 1)
  {
  }

  /** A pair asked about without a root adds nothing to record. */
  lemma SkipPair(roots: Catalog, at: (nat, nat) -> Lookup, floorMajor: nat, floorMinor: nat,
                 major: nat, minor: nat)
    requires at(major, minor) == Found(None)
    requires PairsComplete(roots, at, floorMajor, floorMinor, major, minor)
    ensures PairsComplete(roots, at, floorMajor, floorMinor, major, minor + 1)
  {
  }

  /** A major whose tree runs out at a minor above its start hands over to the next major. */
  lemma NextMajor(roots: Catalog, at: (nat, nat) -> Lookup, floorMajor: nat, floorMinor: nat,
                  major: nat, minor: nat)
    requires Reached(at, floorMajor, floorMinor, major, minor) && minor != 0
    requires at(major, minor) == NoDistroTree
    requires PairsComplete(roots, at, floorMajor, floorMinor, major, minor)
    ensures PassesOver(at, floorMajor, floorMinor, major)
    ensures forall m: nat :: Reached(at, floorMajor, floorMinor, major, m) ==> m <= minor
    ensures PairsComplete(roots, at, floorMajor, floorMinor, major + 1, 0)
  {
    assert RunsOutAt(at, floorMajor, floorMinor, major, minor);
    forall m: nat | Reached(at, floorMajor, floorMinor, major, m)
      ensures m <= minor
    {
      assert minor < m ==> at(major, minor).Found?;
    }
  }

  /** A major with no tree at minor 0 ends the walk with every reached root recorded. */
  lemma LastMajor(roots: Catalog, at: (nat, nat) -> Lookup, floorMajor: nat, floorMinor: nat, major: nat)
    requires Reached(at, floorMajor, floorMinor, major, 0)
    requires at(major, 0) == NoDistroTree
    requires PairsComplete(roots, at, floorMajor, floorMinor, major, 0)
    ensures EndsWalk(at, floorMajor, floorMinor, major)
    ensures forall M: nat, m: nat :: Reached(at, floorMajor, floorMinor, M, m) && at(M, m).Found? && at(M, m).root.Some?
              ==> Key(M, m) in roots && roots[Key(M, m)] == at(M, m).root.value
  {
    assert EndsWalk(at, floorMajor, floorMinor, major);
    forall M: nat, m: nat | Reached(at, floorMajor, floorMinor, M, m) && at(M, m).Found?
      ensures M < major
    {
      ReachedBeforeStop(at, floorMajor, floorMinor, major, 0, M, m);
    }
  }

  /** The lookup a walk over majors makes for each major. */
  function MajorLookup(bkr: Bkr, query: nat -> Query, variantOf: nat -> string, mode: StripMode): nat -> Lookup
  {
    (major: nat) => BeakerLookup(bkr(query(major)), variantOf(major), mode)
  }

  /** The walk asks about `major`: every major from the floor up to it yielded a result. */
  ghost predicate MajorReached(at: nat -> Lookup, floorMajor: nat, major: nat)
  {
    floorMajor <= major && forall m: nat :: floorMajor <= m < major ==> at(m).Found?
  }

  /** Every entry is the root of a reached major, keyed by the major alone. */
  ghost predicate MajorsSound(roots: Catalog, at: nat -> Lookup, floorMajor: nat)
  {
    forall k :: k in roots ==>
      exists M: nat :: k == NatToString(M) && MajorReached(at, floorMajor, M) && at(M) == Found(Some(roots[k]))
  }

  /** Every reached major below `major` that has a root is recorded. */
  ghost predicate MajorsComplete(roots: Catalog, at: nat -> Lookup, floorMajor: nat, major: nat)
  {
    forall M: nat :: MajorReached(at, floorMajor, M) && M < major && at(M).Found? && at(M).root.Some?
      ==> NatToString(M) in roots && roots[NatToString(M)] == at(M).root.value
  }

  /**
   * `roots` is what a finished walk over majors returns: the roots of
   * exactly the reached majors that have one, and the walk ended at a
   * major with no tree.
   */
  ghost predicate MajorCatalog(roots: Catalog, at: nat -> Lookup, floorMajor: nat)
  {
    && MajorsSound(roots, at, floorMajor)
    && (forall M: nat :: MajorReached(at, floorMajor, M) && at(M).Found? && at(M).root.Some?
          ==> NatToString(M) in roots && roots[NatToString(M)] == at(M).root.value)
    && exists M: nat :: MajorReached(at, floorMajor, M) && at(M) == NoDistroTree
  }

  /** The walk over majors reaches one whose lookup is `outcome`. */
  ghost predicate MajorMeets(at: nat -> Lookup, floorMajor: nat, outcome: Lookup)
  {
    exists M: nat :: MajorReached(at, floorMajor, M) && at(M) == outcome
  }

  /** The walk over majors asks about a major past `bound`. */
  ghost predicate MajorBeyond(at: nat -> Lookup, floorMajor: nat, bound: nat)
  {
    exists M: nat :: bound < M && MajorReached(at, floorMajor, M)
  }

  /**
   * What the Fedora `_beakerRoots` returns when its majors are cut off at
   * `bound`: `BoundReached` exactly when the walk would ask past the
   * bound; otherwise the catalog of a finished walk, or the failure it met.
   */
  ghost predicate MajorOutcome(r: Result<Catalog, WalkError>, at: nat -> Lookup, floorMajor: nat, bound: nat)
  {
    && (r == Err(BoundReached) <==> MajorBeyond(at, floorMajor, bound))
    && (r.Ok? ==> MajorCatalog(r.value, at, floorMajor))
    && (r == Err(BeakerAbsent) ==> MajorMeets(at, floorMajor, BeakerNotFound))
    && (r == Err(BeakerBroken) ==> MajorMeets(at, floorMajor, BeakerFailed))
  }

  /** Nothing the walk over majors asks about comes after a major without a result. */
  lemma MajorReachedBeforeStop(at: nat -> Lookup, floorMajor: nat, M: nat, M': nat)
    requires MajorReached(at, floorMajor, M) && !at(M).Found?
    requires MajorReached(at, floorMajor, M')
    ensures M' <= M
  {
    assert M < M' ==> at(M).Found?;
  }

  /** A finished walk's catalog is determined by what Beaker reports. */
  lemma MajorCatalogUnique(a: Catalog, b: Catalog, at: nat -> Lookup, floorMajor: nat)
    requires MajorCatalog(a, at, floorMajor) && MajorCatalog(b, at, floorMajor)
    ensures a == b
  {
    forall k | k in a ensures k in b && a[k] == b[k] {
      var M: nat :| k == NatToString(M) && MajorReached(at, floorMajor, M) && at(M) == Found(Some(a[k]));
    }
    forall k | k in b ensures k in a {
      var M: nat :| k == NatToString(M) && MajorReached(at, floorMajor, M) && at(M) == Found(Some(b[k]));
    }
  }

  /** The major at which a walk that stayed within its bound stopped. */
  lemma MajorOutcomeStop(r: Result<Catalog, WalkError>, at: nat -> Lookup, floorMajor: nat, bound: nat)
    returns (M: nat)
    requires MajorOutcome(r, at, floorMajor, bound) && r != Err(BoundReached)
    ensures MajorReached(at, floorMajor, M) && !at(M).Found?
    ensures r.Ok? <==> at(M) == NoDistroTree
    ensures r == Err(BeakerAbsent) <==> at(M) == BeakerNotFound
  {
    if r.Ok? {
      M :| MajorReached(at, floorMajor, M) && at(M) == NoDistroTree;
    } else if r.error == BeakerAbsent {
      M :| MajorReached(at, floorMajor, M) && at(M) == BeakerNotFound;
    } else {
      M :| MajorReached(at, floorMajor, M) && at(M) == BeakerFailed;
    }
  }

  /** What Beaker reports leaves the walk over majors exactly one outcome. */
  lemma MajorOutcomeUnique(r1: Result<Catalog, WalkError>, r2: Result<Catalog, WalkError>,
                           at: nat -> Lookup, floorMajor: nat, bound: nat)
    requires MajorOutcome(r1, at, floorMajor, bound) && MajorOutcome(r2, at, floorMajor, bound)
    ensures r1 == r2
  {
    if !MajorBeyond(at, floorMajor, bound) {
      var M1 := MajorOutcomeStop(r1, at, floorMajor, bound);
      var M2 := MajorOutcomeStop(r2, at, floorMajor, bound);
      MajorReachedBeforeStop(at, floorMajor, M1, M2);
      MajorReachedBeforeStop(at, floorMajor, M2, M1);
      assert at(M1) == at(M2);
      if r1.Ok? {
        assert r2.Ok?;
        MajorCatalogUnique(r1.value, r2.value, at, floorMajor);
      } else if r1.error == BeakerAbsent {
        assert r2 == Err(BeakerAbsent);
      } else {
        assert r2.Err? && r2.error != BoundReached && r2.error != BeakerAbsent;
        assert r1.error.BeakerBroken? && r2.error.BeakerBroken?;
      }
    }
  }

  /** A walk over majors that stops within the bound never asks past it. */
  lemma MajorNotBeyond(at: nat -> Lookup, floorMajor: nat, bound: nat, M: nat)
    requires MajorReached(at, floorMajor, M) && !at(M).Found? && M <= bound
    ensures !MajorBeyond(at, floorMajor, bound)
  {
    forall M': nat | MajorReached(at, floorMajor, M') ensures M' <= bound {
      MajorReachedBeforeStop(at, floorMajor, M, M');
    }
  }

  /**
   * The Fedora `_beakerRoots`: from the floor major, ask for each major in
   * turn, recording every root found under the major alone, until Beaker
   * has no tree. Other Beaker failures propagate.
   */
  method MajorWalk(bkr: Bkr, query: nat -> Query, variantOf: nat -> string, mode: StripMode,
                   floorMajor: nat, bound: nat) returns (r: Result<Catalog, WalkError>)
    ensures MajorOutcome(r, MajorLookup(bkr, query, variantOf, mode), floorMajor, bound)
  {
    ghost var at := MajorLookup(bkr, query, variantOf, mode);
    var roots: Catalog := map[];
    var major := floorMajor;
    while major <= bound
      invariant MajorReached(at, floorMajor, major)
      invariant MajorsSound(roots, at, floorMajor)
      invariant MajorsComplete(roots, at, floorMajor, major)
      decreases bound - major
    {
      var found := BeakerRoot(bkr, query(major), variantOf(major), mode);
      assert found == at(major);
      match found {
        case NoDistroTree =>
          LastFedora(roots, at, floorMajor, major);
          MajorNotBeyond(at, floorMajor, bound, major);
          return Ok(roots);
        case BeakerNotFound =>
          MajorNotBeyond(at, floorMajor, bound, major);
          return Err(BeakerAbsent);
        case BeakerFailed =>
          MajorNotBeyond(at, floorMajor, bound, major);
          return Err(BeakerBroken);
        case Found(root) =>
          RecordMajor(roots, at, floorMajor, major);
          if root.Some? {
            roots := roots[NatToString(major) := root.value];
          }
          major := major + 1;
      }
    }
    r := Err(BoundReached);
  }

  /** A major that yields a result extends the catalog soundly and completely. */
  lemma RecordMajor(roots: Catalog, at: nat -> Lookup, floorMajor: nat, major: nat)
    requires MajorReached(at, floorMajor, major) && at(major).Found?
    requires MajorsSound(roots, at, floorMajor) && MajorsComplete(roots, at, floorMajor, major)
    ensures MajorReached(at, floorMajor, major + 1)
    ensures var next := if at(major).root.Some? then roots[NatToString(major) := at(major).root.value] else roots;
            MajorsSound(next, at, floorMajor) && MajorsComplete(next, at, floorMajor, major + 1)
  {
    var next := if at(major).root.Some? then roots[NatToString(major) := at(major).root.value] else roots;
    forall M: nat | MajorReached(at, floorMajor, M) && M < major + 1 && at(M).Found? && at(M).root.Some?
      ensures NatToString(M) in next && next[NatToString(M)] == at(M).root.value
    {
      if M != major && NatToString(M) == NatToString(major) {
        NatToStringInjective(M, major);
      }
    }
  }

  /** A major with no tree ends the walk with every reached root recorded. */
  lemma LastFedora(roots: Catalog, at: nat -> Lookup, floorMajor: nat, major: nat)
    requires MajorReached(at, floorMajor, major) && at(major) == NoDistroTree
    requires MajorsComplete(roots, at, floorMajor, major)
    ensures forall M: nat :: MajorReached(at, floorMajor, M) && at(M).Found? && at(M).root.Some?
              ==> NatToString(M) in roots && roots[NatToString(M)] == at(M).root.value
  {
    forall M: nat | MajorReached(at, floorMajor, M) && at(M).Found?
      ensures M < major
    {
    }
  }

  /**
   * The released-roots choice of the providers: the walk's roots when it
   * finished, `fallback` when Beaker is not installed, and otherwise the
   * walk's failure.
   */
  function OrFallback(w: Result<Catalog, WalkError>, fallback: Catalog): Result<Catalog, WalkError>
  {
    if w == Err(BeakerAbsent) then Ok(fallback) else w
  }
}
