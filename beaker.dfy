/**
 * Root discovery through Beaker: one `bkr distro-trees-list --family F
 * --name N --format json` query, the choice of a root among the trees it
 * lists, and the walks over versions that build a catalog from queries.
 * The `bkr` process is an oracle from a query to how the run went: its exit
 * code and parsed trees, the executable missing, or another launch failure.
 */
module Beaker {
  import opened Basics
  import opened Text
  import opened Catalogs

  /** One distro tree of `bkr` output: `available` holds (controller host, URI) pairs. */
  datatype DistroTree = DistroTree(variant: string, arch: string, available: seq<(string, string)>)

  datatype Query = Query(family: string, name: string)

  datatype Run =
    | Exited(code: int, trees: seq<DistroTree>)
    | NotInstalled     // launching failed with ENOENT
    | LaunchFailed     // launching failed for another reason

  type Bkr = Query -> Run

  /** How one lookup ends: a root (or none), or the exception it raises. */
  datatype Lookup = Found(root: Option<string>) | NoDistroTree | BeakerNotFound | BeakerFailed

  /** The preference tiers: the Boston controller, then RDU, then any http URI. */
  datatype Tier = Bos | Rdu | AnyHttp

  predicate Qualifies(pair: (string, string), tier: Tier)
  {
    && StartsWith(pair.1, "http")
    && match tier
       case Bos => EndsWith(pair.0, "bos.redhat.com")
       case Rdu => EndsWith(pair.0, "rdu.redhat.com")
       case AnyHttp => true
  }

  /** How the `/<variant>/<arch>/os` tail is cut off a tree URI. */
  datatype StripMode =
    | RSplit          // `uri.rsplit(tail, 1)[0]`
    | RStripChars     // `uri.rstrip(tail)`, which strips a set of characters

  function OsTail(variant: string, arch: string): (r: string)
    ensures |r| > 0
  {
    "/" + variant + "/" + arch + "/os"
  }

  /** The repository root named by a tree URI. */
  function StripRoot(uri: string, variant: string, arch: string, mode: StripMode): (r: string)
    ensures |r| <= |uri| && r == uri[..|r|]
    ensures mode == RSplit ==> RSplitHead(uri, OsTail(variant, arch)) == r
    ensures mode == RStripChars ==> r != [] ==> r[|r| - 1] !in CharSet(OsTail(variant, arch))
    ensures mode == RStripChars ==> forall j :: |r| <= j < |uri| ==> uri[j] in CharSet(OsTail(variant, arch))
  {
    match mode
    case RSplit => RSplitHead(uri, OsTail(variant, arch))
    case RStripChars => RStrip(uri, CharSet(OsTail(variant, arch)))
  }

  /** With `rsplit`, a URI that is a root followed by the tail gives back that root. */
  lemma RSplitRecoversRoot(root: string, variant: string, arch: string)
    ensures StripRoot(root + OsTail(variant, arch), variant, arch, RSplit) == root
  {
    RSplitHeadOfSuffixed(root, OsTail(variant, arch));
  }

  /**
   * With `rstrip`, a root whose last character belongs to the tail loses
   * it: `.../compose` followed by `/Server/x86_64/os` comes back as `.../comp`.
   */
  lemma RStripEatsRoot()
    ensures StripRoot("http://h/compose/Server/x86_64/os", "Server", "x86_64", RStripChars) == "http://h/comp"
  {
    var uri := "http://h/compose/Server/x86_64/os";
    var chars := CharSet(OsTail("Server", "x86_64"));
    TailChars();
    assert uri[..13] == "http://h/comp";
    assert forall j :: 13 <= j < |uri| ==> uri[j] in chars;
    RStripStopsAt(uri, chars, 13);
  }

  /** The characters `rstrip` removes for the Server/x86_64 tail. */
  lemma TailChars()
    ensures var chars := CharSet(OsTail("Server", "x86_64"));
            && (forall c :: c in "/Serv" + "x86_4os" ==> c in chars)
            && 'p' !in chars
  {
    var t := OsTail("Server", "x86_64");
    assert t == "/Server/x86_64/os";
    assert t[0] == '/' && t[1] == 'S' && t[2] == 'e' && t[3] == 'r' && t[4] == 'v';
    assert t[8] == 'x' && t[9] == '8' && t[10] == '6' && t[11] == '_' && t[13] == '4';
    assert t[15] == 'o' && t[16] == 's';
  }

  /** The same URI cut with `rsplit` keeps the whole root. */
  lemma RSplitKeepsRoot()
    ensures StripRoot("http://h/compose/Server/x86_64/os", "Server", "x86_64", RSplit) == "http://h/compose"
  {
    assert "http://h/compose/Server/x86_64/os" == "http://h/compose" + OsTail("Server", "x86_64");
    RSplitRecoversRoot("http://h/compose", "Server", "x86_64");
  }

  /** `rstrip` keeps exactly the prefix up to the last character outside the set. */
  lemma {:induction false} RStripStopsAt(s: string, chars: set<char>, n: nat)
    requires 0 < n <= |s| && s[n - 1] !in chars
    requires forall j :: n <= j < |s| ==> s[j] in chars
    ensures RStrip(s, chars) == s[..n]
    decreases |s|
  {
    if |s| > n {
      assert s[..|s| - 1][n - 1] == s[n - 1];
      RStripStopsAt(s[..|s| - 1], chars, n);
      assert s[..|s| - 1][..n] == s[..n];
    }
  }

  /** Index of the first pair of `pairs` that qualifies for `tier`, or -1. */
  function FirstQualifying(pairs: seq<(string, string)>, tier: Tier): (r: int)
    ensures -1 <= r < |pairs|
    ensures r >= 0 ==> Qualifies(pairs[r], tier)
    ensures forall j :: 0 <= j < |pairs| && (r < 0 || j < r) ==> !Qualifies(pairs[j], tier)
  {
    if pairs == [] then -1
    else if Qualifies(pairs[0], tier) then 0
    else
      var k := FirstQualifying(pairs[1..], tier);
      if k < 0 then -1 else k + 1
  }

  /** The roots of the qualifying pairs of one tree, in order. */
  function QualifiedRoots(t: DistroTree, tier: Tier, mode: StripMode): (r: seq<string>)
    ensures |r| <= |t.available|
    ensures |r| > 0 <==> FirstQualifying(t.available, tier) >= 0
    ensures |r| > 0 ==>
              r[0] == StripRoot(t.available[FirstQualifying(t.available, tier)].1, t.variant, t.arch, mode)
  {
    var qs := Keep(t.available, tier);
    seq(|qs|, i requires 0 <= i < |qs| => StripRoot(qs[i].1, t.variant, t.arch, mode))
  }

  /** `list(filter(qualifies, pairs))`. */
  function Keep(pairs: seq<(string, string)>, tier: Tier): (r: seq<(string, string)>)
    ensures |r| <= |pairs|
    ensures |r| > 0 <==> FirstQualifying(pairs, tier) >= 0
    ensures |r| > 0 ==> r[0] == pairs[FirstQualifying(pairs, tier)]
    ensures forall p :: p in r <==> p in pairs && Qualifies(p, tier)
  {
    if pairs == [] then []
    else if Qualifies(pairs[0], tier) then [pairs[0]] + Keep(pairs[1..], tier)
    else Keep(pairs[1..], tier)
  }

  /** Tree `i` is the first of `ds` with a pair qualifying for `tier`. */
  ghost predicate FirstTree(ds: seq<DistroTree>, tier: Tier, i: int)
  {
    && 0 <= i < |ds|
    && FirstQualifying(ds[i].available, tier) >= 0
    && forall k :: 0 <= k < i ==> FirstQualifying(ds[k].available, tier) < 0
  }

  /**
   * The root one tier yields: the first qualifying pair of the first tree
   * that has one, stripped; none when no pair of any tree qualifies.
   */
  function TierRoot(ds: seq<DistroTree>, tier: Tier, mode: StripMode): (r: Option<string>)
    ensures r.None? <==>
              forall i, j :: 0 <= i < |ds| && 0 <= j < |ds[i].available| ==> !Qualifies(ds[i].available[j], tier)
    ensures r.Some? ==>
              exists i :: FirstTree(ds, tier, i)
                && r.value == StripRoot(ds[i].available[FirstQualifying(ds[i].available, tier)].1,
                                        ds[i].variant, ds[i].arch, mode)
  {
    if ds == [] then None
    else
      var here := QualifiedRoots(ds[0], tier, mode);
      if |here| > 0 then
        assert FirstTree(ds, tier, 0);
        Some(here[0])
      else
        var rest := TierRoot(ds[1..], tier, mode);
        if rest.Some? then
          TierRootShift(ds, tier, mode, rest.value);
          rest
        else
          assert forall i, j :: 1 <= i < |ds| && 0 <= j < |ds[i].available| ==>
                   ds[1..][i - 1] == ds[i] && !Qualifies(ds[i].available[j], tier);
          rest
  }

  /** A root found past the first tree comes from a first tree of `ds` as well. */
  lemma TierRootShift(ds: seq<DistroTree>, tier: Tier, mode: StripMode, u: string)
    requires |ds| > 0 && FirstQualifying(ds[0].available, tier) < 0
    requires exists i :: FirstTree(ds[1..], tier, i)
               && u == StripRoot(ds[1..][i].available[FirstQualifying(ds[1..][i].available, tier)].1,
                                 ds[1..][i].variant, ds[1..][i].arch, mode)
    ensures exists i :: FirstTree(ds, tier, i)
              && u == StripRoot(ds[i].available[FirstQualifying(ds[i].available, tier)].1,
                                ds[i].variant, ds[i].arch, mode)
  {
    var i :| FirstTree(ds[1..], tier, i)
             && u == StripRoot(ds[1..][i].available[FirstQualifying(ds[1..][i].available, tier)].1,
                               ds[1..][i].variant, ds[1..][i].arch, mode);
    assert FirstTree(ds, tier, i + 1);
  }

  /**
   * One tier's loop of `_beakerRoot`: for each tree, the stripped URIs of
   * its qualifying pairs, stopping at the first tree that has some.
   */
  method ScanTier(distros: seq<DistroTree>, tier: Tier, mode: StripMode) returns (available: seq<string>)
    ensures |available| == 0 <==> TierRoot(distros, tier, mode).None?
    ensures |available| > 0 ==> available[0] == TierRoot(distros, tier, mode).value
  {
    available := [];
    var i := 0;
    while i < |distros|
      invariant 0 <= i <= |distros|
      invariant TierRoot(distros[i..], tier, mode) == TierRoot(distros, tier, mode)
      invariant available == []
    {
      assert distros[i..][1..] == distros[i + 1..];
      available := QualifiedRoots(distros[i], tier, mode);
      if |available| > 0 {
        break;
      }
      i := i + 1;
    }
  }

  /** `list(filter(lambda x: x["variant"] == variant, trees))`. */
  function OfVariant(trees: seq<DistroTree>, variant: string): (r: seq<DistroTree>)
    ensures |r| <= |trees|
    ensures forall t :: t in r <==> t in trees && t.variant == variant
  {
    if trees == [] then []
    else if trees[0].variant == variant then [trees[0]] + OfVariant(trees[1..], variant)
    else OfVariant(trees[1..], variant)
  }

  /** The three tiers in order: the first that yields a root decides. */
  function PreferredRoot(ds: seq<DistroTree>, mode: StripMode): (r: Option<string>)
    ensures r.None? <==>
              forall i, j :: 0 <= i < |ds| && 0 <= j < |ds[i].available| ==> !StartsWith(ds[i].available[j].1, "http")
    ensures (exists i, j :: 0 <= i < |ds| && 0 <= j < |ds[i].available| && Qualifies(ds[i].available[j], Bos))
            ==> r == TierRoot(ds, Bos, mode)
    ensures TierRoot(ds, Bos, mode).None? && TierRoot(ds, Rdu, mode).Some? ==> r == TierRoot(ds, Rdu, mode)
    ensures r.Some? ==> r == TierRoot(ds, Bos, mode) || r == TierRoot(ds, Rdu, mode) || r == TierRoot(ds, AnyHttp, mode)
  {
    var bos := TierRoot(ds, Bos, mode);
    if bos.Some? then bos
    else
      var rdu := TierRoot(ds, Rdu, mode);
      if rdu.Some? then rdu
      else
        var any := TierRoot(ds, AnyHttp, mode);
        assert any.None? ==> forall i, j :: 0 <= i < |ds| && 0 <= j < |ds[i].available|
                                ==> !Qualifies(ds[i].available[j], AnyHttp);
        any
  }

  /**
   * What `_beakerRoot` returns or raises for the outcome of its query:
   * exit code 1 is "no distro tree", any other failure an unexpected
   * error, a missing executable "beaker not found", and success the
   * preferred root among the trees of the requested variant.
   */
  function BeakerLookup(run: Run, variant: string, mode: StripMode): (r: Lookup)
    ensures r == NoDistroTree <==> run.Exited? && run.code == 1
    ensures r == BeakerNotFound <==> run.NotInstalled?
    ensures r == BeakerFailed <==> run.LaunchFailed? || (run.Exited? && run.code != 0 && run.code != 1)
    ensures r.Found? <==> run.Exited? && run.code == 0
    ensures r.Found? ==> r.root == PreferredRoot(OfVariant(run.trees, variant), mode)
  {
    match run
    case NotInstalled => BeakerNotFound
    case LaunchFailed => BeakerFailed
    case Exited(code, trees) =>
      if code == 1 then NoDistroTree
      else if code != 0 then BeakerFailed
      else Found(PreferredRoot(OfVariant(trees, variant), mode))
  }

  /** `_beakerRoot(family, name, variant)`. */
  method BeakerRoot(bkr: Bkr, q: Query, variant: string, mode: StripMode) returns (r: Lookup)
    ensures r == BeakerLookup(bkr(q), variant, mode)
  {
    var run := bkr(q);
    match run {
      case NotInstalled => return BeakerNotFound;
      case LaunchFailed => return BeakerFailed;
      case Exited(code, trees) =>
        if code != 0 {
          if code == 1 {
            return NoDistroTree;
          }
          return BeakerFailed;
        }
        var distros := OfVariant(trees, variant);
        var available := ScanTier(distros, Bos, mode);
        if |available| == 0 {
          available := ScanTier(distros, Rdu, mode);
        }
        if |available| == 0 {
          available := ScanTier(distros, AnyHttp, mode);
        }
        r := if |available| == 0 then Found(None) else Found(Some(available[0]));
    }
  }
}
