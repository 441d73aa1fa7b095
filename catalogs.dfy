/**
 * Root catalogs ("version" -> base URI) and the operations on them that
 * do not depend on a provider: Python's `dict.update`, the three-way
 * precedence merges of the public queries, sub-map filtering, and the
 * per-architecture memo behind `_cachedLatest`/`_cachedNightly`/`_cachedReleased`.
 */
module Catalogs {
  import opened Basics

  type Catalog = map<string, string>

  /** `base.update(top)`: every key of either, the value of `top` where both have one. */
  function Overlay(base: Catalog, top: Catalog): (r: Catalog)
    ensures r.Keys == base.Keys + top.Keys
    ensures forall k :: k in top ==> r[k] == top[k]
    ensures forall k :: k in base && k !in top ==> r[k] == base[k]
  {
    base + top
  }

  /**
   * A copy of `low`, updated with `mid` and then with `high`: later
   * catalogs win on a shared key.
   */
  function Prioritized(low: Catalog, mid: Catalog, high: Catalog): (r: Catalog)
    ensures r.Keys == low.Keys + mid.Keys + high.Keys
    ensures forall k :: k in high ==> r[k] == high[k]
    ensures forall k :: k in mid && k !in high ==> r[k] == mid[k]
    ensures forall k :: k in low && k !in mid && k !in high ==> r[k] == low[k]
  {
    Overlay(Overlay(low, mid), high)
  }

  /** `roots.update(c)` for every `c` of `cs`, in order, starting from `{}`. */
  function MergeAll(cs: seq<Catalog>): (r: Catalog)
    ensures forall k :: k in r <==> exists i :: 0 <= i < |cs| && k in cs[i]
  {
    if cs == [] then map[]
    else
      var init := MergeAll(cs[..|cs| - 1]);
      assert forall i :: 0 <= i < |cs| - 1 ==> cs[..|cs| - 1][i] == cs[i];
      Overlay(init, cs[|cs| - 1])
  }

  /** Merging one more catalog is overlaying it on what was merged so far. */
  lemma MergeAllStep(cs: seq<Catalog>, i: nat)
    requires i < |cs|
    ensures MergeAll(cs[..i + 1]) == Overlay(MergeAll(cs[..i]), cs[i])
  {
    assert cs[..i + 1][..i] == cs[..i];
  }

  /** The value of a merged key comes from the last catalog that has it. */
  lemma {:induction false} MergeAllLastWins(cs: seq<Catalog>, i: nat, k: string)
    requires i < |cs| && k in cs[i]
    requires forall j :: i < j < |cs| ==> k !in cs[j]
    ensures k in MergeAll(cs) && MergeAll(cs)[k] == cs[i][k]
  {
    if i < |cs| - 1 {
      var init := cs[..|cs| - 1];
      assert init[i] == cs[i];
      MergeAllLastWins(init, i, k);
    }
  }

  /** `a` is `b` with some keys dropped and no value changed. */
  predicate SubMap(a: Catalog, b: Catalog)
  {
    a.Keys <= b.Keys && forall k :: k in a ==> a[k] == b[k]
  }

  /** `dict([(k, v) for (k, v) in m.items() if keep(k, v)])`. */
  function KeepWhere(m: Catalog, keep: (string, string) -> bool): (r: Catalog)
    ensures SubMap(r, m)
    ensures forall k :: k in m ==> (k in r <==> keep(k, m[k]))
  {
    map k | k in m && keep(k, m[k]) :: m[k]
  }

  /** The release-maturity channels; their names are also the cache file names. */
  datatype Category = Latest | Nightly | Released
  {
    function Name(): string
    {
      match this
      case Latest => "latest"
      case Nightly => "nightly"
      case Released => "released"
    }
  }

  /**
   * The in-memory per-architecture caches of one provider and the three
   * public queries over them. `available(category, arch)` is the
   * provider's `_availableLatest`/`_availableNightly`/`_availableReleased`;
   * an `Err` stands for the exception it raises. `computed` records every
   * call whose result was memoised.
   */
  class RootQueries<E(==)> {
    const defaultArch: string
    const available: (Category, string) -> Result<Catalog, E>
    var cachedLatest: map<string, Catalog>
    var cachedNightly: map<string, Catalog>
    var cachedReleased: map<string, Catalog>
    ghost var computed: seq<(Category, string)>

    function Memo(c: Category): map<string, Catalog>
      reads this
    {
      match c
      case Latest => cachedLatest
      case Nightly => cachedNightly
      case Released => cachedReleased
    }

    /** The architecture a query is about: the one given, or the default. */
    function Arch(architecture: Option<string>): string
    {
      if architecture.Some? then architecture.value else defaultArch
    }

    /**
     * `memo` after the provider was asked for `(c, a)`: holding the
     * answer when there is one, unchanged when the provider raises.
     */
    function Filled(c: Category, a: string, memo: map<string, Catalog>): (r: map<string, Catalog>)
      ensures available(c, a).Ok? ==> a in r && r[a] == available(c, a).value
      ensures available(c, a).Err? ==> r == memo
      ensures forall a' :: a' != a ==> (a' in r <==> a' in memo)
      ensures forall a' :: a' != a && a' in memo ==> r[a'] == memo[a']
    {
      if available(c, a).Ok? then memo[a := available(c, a).value] else memo
    }

    /**
     * Every memo entry is what the provider computes for it, and each
     * (category, architecture) was memoised at most once, and only
     * for an entry the memo now holds.
     */
    ghost predicate Valid()
      reads this
    {
      && Computes(Latest, cachedLatest)
      && Computes(Nightly, cachedNightly)
      && Computes(Released, cachedReleased)
      && (forall i, j :: 0 <= i < j < |computed| ==> computed[i] != computed[j])
      && (forall i :: 0 <= i < |computed| ==> computed[i].1 in Memo(computed[i].0))
    }

    /** Every entry of `memo` is the provider's successful answer for it. */
    ghost predicate Computes(c: Category, memo: map<string, Catalog>)
    {
      forall a :: a in memo ==> available(c, a) == Ok(memo[a])
    }

    constructor (defaultArch: string, available: (Category, string) -> Result<Catalog, E>)
      ensures Valid() && computed == []
      ensures this.defaultArch == defaultArch && this.available == available
      ensures cachedLatest == map[] && cachedNightly == map[] && cachedReleased == map[]
    {
      this.defaultArch := defaultArch;
      this.available := available;
      cachedLatest, cachedNightly, cachedReleased := map[], map[], map[];
      computed := [];
    }

    /**
     * `_cachedX(architecture)`: the memo entry, computing it on first use.
     * When the provider raises, the exception propagates and the memo is
     * left as it was, so a later call asks again. The result is a copy:
     * Dafny maps are values, so nothing a caller does with it reaches the memo.
     */
    method Cached(c: Category, architecture: Option<string>) returns (r: Result<Catalog, E>)
      requires Valid()
      modifies this
      ensures Valid()
      ensures r == available(c, Arch(architecture))
      ensures Memo(c) == Filled(c, Arch(architecture), old(Memo(c)))
      ensures computed == old(computed) +
                (if Arch(architecture) in old(Memo(c)) || r.Err? then [] else [(c, Arch(architecture))])
      ensures forall c' :: c' != c ==> Memo(c') == old(Memo(c'))
    {
      var a := Arch(architecture);
      if a in Memo(c) {
        r := Ok(Memo(c)[a]);
        return;
      }
      r := available(c, a);
      if r.Err? {
        return;
      }
      assert (c, a) !in computed;
      computed := computed + [(c, a)];
      match c
      case Latest => cachedLatest := cachedLatest[a := r.value];
      case Nightly => cachedNightly := cachedNightly[a := r.value];
      case Released => cachedReleased := cachedReleased[a := r.value];
    }

    /**
     * Asking for `low`, `mid` and `high` in turn, as the public queries
     * do: the first exception wins, and otherwise the three catalogs are
     * layered with `high` on top.
     */
    method Layered(low: Category, mid: Category, high: Category, architecture: Option<string>)
      returns (r: Result<Catalog, E>)
      requires Valid()
      requires low != mid && mid != high && low != high
      modifies this
      ensures Valid()
      ensures var a := Arch(architecture);
              && (r.Ok? <==> available(low, a).Ok? && available(mid, a).Ok? && available(high, a).Ok?)
              && (r.Ok? ==> r.value == Prioritized(available(low, a).value, available(mid, a).value,
                                                   available(high, a).value))
              && (available(low, a).Err? ==> r == available(low, a))
              && (available(low, a).Ok? && available(mid, a).Err? ==> r == available(mid, a))
              && (available(low, a).Ok? && available(mid, a).Ok? ==> r.Err? ==> r == available(high, a))
      ensures var a := Arch(architecture);
              && Memo(low) == Filled(low, a, old(Memo(low)))
              && Memo(mid) == (if available(low, a).Ok? then Filled(mid, a, old(Memo(mid))) else old(Memo(mid)))
              && Memo(high) == (if available(low, a).Ok? && available(mid, a).Ok?
                                then Filled(high, a, old(Memo(high))) else old(Memo(high)))
      ensures |computed| <= |old(computed)| + 3
    {
      var base := Cached(low, architecture);
      if base.Err? {
        return base;
      }
      var middle := Cached(mid, architecture);
      if middle.Err? {
        return middle;
      }
      var top := Cached(high, architecture);
      if top.Err? {
        return top;
      }
      r := Ok(Overlay(Overlay(base.value, middle.value), top.value));
    }

    /** `availableRoots`: released over latest over nightly. */
    method AvailableRoots(architecture: Option<string>) returns (r: Result<Catalog, E>)
      requires Valid()
      modifies this
      ensures Valid()
      ensures var a := Arch(architecture);
              && (r.Ok? <==> available(Nightly, a).Ok? && available(Latest, a).Ok? && available(Released, a).Ok?)
              && (r.Ok? ==> r.value == Prioritized(available(Nightly, a).value, available(Latest, a).value,
                                                   available(Released, a).value))
              && (available(Nightly, a).Err? ==> r == available(Nightly, a))
              && (available(Nightly, a).Ok? && available(Latest, a).Err? ==> r == available(Latest, a))
              && (available(Nightly, a).Ok? && available(Latest, a).Ok? ==> r.Err? ==> r == available(Released, a))
      ensures var a := Arch(architecture);
              && Memo(Nightly) == Filled(Nightly, a, old(Memo(Nightly)))
              && Memo(Latest) == (if available(Nightly, a).Ok? then Filled(Latest, a, old(Memo(Latest)))
                                  else old(Memo(Latest)))
              && Memo(Released) == (if available(Nightly, a).Ok? && available(Latest, a).Ok?
                                    then Filled(Released, a, old(Memo(Released))) else old(Memo(Released)))
      ensures |computed| <= |old(computed)| + 3
    {
      r := Layered(Nightly, Latest, Released, architecture);
    }

    /** `availableLatestRoots`: latest over released over nightly. */
    method AvailableLatestRoots(architecture: Option<string>) returns (r: Result<Catalog, E>)
      requires Valid()
      modifies this
      ensures Valid()
      ensures var a := Arch(architecture);
              && (r.Ok? <==> available(Nightly, a).Ok? && available(Released, a).Ok? && available(Latest, a).Ok?)
              && (r.Ok? ==> r.value == Prioritized(available(Nightly, a).value, available(Released, a).value,
                                                   available(Latest, a).value))
              && (available(Nightly, a).Err? ==> r == available(Nightly, a))
              && (available(Nightly, a).Ok? && available(Released, a).Err? ==> r == available(Released, a))
              && (available(Nightly, a).Ok? && available(Released, a).Ok? ==> r.Err? ==> r == available(Latest, a))
      ensures var a := Arch(architecture);
              && Memo(Nightly) == Filled(Nightly, a, old(Memo(Nightly)))
              && Memo(Released) == (if available(Nightly, a).Ok? then Filled(Released, a, old(Memo(Released)))
                                    else old(Memo(Released)))
              && Memo(Latest) == (if available(Nightly, a).Ok? && available(Released, a).Ok?
                                  then Filled(Latest, a, old(Memo(Latest))) else old(Memo(Latest)))
      ensures |computed| <= |old(computed)| + 3
    {
      r := Layered(Nightly, Released, Latest, architecture);
    }

    /** `availableNightlyRoots`: nightly over latest over released. */
    method AvailableNightlyRoots(architecture: Option<string>) returns (r: Result<Catalog, E>)
      requires Valid()
      modifies this
      ensures Valid()
      ensures var a := Arch(architecture);
              && (r.Ok? <==> available(Released, a).Ok? && available(Latest, a).Ok? && available(Nightly, a).Ok?)
              && (r.Ok? ==> r.value == Prioritized(available(Released, a).value, available(Latest, a).value,
                                                   available(Nightly, a).value))
              && (available(Released, a).Err? ==> r == available(Released, a))
              && (available(Released, a).Ok? && available(Latest, a).Err? ==> r == available(Latest, a))
              && (available(Released, a).Ok? && available(Latest, a).Ok? ==> r.Err? ==> r == available(Nightly, a))
      ensures var a := Arch(architecture);
              && Memo(Released) == Filled(Released, a, old(Memo(Released)))
              && Memo(Latest) == (if available(Released, a).Ok? then Filled(Latest, a, old(Memo(Latest)))
                                  else old(Memo(Latest)))
              && Memo(Nightly) == (if available(Released, a).Ok? && available(Latest, a).Ok?
                                   then Filled(Nightly, a, old(Memo(Nightly))) else old(Memo(Nightly)))
      ensures |computed| <= |old(computed)| + 3
    {
      r := Layered(Released, Latest, Nightly, architecture);
    }
  }

  /** Once an architecture is memoised, asking again computes nothing. */
  method CachedTwice<E(==)>(q: RootQueries<E>, c: Category, a: string) returns (first: Result<Catalog, E>, second: Result<Catalog, E>)
    requires q.Valid()
    modifies q
    ensures first == second == q.available(c, a)
    ensures |q.computed| <= |old(q.computed)| + 1
  {
    first := q.Cached(c, Some(a));
    ghost var mid := q.computed;
    second := q.Cached(c, Some(a));
    assert q.computed == mid;
  }

  /**
   * Three overlapping catalogs: released {30:R}, latest {30:L, 31:L2},
   * nightly {30:N}.
   */
  lemma PrecedenceExample()
    ensures Prioritized(map["30" := "N"], map["30" := "L", "31" := "L2"], map["30" := "R"])
            == map["30" := "R", "31" := "L2"]
    ensures Prioritized(map["30" := "N"], map["30" := "R"], map["30" := "L", "31" := "L2"])
            == map["30" := "L", "31" := "L2"]
  {
  }
}
