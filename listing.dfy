/**
 * Directory listings as the regular expressions of the discovery code see
 * them. A fetched page is its raw text together with its anchors
 * `<a href="HREF">TEXT</a>` in document order; every pattern of the source
 * has the shape `<a\s+href="(X)/">\1/</a>`, so an anchor matches only when
 * its visible text repeats its href (`\1`), compared up to ASCII case where
 * the pattern carries `(?i)`. The matchers below parse the href the way the
 * corresponding pattern does.
 */
module Listing {
  import opened Basics
  import opened Text

  datatype Anchor = Anchor(href: string, text: string)

  /** A fetched body; `anchors` are the anchor tags found in `raw`. */
  datatype Page = Page(raw: string, anchors: seq<Anchor>)

  /** What a failed or non-200 fetch yields. */
  const EmptyPage := Page("", [])

  /** The anchor's text is the backreference `\1` of its href. */
  predicate Echoes(a: Anchor, caseless: bool)
  {
    SameText(a.href, a.text, caseless)
  }

  /** A directory anchor: href and text both `X/`; yields `X`. */
  function DirOf(a: Anchor, caseless: bool): (r: Option<string>)
    ensures r.Some? ==> a.href == r.value + "/" && Echoes(a, caseless)
  {
    if Echoes(a, caseless) && EndsWith(a.href, "/") then Some(a.href[..|a.href| - 1]) else None
  }

  /** A match of `(PREFIX(\d+))/`: the whole directory name and its digits. */
  datatype NumberedDir = NumberedDir(dir: string, digits: string)
  {
    function Number(): nat
      requires AllDigits(digits)
    {
      NatOf(digits)
    }
  }

  /** Parses `PREFIX<digits>` (the prefix compared up to case when `caseless`). */
  function NumberedDirOf(a: Anchor, prefix: string, caseless: bool): (r: Option<NumberedDir>)
    ensures r.Some? ==> IsDigits(r.value.digits) && r.value.dir + "/" == a.href
    ensures r.Some? ==> |prefix| < |r.value.dir| && r.value.digits == r.value.dir[|prefix|..]
  {
    match DirOf(a, caseless)
    case None => None
    case Some(dir) =>
      if |prefix| < |dir| && SameText(dir[..|prefix|], prefix, caseless)
         && IsDigits(dir[|prefix|..])
      then Some(NumberedDir(dir, dir[|prefix|..]))
      else None
  }

  /** A parsed version directory: name, major, minor and z-stream (0 when absent). */
  datatype VersionDir = VersionDir(dir: string, major: nat, minor: nat, z: nat)

  /** Parses `(\d+)(|\.\d+)`: a minor with an optional z-stream. */
  function MinorZOf(s: string): (r: Option<(nat, nat)>)
  {
    match FindFirst(s, ".", 0)
    case None => if IsDigits(s) then Some((NatOf(s), 0)) else None
    case Some(i) =>
      if IsDigits(s[..i]) && IsDigits(s[i + 1..])
      then Some((NatOf(s[..i]), NatOf(s[i + 1..])))
      else None
  }

  /** A match of `(PREFIX(\d+)\.(\d+)(|\.\d+))/`, such as `latest-RHEL-8.2.1/`. */
  function VersionDirOf(a: Anchor, prefix: string, caseless: bool): (r: Option<VersionDir>)
    ensures r.Some? ==> r.value.dir + "/" == a.href
  {
    match DirOf(a, caseless)
    case None => None
    case Some(dir) =>
      if |prefix| <= |dir| && SameText(dir[..|prefix|], prefix, caseless) then
        var rest := dir[|prefix|..];
        match FindFirst(rest, ".", 0)
        case None => None
        case Some(i) =>
          if IsDigits(rest[..i]) then
            match MinorZOf(rest[i + 1..])
            case None => None
            case Some(mz) => Some(VersionDir(dir, NatOf(rest[..i]), mz.0, mz.1))
          else None
      else None
  }

  /** A match of `({major}\.(\d+)(|\.\d+))/` for a fixed, formatted major. */
  function MinorDirOf(a: Anchor, major: nat, caseless: bool): (r: Option<VersionDir>)
    ensures r.Some? ==> r.value.major == major && r.value.dir + "/" == a.href
  {
    var prefix := NatToString(major) + ".";
    match DirOf(a, caseless)
    case None => None
    case Some(dir) =>
      if |prefix| <= |dir| && SameText(dir[..|prefix|], prefix, caseless) then
        match MinorZOf(dir[|prefix|..])
        case None => None
        case Some(mz) => Some(VersionDir(dir, major, mz.0, mz.1))
      else None
  }

  /** `<a\s+href="(NAME)">\1</a>`: an anchor whose href is exactly `name`. */
  predicate Names(a: Anchor, name: string, caseless: bool)
  {
    SameText(a.href, name, caseless) && Echoes(a, caseless)
  }

  /** `re.search` of such a pattern: some anchor of the page names `name`. */
  predicate Mentions(p: Page, name: string, caseless: bool)
  {
    exists i :: 0 <= i < |p.anchors| && Names(p.anchors[i], name, caseless)
  }

  /** `re.findall` of a pattern: its matches in document order. */
  function Collect<T>(anchors: seq<Anchor>, f: Anchor -> Option<T>): (r: seq<T>)
    ensures |r| <= |anchors|
    ensures forall i :: 0 <= i < |anchors| && f(anchors[i]).Some? ==> f(anchors[i]).value in r
    ensures forall x :: x in r ==> exists i :: 0 <= i < |anchors| && f(anchors[i]) == Some(x)
  {
    if anchors == [] then []
    else
      var head := Collect(anchors[..|anchors| - 1], f);
      match f(anchors[|anchors| - 1])
      case None => head
      case Some(x) => head + [x]
  }

  /** The numbered directories whose number is at least `floor`, in order. */
  function AtLeast(ds: seq<NumberedDir>, floor: nat): (r: seq<NumberedDir>)
    requires forall d :: d in ds ==> IsDigits(d.digits)
    ensures |r| <= |ds|
    ensures forall d :: d in r <==> d in ds && IsDigits(d.digits) && NatOf(d.digits) >= floor
  {
    if ds == [] then []
    else
      var rest := AtLeast(ds[1..], floor);
      assert forall d :: d in ds <==> d == ds[0] || d in ds[1..];
      assert ds[0] in ds && IsDigits(ds[0].digits);
      if NatOf(ds[0].digits) >= floor then [ds[0]] + rest else rest
  }

  /** The `PREFIX<N>/` directories of a page whose number N is at least `floor`. */
  function NumberedDirs(p: Page, prefix: string, caseless: bool, floor: nat): (r: seq<NumberedDir>)
    ensures forall d :: d in r ==> IsDigits(d.digits) && NatOf(d.digits) >= floor
    ensures forall d :: d in r <==>
              IsDigits(d.digits) && NatOf(d.digits) >= floor
              && exists i :: 0 <= i < |p.anchors| && NumberedDirOf(p.anchors[i], prefix, caseless) == Some(d)
  {
    var ds := Collect(p.anchors, a => NumberedDirOf(a, prefix, caseless));
    AtLeast(ds, floor)
  }
}
