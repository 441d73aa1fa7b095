/**
 * The architecture-agnostic root cache of the repository-level base
 * class: roots per category kept in memory and in a JSON file under
 * `$HOME/.python-infrastructure/repos/<class name>/<category>.json`. A
 * file at least a day old is deleted instead of read. The filesystem is a
 * map from path to (content, modification time); the clock is the `now`
 * argument. JSON encoding of a string-to-string map round-trips, so a
 * file's content is kept as the catalog itself.
 */
module AgnosticCache {
  import opened Catalogs

  datatype FileRecord = FileRecord(content: Catalog, mtime: int)

  /** Seconds after which a cache file is stale. */
  const MaxAge := 86400

  function DirPath(home: string, className: string): string
  {
    home + "/.python-infrastructure/repos/" + className
  }

  function FilePath(home: string, className: string, category: string): (r: string)
    ensures |r| > |DirPath(home, className)| && r[..|DirPath(home, className)|] == DirPath(home, className)
  {
    DirPath(home, className) + "/" + category + ".json"
  }

  predicate Fresh(f: FileRecord, now: int)
  {
    now - f.mtime < MaxAge
  }

  class AgnosticStore {
    const home: string
    const className: string
    var memory: map<string, Catalog>
    var files: map<string, FileRecord>
    ghost var finderCalls: nat

    constructor (home: string, className: string, files: map<string, FileRecord>)
      ensures this.home == home && this.className == className
      ensures memory == map[] && this.files == files && finderCalls == 0
    {
      this.home := home;
      this.className := className;
      memory := map[];
      this.files := files;
      finderCalls := 0;
    }

    function PathOf(category: string): string
      reads this
    {
      FilePath(home, className, category)
    }

    /** `__privateLoadAgnosticFile`: read a fresh file into memory, delete a stale one. */
    method Load(category: string, now: int)
      modifies this
      ensures finderCalls == old(finderCalls)
      ensures var path := PathOf(category);
              if path !in old(files) then
                memory == old(memory) && files == old(files)
              else if Fresh(old(files)[path], now) then
                memory == old(memory)[category := old(files)[path].content] && files == old(files)
              else
                memory == old(memory) && files == old(files) - {path}
    {
      var path := PathOf(category);
      if path in files {
        if now - files[path].mtime >= MaxAge {
          files := files - {path};
        } else {
          memory := memory[category := files[path].content];
        }
      }
    }

    /** `__privateSaveAgnosticFile`: (re)write the category's file, stamped `now`. */
    method Save(category: string, roots: Catalog, now: int)
      modifies this
      ensures files == old(files)[PathOf(category) := FileRecord(roots, now)]
      ensures memory == old(memory) && finderCalls == old(finderCalls)
    {
      files := files[PathOf(category) := FileRecord(roots, now)];
    }

    /**
     * `__privateAgnosticRoots(category, finder)`: the roots in memory,
     * else those of a fresh file, else the finder's, which are saved and
     * loaded back. The finder runs only in the last case.
     */
    method Roots(category: string, now: int, finder: () -> Catalog) returns (r: Catalog)
      modifies this
      ensures var path := PathOf(category);
              if category in old(memory) then
                r == old(memory)[category] && memory == old(memory) && files == old(files)
                && finderCalls == old(finderCalls)
              else if path in old(files) && Fresh(old(files)[path], now) then
                r == old(files)[path].content && memory == old(memory)[category := r] && files == old(files)
                && finderCalls == old(finderCalls)
              else
                r == finder() && memory == old(memory)[category := r]
                && files == old(files)[path := FileRecord(r, now)]
                && finderCalls == old(finderCalls) + 1
    {
      if category !in memory {
        Load(category, now);
        if category !in memory {
          var roots := finder();
          finderCalls := finderCalls + 1;
          Save(category, roots, now);
          Load(category, now);
        }
      }
      r := memory[category];
    }
  }

  /** Asking for a category twice runs the finder at most once, and both answers agree. */
  method RootsTwice(s: AgnosticStore, category: string, now: int, later: int, finder: () -> Catalog)
    returns (first: Catalog, second: Catalog)
    modifies s
    ensures first == second
    ensures s.finderCalls <= old(s.finderCalls) + 1
  {
    first := s.Roots(category, now, finder);
    second := s.Roots(category, later, finder);
  }

  /** A file saved now is loaded back unchanged by a load before it turns a day old. */
  method SaveThenLoad(s: AgnosticStore, category: string, roots: Catalog, now: int, later: int)
    requires now <= later < now + MaxAge
    modifies s
    ensures category in s.memory && s.memory[category] == roots
  {
    s.Save(category, roots, now);
    s.Load(category, later);
  }

  /** A file a day old or older is removed, and the finder then decides the roots. */
  method StaleFileIgnored(s: AgnosticStore, category: string, now: int, finder: () -> Catalog)
    returns (r: Catalog)
    requires category !in s.memory
    requires s.PathOf(category) in s.files && now - s.files[s.PathOf(category)].mtime >= MaxAge
    modifies s
    ensures r == finder() && s.finderCalls == old(s.finderCalls) + 1
  {
    r := s.Roots(category, now, finder);
  }
}
