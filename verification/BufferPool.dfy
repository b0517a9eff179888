/** The page cache without eviction (src/storage/buffer_pool.cpp). */
module BufferPools {
  import opened Wrappers
  import opened Locks
  import opened Serial

  datatype PoolError = BeyondEndOfFile

  /** `file` with every cached dirty page of `ps` written back. */
  function Flushed(file: Disk, pages: Disk, dirty: set<PageKey>, ps: set<PageKey>): Disk {
    file + map p | p in ps && p in pages && p in dirty :: pages[p]
  }

  class BufferPool {
    var pages: Disk
    var dirty: set<PageKey>
    var file: Disk

    constructor (files: Disk)
      ensures pages == map[] && dirty == {} && file == files
    {
      pages, dirty, file := map[], {}, files;
    }

    /** The cached page, or the page on file, which is then cached. */
    method FetchPage(key: PageKey) returns (r: Result<Image, PoolError>)
      modifies this`pages
      ensures r.Err? <==> key !in old(pages) && key !in file
      ensures r.Err? ==> pages == old(pages)
      ensures r.Ok? ==> r.value == (if key in old(pages) then old(pages)[key] else Lookup(file, key))
      ensures r.Ok? ==> pages == old(pages)[key := r.value]
    {
      if key in pages {
        assert pages[key := pages[key]] == pages;
        return Ok(pages[key]);
      }
      if key !in file { return Err(BeyondEndOfFile); }
      pages := pages[key := file[key]];
      return Ok(pages[key]);
    }

    /** A page edited in place through the pointer FetchPage handed out, then marked dirty. */
    method Update(key: PageKey, image: Image)
      requires key in pages
      modifies this`pages, this`dirty
      ensures pages == old(pages)[key := image] && dirty == old(dirty) + {key}
    {
      pages := pages[key := image];
      dirty := dirty + {key};
    }

    /** Grows the file by one zero page, cached and dirty. */
    method NewPage(key: PageKey)
      requires key !in file
      modifies this
      ensures file == old(file)[key := ZeroPage()] && pages == old(pages)[key := ZeroPage()]
      ensures dirty == old(dirty) + {key}
    {
      file := file[key := ZeroPage()];
      pages := pages[key := ZeroPage()];
      dirty := dirty + {key};
    }

    /** Writes back exactly the named pages that are cached and dirty. */
    method FlushPages(ps: set<PageKey>)
      modifies this`file, this`dirty
      ensures file == Flushed(old(file), pages, old(dirty), ps)
      ensures dirty == old(dirty) - (ps * pages.Keys)
    {
      var rest := ps;
      assert file == Flushed(old(file), pages, old(dirty), ps - rest);
      while rest != {}
        invariant rest <= ps
        invariant file == Flushed(old(file), pages, old(dirty), ps - rest)
        invariant dirty == old(dirty) - ((ps - rest) * pages.Keys)
        decreases rest
      {
        var p :| p in rest;
        FlushedStep(old(file), pages, old(dirty), ps - rest, p);
        assert ps - (rest - {p}) == ps - rest + {p};
        rest := rest - {p};
        if p in pages && p in dirty {
          file := file[p := pages[p]];
          dirty := dirty - {p};
        }
      }
      assert ps - rest == ps;
    }

    /** Everything dirty, whoever dirtied it: only right when no transaction is active. */
    method FlushAll()
      modifies this`file, this`dirty
      ensures file == Flushed(old(file), pages, old(dirty), old(dirty)) && dirty == {}
    {
      FlushPages(dirty);
      dirty := {};
    }

    /** Reloads a cached page from the file. */
    method DiscardPage(key: PageKey)
      requires key in pages ==> key in file
      modifies this`pages, this`dirty
      ensures key in old(pages) ==> pages == old(pages)[key := Lookup(file, key)] && dirty == old(dirty) - {key}
      ensures key !in old(pages) ==> pages == old(pages) && dirty == old(dirty)
    {
      if key !in pages { return; }
      pages := pages[key := file[key]];
      dirty := dirty - {key};
    }
  }

  lemma FlushedStep(file: Disk, pages: Disk, dirty: set<PageKey>, ps: set<PageKey>, p: PageKey)
    requires p !in ps
    ensures Flushed(file, pages, dirty, ps + {p})
         == if p in pages && p in dirty then Flushed(file, pages, dirty, ps)[p := pages[p]]
             else Flushed(file, pages, dirty, ps)
  {
  }

  lemma FlushedRest(file: Disk, pages: Disk, dirty: set<PageKey>, ps: set<PageKey>, p: PageKey)
    requires p in ps && p in pages && p in dirty
    ensures Flushed(file[p := pages[p]], pages, dirty - {p}, ps - {p}) == Flushed(file, pages, dirty, ps)
  {
  }
}
