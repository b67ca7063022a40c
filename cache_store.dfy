/**
 * The `cache` folder as the page controller uses it: serialized trees
 * stored under file names, timestamp markers that record when a file was
 * last written, and the sitemap. Files are always replaced whole.
 */
module CacheStore {
  import opened Values
  import opened ContentTree

  const StructureFile: string := "structure.txt"
  const NavigationFile: string := "navigation.txt"
  const LastCacheMarker: string := "lastCache.txt"
  const LastSitemapMarker: string := "lastSitemap.txt"

  /** What the sitemap is generated from: the structure and the base URL. */
  datatype Sitemap = Sitemap(structure: Tree, baseUrl: string)

  class WriteCache {
    var trees: map<string, Tree>
    var markers: map<string, int>
    var sitemap: Option<Sitemap>

    constructor ()
      ensures trees == map[] && markers == map[] && sitemap == None
    {
      trees := map[];
      markers := map[];
      sitemap := None;
    }

    /** `validate`: the marker exists and is younger than `duration` seconds. */
    predicate Validate(marker: string, duration: int, now: int)
      reads this
      ensures Validate(marker, duration, now) ==> marker in markers && markers[marker] > now - duration
      ensures marker in markers && markers[marker] == now ==> (Validate(marker, duration, now) <==> duration > 0)
    {
      marker in markers && now - markers[marker] < duration
    }

    /** `getCache`: the stored tree, if the file exists. */
    function GetCache(name: string): (r: Option<Tree>)
      reads this
      ensures r.Some? <==> name in trees
      ensures r.Some? ==> r.value == trees[name]
    {
      if name in trees then Some(trees[name]) else None
    }

    /** `updateCache`: store the tree, and stamp the marker with the time if one is given. */
    method UpdateCache(name: string, marker: Option<string>, data: Tree, now: int)
      modifies this
      ensures trees == old(trees)[name := data]
      ensures markers == if marker.Some? then old(markers)[marker.value := now] else old(markers)
      ensures sitemap == old(sitemap)
    {
      trees := trees[name := data];
      if marker.Some? {
        markers := markers[marker.value := now];
      }
    }

    /** `deleteFileWithPath`: remove the file; a missing file is no error. */
    method DeleteFileWithPath(name: string)
      modifies this
      ensures trees == old(trees) - {name}
      ensures markers == old(markers) && sitemap == old(sitemap)
    {
      trees := trees - {name};
    }

    /** `updateSitemap`: regenerate the sitemap and stamp its marker. */
    method UpdateSitemap(structure: Tree, baseUrl: string, now: int)
      modifies this
      ensures sitemap == Some(Sitemap(structure, baseUrl))
      ensures markers == old(markers)[LastSitemapMarker := now]
      ensures trees == old(trees)
    {
      sitemap := Some(Sitemap(structure, baseUrl));
      markers := markers[LastSitemapMarker := now];
    }
  }
}
