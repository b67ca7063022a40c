/**
 * The page controller's request flow: choose between the cached and a
 * freshly built content tree, keep the navigation artefact in step with
 * it, resolve the requested item, and assemble what the page template
 * receives.
 */
module PageController {
  import opened Values
  import opened ContentTree
  import opened Navigation
  import opened Content
  import opened CacheStore

  /** Seconds for which the cached structure is trusted. */
  const StructureTtl: int := 600
  /** Seconds after which the sitemap is regenerated. */
  const SitemapTtl: int := 86400

  const NoContentHtml: string := "<h1>No Content</h1><p>Your content folder is empty.</p>"

  /** Page meta data, as completed by the meta writer. */
  type Meta = map<string, string>

  /** The settings the controller reads. */
  datatype Settings = Settings(
    title: string,
    theme: string,
    coverThemes: set<string>,  // themes whose settings set `cover`
    logo: Option<string>,
    favicon: Option<string>)

  /**
   * The request: the base path and base URL of the site, and the route
   * parameter `params`, which is absent on the start page.
   */
  datatype Request = Request(basePath: string, baseUrl: string, params: Option<string>)

  /** The event dispatcher: each event hands its data to the listeners and reads it back. */
  datatype Events = Events(
    onPagetreeLoaded: Tree -> Tree,
    onBreadcrumbLoaded: seq<Item> -> seq<Item>,
    onItemLoaded: Option<Item> -> Option<Item>,
    onMetaLoaded: Meta -> Meta,
    onMarkdownLoaded: Option<string> -> Option<string>,
    onContentArrayLoaded: seq<Block> -> seq<Block>,
    onHtmlLoaded: string -> string)

  /**
   * Everything outside the controller that one request depends on: the
   * content folder (its listing and files), the extended structure
   * document, the folder model, the meta writer, the markdown engine and
   * the event listeners.
   */
  datatype Site = Site(
    pathToContent: string,
    settings: Settings,
    listing: seq<string>,
    extended: Option<Extended>,
    folderContentDetails: (seq<string>, Option<Extended>, string, string) -> Tree,
    itemForUrl: (Tree, string, string) -> Option<Item>,
    breadcrumb: (Tree, seq<int>) -> seq<Item>,
    pagingForItem: (Tree, Item) -> Item,
    readFile: string -> Option<string>,
    completePageMeta: (Option<string>, Settings, Option<Item>) -> Meta,
    parse: (Option<string>, Option<string>) -> seq<Block>,
    markup: (seq<Block>, Option<string>) -> string,
    events: Events)

  /** What is rendered. */
  datatype Response =
    | NoContent(content: string)
    | NotFound(navigation: Tree)
    | Page(
        route: string,
        home: bool,
        navigation: Tree,
        title: string,
        content: string,
        item: Option<Item>,
        breadcrumb: Option<seq<Item>>,
        metatabs: Meta,
        image: PageImage,
        logo: Option<string>,
        favicon: bool)

  /** The outcome of resolving the request path. */
  datatype Resolution =
    | Missing
    | Resolved(home: bool, item: Option<Item>, breadcrumb: Option<seq<Item>>, filePath: string)

  /** The structure the folder model builds from the scan and the extended document. */
  function Built(site: Site, req: Request): Tree {
    site.folderContentDetails(site.listing, site.extended, req.baseUrl, req.basePath)
  }

  /** `$extended && containsHiddenPages($extended)` */
  predicate HasHiddenPages(extended: Option<Extended>) {
    extended.Some? && SomeEntryHides(extended.value)
  }

  /** The cached files after a rebuild: the new structure, and the navigation written or removed. */
  function RebuiltTrees(trees: map<string, Tree>, site: Site, req: Request): (r: map<string, Tree>)
    ensures StructureFile in r && r[StructureFile] == Built(site, req)
    ensures NavigationFile in r <==> HasHiddenPages(site.extended)
    ensures NavigationFile in r ==> r[NavigationFile] == Prune(Built(site, req))
    ensures forall name :: name != StructureFile && name != NavigationFile ==>
      (name in r <==> name in trees) && (name in r ==> r[name] == trees[name])
  {
    if HasHiddenPages(site.extended)
    then trees[StructureFile := Built(site, req)][NavigationFile := Prune(Built(site, req))]
    else trees[StructureFile := Built(site, req)] - {NavigationFile}
  }

  /** The sitemap marker is stale: `!validate('cache', 'lastSitemap.txt', 86400)`. */
  predicate SitemapDue(cache: WriteCache, now: int)
    reads cache
  {
    !cache.Validate(LastSitemapMarker, SitemapTtl, now)
  }

  /** The markers after a rebuild: the cache marker, and the sitemap marker when the sitemap was regenerated. */
  function RebuiltMarkers(markers: map<string, int>, now: int, sitemapRegenerated: bool): (r: map<string, int>)
    ensures LastCacheMarker in r && r[LastCacheMarker] == now
    ensures LastSitemapMarker in r <==> sitemapRegenerated || LastSitemapMarker in markers
    ensures LastSitemapMarker in r ==> r[LastSitemapMarker] == if sitemapRegenerated then now else markers[LastSitemapMarker]
    ensures forall name :: name != LastCacheMarker && name != LastSitemapMarker ==>
      (name in r <==> name in markers) && (name in r ==> r[name] == markers[name])
  {
    if sitemapRegenerated then markers[LastCacheMarker := now][LastSitemapMarker := now]
    else markers[LastCacheMarker := now]
  }

  /** The cached structure may be served: its marker is fresh and the blob non-empty. */
  predicate CachedStructureUsable(cache: WriteCache, now: int)
    reads cache
  {
    cache.Validate(LastCacheMarker, StructureTtl, now) && StructureFile in cache.trees && |cache.trees[StructureFile]| > 0
  }

  /** The cached navigation if there is a non-empty one, the structure otherwise. */
  function NavigationFor(cached: Option<Tree>, structure: Tree): (r: Tree)
    ensures r == structure || (cached.Some? && r == cached.value)
    ensures r == structure <== cached.None? || |cached.value| == 0
    ensures |r| == 0 ==> r == structure
  {
    if cached.Some? && |cached.value| > 0 then cached.value else structure
  }

  /**
   * When every top-level item is hidden, pruning leaves an empty array,
   * which PHP treats as false: the page then shows the full structure as
   * its navigation, hidden pages included.
   */
  lemma {:induction false} AllHiddenFallsBackToStructure(t: Tree, structure: Tree)
    requires forall i :: 0 <= i < |t| ==> IsHidden(t[i].item)
    ensures Prune(t) == []
    ensures NavigationFor(Some(Prune(t)), structure) == structure
    decreases |t|
  {
    if |t| > 0 {
      AllHiddenFallsBackToStructure(t[1..], structure);
    }
  }

  function UrlRel(req: Request): string
    requires req.params.Some?
  {
    req.basePath + "/" + req.params.value
  }

  /** The item a request settles on before the folder check: looked up, paged, dispatched. */
  function DispatchedItem(site: Site, req: Request, structure: Tree, navigation: Tree): Option<Item> {
    if req.params.None? then
      site.events.onItemLoaded(site.itemForUrl(navigation, req.basePath, req.basePath))
    else match site.itemForUrl(structure, UrlRel(req), req.basePath)
      case None => None
      case Some(found) => site.events.onItemLoaded(Some(site.pagingForItem(navigation, found)))
  }

  predicate IsFolderItem(item: Option<Item>) {
    item.Some? && item.value.kind.Folder?
  }

  /** `$item->path`, which is empty when there is no item. */
  function PathOf(item: Option<Item>): string {
    if item.Some? then item.value.path else ""
  }

  /** `isset($item->urlRel) ? $item->urlRel : false` */
  function ItemUrl(item: Option<Item>): Option<string> {
    if item.Some? then Some(item.value.urlRel) else None
  }

  /**
   * The item shown: the dispatched item, unless it is a folder, which is
   * looked up again in the navigation by its URL (the start page has none).
   */
  function ShownItem(site: Site, req: Request, structure: Tree, navigation: Tree): Option<Item> {
    var item := DispatchedItem(site, req, structure, navigation);
    if !IsFolderItem(item) then item
    else if req.params.None? then None
    else site.itemForUrl(navigation, UrlRel(req), req.basePath)
  }

  /** The content file of the dispatched item; a folder's content is its `index.md`. */
  function FilePathFor(site: Site, req: Request, structure: Tree, navigation: Tree): string {
    var item := DispatchedItem(site, req, structure, navigation);
    site.pathToContent + PathOf(item) + (if IsFolderItem(item) then "/index.md" else "")
  }

  /** The breadcrumb of a page found in the structure; the start page has none. */
  function BreadcrumbFor(site: Site, req: Request, structure: Tree): Option<seq<Item>> {
    if req.params.None? then None
    else match site.itemForUrl(structure, UrlRel(req), req.basePath)
      case None => None
      case Some(found) => Some(site.events.onBreadcrumbLoaded(site.breadcrumb(structure, found.keyPathArray)))
  }

  /** How the request resolves: a 404 for a page URL missing from the structure. */
  function Resolve(site: Site, req: Request, structure: Tree, navigation: Tree): Resolution {
    if req.params.Some? && site.itemForUrl(structure, UrlRel(req), req.basePath).None? then Missing
    else Resolved(req.params.None?, ShownItem(site, req, structure, navigation), BreadcrumbFor(site, req, structure),
                  FilePathFor(site, req, structure, navigation))
  }

  /** The parsed block array of the page's markdown, after its events. */
  function BlocksOf(site: Site, markdown: Option<string>, itemUrl: Option<string>): seq<Block> {
    site.events.onContentArrayLoaded(site.parse(site.events.onMarkdownLoaded(markdown), itemUrl))
  }

  /**
   * `resp` is the page rendered for the resolved request `res`: the title
   * and body are the `</h1>` split of the rendered HTML, the image comes
   * from the first image paragraph, the meta data is completed from the
   * file, the cover template serves the start page of a theme with a
   * cover, the logo lies under `media/files/`, and the favicon flag follows
   * its setting.
   */
  predicate IsPageFor(site: Site, req: Request, res: Resolution, navigation: Tree, resp: Response) {
    && res.Resolved?
    && resp.Page?
    && var markdown := site.readFile(res.filePath);
       var blocks := BlocksOf(site, markdown, ItemUrl(res.item));
       var html := site.events.onHtmlLoaded(site.markup(blocks, ItemUrl(res.item)));
       && resp.home == res.home && resp.item == res.item && resp.breadcrumb == res.breadcrumb
       && resp.navigation == navigation
       && TitledContent(resp.title, resp.content) == SplitTitle(html, site.settings.title)
       && resp.image == ExtractImage(FirstImageParagraph(blocks), req.baseUrl)
       && resp.metatabs == site.events.onMetaLoaded(site.completePageMeta(markdown, site.settings, res.item))
       && resp.route == (if req.params.None? && site.settings.theme in site.settings.coverThemes
                         then "/cover.twig" else "/index.twig")
       && resp.logo == (if site.settings.logo.Some? && site.settings.logo.value != ""
                        then Some("media/files/" + site.settings.logo.value) else None)
       && (resp.favicon <==> site.settings.favicon.Some? && site.settings.favicon.value != "")
  }

  /** `getFreshStructure`: rebuild the structure, cache it, and refresh the navigation artefact. */
  method GetFreshStructure(cache: WriteCache, site: Site, req: Request, now: int) returns (structure: Option<Tree>)
    modifies cache
    ensures |site.listing| == 0 ==> structure == None && unchanged(cache)
    ensures |site.listing| > 0 ==> structure == Some(Built(site, req))
    ensures |site.listing| > 0 ==> cache.trees == RebuiltTrees(old(cache.trees), site, req)
    ensures |site.listing| > 0 ==> cache.markers == RebuiltMarkers(old(cache.markers), now, false)
    ensures cache.sitemap == old(cache.sitemap)
  {
    if |site.listing| == 0 {
      return None;
    }
    var extended := site.extended;
    var built := site.folderContentDetails(site.listing, extended, req.baseUrl, req.basePath);
    cache.UpdateCache(StructureFile, Some(LastCacheMarker), built, now);
    var hidden := false;
    if extended.Some? && |extended.value| > 0 {
      hidden := ContainsHiddenPages(extended.value);
    }
    if hidden {
      var navigation := Prune(built);
      cache.UpdateCache(NavigationFile, None, navigation, now);
    } else {
      cache.DeleteFileWithPath(NavigationFile);
    }
    // Reload from the cache: the copy written above predates the pruning.
    structure := cache.GetCache(StructureFile);
  }

  /**
   * Lines 42-65 of `index`: serve the cached structure while it is fresh
   * and non-empty; otherwise rebuild it and, after a successful rebuild,
   * regenerate a day-old sitemap. No structure means no content.
   */
  method LoadStructure(cache: WriteCache, site: Site, req: Request, now: int) returns (structure: Option<Tree>)
    modifies cache
    ensures structure.Some? ==> |structure.value| > 0
    ensures old(CachedStructureUsable(cache, now)) ==>
      structure == old(cache.GetCache(StructureFile)) && unchanged(cache)
    ensures !old(CachedStructureUsable(cache, now)) ==>
      structure == if |site.listing| == 0 || |Built(site, req)| == 0 then None else Some(Built(site, req))
    ensures !old(CachedStructureUsable(cache, now)) && |site.listing| == 0 ==> unchanged(cache)
    ensures !old(CachedStructureUsable(cache, now)) && |site.listing| > 0 ==>
      var regenerated := |Built(site, req)| > 0 && old(SitemapDue(cache, now));
      && cache.trees == RebuiltTrees(old(cache.trees), site, req)
      && cache.markers == RebuiltMarkers(old(cache.markers), now, regenerated)
      && cache.sitemap == if regenerated then Some(Sitemap(Built(site, req), req.baseUrl)) else old(cache.sitemap)
  {
    structure := None;
    if cache.Validate(LastCacheMarker, StructureTtl, now) {
      structure := cache.GetCache(StructureFile);
    }
    if structure.None? || |structure.value| == 0 {
      structure := GetFreshStructure(cache, site, req, now);
      if structure.None? || |structure.value| == 0 {
        return None;
      } else if !cache.Validate(LastSitemapMarker, SitemapTtl, now) {
        cache.UpdateSitemap(structure.value, req.baseUrl, now);
      }
    }
  }

  /**
   * Lines 84-128 of `index`: the start page is looked up in the navigation,
   * any other page in the structure (a miss is a 404); a folder's content
   * is its `index.md`, and the folder is then looked up again in the
   * navigation by its URL. The start page has no URL to look up again, so
   * a folder as start page leaves no item.
   */
  method ResolveItem(site: Site, req: Request, structure: Tree, navigation: Tree) returns (res: Resolution)
    ensures res.Missing? <==> req.params.Some? && site.itemForUrl(structure, UrlRel(req), req.basePath).None?
    ensures res.Resolved? ==>
      && res.home == req.params.None?
      && res.item == ShownItem(site, req, structure, navigation)
      && res.breadcrumb == BreadcrumbFor(site, req, structure)
      && res.filePath == FilePathFor(site, req, structure, navigation)
  {
    var home := false;
    var item: Option<Item>;
    var breadcrumb: Option<seq<Item>> := None;
    var urlRel: Option<string> := None;
    if req.params.None? {
      home := true;
      item := site.itemForUrl(navigation, req.basePath, req.basePath);
    } else {
      urlRel := Some(req.basePath + "/" + req.params.value);
      item := site.itemForUrl(structure, urlRel.value, req.basePath);
      if item.None? {
        return Missing;
      }
      var crumbs := site.breadcrumb(structure, item.value.keyPathArray);
      breadcrumb := Some(site.events.onBreadcrumbLoaded(crumbs));
      item := Some(site.pagingForItem(navigation, item.value));
    }
    item := site.events.onItemLoaded(item);
    var filePath := site.pathToContent + PathOf(item);
    if item.Some? && item.value.kind.Folder? {
      filePath := filePath + "/index.md";
      item := if urlRel.Some? then site.itemForUrl(navigation, urlRel.value, req.basePath) else None;
    }
    return Resolved(home, item, breadcrumb, filePath);
  }

  /**
   * Lines 130-220 of `index`: read, parse and render the page's markdown,
   * take the title from the HTML before the first `</h1>`, and pick the
   * first image, the template, the logo and the favicon flag.
   */
  method RenderPage(site: Site, req: Request, res: Resolution, navigation: Tree) returns (resp: Response)
    requires res.Resolved?
    ensures IsPageFor(site, req, res, navigation, resp)
  {
    var contentMD := site.readFile(res.filePath);
    var metatabs := site.events.onMetaLoaded(site.completePageMeta(contentMD, site.settings, res.item));
    contentMD := site.events.onMarkdownLoaded(contentMD);
    var itemUrl := ItemUrl(res.item);
    var contentArray := site.parse(contentMD, itemUrl);
    contentArray := site.events.onContentArrayLoaded(contentArray);
    var firstImage := GetFirstImage(contentArray);
    var contentHTML := site.markup(contentArray, itemUrl);
    contentHTML := site.events.onHtmlLoaded(contentHTML);
    var split := SplitTitle(contentHTML, site.settings.title);
    var image := ExtractImage(firstImage, req.baseUrl);
    var route := "/index.twig";
    if req.params.None? && site.settings.theme in site.settings.coverThemes {
      route := "/cover.twig";
    }
    var logo: Option<string> := None;
    if site.settings.logo.Some? && site.settings.logo.value != "" {
      logo := Some("media/files/" + site.settings.logo.value);
    }
    var favicon := false;
    if site.settings.favicon.Some? && site.settings.favicon.value != "" {
      favicon := true;
    }
    resp := Response.Page(route, res.home, navigation, split.title, split.body, res.item,
                          res.breadcrumb, metatabs, image, logo, favicon);
  }

  /**
   * Lines 67-220 of `index` once a structure is loaded: dispatch it, take
   * the cached navigation or else the structure, and answer a 404 carrying
   * the navigation or the page.
   */
  method Serve(cache: WriteCache, site: Site, req: Request, loaded: Tree) returns (resp: Response)
    ensures !resp.NoContent?
    ensures resp.navigation == NavigationFor(cache.GetCache(NavigationFile), site.events.onPagetreeLoaded(loaded))
    ensures resp.NotFound? <==>
      req.params.Some? && site.itemForUrl(site.events.onPagetreeLoaded(loaded), UrlRel(req), req.basePath).None?
    ensures
      var structure := site.events.onPagetreeLoaded(loaded);
      var shown := NavigationFor(cache.GetCache(NavigationFile), structure);
      var res := Resolve(site, req, structure, shown);
      (resp.NotFound? <==> res.Missing?) && (res.Resolved? ==> IsPageFor(site, req, res, shown, resp))
  {
    var structure := site.events.onPagetreeLoaded(loaded);
    var navigation := cache.GetCache(NavigationFile);
    var shown := if navigation.Some? && |navigation.value| > 0 then navigation.value else structure;
    var res := ResolveItem(site, req, structure, shown);
    if res.Missing? {
      return NotFound(shown);
    }
    resp := RenderPage(site, req, res, shown);
  }

  /** `index`: one request, from cache check to rendered response. */
  method Index(cache: WriteCache, site: Site, req: Request, now: int) returns (resp: Response)
    modifies cache
    ensures resp.NoContent? <==>
      !old(CachedStructureUsable(cache, now)) && (|site.listing| == 0 || |Built(site, req)| == 0)
    ensures resp.NoContent? ==> resp.content == NoContentHtml
    ensures old(CachedStructureUsable(cache, now)) ==> unchanged(cache)
    ensures !old(CachedStructureUsable(cache, now)) && |site.listing| == 0 ==> unchanged(cache)
    ensures !old(CachedStructureUsable(cache, now)) && |site.listing| > 0 ==>
      var regenerated := |Built(site, req)| > 0 && old(SitemapDue(cache, now));
      && cache.trees == RebuiltTrees(old(cache.trees), site, req)
      && cache.markers == RebuiltMarkers(old(cache.markers), now, regenerated)
      && cache.sitemap == if regenerated then Some(Sitemap(Built(site, req), req.baseUrl)) else old(cache.sitemap)
    ensures !resp.NoContent? ==>
      var loaded := if old(CachedStructureUsable(cache, now)) then old(cache.trees[StructureFile]) else Built(site, req);
      var structure := site.events.onPagetreeLoaded(loaded);
      var shown := NavigationFor(cache.GetCache(NavigationFile), structure);
      var res := Resolve(site, req, structure, shown);
      && resp.navigation == shown
      && (resp.NotFound? <==> req.params.Some? && site.itemForUrl(structure, UrlRel(req), req.basePath).None?)
      && (res.Resolved? ==> IsPageFor(site, req, res, shown, resp))
  {
    var structure := LoadStructure(cache, site, req, now);
    if structure.None? {
      return NoContent(NoContentHtml);
    }
    resp := Serve(cache, site, req, structure.value);
  }

  /**
   * Within the ten minutes after a rebuild, a request serves the tree that
   * was built then, even if the content folder has changed since, and
   * writes nothing: the cache is left as the rebuild wrote it.
   */
  method RebuildThenReuse(cache: WriteCache, site: Site, later: Site, req: Request, t0: int, t1: int)
    returns (first: Option<Tree>, second: Option<Tree>)
    requires !CachedStructureUsable(cache, t0)
    requires |site.listing| > 0 && |Built(site, req)| > 0
    requires t1 - t0 < StructureTtl
    modifies cache
    ensures first == Some(Built(site, req)) && second == first
    ensures
      var regenerated := old(SitemapDue(cache, t0));
      && cache.trees == RebuiltTrees(old(cache.trees), site, req)
      && cache.markers == RebuiltMarkers(old(cache.markers), t0, regenerated)
      && cache.sitemap == if regenerated then Some(Sitemap(Built(site, req), req.baseUrl)) else old(cache.sitemap)
  {
    first := LoadStructure(cache, site, req, t0);
    second := LoadStructure(cache, later, req, t1);
  }
}
