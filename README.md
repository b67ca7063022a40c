# Typemill page controller, modelled in Dafny

This project models the core of Typemill's `PageController`, the controller
that serves every page of a Typemill flat-file site. It covers three parts.

- **Navigation derivation.** `containsHiddenPages` checks the extended
  structure document (`structure-extended.yaml`) for an entry whose `hide`
  is exactly `true`. `createNavigationFromStructure` then prunes hidden items,
  together with their whole subtrees, out of the content tree.
- **Content signals.** `getFirstImage` finds the first paragraph block whose
  text starts with `![`. The rendered HTML is split at `</h1>` into title and
  body. The first image's URL and alt text come from two lazy regular
  expressions.
- **Cache refresh and request flow.** The cached structure (`structure.txt`)
  is served while its marker `lastCache.txt` is younger than 600 seconds.
  Otherwise the content folder is rescanned and the structure rebuilt. Each
  rebuild rewrites the navigation artefact `navigation.txt`, or deletes it
  when nothing is hidden. The sitemap is regenerated only on a rebuild whose
  marker `lastSitemap.txt` is a day old or missing. The request is then resolved to an item, a 404, or the
  "No Content" page.

Modules, one per concern:

- `Values` (`values.dfy`): `Option` and PHP scalars with PHP truthiness.
- `ContentTree` (`content_tree.dfy`): items, folders and their
  `folderContent`, PHP arrays as key/item slots, and lookup along key paths.
- `Navigation` (`navigation.dfy`): the hidden-page search and the pruning.
- `Text` (`text.dfy`): `explode`/`implode`, a simplified `strip_tags`, and the
  lazy bracket match of `preg_match`.
- `Content` (`content.dfy`): blocks, first image, title split, image
  extraction.
- `CacheStore` (`cache_store.dfy`): the `cache` folder as a class. Its trees,
  markers and sitemap change in place.
- `PageController` (`page_controller.dfy`): `getFreshStructure` and `index`,
  split into structure loading, item resolution and page rendering.

The folder model (`Folder::scanFolder`, `getFolderContentDetails`,
`getItemForUrl`, `getBreadcrumb`, `getPagingForItem`), the meta writer, the
markdown engine and the event listeners are not part of this model. They enter
as function-valued fields of the `Site` datatype, so every property proved
holds whatever they compute. The clock is the `now` parameter.

## Model

| member | source | states |
|---|---|---|
| `Navigation.ContainsHiddenPages` | system/Controllers/PageController.php:267-277 | the result is true iff some entry of the document has `hide` set and strictly equal to boolean true; so it is false for an empty document and for missing, null, string or integer `hide` values |
| `Navigation.Prune` | system/Controllers/PageController.php:279-294 | the pruned array is no longer than the input and none of its items is hidden |
| `Navigation.PruneItem` | system/Controllers/PageController.php:287-290 | a kept item differs from the original at most in `folderContent`; a page is unchanged and a folder stays a folder |
| `Navigation.PruneLeavesNothingHidden` | system/Controllers/PageController.php:279-294 | after pruning, no item at any depth has `hide === true` |
| `Navigation.PruneKeepsVisible` | system/Controllers/PageController.php:279-294 | the result has one slot per visible item; each visible item sits at the position given by the number of visible items before it, under its original key, with only its children pruned; a visible folder is kept even when all its children are removed |
| `Navigation.PruneKeepsOnlyVisible` | system/Controllers/PageController.php:281-286 | every slot of the result is the pruned copy of some visible item of the input, at that item's position |
| `Navigation.PruneKeepsOrder` | system/Controllers/PageController.php:281-286 | two visible items keep their relative order and their keys, because `unset` does not reindex |
| `Navigation.LookupPrune` | system/Controllers/PageController.php:281-290 | with unique keys, looking a key up in the pruned array finds the pruned item iff the original item under that key exists and is not hidden |
| `Navigation.PruneAt` | system/Controllers/PageController.php:279-294 | the pruned tree holds an item at a key path iff the original does and no item along that path is hidden; that item is the original with its children pruned; a hidden folder's whole subtree is therefore absent |
| `Navigation.PruneWithoutHiddenIsIdentity` | system/Controllers/PageController.php:279-294 | a tree with no hidden item at any depth is returned unchanged |
| `Navigation.SharedAfterPrune` | system/Controllers/PageController.php:281-290 | the array `$structure` keeps its length and keys; a hidden slot is untouched; every other item differs only in `folderContent` |
| `Navigation.SharedAfterPruneMatchesNavigation` | system/Controllers/PageController.php:281-290 | each visible item of `$structure` after pruning is the item the navigation holds at that item's position |
| `Navigation.SharedAfterPruneLosesHiddenChildren` | system/Controllers/PageController.php:249-264 | pruning rewrites `folderContent` on item objects shared with `$structure`; with a hidden child under a visible folder, the in-memory structure would lose that child; this is why the structure is reloaded from the cache |
| `Text.Explode` | system/Controllers/PageController.php:168 | `explode` always yields at least one piece, so `$contentParts[0]` is always set |
| `Text.ExplodePiecesAvoidSeparator` | system/Controllers/PageController.php:168 | no piece contains the separator |
| `Text.ImplodeExplode` | system/Controllers/PageController.php:168 | joining the pieces with the separator gives back the original text |
| `Text.ExplodeFirstTwo` | system/Controllers/PageController.php:168-171 | when the separator occurs there are at least two pieces; the first is the text before the first separator, and the second the text between the first and the second separator, or up to the end |
| `Text.StripTags` | system/Controllers/PageController.php:169 | the stripped text holds no `<` and is no longer than the input |
| `Text.StripTagsRemovesTag` | system/Controllers/PageController.php:169 | text before the first `<` is kept, a tag closed by `>` is removed, and the rest is stripped in turn |
| `Text.StripTagsDropsUnclosedTag` | system/Controllers/PageController.php:169 | a `<` never closed by `>` removes everything from it to the end; the text before it is kept |
| `Text.StripTagsKeepsPlainText` | system/Controllers/PageController.php:169 | text without `<` is returned unchanged |
| `Text.StripTagsIdempotent` | system/Controllers/PageController.php:169 | stripping twice equals stripping once |
| `Text.LazyMatch` | system/Controllers/PageController.php:176 | the reported match is the leftmost position where the opening delimiter is followed by a closing one on the same line; its end is the first closing delimiter; no match is reported iff there is none |
| `Text.LazyCapture` | system/Controllers/PageController.php:176-179 | the capture holds neither the closing delimiter nor a newline; it is absent iff the pattern matches nowhere |
| `Text.LazyCaptureIsLeftmost` | system/Controllers/PageController.php:176-179 | the capture is exactly the text between the leftmost delimiter closed on its own line and the first closing delimiter after it |
| `Content.Substr` | system/Controllers/PageController.php:317 | `substr($s, 0, $n)` is the prefix of length `n`, or the whole string when it is shorter |
| `Content.FirstImageParagraph` | system/Controllers/PageController.php:310-325 | the result is the argument of the first `p` block whose text starts with `![`; no earlier block qualifies; it is absent iff no block qualifies |
| `Content.GetFirstImage` | system/Controllers/PageController.php:310-325 | the early-return loop returns exactly `FirstImageParagraph` of the blocks |
| `Content.SplitTitleAtFirstHeading` | system/Controllers/PageController.php:167-171 | with no `</h1>`, the title is the stripped whole HTML and the body is the whole HTML; otherwise the title is the stripped text before the first `</h1>` and the body runs only up to the second `</h1>`; the site title is never used |
| `Content.SplitTitle` | system/Controllers/PageController.php:167-171 | the title holds no tag opener |
| `Content.SplitTitleExample` | system/Controllers/PageController.php:167-171 | `<h1>Hello</h1><p>World</p>` gives title `Hello` and body `<p>World</p>` |
| `Content.ExtractImage` | system/Controllers/PageController.php:173-183 | there is no image iff there is no first image paragraph; a kept raw image is that paragraph's text unchanged; an image URL always starts with the base URL and `/` |
| `Content.ExtractImageCases` | system/Controllers/PageController.php:173-183 | an image paragraph becomes an image iff its `(...)` capture exists and is neither "" nor "0"; the URL is base URL, `/` and the capture, which holds no `)` and no newline; the alt text is the first `[...]` capture, absent when there is none; otherwise the raw markdown is kept |
| `Content.AltTextFollowsOpener` | system/Controllers/PageController.php:179-181 | when the `![` of an image paragraph is closed by `]` on the same line, the alt text is what lies between them |
| `Content.ExtractImageExample` | system/Controllers/PageController.php:173-183 | `![alt text](images/pic.png)` with base URL `http://site` gives URL `http://site/images/pic.png` and alt `alt text` |
| `Content.ExtractImageZeroUrl` | system/Controllers/PageController.php:177 | a URL capture of "0" is false to PHP, so `![a](0)` stays raw markdown |
| `CacheStore.WriteCache.Validate` | system/Controllers/PageController.php:43 | a marker is valid only if it exists and is younger than the duration; a marker written now is valid for any positive duration |
| `CacheStore.WriteCache.GetCache` | system/Controllers/PageController.php:223-226 | the cached tree is present iff the file exists, and is then its content |
| `CacheStore.WriteCache.UpdateCache` | system/Controllers/PageController.php:247 | the named file now holds the tree; the marker, if given, holds the current time; nothing else changes |
| `CacheStore.WriteCache.DeleteFileWithPath` | system/Controllers/PageController.php:260 | the named file is gone, whether it existed or not; nothing else changes |
| `CacheStore.WriteCache.UpdateSitemap` | system/Controllers/PageController.php:62-63 | the sitemap is regenerated from the given structure and base URL, and `lastSitemap.txt` holds the current time |
| `PageController.RebuiltTrees` | system/Controllers/PageController.php:246-261 | after a rebuild `structure.txt` holds the built structure; `navigation.txt` exists iff the extended document hides a page, and then holds the pruned structure; every other file is unchanged |
| `PageController.RebuiltMarkers` | system/Controllers/PageController.php:59-64 | after a rebuild `lastCache.txt` holds the current time (written with the structure at line 247); `lastSitemap.txt` is stamped only when the sitemap is regenerated and is otherwise left as it was; every other marker is unchanged |
| `PageController.GetFreshStructure` | system/Controllers/PageController.php:228-265 | an empty scan returns false and writes nothing; otherwise the files become `RebuiltTrees` and the markers `RebuiltMarkers` without a sitemap; the value returned is the structure as cached, before pruning |
| `PageController.LoadStructure` | system/Controllers/PageController.php:42-65 | the cached structure is served, with no write, iff its marker is under 600 s old and it is non-empty; otherwise the structure is rebuilt; no structure means "No Content"; on a rebuild the whole new cache is given: the files are `RebuiltTrees`, the markers `RebuiltMarkers`, and the sitemap is regenerated from the new structure exactly when the rebuild yields one and the sitemap marker is not under 86400 s old |
| `PageController.ResolveItem` | system/Controllers/PageController.php:84-128 | a miss on a non-start URL is a 404; otherwise the result is `Resolve`: the start page is looked up in the navigation and any other URL in the structure, then paged and dispatched; the breadcrumb comes from the structure and the start page has none; a folder's file is its `index.md` and the folder is looked up again in the navigation, so a folder as start page leaves no item |
| `PageController.RenderPage` | system/Controllers/PageController.php:130-220 | the response is `IsPageFor` the resolution: home, item, breadcrumb and navigation as resolved; the title and body are the `</h1>` split of the rendered HTML; the image is `ExtractImage` of the first image paragraph of the block array; the meta data is the completed meta of the file after its event; the template is `/cover.twig` iff the start page is shown with a theme that has a cover, else `/index.twig`; the logo is `media/files/` followed by the setting iff that is present and non-empty; the favicon flag is set iff its setting is present and non-empty |
| `PageController.Serve` | system/Controllers/PageController.php:67-220 | the navigation is the cached one if it is non-empty, else the dispatched structure; the answer is a 404 carrying that navigation iff a non-start URL resolves to no item; otherwise it is the page `IsPageFor` the request's `Resolve` against that structure and navigation, so every field of the page is fixed |
| `PageController.Index` | system/Controllers/PageController.php:26-221 | "No Content" iff the cache is not usable and the scan or the built structure is empty; a usable cache is not written; a rebuild leaves the same whole cache state as `LoadStructure`; otherwise the structure is the dispatched cached or built tree, the navigation and the 404 decision follow from it, and a page is `IsPageFor` the request's `Resolve` |
| `PageController.NavigationFor` | system/Controllers/PageController.php:77-82 | the navigation is the cached one or the structure; the structure is used when the cached one is missing or empty; an empty navigation is only ever the structure itself |
| `PageController.AllHiddenFallsBackToStructure` | system/Controllers/PageController.php:77-82 | when every top-level item is hidden, pruning yields an empty array and the page falls back to the full structure, hidden pages included |
| `PageController.RebuildThenReuse` | system/Controllers/PageController.php:43-50 | within 600 s of a rebuild, the next request serves the tree built then, even if the content folder has changed, and writes nothing: the cache is exactly what the rebuild left |

## Where the code and its description differ

The model follows the code in each of these cases.

- **Title fallback.** The site title is meant to be the fallback title when
  the HTML has no `</h1>`. But `isset($contentParts[0])` always holds, because
  `explode` returns at least one piece. So the title is then the tag-stripped
  whole HTML (`Content.SplitTitleAtFirstHeading`).
- **Image URL.** The URL is prefixed with the base URL and `/`.
- **Empty URL capture.** An empty (or "0") URL capture does not make the image
  absent: the raw markdown string is kept.
- **Navigation file.** The navigation is cached with no marker of its own. It
  is rewritten or deleted on every rebuild.
- **Start page on a folder.** Line 127 uses `$urlRel`, which the start-page
  branch never assigns. The model settles this: when the start-page item is a
  folder, the second lookup yields no item (`PageController.ResolveItem`).
- **Everything hidden.** When every top-level item is hidden, pruning leaves an
  empty navigation. Line 78 treats the empty array as false and uses the full
  structure instead, hidden pages included
  (`PageController.AllHiddenFallsBackToStructure`).
- **Second lookup misses.** A non-start folder whose second lookup in the
  navigation fails (for example, because it is hidden) is still rendered, with
  no item. It is not a 404.

## Left out

- File and cache I/O. `WriteCache`, `file_exists`/`file_get_contents` and
  `WriteYaml` are abstract. The cache is a map from file name to tree, plus
  marker timestamps. Reading a content file is the `readFile` field.
- `WriteCache::validate` is not part of this model. It is taken as "the marker
  exists and `now - marker < duration`".
- `Folder::scanFolder`, `getFolderContentDetails`, `getItemForUrl`,
  `getBreadcrumb` and `getPagingForItem` are not part of this model. They are
  uninterpreted fields of `Site`; only the scan's entry count is used directly.
- The second `getBreadcrumb` call (line 109) only marks items active as a side
  effect inside the folder model, so it is not modelled.
- `WriteMeta::completePageMeta` is uninterpreted. `checkFile` and the custom
  theme stylesheet (lines 188-193) register an asset with the renderer and are
  not modelled.
- `ParsedownExtension` is not part of this model. `text` and `markup` are the
  `parse` and `markup` fields; safe mode and headline anchors belong to it.
- Event dispatch: each event whose data is read back is a function in
  `Events`. `onOriginalLoaded` is not modelled, because its result is
  discarded and listeners' side effects are outside the model.
- `WriteSitemap` XML generation is not modelled. The sitemap is recorded as the
  structure and base URL it was generated from.
- `VersionCheck` and `updateVersion` (unused, network-facing) are not modelled.
- Twig rendering (`render`, `render404`), the `Exception` catch with
  `echo`/`exit`, and the request object beyond base path, base URL and
  `params` are not modelled.
- Text.StripTags: does not model PHP's full `strip_tags` (quotes inside
  tags, comments, a `<` followed by whitespace kept as text). It removes each
  span from `<` to the next `>`, and an unclosed `<` removes the rest.
- Text.LazyCapture: models only the two patterns used, `\((.*?)\)` and
  `\[(.*?)\]`, not PCRE in general. `.` matches everything except `\n`.
- PHP loose comparison of a non-string block `name` with `'p'` is not
  modelled: names are strings or unset.
- Array keys are integers; PHP's string keys are not modelled.
- `DIRECTORY_SEPARATOR` is taken to be `/`.
- Aliasing between the navigation and the structure objects is modelled on
  values. `Navigation.SharedAfterPrune` gives what `$structure` would look like
  after pruning, not the object graph itself.
- Concurrent requests racing on the shared cache are not modelled.
