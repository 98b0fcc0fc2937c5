# Preview links helper, modelled in Dafny

The helper is one in-page script, `js/previewLinks.js`. It watches a moderation
dashboard and adds a "Preview" link to the dropdown menu of every content tile.
The dashboard shows tiles in two views: table rows and grid cells. The script
works in three steps:

- every subtree-modified notification on the content table cancels the pending
  scan and schedules a new one 1000 time units later (a debounce);
- a scan makes one pass over the table rows, then one over the grid cells;
- for each tile it builds an entry tagged `preview-<tileId>` that links to
  `http://localhost/<tileId>` in a new tab. It prepends that entry to the
  tile's dropdown unless an entry with that tag is already there.

This model replaces the DOM by plain data:

- A dropdown menu is an object (`Dropdowns.DropdownMenu`) whose list of entries
  is updated in place.
- A tile is an element id plus an optional dropdown menu (`Scan.Tile`).
- Time is an integer clock that the caller supplies.

Files:

- `Wrappers.dfy`: the `Option` type. `None` stands for JavaScript's `undefined`.
- `TileIds.dfy`: pure string functions. These are JavaScript's `split` with a
  one-character separator, array indexing that yields `undefined` past the end,
  the grid tile id, the preview URL and the preview class.
- `Dropdowns.dfy`: dropdown entries, the count behind the duplicate check, and
  the injection `Inject` with its lemmas (prepend, idempotence, uniqueness of
  preview tags). It also holds the `DropdownMenu` class and `InjectAll`, which
  is a sequence of injections.
- `Scan.dfy`: the per-tile injection and the table, grid and whole-scan passes.
  These are methods with loops over tile sequences, proved against `InjectAll`.
- `Debounce.dfy`: the debounce. A pure step function and a trace function carry
  the lemmas about bursts. The `Watcher` class has a `pending` deadline field,
  and its two methods (`HandleSubtreeModified`, `Tick`) are tied to the step
  function. A client method, `TwoMutationsScenario`, proves what happens to a
  single row over two notify-and-wait rounds: one preview entry, then no duplicate.

The scan passes do not assume that tiles have distinct menus. A menu `m` ends up
as `InjectAll(old entries, IdsFor(tiles, m, view))`, which is the injections of
every tile holding `m`, in tile order. When every tile holds its own menu, which
is what a page's distinct elements give, this reduces to one injection per tile
(`Scan.PassOnDistinct`).

A row's tile id is its element id, unchanged (js/previewLinks.js:57). So a row
with id `row7` links to `http://localhost/row7`.

## Model

| member | source | states |
|---|---|---|
| `TileIds.IndexOf` | js/previewLinks.js:72 | The first position of the separator: none exactly when it does not occur; otherwise it holds the separator and no earlier position does. |
| `TileIds.Split` | js/previewLinks.js:72 | `split('-')` always gives at least one piece. It gives exactly one piece iff the separator is absent, and no piece contains the separator. |
| `TileIds.JoinSplit` | js/previewLinks.js:72 | Splitting loses nothing: joining the pieces with the separator gives back the original string. |
| `TileIds.SplitJoin` | js/previewLinks.js:72 | The converse round trip: separator-free pieces, joined and split again, come back unchanged. |
| `TileIds.At` | js/previewLinks.js:72 | Indexing `[k]` yields a value iff `k` is in range, and that value is the k-th piece; past the end it is `undefined`. |
| `TileIds.GridTileId` | js/previewLinks.js:72 | A grid cell has no tile id iff its element id has no dash. A tile id, when present, contains no dash. |
| `TileIds.GridTileIdOneDash` | js/previewLinks.js:72 | `<prefix>-<tile>` with a single dash yields `<tile>`. |
| `TileIds.GridTileIdManyDashes` | js/previewLinks.js:72 | With two or more dashes, the tile id is the text strictly between the first and second dash; the rest is dropped. |
| `TileIds.GridTileIdExample` | js/previewLinks.js:72 | `"cell-42"` yields `"42"`. |
| `TileIds.PreviewUrl` | js/previewLinks.js:101-103 | The URL is `http://localhost/` followed by every character of the tile id in order, its length the sum of the two. |
| `TileIds.PreviewUrlRoundTrip` | js/previewLinks.js:101-103 | Stripping the base from the URL gives back the tile id unchanged; nothing is encoded. |
| `TileIds.PreviewUrlInjective` | js/previewLinks.js:101-103 | Different tile ids give different URLs. |
| `TileIds.PreviewUrlExample` | js/previewLinks.js:101-103 | `"42"` gives `"http://localhost/42"`. |
| `TileIds.PreviewClass` | js/previewLinks.js:85 | The tag is `preview-` followed by every character of the tile id. |
| `TileIds.PreviewClassRoundTrip` | js/previewLinks.js:85 | Every tag built this way is a preview tag, and stripping `preview-` gives back the tile id. |
| `TileIds.PreviewClassInjective` | js/previewLinks.js:85-89 | Different tiles get different tags. Under the model's equality check on class names, one tile's duplicate check therefore never matches another tile's entry (jQuery's selector reading differs; see "## Left out"). |
| `Dropdowns.PreviewEntry` | js/previewLinks.js:87 | The entry carries the tile's tag, links to the tile's preview URL, targets `_blank` and reads `Preview`. |
| `Dropdowns.TagCount` | js/previewLinks.js:89 | The length of the lookup of a tag is at most the number of entries, and it is zero iff no entry carries the tag. |
| `Dropdowns.Inject` | js/previewLinks.js:88-91 | The reference definition of one injection: it adds at most one entry and leaves the tile's tag present. `InjectPrepends`, `InjectKeepsTagged`, `InjectIdempotent`, `InjectCounts` and `InjectKeepsUnique` pin it down. |
| `Dropdowns.InjectPrepends` | js/previewLinks.js:89-90 | With the tag absent, injection adds exactly one entry, the preview entry, first; the old entries follow in their order. |
| `Dropdowns.InjectKeepsTagged` | js/previewLinks.js:88-91 | With the tag present, injection leaves the dropdown unchanged. |
| `Dropdowns.InjectIdempotent` | js/previewLinks.js:88-91 | After injection the tag is present, and injecting again equals injecting once. |
| `Dropdowns.InjectCounts` | js/previewLinks.js:89-90 | Injection raises the count of the tile's own tag from 0 to 1 and changes no other count; no entry is lost. |
| `Dropdowns.UniqueCountAtMostOne` | js/previewLinks.js:88-90 | Under "at most one entry per preview tag", the lookup of any preview tag counts at most one entry. |
| `Dropdowns.InjectKeepsUnique` | js/previewLinks.js:88-90 | Injection keeps "at most one entry per preview tag", and afterwards exactly one entry carries the tile's tag. |
| `Dropdowns.InjectAll` | js/previewLinks.js:56-59 | The reference definition of a pass over one menu (the grid loop at js/previewLinks.js:71-74 is the same): the injections of the given ids in order, adding at most one entry per id. `InjectAllSnoc`, `InjectAllConcat`, `InjectAllTagged`, `InjectAllPresent`, `InjectAllIdempotent` and `InjectAllKeepsUnique` pin it down. |
| `Dropdowns.InjectAllSnoc` | js/previewLinks.js:56-59 | A pass extended by one tile is the shorter pass followed by that tile's injection. |
| `Dropdowns.InjectAllConcat` | js/previewLinks.js:43-44 | Two passes run one after the other equal a single pass over both id lists. |
| `Dropdowns.InjectAllTagged` | js/previewLinks.js:56-59 | After a pass, the tag of every injected id is present. |
| `Dropdowns.InjectAllPresent` | js/previewLinks.js:88-91 | A pass over ids whose tags are all present changes nothing. |
| `Dropdowns.InjectAllIdempotent` | js/previewLinks.js:88-91 | The same pass run twice equals the pass run once. |
| `Dropdowns.InjectAllKeepsUnique` | js/previewLinks.js:88-90 | A pass keeps "at most one entry per preview tag" and leaves exactly one entry for every injected id. |
| `Dropdowns.DropdownMenu.Prepend` | js/previewLinks.js:90 | The menu's entries become the new entry followed by the old entries. |
| `Scan.TileId` | js/previewLinks.js:57-72 | A table row's tile id is its element id verbatim. A grid cell has none iff its id has no dash, and a grid tile id never contains a dash. |
| `Scan.IdsForOutside` | js/previewLinks.js:86-90 | A menu held by no tile receives no injection from a pass. |
| `Scan.IdsForDistinct` | js/previewLinks.js:56-59 | When menus are distinct, tile k's menu receives exactly tile k's id, or nothing when that tile has no id. |
| `Scan.InjectTile` | js/previewLinks.js:57-58 | The per-tile body of a pass (also js/previewLinks.js:72-73): at most one entry is added; a grid cell without a dash leaves the dropdown unchanged; otherwise the tile's tag is present afterwards. |
| `Scan.PassOnDistinct` | js/previewLinks.js:71-74 | When menus are distinct, a pass leaves tile k's menu as that tile's own injection alone. |
| `Scan.PassStep` | js/previewLinks.js:56-59 | Extending a pass by one tile injects that tile's id into its own menu and leaves every other menu's result as before. |
| `Scan.AddPreviewToTile` | js/previewLinks.js:84-92 | The tile's dropdown becomes `Inject(old, tileId)`. A tile without a dropdown changes nothing, because the method modifies nothing in that case. |
| `Scan.AddPreviewToTiles` | js/previewLinks.js:56-59 | Every menu of the tiles ends as the in-order injections of the tiles holding it; with distinct menus, each tile's menu gets its own injection only. |
| `Scan.AddPreviewToTableView` | js/previewLinks.js:52-60 | The table pass: each menu receives the ids of the rows holding it, verbatim, in order. With distinct menus, each row's menu gets that row's injection alone. |
| `Scan.AddPreviewToGridView` | js/previewLinks.js:67-75 | The grid pass: each menu receives the segment-1 ids of the cells holding it, in order; cells without one are skipped. With distinct menus, each cell's menu gets that cell's injection alone. |
| `Scan.AddPreviewButton` | js/previewLinks.js:40-45 | A scan leaves every menu as the table pass followed by the grid pass (`ScanResult`); menus outside both lists are untouched. |
| `Scan.ScanResult` | js/previewLinks.js:40-45 | The reference definition of a whole scan for one menu: the table pass, then the grid pass, adding at most one entry per tile holding the menu. `ScanIdempotent`, `ScanKeepsUnique` and `OneRowScenario` pin it down. |
| `Scan.ScanIdempotent` | js/previewLinks.js:88-91 | A second scan over an unchanged page leaves every dropdown as the first scan left it. |
| `Scan.ScanKeepsUnique` | js/previewLinks.js:88-90 | A scan keeps "at most one entry per preview tag" and leaves exactly one entry for every tile of either view that holds the menu and has a tile id (a grid cell without a dash has none and contributes no entry). |
| `Scan.OneRowScenario` | js/previewLinks.js:84-92 | One row over an empty dropdown: after a scan the dropdown is that row's preview entry alone, linking to its URL. The client method `Debounce.TwoMutationsScenario` builds on it: notify and wait, twice, gives that one entry and no duplicate. |
| `Debounce.Step` | js/previewLinks.js:28-33 | A notification replaces any deadline with now + 1000 and runs nothing. A tick runs the scan iff a deadline is pending and reached, and then leaves nothing pending. |
| `Debounce.Run` | js/previewLinks.js:28-33 | The reference definition of the debounce over a trace: at most one scan per event, and a deadline pending at the end only if one was pending at the start or the trace notifies. `RunAppend`, `IdleStaysIdle`, `BurstAtMostOnce`, `TicksAfter` and `DebounceFiresOnceAfterQuiet` pin it down. |
| `Debounce.RunAppend` | js/previewLinks.js:28-33 | Running two traces one after the other equals running their concatenation: the final state is the second run's, and the scans are the first run's followed by the second's. |
| `Debounce.IdleStaysIdle` | js/previewLinks.js:29-32 | With nothing pending, ticks without a notification never run the scan. |
| `Debounce.BurstAtMostOnce` | js/previewLinks.js:28-33 | The generalised burst statement, from any state consistent with the last notification: at most one scan. |
| `Debounce.DebounceCollapsesBurst` | js/previewLinks.js:28-33 | A burst of notifications, each less than 1000 after the previous one, with clock ticks anywhere, runs the scan at most once. |
| `Debounce.BurstArms` | js/previewLinks.js:29-32 | Within a burst that ends with a notification, no tick fires, and the last notification's deadline is pending. |
| `Debounce.TicksAfter` | js/previewLinks.js:32 | From a pending deadline, ticks run the scan at most once, never before the deadline, and once iff some tick reaches it. |
| `Debounce.DebounceFiresOnceAfterQuiet` | js/previewLinks.js:28-33 | A burst followed by ticks runs exactly one scan iff some tick reaches 1000 after the last notification, and never earlier. |
| `Debounce.Watcher.constructor` | js/previewLinks.js:11 | A new watcher has nothing pending. |
| `Debounce.Watcher.HandleSubtreeModified` | js/previewLinks.js:28-33 | The pending deadline becomes now + 1000, whatever was pending; at most one scan is ever pending. |
| `Debounce.Watcher.Tick` | js/previewLinks.js:32-45 | The tick is the pure step. A scan runs only at or after 1000 past the last notification. When it runs, every menu of the given tiles becomes `ScanResult`; otherwise nothing changes. |

## Left out

- Element lookup and event wiring (js/previewLinks.js:17-19, 53-54, 68-69): `getElementById`, `getElementsByTagName`, `getElementsByClassName` and the listener registration are not modelled. The rows and cells a scan visits are given as sequences, and each tile's first dropdown menu as an optional reference.
- Faults from missing containers (js/previewLinks.js:18, 69): these are unguarded runtime errors, and the containers are taken as given.
- Real timers and the event loop (js/previewLinks.js:30-32): `setTimeout`/`clearTimeout` become an integer clock that the caller advances with `Tick`. The script never clears `timeoutId` after its timer runs. Clearing an expired timer does nothing, so the model's "nothing pending" after a scan is equivalent.
- Notifications caused by the scan itself: prepending inside the observed table body raises further notifications. The model treats every notification as an input. For tile ids that jQuery reads as a single class selector, the scan is idempotent (`Scan.ScanIdempotent`), so the follow-up scan changes nothing; for other ids see the next line.
- jQuery and HTML semantics (js/previewLinks.js:87-90): the tag check is equality on an entry's class name, and it looks only at the dropdown's own entries. The model leaves out these jQuery behaviours:
  - class attributes holding several classes;
  - matches in deeper descendants;
  - selector parsing of tile ids that do not read as one class selector: ids containing a space, `.`, `#`, `>`, `+`, `~` or `,`, or a `:` or `[` that starts a valid pseudo-class or attribute selector (`a:empty`, `a[b]`). For such an id the script's duplicate check (js/previewLinks.js:89) misses the script's own entry: `.preview-a.b` asks for both classes `preview-a` and `b`, so the entry tagged `preview-a.b` is never found and every scan prepends another copy (js/previewLinks.js:90). Idempotence and "at most one entry per preview tag" then fail in the script, and since the prepend lands in the observed table body (js/previewLinks.js:19, 28-33), a table row's scan re-triggers itself without end, adding one duplicate per quiet period. Conversely, tile `a`'s check `.preview-a` matches the entry of a tile `a b` sharing its menu. The model's equality check on class names captures none of this;
  - parsing of the HTML string, and the missing escaping of the tile id in the markup.
- JavaScript coercions: element ids are strings. The model leaves out these cases:
  - a row without an `id` attribute, which gives the tag `preview-null`;
  - a cell without one, whose `split` throws and aborts the rest of the pass.
- `Scan.AddPreviewToTiles`: never stops early. In the script, when a dropdown exists and `'.' + previewClass` is not a valid selector (for example a tile id `a/b`, `a(b`, `a:b` or `a[b`), `find` throws (js/previewLinks.js:89). The throw ends the `forEach` (js/previewLinks.js:56-59 or 71-74), so the rest of that pass is skipped, and a throw in the table pass also skips the grid pass (js/previewLinks.js:43-44). `Dropdowns.Inject` and `Scan.AddPreviewButton` likewise always complete.
- `Scan.AddPreviewToGridView`: skips a cell whose id has no dash, because the tile id is then `undefined` (`None`). The script would instead concatenate `undefined` and inject an entry tagged `preview-undefined` linking to `http://localhost/undefined`.
- The module bootstrap (js/previewLinks.js:1, 105-112): plumbing only.
