/**
 * The scan pass: one injection per table row, then one per grid cell.
 * Tiles are given as sequences (the page's element lookups are not
 * modelled); each tile may hold a dropdown menu, which is updated in place.
 */
module Scan {
  import opened Wrappers
  import opened TileIds
  import opened Dropdowns

  /** The two views of the page. */
  datatype View = Table | Grid

  /** A tile element: its element id and its first dropdown menu, if it has one. */
  datatype Tile = Tile(elementId: string, menu: Option<DropdownMenu>)

  /**
   * The tile id each view reads from an element id: a table row uses it as
   * it is, a grid cell takes segment 1 of it; a grid cell without a dash has none.
   */
  function TileId(view: View, elementId: string): (tileId: Option<string>)
    ensures view == Table ==> tileId == Some(elementId)
    ensures view == Grid ==> (tileId.None? <==> Dash !in elementId)
    ensures view == Grid && tileId.Some? ==> Dash !in tileId.value
  {
    match view
    case Table => Some(elementId)
    case Grid => GridTileId(elementId)
  }

  /** The dropdown menus of the tiles: everything a scan pass may change. */
  function Menus(tiles: seq<Tile>): set<DropdownMenu>
  {
    set i | 0 <= i < |tiles| && tiles[i].menu.Some? :: tiles[i].menu.value
  }

  /** The tile ids injected into menu `m` by a pass over `tiles`, in order. */
  function IdsFor(tiles: seq<Tile>, m: DropdownMenu, view: View): seq<string>
  {
    if tiles == [] then []
    else
      var last := tiles[|tiles| - 1];
      IdsFor(tiles[..|tiles| - 1], m, view) +
        (if last.menu == Some(m) && TileId(view, last.elementId).Some?
         then [TileId(view, last.elementId).value] else [])
  }

  /** A menu that no tile holds receives no injection. */
  lemma {:induction false} IdsForOutside(tiles: seq<Tile>, m: DropdownMenu, view: View)
    requires m !in Menus(tiles)
    ensures IdsFor(tiles, m, view) == []
  {
    if tiles != [] {
      var n := |tiles| - 1;
      assert Menus(tiles[..n]) <= Menus(tiles) by {
        forall x | x in Menus(tiles[..n]) ensures x in Menus(tiles) {
          var i :| 0 <= i < n && tiles[..n][i].menu.Some? && tiles[..n][i].menu.value == x;
          assert tiles[i] == tiles[..n][i];
        }
      }
      IdsForOutside(tiles[..n], m, view);
      assert tiles[n].menu.Some? ==> tiles[n].menu.value in Menus(tiles);
    }
  }

  /** Each tile holds its own menu, as distinct elements of a page do. */
  predicate DistinctMenus(tiles: seq<Tile>)
  {
    forall i, j :: 0 <= i < j < |tiles| && tiles[i].menu.Some? ==> tiles[i].menu != tiles[j].menu
  }

  /**
   * When menus are distinct, the menu of tile `k` receives exactly that
   * tile's injection (none when the tile has no id).
   */
  lemma {:induction false} IdsForDistinct(tiles: seq<Tile>, k: nat, view: View)
    requires DistinctMenus(tiles)
    requires k < |tiles| && tiles[k].menu.Some?
    ensures IdsFor(tiles, tiles[k].menu.value, view) ==
      if TileId(view, tiles[k].elementId).Some? then [TileId(view, tiles[k].elementId).value] else []
  {
    var m := tiles[k].menu.value;
    var n := |tiles| - 1;
    var init := tiles[..n];
    if k == n {
      forall i | 0 <= i < n ensures init[i].menu != Some(m) {
        assert init[i] == tiles[i];
      }
      IdsForOutside(init, m, view);
    } else {
      assert init[k] == tiles[k];
      assert DistinctMenus(init) by {
        forall i, j | 0 <= i < j < |init| && init[i].menu.Some?
          ensures init[i].menu != init[j].menu
        {
          assert init[i] == tiles[i] && init[j] == tiles[j];
        }
      }
      IdsForDistinct(init, k, view);
      assert tiles[n].menu != Some(m);
    }
  }

  /**
   * Injects the preview entry of `tileId` into the tile's dropdown: the
   * entry is prepended unless an entry with its tag is already there; a
   * tile without a dropdown is left alone.
   */
  method AddPreviewToTile(tile: Tile, tileId: string)
    modifies if tile.menu.Some? then {tile.menu.value} else {}
    ensures tile.menu.Some? ==> tile.menu.value.entries == Inject(old(tile.menu.value.entries), tileId)
  {
    var previewClass := PreviewClass(tileId);
    var previewEntry := PreviewEntry(tileId);
    match tile.menu {
      case None =>
      case Some(menu) =>
        if TagCount(menu.entries, previewClass) == 0 {
          menu.Prepend(previewEntry);
        }
    }
  }

  /**
   * The dropdown of a tile after its own injection: unchanged when the tile
   * has no id (a grid cell without a dash), otherwise carrying its tag.
   */
  function InjectTile(entries: seq<Entry>, view: View, elementId: string): (r: seq<Entry>)
    ensures |entries| <= |r| <= |entries| + 1
    ensures view == Grid && Dash !in elementId ==> r == entries
    ensures view == Table ==> TagCount(r, PreviewClass(elementId)) > 0
    ensures view == Grid && Dash in elementId ==> TagCount(r, PreviewClass(GridTileId(elementId).value)) > 0
  {
    match TileId(view, elementId)
    case None => entries
    case Some(id) => Inject(entries, id)
  }

  /** With distinct menus a pass gives each tile's menu exactly that tile's injection. */
  lemma PassOnDistinct(entries: seq<Entry>, tiles: seq<Tile>, k: nat, view: View)
    requires DistinctMenus(tiles)
    requires k < |tiles| && tiles[k].menu.Some?
    ensures InjectAll(entries, IdsFor(tiles, tiles[k].menu.value, view)) ==
      InjectTile(entries, view, tiles[k].elementId)
  {
    IdsForDistinct(tiles, k, view);
    var ids := IdsFor(tiles, tiles[k].menu.value, view);
    if ids != [] {
      assert ids[..0] == [];
    }
  }

  /** One more tile in a pass: its menu gets that tile's injection, every other menu nothing. */
  lemma PassStep(entries: seq<Entry>, tiles: seq<Tile>, i: nat, m: DropdownMenu, view: View)
    requires i < |tiles|
    ensures InjectAll(entries, IdsFor(tiles[..i + 1], m, view)) ==
      if tiles[i].menu == Some(m) then InjectTile(InjectAll(entries, IdsFor(tiles[..i], m, view)), view, tiles[i].elementId)
      else InjectAll(entries, IdsFor(tiles[..i], m, view))
  {
    var done := IdsFor(tiles[..i], m, view);
    var tileId := TileId(view, tiles[i].elementId);
    assert tiles[..i + 1][..i] == tiles[..i] && tiles[..i + 1][i] == tiles[i];
    if tiles[i].menu == Some(m) && tileId.Some? {
      assert IdsFor(tiles[..i + 1], m, view) == done + [tileId.value];
      InjectAllSnoc(entries, done, tileId.value);
    } else {
      assert IdsFor(tiles[..i + 1], m, view) == done + [];
      assert done + [] == done;
    }
  }

  /**
   * One pass over the tiles of a view, injecting into each tile in turn.
   * When every tile holds its own menu, each menu receives exactly its
   * tile's injection and nothing else.
   */
  method AddPreviewToTiles(tiles: seq<Tile>, view: View)
    modifies Menus(tiles)
    ensures forall m :: m in Menus(tiles) ==> m.entries == InjectAll(old(m.entries), IdsFor(tiles, m, view))
    ensures DistinctMenus(tiles) ==> forall k :: 0 <= k < |tiles| && tiles[k].menu.Some? ==>
      tiles[k].menu.value.entries == InjectTile(old(tiles[k].menu.value.entries), view, tiles[k].elementId)
  {
    for i := 0 to |tiles|
      invariant forall m :: m in Menus(tiles) ==>
        m.entries == InjectAll(old(m.entries), IdsFor(tiles[..i], m, view))
    {
      var tile := tiles[i];
      var tileId := TileId(view, tile.elementId);
      match tileId {
        case None =>
        case Some(id) => AddPreviewToTile(tile, id);
      }
      forall m | m in Menus(tiles)
        ensures m.entries == InjectAll(old(m.entries), IdsFor(tiles[..i + 1], m, view))
      {
        PassStep(old(m.entries), tiles, i, m, view);
      }
    }
    assert tiles[..|tiles|] == tiles;
    if DistinctMenus(tiles) {
      forall k | 0 <= k < |tiles| && tiles[k].menu.Some?
        ensures tiles[k].menu.value.entries == InjectTile(old(tiles[k].menu.value.entries), view, tiles[k].elementId)
      {
        assert tiles[k].menu.value in Menus(tiles);
        PassOnDistinct(old(tiles[k].menu.value.entries), tiles, k, view);
      }
    }
  }

  /** The table pass: each row's element id is its tile id. */
  method AddPreviewToTableView(rows: seq<Tile>)
    modifies Menus(rows)
    ensures forall m :: m in Menus(rows) ==> m.entries == InjectAll(old(m.entries), IdsFor(rows, m, Table))
    ensures DistinctMenus(rows) ==> forall k :: 0 <= k < |rows| && rows[k].menu.Some? ==>
      rows[k].menu.value.entries == Inject(old(rows[k].menu.value.entries), rows[k].elementId)
  {
    AddPreviewToTiles(rows, Table);
  }

  /** The grid pass: each cell's tile id is segment 1 of its element id; cells without one are skipped. */
  method AddPreviewToGridView(cells: seq<Tile>)
    modifies Menus(cells)
    ensures forall m :: m in Menus(cells) ==> m.entries == InjectAll(old(m.entries), IdsFor(cells, m, Grid))
    ensures DistinctMenus(cells) ==> forall k :: 0 <= k < |cells| && cells[k].menu.Some? ==>
      cells[k].menu.value.entries == InjectTile(old(cells[k].menu.value.entries), Grid, cells[k].elementId)
  {
    AddPreviewToTiles(cells, Grid);
  }

  /** A whole scan: the table pass, then the grid pass. */
  method AddPreviewButton(rows: seq<Tile>, cells: seq<Tile>)
    modifies Menus(rows), Menus(cells)
    ensures forall m :: m in Menus(rows) + Menus(cells) ==> m.entries == ScanResult(old(m.entries), rows, cells, m)
  {
    AddPreviewToTableView(rows);
    AddPreviewToGridView(cells);
    forall m | m in Menus(rows) + Menus(cells)
      ensures m.entries == InjectAll(InjectAll(old(m.entries), IdsFor(rows, m, Table)), IdsFor(cells, m, Grid))
    {
      if m !in Menus(rows) {
        IdsForOutside(rows, m, Table);
      }
      if m !in Menus(cells) {
        IdsForOutside(cells, m, Grid);
      }
    }
  }

  /** The dropdown of menu `m` after one scan, from its entries before. */
  function ScanResult(entries: seq<Entry>, rows: seq<Tile>, cells: seq<Tile>, m: DropdownMenu): (r: seq<Entry>)
    ensures |entries| <= |r| <= |entries| + |IdsFor(rows, m, Table)| + |IdsFor(cells, m, Grid)|
  {
    InjectAll(InjectAll(entries, IdsFor(rows, m, Table)), IdsFor(cells, m, Grid))
  }

  /** A second scan over an unchanged page changes nothing. */
  lemma ScanIdempotent(entries: seq<Entry>, rows: seq<Tile>, cells: seq<Tile>, m: DropdownMenu)
    ensures ScanResult(ScanResult(entries, rows, cells, m), rows, cells, m) == ScanResult(entries, rows, cells, m)
  {
    var ids := IdsFor(rows, m, Table) + IdsFor(cells, m, Grid);
    InjectAllConcat(entries, IdsFor(rows, m, Table), IdsFor(cells, m, Grid));
    InjectAllConcat(ScanResult(entries, rows, cells, m), IdsFor(rows, m, Table), IdsFor(cells, m, Grid));
    InjectAllIdempotent(entries, ids);
  }

  /**
   * A scan keeps "at most one entry per preview tag", and afterwards every
   * tile of either view that holds `m` and has an id has exactly one entry
   * with its tag in `m`.
   */
  lemma ScanKeepsUnique(entries: seq<Entry>, rows: seq<Tile>, cells: seq<Tile>, m: DropdownMenu)
    requires UniquePreviewTags(entries)
    ensures UniquePreviewTags(ScanResult(entries, rows, cells, m))
    ensures forall k :: 0 <= k < |IdsFor(rows, m, Table) + IdsFor(cells, m, Grid)| ==>
      TagCount(ScanResult(entries, rows, cells, m), PreviewClass((IdsFor(rows, m, Table) + IdsFor(cells, m, Grid))[k])) == 1
  {
    InjectAllConcat(entries, IdsFor(rows, m, Table), IdsFor(cells, m, Grid));
    InjectAllKeepsUnique(entries, IdsFor(rows, m, Table) + IdsFor(cells, m, Grid));
  }

  /** One row with an empty dropdown: after a scan the dropdown holds just that row's preview entry. */
  lemma OneRowScenario(m: DropdownMenu, elementId: string)
    ensures ScanResult([], [Tile(elementId, Some(m))], [], m) == [PreviewEntry(elementId)]
    ensures PreviewEntry(elementId).href == PreviewUrl(elementId)
  {
    var rows := [Tile(elementId, Some(m))];
    assert rows[..0] == [];
    assert IdsFor(rows, m, Table) == [elementId];
    assert InjectAll([], [elementId]) == Inject([], elementId) by {
      assert [elementId][..0] == [];
    }
  }
}
