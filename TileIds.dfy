/**
 * The pure string logic of the preview helper: how a tile id is read from
 * an element id (verbatim for a table row, segment 1 of `split('-')` for a
 * grid cell), and how the preview URL and the preview class are built from
 * a tile id by plain concatenation.
 */
module TileIds {
  import opened Wrappers

  /** The fixed base of every preview URL. */
  const PreviewBase: string := "http://localhost/"

  /** The prefix of the class that tags a preview entry. */
  const PreviewPrefix: string := "preview-"

  /** The delimiter of a grid cell id. */
  const Dash: char := '-'

  // ---------------------------------------------------------------------
  // JavaScript's String.prototype.split with a one-character separator
  // ---------------------------------------------------------------------

  /** The position of the first `c` in `s`, if any. */
  function IndexOf(s: string, c: char): (r: Option<nat>)
    ensures r.None? <==> c !in s
    ensures r.Some? ==> r.value < |s| && s[r.value] == c && c !in s[..r.value]
  {
    if |s| == 0 then None
    else if s[0] == c then Some(0)
    else
      match IndexOf(s[1..], c)
      case None => None
      case Some(i) =>
        assert s[..i + 1] == [s[0]] + s[1..][..i];
        Some(i + 1)
  }

  /**
   * `s.split(sep)`: the pieces of `s` between occurrences of `sep`, from
   * left to right. There is always at least one piece, and exactly one
   * when `sep` does not occur.
   */
  function Split(s: string, sep: char): (parts: seq<string>)
    ensures |parts| >= 1
    ensures |parts| == 1 <==> sep !in s
    ensures forall k :: 0 <= k < |parts| ==> sep !in parts[k]
    decreases |s|
  {
    match IndexOf(s, sep)
    case None => [s]
    case Some(i) => [s[..i]] + Split(s[i + 1..], sep)
  }

  /** `parts.join(sep)`, the inverse of `Split`. */
  function Join(parts: seq<string>, sep: char): string
  {
    if |parts| <= 1 then (if parts == [] then "" else parts[0])
    else parts[0] + [sep] + Join(parts[1..], sep)
  }

  /** Splitting loses nothing: joining the pieces gives back the string. */
  lemma {:induction false} JoinSplit(s: string, sep: char)
    ensures Join(Split(s, sep), sep) == s
    decreases |s|
  {
    var r := IndexOf(s, sep);
    if r.None? {
      SplitWithout(s, sep);
    } else {
      var i := r.value;
      JoinSplit(s[i + 1..], sep);
      SplitAtFirst(s, sep, i);
      JoinCons(s[..i], Split(s[i + 1..], sep), sep);
      Recompose(s, i);
    }
  }

  /** A string without the separator is one piece. */
  lemma SplitWithout(s: string, sep: char)
    requires IndexOf(s, sep).None?
    ensures Split(s, sep) == [s]
  {
  }

  /** A string is its part before position `i`, the character there, and the rest. */
  lemma Recompose(s: string, i: nat)
    requires i < |s|
    ensures s == s[..i] + [s[i]] + s[i + 1..]
  {
  }

  /** One unfolding of `Split` at the first separator. */
  lemma SplitAtFirst(s: string, sep: char, i: nat)
    requires IndexOf(s, sep) == Some(i)
    ensures Split(s, sep) == [s[..i]] + Split(s[i + 1..], sep)
  {
  }

  /** One unfolding of `Join` in front of a non-empty list. */
  lemma JoinCons(head: string, tail: seq<string>, sep: char)
    requires |tail| >= 1
    ensures Join([head] + tail, sep) == head + [sep] + Join(tail, sep)
  {
    assert ([head] + tail)[1..] == tail;
  }

  /** Joining pieces that hold no separator and splitting again gives the pieces back. */
  lemma {:induction false} SplitJoin(parts: seq<string>, sep: char)
    requires |parts| >= 1
    requires forall k :: 0 <= k < |parts| ==> sep !in parts[k]
    ensures Split(Join(parts, sep), sep) == parts
  {
    if |parts| > 1 {
      var tail := parts[1..];
      JoinCons(parts[0], tail, sep);
      assert [parts[0]] + tail == parts;
      SplitAfterFree(parts[0], sep, Join(tail, sep));
      SplitJoin(tail, sep);
    }
  }

  /** A separator after a separator-free head ends the first piece. */
  lemma SplitAfterFree(head: string, sep: char, rest: string)
    requires sep !in head
    ensures Split(head + [sep] + rest, sep) == [head] + Split(rest, sep)
  {
    var s := head + [sep] + rest;
    IndexOfAfter(head, sep, rest);
    assert s[..|head|] == head && s[|head| + 1..] == rest;
    SplitAtFirst(s, sep, |head|);
  }

  /** The first `sep` of `head + [sep] + rest` is the one after `head` when `head` has none. */
  lemma IndexOfAfter(head: string, sep: char, rest: string)
    requires sep !in head
    ensures IndexOf(head + [sep] + rest, sep) == Some(|head|)
  {
    var s := head + [sep] + rest;
    assert s[|head|] == sep;
    assert forall k :: 0 <= k < |head| ==> s[k] == head[k];
  }

  /** JavaScript's `parts[k]`: `undefined` (None) past the end. */
  function At(parts: seq<string>, k: nat): (r: Option<string>)
    ensures r.Some? <==> k < |parts|
    ensures r.Some? ==> r.value == parts[k]
  {
    if k < |parts| then Some(parts[k]) else None
  }

  // ---------------------------------------------------------------------
  // Tile ids
  // ---------------------------------------------------------------------

  /**
   * The tile id of a grid cell: segment 1 of the element id split on `-`,
   * absent when the id holds no `-`.
   */
  function GridTileId(elementId: string): (tileId: Option<string>)
    ensures tileId.None? <==> Dash !in elementId
    ensures tileId.Some? ==> Dash !in tileId.value
  {
    At(Split(elementId, Dash), 1)
  }

  /** A grid cell id `<prefix>-<tile>` with exactly one dash yields `<tile>`. */
  lemma GridTileIdOneDash(prefix: string, tile: string)
    requires Dash !in prefix && Dash !in tile
    ensures GridTileId(prefix + [Dash] + tile) == Some(tile)
  {
    SplitAfterFree(prefix, Dash, tile);
    assert Split(tile, Dash) == [tile];
  }

  /**
   * With two or more dashes the tile id is the text strictly between the
   * first and the second dash; everything after the second dash is dropped.
   */
  lemma GridTileIdManyDashes(prefix: string, tile: string, rest: string)
    requires Dash !in prefix && Dash !in tile
    ensures GridTileId(prefix + [Dash] + tile + [Dash] + rest) == Some(tile)
  {
    var after := tile + [Dash] + rest;
    assert prefix + [Dash] + tile + [Dash] + rest == prefix + [Dash] + after;
    SplitAfterFree(prefix, Dash, after);
    SplitAfterFree(tile, Dash, rest);
  }

  /** The worked example: cell id "cell-42" yields tile id "42". */
  lemma GridTileIdExample()
    ensures GridTileId("cell-42") == Some("42")
  {
    GridTileIdOneDash("cell", "42");
    assert "cell" + [Dash] + "42" == "cell-42";
  }

  // ---------------------------------------------------------------------
  // Preview URL and preview class
  // ---------------------------------------------------------------------

  /**
   * The text after `prefix`, when `s` starts with it. It undoes the
   * concatenations below.
   */
  function StripPrefix(prefix: string, s: string): (r: Option<string>)
    ensures r.Some? <==> prefix <= s
    ensures r.Some? ==> s == prefix + r.value
  {
    if prefix <= s then Some(s[|prefix|..]) else None
  }

  /** The preview URL: the fixed base followed by the tile id, unescaped. */
  function PreviewUrl(tileId: string): (url: string)
    ensures |url| == |PreviewBase| + |tileId|
    ensures PreviewBase <= url
    ensures forall k :: 0 <= k < |tileId| ==> url[|PreviewBase| + k] == tileId[k]
  {
    PreviewBase + tileId
  }

  /** The tile id is recoverable from its URL: no character was encoded or lost. */
  lemma PreviewUrlRoundTrip(tileId: string)
    ensures StripPrefix(PreviewBase, PreviewUrl(tileId)) == Some(tileId)
  {
    assert PreviewUrl(tileId)[|PreviewBase|..] == tileId;
  }

  /** Different tiles get different preview URLs. */
  lemma PreviewUrlInjective(a: string, b: string)
    requires PreviewUrl(a) == PreviewUrl(b)
    ensures a == b
  {
    PreviewUrlRoundTrip(a);
    PreviewUrlRoundTrip(b);
  }

  /** The worked example: tile id "42" gives "http://localhost/42". */
  lemma PreviewUrlExample()
    ensures PreviewUrl("42") == "http://localhost/42"
  {
  }

  /** The class that tags the preview entry of a tile: `preview-<tileId>`. */
  function PreviewClass(tileId: string): (cls: string)
    ensures PreviewPrefix <= cls
    ensures |cls| == |PreviewPrefix| + |tileId|
    ensures forall k :: 0 <= k < |tileId| ==> cls[|PreviewPrefix| + k] == tileId[k]
  {
    PreviewPrefix + tileId
  }

  /** Whether a class name has the shape of a preview tag. */
  predicate IsPreviewClass(cls: string)
  {
    StripPrefix(PreviewPrefix, cls).Some?
  }

  /** Every preview class is a preview tag and names its tile id. */
  lemma PreviewClassRoundTrip(tileId: string)
    ensures IsPreviewClass(PreviewClass(tileId))
    ensures StripPrefix(PreviewPrefix, PreviewClass(tileId)) == Some(tileId)
  {
    assert PreviewClass(tileId)[|PreviewPrefix|..] == tileId;
  }

  /** Different tiles get different tags, so, under equality on class names, the duplicate check of one tile never sees another's entry. */
  lemma PreviewClassInjective(a: string, b: string)
    requires PreviewClass(a) == PreviewClass(b)
    ensures a == b
  {
    PreviewClassRoundTrip(a);
    PreviewClassRoundTrip(b);
  }
}
