/**
 * A tile's dropdown menu as a list of entries, and the idempotent tagged
 * prepend that adds a tile's preview entry to it.
 */
module Dropdowns {
  import opened TileIds

  /** One list item of a dropdown menu: its class, and the anchor it holds. */
  datatype Entry = Entry(className: string, href: string, target: string, text: string)

  /** The entry injected for a tile: tagged, linking to the preview in a new tab. */
  function PreviewEntry(tileId: string): (e: Entry)
    ensures e.className == PreviewClass(tileId) && IsPreviewClass(e.className)
    ensures e.href == PreviewUrl(tileId)
    ensures e.target == "_blank" && e.text == "Preview"
  {
    PreviewClassRoundTrip(tileId);
    Entry(PreviewClass(tileId), PreviewUrl(tileId), "_blank", "Preview")
  }

  /** How many entries carry the class `tag`: the length of the menu's lookup of that class. */
  function TagCount(entries: seq<Entry>, tag: string): (n: nat)
    ensures n <= |entries|
    ensures n == 0 <==> forall i :: 0 <= i < |entries| ==> entries[i].className != tag
  {
    if entries == [] then 0
    else (if entries[0].className == tag then 1 else 0) + TagCount(entries[1..], tag)
  }

  /** Counting over a prepended entry. */
  lemma TagCountCons(e: Entry, entries: seq<Entry>, tag: string)
    ensures TagCount([e] + entries, tag) == (if e.className == tag then 1 else 0) + TagCount(entries, tag)
  {
    assert ([e] + entries)[1..] == entries;
  }

  /**
   * The dropdown after the preview entry of `tileId` is injected: the entry
   * is prepended when no entry carries its tag, otherwise nothing changes.
   */
  function Inject(entries: seq<Entry>, tileId: string): (r: seq<Entry>)
    ensures |entries| <= |r| <= |entries| + 1
    ensures TagCount(r, PreviewClass(tileId)) > 0
  {
    if TagCount(entries, PreviewClass(tileId)) == 0 then
      TagCountCons(PreviewEntry(tileId), entries, PreviewClass(tileId));
      [PreviewEntry(tileId)] + entries
    else entries
  }

  /** When the tag is absent, exactly one entry is added, first, and the old entries follow in order. */
  lemma InjectPrepends(entries: seq<Entry>, tileId: string)
    requires TagCount(entries, PreviewClass(tileId)) == 0
    ensures |Inject(entries, tileId)| == |entries| + 1
    ensures Inject(entries, tileId)[0] == PreviewEntry(tileId)
    ensures Inject(entries, tileId)[1..] == entries
  {
  }

  /** When the tag is present, the dropdown is left as it is. */
  lemma InjectKeepsTagged(entries: seq<Entry>, tileId: string)
    requires TagCount(entries, PreviewClass(tileId)) > 0
    ensures Inject(entries, tileId) == entries
  {
  }

  /** After injection the tile's tag is present; a second injection is therefore harmless. */
  lemma InjectIdempotent(entries: seq<Entry>, tileId: string)
    ensures TagCount(Inject(entries, tileId), PreviewClass(tileId)) > 0
    ensures Inject(Inject(entries, tileId), tileId) == Inject(entries, tileId)
  {
    TagCountCons(PreviewEntry(tileId), entries, PreviewClass(tileId));
  }

  /**
   * Injection changes the count of the tile's own tag from 0 to 1 and no
   * other count; every entry that was there is still there.
   */
  lemma InjectCounts(entries: seq<Entry>, tileId: string, tag: string)
    ensures TagCount(Inject(entries, tileId), tag) ==
      if tag == PreviewClass(tileId) && TagCount(entries, tag) == 0 then 1 else TagCount(entries, tag)
    ensures multiset(entries) <= multiset(Inject(entries, tileId))
  {
    TagCountCons(PreviewEntry(tileId), entries, tag);
  }

  /** At most one entry per preview tag: the invariant the duplicate check keeps. */
  predicate UniquePreviewTags(entries: seq<Entry>)
  {
    forall i, j :: 0 <= i < j < |entries| && IsPreviewClass(entries[i].className) ==>
      entries[i].className != entries[j].className
  }

  /** Under the invariant a preview tag is counted at most once. */
  lemma {:induction false} UniqueCountAtMostOne(entries: seq<Entry>, tag: string)
    requires UniquePreviewTags(entries) && IsPreviewClass(tag)
    ensures TagCount(entries, tag) <= 1
  {
    if entries != [] {
      var tail := entries[1..];
      assert UniquePreviewTags(tail) by {
        forall i, j | 0 <= i < j < |tail| && IsPreviewClass(tail[i].className)
          ensures tail[i].className != tail[j].className
        {
          assert tail[i] == entries[i + 1] && tail[j] == entries[j + 1];
        }
      }
      UniqueCountAtMostOne(tail, tag);
      if entries[0].className == tag {
        forall j | 0 <= j < |tail| ensures tail[j].className != tag {
          assert tail[j] == entries[j + 1];
        }
      }
    }
  }

  /** Injection keeps the invariant, and afterwards exactly one entry carries the tile's tag. */
  lemma InjectKeepsUnique(entries: seq<Entry>, tileId: string)
    requires UniquePreviewTags(entries)
    ensures UniquePreviewTags(Inject(entries, tileId))
    ensures TagCount(Inject(entries, tileId), PreviewClass(tileId)) == 1
  {
    var tag := PreviewClass(tileId);
    var r := Inject(entries, tileId);
    PreviewClassRoundTrip(tileId);
    InjectCounts(entries, tileId, tag);
    if TagCount(entries, tag) == 0 {
      forall i, j | 0 <= i < j < |r| && IsPreviewClass(r[i].className)
        ensures r[i].className != r[j].className
      {
        assert r[j] == entries[j - 1];
        if i > 0 {
          assert r[i] == entries[i - 1];
        }
      }
    } else {
      UniqueCountAtMostOne(entries, tag);
    }
  }

  /** The dropdown after one injection per id, in order. */
  function InjectAll(entries: seq<Entry>, tileIds: seq<string>): (r: seq<Entry>)
    ensures |entries| <= |r| <= |entries| + |tileIds|
  {
    if tileIds == [] then entries
    else Inject(InjectAll(entries, tileIds[..|tileIds| - 1]), tileIds[|tileIds| - 1])
  }

  /** One more injection at the end of a pass. */
  lemma InjectAllSnoc(entries: seq<Entry>, tileIds: seq<string>, tileId: string)
    ensures InjectAll(entries, tileIds + [tileId]) == Inject(InjectAll(entries, tileIds), tileId)
  {
    assert (tileIds + [tileId])[..|tileIds|] == tileIds;
  }

  /** Two passes one after the other are one pass over both id lists. */
  lemma {:induction false} InjectAllConcat(entries: seq<Entry>, first: seq<string>, second: seq<string>)
    ensures InjectAll(InjectAll(entries, first), second) == InjectAll(entries, first + second)
    decreases |second|
  {
    if second == [] {
      assert first + second == first;
    } else {
      var n := |second| - 1;
      assert (first + second)[..|first + second| - 1] == first + second[..n];
      InjectAllConcat(entries, first, second[..n]);
    }
  }

  /** Every injected id has its tag present afterwards. */
  lemma {:induction false} InjectAllTagged(entries: seq<Entry>, tileIds: seq<string>)
    ensures forall k :: 0 <= k < |tileIds| ==>
      TagCount(InjectAll(entries, tileIds), PreviewClass(tileIds[k])) > 0
  {
    if tileIds != [] {
      var n := |tileIds| - 1;
      var before := InjectAll(entries, tileIds[..n]);
      InjectAllTagged(entries, tileIds[..n]);
      InjectIdempotent(before, tileIds[n]);
      forall k | 0 <= k < n
        ensures TagCount(InjectAll(entries, tileIds), PreviewClass(tileIds[k])) > 0
      {
        assert tileIds[..n][k] == tileIds[k];
        InjectCounts(before, tileIds[n], PreviewClass(tileIds[k]));
      }
    }
  }

  /** Injecting ids whose tags are all present changes nothing. */
  lemma {:induction false} InjectAllPresent(entries: seq<Entry>, tileIds: seq<string>)
    requires forall k :: 0 <= k < |tileIds| ==> TagCount(entries, PreviewClass(tileIds[k])) > 0
    ensures InjectAll(entries, tileIds) == entries
  {
    if tileIds != [] {
      var n := |tileIds| - 1;
      forall k | 0 <= k < n ensures TagCount(entries, PreviewClass(tileIds[..n][k])) > 0 {
        assert tileIds[..n][k] == tileIds[k];
      }
      InjectAllPresent(entries, tileIds[..n]);
    }
  }

  /** A second pass of the same injections leaves the dropdown as the first pass left it. */
  lemma InjectAllIdempotent(entries: seq<Entry>, tileIds: seq<string>)
    ensures InjectAll(InjectAll(entries, tileIds), tileIds) == InjectAll(entries, tileIds)
  {
    InjectAllTagged(entries, tileIds);
    InjectAllPresent(InjectAll(entries, tileIds), tileIds);
  }

  /** A pass of injections keeps the invariant, and leaves exactly one entry per injected tile. */
  lemma {:induction false} InjectAllKeepsUnique(entries: seq<Entry>, tileIds: seq<string>)
    requires UniquePreviewTags(entries)
    ensures UniquePreviewTags(InjectAll(entries, tileIds))
    ensures forall k :: 0 <= k < |tileIds| ==>
      TagCount(InjectAll(entries, tileIds), PreviewClass(tileIds[k])) == 1
  {
    if tileIds != [] {
      var n := |tileIds| - 1;
      var before := InjectAll(entries, tileIds[..n]);
      var after := InjectAll(entries, tileIds);
      InjectAllKeepsUnique(entries, tileIds[..n]);
      InjectKeepsUnique(before, tileIds[n]);
      forall k | 0 <= k < |tileIds| ensures TagCount(after, PreviewClass(tileIds[k])) == 1 {
        if k < n {
          assert tileIds[..n][k] == tileIds[k];
          InjectCounts(before, tileIds[n], PreviewClass(tileIds[k]));
        }
      }
    }
  }

  /**
   * A dropdown menu element. The host page owns it; the helper only
   * prepends list items to it, in place.
   */
  class DropdownMenu {
    var entries: seq<Entry>

    constructor (entries: seq<Entry>)
      ensures this.entries == entries
    {
      this.entries := entries;
    }

    /** Inserts `e` as the first entry. */
    method Prepend(e: Entry)
      modifies this
      ensures entries == [e] + old(entries)
    {
      entries := [e] + entries;
    }
  }
}
