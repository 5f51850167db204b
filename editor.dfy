/**
 * The lineup editor script: the selected-posts list (the `data-id` of each list
 * item, in page order), the hidden input holding its serialized form, and the
 * layout select filled from the registry.
 */
module Editor {
  import opened Wrappers
  import PhpValues
  import opened IdCodec
  import opened Registry
  import Lookup

  predicate NoDuplicates(ids: seq<nat>)
  {
    forall i, j :: 0 <= i < j < |ids| ==> ids[i] != ids[j]
  }

  /** The list with every item carrying `id` taken out (jQuery's `.remove()` on all matches). */
  function Without(ids: seq<nat>, id: nat): (r: seq<nat>)
    ensures forall x :: x in r <==> x in ids && x != id
    decreases |ids|
  {
    if ids == [] then []
    else
      var front := ids[..|ids| - 1];
      var x := ids[|ids| - 1];
      assert ids == front + [x];
      Without(front, id) + (if x == id then [] else [x])
  }

  /**
   * Removal works piece by piece: the remaining items keep their relative order.
   * Together with the single-item case this determines Without completely.
   */
  lemma {:induction false} WithoutConcat(a: seq<nat>, b: seq<nat>, id: nat)
    ensures Without(a + b, id) == Without(a, id) + Without(b, id)
    decreases |b|
  {
    if b == [] {
      assert a + b == a;
    } else {
      var front := b[..|b| - 1];
      var x := b[|b| - 1];
      var tail: seq<nat> := if x == id then [] else [x];
      WithoutConcat(a, front, id);
      assert b == front + [x];
      assert a + b == (a + front) + [x];
      WithoutSnoc(a + front, x, id);
      WithoutSnoc(front, x, id);
      var wa, wf := Without(a, id), Without(front, id);
      assert (wa + wf) + tail == wa + (wf + tail);
    }
  }

  lemma WithoutSnoc(s: seq<nat>, x: nat, id: nat)
    ensures Without(s + [x], id) == Without(s, id) + (if x == id then [] else [x])
  {
    assert (s + [x])[..|s + [x]| - 1] == s;
  }

  /** Removal drops every occurrence of `id` and keeps every other item as often as it occurred. */
  lemma {:induction false} WithoutCounts(ids: seq<nat>, id: nat)
    ensures multiset(Without(ids, id)) == multiset(ids)[id := 0]
    decreases |ids|
  {
    if ids != [] {
      var front := ids[..|ids| - 1];
      var x := ids[|ids| - 1];
      WithoutCounts(front, id);
      assert ids == front + [x];
    }
  }

  /** Removing by ID keeps a duplicate-free list duplicate-free. */
  lemma {:induction false} WithoutNoDuplicates(ids: seq<nat>, id: nat)
    requires NoDuplicates(ids)
    ensures NoDuplicates(Without(ids, id))
    decreases |ids|
  {
    if ids != [] {
      var front := ids[..|ids| - 1];
      var x := ids[|ids| - 1];
      assert forall i :: 0 <= i < |front| ==> front[i] == ids[i];
      WithoutNoDuplicates(front, id);
      assert x !in front;
      var w := Without(front, id);
      assert x !in w;
    }
  }

  /** Appending an ID not yet listed keeps a duplicate-free list duplicate-free, and the old items keep their places. */
  lemma AppendNoDuplicates(ids: seq<nat>, id: nat)
    requires NoDuplicates(ids) && id !in ids
    ensures NoDuplicates(ids + [id])
    ensures (ids + [id])[..|ids|] == ids && (ids + [id])[|ids|] == id
  {
  }

  class ListEditor {
    /** The `data-id` of each item of the selected-posts list, in page order. */
    var items: seq<nat>
    /** The value of the hidden `lineup_post_ids` input. */
    var postIds: string

    /**
     * The page as the meta box renders it: one item per post the meta box lists for
     * the stored ID string, and the hidden input holding that string unchanged (so
     * it can still name posts that are no longer listed).
     */
    constructor (postIds: string, store: map<nat, Lookup.Post>)
      requires Lookup.StoreWellFormed(store)
      ensures this.postIds == postIds
      ensures PhpValues.IsEmpty(postIds) ==> items == []
      ensures |items| <= 100 && NoDuplicates(items)
      ensures forall i :: 0 <= i < |items| ==> items[i] in store && items[i] in ParseIds(postIds)
      ensures |items| == |Lookup.MetaBoxPosts(postIds, store)|
      ensures forall i :: 0 <= i < |items| ==> items[i] == Lookup.MetaBoxPosts(postIds, store)[i].id
    {
      var posts := Lookup.MetaBoxPosts(postIds, store);
      var ids := seq(|posts|, i requires 0 <= i < |posts| => posts[i].id);
      if !PhpValues.IsEmpty(postIds) {
        assert NoDuplicates(ids) by {
          forall i, j | 0 <= i < j < |ids|
            ensures ids[i] != ids[j]
          {
            assert Lookup.FirstIndex(ParseIds(postIds), ids[i]) < Lookup.FirstIndex(ParseIds(postIds), ids[j]);
          }
        }
      }
      this.items := ids;
      this.postIds := postIds;
    }

    /**
     * add_item: an ID already listed is refused (the script alerts); otherwise,
     * once the item request answers, a found post (`found`: the response is list
     * markup, not "0") is appended and the list re-serialized; "0" changes nothing.
     */
    method AddItem(id: nat, found: bool)
      modifies this
      ensures id in old(items) || !found ==> items == old(items) && postIds == old(postIds)
      ensures id !in old(items) && found ==> items == old(items) + [id] && postIds == SerializeIds(items)
      ensures NoDuplicates(old(items)) ==> NoDuplicates(items)
    {
      if id in items {
        return;
      }
      if found {
        if NoDuplicates(items) {
          AppendNoDuplicates(items, id);
        }
        items := items + [id];
        Serialize();
      }
    }

    /** remove_item: every item with this ID leaves the list, the rest keep their order, and the list is re-serialized. */
    method RemoveItem(id: nat)
      modifies this
      ensures items == Without(old(items), id)
      ensures id !in items
      ensures postIds == SerializeIds(items)
      ensures NoDuplicates(old(items)) ==> NoDuplicates(items)
    {
      if NoDuplicates(items) {
        WithoutNoDuplicates(items, id);
      }
      items := Without(items, id);
      Serialize();
    }

    /**
     * serialize: collect the items' IDs in page order and store them joined by ','.
     * The plugin's parse of a non-empty result gives the list back.
     */
    method Serialize()
      modifies this`postIds
      ensures postIds == SerializeIds(items)
      ensures items != [] ==> ParseIds(postIds) == items
      ensures items == [] <==> postIds == ""
    {
      var parts: seq<string> := [];
      for i := 0 to |items|
        invariant parts == IdStrings(items[..i])
      {
        parts := parts + [NatToString(items[i])];
        assert items[..i + 1][..i] == items[..i];
      }
      assert items[..|items|] == items;
      postIds := Join(parts);
      if items != [] {
        ParseSerializeRoundTrip(items);
      }
    }
  }

  /** A layout's label as the script reads it: its 'name' argument, or "undefined" when it has none. */
  function Label(args: Args): string
  {
    if "name" in args then args["name"] else "undefined"
  }

  function OptionTag(value: string, text: string): string
  {
    "<option value=\"" + value + "\">" + text + "</option>"
  }

  /** The strings concatenated in order. */
  function Concat(parts: seq<string>): string
  {
    if parts == [] then "" else Concat(parts[..|parts| - 1]) + parts[|parts| - 1]
  }

  /**
   * get_layouts(location): the options of the layout select, one per layout of the
   * location, in the order the layouts were registered. When the location is not
   * registered the script fails before touching the select (None).
   */
  method GetLayouts(data: OrderedMap<Location>, location: string) returns (html: Option<string>)
    requires WellFormed(data)
    ensures html.None? <==> location !in data.values
    ensures html.Some? ==>
      var layouts := data.values[location].layouts;
      html.value == Concat(seq(|layouts.keys|, i requires 0 <= i < |layouts.keys| =>
                                 OptionTag(layouts.keys[i], Label(layouts.values[layouts.keys[i]]))))
  {
    if location !in data.values {
      return None;
    }
    var layouts := data.values[location].layouts;
    ghost var options := seq(|layouts.keys|, i requires 0 <= i < |layouts.keys| =>
                               OptionTag(layouts.keys[i], Label(layouts.values[layouts.keys[i]])));
    var s := "";
    for i := 0 to |layouts.keys|
      invariant s == Concat(options[..i])
    {
      var slug := layouts.keys[i];
      s := s + OptionTag(slug, Label(layouts.values[slug]));
      assert options[..i + 1][..i] == options[..i];
    }
    assert options[..|options|] == options;
    html := Some(s);
  }
}
