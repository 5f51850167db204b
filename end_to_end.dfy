/**
 * The path an ordering takes through the plugin: the editor serializes its list
 * into the form, save_post stores it, and get_lineup serves the posts in that order.
 */
module EndToEnd {
  import opened Wrappers
  import opened PhpValues
  import opened IdCodec
  import opened PostMeta
  import opened SavePost
  import opened Lookup
  import Editor

  /** A serialized list of positive IDs is never empty in the PHP sense, so save_post writes it. */
  lemma SerializedListIsNotEmpty(items: seq<nat>)
    requires items != [] && forall i :: 0 <= i < |items| ==> items[i] > 0
    ensures !IsEmpty(SerializeIds(items))
  {
    if |items| == 1 {
      ParseSerializeRoundTrip(items);
      assert Explode("0") == ["0"] by { ExplodeNoComma("0"); }
      assert DigitPrefix("0") == "0" by { AllDigitsPrefix("0"); }
      assert DigitsValue("0") == 0 by { assert "0"[..0] == ""; }
      assert ParseIds("0")[0] == 0 != items[0];
    } else {
      assert multiset(SerializeIds(items))[','] > 0;
      assert multiset("0")[','] == 0;
    }
  }

  /**
   * When a lineup's editor list holds distinct, positive IDs of visible posts,
   * no more than a page, and the save passes its guards, the lineup lookup for
   * that lineup returns exactly those posts in the editor's order.
   */
  lemma PublishedOrderIsServed(items: seq<nat>, form: map<string, string>, sanitize: string -> string,
                               meta: map<Key, string>, lineup: nat, location: string,
                               store: map<nat, Post>, pageSize: nat)
    requires items != [] && Editor.NoDuplicates(items)
    requires forall i :: 0 <= i < |items| ==> items[i] > 0 && items[i] in store
    requires StoreWellFormed(store) && pageSize > 0 && |items| <= pageSize
    requires NonceField in form && PostIdsKey in form && form[PostIdsKey] == SerializeIds(items)
    requires sanitize(SerializeIds(items)) == SerializeIds(items)
    requires !IsEmpty(location)
    ensures
      var saved := SavedMeta(meta, lineup, "lineup", true, true, form, sanitize);
      var r := GetLineup(location, [lineup], saved, store, pageSize);
      r.Some? && |r.value| == |items| && forall i :: 0 <= i < |items| ==> r.value[i] == store[items[i]]
  {
    var saved := SavedMeta(meta, lineup, "lineup", true, true, form, sanitize);
    SerializedListIsNotEmpty(items);
    assert Written(lineup, Fields, form, (lineup, PostIdsKey)) by {
      assert Fields[2] == PostIdsKey;
    }
    assert MetaValue(saved, lineup, PostIdsKey) == SerializeIds(items);
    ParseSerializeRoundTrip(items);
    FetchAllVisible(items, store, pageSize);
    assert GetLineup(location, [lineup], saved, store, pageSize) == Some(FetchByIds(items, store, pageSize));
  }
}
