/**
 * save_post: after four guards, the three lineup fields whose submitted value
 * is not empty in the PHP sense are written to the post's meta.
 */
module SavePost {
  import opened PhpValues
  import opened PostMeta

  /** The fields the lineup meta box submits, in the order save_post visits them. */
  const Fields: seq<string> := ["lineup_location", "lineup_layout", "lineup_post_ids"]

  const NonceField: string := "lineup_manager_nonce"

  /** `!empty($_POST[$field])`: the field was submitted with a value other than "" and "0". */
  predicate Submitted(form: map<string, string>, field: string)
  {
    field in form && !IsEmpty(form[field])
  }

  /**
   * The four guards, in source order: the post is a lineup, the user may edit it,
   * a nonce was submitted, and `wp_verify_nonce` accepted it (`nonceVerifies`).
   */
  predicate MayWrite(postType: string, canEdit: bool, form: map<string, string>, nonceVerifies: bool)
  {
    postType == "lineup" && canEdit && NonceField in form && nonceVerifies
  }

  /** The entry `key` is one that the fields loop over `fields` writes. */
  predicate Written(postId: nat, fields: seq<string>, form: map<string, string>, key: Key)
  {
    key.0 == postId && key.1 in fields && Submitted(form, key.1)
  }

  /** The fields loop, visiting `fields` in order. */
  function WriteFields(meta: map<Key, string>, postId: nat, fields: seq<string>, form: map<string, string>,
                       sanitize: string -> string): (r: map<Key, string>)
    ensures forall key :: key in meta ==> key in r
    ensures forall key :: key in r && key.0 != postId ==> key in meta && r[key] == meta[key]
    decreases |fields|
  {
    if fields == [] then meta
    else
      var m := WriteFields(meta, postId, fields[..|fields| - 1], form, sanitize);
      var field := fields[|fields| - 1];
      if Submitted(form, field) then m[(postId, field) := sanitize(form[field])] else m
  }

  /** The loop writes exactly the submitted non-empty fields of this post, each with its sanitized value. */
  lemma {:induction false} WriteFieldsSpec(meta: map<Key, string>, postId: nat, fields: seq<string>,
                                           form: map<string, string>, sanitize: string -> string)
    ensures forall key :: key in WriteFields(meta, postId, fields, form, sanitize) <==>
      key in meta || Written(postId, fields, form, key)
    ensures forall key :: key in WriteFields(meta, postId, fields, form, sanitize) ==>
      WriteFields(meta, postId, fields, form, sanitize)[key] ==
        if Written(postId, fields, form, key) then sanitize(form[key.1]) else meta[key]
    decreases |fields|
  {
    if fields != [] {
      var front := fields[..|fields| - 1];
      var last := fields[|fields| - 1];
      WriteFieldsSpec(meta, postId, front, form, sanitize);
      assert fields == front + [last];
      forall key ensures Written(postId, fields, form, key) <==>
        Written(postId, front, form, key) || (key == (postId, last) && Submitted(form, last))
      {
      }
    }
  }

  /**
   * The meta store after save_post: unchanged unless all four guards pass; then
   * the submitted non-empty lineup fields of this post hold their sanitized
   * values and every other entry, of this post or any other, keeps its value.
   */
  function SavedMeta(meta: map<Key, string>, postId: nat, postType: string, canEdit: bool, nonceVerifies: bool,
                     form: map<string, string>, sanitize: string -> string): (r: map<Key, string>)
    ensures !MayWrite(postType, canEdit, form, nonceVerifies) ==> r == meta
    ensures MayWrite(postType, canEdit, form, nonceVerifies) ==>
      forall key :: key in r <==> key in meta || Written(postId, Fields, form, key)
    ensures MayWrite(postType, canEdit, form, nonceVerifies) ==>
      forall key :: key in r ==> r[key] == if Written(postId, Fields, form, key) then sanitize(form[key.1]) else meta[key]
  {
    if MayWrite(postType, canEdit, form, nonceVerifies) then
      WriteFieldsSpec(meta, postId, Fields, form, sanitize);
      WriteFields(meta, postId, Fields, form, sanitize)
    else meta
  }

  /**
   * Emptying the editor's list submits "" for the ID list; that value is skipped,
   * as is a missing or "0" one, so the lineup keeps its previous ID list (an
   * emptied lineup cannot be saved).
   */
  lemma EmptiedListKeepsPrevious(meta: map<Key, string>, postId: nat, postType: string, canEdit: bool,
                                 nonceVerifies: bool, form: map<string, string>, sanitize: string -> string)
    requires !Submitted(form, "lineup_post_ids")
    ensures MetaValue(SavedMeta(meta, postId, postType, canEdit, nonceVerifies, form, sanitize), postId, "lineup_post_ids")
         == MetaValue(meta, postId, "lineup_post_ids")
  {
    var key := (postId, "lineup_post_ids");
    assert !Written(postId, Fields, form, key);
  }

  /** save_post as the source runs it: the guards, then the loop over the field names. */
  method SavePost(store: MetaStore, postId: nat, postType: string, canEdit: bool, nonceVerifies: bool,
                  form: map<string, string>, sanitize: string -> string)
    modifies store
    ensures store.meta == SavedMeta(old(store.meta), postId, postType, canEdit, nonceVerifies, form, sanitize)
  {
    if postType != "lineup" {
      return;
    }
    if !canEdit {
      return;
    }
    if NonceField !in form {
      return;
    }
    if !nonceVerifies {
      return;
    }
    for i := 0 to |Fields|
      invariant store.meta == WriteFields(old(store.meta), postId, Fields[..i], form, sanitize)
    {
      var field := Fields[i];
      if Submitted(form, field) {
        store.Update(postId, field, sanitize(form[field]));
      }
      assert Fields[..i + 1][..i] == Fields[..i];
    }
    assert Fields[..|Fields|] == Fields;
  }
}
