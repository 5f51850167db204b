/**
 * The WordPress post-meta store the plugin reads and writes: one string per
 * (post ID, key). Only the two calls the plugin makes are modelled.
 */
module PostMeta {

  type Key = (nat, string)

  /** `get_post_meta($id, $key, true)`: the stored string, or "" when the key was never written. */
  function MetaValue(meta: map<Key, string>, postId: nat, key: string): (v: string)
    ensures (postId, key) !in meta ==> v == ""
    ensures (postId, key) in meta ==> v == meta[(postId, key)]
  {
    if (postId, key) in meta then meta[(postId, key)] else ""
  }

  class MetaStore {
    var meta: map<Key, string>

    constructor (meta: map<Key, string>)
      ensures this.meta == meta
    {
      this.meta := meta;
    }

    /** `update_post_meta($id, $key, $value)`: one entry is set, nothing else changes. */
    method Update(postId: nat, key: string, value: string)
      modifies this
      ensures meta == old(meta)[(postId, key) := value]
    {
      meta := meta[(postId, key) := value];
    }
  }
}
