/**
 * get_lineup: the published lineup the lineup query found, its stored ID list,
 * and the posts the item query returns for that list, or `false` (None).
 */
module Lookup {
  import opened Wrappers
  import opened PhpValues
  import opened IdCodec
  import opened PostMeta

  /**
   * A post the item query can return. Only its ID steers the lookup; `title`
   * stands for the rest of the post record, which is returned whole but never read.
   */
  datatype Post = Post(id: nat, title: string)

  /** The posts the item query can see (published posts), indexed by their own ID. */
  predicate StoreWellFormed(store: map<nat, Post>)
  {
    forall id :: id in store ==> store[id].id == id
  }

  /** The position of the first occurrence of `x` in `s`. */
  function FirstIndex(s: seq<nat>, x: nat): (i: nat)
    requires x in s
    ensures i < |s| && s[i] == x && x !in s[..i]
  {
    if s[0] == x then 0
    else
      assert s == [s[0]] + s[1..];
      var i := FirstIndex(s[1..], x) + 1;
      assert s[..i] == [s[0]] + s[1..][..i - 1];
      i
  }

  /** Extending a list at the end does not move the first occurrence of an ID already in it. */
  lemma {:induction false} FirstIndexPrefix(s: seq<nat>, y: nat, x: nat)
    requires x in s
    ensures x in s + [y] && FirstIndex(s + [y], x) == FirstIndex(s, x)
  {
    if s[0] != x {
      assert s == [s[0]] + s[1..];
      assert (s + [y])[1..] == s[1..] + [y];
      FirstIndexPrefix(s[1..], y, x);
    }
  }

  /** `ids` lists `posts` in the order of first occurrence. */
  predicate InListOrder(posts: seq<Post>, ids: seq<nat>)
  {
    && (forall i :: 0 <= i < |posts| ==> posts[i].id in ids)
    && (forall i, j :: 0 <= i < j < |posts| && posts[i].id in ids && posts[j].id in ids ==>
          FirstIndex(ids, posts[i].id) < FirstIndex(ids, posts[j].id))
  }

  /**
   * The IDs a `post__in` query ordered by `post__in` matches: each ID of `ids`
   * that names a visible post, once, in the order of its first occurrence.
   */
  function Matches(ids: seq<nat>, store: map<nat, Post>): (r: seq<nat>)
    ensures forall i :: 0 <= i < |r| ==> r[i] in ids && r[i] in store
    ensures forall x :: x in ids && x in store ==> x in r
    ensures forall i, j :: 0 <= i < j < |r| ==> FirstIndex(ids, r[i]) < FirstIndex(ids, r[j])
    decreases |ids|
  {
    if ids == [] then []
    else
      var front := ids[..|ids| - 1];
      var x := ids[|ids| - 1];
      assert ids == front + [x];
      var p := Matches(front, store);
      assert forall i :: 0 <= i < |p| ==> FirstIndex(ids, p[i]) == FirstIndex(front, p[i]) by {
        forall i | 0 <= i < |p| ensures FirstIndex(ids, p[i]) == FirstIndex(front, p[i]) {
          FirstIndexPrefix(front, x, p[i]);
        }
      }
      if x in store && x !in p then
        assert x !in front;
        assert FirstIndex(ids, x) == |front|;
        p + [x]
      else p
  }

  /** When every ID is distinct and visible, the query matches exactly the list, in its order. */
  lemma {:induction false} MatchesAllVisible(ids: seq<nat>, store: map<nat, Post>)
    requires forall i, j :: 0 <= i < j < |ids| ==> ids[i] != ids[j]
    requires forall i :: 0 <= i < |ids| ==> ids[i] in store
    ensures Matches(ids, store) == ids
    decreases |ids|
  {
    if ids != [] {
      var front := ids[..|ids| - 1];
      var x := ids[|ids| - 1];
      assert forall i :: 0 <= i < |front| ==> front[i] == ids[i];
      MatchesAllVisible(front, store);
      assert x !in front && x in store;
      assert Matches(ids, store) == Matches(front, store) + [x];
      assert ids == front + [x];
    }
  }

  /**
   * No visible listed post is skipped: a page that is not full holds every listed
   * ID that names a visible post, and a visible post listed before one on the page
   * is itself on the page, ahead of it.
   */
  predicate NoneSkipped(posts: seq<Post>, ids: seq<nat>, store: map<nat, Post>, pageSize: nat)
  {
    && (|posts| < pageSize ==>
          forall x :: x in ids && x in store ==> exists i :: 0 <= i < |posts| && posts[i].id == x)
    && (forall x, j ::
          (0 <= j < |posts| && posts[j].id in ids && x in ids && x in store &&
           FirstIndex(ids, x) < FirstIndex(ids, posts[j].id)) ==>
          exists i :: 0 <= i < j && posts[i].id == x)
  }

  /**
   * The item query (`post__in` the parsed IDs, `orderby` `post__in`): the matched
   * posts in list order, at most `pageSize` of them (the query leaves its page
   * size to the site's default).
   */
  function FetchByIds(ids: seq<nat>, store: map<nat, Post>, pageSize: nat): (r: seq<Post>)
    requires StoreWellFormed(store) && pageSize > 0
    ensures |r| <= pageSize
    ensures forall i :: 0 <= i < |r| ==> r[i].id in store && r[i] == store[r[i].id]
    ensures InListOrder(r, ids)
    ensures r == [] <==> forall x :: x in ids ==> x !in store
    ensures NoneSkipped(r, ids, store, pageSize)
  {
    var m := Matches(ids, store);
    var t := if |m| <= pageSize then m else m[..pageSize];
    assert |m| > 0 ==> m[0] in ids && m[0] in store;
    assert |t| == 0 <==> |m| == 0;
    var posts := seq(|t|, i requires 0 <= i < |t| => store[t[i]]);
    PageSkipsNone(ids, store, pageSize, m, posts);
    posts
  }

  /** A page cut from the front of the matches skips no visible listed post. */
  lemma PageSkipsNone(ids: seq<nat>, store: map<nat, Post>, pageSize: nat, m: seq<nat>, posts: seq<Post>)
    requires m == Matches(ids, store)
    requires |posts| == if |m| <= pageSize then |m| else pageSize
    requires forall i :: 0 <= i < |posts| ==> posts[i].id == m[i]
    ensures NoneSkipped(posts, ids, store, pageSize)
  {
    if |posts| < pageSize {
      forall x | x in ids && x in store
        ensures exists i :: 0 <= i < |posts| && posts[i].id == x
      {
        var k :| 0 <= k < |m| && m[k] == x;
        assert posts[k].id == x;
      }
    }
    forall x, j | 0 <= j < |posts| && posts[j].id in ids && x in ids && x in store &&
                  FirstIndex(ids, x) < FirstIndex(ids, posts[j].id)
      ensures exists i :: 0 <= i < j && posts[i].id == x
    {
      EarlierOnPage(ids, store, m, x, j);
      var k :| 0 <= k < j && m[k] == x;
      assert posts[k].id == x;
    }
  }

  /** A visible ID listed before the `j`-th match is itself a match, before it. */
  lemma EarlierOnPage(ids: seq<nat>, store: map<nat, Post>, m: seq<nat>, x: nat, j: nat)
    requires m == Matches(ids, store)
    requires j < |m| && x in ids && x in store && FirstIndex(ids, x) < FirstIndex(ids, m[j])
    ensures exists k :: 0 <= k < j && m[k] == x
  {
    var k := FirstIndex(m, x);
    assert FirstIndex(ids, m[k]) < FirstIndex(ids, m[j]);
    assert k != j;
  }

  /** With no more distinct visible IDs than a page holds, the posts come back exactly in list order. */
  lemma FetchAllVisible(ids: seq<nat>, store: map<nat, Post>, pageSize: nat)
    requires StoreWellFormed(store) && pageSize > 0 && |ids| <= pageSize
    requires forall i, j :: 0 <= i < j < |ids| ==> ids[i] != ids[j]
    requires forall i :: 0 <= i < |ids| ==> ids[i] in store
    ensures |FetchByIds(ids, store, pageSize)| == |ids|
    ensures forall i :: 0 <= i < |ids| ==> FetchByIds(ids, store, pageSize)[i] == store[ids[i]]
  {
    MatchesAllVisible(ids, store);
  }

  const PostIdsKey: string := "lineup_post_ids"

  /**
   * get_lineup($location). `lineupQuery` is what the lineup query returned (its
   * location filter is not modelled); `meta` is the post-meta store; `store` and
   * `pageSize` stand for the item query. None stands for `false`.
   */
  function GetLineup(location: string, lineupQuery: seq<nat>, meta: map<Key, string>,
                     store: map<nat, Post>, pageSize: nat): (r: Option<seq<Post>>)
    requires StoreWellFormed(store) && pageSize > 0
    ensures IsEmpty(location) ==> r == None
    ensures lineupQuery == [] ==> r == None
    ensures lineupQuery != [] && IsEmpty(MetaValue(meta, lineupQuery[0], PostIdsKey)) ==> r == None
    ensures r.Some? <==>
      && !IsEmpty(location)
      && lineupQuery != []
      && !IsEmpty(MetaValue(meta, lineupQuery[0], PostIdsKey))
      && exists x :: x in ParseIds(MetaValue(meta, lineupQuery[0], PostIdsKey)) && x in store
    ensures r.Some? ==>
      && 0 < |r.value| <= pageSize
      && InListOrder(r.value, ParseIds(MetaValue(meta, lineupQuery[0], PostIdsKey)))
      && NoneSkipped(r.value, ParseIds(MetaValue(meta, lineupQuery[0], PostIdsKey)), store, pageSize)
      && forall i :: 0 <= i < |r.value| ==> r.value[i].id in store && r.value[i] == store[r.value[i].id]
  {
    if IsEmpty(location) || lineupQuery == [] then None
    else
      var lineup := lineupQuery[0];
      var postIds := MetaValue(meta, lineup, PostIdsKey);
      if IsEmpty(postIds) then None
      else
        var posts := FetchByIds(ParseIds(postIds), store, pageSize);
        if posts == [] then None else Some(posts)
  }

  /**
   * The posts the lineup meta box lists for a stored ID string: none when the
   * string is empty in the PHP sense, otherwise the item query with a page of 100.
   */
  function MetaBoxPosts(postIds: string, store: map<nat, Post>): (r: seq<Post>)
    requires StoreWellFormed(store)
    ensures IsEmpty(postIds) ==> r == []
    ensures |r| <= 100
    ensures !IsEmpty(postIds) ==> InListOrder(r, ParseIds(postIds)) && NoneSkipped(r, ParseIds(postIds), store, 100)
    ensures forall i :: 0 <= i < |r| ==> r[i].id in store && r[i] == store[r[i].id]
  {
    if IsEmpty(postIds) then [] else FetchByIds(ParseIds(postIds), store, 100)
  }

  /** The item query returns posts 5, 2, 9 in that order, whatever order the store keeps them in. */
  lemma FetchExample(store: map<nat, Post>, pageSize: nat)
    requires StoreWellFormed(store) && 2 in store && 5 in store && 9 in store && pageSize >= 3
    ensures FetchByIds([5, 2, 9], store, pageSize) == [store[5], store[2], store[9]]
  {
    var ids: seq<nat> := [5, 2, 9];
    assert |ids| == 3 && ids[0] == 5 && ids[1] == 2 && ids[2] == 9;
    FetchAllVisible(ids, store, pageSize);
  }

  /** A lineup stored as "5,2,9" comes back as posts 5, 2, 9 in that order. */
  lemma StoredOrderWins(location: string, meta: map<Key, string>, lineup: nat, store: map<nat, Post>, pageSize: nat)
    requires !IsEmpty(location) && MetaValue(meta, lineup, PostIdsKey) == "5,2,9"
    requires StoreWellFormed(store) && 2 in store && 5 in store && 9 in store && pageSize >= 3
    ensures GetLineup(location, [lineup], meta, store, pageSize) == Some([store[5], store[2], store[9]])
  {
    var stored := MetaValue(meta, lineup, PostIdsKey);
    assert !IsEmpty(stored) by { assert |stored| == 5 && stored[1] != '0'; }
    SerializeExample();
    ParseSerializeRoundTrip([5, 2, 9]);
    assert ParseIds(stored) == [5, 2, 9];
    FetchExample(store, pageSize);
    assert GetLineup(location, [lineup], meta, store, pageSize) == Some(FetchByIds(ParseIds(stored), store, pageSize));
  }

  lemma MatchesSkipHidden(ids: seq<nat>, store: map<nat, Post>, a: nat, b: nat, c: nat)
    requires ids == [a, b, c] && a != c && a in store && b !in store && c in store
    ensures Matches(ids, store) == [a, c]
  {
    var front := ids[..2];
    assert front == [a, b];
    assert front[..1] == [a] && front[..1][..0] == [];
    assert Matches(front[..1], store) == [a];
    assert Matches(front, store) == [a];
  }

  /** A listed post that is no longer visible is skipped; the others keep their order. */
  lemma HiddenPostSkipped(ids: seq<nat>, store: map<nat, Post>, pageSize: nat, a: nat, b: nat, c: nat)
    requires ids == [a, b, c] && a != c
    requires StoreWellFormed(store) && a in store && b !in store && c in store && pageSize >= 2
    ensures FetchByIds(ids, store, pageSize) == [store[a], store[c]]
  {
    MatchesSkipHidden(ids, store, a, b, c);
    var r := FetchByIds(ids, store, pageSize);
    assert |r| == 2 && r[0] == store[a] && r[1] == store[c];
  }

  /** A lineup stored as "5,7,9" whose post 7 has gone is served as posts 5 and 9. */
  lemma TrashedPostServed(location: string, meta: map<Key, string>, lineup: nat, store: map<nat, Post>, pageSize: nat)
    requires !IsEmpty(location) && MetaValue(meta, lineup, PostIdsKey) == "5,7,9"
    requires StoreWellFormed(store) && 5 in store && 7 !in store && 9 in store && pageSize >= 2
    ensures GetLineup(location, [lineup], meta, store, pageSize) == Some([store[5], store[9]])
  {
    var stored := MetaValue(meta, lineup, PostIdsKey);
    assert !IsEmpty(stored) by { assert |stored| == 5 && stored[1] != '0'; }
    SerializeExample();
    ParseSerializeRoundTrip([5, 7, 9]);
    assert ParseIds(stored) == [5, 7, 9];
    HiddenPostSkipped(ParseIds(stored), store, pageSize, 5, 7, 9);
    assert GetLineup(location, [lineup], meta, store, pageSize) == Some(FetchByIds(ParseIds(stored), store, pageSize));
  }
}
