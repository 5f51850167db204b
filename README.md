# Lineup Manager — a Dafny model

Lineup Manager is a WordPress plugin that lets editors curate a "lineup": an
ordered list of posts for a site location such as `home` or `tech`, optionally
tagged with a layout. A lineup is a post of type `lineup`. Three meta fields
carry its content:

- `lineup_location`: the location slug;
- `lineup_layout`: the layout slug;
- `lineup_post_ids`: the ordered post IDs as one comma-joined string.

This project models the logic of the plugin's PHP class and of its editor
script, with WordPress, jQuery and the DOM replaced by plain values.

| file | module | what it models |
|---|---|---|
| `common.dfy` | `Wrappers`, `PhpValues` | `Option` (PHP `false` results); PHP `empty()` on strings: `""` and `"0"` are empty |
| `id_codec.dfy` | `IdCodec` | the ID-list format: `explode(',')`, `intval`, `join(',')`, their round trip |
| `registry.dfy` | `Registry` | the `$data` registry of locations and layouts as an ordered PHP array; `add_location`, `add_layout`, the default-location rule |
| `post_meta.dfy` | `PostMeta` | the post-meta store: `get_post_meta(…, true)` and `update_post_meta` |
| `save_post.dfy` | `SavePost` | `save_post`: four guards, then the loop over the three field names |
| `lookup.dfy` | `Lookup` | `get_lineup`, and the `post__in` item query ordered by `post__in` |
| `editor.dfy` | `Editor` | the editor script's list of selected IDs: `add_item`, `remove_item`, `serialize`; `get_layouts` |
| `end_to_end.dfy` | `EndToEnd` | from the editor's list through `save_post` to `get_lineup` |

Modelling choices:

- A PHP array with string keys is an `OrderedMap`. It holds the keys in
  first-insertion order plus a map. Writing an existing key keeps its place, and
  a new key goes last. So `key($this->data)` is the first location ever
  registered, and `get_layouts` lists layouts in registration order.
- `add_location` replaces the whole entry. Layouts added to an earlier
  registration of the same slug are therefore dropped.
- `intval` is simplified to the value of the fragment's leading decimal digits,
  or 0 when it does not start with a digit. So `"5,x,9"` parses to `[5, 0, 9]`.
- A post ID is a `nat`. The editor's `data-id` values are rendered in decimal by
  `join`.
- The lineup query is an input: the sequence of post IDs it returned. As
  written, that query matches nothing (see "## Left out"), so the success path
  of `get_lineup` describes what happens once it returns a lineup. The item
  query is defined over `store`, the posts it can see keyed by ID, and a
  `pageSize`. It returns the IDs of the list that name a visible post, each
  once, in the order of first occurrence, and at most `pageSize` of them.
- The AJAX answer to `add_item` is the boolean `found`: list markup for the
  post, rather than the body `"0"`.
- `wp_verify_nonce` and `current_user_can` are boolean inputs.
  `sanitize_text_field` is a function parameter.

Three behaviours of the code are easy to assume otherwise, and the model keeps them as written:

- The code has no cache: line 365 only asks whether the query should be cached.
- `save_post` never deletes a field. An emptied ID list is submitted as `""`,
  which is skipped, so the previous list stays (`EmptiedListKeepsPrevious`).
- `get_lineup` returns only the posts, not a layout-and-items pair.

## Model

| member | source | states |
|---|---|---|
| `IdCodec.Explode` | lineup-manager.php:367 | `explode(',', s)` yields one fragment more than `s` has commas, and no fragment contains a comma |
| `IdCodec.JoinExplode` | lineup-manager.php:367 | joining the fragments of any string with ',' gives the string back |
| `IdCodec.Join` | js/main.js:105 | `ids.join(',')` starts with the first fragment; `ExplodeJoin` and `JoinExplode` show that it and `explode` undo each other |
| `IdCodec.ExplodeJoin` | js/main.js:105 | splitting the ','-join of comma-free fragments gives back exactly those fragments |
| `IdCodec.IntVal` | lineup-manager.php:367 | `intval` of a fragment that does not start with a digit (including `""`) is 0 |
| `IdCodec.NatToString` | js/main.js:102-105 | the rendering `join` gives a numeric `data-id` is a non-empty run of decimal digits; `IntValNatToString` reads it back |
| `IdCodec.IntValNatToString` | js/main.js:102-105 | `intval` of the decimal rendering of an ID is that ID |
| `IdCodec.ParseIds` | lineup-manager.php:122 | the parsed list has one entry per fragment (commas + 1), each the `intval` of its fragment |
| `IdCodec.SerializeIds` | js/main.js:99-105 | the serialized list is `""` exactly when the list is empty; otherwise it has one comma fewer than the list has IDs |
| `IdCodec.ParseSerializeRoundTrip` | lineup-manager.php:367 | parsing the serialized form of a non-empty ID list gives the same list in the same order |
| `IdCodec.EmptyListDoesNotRoundTrip` | js/main.js:105 | the empty list serializes to `""`, which the parse would read as `[0]`; the PHP-empty guards keep `""` from being parsed |
| `IdCodec.MalformedFragmentExample` | lineup-manager.php:367 | `"5,x,9"` parses to `[5, 0, 9]`: a non-numeric fragment becomes 0 and is not rejected |
| `IdCodec.SerializeExample` | js/main.js:99-105 | the lists 5, 2, 9 and 5, 7, 9 are stored as `"5,2,9"` and `"5,7,9"` |
| `PhpValues.IsEmpty` | lineup-manager.php:408 | `empty` on a string holds exactly for a string of at most one character, that character being `0`; the same test guards lines 109 and 363 |
| `Registry.OrderedMap.Put` | lineup-manager.php:423 | PHP array assignment: the key maps to the new value, every other key keeps its value, existing keys keep their order, and a new key is appended |
| `Registry.AddLayoutTo` | lineup-manager.php:431-433 | one pass of the loop keeps the registry well formed and leaves the location keys and their order unchanged; its effect per location is `AddLayoutToSpec` |
| `Registry.AddLayoutAll` | lineup-manager.php:430-434 | the whole loop keeps the registry well formed; its effect per location is `AddLayoutAllSpec` |
| `Registry.AddLayoutToSpec` | lineup-manager.php:431-433 | one pass of the loop sets layout `slug` only on the named location, and only if it is registered; location keys are unchanged |
| `Registry.AddLayoutAllSpec` | lineup-manager.php:429-435 | after the loop, location keys and their order are unchanged; each registered listed location has `layouts[slug] = args` with its other layouts kept; every other location is untouched; unregistered names are ignored, and repeated names have the same effect as one |
| `Registry.LineupManager.constructor` | lineup-manager.php:16 | the registry starts empty |
| `Registry.LineupManager.AddLocation` | lineup-manager.php:419-424 | `data[slug]` becomes `args` with no layouts, replacing any earlier entry; other locations are unchanged; a new slug is appended to the key order |
| `Registry.LineupManager.AddLayout` | lineup-manager.php:429-435 | the loop's effect on the registry, as stated by `AddLayoutAllSpec`, with the registry invariant kept |
| `Registry.LineupManager.DefaultLocation` | lineup-manager.php:109 | a stored location that is not PHP-empty is kept; otherwise the first registered location is used, and there is none when nothing is registered |
| `PostMeta.MetaValue` | lineup-manager.php:361 | `get_post_meta(id, key, true)` is the stored string, or `""` when the key was never written |
| `PostMeta.MetaStore.Update` | lineup-manager.php:409 | `update_post_meta` sets one (post, key) entry and changes nothing else |
| `SavePost.WriteFields` | lineup-manager.php:407-411 | the field loop never removes an entry and never touches another post's entries; exactly what it writes is `WriteFieldsSpec` |
| `SavePost.WriteFieldsSpec` | lineup-manager.php:405-411 | the field loop writes exactly the listed fields of this post whose submitted value is not PHP-empty, each to its sanitized value; every other entry keeps its value |
| `SavePost.SavedMeta` | lineup-manager.php:393-411 | nothing changes unless all four guards pass (post type `lineup`, user may edit, nonce submitted, nonce verifies); then only the three named fields with a non-empty submitted value are updated |
| `SavePost.EmptiedListKeepsPrevious` | lineup-manager.php:408 | an ID list submitted as `""` or `"0"`, or not submitted at all, leaves the stored ID list as it was |
| `SavePost.SavePost` | lineup-manager.php:390-411 | the guards and the loop over the field names leave the meta store as `SavedMeta` describes |
| `Lookup.Matches` | lineup-manager.php:366-369 | the item query matches each listed ID that names a visible post, once, in the order of first occurrence in the list, and misses none |
| `Lookup.MatchesAllVisible` | lineup-manager.php:366-369 | for a duplicate-free list of visible IDs the query matches exactly that list |
| `Lookup.FetchByIds` | lineup-manager.php:366-373 | the fetched posts are visible posts named in the ID list, in list order, at most a page; none is skipped: a page that is not full holds every visible listed post, and a visible post listed before one on the page is on the page ahead of it; the result is empty exactly when no listed ID names a visible post |
| `Lookup.FetchAllVisible` | lineup-manager.php:366-373 | a duplicate-free list of visible IDs that fits a page comes back as exactly those posts in list order |
| `Lookup.GetLineup` | lineup-manager.php:339-380 | `false` when the location is PHP-empty, when no lineup is found, or when its ID list is PHP-empty (absent, `""`, `"0"`); success exactly when additionally some parsed ID names a visible post; on success 1 to `pageSize` posts in the parsed list's order, skipping no visible listed post as `FetchByIds` states |
| `Lookup.MetaBoxPosts` | lineup-manager.php:115-125 | the meta box lists no posts for an empty stored string, otherwise at most 100 visible posts in the stored list's order, skipping none of the first 100 visible listed posts |
| `Lookup.PageSkipsNone` | lineup-manager.php:366-373 | a page cut from the front of the matches skips no visible listed post |
| `Lookup.FetchExample` | lineup-manager.php:366-369 | the query for `[5, 2, 9]` returns posts 5, 2, 9 in that order, whatever the store's own order |
| `Lookup.StoredOrderWins` | lineup-manager.php:357-373 | when the lineup query returns a lineup stored as `"5,2,9"`, `get_lineup` returns posts 5, 2, 9 in that order |
| `Lookup.HiddenPostSkipped` | lineup-manager.php:366-369 | for a list a, b, c where b names no visible post, the query returns posts a and c, in that order |
| `Lookup.TrashedPostServed` | lineup-manager.php:357-373 | when the lineup query returns a lineup stored as `"5,7,9"` whose post 7 is no longer visible, `get_lineup` returns posts 5 and 9 |
| `Editor.Without` | js/main.js:88 | removal keeps exactly the items whose ID differs from the removed one |
| `Editor.WithoutConcat` | js/main.js:88 | removal distributes over concatenation, so the remaining items keep their relative order |
| `Editor.WithoutCounts` | js/main.js:88 | removal drops every occurrence of the ID and keeps every other ID as often as it occurred |
| `Editor.WithoutNoDuplicates` | js/main.js:88 | removal keeps a duplicate-free list duplicate-free |
| `Editor.AppendNoDuplicates` | js/main.js:53-74 | appending an ID not yet listed keeps the list duplicate-free and the old items in their places |
| `Editor.ListEditor.constructor` | lineup-manager.php:115-145 | the page starts with one list item per post the meta box lists, in that order (so at most 100, no duplicates, each a visible post of the stored list), and the hidden input holds the stored string unchanged |
| `Editor.ListEditor.AddItem` | js/main.js:49-82 | an ID already listed, or a `"0"` answer, changes nothing; otherwise the ID is appended at the end and the hidden field re-serialized; duplicate-freedom is kept |
| `Editor.ListEditor.RemoveItem` | js/main.js:84-95 | every item with the ID is removed, the rest keep their order, the field is re-serialized, and duplicate-freedom is kept |
| `Editor.ListEditor.Serialize` | js/main.js:97-106 | the field becomes the IDs joined by ',' in list order, `""` exactly for an empty list; the plugin's parse of a non-empty result gives the list back |
| `Editor.GetLayouts` | js/main.js:132-142 | the select gets exactly one option per layout of the location, in registration order, with value the layout slug and text its name; an unregistered location fails |
| `EndToEnd.SerializedListIsNotEmpty` | lineup-manager.php:408 | the serialized form of a non-empty list of positive IDs is never PHP-empty, so `save_post` writes it |
| `EndToEnd.PublishedOrderIsServed` | lineup-manager.php:361-373 | when the lineup query returns the lineup just saved, a saved editor list of distinct, positive, visible IDs that fits a page comes back from `get_lineup` as exactly those posts in the editor's order |

## Left out

- WordPress wiring is not modelled: hooks, post type registration, script and style enqueueing, and the empty `template_redirect` and PHP `get_layouts` (lineup-manager.php:23-95, 254-256). It is glue with no behaviour.
- Admin markup is not modelled. This covers the HTML of `lineup_meta_box`, except the default-location rule (line 109) and the posts it lists (lines 115-125). It also covers `location_meta_box`, `manage_posts_filter`, `render_li`, the AJAX responders `get_item` and `get_posts`, and the script's `search` and `init`. All of these are HTML generation through WordPress escaping and query functions.
- The sample registration at lineup-manager.php:440-472 is configuration data, not logic. Its effect follows from the `AddLocation` and `AddLayout` contracts.
- The internals of the lineup query are left out, and as written it matches nothing. Its `tax_query` clause (lineup-manager.php:348-354) has the key `'tax'` instead of `'taxonomy'`. WordPress turns such a clause into an error and the query returns no posts. Even with the key corrected, no `location` taxonomy is registered: `init` (lines 42-60) registers only the post type, though its comment on line 38 says otherwise. `save_post` also stores the location as post meta rather than as a term. So `get_lineup` as written returns `false` for every location, which is `Lookup.GetLineup` given an empty `lineupQuery`. The model takes the query's result as an input so that the rest of `get_lineup` can be stated. It makes no claim that a lineup found belongs to the location. WordPress core is not part of this model.
- The item query is described by its documented `post__in` ordering, not by WordPress's SQL. Its page size is the site default, so it is the parameter `pageSize`.
- `Lookup.FetchByIds`: the order and completeness properties assume the site has no sticky posts. The front-end query at lineup-manager.php:366-369 does not set `ignore_sticky_posts`. WordPress then puts sticky posts first on the first page, including unlisted ones. WordPress core is not part of this model.
- `Lookup.GetLineup`: its order and completeness come from `Lookup.FetchByIds`, so they too assume no sticky posts. The meta box's `get_posts` (line 120) ignores sticky posts, so `Lookup.MetaBoxPosts` is unaffected.
- Capability and nonce checks are booleans. `sanitize_text_field` is an arbitrary function parameter.
- No caching is modelled, because the code implements none.
- Asynchrony is not modelled. The script checks for a duplicate before the AJAX call and appends when the answer arrives; the model treats that as one step. So two quick adds of the same ID, which the real page could duplicate, are not captured. `alert` and the show/hide of the notice element are also left out.
- Drag reordering through jQuery UI sortable is not modelled beyond the `Serialize` call that follows it.
- The duplicate check in `add_item` is a DOM selector match on `data-id`. It is modelled as membership in the ID list.
- `IdCodec.IntVal`: does not model leading whitespace, signs, exponent notation or integer overflow of PHP `intval`. Only a leading run of digits, or 0. For example, PHP 7.1 and later read `"1e3"` as 1000, but the model reads it as 1.
- `Editor.GetLayouts`: does not model that JavaScript iterates integer-like object keys in ascending order before the others. Layout slugs are taken to be non-numeric.
- A location whose arguments array itself carries a `layouts` key is not modelled. A location's layouts are kept apart from its other arguments.
- Argument values are strings. `limit` is held in its string form.
