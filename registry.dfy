/**
 * The registry of lineup locations and their layouts held in the plugin
 * object's `$data` array: location slug -> (its arguments, layout slug -> arguments).
 */
module Registry {
  import opened Wrappers
  import opened PhpValues

  /** An argument array ('name', 'url', 'limit', ...) with every value in its string form. */
  type Args = map<string, string>

  /** A PHP array with string keys: the entries, and the order in which their keys were first inserted. */
  datatype OrderedMap<V> = OrderedMap(keys: seq<string>, values: map<string, V>)
  {
    ghost predicate Valid()
    {
      && (forall i, j :: 0 <= i < j < |keys| ==> keys[i] != keys[j])
      && (forall k :: k in values <==> k in keys)
    }

    /**
     * `$a[k] = v`: the entry for `k` becomes `v`; a key already present keeps
     * its place in the iteration order, a new key goes last.
     */
    function Put(k: string, v: V): (m: OrderedMap<V>)
      requires Valid()
      ensures m.Valid()
      ensures k in m.values && m.values[k] == v
      ensures forall k' :: k' != k ==> (k' in m.values <==> k' in values)
      ensures forall k' :: k' != k && k' in values ==> m.values[k'] == values[k']
      ensures |m.keys| == if k in values then |keys| else |keys| + 1
      ensures m.keys[..|keys|] == keys
    {
      if k in values then OrderedMap(keys, values[k := v])
      else
        var ks := keys + [k];
        assert forall i :: 0 <= i < |keys| ==> ks[i] == keys[i];
        assert ks[..|keys|] == keys;
        OrderedMap(ks, values[k := v])
    }
  }

  function Empty<V>(): OrderedMap<V>
  {
    OrderedMap([], map[])
  }

  /** Writing the same entry twice is the same as writing it once. */
  lemma PutTwice<V>(m: OrderedMap<V>, k: string, v: V)
    requires m.Valid()
    ensures m.Put(k, v).Put(k, v) == m.Put(k, v)
  {
    assert m.Put(k, v).values[k := v] == m.values[k := v];
  }

  /** One registered location: the arguments given to add_location and the layouts added to it since. */
  datatype Location = Location(args: Args, layouts: OrderedMap<Args>)

  ghost predicate WellFormed(data: OrderedMap<Location>)
  {
    data.Valid() && forall l :: l in data.values ==> data.values[l].layouts.Valid()
  }

  /** One pass of the loop in add_layout: register the layout under `location` if that location exists. */
  function AddLayoutTo(data: OrderedMap<Location>, slug: string, location: string, args: Args): (r: OrderedMap<Location>)
    requires WellFormed(data)
    ensures WellFormed(r)
    ensures r.keys == data.keys && r.values.Keys == data.values.Keys
  {
    if location in data.values then
      var entry := data.values[location];
      data.Put(location, entry.(layouts := entry.layouts.Put(slug, args)))
    else data
  }

  /** add_layout(slug, locations, args) as the loop runs it, location by location. */
  function AddLayoutAll(data: OrderedMap<Location>, slug: string, locations: seq<string>, args: Args): (r: OrderedMap<Location>)
    requires WellFormed(data)
    ensures WellFormed(r)
    decreases |locations|
  {
    if locations == [] then data
    else
      var front := locations[..|locations| - 1];
      AddLayoutTo(AddLayoutAll(data, slug, front, args), slug, locations[|locations| - 1], args)
  }

  /** The entry add_layout leaves for a registered location `l`. */
  ghost function Expected(entry: Location, slug: string, args: Args, listed: bool): Location
    requires entry.layouts.Valid()
  {
    if listed then entry.(layouts := entry.layouts.Put(slug, args)) else entry
  }

  /** One pass of the loop changes only the named location, and only if it is registered. */
  lemma AddLayoutToSpec(data: OrderedMap<Location>, slug: string, location: string, args: Args)
    requires WellFormed(data)
    ensures AddLayoutTo(data, slug, location, args).keys == data.keys
    ensures AddLayoutTo(data, slug, location, args).values.Keys == data.values.Keys
    ensures forall l :: l in data.values ==>
      AddLayoutTo(data, slug, location, args).values[l] == Expected(data.values[l], slug, args, l == location)
  {
  }

  /**
   * What add_layout does to the registry: the location keys and their order do
   * not change; every registered location named in `locations` gets layout `slug`
   * set to `args` (other layouts kept); every other location is left alone;
   * names that are not registered are ignored.
   */
  lemma {:induction false} AddLayoutAllSpec(data: OrderedMap<Location>, slug: string, locations: seq<string>, args: Args)
    requires WellFormed(data)
    ensures AddLayoutAll(data, slug, locations, args).keys == data.keys
    ensures AddLayoutAll(data, slug, locations, args).values.Keys == data.values.Keys
    ensures forall l :: l in data.values ==>
      AddLayoutAll(data, slug, locations, args).values[l] == Expected(data.values[l], slug, args, l in locations)
    decreases |locations|
  {
    if locations != [] {
      var front := locations[..|locations| - 1];
      var last := locations[|locations| - 1];
      AddLayoutAllSpec(data, slug, front, args);
      var mid := AddLayoutAll(data, slug, front, args);
      AddLayoutToSpec(mid, slug, last, args);
      var r := AddLayoutAll(data, slug, locations, args);
      assert r == AddLayoutTo(mid, slug, last, args);
      forall l | l in data.values
        ensures r.values[l] == Expected(data.values[l], slug, args, l in locations)
      {
        assert l in locations <==> l in front || l == last by {
          assert locations == front + [last];
        }
        assert mid.values[l] == Expected(data.values[l], slug, args, l in front);
        assert r.values[l] == Expected(mid.values[l], slug, args, l == last);
        if l == last && l in front {
          PutTwice(data.values[l].layouts, slug, args);
        }
      }
    }
  }

  /** The plugin object; only its `$data` registry is modelled. */
  class LineupManager {
    var data: OrderedMap<Location>

    ghost predicate Valid()
      reads this
    {
      WellFormed(data)
    }

    constructor ()
      ensures Valid() && data == Empty()
    {
      data := Empty();
    }

    /**
     * add_location: `$data[$slug] = $args`. The location's entry is replaced
     * outright, so layouts added to an earlier registration of the same slug are
     * dropped; every other location is unchanged and the order of keys is kept.
     */
    method AddLocation(slug: string, args: Args)
      requires Valid()
      modifies this
      ensures Valid()
      ensures data.values.Keys == old(data.values.Keys) + {slug}
      ensures data.values[slug] == Location(args, Empty())
      ensures forall l :: l in old(data.values) && l != slug ==> data.values[l] == old(data.values[l])
      ensures data.keys == if slug in old(data.values) then old(data.keys) else old(data.keys) + [slug]
    {
      data := data.Put(slug, Location(args, Empty()));
    }

    /** add_layout: the foreach over `$locations` guarded by `isset($this->data[$location])`. */
    method AddLayout(slug: string, locations: seq<string>, args: Args)
      requires Valid()
      modifies this
      ensures Valid()
      ensures data.keys == old(data.keys) && data.values.Keys == old(data.values.Keys)
      ensures forall l :: l in old(data.values) ==>
        data.values[l] == Expected(old(data.values[l]), slug, args, l in locations)
    {
      for i := 0 to |locations|
        invariant Valid()
        invariant data == AddLayoutAll(old(data), slug, locations[..i], args)
      {
        var location := locations[i];
        if location in data.values {
          var entry := data.values[location];
          data := data.Put(location, entry.(layouts := entry.layouts.Put(slug, args)));
        }
        assert locations[..i + 1][..i] == locations[..i];
      }
      assert locations[..|locations|] == locations;
      AddLayoutAllSpec(old(data), slug, locations, args);
    }

    /**
     * The location the lineup editor shows as selected: the stored one, or, when
     * that is empty in the PHP sense, the first location ever registered
     * (`key($this->data)`), or none when nothing is registered.
     */
    function DefaultLocation(selected: string): (r: Option<string>)
      reads this
      requires Valid()
      ensures !IsEmpty(selected) ==> r == Some(selected)
      ensures IsEmpty(selected) ==> (r.Some? <==> data.keys != [])
      ensures IsEmpty(selected) && r.Some? ==> r.value in data.values && r.value == data.keys[0]
    {
      if !IsEmpty(selected) then Some(selected)
      else if data.keys == [] then None
      else Some(data.keys[0])
    }
  }
}
