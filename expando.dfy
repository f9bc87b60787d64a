/** IndexableExpandoObject.cs: a dynamic object whose members and string indexer share one
    dictionary. It carries the `props` of a fragment token into the script evaluator. Stored
    values may be null, so the dictionary maps a name to an `Option<V>`; a lookup of an
    absent name yields null as well. */
module Expando {
  import opened Wrappers

  /** An argument of an indexer call: a string, or an object of any other type. */
  datatype Index = StringIndex(key: string) | OtherIndex

  /** `dictionary.TryGetValue(name, out result)`, the result being null when absent. */
  function Lookup<V>(dictionary: map<string, Option<V>>, name: string): (r: Option<V>)
    ensures name !in dictionary ==> r == None
    ensures name in dictionary ==> r == dictionary[name]
  {
    if name in dictionary then dictionary[name] else None
  }

  /** The key an indexer call addresses: present exactly when there is one index and it
      is a string. */
  function IndexKey(indexes: seq<Index>): (r: Option<string>)
    ensures r.Some? <==> |indexes| == 1 && indexes[0].StringIndex?
    ensures r.Some? ==> indexes == [StringIndex(r.value)]
  {
    if |indexes| == 1 && indexes[0].StringIndex? then Some(indexes[0].key) else None
  }

  /** A lookup after a store: the stored value under that key, the old value elsewhere. */
  lemma LookupAfterStore<V>(dictionary: map<string, Option<V>>, name: string, value: Option<V>, other: string)
    ensures Lookup(dictionary[name := value], name) == value
    ensures other != name ==> Lookup(dictionary[name := value], other) == Lookup(dictionary, other)
  {
  }

  class IndexableExpandoObject<V> {
    var dictionary: map<string, Option<V>>

    constructor()
      ensures dictionary == map[]
    {
      dictionary := map[];
    }

    /** TryGetMember: always succeeds, with the stored value or null. */
    method TryGetMember(name: string) returns (found: bool, result: Option<V>)
      ensures found
      ensures result == Lookup(dictionary, name)
    {
      found := true;
      result := if name in dictionary then dictionary[name] else None;
    }

    /** TrySetMember: stores or overwrites the value under the name. */
    method TrySetMember(name: string, value: Option<V>) returns (done: bool)
      modifies this
      ensures done
      ensures dictionary == old(dictionary)[name := value]
    {
      dictionary := dictionary[name := value];
      done := true;
    }

    /** TrySetIndex: anything but exactly one string index throws ArgumentException and
        leaves the dictionary as it was. */
    method TrySetIndex(indexes: seq<Index>, value: Option<V>) returns (r: Result<bool>)
      modifies this
      ensures IndexKey(indexes).None? ==> r == Err(BadIndexes) && dictionary == old(dictionary)
      ensures IndexKey(indexes).Some? ==> r == Ok(true) && dictionary == old(dictionary)[IndexKey(indexes).value := value]
    {
      if |indexes| != 1 || !indexes[0].StringIndex? {
        return Err(BadIndexes);
      }
      dictionary := dictionary[indexes[0].key := value];
      r := Ok(true);
    }

    /** TryGetIndex: anything but exactly one string index throws ArgumentException;
        otherwise the stored value or null, as TryGetMember. */
    method TryGetIndex(indexes: seq<Index>) returns (r: Result<Option<V>>)
      ensures IndexKey(indexes).None? ==> r == Err(BadIndexes)
      ensures IndexKey(indexes).Some? ==> r == Ok(Lookup(dictionary, IndexKey(indexes).value))
    {
      if |indexes| != 1 || !indexes[0].StringIndex? {
        return Err(BadIndexes);
      }
      var found, result := TryGetMember(indexes[0].key);
      r := Ok(result);
    }
  }

  /** Member and index access share the dictionary: a value set by name is read back by
      index, and one set by index is read back by name. */
  method SharedDictionary<V>(o: IndexableExpandoObject<V>, name: string, a: Option<V>, b: Option<V>)
      returns (byIndex: Result<Option<V>>, byName: Option<V>)
    modifies o
    ensures byIndex == Ok(a)
    ensures byName == b
    ensures o.dictionary == old(o.dictionary)[name := b]
  {
    var done := o.TrySetMember(name, a);
    byIndex := o.TryGetIndex([StringIndex(name)]);
    var stored := o.TrySetIndex([StringIndex(name)], b);
    var found;
    found, byName := o.TryGetMember(name);
  }
}
