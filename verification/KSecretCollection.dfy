/**
 A collection of the secret service and its items. An item reports its changes to its
 collection, which keeps the items by identifier and an index from attribute names to items.
 */
module KSecretCollection {
  import opened Bytes
  import opened Options
  import opened QtStream
  import opened LookupIndex

  datatype Outcome<T> = Done(value: T) | IsLocked | AlreadyExists

  class Item {
    const id: QString
    const collection: Collection

    var labelText: QString
    var attributes: Attributes
    var secret: seq<byte>
    var contentType: QString

    constructor (i: QString, parent: Collection)
      ensures id == i && collection == parent
      ensures attributes == map[]
    {
      id, collection := i, parent;
      labelText, attributes, secret, contentType := [], map[], [], [];
    }

    predicate Holds(l: QString, a: Attributes, s: seq<byte>, c: QString)
      reads this
    {
      labelText == l && attributes == a && secret == s && contentType == c
    }

    ghost predicate Live()
      reads this, collection, collection.items.Values
    {
      collection.Valid() && this in collection.items.Values
    }

    /** Replaces the attributes, and has the collection add index pairs for them. */
    method SetAttributes(a: Attributes, keys: seq<QString>) returns (r: Outcome<()>)
      requires Live() && Enumerates(keys, a)
      modifies this`attributes, collection`lookup, collection`dirty
      ensures Live()
      ensures r.IsLocked? <==> old(collection.locked)
      ensures r.IsLocked? ==> attributes == old(attributes) && collection.lookup == old(collection.lookup) && collection.dirty == old(collection.dirty)
      ensures !r.IsLocked? ==> attributes == a && collection.dirty
      ensures !r.IsLocked? ==> collection.Contents() == Put(old(collection.Contents()), this, a, keys)
    {
      if collection.locked {
        return IsLocked;
      }
      ghost var before := collection.Contents();
      PutAgrees(before, this, a, keys);
      attributes := a;
      collection.SetDirty();
      collection.ChangeAttributeHashes(this, keys);
      r := Done(());
      assert collection.Contents().attrs == before.attrs[this := a];
    }

    method DeleteItem()
      requires Live()
      modifies collection`items, collection`lookup, collection`dirty
      ensures collection.Valid() && collection.locked == old(collection.locked)
      ensures collection.items == old(collection.items) - {id}
      ensures collection.Contents() == Delete(old(collection.Contents()), this)
    {
      collection.SlotItemDeleted(this);
    }

    method Matches(query: Attributes, keys: seq<QString>) returns (r: bool)
      requires Enumerates(keys, query)
      ensures r == MatchesAll(attributes, query)
    {
      for it := 0 to |keys|
        invariant forall j :: 0 <= j < it ==> keys[j] in attributes && attributes[keys[j]] == query[keys[j]]
      {
        if keys[it] !in attributes || ValueOf(attributes, keys[it]) != query[keys[it]] {
          return false;
        }
      }
      return true;
    }
  }

  class Collection {
    /** What a regular expression says of its own text. */
    const selfMatch: SelfMatch

    var items: map<QString, Item>
    var lookup: seq<Pair<Item>>
    var locked: bool
    var dirty: bool

    constructor (s: SelfMatch)
      ensures selfMatch == s && !locked && !dirty
      ensures Valid() && items == map[] && Contents() == Fresh()
    {
      selfMatch := s;
      items, lookup := map[], [];
      locked, dirty := false, false;
    }

    /** Items are kept under their own identifiers, and the index agrees with them. */
    ghost predicate Valid()
      reads `items, `lookup, items.Values`attributes
    {
      && (forall i :: i in items ==> items[i].id == i && items[i].collection == this)
      && Agrees(Contents())
    }

    function Contents(): State<Item>
      reads `items, `lookup, items.Values`attributes
    {
      State(map i | i in items.Values :: i.attributes, lookup)
    }

    method SetDirty()
      modifies `dirty
      ensures dirty == (old(dirty) || !locked)
    {
      if !dirty && !locked {
        dirty := true;
      }
    }

    /** Adds a pair for every attribute; pairs of earlier attributes stay. */
    method ChangeAttributeHashes(item: Item, keys: seq<QString>)
      modifies `lookup
      ensures lookup == old(lookup) + PairsOf(keys, item)
    {
      for it := 0 to |keys|
        invariant lookup == old(lookup) + PairsOf(keys, item)[..it]
      {
        lookup := lookup + [Pair(keys[it], item)];
      }
    }

    /** One query attribute: from the key's first pair to the end of the hash. */
    method SearchKey(key: QString, searchAttr: QString, hash: seq<Pair<Item>>, found: seq<Item>) returns (itemList: seq<Item>)
      requires Covers(Contents().attrs, hash)
      ensures itemList == (FromCovered(Contents().attrs, hash, key);
                           Scan(selfMatch, Contents().attrs, From(hash, key), key, searchAttr, found))
    {
      FromCovered(Contents().attrs, hash, key);
      ghost var attrs := Contents().attrs;
      itemList := found;
      var it := FirstAt(hash, key);
      while it < |hash|
        invariant FirstAt(hash, key) <= it <= |hash|
        invariant Scan(selfMatch, attrs, hash[it..], key, searchAttr, itemList) ==
                  Scan(selfMatch, attrs, From(hash, key), key, searchAttr, found)
      {
        var item := hash[it].item;
        assert hash[it..][0] == hash[it] && hash[it..][1..] == hash[it + 1..];
        assert item in attrs && attrs[item] == item.attributes;
        if item !in itemList {
          var matched := false;
          if searchAttr == [] {
            matched := true;
          } else if IsRegexp(searchAttr) {
            var expr := searchAttr[|REGEXP|..];
            if expr != [] {
              matched := selfMatch(expr);
            }
          } else {
            matched := ValueOf(item.attributes, key) == searchAttr;
          }
          if matched {
            itemList := itemList + [item];
          }
        }
        it := it + 1;
      }
    }

    /** The items the index finds for a query, whose keys and the hash may come in any order. */
    method SearchItems(query: Attributes, keys: seq<QString>, hash: seq<Pair<Item>>) returns (r: Outcome<seq<Item>>)
      requires Valid() && Enumerates(keys, query) && Iterates(hash, Contents())
      ensures Covers(Contents().attrs, hash)
      ensures r == if locked then IsLocked else Done(Search(selfMatch, Contents().attrs, hash, query, keys, []))
    {
      hide Iterates, Scan;
      IterationAgrees(Contents(), hash);
      if locked {
        return IsLocked;
      }
      ghost var attrs := Contents().attrs;
      var itemList: seq<Item> := [];
      for a := 0 to |keys|
        invariant Search(selfMatch, attrs, hash, query, keys[a..], itemList) == Search(selfMatch, attrs, hash, query, keys, [])
      {
        assert keys[a..][0] == keys[a] && keys[a..][1..] == keys[a + 1..];
        itemList := SearchKey(keys[a], query[keys[a]], hash, itemList);
      }
      r := Done(itemList);
    }

    /** The first item found under the attributes whose attributes are these very ones. */
    method FindExisting(attributes: Attributes, keys: seq<QString>, hash: seq<Pair<Item>>) returns (r: Option<Item>)
      requires Valid() && !locked && Enumerates(keys, attributes) && Iterates(hash, Contents())
      ensures r == Existing(selfMatch, Contents(), hash, attributes, keys)
      ensures r.Some? ==> r.value in items.Values && r.value.collection == this
    {
      hide Iterates, Search, Agrees;
      var found := SearchItems(attributes, keys, hash);
      ExistingIffDetectable(selfMatch, Contents(), hash, attributes, keys);
      SearchIsLive(selfMatch, Contents().attrs, hash, attributes, keys);
      var oldlist := found.value;
      for n := 0 to |oldlist|
        invariant forall j :: 0 <= j < |oldlist| ==> oldlist[j] in items.Values
        invariant FirstEqual(Contents().attrs, oldlist[n..], attributes) == FirstEqual(Contents().attrs, oldlist, attributes)
      {
        assert oldlist[n..][0] == oldlist[n] && oldlist[n..][1..] == oldlist[n + 1..];
        if oldlist[n].attributes == attributes {
          return Some(oldlist[n]);
        }
      }
      return None;
    }

    /** Writes what an item holds, and adds its pairs. */
    method Fill(item: Item, labelText: QString, attributes: Attributes, secret: seq<byte>, contentType: QString, keys: seq<QString>)
      modifies item, `lookup
      ensures item.labelText == labelText && item.attributes == attributes
      ensures item.secret == secret && item.contentType == contentType
      ensures item.Holds(labelText, attributes, secret, contentType)
      ensures lookup == old(lookup) + PairsOf(keys, item)
    {
      item.labelText := labelText;
      item.attributes := attributes;
      item.secret := secret;
      item.contentType := contentType;
      ChangeAttributeHashes(item, keys);
    }

    /** Writes what an item of the collection holds, and adds its pairs. */
    method Refill(item: Item, labelText: QString, attributes: Attributes, secret: seq<byte>, contentType: QString, keys: seq<QString>)
      requires Valid() && Enumerates(keys, attributes) && item in items.Values
      modifies item, `lookup
      ensures Valid()
      ensures item.Holds(labelText, attributes, secret, contentType)
      ensures Contents() == Put(old(Contents()), item, attributes, keys)
    {
      hide Agrees, Enumerates, PairsOf, Put;
      ghost var before := Contents();
      PutAgrees(before, item, attributes, keys);
      Fill(item, labelText, attributes, secret, contentType, keys);
      IsPut(before, Contents(), item, attributes, keys);
    }

    /** Writes what a new item holds, adds its pairs, and keeps it. */
    method Keep(item: Item, labelText: QString, attributes: Attributes, secret: seq<byte>, contentType: QString, keys: seq<QString>)
      requires Valid() && Enumerates(keys, attributes) && item.collection == this
      requires item.id !in items && item !in items.Values
      modifies item, `items, `lookup
      ensures Valid()
      ensures item.Holds(labelText, attributes, secret, contentType)
      ensures items == old(items)[item.id := item]
      ensures Contents() == Put(old(Contents()), item, attributes, keys)
    {
      hide Agrees, Enumerates, PairsOf, Put;
      ghost var before := Contents();
      PutAgrees(before, item, attributes, keys);
      Fill(item, labelText, attributes, secret, contentType, keys);
      items := items[item.id := item];
      AddedValue(old(items), item.id, item);
      IsPut(before, Contents(), item, attributes, keys);
    }

    /** Replaces an existing item, or adds a new one. */
    method ReplaceOrAdd(existing: Option<Item>, labelText: QString, attributes: Attributes, secret: seq<byte>, contentType: QString,
                        keys: seq<QString>, id: QString)
        returns (item: Item)
      requires Valid() && !locked && Enumerates(keys, attributes) && id !in items
      requires existing.Some? ==> existing.value in items.Values && existing.value.collection == this
      modifies `items, `lookup, `dirty, if existing.Some? then {existing.value} else {}
      ensures Valid() && dirty
      ensures item.Holds(labelText, attributes, secret, contentType)
      ensures Contents() == Put(old(Contents()), item, attributes, keys)
      ensures if existing.Some? then item == existing.value && items == old(items)
              else fresh(item) && items == old(items)[id := item]
    {
      hide Collection.Valid, Collection.Contents, Item.Holds, Put, Enumerates;
      if existing.Some? {
        item := existing.value;
        Refill(item, labelText, attributes, secret, contentType, keys);
      } else {
        item := new Item(id, this);
        Keep(item, labelText, attributes, secret, contentType, keys);
      }
      SetDirty();
    }

    /** Creates an item, or replaces the one found with the same attributes if allowed to. */
    method CreateItem(labelText: QString, attributes: Attributes, secret: seq<byte>, contentType: QString, replace: bool,
                      keys: seq<QString>, hash: seq<Pair<Item>>, id: QString)
        returns (r: Outcome<Item>)
      requires Valid() && Enumerates(keys, attributes) && Iterates(hash, Contents())
      requires id !in items
      modifies `items, `lookup, `dirty, items.Values
      ensures Valid() && locked == old(locked)
      ensures r.IsLocked? <==> locked
      ensures r.AlreadyExists? <==> !locked && !replace && Existing(selfMatch, old(Contents()), hash, attributes, keys).Some?
      ensures !r.Done? ==> unchanged(this)
      ensures forall i :: i in old(items.Values) && !(r.Done? && i == r.value) ==> unchanged(i)
      ensures r.Done? ==> r.value.Holds(labelText, attributes, secret, contentType)
      ensures r.Done? ==> dirty && Contents() == Put(old(Contents()), r.value, attributes, keys)
      ensures r.Done? ==>
        match Existing(selfMatch, old(Contents()), hash, attributes, keys)
        case Some(i) => r.value == i && items == old(items)
        case None => fresh(r.value) && items == old(items)[id := r.value]
    {
      if locked {
        return IsLocked;
      }
      hide Collection.Valid, Collection.Contents, Item.Holds, Agrees, Put, Existing, Enumerates, Iterates;
      var existing := FindExisting(attributes, keys, hash);
      if existing.Some? && !replace {
        return AlreadyExists;
      }
      var item := ReplaceOrAdd(existing, labelText, attributes, secret, contentType, keys, id);
      r := Done(item);
    }

    /** Drops every pair of an item. */
    method ErasePairs(item: Item)
      modifies `lookup
      ensures lookup == Without(old(lookup), item)
    {
      hide Without;
      var it := 0;
      ghost var kept, rest := [], lookup;
      assert kept + Without(rest, item) == Without(lookup, item);
      while it < |lookup|
        invariant it == |kept| && lookup == kept + rest
        invariant kept + Without(rest, item) == Without(old(lookup), item)
        decreases |rest|
      {
        EraseAt(kept, rest);
        WithoutFirst(kept, rest, item);
        if lookup[it].item == item {
          lookup := lookup[..it] + lookup[it + 1..];
        } else {
          kept := kept + [rest[0]];
          it := it + 1;
        }
        rest := rest[1..];
      }
      NoneLeft(kept, item);
    }

    method SlotItemDeleted(item: Item)
      requires Valid() && item in items.Values
      modifies `items, `lookup, `dirty
      ensures Valid() && locked == old(locked)
      ensures items == old(items) - {item.id}
      ensures Contents() == Delete(old(Contents()), item)
    {
      hide Agrees, Without;
      ghost var before := Contents();
      DeleteAgrees(before, item);
      ErasePairs(item);
      RemovedValue(items, item.id);
      items := items - {item.id};
      SetDirty();
      assert Contents().attrs == before.attrs - {item};
    }
  }

  lemma EraseAt<T>(kept: seq<T>, rest: seq<T>)
    requires rest != []
    ensures var all := kept + rest; var at := |kept|;
            && all[at] == rest[0]
            && all[..at] + all[at + 1..] == kept + rest[1..]
            && all == kept + [rest[0]] + rest[1..]
  {
  }

  lemma WithoutFirst(kept: seq<Pair<Item>>, rest: seq<Pair<Item>>, item: Item)
    requires rest != []
    ensures kept + Without(rest, item) ==
            (if rest[0].item == item then kept else kept + [rest[0]]) + Without(rest[1..], item)
  {
    Grouped(kept, rest[0], Without(rest[1..], item));
  }

  lemma Grouped<T>(a: seq<T>, x: T, b: seq<T>)
    ensures a + ([x] + b) == a + [x] + b
    ensures [] + b == b
  {
  }

  lemma NoneLeft(kept: seq<Pair<Item>>, item: Item)
    ensures kept + Without([], item) == kept
  {
  }

  lemma IsPut(before: State<Item>, after: State<Item>, item: Item, a: Attributes, keys: seq<QString>)
    requires after.lookup == before.lookup + PairsOf(keys, item)
    requires after.attrs.Keys == before.attrs.Keys + {item} && after.attrs[item] == a
    requires forall i :: i in before.attrs && i != item ==> after.attrs[i] == before.attrs[i]
    ensures after == Put(before, item, a, keys)
  {
    hide PairsOf;
    UpdatedAt(before.attrs, after.attrs, item);
  }

  lemma UpdatedAt(m: map<Item, Attributes>, n: map<Item, Attributes>, item: Item)
    requires n.Keys == m.Keys + {item}
    requires forall i :: i in m && i != item ==> n[i] == m[i]
    ensures n == m[item := n[item]]
  {
  }

  lemma AddedValue(m: map<QString, Item>, id: QString, item: Item)
    requires id !in m
    ensures m[id := item].Values == m.Values + {item}
  {
    var n := m[id := item];
    assert forall i :: i in m ==> n[i] == m[i];
    assert n[id] == item;
  }

  lemma RemovedValue(m: map<QString, Item>, id: QString)
    requires id in m && forall i :: i in m ==> m[i].id == i
    ensures (m - {id}).Values == m.Values - {m[id]}
  {
    var n := m - {id};
    assert forall i :: i in n ==> n[i] == m[i];
    forall x | x in m.Values - {m[id]} ensures x in n.Values {
      var i :| i in m && m[i] == x;
      assert n[i] == x;
    }
  }
}
