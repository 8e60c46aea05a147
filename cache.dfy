/**
 * The URL-keyed item list: an ordered sequence of cache items identified by
 * their URL, with add, lookup, membership, removal, update and a JSON
 * projection.
 */
module CacheModel {
  import opened Wrappers

  /** A cache item: its URL and the rest of its data, which the list never inspects. */
  datatype CacheItem = CacheItem(url: string, content: string)

  /** The exception `getItem` throws when no item has the URL. */
  datatype CacheError = CacheItemNotFound

  /** Some item of the list has this URL. */
  predicate HasUrl(items: seq<CacheItem>, url: string)
  {
    exists i :: 0 <= i < |items| && items[i].url == url
  }

  /** The list invariant `addItem` maintains: every URL is non-empty and held by one item only. */
  predicate WellFormed(items: seq<CacheItem>)
  {
    && (forall i :: 0 <= i < |items| ==> items[i].url != "")
    && (forall i, j :: 0 <= i < j < |items| ==> items[i].url != items[j].url)
  }

  /** The URLs of the items, in list order. */
  function Urls(items: seq<CacheItem>): (r: seq<string>)
    ensures |r| == |items|
    ensures forall i :: 0 <= i < |items| ==> r[i] == items[i].url
  {
    if items == [] then [] else Urls(items[..|items| - 1]) + [items[|items| - 1].url]
  }

  /** The item `getItem` returns: the first one with the URL. */
  function Lookup(items: seq<CacheItem>, url: string): Result<CacheItem, CacheError>
  {
    if items == [] then Failure(CacheItemNotFound)
    else if items[0].url == url then Success(items[0])
    else Lookup(items[1..], url)
  }

  /** Lookup fails exactly when no item has the URL, and otherwise finds the first item that has it. */
  lemma {:induction false} LookupFirstMatch(items: seq<CacheItem>, url: string)
    ensures Lookup(items, url).Failure? <==> !HasUrl(items, url)
    ensures Lookup(items, url).Success? ==>
      exists i :: (0 <= i < |items| && items[i] == Lookup(items, url).value && items[i].url == url &&
        forall j :: 0 <= j < i ==> items[j].url != url)
  {
    if items != [] {
      LookupFirstMatch(items[1..], url);
      if items[0].url == url {
        assert items[0] == Lookup(items, url).value;
      } else {
        if HasUrl(items, url) {
          var i :| 0 <= i < |items| && items[i].url == url;
          assert items[1..][i - 1].url == url;
        }
        if HasUrl(items[1..], url) {
          var i :| 0 <= i < |items[1..]| && items[1..][i].url == url;
          assert items[i + 1].url == url;
        }
        if Lookup(items, url).Success? {
          var i :| 0 <= i < |items[1..]| && items[1..][i] == Lookup(items[1..], url).value && items[1..][i].url == url &&
            forall j :: 0 <= j < i ==> items[1..][j].url != url;
          assert items[i + 1] == items[1..][i];
          forall j | 0 <= j < i + 1
            ensures items[j].url != url
          {
            if j > 0 {
              assert items[j] == items[1..][j - 1];
            }
          }
        }
      }
    }
  }

  /** In a well-formed list the item at a position is the one found by its URL. */
  lemma LookupWellFormed(items: seq<CacheItem>, i: nat)
    requires WellFormed(items)
    requires i < |items|
    ensures Lookup(items, items[i].url) == Success(items[i])
  {
    LookupFirstMatch(items, items[i].url);
    var k :| 0 <= k < |items| && items[k] == Lookup(items, items[i].url).value && items[k].url == items[i].url &&
      forall j :: 0 <= j < k ==> items[j].url != items[i].url;
    assert k == i;
  }

  /** The list after `addItem`: unchanged for an empty or already present URL, otherwise the item at the end. */
  function Added(items: seq<CacheItem>, item: CacheItem): seq<CacheItem>
  {
    if item.url == "" || Lookup(items, item.url).Success? then items else items + [item]
  }

  /** `addItem` keeps the list well formed and adds exactly the new non-empty URL. */
  lemma AddedWellFormed(items: seq<CacheItem>, item: CacheItem)
    requires WellFormed(items)
    ensures WellFormed(Added(items, item))
    ensures forall u :: HasUrl(Added(items, item), u) <==> HasUrl(items, u) || (u == item.url && u != "")
  {
    LookupFirstMatch(items, item.url);
    var r := Added(items, item);
    forall u
      ensures HasUrl(r, u) <==> HasUrl(items, u) || (u == item.url && u != "")
    {
      if r != items {
        if HasUrl(r, u) {
          var i :| 0 <= i < |r| && r[i].url == u;
          if i < |items| {
            assert items[i].url == u;
          }
        }
        if HasUrl(items, u) {
          var i :| 0 <= i < |items| && items[i].url == u;
          assert r[i].url == u;
        }
        if u == item.url && u != "" {
          assert r[|items|].url == u;
        }
      }
    }
  }

  /** An item with a fresh non-empty URL is found once added; every other lookup is unaffected. */
  lemma AddedLookup(items: seq<CacheItem>, item: CacheItem, url: string)
    ensures item.url != "" && !HasUrl(items, item.url) ==> Lookup(Added(items, item), item.url) == Success(item)
    ensures url != item.url ==> Lookup(Added(items, item), url) == Lookup(items, url)
  {
    LookupFirstMatch(items, item.url);
    if item.url != "" && Lookup(items, item.url).Failure? {
      assert Added(items, item) == items + [item];
      LookupAppend(items, item, item.url);
      LookupAppend(items, item, url);
    }
  }

  /** Appending an item changes a lookup only when the URL was absent before. */
  lemma {:induction false} LookupAppend(items: seq<CacheItem>, item: CacheItem, url: string)
    ensures Lookup(items + [item], url) ==
      if Lookup(items, url).Failure? && item.url == url then Success(item) else Lookup(items, url)
  {
    if items == [] {
      assert items + [item] == [item];
      assert [item][1..] == [];
    } else {
      assert (items + [item])[1..] == items[1..] + [item];
      LookupAppend(items[1..], item, url);
    }
  }

  /** The list a sequence of `addItem` calls builds from an empty cache. */
  function AddAll(xs: seq<CacheItem>): seq<CacheItem>
  {
    if xs == [] then [] else Added(AddAll(xs[..|xs| - 1]), xs[|xs| - 1])
  }

  /** A list built only by `addItem` has unique, non-empty URLs, and holds every non-empty URL offered. */
  lemma {:induction false} AddAllWellFormed(xs: seq<CacheItem>)
    ensures WellFormed(AddAll(xs))
    ensures forall u :: HasUrl(AddAll(xs), u) <==> u != "" && HasUrl(xs, u)
  {
    if xs != [] {
      var n := |xs| - 1;
      AddAllWellFormed(xs[..n]);
      AddedWellFormed(AddAll(xs[..n]), xs[n]);
      forall u
        ensures HasUrl(AddAll(xs), u) <==> u != "" && HasUrl(xs, u)
      {
        if HasUrl(xs[..n], u) {
          var i :| 0 <= i < n && xs[..n][i].url == u;
          assert xs[i].url == u;
        }
        if HasUrl(xs, u) && u != xs[n].url {
          var i :| 0 <= i < |xs| && xs[i].url == u;
          assert xs[..n][i].url == u;
        }
        if u == xs[n].url {
          assert xs[n].url == u;
        }
      }
    }
  }

  /** The list after `removeItem`: the items with another URL, in their order. */
  function Removed(items: seq<CacheItem>, url: string): seq<CacheItem>
  {
    if items == [] then []
    else
      var last := items[|items| - 1];
      Removed(items[..|items| - 1], url) + (if last.url != url then [last] else [])
  }

  /** Removal keeps exactly the items with another URL. */
  lemma {:induction false} RemovedMembers(items: seq<CacheItem>, url: string)
    ensures |Removed(items, url)| <= |items|
    ensures forall x :: x in Removed(items, url) <==> x in items && x.url != url
  {
    if items != [] {
      var n := |items| - 1;
      RemovedMembers(items[..n], url);
      assert items == items[..n] + [items[n]];
    }
  }

  /** After removal no item has the URL. */
  lemma RemovedNoUrl(items: seq<CacheItem>, url: string)
    ensures !HasUrl(Removed(items, url), url)
  {
    RemovedMembers(items, url);
  }

  /** Removing a URL no item has changes nothing. */
  lemma {:induction false} RemovedAbsent(items: seq<CacheItem>, url: string)
    requires !HasUrl(items, url)
    ensures Removed(items, url) == items
  {
    if items != [] {
      var n := |items| - 1;
      assert items[n].url != url;
      RemovedAbsent(items[..n], url);
      assert items == items[..n] + [items[n]];
    }
  }

  /** Removal keeps a well-formed list well formed. */
  lemma {:induction false} RemovedWellFormed(items: seq<CacheItem>, url: string)
    requires WellFormed(items)
    ensures WellFormed(Removed(items, url))
  {
    if items != [] {
      var n := |items| - 1;
      WellFormedFront(items);
      RemovedWellFormed(items[..n], url);
      var front := Removed(items[..n], url);
      if items[n].url != url {
        RemovedMembers(items[..n], url);
        forall i | 0 <= i < |front|
          ensures front[i].url != items[n].url
        {
          assert front[i] in front;
          var j :| 0 <= j < n && items[..n][j] == front[i];
          assert items[j] == front[i];
        }
      }
    }
  }

  /** Removal distributes over concatenation, so the kept items keep their relative order. */
  lemma {:induction false} RemovedConcat(a: seq<CacheItem>, b: seq<CacheItem>, url: string)
    ensures Removed(a + b, url) == Removed(a, url) + Removed(b, url)
    decreases |b|
  {
    if b == [] {
      assert a + b == a;
    } else {
      var n := |b| - 1;
      assert (a + b)[..|a + b| - 1] == a + b[..n];
      RemovedConcat(a, b[..n], url);
    }
  }

  /** The items `updateItem` writes back from the loop: each item with the new item's URL replaced by it. */
  function ReplaceMatching(items: seq<CacheItem>, item: CacheItem): seq<CacheItem>
  {
    if items == [] then []
    else
      var last := items[|items| - 1];
      ReplaceMatching(items[..|items| - 1], item) + [if last.url == item.url then item else last]
  }

  /** Replacement works position by position: a matching item becomes the new one, every other item stays. */
  lemma {:induction false} ReplaceMatchingAt(items: seq<CacheItem>, item: CacheItem)
    ensures |ReplaceMatching(items, item)| == |items|
    ensures forall i :: 0 <= i < |items| ==>
      ReplaceMatching(items, item)[i] == if items[i].url == item.url then item else items[i]
  {
    if items != [] {
      var n := |items| - 1;
      ReplaceMatchingAt(items[..n], item);
      forall i | 0 <= i < n
        ensures ReplaceMatching(items, item)[i] == if items[i].url == item.url then item else items[i]
      {
        assert items[..n][i] == items[i];
        assert ReplaceMatching(items, item)[i] == ReplaceMatching(items[..n], item)[i];
      }
    }
  }

  /**
   * The list after `updateItem(item, create)`. An empty URL changes nothing.
   * As written, the item is appended when no URL matched only if `create` is
   * false; with `create` true an unmatched item is dropped.
   */
  function Updated(items: seq<CacheItem>, item: CacheItem, create: bool): seq<CacheItem>
  {
    if item.url == "" then items
    else
      var replaced := ReplaceMatching(items, item);
      if !HasUrl(items, item.url) && !create then replaced + [item] else replaced
  }

  /**
   * `updateItem` replaces the matching items in place and keeps the others;
   * with no match it appends the item exactly when `create` is false.
   */
  lemma UpdatedSpec(items: seq<CacheItem>, item: CacheItem, create: bool)
    requires item.url != ""
    ensures |Updated(items, item, create)| >= |items|
    ensures HasUrl(items, item.url) ==> |Updated(items, item, create)| == |items|
    ensures forall i :: 0 <= i < |items| ==>
      Updated(items, item, create)[i] == if items[i].url == item.url then item else items[i]
    ensures !HasUrl(items, item.url) && create ==> Updated(items, item, create) == items
    ensures !HasUrl(items, item.url) && !create ==> Updated(items, item, create) == items + [item]
  {
    ReplaceMatchingAt(items, item);
    if !HasUrl(items, item.url) {
      assert ReplaceMatching(items, item) == items;
    }
  }

  /** A lookup finds the item when the URL is present and every item with that URL is the item. */
  lemma LookupOnlyMatch(items: seq<CacheItem>, item: CacheItem, i: int)
    requires 0 <= i < |items| && items[i].url == item.url
    requires forall k :: 0 <= k < |items| && items[k].url == item.url ==> items[k] == item
    ensures Lookup(items, item.url) == Success(item)
  {
    LookupFirstMatch(items, item.url);
    var k :| 0 <= k < |items| && items[k] == Lookup(items, item.url).value && items[k].url == item.url &&
      forall j :: 0 <= j < k ==> items[j].url != item.url;
  }

  /**
   * After an update the item is what a lookup of its URL finds, unless no URL
   * matched and `create` was true.
   */
  lemma UpdatedLookup(items: seq<CacheItem>, item: CacheItem, create: bool)
    requires item.url != ""
    ensures HasUrl(items, item.url) || !create ==> Lookup(Updated(items, item, create), item.url) == Success(item)
  {
    UpdatedSpec(items, item, create);
    var r := Updated(items, item, create);
    if HasUrl(items, item.url) {
      var i :| 0 <= i < |items| && items[i].url == item.url;
      LookupOnlyMatch(r, item, i);
    } else if !create {
      assert r == items + [item];
      LookupOnlyMatch(r, item, |items|);
    }
  }

  /** An update keeps a well-formed list well formed. */
  lemma UpdatedWellFormed(items: seq<CacheItem>, item: CacheItem, create: bool)
    requires item.url != ""
    requires WellFormed(items)
    ensures WellFormed(Updated(items, item, create))
  {
    UpdatedSpec(items, item, create);
    var r := Updated(items, item, create);
    forall i, j | 0 <= i < j < |r|
      ensures r[i].url != r[j].url
    {
      if j == |items| {
        assert items[i].url != item.url;
      }
    }
  }

  /** A value of the PHP array `jsonSerialize` returns. */
  datatype JsonValue = Ids(urls: seq<string>) | Count(n: nat) | Entry(item: CacheItem)

  /** A PHP array with string keys: key-value pairs in insertion order, each key once. */
  type Assoc = seq<(string, JsonValue)>

  function Keys(a: Assoc): (r: seq<string>)
    ensures |r| == |a|
    ensures forall i :: 0 <= i < |a| ==> r[i] == a[i].0
  {
    if a == [] then [] else [a[0].0] + Keys(a[1..])
  }

  /** `$a[$key]`, null when absent. */
  function Get(a: Assoc, key: string): Option<JsonValue>
  {
    if a == [] then None else if a[0].0 == key then Some(a[0].1) else Get(a[1..], key)
  }

  /** `$a[$key] = $value`: overwrites in place when the key is present, appends otherwise. */
  function Put(a: Assoc, key: string, value: JsonValue): Assoc
  {
    if a == [] then [(key, value)]
    else if a[0].0 == key then [(key, value)] + a[1..]
    else [a[0]] + Put(a[1..], key, value)
  }

  /** Assignment makes the key map to the value, leaves every other key alone, and keeps the key order. */
  lemma {:induction false} PutSpec(a: Assoc, key: string, value: JsonValue)
    ensures Get(Put(a, key, value), key) == Some(value)
    ensures forall k :: k != key ==> Get(Put(a, key, value), k) == Get(a, k)
    ensures Keys(Put(a, key, value)) == if key in Keys(a) then Keys(a) else Keys(a) + [key]
  {
    if a != [] && a[0].0 != key {
      PutSpec(a[1..], key, value);
      assert Keys(a) == [a[0].0] + Keys(a[1..]);
      assert Keys(Put(a, key, value)) == [a[0].0] + Keys(Put(a[1..], key, value));
    } else if a != [] {
      assert Put(a, key, value)[1..] == a[1..];
    }
  }

  /** The `_items` and `_count` entries written before the items. */
  function Header(items: seq<CacheItem>): Assoc
  {
    [("_items", Ids(Urls(items))), ("_count", Count(|items|))]
  }

  /** The entries after assigning each item under its URL, in list order. */
  function PutItems(a: Assoc, items: seq<CacheItem>): Assoc
  {
    if items == [] then a
    else
      var last := items[|items| - 1];
      Put(PutItems(a, items[..|items| - 1]), last.url, Entry(last))
  }

  /** The array `jsonSerialize` returns. */
  function Serialized(items: seq<CacheItem>): Assoc
  {
    PutItems(Header(items), items)
  }

  /** The last item with the URL: the one whose assignment survives. */
  function LastMatch(items: seq<CacheItem>, url: string): Option<CacheItem>
  {
    if items == [] then None
    else if items[|items| - 1].url == url then Some(items[|items| - 1])
    else LastMatch(items[..|items| - 1], url)
  }

  /** Assigning the items leaves each URL mapped to its last item and every other key as it was. */
  lemma {:induction false} PutItemsGet(a: Assoc, items: seq<CacheItem>, key: string)
    ensures Get(PutItems(a, items), key) == match LastMatch(items, key)
      case Some(x) => Some(Entry(x))
      case None => Get(a, key)
  {
    if items != [] {
      var n := |items| - 1;
      PutItemsGet(a, items[..n], key);
      PutSpec(PutItems(a, items[..n]), items[n].url, Entry(items[n]));
    }
  }

  /** Some item has the URL exactly when the front does or the last item has it. */
  lemma HasUrlSnoc(items: seq<CacheItem>, url: string)
    requires items != []
    ensures HasUrl(items, url) <==> HasUrl(items[..|items| - 1], url) || items[|items| - 1].url == url
  {
    var n := |items| - 1;
    if HasUrl(items[..n], url) {
      var i :| 0 <= i < n && items[..n][i].url == url;
      assert items[i].url == url;
    }
    if HasUrl(items, url) && items[n].url != url {
      var i :| 0 <= i < |items| && items[i].url == url;
      assert items[..n][i].url == url;
    }
  }

  /** Assigning the items keeps the existing keys first, in their order. */
  lemma {:induction false} PutItemsKeys(a: Assoc, items: seq<CacheItem>)
    ensures |Keys(PutItems(a, items))| >= |Keys(a)|
    ensures Keys(PutItems(a, items))[..|Keys(a)|] == Keys(a)
  {
    if items != [] {
      var n := |items| - 1;
      PutItemsKeys(a, items[..n]);
      PutSpec(PutItems(a, items[..n]), items[n].url, Entry(items[n]));
    }
  }

  /** After assigning the items the keys are the existing ones and the URLs of the items. */
  lemma {:induction false} PutItemsKeySet(a: Assoc, items: seq<CacheItem>)
    ensures forall k :: k in Keys(PutItems(a, items)) <==> k in Keys(a) || HasUrl(items, k)
  {
    if items != [] {
      var n := |items| - 1;
      PutItemsKeySet(a, items[..n]);
      PutSpec(PutItems(a, items[..n]), items[n].url, Entry(items[n]));
      forall k
        ensures k in Keys(PutItems(a, items)) <==> k in Keys(a) || HasUrl(items, k)
      {
        HasUrlSnoc(items, k);
      }
    }
  }

  /** Dropping the last item keeps a list well formed. */
  lemma WellFormedFront(items: seq<CacheItem>)
    requires WellFormed(items) && items != []
    ensures WellFormed(items[..|items| - 1])
  {
    var front := items[..|items| - 1];
    assert forall i :: 0 <= i < |front| ==> front[i] == items[i];
  }

  /** In a well-formed list an item's URL is its last occurrence too. */
  lemma {:induction false} LastMatchWellFormed(items: seq<CacheItem>, i: nat)
    requires WellFormed(items)
    requires i < |items|
    ensures LastMatch(items, items[i].url) == Some(items[i])
  {
    var n := |items| - 1;
    if i < n {
      WellFormedFront(items);
      assert items[..n][i] == items[i];
      LastMatchWellFormed(items[..n], i);
    }
  }

  /** A URL absent from the list has no last occurrence. */
  lemma {:induction false} LastMatchAbsent(items: seq<CacheItem>, url: string)
    requires !HasUrl(items, url)
    ensures LastMatch(items, url) == None
  {
    if items != [] {
      var n := |items| - 1;
      assert items[n].url != url;
      LastMatchAbsent(items[..n], url);
    }
  }

  /** The `_items` and `_count` keys come first in the JSON of any list. */
  lemma SerializedKeyOrder(items: seq<CacheItem>)
    ensures |Keys(Serialized(items))| >= 2
    ensures Keys(Serialized(items))[..2] == ["_items", "_count"]
    ensures forall k :: k in Keys(Serialized(items)) <==> k == "_items" || k == "_count" || HasUrl(items, k)
  {
    var h := Header(items);
    assert Keys(h) == ["_items", "_count"];
    PutItemsKeys(h, items);
    PutItemsKeySet(h, items);
  }

  /** When no item claims the header keys, `_items` holds the URLs in list order and `_count` their number. */
  lemma SerializedHeader(items: seq<CacheItem>)
    ensures !HasUrl(items, "_items") ==> Get(Serialized(items), "_items") == Some(Ids(Urls(items)))
    ensures !HasUrl(items, "_count") ==> Get(Serialized(items), "_count") == Some(Count(|items|))
  {
    var h := Header(items);
    PutItemsGet(h, items, "_items");
    PutItemsGet(h, items, "_count");
    if !HasUrl(items, "_items") {
      LastMatchAbsent(items, "_items");
    }
    if !HasUrl(items, "_count") {
      LastMatchAbsent(items, "_count");
    }
  }

  /** Every URL of the list maps to its last item in the JSON. */
  lemma SerializedEntry(items: seq<CacheItem>, url: string)
    requires HasUrl(items, url)
    ensures LastMatch(items, url).Some? && LastMatch(items, url).value.url == url
    ensures Get(Serialized(items), url) == Some(Entry(LastMatch(items, url).value))
  {
    PutItemsGet(Header(items), items, url);
    LastMatchPresent(items, url);
  }

  /** A URL present in the list has a last occurrence. */
  lemma {:induction false} LastMatchPresent(items: seq<CacheItem>, url: string)
    requires HasUrl(items, url)
    ensures LastMatch(items, url).Some? && LastMatch(items, url).value.url == url
  {
    var n := |items| - 1;
    if items[n].url != url {
      var i :| 0 <= i < |items| && items[i].url == url;
      assert items[..n][i].url == url;
      LastMatchPresent(items[..n], url);
    }
  }

  /** In a well-formed list the JSON maps each item's URL to that item. */
  lemma SerializedWellFormed(items: seq<CacheItem>, i: nat)
    requires WellFormed(items)
    requires i < |items|
    ensures Get(Serialized(items), items[i].url) == Some(Entry(items[i]))
  {
    LastMatchWellFormed(items, i);
    PutItemsGet(Header(items), items, items[i].url);
  }

  class Cache {
    /** The items, in insertion order. */
    var items: seq<CacheItem>

    constructor()
      ensures items == []
    {
      items := [];
    }

    /** Whether the cache holds any item. */
    function HasItems(): (b: bool)
      reads this
      ensures b <==> exists u :: HasUrl(items, u)
    {
      assert items != [] ==> HasUrl(items, items[0].url);
      items != []
    }

    method SetItems(newItems: seq<CacheItem>)
      modifies this
      ensures items == newItems
    {
      items := newItems;
    }

    /** The first item with the URL, or CacheItemNotFound. */
    method GetItem(url: string) returns (r: Result<CacheItem, CacheError>)
      ensures r == Lookup(items, url)
      ensures r.Failure? <==> !HasUrl(items, url)
      ensures r.Success? ==> exists i :: (0 <= i < |items| && items[i] == r.value && items[i].url == url &&
        forall j :: 0 <= j < i ==> items[j].url != url)
    {
      LookupFirstMatch(items, url);
      var k := 0;
      while k < |items|
        invariant 0 <= k <= |items|
        invariant Lookup(items[k..], url) == Lookup(items, url)
      {
        assert items[k..][0] == items[k] && items[k..][1..] == items[k + 1..];
        if items[k].url == url {
          return Success(items[k]);
        }
        k := k + 1;
      }
      r := Failure(CacheItemNotFound);
    }

    /** Whether some item has the URL: `getItem` succeeds. */
    method HasItem(url: string) returns (b: bool)
      ensures b <==> HasUrl(items, url)
    {
      var r := GetItem(url);
      b := r.Success?;
    }

    method AddItem(item: CacheItem)
      modifies this
      ensures items == Added(old(items), item)
    {
      if item.url == "" {
        return;
      }
      var present := HasItem(item.url);
      LookupFirstMatch(items, item.url);
      if present {
        return;
      }
      items := items + [item];
    }

    method RemoveItem(url: string)
      modifies this
      ensures items == Removed(old(items), url)
    {
      var newItems: seq<CacheItem> := [];
      var k := 0;
      while k < |items|
        invariant 0 <= k <= |items|
        invariant newItems == Removed(items[..k], url)
      {
        assert items[..k + 1][..k] == items[..k];
        if items[k].url != url {
          newItems := newItems + [items[k]];
        }
        k := k + 1;
      }
      assert items[..|items|] == items;
      items := newItems;
    }

    /** Replaces the items holding the new item's URL; `create` defaults to true, as in the source. */
    method UpdateItem(item: CacheItem, create: bool := true)
      modifies this
      ensures items == Updated(old(items), item, create)
    {
      if item.url == "" {
        return;
      }
      var newItems: seq<CacheItem> := [];
      var updated := false;
      var k := 0;
      while k < |items|
        invariant 0 <= k <= |items|
        invariant newItems == ReplaceMatching(items[..k], item)
        invariant updated <==> HasUrl(items[..k], item.url)
      {
        assert items[..k + 1][..k] == items[..k];
        if items[k].url == item.url {
          updated := true;
          newItems := newItems + [item];
          assert items[..k + 1][k].url == item.url;
        } else {
          newItems := newItems + [items[k]];
          if HasUrl(items[..k + 1], item.url) {
            var i :| 0 <= i < k + 1 && items[..k + 1][i].url == item.url;
            assert items[..k][i].url == item.url;
          }
        }
        if HasUrl(items[..k], item.url) {
          var i :| 0 <= i < k && items[..k][i].url == item.url;
          assert items[..k + 1][i].url == item.url;
        }
        k := k + 1;
      }
      assert items[..|items|] == items;
      if !updated && !create {
        newItems := newItems + [item];
      }
      items := newItems;
    }

    /** The JSON projection: the URL list, its length, then each item under its URL. */
    method JsonSerialize() returns (json: Assoc)
      ensures json == Serialized(items)
    {
      var ids := Urls(items);
      json := [("_items", Ids(ids)), ("_count", Count(|ids|))];
      var k := 0;
      while k < |items|
        invariant 0 <= k <= |items|
        invariant json == PutItems(Header(items), items[..k])
      {
        assert items[..k + 1][..k] == items[..k];
        json := Put(json, items[k].url, Entry(items[k]));
        k := k + 1;
      }
      assert items[..|items|] == items;
    }
  }
}
