/** assets/js/content-loader.js: reading a collection or gallery manifest,
    keeping the published items of one language and sorting them newest
    first. fetchManifest is the network: its outcome, the parsed JSON or the
    error it throws, is an argument. parseDate wraps the Date constructor and
    is an argument too, from the item's date property (undefined when there
    is none) to a time or None for an invalid date. The functions build new
    arrays and never change their input. */
module ContentLoader {
  import opened Wrappers
  import opened Seqs
  import opened Values
  import opened DateOrder

  type DateParser = Option<Value> -> Option<int>

  /** The filter test: a truthy item whose status is "published" and whose
      lang is the requested language. */
  predicate IsPublishedIn(item: Value, lang: string) {
    Truthy(item) && Property(item, "status") == Some(Str("published"))
    && Property(item, "lang") == Some(Str(lang))
  }

  function PublishedIn(lang: string): Value -> bool {
    item => IsPublishedIn(item, lang)
  }

  /** filterPublished. */
  function FilterPublished(items: seq<Value>, lang: string): (r: seq<Value>)
    ensures forall i :: 0 <= i < |r| ==> r[i] in items && IsPublishedIn(r[i], lang)
    ensures forall i :: 0 <= i < |items| && IsPublishedIn(items[i], lang) ==> items[i] in r
  {
    Filter(items, PublishedIn(lang))
  }

  /** The date key the comparator of sortByDateDesc computes for an item. */
  function DateKey(parseDate: DateParser): Value -> Option<int> {
    item => parseDate(Property(item, "date"))
  }

  /** sortByDateDesc: a sorted copy; the argument is left as it is. */
  function SortByDateDesc(items: seq<Value>, parseDate: DateParser): (r: seq<Value>)
    ensures multiset(r) == multiset(items)
    ensures Sorted(r, DateKey(parseDate))
  {
    SortSorted(items, DateKey(parseDate));
    SortPermutes(items, DateKey(parseDate));
    Sort(items, DateKey(parseDate))
  }

  /** Array.isArray(data?.name) ? data.name : []. */
  function ArrayProperty(data: Value, name: string): (r: seq<Value>)
    ensures Property(data, name).Some? && Property(data, name).value.Arr? ==> r == Property(data, name).value.items
    ensures r != [] ==> Property(data, name) == Some(Arr(r))
  {
    match Property(data, name)
    case Some(Arr(items)) => items
    case _ => []
  }

  /** normalizeCollection: the posts array; a missing posts field, one that
      is not an array, or data that is not an object gives no items. */
  function NormalizeCollection(data: Value): (r: seq<Value>)
    ensures Property(data, "posts").Some? && Property(data, "posts").value.Arr? ==> r == Property(data, "posts").value.items
    ensures Property(data, "posts").None? || !Property(data, "posts").value.Arr? ==> r == []
  {
    ArrayProperty(data, "posts")
  }

  /** normalizeGallery: the albums array, or no items. */
  function NormalizeGallery(data: Value): (r: seq<Value>)
    ensures Property(data, "albums").Some? && Property(data, "albums").value.Arr? ==> r == Property(data, "albums").value.items
    ensures Property(data, "albums").None? || !Property(data, "albums").value.Arr? ==> r == []
  {
    ArrayProperty(data, "albums")
  }

  /** getCollection: a failed fetch rejects; otherwise the published posts
      of the language, newest first. */
  function GetCollection(fetched: Result<Value, string>, lang: string, parseDate: DateParser): Result<seq<Value>, string> {
    match fetched
    case Failure(e) => Failure(e)
    case Success(data) => Success(SortByDateDesc(FilterPublished(NormalizeCollection(data), lang), parseDate))
  }

  /** getGallery: the same over the albums array. */
  function GetGallery(fetched: Result<Value, string>, lang: string, parseDate: DateParser): Result<seq<Value>, string> {
    match fetched
    case Failure(e) => Failure(e)
    case Success(data) => Success(SortByDateDesc(FilterPublished(NormalizeGallery(data), lang), parseDate))
  }

  // ---------------------------------------------------------------------
  // Properties.

  /** filterPublished keeps the order of what it keeps. */
  lemma FilterPublishedAppend(a: seq<Value>, b: seq<Value>, lang: string)
    ensures FilterPublished(a + b, lang) == FilterPublished(a, lang) + FilterPublished(b, lang)
  {
    FilterAppend(a, b, PublishedIn(lang));
  }

  /** What a manifest of items gives: exactly the published items of the
      language, each as often as in the manifest, valid dates before invalid
      ones and newest first among valid ones, and items with the same date
      in manifest order. */
  lemma LoadedItems(items: seq<Value>, lang: string, parseDate: DateParser)
    ensures var r := SortByDateDesc(FilterPublished(items, lang), parseDate);
      && multiset(r) == multiset(FilterPublished(items, lang))
      && (forall x :: x in r <==> x in items && IsPublishedIn(x, lang))
      && (forall i, j :: 0 <= i < j < |r| && DateKey(parseDate)(r[i]).None? ==> DateKey(parseDate)(r[j]).None?)
      && (forall i, j :: 0 <= i < j < |r| && DateKey(parseDate)(r[i]).Some? && DateKey(parseDate)(r[j]).Some?
            ==> DateKey(parseDate)(r[j]).value <= DateKey(parseDate)(r[i]).value)
      && (forall k :: Filter(r, HasKey(DateKey(parseDate), k)) == Filter(FilterPublished(items, lang), HasKey(DateKey(parseDate), k)))
  {
    var f := FilterPublished(items, lang);
    var r := SortByDateDesc(f, parseDate);
    NewestFirst(r, DateKey(parseDate));
    forall x
      ensures x in r <==> x in items && IsPublishedIn(x, lang)
    {
      assert x in r <==> x in multiset(r);
      assert x in f <==> x in multiset(f);
      if x in items && IsPublishedIn(x, lang) {
        var i :| 0 <= i < |items| && items[i] == x;
      }
      if x in f {
        var i :| 0 <= i < |f| && f[i] == x;
      }
    }
    forall k
      ensures Filter(r, HasKey(DateKey(parseDate), k)) == Filter(f, HasKey(DateKey(parseDate), k))
    {
      SortStable(f, DateKey(parseDate), k);
    }
  }

  /** A manifest { posts: items } or { albums: items } loads the published
      items of the language from that array, sorted. */
  lemma ManifestArrayLoaded(items: seq<Value>, lang: string, parseDate: DateParser)
    ensures GetCollection(Success(Obj(map["posts" := Arr(items)])), lang, parseDate)
      == Success(SortByDateDesc(FilterPublished(items, lang), parseDate))
    ensures GetGallery(Success(Obj(map["albums" := Arr(items)])), lang, parseDate)
      == Success(SortByDateDesc(FilterPublished(items, lang), parseDate))
  {
    assert NormalizeCollection(Obj(map["posts" := Arr(items)])) == items;
    assert NormalizeGallery(Obj(map["albums" := Arr(items)])) == items;
  }

  /** getCollection and getGallery either pass the fetch failure on or give
      the loaded items of their array. */
  lemma GetCollectionAndGallery(fetched: Result<Value, string>, lang: string, parseDate: DateParser)
    ensures fetched.Failure? ==>
      && GetCollection(fetched, lang, parseDate) == Failure(fetched.error)
      && GetGallery(fetched, lang, parseDate) == Failure(fetched.error)
    ensures fetched.Success? ==>
      && GetCollection(fetched, lang, parseDate).Success?
      && (forall x :: x in GetCollection(fetched, lang, parseDate).value <==> x in NormalizeCollection(fetched.value) && IsPublishedIn(x, lang))
      && Sorted(GetCollection(fetched, lang, parseDate).value, DateKey(parseDate))
      && GetGallery(fetched, lang, parseDate).Success?
      && (forall x :: x in GetGallery(fetched, lang, parseDate).value <==> x in NormalizeGallery(fetched.value) && IsPublishedIn(x, lang))
      && Sorted(GetGallery(fetched, lang, parseDate).value, DateKey(parseDate))
  {
    if fetched.Success? {
      LoadedItems(NormalizeCollection(fetched.value), lang, parseDate);
      LoadedItems(NormalizeGallery(fetched.value), lang, parseDate);
    }
  }
}
