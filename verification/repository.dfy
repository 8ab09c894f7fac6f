/**
 * GameStore.Api/Repository/Repository.cs: a generic repository over a
 * static list, and a set of stand-alone collection helpers (search,
 * comparison, paging, filtering, flattening, dictionary merging).
 *
 * C# `IEnumerable<T>`, `IList<T>` and `List<T>` are all sequences here;
 * a `Func<T, bool>` or `Predicate<T>` is a total Dafny function.
 */
module Repository {
  import opened Wrappers

  // ---------------------------------------------------------------------
  // The static backing list.

  /**
   * The static `items` list of Repository<T>. Dafny has no mutable static
   * fields, so the one list is the one instance of this class.
   */
  class Repository<T(==,!new)> {
    var items: seq<T>

    constructor ()
      ensures items == []
    {
      items := [];
    }

    /** List.Add: append at the end. */
    method Add(item: T)
      modifies this
      ensures items == old(items) + [item]
    {
      items := items + [item];
    }

    /** List.Remove: drop the first element equal to the item, if any. */
    method Remove(item: T)
      modifies this
      ensures items == RemoveFirst(old(items), item)
      ensures item !in old(items) ==> items == old(items)
      ensures item in old(items) ==> multiset(items) == multiset(old(items)) - multiset{item}
    {
      items := RemoveFirst(items, item);
    }

    /** GetAll(): the list as it stands. */
    method GetAll() returns (r: seq<T>)
      ensures r == items
    {
      r := items;
    }

    /** GetAll(predicate): the items that satisfy the predicate, in list order. */
    method GetAllWhere(condition: T -> bool) returns (r: seq<T>)
      ensures r == Filter(items, condition)
      ensures forall x :: x in r <==> x in items && condition(x)
    {
      r := Filter(items, condition);
    }
  }

  /** The list after List.Remove(x): the first occurrence of x is dropped. */
  function RemoveFirst<T(==)>(s: seq<T>, x: T): (r: seq<T>)
    ensures x !in s ==> r == s
    ensures x in s ==> |r| == |s| - 1 && multiset(r) == multiset(s) - multiset{x}
  {
    if s == [] then []
    else if s[0] == x then
      assert s == [s[0]] + s[1..];
      s[1..]
    else
      assert s == [s[0]] + s[1..];
      [s[0]] + RemoveFirst(s[1..], x)
  }

  /** Only the first occurrence goes: everything before it and after it stays, in order. */
  lemma {:induction false} RemoveFirstSplit<T>(a: seq<T>, x: T, b: seq<T>)
    requires x !in a
    ensures RemoveFirst(a + [x] + b, x) == a + b
  {
    if a != [] {
      assert (a + [x] + b)[1..] == a[1..] + [x] + b;
      RemoveFirstSplit(a[1..], x, b);
    }
  }

  // ---------------------------------------------------------------------
  // Searching and comparing.

  /** The hand-written FindIndex loop: the first index whose element matches, or -1. */
  method FindIndex<T>(list: seq<T>, matches: T -> bool) returns (index: int)
    ensures -1 <= index < |list|
    ensures index == -1 <==> forall j :: 0 <= j < |list| ==> !matches(list[j])
    ensures 0 <= index ==> matches(list[index]) && forall j :: 0 <= j < index ==> !matches(list[j])
  {
    var i := 0;
    while i < |list|
      invariant 0 <= i <= |list|
      invariant forall j :: 0 <= j < i ==> !matches(list[j])
    {
      if matches(list[i]) {
        return i;
      }
      i := i + 1;
    }
    return -1;
  }

  /** Swap(ref a, ref b): the two variables come back exchanged. */
  method Swap<T>(a: T, b: T) returns (a': T, b': T)
    ensures a' == b && b' == a
  {
    var temp := a;
    a' := b;
    b' := temp;
  }

  /** A CompareTo that answers with opposite signs when its arguments are swapped. */
  ghost predicate SignConsistent<T(!new)>(compareTo: (T, T) -> int)
  {
    forall x, y :: compareTo(x, y) > 0 <==> compareTo(y, x) < 0
  }

  /** Max: a when a.CompareTo(b) > 0, otherwise b (a tie gives b). */
  function Max<T>(a: T, b: T, compareTo: (T, T) -> int): (r: T)
    ensures r == a || r == b
    ensures compareTo(a, b) > 0 ==> r == a
    ensures compareTo(a, b) <= 0 ==> r == b
  {
    if compareTo(a, b) > 0 then a else b
  }

  /** Min: a when a.CompareTo(b) < 0, otherwise b (a tie gives b). */
  function Min<T>(a: T, b: T, compareTo: (T, T) -> int): (r: T)
    ensures r == a || r == b
    ensures compareTo(a, b) < 0 ==> r == a
    ensures compareTo(a, b) >= 0 ==> r == b
  {
    if compareTo(a, b) < 0 then a else b
  }

  /** Under a sign-consistent comparison, Max compares at least equal to both inputs. */
  lemma MaxIsUpperBound<T(!new)>(a: T, b: T, compareTo: (T, T) -> int)
    requires SignConsistent(compareTo)
    ensures compareTo(Max(a, b, compareTo), a) >= 0 && compareTo(Max(a, b, compareTo), b) >= 0
  {
  }

  /** Under a sign-consistent comparison, Min compares at most equal to both inputs. */
  lemma MinIsLowerBound<T(!new)>(a: T, b: T, compareTo: (T, T) -> int)
    requires SignConsistent(compareTo)
    ensures compareTo(Min(a, b, compareTo), a) <= 0 && compareTo(Min(a, b, compareTo), b) <= 0
  {
  }

  /**
   * Max and Min split a strictly ordered pair between them; on a tie both
   * return b, so for a comparison that ties distinct values, a is lost.
   */
  lemma MaxMinPair<T>(a: T, b: T, compareTo: (T, T) -> int)
    ensures compareTo(a, b) != 0 ==> multiset{Max(a, b, compareTo), Min(a, b, compareTo)} == multiset{a, b}
    ensures compareTo(a, b) == 0 ==> Max(a, b, compareTo) == b && Min(a, b, compareTo) == b
  {
  }

  /** SequenceEqual: same length and equal element by element. */
  function AreCollectionsEqual<T(==)>(first: seq<T>, second: seq<T>): (r: bool)
    ensures r <==> first == second
  {
    if first == [] || second == [] then first == [] && second == []
    else if first[0] != second[0] then false
    else
      assert first == [first[0]] + first[1..] && second == [second[0]] + second[1..];
      AreCollectionsEqual(first[1..], second[1..])
  }

  /** IsNullOrEmpty: the collection is null or has no element. */
  function IsNullOrEmpty<T>(collection: Option<seq<T>>): (r: bool)
    ensures r <==> collection == None || |collection.value| == 0
  {
    match collection
    case None => true
    case Some(c) => !(|c| > 0)
  }

  // ---------------------------------------------------------------------
  // Sequence helpers.

  /** ConvertAll: Select(converter) materialised as a list. */
  function ConvertAll<S, R>(source: seq<S>, converter: S -> R): (r: seq<R>)
    ensures |r| == |source|
    ensures forall i :: 0 <= i < |source| ==> r[i] == converter(source[i])
  {
    if source == [] then [] else [converter(source[0])] + ConvertAll(source[1..], converter)
  }

  /** Where(predicate): the elements that satisfy the predicate. */
  function Filter<T(!new)>(source: seq<T>, condition: T -> bool): (r: seq<T>)
    ensures |r| <= |source|
    ensures forall x :: x in r <==> x in source && condition(x)
  {
    if source == [] then []
    else
      assert source == [source[0]] + source[1..];
      var rest := Filter(source[1..], condition);
      if condition(source[0]) then [source[0]] + rest else rest
  }

  /** Filtering keeps the original order: it distributes over concatenation. */
  lemma {:induction false} FilterAppend<T(!new)>(a: seq<T>, b: seq<T>, condition: T -> bool)
    ensures Filter(a + b, condition) == Filter(a, condition) + Filter(b, condition)
  {
    if a == [] {
      assert a + b == b;
    } else {
      assert (a + b)[1..] == a[1..] + b;
      FilterAppend(a[1..], b, condition);
    }
  }

  /** All(predicate): every element satisfies the predicate. */
  function All<T>(source: seq<T>, condition: T -> bool): (r: bool)
    ensures r <==> forall i :: 0 <= i < |source| ==> condition(source[i])
  {
    if source == [] then true
    else
      assert forall i :: 1 <= i < |source| ==> source[i] == source[1..][i - 1];
      condition(source[0]) && All(source[1..], condition)
  }

  /** All holds exactly when Where keeps the whole sequence. */
  lemma {:induction false} AllIffFilterKeepsAll<T(!new)>(source: seq<T>, condition: T -> bool)
    ensures All(source, condition) <==> Filter(source, condition) == source
  {
    if source != [] {
      AllIffFilterKeepsAll(source[1..], condition);
    }
  }

  /** Distinct after a set of already seen values: each new value at its first occurrence. */
  function DistinctAfter<T(==,!new)>(items: seq<T>, seen: set<T>): (r: seq<T>)
    ensures forall i, j :: 0 <= i < j < |r| ==> r[i] != r[j]
    ensures forall x :: x in r <==> x in items && x !in seen
  {
    if items == [] then []
    else
      assert items == [items[0]] + items[1..];
      if items[0] in seen then DistinctAfter(items[1..], seen)
      else [items[0]] + DistinctAfter(items[1..], seen + {items[0]})
  }

  /** Distinct(): every value once, at the position of its first occurrence. */
  function GetDistinct<T(==,!new)>(items: seq<T>): (r: seq<T>)
    ensures forall i, j :: 0 <= i < j < |r| ==> r[i] != r[j]
    ensures forall x :: x in r <==> x in items
  {
    DistinctAfter(items, {})
  }

  lemma {:induction false} DistinctAfterSnoc<T(!new)>(items: seq<T>, seen: set<T>, x: T)
    ensures DistinctAfter(items + [x], seen) ==
      if x in items || x in seen then DistinctAfter(items, seen) else DistinctAfter(items, seen) + [x]
  {
    if items == [] {
      assert items + [x] == [x];
      assert [x][1..] == [];
    } else {
      assert (items + [x])[1..] == items[1..] + [x];
      assert x in items <==> x == items[0] || x in items[1..] by {
        assert items == [items[0]] + items[1..];
      }
      if items[0] in seen {
        DistinctAfterSnoc(items[1..], seen, x);
      } else {
        DistinctAfterSnoc(items[1..], seen + {items[0]}, x);
      }
    }
  }

  /** A later repeat is dropped; a new value is kept at the end: first occurrences win. */
  lemma GetDistinctSnoc<T(!new)>(items: seq<T>, x: T)
    ensures GetDistinct(items + [x]) ==
      if x in items then GetDistinct(items) else GetDistinct(items) + [x]
  {
    DistinctAfterSnoc(items, {}, x);
  }

  /** FirstOrDefault(item is not default): the first non-default element, else the default. */
  function FirstNonDefault<T(==)>(items: seq<T>, defaultValue: T): (r: T)
    ensures r != defaultValue ==> r in items
    ensures r == defaultValue <==> forall i :: 0 <= i < |items| ==> items[i] == defaultValue
  {
    if items == [] then defaultValue
    else if items[0] != defaultValue then items[0]
    else
      assert forall i :: 1 <= i < |items| ==> items[i] == items[1..][i - 1];
      FirstNonDefault(items[1..], defaultValue)
  }

  /** The result is the element at the first non-default position. */
  lemma {:induction false} FirstNonDefaultIsFirst<T>(items: seq<T>, defaultValue: T, k: nat)
    requires k < |items| && items[k] != defaultValue
    requires forall j :: 0 <= j < k ==> items[j] == defaultValue
    ensures FirstNonDefault(items, defaultValue) == items[k]
  {
    if k > 0 {
      FirstNonDefaultIsFirst(items[1..], defaultValue, k - 1);
    }
  }

  /** SelectMany(item => item): the inner sequences one after another. */
  function Flatten<T>(source: seq<seq<T>>): (r: seq<T>)
    ensures forall i, j :: 0 <= i < |source| && 0 <= j < |source[i]| ==> source[i][j] in r
    ensures forall x :: x in r ==> exists i :: 0 <= i < |source| && x in source[i]
    ensures source == [] ==> r == []
    ensures |source| == 1 ==> r == source[0]
  {
    if source == [] then []
    else
      var rest := Flatten(source[1..]);
      assert forall i :: 1 <= i < |source| ==> source[i] == source[1..][i - 1];
      source[0] + rest
  }

  /** SelectMany keeps the inner sequences in order: it distributes over concatenation. */
  lemma {:induction false} FlattenAppend<T>(a: seq<seq<T>>, b: seq<seq<T>>)
    ensures Flatten(a + b) == Flatten(a) + Flatten(b)
  {
    if a == [] {
      assert a + b == b;
    } else {
      assert (a + b)[1..] == a[1..] + b;
      FlattenAppend(a[1..], b);
    }
  }

  // ---------------------------------------------------------------------
  // Paging, with C#'s 32-bit int arithmetic.

  const Int32Min: int := -0x8000_0000
  const Int32Max: int := 0x7FFF_FFFF

  predicate IsInt32(x: int)
  {
    Int32Min <= x <= Int32Max
  }

  /** Unchecked 32-bit two's complement wrap-around of an exact result. */
  function WrapInt32(x: int): (r: int)
    ensures IsInt32(r)
    ensures IsInt32(x) ==> r == x
    ensures (x - r) % 0x1_0000_0000 == 0
  {
    (x - Int32Min) % 0x1_0000_0000 + Int32Min
  }

  /** Enumerable.Skip: a non-positive count skips nothing. */
  function Skip<T>(source: seq<T>, count: int): (r: seq<T>)
    ensures count <= 0 ==> r == source
    ensures r == source[Clip(count, |source|)..]
  {
    if count <= 0 then source else if count >= |source| then [] else source[count..]
  }

  /** Enumerable.Take: a non-positive count takes nothing. */
  function Take<T>(source: seq<T>, count: int): (r: seq<T>)
    ensures count <= 0 ==> r == []
    ensures r == source[..Clip(count, |source|)]
  {
    if count <= 0 then [] else if count >= |source| then source else source[..count]
  }

  /** Take and Skip with the same count split the source between them. */
  lemma TakeThenSkip<T>(source: seq<T>, count: int)
    ensures Take(source, count) + Skip(source, count) == source
  {
    assert source == source[..Clip(count, |source|)] + source[Clip(count, |source|)..];
  }

  /**
   * GetPage as written: Skip((pageNumber - 1) * pageSize).Take(pageSize),
   * with the subtraction and the product computed in unchecked 32-bit ints.
   */
  function GetPage<T>(source: seq<T>, pageNumber: int, pageSize: int): (r: seq<T>)
    requires IsInt32(pageNumber) && IsInt32(pageSize)
    ensures pageSize <= 0 ==> r == []
    ensures |r| <= if pageSize <= 0 then 0 else pageSize
    ensures exists start :: 0 <= start <= |source| && r <= source[start..]
  {
    var count := WrapInt32(WrapInt32(pageNumber - 1) * pageSize);
    var start := if count <= 0 then 0 else if count >= |source| then |source| else count;
    var r := Take(Skip(source, count), pageSize);
    assert r <= source[start..];
    r
  }

  /** x clipped to the range [0, n]. */
  function Clip(x: int, n: nat): nat
  {
    if x <= 0 then 0 else if x < n then x else n
  }

  /** The page GetPage evidently means: the exact product, no wrap-around. */
  function PageOf<T>(source: seq<T>, pageNumber: int, pageSize: int): (r: seq<T>)
    ensures pageNumber >= 1 && pageSize > 0 ==>
      var start := (pageNumber - 1) * pageSize;
      r == source[Clip(start, |source|)..Clip(start + pageSize, |source|)]
  {
    Take(Skip(source, (pageNumber - 1) * pageSize), pageSize)
  }

  /** When neither step overflows, the page as written is the intended page. */
  lemma GetPageNoOverflow<T>(source: seq<T>, pageNumber: int, pageSize: int)
    requires IsInt32(pageNumber) && IsInt32(pageSize)
    requires IsInt32(pageNumber - 1) && IsInt32((pageNumber - 1) * pageSize)
    ensures GetPage(source, pageNumber, pageSize) == PageOf(source, pageNumber, pageSize)
  {
  }

  /** Page 65537 of size 65536 wraps its skip to 0 and so returns the first page. */
  lemma GetPageOverflowExample(x: int)
    ensures GetPage([x], 65537, 65536) == [x]
    ensures PageOf([x], 65537, 65536) == []
  {
  }

  /** Pages 1 to count, concatenated. */
  function FirstPages<T>(source: seq<T>, count: nat, pageSize: int): seq<T>
  {
    if count == 0 then [] else FirstPages(source, count - 1, pageSize) + PageOf(source, count, pageSize)
  }

  /** A prefix followed by the slice that starts where it ends is the longer prefix. */
  lemma PrefixThenSlice<T>(source: seq<T>, lo: int, hi: int)
    requires lo <= hi
    ensures source[..Clip(lo, |source|)] + source[Clip(lo, |source|)..Clip(hi, |source|)] == source[..Clip(hi, |source|)]
  {
  }

  /** One more page is pageSize more elements. */
  lemma MulSucc(c: nat, p: int)
    requires c > 0
    ensures c * p == (c - 1) * p + p
  {
  }

  /** The intended pages tile the source: pages 1..count are its first count * pageSize elements. */
  lemma {:induction false} PagesTile<T>(source: seq<T>, count: nat, pageSize: int)
    requires pageSize > 0
    ensures FirstPages(source, count, pageSize) == source[..Clip(count * pageSize, |source|)]
  {
    if count > 0 {
      PagesTile(source, count - 1, pageSize);
      MulSucc(count, pageSize);
      PrefixThenSlice(source, (count - 1) * pageSize, (count - 1) * pageSize + pageSize);
    }
  }

  // ---------------------------------------------------------------------
  // Dictionaries.

  /** The ArgumentException of ToDictionary: a key that occurs twice. */
  datatype DictionaryError<K> = DuplicateKey(key: K)

  predicate DistinctKeys<S, K(==)>(source: seq<S>, key: S -> K)
  {
    forall i, j :: 0 <= i < j < |source| ==> key(source[i]) != key(source[j])
  }

  /** ToDictionary's loop: add each entry to acc, failing on the first key already present. */
  function ToDictionaryInto<S, K(==,!new), V>(source: seq<S>, key: S -> K, value: S -> V, acc: map<K, V>)
    : (r: Result<map<K, V>, DictionaryError<K>>)
    ensures r.Ok? <==> DistinctKeys(source, key) && forall i :: 0 <= i < |source| ==> key(source[i]) !in acc
    ensures r.Ok? ==> forall k :: k in r.value <==> k in acc || exists i :: 0 <= i < |source| && key(source[i]) == k
    ensures r.Ok? ==> forall i :: 0 <= i < |source| ==> r.value[key(source[i])] == value(source[i])
    ensures r.Ok? ==> forall k :: k in acc ==> r.value[k] == acc[k]
    ensures r.Err? ==>
      exists j :: (0 <= j < |source| && key(source[j]) == r.error.key
        && (r.error.key in acc || exists i :: 0 <= i < j && key(source[i]) == r.error.key))
    decreases |source|
  {
    if source == [] then Ok(acc)
    else
      var k := key(source[0]);
      assert forall i :: 1 <= i < |source| ==> source[i] == source[1..][i - 1];
      if k in acc then Err(DuplicateKey(k))
      else ToDictionaryInto(source[1..], key, value, acc[k := value(source[0])])
  }

  /** Enumerable.ToDictionary(keySelector, valueSelector). */
  function ToDictionary<S, K(==,!new), V>(source: seq<S>, key: S -> K, value: S -> V)
    : (r: Result<map<K, V>, DictionaryError<K>>)
    ensures r.Ok? <==> DistinctKeys(source, key)
    ensures r.Ok? ==> forall k :: k in r.value <==> exists i :: 0 <= i < |source| && key(source[i]) == k
    ensures r.Ok? ==> forall i :: 0 <= i < |source| ==> r.value[key(source[i])] == value(source[i])
    ensures r.Err? ==> exists i, j :: 0 <= i < j < |source| && key(source[i]) == key(source[j]) == r.error.key
  {
    ToDictionaryInto(source, key, value, map[])
  }

  /**
   * MergeDictionaries: the entries of both dictionaries, each given in
   * enumeration order, concatenated and collected with ToDictionary. It
   * fails exactly when a key is in both.
   */
  function MergeDictionaries<K(==,!new), V>(first: seq<(K, V)>, second: seq<(K, V)>)
    : (r: Result<map<K, V>, DictionaryError<K>>)
    requires DistinctKeys(first, (kv: (K, V)) => kv.0) && DistinctKeys(second, (kv: (K, V)) => kv.0)
    ensures r.Ok? <==> forall i, j :: 0 <= i < |first| && 0 <= j < |second| ==> first[i].0 != second[j].0
    ensures r.Ok? ==> forall i :: 0 <= i < |first| ==> first[i].0 in r.value && r.value[first[i].0] == first[i].1
    ensures r.Ok? ==> forall j :: 0 <= j < |second| ==> second[j].0 in r.value && r.value[second[j].0] == second[j].1
    ensures r.Ok? ==> forall k :: k in r.value ==>
      (exists i :: 0 <= i < |first| && first[i].0 == k) || (exists j :: 0 <= j < |second| && second[j].0 == k)
    ensures r.Err? ==>
      (exists i :: 0 <= i < |first| && first[i].0 == r.error.key) &&
      (exists j :: 0 <= j < |second| && second[j].0 == r.error.key)
  {
    var entries := first + second;
    var r := ToDictionary(entries, (kv: (K, V)) => kv.0, (kv: (K, V)) => kv.1);
    assert forall i :: 0 <= i < |first| ==> entries[i] == first[i];
    assert forall j :: 0 <= j < |second| ==> entries[|first| + j] == second[j];
    r
  }
}
