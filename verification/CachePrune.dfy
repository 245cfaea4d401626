/**
 * Pruning the SCons cache: delete the least recently used files until the cache is below a
 * fraction of its quota. Renaming and removing a file may fail at any attempt; which attempts fail
 * is given by arbitrary functions. Sizes are natural numbers, times and the ratio are reals.
 */
module CachePrune {
  import opened Common

  const GIGABYTE := 1024 * 1024 * 1024

  datatype CacheItem = CacheItem(path: string, time: real, size: nat)

  // ----- collecting

  datatype FileEntry = NestedDirectory | Readable(item: CacheItem) | Unreadable
  datatype TopEntry = PlainFile | Directory(files: seq<FileEntry>)

  function ItemsIn(files: seq<FileEntry>): seq<CacheItem> {
    if files == [] then [] else ItemsIn(Front(files)) + (if Last(files).Readable? then [Last(files).item] else [])
  }

  function ItemsOf(cache: seq<TopEntry>): seq<CacheItem> {
    if cache == [] then []
    else ItemsOf(Front(cache)) + (if Last(cache).Directory? then ItemsIn(Last(cache).files) else [])
  }

  function TotalSize(items: seq<CacheItem>): nat {
    if items == [] then 0 else TotalSize(Front(items)) + Last(items).size
  }

  method CollectCacheContents(cache: seq<TopEntry>) returns (total: nat, contents: seq<CacheItem>)
    ensures contents == ItemsOf(cache) && total == TotalSize(contents)
  {
    total, contents := 0, [];
    for i := 0 to |cache|
      invariant contents == ItemsOf(cache[..i]) && total == TotalSize(contents)
    {
      ghost var before := contents;
      assert Front(cache[..i + 1]) == cache[..i];
      if cache[i].Directory? {
        var files := cache[i].files;
        assert before + [] == before;
        for j := 0 to |files|
          invariant contents == before + ItemsIn(files[..j]) && total == TotalSize(contents)
        {
          assert Front(files[..j + 1]) == files[..j];
          if files[j].Readable? {
            var item := files[j].item;
            assert Front(contents + [item]) == contents;
            total := total + item.size;
            contents := contents + [item];
          }
        }
        assert files[..|files|] == files;
      }
    }
    assert cache[..|cache|] == cache;
  }

  // ----- sorting

  /** Behind every item that is at least as recent. */
  function Insert(sorted: seq<CacheItem>, item: CacheItem): seq<CacheItem> {
    if sorted == [] || Last(sorted).time >= item.time then sorted + [item]
    else Insert(Front(sorted), item) + [Last(sorted)]
  }

  /** The stable sort by time, most recent first. */
  function NewestFirst(items: seq<CacheItem>): seq<CacheItem> {
    if items == [] then [] else Insert(NewestFirst(Front(items)), Last(items))
  }

  predicate Descending(items: seq<CacheItem>) {
    forall i, j :: 0 <= i < j < |items| ==> items[i].time >= items[j].time
  }

  lemma {:induction false} InsertBag(sorted: seq<CacheItem>, item: CacheItem)
    ensures multiset(Insert(sorted, item)) == multiset(sorted) + multiset{item}
  {
    if sorted == [] || Last(sorted).time >= item.time {
      assert Insert(sorted, item) == sorted + [item];
    } else {
      InsertBag(Front(sorted), item);
      Snoc(sorted);
      assert Insert(sorted, item) == Insert(Front(sorted), item) + [Last(sorted)];
    }
  }

  lemma {:induction false} InsertSorts(sorted: seq<CacheItem>, item: CacheItem)
    requires Descending(sorted)
    ensures Descending(Insert(sorted, item))
  {
    if sorted == [] || Last(sorted).time >= item.time {
    } else {
      InsertSorts(Front(sorted), item);
      var inner := Insert(Front(sorted), item);
      forall i | 0 <= i < |inner| ensures inner[i].time >= Last(sorted).time {
        InsertBag(Front(sorted), item);
        assert inner[i] in multiset(inner);
        assert inner[i] == item || inner[i] in Front(sorted);
      }
    }
  }

  lemma {:induction false} NewestFirstSorts(items: seq<CacheItem>)
    ensures Descending(NewestFirst(items)) && multiset(NewestFirst(items)) == multiset(items)
  {
    if items == [] {
    } else {
      NewestFirstSorts(Front(items));
      InsertSorts(NewestFirst(Front(items)), Last(items));
      InsertBag(NewestFirst(Front(items)), Last(items));
      Snoc(items);
    }
  }

  lemma {:induction false} TotalConcat(a: seq<CacheItem>, b: seq<CacheItem>)
    ensures TotalSize(a + b) == TotalSize(a) + TotalSize(b)
  {
    if b == [] {
      assert a + b == a;
    } else {
      assert Front(a + b) == a + Front(b);
      TotalConcat(a, Front(b));
    }
  }

  lemma {:induction false} InsertTotal(sorted: seq<CacheItem>, item: CacheItem)
    ensures TotalSize(Insert(sorted, item)) == TotalSize(sorted) + item.size
  {
    if sorted == [] || Last(sorted).time >= item.time {
      assert Front(sorted + [item]) == sorted;
    } else {
      InsertTotal(Front(sorted), item);
      assert Front(Insert(Front(sorted), item) + [Last(sorted)]) == Insert(Front(sorted), item);
    }
  }

  lemma {:induction false} SortedTotal(items: seq<CacheItem>)
    ensures TotalSize(NewestFirst(items)) == TotalSize(items)
  {
    if items == [] {
    } else {
      SortedTotal(Front(items));
      InsertTotal(NewestFirst(Front(items)), Last(items));
    }
  }

  /** The items last used at the given time, in order. */
  function At(items: seq<CacheItem>, time: real): seq<CacheItem> {
    if items == [] then [] else At(Front(items), time) + (if Last(items).time == time then [Last(items)] else [])
  }

  lemma {:induction false} AtSnoc(items: seq<CacheItem>, item: CacheItem, time: real)
    ensures At(items + [item], time) == At(items, time) + (if item.time == time then [item] else [])
  {
    assert Front(items + [item]) == items;
  }

  lemma {:induction false} EitherOrder(s: seq<CacheItem>, a: seq<CacheItem>, b: seq<CacheItem>)
    requires a == [] || b == []
    ensures s + a + b == s + b + a
  {
  }

  lemma {:induction false} InsertStable(sorted: seq<CacheItem>, item: CacheItem, time: real)
    requires Descending(sorted)
    ensures At(Insert(sorted, item), time) == At(sorted, time) + (if item.time == time then [item] else [])
  {
    hide At;
    AtSnoc(sorted, item, time);
    if sorted == [] || Last(sorted).time >= item.time {
      assert Insert(sorted, item) == sorted + [item];
    } else {
      var init, inner := Front(sorted), Insert(Front(sorted), item);
      assert Insert(sorted, item) == inner + [Last(sorted)];
      InsertStable(init, item, time);
      AtSnoc(inner, Last(sorted), time);
      AtSnoc(init, Last(sorted), time);
      assert init + [Last(sorted)] == sorted;
      hide *;
      EitherOrder(At(init, time), if Last(sorted).time == time then [Last(sorted)] else [],
                  if item.time == time then [item] else []);
    }
  }

  /** Items used at the same time keep their order, so that the last one found goes first. */
  lemma {:induction false} SortIsStable(items: seq<CacheItem>, time: real)
    ensures At(NewestFirst(items), time) == At(items, time)
  {
    if items == [] {
    } else {
      SortIsStable(Front(items), time);
      NewestFirstSorts(Front(items));
      InsertStable(NewestFirst(Front(items)), Last(items), time);
    }
  }

  /** Of a directory the readable files are collected, in order; a plain file beside the directories is not. */
  lemma {:induction false} CollectedAre(a: seq<TopEntry>, files: seq<FileEntry>, f: FileEntry)
    ensures ItemsOf(a + [PlainFile]) == ItemsOf(a)
    ensures ItemsOf(a + [Directory(files)]) == ItemsOf(a) + ItemsIn(files)
    ensures ItemsIn(files + [f]) ==
            match f
            case Readable(item) => ItemsIn(files) + [item]
            case Unreadable => ItemsIn(files)
            case NestedDirectory => ItemsIn(files)
  {
    assert Front(a + [PlainFile]) == a && Front(a + [Directory(files)]) == a;
    assert Front(files + [f]) == files;
  }

  // ----- pruning

  /** Which attempts succeed. */
  type Succeeds = nat -> bool

  /** The first n items to go: the last n of the list, from the end. */
  function OldestFirst(newestFirst: seq<CacheItem>, n: nat): (order: seq<CacheItem>)
    requires n <= |newestFirst|
    ensures |order| == n && forall k :: 0 <= k < n ==> order[k] == newestFirst[|newestFirst| - 1 - k]
  {
    seq(n, k requires 0 <= k < n => newestFirst[|newestFirst| - 1 - k])
  }

  /** The items whose renaming and removal both succeeded. */
  function Deleted(tried: seq<CacheItem>, rename: Succeeds, remove: Succeeds): seq<CacheItem> {
    if tried == [] then []
    else
      Deleted(Front(tried), rename, remove) +
      (if rename(|tried| - 1) && remove(|tried| - 1) then [Last(tried)] else [])
  }

  /** The tracked size after the given attempts. */
  function Left(total: int, tried: seq<CacheItem>, rename: Succeeds, remove: Succeeds): int {
    total - TotalSize(Deleted(tried, rename, remove))
  }

  datatype Result = Result(ok: bool, tried: seq<CacheItem>, deleted: seq<CacheItem>, totalSize: int)

  /** The outcome of trimming an over-full cache down to below the target. */
  ghost predicate Pruned(r: Result, contents: seq<CacheItem>, target: real, rename: Succeeds, remove: Succeeds) {
    var total, sorted := TotalSize(contents), NewestFirst(contents);
    && |r.tried| <= |sorted| && r.tried == OldestFirst(sorted, |r.tried|)
    && r.deleted == Deleted(r.tried, rename, remove) && r.totalSize == total - TotalSize(r.deleted)
    && (forall k :: 0 <= k < |r.tried| ==> Left(total, r.tried[..k], rename, remove) as real >= target)
    && (r.ok ==> (r.totalSize as real) < target)
    && (!r.ok ==> |r.tried| == |sorted| && r.totalSize as real >= target)
  }

  ghost predicate Trimming(
    contents: seq<CacheItem>, sorted: seq<CacheItem>, tried: seq<CacheItem>, deleted: seq<CacheItem>,
    total: int, totalSize: int, target: real, rename: Succeeds, remove: Succeeds)
  {
    && |tried| <= |sorted| && contents == sorted[..|sorted| - |tried|] && tried == OldestFirst(sorted, |tried|)
    && deleted == Deleted(tried, rename, remove) && totalSize == total - TotalSize(deleted)
    && forall k :: 0 <= k < |tried| ==> Left(total, tried[..k], rename, remove) as real >= target
  }

  lemma {:induction false} DeletedSnoc(tried: seq<CacheItem>, item: CacheItem, rename: Succeeds, remove: Succeeds)
    ensures Deleted(tried + [item], rename, remove) ==
            Deleted(tried, rename, remove) + (if rename(|tried|) && remove(|tried|) then [item] else [])
  {
    assert Front(tried + [item]) == tried;
  }

  lemma {:induction false} SizeSnoc(items: seq<CacheItem>, item: CacheItem)
    ensures TotalSize(items + [item]) == TotalSize(items) + item.size && TotalSize(items + []) == TotalSize(items)
  {
    assert Front(items + [item]) == items && items + [] == items;
  }

  lemma {:induction false} LeftAfter(total: int, tried: seq<CacheItem>, rename: Succeeds, remove: Succeeds)
    ensures Left(total, tried, rename, remove) == total - TotalSize(Deleted(tried, rename, remove))
  {
  }

  /** One more item tried, while the size was still at or above the target. */
  lemma {:induction false} TrimStep(
    contents: seq<CacheItem>, sorted: seq<CacheItem>, tried: seq<CacheItem>, deleted: seq<CacheItem>,
    total: int, totalSize: int, target: real, rename: Succeeds, remove: Succeeds)
    requires Trimming(contents, sorted, tried, deleted, total, totalSize, target, rename, remove)
    requires contents != [] && totalSize as real >= target
    ensures var item, gone := Last(contents), rename(|tried|) && remove(|tried|);
            Trimming(Front(contents), sorted, tried + [item], if gone then deleted + [item] else deleted,
                     total, if gone then totalSize - item.size else totalSize, target, rename, remove)
  {
    hide Deleted; hide TotalSize; hide Left;
    var item := Last(contents);
    var more := tried + [item];
    DeletedSnoc(tried, item, rename, remove);
    SizeSnoc(deleted, item);
    LeftAfter(total, tried, rename, remove);
    assert item == sorted[|sorted| - 1 - |tried|];
    forall k | 0 <= k < |more| ensures Left(total, more[..k], rename, remove) as real >= target {
      assert more[..k] == tried[..k];
      if k == |tried| {
        assert tried[..k] == tried;
      }
    }
  }

  method PruneCache(cache: seq<TopEntry>, cacheSizeGb: int, cleanRatio: real, rename: Succeeds, remove: Succeeds)
    returns (r: Result)
    ensures var contents, quota := ItemsOf(cache), cacheSizeGb * 1073741824;
            if TotalSize(contents) < quota then r == Result(true, [], [], TotalSize(contents))
            else Pruned(r, contents, quota as real * cleanRatio, rename, remove)
  {
    hide NewestFirst; hide TotalSize; hide Deleted; hide ItemsOf; hide Left;
    var cacheSize := cacheSizeGb * GIGABYTE;
    var totalSize: int, contents := 0, [];
    totalSize, contents := CollectCacheContents(cache);
    ghost var total := totalSize;
    var tried: seq<CacheItem>, deleted: seq<CacheItem> := [], [];
    if totalSize >= cacheSize {
      contents := NewestFirst(contents);
      ghost var sorted := contents;
      TrimStart(sorted, total, cacheSize as real * cleanRatio, rename, remove);
      while totalSize as real >= cacheSize as real * cleanRatio
        invariant Trimming(contents, sorted, tried, deleted, total, totalSize, cacheSize as real * cleanRatio,
                           rename, remove)
        decreases |contents|
      {
        if contents == [] {
          return Result(false, tried, deleted, totalSize);
        }
        TrimStep(contents, sorted, tried, deleted, total, totalSize, cacheSize as real * cleanRatio, rename, remove);
        var item, attempt := Last(contents), |tried|;
        contents, tried := Front(contents), tried + [item];
        if rename(attempt) {
          if remove(attempt) {
            deleted := deleted + [item];
            totalSize := totalSize - item.size;
          }
        }
      }
    }
    return Result(true, tried, deleted, totalSize);
  }

  lemma {:induction false} TrimStart(
    sorted: seq<CacheItem>, total: int, target: real, rename: Succeeds, remove: Succeeds)
    ensures Trimming(sorted, sorted, [], [], total, total, target, rename, remove)
  {
  }

  // ----- what the result means

  /** The items go oldest first: the order is the contents, least recently used first. */
  lemma {:induction false} TriedOldestFirst(contents: seq<CacheItem>)
    ensures var order := OldestFirst(NewestFirst(contents), |NewestFirst(contents)|);
            multiset(order) == multiset(contents)
            && forall i, j :: 0 <= i < j < |order| ==> order[i].time <= order[j].time
  {
    hide NewestFirst;
    NewestFirstSorts(contents);
    ReversedBag(NewestFirst(contents));
  }

  lemma {:induction false} ReversedBag(s: seq<CacheItem>)
    ensures multiset(OldestFirst(s, |s|)) == multiset(s)
  {
    if s == [] {
    } else {
      ReversedBag(Front(s));
      Snoc(s);
      assert OldestFirst(s, |s|) == [Last(s)] + OldestFirst(Front(s), |Front(s)|);
    }
  }

  /** Without failures everything tried is deleted. */
  lemma {:induction false} AllDeleted(tried: seq<CacheItem>, rename: Succeeds, remove: Succeeds)
    requires forall k :: rename(k) && remove(k)
    ensures Deleted(tried, rename, remove) == tried
  {
    if tried == [] {
    } else {
      AllDeleted(Front(tried), rename, remove);
      Snoc(tried);
    }
  }

  lemma {:induction false} TotalOfAll(s: seq<CacheItem>)
    ensures TotalSize(OldestFirst(s, |s|)) == TotalSize(s)
  {
    if s == [] {
    } else {
      TotalOfAll(Front(s));
      assert OldestFirst(s, |s|) == [Last(s)] + OldestFirst(Front(s), |Front(s)|);
      TotalConcat([Last(s)], OldestFirst(Front(s), |Front(s)|));
      assert Front([Last(s)]) == [];
    }
  }

  /**
   * Without failures the deleted items are the shortest oldest-first prefix that brings the cache
   * below the target, and pruning succeeds exactly when the target is positive.
   */
  lemma {:induction false} PrunesShortestPrefix(
    r: Result, contents: seq<CacheItem>, target: real, rename: Succeeds, remove: Succeeds)
    requires Pruned(r, contents, target, rename, remove) && forall k :: rename(k) && remove(k)
    ensures r.deleted == r.tried
    ensures forall k :: 0 <= k < |r.tried| ==> (TotalSize(contents) - TotalSize(r.tried[..k])) as real >= target
    ensures r.ok <==> target > 0.0
  {
    hide NewestFirst; hide TotalSize; hide Deleted;
    AllDeleted(r.tried, rename, remove);
    forall k | 0 <= k < |r.tried|
      ensures (TotalSize(contents) - TotalSize(r.tried[..k])) as real >= target
    {
      AllDeleted(r.tried[..k], rename, remove);
      assert Left(TotalSize(contents), r.tried[..k], rename, remove) as real >= target;
    }
    SortedTotal(contents);
    TotalOfAll(NewestFirst(contents));
    PrefixTotal(NewestFirst(contents), |r.tried|);
  }

  lemma {:induction false} PrefixTotal(s: seq<CacheItem>, n: nat)
    requires n <= |s|
    ensures TotalSize(OldestFirst(s, n)) <= TotalSize(OldestFirst(s, |s|))
  {
    var whole, part := OldestFirst(s, |s|), OldestFirst(s, n);
    assert whole == part + whole[n..];
    TotalConcat(part, whole[n..]);
  }
}
