/** Reading a remote file through its cache layers: an in-memory list of recent blocks, a zone where
    prefetched spans land, a disk cache of spans, and the network (httpfs/src/httpfs.cpp, block_cache.cpp,
    cached_file_manager.cpp). A range request returns exactly the requested bytes or fails. */
module RemoteRead {
  import opened Basics

  /** The buffer offset of a read is a signed 32-bit number. */
  const LIMIT31: nat := 0x8000_0000

  /** Zero options are replaced by defaults when the configuration is built. */
  datatype Config = Config(readBufferSize: nat, metadataReadBufferSize: nat, readCacheBlocks: nat, prefetchDepth: nat) {
    predicate Valid() { readBufferSize > 0 && metadataReadBufferSize > 0 && readCacheBlocks > 0 }
  }

  datatype Span = Span(offset: nat, length: nat)

  /** The bytes of a span. */
  function Slice(remote: seq<Byte>, offset: nat, length: nat): (s: seq<Byte>)
    requires offset + length <= |remote|
    ensures |s| == length
  {
    remote[offset..offset + length]
  }

  ghost predicate Exact(remote: seq<Byte>, offset: nat, data: seq<Byte>) {
    offset + |data| <= |remote| && data == Slice(remote, offset, |data|)
  }

  /** A range request of a prefetch worker. */
  method GetRange(remote: seq<Byte>, offset: nat, length: nat) returns (r: Option<seq<Byte>>)
    requires offset + length <= |remote|
    ensures r.Some? ==> r.value == Slice(remote, offset, length)
  {
    if * {
      r := Some(Slice(remote, offset, length));
    } else {
      r := None;
    }
  }

  /** The connection of a file: which of its requests are answered is the network's business. */
  class Link {
    const answers: nat -> bool
    var asked: seq<Span>

    constructor (answers: nat -> bool)
      ensures this.answers == answers && asked == []
    {
      this.answers, asked := answers, [];
    }

    /** Requests from number first on were all answered. */
    ghost predicate AllAnswered(first: nat)
      reads this
    {
      forall i :: first <= i < |asked| ==> answers(i)
    }

    /** A range request: the bytes, unless it is one the network does not answer. */
    method GetRange(remote: seq<Byte>, span: Span) returns (r: Option<seq<Byte>>)
      requires span.offset + span.length <= |remote|
      modifies this
      ensures asked == old(asked) + [span]
      ensures r == if answers(|old(asked)|) then Some(Slice(remote, span.offset, span.length)) else None
    {
      var number := |asked|;
      asked := asked + [span];
      r := if answers(number) then Some(Slice(remote, span.offset, span.length)) else None;
    }
  }

  // ------------------------------------------------------------------ prefetch zone

  datatype Ready = Ready(payload: seq<Byte>, consumeCount: nat)

  const MAX_READY_ENTRIES: nat := 64

  class PrefetchZone {
    /** Which submissions the thread pool takes. */
    const accepts: Span -> bool
    var ready: map<Span, Ready>
    var inflight: set<Span>

    /** Ready spans hold the remote bytes, spans under way lie in the file, and the window is bounded. */
    ghost predicate Valid(remote: seq<Byte>)
      reads this
    {
      |ready| <= MAX_READY_ENTRIES && ReadyOk(remote, ready) && Inside(remote, inflight)
    }

    constructor (ghost remote: seq<Byte>, accepts: Span -> bool)
      ensures Valid(remote) && ready == map[] && inflight == {} && this.accepts == accepts
    {
      this.accepts, ready, inflight := accepts, map[], {};
    }

    /** A worker finishes a span, with its bytes or without. A full zone makes room by dropping a span that
        was used before, or else drops the new one. */
    method Complete(remote: seq<Byte>, key: Span, response: Option<seq<Byte>>)
      requires Valid(remote) && key in inflight
      requires response.Some? && |response.value| == key.length ==> Exact(remote, key.offset, response.value)
      modifies this
      ensures Valid(remote) && inflight == old(inflight) - {key}
      ensures KeepsUnused(old(ready), ready, key)
      ensures if response.Some? && |response.value| == key.length && HasRoom(old(ready))
              then key in ready && ready[key] == Ready(response.value, 0) else ready == old(ready)
    {
      hide Exact, ReadyOk, KeepsUnused;
      KeepsAll(ready, key);
      inflight := inflight - {key};
      if response.Some? && |response.value| == key.length {
        var entry := Ready(response.value, 0);
        if |ready| < MAX_READY_ENTRIES {
          AddReady(remote, ready, ready, key, entry);
          ready := ready[key := entry];
        } else if k :| k in ready && ready[k].consumeCount > 0 {
          DropReady(remote, ready, key, k);
          AddReady(remote, ready, ready - {k}, key, entry);
          ready := (ready - {k})[key := entry];
        }
      }
    }

    /** Queues the blocks that follow, inside the file, unless they are here or under way or the pool refuses them. */
    method SubmitPrefetch(remote: seq<Byte>, nextOffset: nat, blockSize: nat, depth: nat)
      requires Valid(remote)
      modifies this`inflight
      ensures Valid(remote)
      ensures forall k: Span :: k in inflight <==>
                k in old(inflight) || (k !in ready && accepts(k) && k in NextBlocks(|remote|, nextOffset, blockSize, depth))
    {
      hide Exact, ReadyOk;
      var queued := inflight;
      if blockSize > 0 {
        for i := 0 to depth
          invariant Inside(remote, queued)
          invariant forall k: Span :: k in queued <==>
                      k in inflight || (k !in ready && accepts(k) && k in NextBlocks(|remote|, nextOffset, blockSize, i))
        {
          var start := BlockAfter(nextOffset, i, blockSize);
          if start >= |remote| {
            NothingFollows(|remote|, nextOffset, blockSize, i, depth);
            break;
          }
          var key := Span(start, Min(blockSize, |remote| - start));
          assert NextBlocks(|remote|, nextOffset, blockSize, i + 1) == NextBlocks(|remote|, nextOffset, blockSize, i) + {key};
          if key !in queued && key !in ready {
            if accepts(key) {
              queued := queued + {key};
            }
          }
        }
      }
      inflight := queued;
    }

    /** Whatever the workers do meanwhile. */
    method OtherThreads(remote: seq<Byte>)
      requires Valid(remote)
      modifies this
      ensures Valid(remote) && forall k :: Unused(old(ready), k) ==> Unused(ready, k)
    {
      hide ReadyOk, HasRoom;
      while inflight != {}
        invariant Valid(remote) && forall k :: Unused(old(ready), k) ==> Unused(ready, k)
        decreases |inflight|
      {
        if * {
          break;
        }
        var key :| key in inflight;
        var response := GetRange(remote, key.offset, key.length);
        ghost var before := ready;
        Complete(remote, key, response);
        assert forall k :: Unused(before, k) ==> Unused(ready, k);
      }
    }

    /** Takes a copy of a ready span. */
    method Take(remote: seq<Byte>, key: Span) returns (payload: Option<seq<Byte>>)
      requires Valid(remote)
      modifies this`ready
      ensures Valid(remote)
      ensures payload.Some? <==> key in old(ready)
      ensures payload.Some? ==> |payload.value| == key.length && Exact(remote, key.offset, payload.value)
    {
      payload := None;
      if key in ready {
        var e := ready[key];
        payload := Some(e.payload);
        AddOne(ready, key, e.(consumeCount := e.consumeCount + 1));
        ready := ready[key := e.(consumeCount := e.consumeCount + 1)];
      }
    }
  }

  function BlockAfter(nextOffset: nat, i: nat, blockSize: nat): nat { nextOffset + i * blockSize }

  /** The block i places on, in a file of the given length. */
  function Following(length: nat, nextOffset: nat, blockSize: nat, i: nat): Span {
    var start := BlockAfter(nextOffset, i, blockSize);
    if start < length then Span(start, Min(blockSize, length - start)) else Span(start, 0)
  }

  /** The next blocks that start inside the file. */
  ghost function NextBlocks(length: nat, nextOffset: nat, blockSize: nat, depth: nat): set<Span> {
    if blockSize == 0 then {}
    else set i | 0 <= i < depth && BlockAfter(nextOffset, i, blockSize) < length :: Following(length, nextOffset, blockSize, i)
  }

  /** Past the end nothing follows. */
  lemma NothingFollows(length: nat, nextOffset: nat, blockSize: nat, i: nat, depth: nat)
    requires i <= depth && BlockAfter(nextOffset, i, blockSize) >= length
    ensures NextBlocks(length, nextOffset, blockSize, depth) == NextBlocks(length, nextOffset, blockSize, i)
  {
    forall j: nat | i <= j
      ensures BlockAfter(nextOffset, j, blockSize) >= length
    {
      FollowsLater(nextOffset, blockSize, i, j);
    }
  }

  lemma FollowsLater(nextOffset: nat, blockSize: nat, i: nat, j: nat)
    requires i <= j
    ensures BlockAfter(nextOffset, i, blockSize) <= BlockAfter(nextOffset, j, blockSize)
  {
    assert j * blockSize == i * blockSize + (j - i) * blockSize;
  }

  ghost predicate ReadyOk(remote: seq<Byte>, ready: map<Span, Ready>) {
    forall k :: k in ready ==> |ready[k].payload| == k.length && Exact(remote, k.offset, ready[k].payload)
  }

  ghost predicate Inside(remote: seq<Byte>, spans: set<Span>) {
    forall k :: k in spans ==> k.offset + k.length <= |remote|
  }

  /** There is a free place, or a span that may be dropped for one. */
  ghost predicate HasRoom(ready: map<Span, Ready>) {
    |ready| < MAX_READY_ENTRIES || exists k :: k in ready && ready[k].consumeCount > 0
  }

  ghost predicate Unused(ready: map<Span, Ready>, k: Span) {
    k in ready && ready[k].consumeCount == 0
  }

  /** Nothing but the key is new, and nothing unused is lost. */
  ghost predicate KeepsUnused(before: map<Span, Ready>, after: map<Span, Ready>, key: Span) {
    && (forall k :: k in after && k != key ==> k in before && after[k] == before[k])
    && (forall k :: k in before && before[k].consumeCount == 0 && k != key ==> k in after)
  }

  lemma KeepsAll(ready: map<Span, Ready>, key: Span)
    ensures KeepsUnused(ready, ready, key)
  {
  }

  lemma AddReady(remote: seq<Byte>, before: map<Span, Ready>, ready: map<Span, Ready>, key: Span, e: Ready)
    requires ReadyOk(remote, ready) && KeepsUnused(before, ready, key) && |e.payload| == key.length && Exact(remote, key.offset, e.payload)
    requires |ready| < MAX_READY_ENTRIES
    ensures ReadyOk(remote, ready[key := e]) && KeepsUnused(before, ready[key := e], key) && |ready[key := e]| <= MAX_READY_ENTRIES
  {
    hide Exact;
    AddOne(ready, key, e);
  }

  lemma DropReady(remote: seq<Byte>, ready: map<Span, Ready>, key: Span, k: Span)
    requires ReadyOk(remote, ready) && k in ready && ready[k].consumeCount > 0 && |ready| <= MAX_READY_ENTRIES
    ensures ReadyOk(remote, ready - {k}) && KeepsUnused(ready, ready - {k}, key) && |ready - {k}| < MAX_READY_ENTRIES
  {
    hide Exact;
    RemoveOne(ready, k);
  }

  lemma RemoveOne<K, V>(m: map<K, V>, k: K)
    requires k in m
    ensures |m - {k}| == |m| - 1
  {
    assert (m - {k}).Keys == m.Keys - {k};
    assert |m.Keys| == |m| && |(m - {k}).Keys| == |m - {k}|;
  }

  lemma AddOne<K, V>(m: map<K, V>, k: K, v: V)
    ensures |m[k := v]| == if k in m then |m| else |m| + 1
  {
    assert m[k := v].Keys == m.Keys + {k};
    assert |m.Keys| == |m| && |m[k := v].Keys| == |m[k := v]|;
  }

  // ------------------------------------------------------------------ disk cache

  datatype Key = Key(url: string, offset: nat, length: nat)

  type Files = map<Key, seq<Byte>>
  type Ages = map<Key, int>

  ghost predicate Distinct(order: seq<Key>) {
    forall i, j :: 0 <= i < j < |order| ==> order[i] != order[j]
  }

  /** All files, the least recently modified first. */
  ghost predicate ByAge(order: seq<Key>, keys: set<Key>, ages: Ages) {
    && Distinct(order) && (forall k :: k in order <==> k in keys) && keys <= ages.Keys
    && (forall i, j :: 0 <= i < j < |order| ==> order[i] in keys && order[j] in keys && ages[order[i]] <= ages[order[j]])
  }

  function SizeOf(order: seq<Key>, files: Files): nat {
    if order == [] then 0 else (if order[0] in files then |files[order[0]]| else 0) + SizeOf(order[1..], files)
  }

  /** What stays is the longest run of most recent files that fits the budget; no budget means no limit. */
  ghost predicate Pruned(before: Files, ages: Ages, after: Files, budget: nat) {
    exists order: seq<Key>, n: nat :: PrunedAt(before, ages, after, budget, order, n)
  }

  ghost predicate PrunedAt(before: Files, ages: Ages, after: Files, budget: nat, order: seq<Key>, n: nat) {
    && ByAge(order, before.Keys, ages) && n <= |order| && after == before - Elements(order[..n])
    && (budget == 0 ==> n == 0) && (budget > 0 ==> SizeOf(order[n..], before) <= budget)
    && (n > 0 ==> SizeOf(order[n - 1..], before) > budget)
  }

  ghost function Elements(order: seq<Key>): set<Key> {
    set k | k in order
  }

  /** Element x of a list with k inserted at i. */
  function InsertedAt(order: seq<Key>, i: nat, k: Key, x: nat): Key
    requires i <= |order| && x <= |order|
  {
    if x < i then order[x] else if x == i then k else order[x - 1]
  }

  lemma InsertedIs(order: seq<Key>, i: nat, k: Key)
    requires i <= |order|
    ensures var all := order[..i] + [k] + order[i..];
            && |all| == |order| + 1 && (forall x :: 0 <= x < |all| ==> all[x] == InsertedAt(order, i, k, x))
            && (forall e :: e in all <==> e == k || e in order)
  {
    assert order == order[..i] + order[i..];
  }

  lemma InsertByAge(order: seq<Key>, keys: set<Key>, ages: Ages, i: nat, k: Key)
    requires ByAge(order, keys, ages) && k !in keys && k in ages && i <= |order|
    requires (forall x :: 0 <= x < i ==> order[x] in ages && ages[order[x]] <= ages[k]) && (i < |order| ==> order[i] in ages && ages[k] <= ages[order[i]])
    ensures ByAge(order[..i] + [k] + order[i..], keys + {k}, ages)
  {
    var all := order[..i] + [k] + order[i..];
    InsertedIs(order, i, k);
    hide InsertedAt;
    forall x, y | 0 <= x < y < |all|
      ensures all[x] != all[y] && all[x] in keys + {k} && all[y] in keys + {k} && ages[all[x]] <= ages[all[y]]
    {
      InsertedPair(order, keys, ages, i, k, x, y);
    }
  }

  lemma InsertedPair(order: seq<Key>, keys: set<Key>, ages: Ages, i: nat, k: Key, x: nat, y: nat)
    requires ByAge(order, keys, ages) && k !in keys && k in ages && i <= |order| && x < y <= |order|
    requires (forall x :: 0 <= x < i ==> order[x] in ages && ages[order[x]] <= ages[k]) && (i < |order| ==> order[i] in ages && ages[k] <= ages[order[i]])
    ensures var a, b := InsertedAt(order, i, k, x), InsertedAt(order, i, k, y);
            a != b && a in keys + {k} && b in keys + {k} && ages[a] <= ages[b]
  {
    if x == i && y > i + 1 {
      assert ages[order[i]] <= ages[order[y - 1]];
    }
  }

  const PRUNE_EVERY: nat := 0x800_0000

  /** One file per span of a URL, with its modification time. Which files can be read and written is the disk's
      business. */
  class BlockCache {
    const budget: nat
    const readable: Key -> bool
    const writable: Key -> bool
    var files: Files
    var ages: Ages
    var bytesSincePrune: nat

    /** Files hold the bytes of the span they are named after. */
    ghost predicate Valid(contents: map<string, seq<Byte>>)
      reads this
    {
      ages.Keys == files.Keys && FilesOk(contents, files)
    }

    constructor (budget: nat, readable: Key -> bool, writable: Key -> bool)
      ensures this.budget == budget && this.readable == readable && this.writable == writable && files == map[] && ages == map[]
    {
      this.budget, this.readable, this.writable := budget, readable, writable;
      files, ages, bytesSincePrune := map[], map[], 0;
    }

    /** A hit is exactly the remote slice the key names; it makes the file the most recent one. */
    method Get(ghost contents: map<string, seq<Byte>>, key: Key, now: int) returns (r: Option<seq<Byte>>)
      requires Valid(contents)
      modifies this`ages
      ensures Valid(contents)
      ensures r.Some? <==> key in files && readable(key)
      ensures r.Some? ==> key.url in contents && key.offset + key.length <= |contents[key.url]|
      ensures r.Some? ==> r.value == Slice(contents[key.url], key.offset, key.length) && ages == old(ages)[key := now]
      ensures r.None? ==> ages == old(ages)
    {
      r := None;
      if key in files && |files[key]| == key.length && readable(key) {
        r := Some(files[key]);
        ages := ages[key := now];
      }
    }

    /** Stores a span unless it is there already or cannot be written; after enough bytes it prunes. */
    method Put(ghost contents: map<string, seq<Byte>>, key: Key, data: seq<Byte>, now: int)
      requires Valid(contents) && key.url in contents && 0 < |data| == key.length && Exact(contents[key.url], key.offset, data)
      modifies this
      ensures Valid(contents)
      ensures StoredIn(old(files), old(ages), old(bytesSincePrune), files, key, data, now)
    {
      hide Pruned;
      if key in files || !writable(key) {
        return;
      }
      StoreKeeps(contents, files, key, data);
      files, ages := files[key := data], ages[key := now];
      var due := bytesSincePrune > PRUNE_EVERY;
      bytesSincePrune := bytesSincePrune + key.length;
      if due {
        ghost var before := files;
        Prune();
        PruneKeeps(contents, before, old(ages)[key := now], files, budget);
      }
    }

    /** The files after a span was to be stored. */
    ghost predicate StoredIn(before: Files, ages: Ages, since: nat, after: Files, key: Key, data: seq<Byte>, now: int)
    {
      if key in before || !writable(key) then after == before
      else if since > PRUNE_EVERY then Pruned(before[key := data], ages[key := now], after, budget)
      else after == before[key := data]
    }

    /** Lists the files by modification time. */
    method ListByAge() returns (order: seq<Key>)
      requires ages.Keys == files.Keys
      ensures ByAge(order, files.Keys, ages)
    {
      hide ByAge;
      order := [];
      var todo := files.Keys;
      ghost var done: set<Key> := {};
      assert ByAge([], {}, ages) by { NoFiles(ages); }
      while todo != {}
        invariant done + todo == files.Keys && done !! todo && ByAge(order, done, ages)
        decreases |todo|
      {
        var k :| k in todo;
        var i := Place(order, done, ages, k);
        InsertByAge(order, done, ages, i, k);
        order := order[..i] + [k] + order[i..];
        todo, done := todo - {k}, done + {k};
      }
      assert done == files.Keys;
    }

    /** Removes the least recently modified files until the rest fits the budget. */
    method Prune()
      requires ages.Keys == files.Keys && forall k :: k in files ==> |files[k]| > 0
      modifies this
      ensures ages.Keys == files.Keys && Pruned(old(files), old(ages), files, budget)
    {
      hide ByAge;
      bytesSincePrune := 0;
      var order := ListByAge();
      ghost var before := files;
      assert order[..0] == [] && order[0..] == order && before - Elements([]) == before;
      if budget == 0 {
        assert PrunedAt(before, old(ages), files, budget, order, 0);
        return;
      }
      var total, i := SizeOf(order, files), 0;
      while i < |order| && total > budget
        invariant 0 <= i <= |order| && ages.Keys == files.Keys && files == before - Elements(order[..i])
        invariant total == SizeOf(order[i..], before) || i == |order|
        invariant i > 0 ==> SizeOf(order[i - 1..], before) > budget
      {
        var k := order[i];
        RemoveNext(before, old(ages), order, i);
        var removed := |files[k]|;
        files, ages := files - {k}, ages - {k};
        if removed < total {
          total := total - removed;
        }
        i := i + 1;
      }
      assert order[|order|..] == [];
      assert PrunedAt(before, old(ages), files, budget, order, i);
    }
  }

  ghost predicate FilesOk(contents: map<string, seq<Byte>>, files: Files) {
    forall k :: k in files ==> k.url in contents && 0 < k.length == |files[k]| && Exact(contents[k.url], k.offset, files[k])
  }

  lemma StoreKeeps(contents: map<string, seq<Byte>>, files: Files, key: Key, data: seq<Byte>)
    requires FilesOk(contents, files) && key.url in contents && 0 < key.length == |data| && Exact(contents[key.url], key.offset, data)
    ensures FilesOk(contents, files[key := data])
  {
    hide Exact;
  }

  lemma PruneKeeps(contents: map<string, seq<Byte>>, before: Files, ages: Ages, after: Files, budget: nat)
    requires FilesOk(contents, before) && Pruned(before, ages, after, budget)
    ensures FilesOk(contents, after) && forall k :: k in after ==> k in before && after[k] == before[k]
  {
    hide Exact, ByAge;
    var order, n :| PrunedAt(before, ages, after, budget, order, n);
  }

  lemma NoFiles(ages: Ages)
    ensures ByAge([], {}, ages)
  {
  }

  /** Where a file belongs in the list. */
  method Place(order: seq<Key>, ghost keys: set<Key>, ages: Ages, k: Key) returns (i: nat)
    requires ByAge(order, keys, ages) && k in ages
    ensures i <= |order| && (forall x :: 0 <= x < i ==> order[x] in ages && ages[order[x]] <= ages[k])
    ensures i < |order| ==> order[i] in ages && ages[k] <= ages[order[i]]
  {
    i := 0;
    while i < |order| && ages[order[i]] <= ages[k]
      invariant 0 <= i <= |order| && forall x :: 0 <= x < i ==> order[x] in ages && ages[order[x]] <= ages[k]
    {
      i := i + 1;
    }
  }

  /** The next file is still there, and removing it shortens the rest by its size. */
  lemma RemoveNext(before: Files, ages: Ages, order: seq<Key>, i: nat)
    requires ByAge(order, before.Keys, ages) && i < |order| && forall k :: k in before ==> |before[k]| > 0
    ensures var k := order[i];
            && k in before && k !in Elements(order[..i]) && Elements(order[..i + 1]) == Elements(order[..i]) + {k}
            && SizeOf(order[i..], before) == |before[k]| + SizeOf(order[i + 1..], before)
            && (SizeOf(order[i + 1..], before) == 0 ==> i + 1 == |order|)
  {
    var k := order[i];
    assert order[i..][1..] == order[i + 1..];
    assert order[..i + 1] == order[..i] + [k];
    var rest := order[i + 1..];
    assert rest != [] ==> rest[0] == order[i + 1] && rest[0] in before;
  }

  // ------------------------------------------------------------------ the file

  datatype Block = Block(offset: nat, data: seq<Byte>)

  predicate Covers(b: Block, pos: nat) { b.offset <= pos < b.offset + |b.data| }

  ghost predicate CacheOk(remote: seq<Byte>, cache: seq<Block>) {
    forall i :: 0 <= i < |cache| ==> Exact(remote, cache[i].offset, cache[i].data)
  }

  class HTTPFile {
    const url: string
    const remote: seq<Byte>
    const config: Config
    const link: Link
    var fileOffset: nat
    var readCache: seq<Block>

    /** Cached blocks hold the remote bytes, and no more blocks are kept than configured. */
    ghost predicate Valid()
      reads this
    {
      config.Valid() && CacheOk(remote, readCache) && |readCache| <= config.readCacheBlocks
    }

    constructor (url: string, remote: seq<Byte>, config: Config, link: Link)
      requires config.Valid()
      ensures Valid() && fileOffset == 0 && this.url == url && this.remote == remote && this.config == config && this.link == link
    {
      this.url, this.remote, this.config, this.link := url, remote, config, link;
      fileOffset, readCache := 0, [];
    }

    /** Finds the first block that covers pos and moves it to the front. */
    method LookupCachedBlock(pos: nat) returns (hit: bool)
      requires Valid()
      modifies this`readCache
      ensures Valid() && multiset(readCache) == multiset(old(readCache))
      ensures hit <==> exists i :: 0 <= i < |old(readCache)| && Covers(old(readCache)[i], pos)
      ensures if hit then readCache != [] && Covers(readCache[0], pos) else readCache == old(readCache)
    {
      for i := 0 to |readCache|
        invariant readCache == old(readCache) && forall j :: 0 <= j < i ==> !Covers(readCache[j], pos)
      {
        if Covers(readCache[i], pos) {
          var block := readCache[i];
          assert readCache == readCache[..i] + [block] + readCache[i + 1..];
          readCache := [block] + readCache[..i] + readCache[i + 1..];
          return true;
        }
      }
      return false;
    }

    /** Puts a block in front and drops blocks from the back. */
    method CacheBlock(offset: nat, data: seq<Byte>)
      requires Valid() && Exact(remote, offset, data)
      modifies this`readCache
      ensures Valid() && readCache != [] && readCache[0] == Block(offset, data)
      ensures readCache == ([Block(offset, data)] + old(readCache))[..Min(|old(readCache)| + 1, config.readCacheBlocks)]
    {
      var cache := [Block(offset, data)] + readCache;
      ghost var all := cache;
      while |cache| > config.readCacheBlocks
        invariant config.readCacheBlocks <= |cache| <= |all| || cache == all
        invariant cache == all[..|cache|] && |cache| <= |all|
      {
        cache := cache[..|cache| - 1];
      }
      readCache := cache;
    }

    /** Copies what the front block has of the request. */
    method ServeFromFront(buffer: array<Byte>, at: nat, pos: nat, remaining: nat) returns (served: nat)
      requires Valid() && readCache != [] && Covers(readCache[0], pos)
      requires at + remaining <= buffer.Length && remaining > 0
      modifies buffer
      ensures 0 < served <= remaining && pos + served <= |remote|
      ensures buffer[..] == Placed(old(buffer[..]), at, Slice(remote, pos, served))
    {
      var block := readCache[0];
      var spanOffset := pos - block.offset;
      served := Min(|block.data| - spanOffset, remaining);
      for i := 0 to served
        invariant forall j :: 0 <= j < buffer.Length ==>
                    buffer[j] == if at <= j < at + i then remote[pos + j - at] else old(buffer[j])
      {
        buffer[at + i] := block.data[spanOffset + i];
      }
      assert buffer[..] == Placed(old(buffer[..]), at, Slice(remote, pos, served));
    }

    /** Looks in the zone and on disk. */
    method FromCaches(zone: PrefetchZone?, disk: BlockCache?, ghost contents: map<string, seq<Byte>>, span: Span)
      returns (r: Option<seq<Byte>>)
      requires LayersOk(zone, disk, contents)
      modifies zone, disk
      ensures LayersOk(zone, disk, contents)
      ensures r.Some? ==> |r.value| == span.length && Exact(remote, span.offset, r.value)
      ensures old(Cached(zone, disk, span)) ==> r.Some?
      ensures zone == null && disk == null ==> r.None?
    {
      hide FilesOk, ReadyOk;
      r := None;
      if zone != null {
        zone.OtherThreads(remote);
        var payload := zone.Take(remote, span);
        if payload.Some? && |payload.value| == span.length {
          return payload;
        }
      }
      if disk != null {
        var now: int := *;
        r := disk.Get(contents, Key(url, span.offset, span.length), now);
      }
    }

    /** Asks the network for the span, stores the answer on disk, and starts prefetching what follows. */
    method FromNetwork(zone: PrefetchZone?, disk: BlockCache?, ghost contents: map<string, seq<Byte>>, span: Span, blockSize: nat)
      returns (r: Option<seq<Byte>>)
      requires 0 < span.length && span.offset + span.length <= |remote| && LayersOk(zone, disk, contents)
      modifies zone, disk, link
      ensures LayersOk(zone, disk, contents)
      ensures r.Some? ==> |r.value| == span.length && Exact(remote, span.offset, r.value)
      ensures link.asked == old(link.asked) + [span] && (r.Some? <==> link.answers(|old(link.asked)|))
      ensures r.Some? && disk != null ==> exists now: int ::
                disk.StoredIn(old(disk.files), old(disk.ages), old(disk.bytesSincePrune), disk.files, Key(url, span.offset, span.length), r.value, now)
    {
      hide FilesOk, ReadyOk;
      r := link.GetRange(remote, span);
      if r.Some? && disk != null {
        var now: int := *;
        disk.Put(contents, Key(url, span.offset, span.length), r.value, now);
      }
      if r.Some? && zone != null {
        zone.SubmitPrefetch(remote, span.offset + span.length, blockSize, config.prefetchDepth);
      }
    }

    /** Brings the given block to the front of the cache: from the zone, from disk, or from the network.
        It fails exactly if the network is asked for the span and does not answer. */
    method FetchSpan(zone: PrefetchZone?, disk: BlockCache?, ghost contents: map<string, seq<Byte>>, span: Span, blockSize: nat)
      returns (ok: bool)
      requires Valid() && 0 < span.length && span.offset + span.length <= |remote| && LayersOk(zone, disk, contents)
      modifies this`readCache, zone, disk, link
      ensures Valid() && LayersOk(zone, disk, contents)
      ensures ok ==> readCache != [] && readCache[0] == Block(span.offset, Slice(remote, span.offset, span.length))
      ensures !ok ==> readCache == old(readCache)
      ensures link.asked in {old(link.asked), old(link.asked) + [span]}
      ensures ok <==> link.asked == old(link.asked) || link.answers(|old(link.asked)|)
      ensures old(Cached(zone, disk, span)) ==> link.asked == old(link.asked)
      ensures zone == null && disk == null ==> link.asked == old(link.asked) + [span]
    {
      hide CacheOk, Exact, FilesOk, ReadyOk;
      var data := FromCaches(zone, disk, contents, span);
      if data.None? {
        data := FromNetwork(zone, disk, contents, span, blockSize);
      }
      if data.None? {
        return false;
      }
      ExactIs(remote, span.offset, data.value);
      CacheBlock(span.offset, data.value);
      return true;
    }

    /** One turn of the read loop: serves a part of the request, fetches a block, gives up because the block
        would start past the end, or fails. */
    method Turn(zone: PrefetchZone?, disk: BlockCache?, ghost contents: map<string, seq<Byte>>, buffer: array<Byte>, at: nat,
                pos: nat, remaining: nat) returns (move: Move)
      requires Valid() && 0 < remaining && at + remaining <= buffer.Length && LayersOk(zone, disk, contents)
      modifies this`readCache, zone, disk, link, buffer
      ensures Valid() && LayersOk(zone, disk, contents)
      ensures old(link.asked) <= link.asked && (move == Lost <==> !link.AllAnswered(|old(link.asked)|))
      ensures match move
              case Served(n) =>
                0 < n <= remaining && pos + n <= |remote| && buffer[..] == Placed(old(buffer[..]), at, Slice(remote, pos, n))
              case Fetched =>
                && buffer[..] == old(buffer[..]) && !old(FrontCovers(pos)) && (FrontCovers(pos) <==> pos < |remote|)
                && BlockStart(pos, BlockSize(config, remaining)) < |remote|
              case GaveUp => buffer[..] == old(buffer[..]) && BlockStart(pos, BlockSize(config, remaining)) >= |remote|
              case Lost => buffer[..] == old(buffer[..])
    {
      hide CacheOk, Exact, Slice, Placed, BlockStart;
      var hit := LookupCachedBlock(pos);
      if hit {
        var n := ServeFromFront(buffer, at, pos, remaining);
        return Served(n);
      }
      var blockSize := BlockSize(config, remaining);
      var fetchStart := BlockStart(pos, blockSize);
      if fetchStart >= |remote| {
        return GaveUp;
      }
      var fetchLen := Min(blockSize, |remote| - fetchStart);
      var ok := FetchSpan(zone, disk, contents, Span(fetchStart, fetchLen), blockSize);
      FetchedBlockCovers(remote, pos, blockSize);
      return if ok then Fetched else Lost;
    }

    /** Every span in the zone and on disk holds the remote bytes. */
    ghost predicate LayersOk(zone: PrefetchZone?, disk: BlockCache?, contents: map<string, seq<Byte>>)
      reads zone, disk
    {
      && url in contents && contents[url] == remote
      && (zone != null ==> zone.Valid(remote)) && (disk != null ==> disk.Valid(contents))
    }

    /** A prefetched span not used before, or a readable file. */
    ghost predicate Cached(zone: PrefetchZone?, disk: BlockCache?, span: Span)
      reads zone, disk
    {
      || (zone != null && Unused(zone.ready, span))
      || (disk != null && Key(url, span.offset, span.length) in disk.files && disk.readable(Key(url, span.offset, span.length)))
    }

    predicate FrontCovers(pos: nat)
      reads this
    {
      readCache != [] && Covers(readCache[0], pos)
    }

    /** The read loop, observed for at most the given number of turns. What is in the file is served exactly,
        whatever the layers hold and whatever the prefetch workers do meanwhile. What becomes of the call is
        decided by the request alone, unless a range request fails: it fills the buffer, it ends short
        without an error, or it never ends. */
    method ReadFromFile(zone: PrefetchZone?, disk: BlockCache?, ghost contents: map<string, seq<Byte>>, buffer: array<Byte>,
                        numBytes: nat, position: nat, turns: nat) returns (r: Outcome)
      requires Valid() && numBytes <= buffer.Length && numBytes < LIMIT31 && LayersOk(zone, disk, contents)
      modifies this`readCache, this`fileOffset, zone, disk, link, buffer
      ensures Valid() && LayersOk(zone, disk, contents)
      ensures old(link.asked) <= link.asked && (r == Failed <==> !link.AllAnswered(|old(link.asked)|))
      ensures position <= fileOffset <= position + InFile(|remote|, position, numBytes)
      ensures position < fileOffset ==> buffer[..] == Placed(old(buffer[..]), 0, Slice(remote, position, fileOffset - position))
      ensures position == fileOffset ==> buffer[..] == old(buffer[..])
      ensures r == Full || r == Short ==> fileOffset == position + InFile(|remote|, position, numBytes)
      ensures r == Full ==> FateOf(config, |remote|, position, numBytes) == Fills
      ensures r == Short ==> FateOf(config, |remote|, position, numBytes) == EndsShort
      ensures turns > 2 * numBytes && link.AllAnswered(|old(link.asked)|) ==>
                var fate := FateOf(config, |remote|, position, numBytes);
                (r == Full <==> fate == Fills) && (r == Short <==> fate == EndsShort) && (r == Running <==> fate == Spins)
    {
      hide CacheOk, Exact, Slice, Covers, Placed, FilesOk, ReadyOk, BlockStart, Inside, Config.Valid;
      var bufferOffset := 0;
      fileOffset := position;
      ghost var start := buffer[..];
      ghost var fate := FateOf(config, |remote|, position, numBytes);
      for t := 0 to turns
        invariant Valid() && LayersOk(zone, disk, contents)
        invariant old(link.asked) <= link.asked && link.AllAnswered(|old(link.asked)|)
        invariant bufferOffset <= InFile(|remote|, position, numBytes) && fileOffset == position + bufferOffset
        invariant bufferOffset > 0 ==> buffer[..] == Placed(start, 0, Slice(remote, position, bufferOffset))
        invariant bufferOffset == 0 ==> buffer[..] == start
        invariant fate == Spins || t + 2 * (numBytes - bufferOffset) + (if FrontCovers(position + bufferOffset) then 0 else 1) <= 2 * numBytes + 1
      {
        if bufferOffset == numBytes {
          return Full;
        }
        var pos, remaining := position + bufferOffset, numBytes - bufferOffset;
        var move := Turn(zone, disk, contents, buffer, bufferOffset, pos, remaining);
        match move {
          case Served(n) =>
            Joined(remote, position, bufferOffset, n, start);
            bufferOffset := bufferOffset + n;
            fileOffset := fileOffset + n;
          case Fetched =>
          case GaveUp =>
            BlockBelow(pos, BlockSize(config, remaining));
            return Short;
          case Lost => return Failed;
        }
      }
      return if bufferOffset == numBytes then Full else Running;
    }

    /** Reads from the current offset, up to the end of the file. */
    method ReadFile(zone: PrefetchZone?, disk: BlockCache?, ghost contents: map<string, seq<Byte>>, buffer: array<Byte>, numBytes: nat)
      returns (ok: bool, n: nat)
      requires Valid() && numBytes <= buffer.Length && numBytes < LIMIT31 && LayersOk(zone, disk, contents)
      modifies this`readCache, this`fileOffset, zone, disk, link, buffer
      ensures Valid() && LayersOk(zone, disk, contents)
      ensures old(link.asked) <= link.asked && (ok <==> link.AllAnswered(|old(link.asked)|))
      ensures ok ==> n == (if old(fileOffset) > |remote| then 0 else Min(|remote| - old(fileOffset), numBytes))
      ensures ok ==> fileOffset == old(fileOffset) + n
      ensures ok && n > 0 ==> buffer[..n] == Slice(remote, old(fileOffset), n)
    {
      hide CacheOk, Exact, Slice, FilesOk, ReadyOk;
      if fileOffset > |remote| {
        return true, 0;
      }
      n := Min(|remote| - fileOffset, numBytes);
      var r := ReadFromFile(zone, disk, contents, buffer, n, fileOffset, 2 * n + 1);
      ok := r == Full;
      assert ok && n > 0 ==> buffer[..n] == buffer[..][..n] == Slice(remote, old(fileOffset), n);
    }

    method Seek(offset: nat)
      modifies this`fileOffset
      ensures fileOffset == offset
    {
      fileOffset := offset;
    }

    /** Copies the file into a new local file: byte for byte, exactly if every request is answered. */
    method DownloadFile(zone: PrefetchZone?, disk: BlockCache?, ghost contents: map<string, seq<Byte>>, buffer: array<Byte>)
      returns (ok: bool, local: seq<Byte>)
      requires Valid() && fileOffset == 0 && buffer.Length == MAX_SEGMENT_SIZE
      requires LayersOk(zone, disk, contents)
      modifies this`readCache, this`fileOffset, zone, disk, link, buffer
      ensures Valid() && LayersOk(zone, disk, contents)
      ensures old(link.asked) <= link.asked && (ok <==> link.AllAnswered(|old(link.asked)|))
      ensures ok ==> local == remote && fileOffset == 0
    {
      hide CacheOk, Exact, Slice, FilesOk, ReadyOk;
      local, ok := [], true;
      var numBytesRead, offsetToWrite := 0, 0;
      var more := true;
      while more
        invariant Valid() && LayersOk(zone, disk, contents)
        invariant old(link.asked) <= link.asked && link.AllAnswered(|old(link.asked)|) && ok
        invariant offsetToWrite == fileOffset == |local| <= |remote| && local == remote[..fileOffset]
        invariant !more ==> fileOffset == |remote|
        decreases |remote| - fileOffset, more
      {
        ok, numBytesRead := ReadFile(zone, disk, contents, buffer, MAX_SEGMENT_SIZE);
        if !ok {
          return;
        }
        Appended(remote, offsetToWrite, numBytesRead, buffer[..]);
        local := WriteAt(local, buffer[..numBytesRead], offsetToWrite);
        offsetToWrite := offsetToWrite + numBytesRead;
        more := numBytesRead != 0;
      }
      Seek(0);
    }
  }

  const MAX_SEGMENT_SIZE: nat := 50_000_000

  /** A local file after a write at an offset inside it or at its end. */
  function WriteAt(file: seq<Byte>, data: seq<Byte>, offset: nat): seq<Byte>
    requires offset <= |file|
  {
    if offset + |data| <= |file| then file[..offset] + data + file[offset + |data|..] else file[..offset] + data
  }

  lemma Appended(remote: seq<Byte>, at: nat, n: nat, buffer: seq<Byte>)
    requires at + n <= |remote| && n <= |buffer| && (n > 0 ==> buffer[..n] == Slice(remote, at, n))
    ensures WriteAt(remote[..at], buffer[..n], at) == remote[..at + n]
  {
  }

  /** The start of the block that holds pos. */
  function BlockStart(pos: nat, blockSize: nat): (start: nat)
    requires blockSize > 0
    ensures start <= pos < start + blockSize
  {
    pos / blockSize * blockSize
  }

  /** A buffer with data written at an offset. */
  function Placed(s: seq<Byte>, at: nat, data: seq<Byte>): (r: seq<Byte>)
    requires at + |data| <= |s|
    ensures |r| == |s|
  {
    s[..at] + data + s[at + |data|..]
  }

  /** What was served extends what was there. */
  lemma Joined(remote: seq<Byte>, position: nat, at: nat, served: nat, start: seq<Byte>)
    requires position + at + served <= |remote| && at + served <= |start|
    ensures Placed(Placed(start, 0, Slice(remote, position, at)), at, Slice(remote, position + at, served)) ==
            Placed(start, 0, Slice(remote, position, at + served))
    ensures Placed(start, 0, Slice(remote, position, 0)) == start
  {
    var before := Placed(start, 0, Slice(remote, position, at));
    assert before[..at] == Slice(remote, position, at);
    assert Slice(remote, position, at) + Slice(remote, position + at, served) == Slice(remote, position, at + served);
  }

  /** The block the loop fetches covers the position exactly if the position lies in the file; it is never
      empty. */
  lemma FetchedBlockCovers(remote: seq<Byte>, pos: nat, blockSize: nat)
    requires blockSize > 0 && BlockStart(pos, blockSize) < |remote|
    ensures var start := BlockStart(pos, blockSize);
            var b := Block(start, Slice(remote, start, Min(blockSize, |remote| - start)));
            Exact(remote, b.offset, b.data) && b.data != [] && (Covers(b, pos) <==> pos < |remote|)
  {
  }

  lemma BlockBelow(pos: nat, blockSize: nat)
    requires blockSize > 0
    ensures BlockStart(pos, blockSize) <= pos
  {
  }

  lemma ExactIs(remote: seq<Byte>, offset: nat, data: seq<Byte>)
    requires Exact(remote, offset, data)
    ensures offset + |data| <= |remote| && data == Slice(remote, offset, |data|)
  {
  }

  // ------------------------------------------------------------------ what becomes of a request

  datatype Move = Served(n: nat) | Fetched | GaveUp | Lost

  /** Running: still in the loop after the turns that were observed. */
  datatype Outcome = Full | Short | Failed | Running

  datatype Fate = Fills | EndsShort | Spins

  function BlockSize(config: Config, remaining: nat): nat {
    if remaining <= config.metadataReadBufferSize then config.metadataReadBufferSize else config.readBufferSize
  }

  /** How much of a request lies in the file. */
  function InFile(length: nat, position: nat, numBytes: nat): nat {
    if position < length then Min(numBytes, length - position) else 0
  }

  /** A request inside the file is filled. Otherwise the block of the first byte outside decides: if it
      starts past the end the call ends short, else the loop fetches it for ever. */
  function FateOf(config: Config, length: nat, position: nat, numBytes: nat): Fate
    requires config.Valid()
  {
    var served := InFile(length, position, numBytes);
    if served == numBytes then Fills
    else if BlockStart(position + served, BlockSize(config, numBytes - served)) >= length then EndsShort
    else Spins
  }

  lemma FillsIff(config: Config, length: nat, position: nat, numBytes: nat)
    requires config.Valid()
    ensures FateOf(config, length, position, numBytes) == Fills <==> numBytes == 0 || position + numBytes <= length
  {
  }

  /** Reading up to or past the end ends short exactly if the length is a whole number of blocks. */
  lemma AtTheEnd(config: Config, length: nat, position: nat, numBytes: nat)
    requires config.Valid() && position <= length < position + numBytes
    ensures FateOf(config, length, position, numBytes) ==
            if length % BlockSize(config, position + numBytes - length) == 0 then EndsShort else Spins
  {
    var size := BlockSize(config, position + numBytes - length);
    assert length == length / size * size + length % size;
  }

  /** One byte past a file of 10 bytes in blocks of 4 is never answered; past a file of 12 it ends short. */
  lemma PastEndExamples()
    ensures var c := Config(4, 4, 8, 0); FateOf(c, 10, 10, 1) == Spins && FateOf(c, 12, 12, 1) == EndsShort
  {
    var c := Config(4, 4, 8, 0);
    AtTheEnd(c, 10, 10, 1);
    AtTheEnd(c, 12, 12, 1);
  }
}
