/** The background workers of the Rust GUI (rust/src/app.rs): the search, preview and index workers
    coalesce their request queues and answer only the newest request; the index worker streams its
    entries in batches between a `Started` and a `Finished` message; the file-list worker answers
    every request by walking the root and writing a manifest. Channels are modelled as sequences
    of messages; the worker threads, the clock and the channels' blocking are not. */
module Workers {
  import opened Wrappers
  import opened Paths
  import opened FileSystem
  import opened Walker
  import opened Indexer
  import opened Matcher
  import opened Ranking
  import opened Highlight
  import opened Seqs

  // ---------------------------------------------------------------------------------------
  // Coalescing request queues
  // ---------------------------------------------------------------------------------------

  function Concat<T>(ss: seq<seq<T>>): seq<T> {
    if ss == [] then [] else Concat(ss[..|ss| - 1]) + ss[|ss| - 1]
  }

  /** One wake-up of a coalescing worker (`recv` followed by draining `try_recv`): the newest queued
      request, or None when nothing is queued and the senders are gone, which ends the worker. */
  method TakeNewest<T>(queue: seq<T>) returns (r: Option<T>)
    ensures queue == [] ==> r == None
    ensures queue != [] ==> r == Some(queue[|queue| - 1])
  {
    if queue == [] {
      return None;
    }
    var req := queue[0];
    var i := 1;
    while i < |queue|
      invariant 1 <= i <= |queue|
      invariant req == queue[i - 1]
    {
      req := queue[i];
      i := i + 1;
    }
    return Some(req);
  }

  /** The requests a coalescing worker serves when, at its k-th wake-up, `bursts[k]` is queued. */
  function Served<T>(bursts: seq<seq<T>>): (r: seq<T>)
    requires forall k :: 0 <= k < |bursts| ==> bursts[k] != []
    ensures |r| == |bursts|
  {
    if bursts == [] then []
    else Served(bursts[..|bursts| - 1]) + [bursts[|bursts| - 1][|bursts[|bursts| - 1]| - 1]]
  }

  /** Position in the whole request stream of the request served at wake-up `k`. */
  function ServedAt<T>(bursts: seq<seq<T>>, k: nat): nat
    requires k < |bursts| && bursts[k] != []
  {
    |Concat(bursts[..k + 1])| - 1
  }

  lemma {:induction false} ConcatAppend<T>(a: seq<seq<T>>, b: seq<seq<T>>)
    ensures Concat(a + b) == Concat(a) + Concat(b)
    decreases |b|
  {
    if b == [] {
      assert a + b == a;
    } else {
      var init := b[..|b| - 1];
      var last := b[|b| - 1];
      ConcatAppend(a, init);
      assert (a + b)[..|a + b| - 1] == a + init;
      assert (a + b)[|a + b| - 1] == last;
      calc {
        Concat(a + b);
        Concat(a + init) + last;
        (Concat(a) + Concat(init)) + last;
        { AppendAssoc(Concat(a), Concat(init), last); }
        Concat(a) + (Concat(init) + last);
      }
    }
  }

  /** The request stream up to and including wake-up `k`, then the rest. */
  lemma ConcatSplit<T>(bursts: seq<seq<T>>, k: nat)
    requires k < |bursts|
    ensures Concat(bursts) == Concat(bursts[..k]) + bursts[k] + Concat(bursts[k + 1..])
  {
    var pre := bursts[..k + 1];
    var post := bursts[k + 1..];
    assert bursts == pre + post;
    ConcatAppend(pre, post);
    assert pre[..|pre| - 1] == bursts[..k] && pre[|pre| - 1] == bursts[k];
    assert Concat(pre) == Concat(bursts[..k]) + bursts[k];
  }

  lemma {:induction false} ServedIsNewest<T>(bursts: seq<seq<T>>)
    requires forall k :: 0 <= k < |bursts| ==> bursts[k] != []
    ensures forall k :: 0 <= k < |bursts| ==> Served(bursts)[k] == bursts[k][|bursts[k]| - 1]
    decreases |bursts|
  {
    if bursts != [] {
      var init := bursts[..|bursts| - 1];
      ServedIsNewest(init);
      assert forall k :: 0 <= k < |init| ==> Served(bursts)[k] == Served(init)[k] && init[k] == bursts[k];
    }
  }

  lemma ServedPosition<T>(bursts: seq<seq<T>>, k: nat)
    requires k < |bursts| && bursts[k] != []
    ensures ServedAt(bursts, k) == |Concat(bursts[..k])| + |bursts[k]| - 1
    ensures ServedAt(bursts, k) < |Concat(bursts)|
    ensures Concat(bursts)[ServedAt(bursts, k)] == bursts[k][|bursts[k]| - 1]
  {
    assert bursts[..k + 1][..k] == bursts[..k];
    ConcatSplit(bursts, k);
  }

  lemma ServedAtIncreasing<T>(bursts: seq<seq<T>>, k: nat, l: nat)
    requires k < l < |bursts| && bursts[k] != [] && bursts[l] != []
    ensures ServedAt(bursts, k) < ServedAt(bursts, l)
  {
    ServedPosition(bursts, k);
    ServedPosition(bursts, l);
    var pre := bursts[..l];
    assert pre[..k] == bursts[..k] && pre[k] == bursts[k];
    ConcatSplit(pre, k);
  }

  /** Coalescing never reorders or invents work: the k-th served request is the newest one queued
      at wake-up `k`, it sits at `ServedAt(bursts, k)` in the request stream, and those positions
      strictly increase, so the served requests are a subsequence of the requests sent. */
  lemma ServedInOrder<T>(bursts: seq<seq<T>>)
    requires forall k :: 0 <= k < |bursts| ==> bursts[k] != []
    ensures forall k :: 0 <= k < |bursts| ==>
      && Served(bursts)[k] == bursts[k][|bursts[k]| - 1]
      && ServedAt(bursts, k) < |Concat(bursts)|
      && Concat(bursts)[ServedAt(bursts, k)] == Served(bursts)[k]
    ensures forall k, l :: 0 <= k < l < |bursts| ==> ServedAt(bursts, k) < ServedAt(bursts, l)
  {
    ServedIsNewest(bursts);
    forall k | 0 <= k < |bursts|
      ensures ServedAt(bursts, k) < |Concat(bursts)|
      ensures Concat(bursts)[ServedAt(bursts, k)] == bursts[k][|bursts[k]| - 1]
    {
      ServedPosition(bursts, k);
    }
    forall k, l | 0 <= k < l < |bursts|
      ensures ServedAt(bursts, k) < ServedAt(bursts, l)
    {
      ServedAtIncreasing(bursts, k, l);
    }
  }

  /** The newest request sent is always served: a burst of requests ends in an answer to its last one. */
  lemma NewestIsServed<T>(bursts: seq<seq<T>>)
    requires forall k :: 0 <= k < |bursts| ==> bursts[k] != []
    requires bursts != []
    ensures Served(bursts)[|bursts| - 1] == Concat(bursts)[|Concat(bursts)| - 1]
  {
  }

  // ---------------------------------------------------------------------------------------
  // The search and preview workers
  // ---------------------------------------------------------------------------------------

  datatype SearchRequest = SearchRequest(id: nat, query: string, entries: seq<Path>, limit: nat,
                                         useRegex: bool, root: Path, preferRelative: bool)

  datatype SearchResponse = SearchResponse(id: nat, results: seq<Hit>)

  /** `filter_search_results`: in regex mode the results pass unchanged; otherwise only the hits
      whose row would highlight something (`has_visible_match`) are kept, in order. */
  function FilterSearchResults(results: seq<Hit>, root: Path, query: string, preferRelative: bool, useRegex: bool)
    : (r: seq<Hit>)
    ensures useRegex ==> r == results
    ensures !useRegex ==> forall h :: h in r <==> h in results && HasVisibleMatch(h.path, root, query, preferRelative)
    ensures |r| <= |results|
    ensures Sorted(results) ==> Sorted(r)
  {
    if useRegex || results == [] then results
    else
      var rest := FilterSearchResults(results[1..], root, query, preferRelative, false);
      assert forall h :: h in results <==> h == results[0] || h in results[1..];
      assert Sorted(results) ==> Sorted([results[0]] + rest) by {
        if Sorted(results) {
          assert forall h :: h in rest ==> h.score <= results[0].score;
          SortedCons(results[0], rest);
        }
      }
      if HasVisibleMatch(results[0].path, root, query, preferRelative) then [results[0]] + rest else rest
  }

  /** What the search worker answers for the request it serves. */
  function ServeSearch(req: SearchRequest, re: RegexEngine, base: BaseScore): (r: SearchResponse)
    ensures r.id == req.id
    ensures |r.results| <= req.limit && Sorted(r.results)
    ensures forall h :: h in r.results ==> h in SearchEntries(req.query, req.entries, req.limit, req.useRegex, re, base)
    ensures !req.useRegex ==> forall h :: h in r.results ==> HasVisibleMatch(h.path, req.root, req.query, req.preferRelative)
    ensures forall h :: h in SearchEntries(req.query, req.entries, req.limit, req.useRegex, re, base) ==>
      (req.useRegex || HasVisibleMatch(h.path, req.root, req.query, req.preferRelative) <==> h in r.results)
  {
    var hits := SearchEntries(req.query, req.entries, req.limit, req.useRegex, re, base);
    SearchResponse(req.id, FilterSearchResults(hits, req.root, req.query, req.preferRelative, req.useRegex))
  }

  datatype PreviewRequest = PreviewRequest(id: nat, path: Path, isDir: bool)

  datatype PreviewResponse = PreviewResponse(id: nat, path: Path, preview: string)

  /** What the preview worker answers: the preview text of the requested path, tagged with the
      request's id and path so that the GUI can recognise a stale answer. The preview text itself
      (`build_preview_text_with_kind`) reads the disk and is a parameter. */
  function ServePreview(req: PreviewRequest, build: (Path, bool) -> string): (r: PreviewResponse)
    ensures r.id == req.id && r.path == req.path
    ensures r.preview == build(req.path, req.isDir)
  {
    PreviewResponse(req.id, req.path, build(req.path, req.isDir))
  }

  // ---------------------------------------------------------------------------------------
  // The index worker
  // ---------------------------------------------------------------------------------------

  datatype IndexEntry = IndexEntry(path: Path, isDir: bool)

  datatype IndexRequest = IndexRequest(id: nat, root: Path, useFileList: bool, includeFiles: bool, includeDirs: bool)

  datatype IndexResponse =
    | Started(id: nat, source: IndexSource)
    | Batch(id: nat, entries: seq<IndexEntry>)
    | Finished(id: nat, source: IndexSource)
    | Failed(id: nat, error: string)

  /** Entries per batch before a flush is forced. */
  const BatchSize: nat := 256

  /** The error a stream reports when the GUI has dropped its receiver. */
  const ReceiverClosed := "index receiver closed"

  /** The entries a message carries. */
  function Payload(m: IndexResponse): seq<IndexEntry> {
    if m.Batch? then m.entries else []
  }

  /** The entries a sequence of messages carries, in order. */
  function EntriesOf(ms: seq<IndexResponse>): seq<IndexEntry> {
    if ms == [] then [] else EntriesOf(ms[..|ms| - 1]) + Payload(ms[|ms| - 1])
  }

  lemma {:induction false} EntriesOfAppend(a: seq<IndexResponse>, b: seq<IndexResponse>)
    ensures EntriesOf(a + b) == EntriesOf(a) + EntriesOf(b)
    decreases |b|
  {
    if b == [] {
      assert a + b == a;
    } else {
      var init := b[..|b| - 1];
      var last := b[|b| - 1];
      EntriesOfAppend(a, init);
      assert (a + b)[..|a + b| - 1] == a + init;
      assert (a + b)[|a + b| - 1] == last;
      calc {
        EntriesOf(a + b);
        EntriesOf(a + init) + Payload(last);
        (EntriesOf(a) + EntriesOf(init)) + Payload(last);
        { AppendAssoc(EntriesOf(a), EntriesOf(init), Payload(last)); }
        EntriesOf(a) + (EntriesOf(init) + Payload(last));
      }
    }
  }

  function PathsOf(es: seq<IndexEntry>): (r: seq<Path>)
    ensures |r| == |es|
    ensures forall i :: 0 <= i < |es| ==> r[i] == es[i].path
  {
    if es == [] then [] else [es[0].path] + PathsOf(es[1..])
  }

  lemma PathsOfAppend(a: seq<IndexEntry>, b: seq<IndexEntry>)
    ensures PathsOf(a + b) == PathsOf(a) + PathsOf(b)
  {
  }

  /** `flush_batch`: an empty buffer sends nothing; otherwise its contents go out as one batch and
      the buffer is left empty. */
  function FlushBatch(id: nat, buffer: seq<IndexEntry>): (r: seq<IndexResponse>)
    ensures EntriesOf(r) == buffer
    ensures |r| <= 1 && forall k :: 0 <= k < |r| ==> r[k] == Batch(id, buffer) && buffer != []
  {
    if buffer == [] then [] else
      assert EntriesOf([Batch(id, buffer)]) == EntriesOf([]) + buffer;
      [Batch(id, buffer)]
  }

  /** Every message is a non-empty batch for `id` of at most `BatchSize` entries. */
  predicate WellBatched(id: nat, ms: seq<IndexResponse>) {
    forall k :: 0 <= k < |ms| ==> ms[k].Batch? && ms[k].id == id && 1 <= |ms[k].entries| <= BatchSize
  }

  /** Every batch but the last is full. */
  predicate Packed(ms: seq<IndexResponse>) {
    forall k :: 0 <= k < |ms| - 1 ==> |Payload(ms[k])| == BatchSize
  }

  /** No timer flush was due for the first `i` entries. */
  predicate NoTimer(due: nat -> bool, i: nat) {
    forall j :: 0 <= j < i ==> !due(j)
  }

  predicate AllFull(ms: seq<IndexResponse>) {
    forall k :: 0 <= k < |ms| ==> |Payload(ms[k])| == BatchSize
  }

  /** Flushing a buffer of 1 to `BatchSize` entries appends one well-formed batch carrying them. */
  lemma FlushStep(id: nat, ms: seq<IndexResponse>, buffer: seq<IndexEntry>)
    requires WellBatched(id, ms)
    requires 1 <= |buffer| <= BatchSize
    ensures WellBatched(id, ms + FlushBatch(id, buffer))
    ensures EntriesOf(ms + FlushBatch(id, buffer)) == EntriesOf(ms) + buffer
    ensures AllFull(ms) && |buffer| == BatchSize ==> AllFull(ms + FlushBatch(id, buffer))
    ensures AllFull(ms) ==> Packed(ms + FlushBatch(id, buffer))
  {
    var b := FlushBatch(id, buffer);
    assert b == [Batch(id, buffer)];
    EntriesOfAppend(ms, b);
    forall k | 0 <= k < |ms + b|
      ensures (ms + b)[k] == if k < |ms| then ms[k] else Batch(id, buffer)
    {
    }
  }

  /** The batching loop's state after `i` entries: the batches sent so far followed by the
      buffer hold exactly those entries, the buffer is not full, and while no timer flush has
      happened every batch sent is full. */
  predicate Streaming(id: nat, entries: seq<IndexEntry>, due: nat -> bool, i: nat, ms: seq<IndexResponse>, buffer: seq<IndexEntry>) {
    && i <= |entries|
    && WellBatched(id, ms)
    && EntriesOf(ms) + buffer == entries[..i]
    && |buffer| < BatchSize
    && (NoTimer(due, i) ==> AllFull(ms))
  }

  /** One turn of the batching loop: push entry `i`, then flush when the buffer is full or the
      timer has run out. */
  lemma StreamStep(id: nat, entries: seq<IndexEntry>, due: nat -> bool, i: nat, ms: seq<IndexResponse>, buffer: seq<IndexEntry>)
    requires i < |entries| && Streaming(id, entries, due, i, ms, buffer)
    ensures var pushed := buffer + [entries[i]];
      if |pushed| >= BatchSize || due(i) then Streaming(id, entries, due, i + 1, ms + FlushBatch(id, pushed), [])
      else Streaming(id, entries, due, i + 1, ms, pushed)
  {
    var pushed := buffer + [entries[i]];
    assert EntriesOf(ms) + pushed == entries[..i + 1] by {
      assert entries[..i + 1] == entries[..i] + [entries[i]];
      AppendAssoc(EntriesOf(ms), buffer, [entries[i]]);
    }
    if |pushed| >= BatchSize || due(i) {
      FlushStep(id, ms, pushed);
      assert EntriesOf(ms + FlushBatch(id, pushed)) + [] == entries[..i + 1];
    }
  }

  /** The batching loop shared by `stream_filelist_index` and `stream_walker_index`: each entry is
      pushed onto the buffer, which is flushed when it holds `BatchSize` entries or when the flush
      timer has run out (`due(i)`: 100 ms had passed since the last flush once entry `i` was
      pushed); whatever is left is flushed at the end. The batches carry exactly the entries, in
      order, and without the timer every batch but the last is full. */
  method StreamBatches(id: nat, entries: seq<IndexEntry>, due: nat -> bool) returns (ms: seq<IndexResponse>)
    ensures WellBatched(id, ms)
    ensures EntriesOf(ms) == entries
    ensures NoTimer(due, |entries|) ==> Packed(ms)
  {
    var buffer: seq<IndexEntry> := [];
    ms := [];
    for i := 0 to |entries|
      invariant Streaming(id, entries, due, i, ms, buffer)
    {
      StreamStep(id, entries, due, i, ms, buffer);
      buffer := buffer + [entries[i]];
      if |buffer| >= BatchSize || due(i) {
        ms := ms + FlushBatch(id, buffer);
        buffer := [];
      }
    }
    assert entries[..|entries|] == entries;
    if buffer != [] {
      FlushStep(id, ms, buffer);
    } else {
      assert ms + FlushBatch(id, buffer) == ms;
    }
    ms := ms + FlushBatch(id, buffer);
  }

  /** `is_dir` of a manifest entry, with links followed. */
  function ManifestEntries(fs: FileSystem, ps: seq<Path>): (r: seq<IndexEntry>)
    ensures PathsOf(r) == ps
  {
    if ps == [] then [] else [IndexEntry(ps[0], IsDir(fs, ps[0]))] + ManifestEntries(fs, ps[1..])
  }

  /** What `WalkDir::new(root).follow_links(false).min_depth(1)` yields, with read errors skipped:
      every entry in pre-order, a real directory followed by its contents when it can be read. */
  function PreOrder(ns: seq<Node>): seq<IndexEntry>
    decreases ns
  {
    if ns == [] then []
    else
      var n := ns[0];
      [IndexEntry(n.path, IsRealDir(n))]
      + (if IsRealDir(n) && n.listed then PreOrder(n.children) else [])
      + PreOrder(ns[1..])
  }

  /** The paths of the entries whose directory flag is `isDir`, in order. */
  function PathsWhere(es: seq<IndexEntry>, isDir: bool): seq<Path> {
    if es == [] then [] else (if es[0].isDir == isDir then [es[0].path] else []) + PathsWhere(es[1..], isDir)
  }

  lemma {:induction false} PathsWhereAppend(a: seq<IndexEntry>, b: seq<IndexEntry>, isDir: bool)
    ensures PathsWhere(a + b, isDir) == PathsWhere(a, isDir) + PathsWhere(b, isDir)
    decreases |a|
  {
    if a == [] {
      assert a + b == b;
    } else {
      var head := if a[0].isDir == isDir then [a[0].path] else [];
      assert (a + b)[0] == a[0];
      assert (a + b)[1..] == a[1..] + b;
      PathsWhereAppend(a[1..], b, isDir);
      calc {
        PathsWhere(a + b, isDir);
        head + PathsWhere(a[1..] + b, isDir);
        head + (PathsWhere(a[1..], isDir) + PathsWhere(b, isDir));
        { AppendAssoc(head, PathsWhere(a[1..], isDir), PathsWhere(b, isDir)); }
        (head + PathsWhere(a[1..], isDir)) + PathsWhere(b, isDir);
      }
    }
  }

  /** The interleaved stream and the indexer's grouped walk meet the same entries: its directories
      are the walk's directories and its other entries the walk's files, each in the same order. */
  lemma {:induction false} PreOrderSplits(ns: seq<Node>)
    ensures PathsWhere(PreOrder(ns), false) == RustFiles(ns)
    ensures PathsWhere(PreOrder(ns), true) == RustDirs(ns)
    decreases ns
  {
    if ns != [] {
      var n := ns[0];
      var head := [IndexEntry(n.path, IsRealDir(n))];
      var below := if IsRealDir(n) && n.listed then PreOrder(n.children) else [];
      if IsRealDir(n) && n.listed {
        PreOrderSplits(n.children);
      }
      PreOrderSplits(ns[1..]);
      PathsWhereAppend(head + below, PreOrder(ns[1..]), false);
      PathsWhereAppend(head, below, false);
      PathsWhereAppend(head + below, PreOrder(ns[1..]), true);
      PathsWhereAppend(head, below, true);
    }
  }

  /** The walker stream's filter: directories only when asked for, other entries only when asked for. */
  function Wanted(es: seq<IndexEntry>, includeFiles: bool, includeDirs: bool): (r: seq<IndexEntry>)
    ensures forall i :: 0 <= i < |r| ==> (if r[i].isDir then includeDirs else includeFiles)
  {
    if es == [] then []
    else
      var keep := if es[0].isDir then includeDirs else includeFiles;
      (if keep then [es[0]] else []) + Wanted(es[1..], includeFiles, includeDirs)
  }

  /** Asking for one kind only keeps exactly that kind's paths, in order. */
  lemma {:induction false} WantedOneKind(es: seq<IndexEntry>, includeFiles: bool, includeDirs: bool)
    requires includeFiles != includeDirs
    ensures PathsOf(Wanted(es, includeFiles, includeDirs)) == PathsWhere(es, includeDirs)
    decreases |es|
  {
    if es != [] {
      WantedOneKind(es[1..], includeFiles, includeDirs);
      var rest := Wanted(es[1..], includeFiles, includeDirs);
      if es[0].isDir == includeDirs {
        PathsOfAppend([es[0]], rest);
      }
    }
  }

  /** Asking for both kinds keeps everything. */
  lemma {:induction false} WantedBoth(es: seq<IndexEntry>)
    ensures Wanted(es, true, true) == es
    decreases |es|
  {
    if es != [] {
      WantedBoth(es[1..]);
    }
  }

  /** Every entry is either a directory or not. */
  lemma {:induction false} PathsPartition(es: seq<IndexEntry>)
    ensures multiset(PathsOf(es)) == multiset(PathsWhere(es, false)) + multiset(PathsWhere(es, true))
    decreases |es|
  {
    if es != [] {
      PathsPartition(es[1..]);
      PathsOfAppend([es[0]], es[1..]);
      assert es == [es[0]] + es[1..];
    }
  }

  /** Filtering keeps the wanted groups whole. */
  lemma WantedPaths(es: seq<IndexEntry>, includeFiles: bool, includeDirs: bool)
    requires includeFiles || includeDirs
    ensures multiset(PathsOf(Wanted(es, includeFiles, includeDirs)))
      == (if includeFiles then multiset(PathsWhere(es, false)) else multiset{})
       + (if includeDirs then multiset(PathsWhere(es, true)) else multiset{})
  {
    if includeFiles && includeDirs {
      WantedBoth(es);
      PathsPartition(es);
    } else {
      WantedOneKind(es, includeFiles, includeDirs);
    }
  }

  /** The entries `stream_walker_index` pushes for a canonical root. */
  function WalkerStream(fs: FileSystem, root: Path, includeFiles: bool, includeDirs: bool): seq<IndexEntry> {
    match ListDir(fs, root)
    case Listed(ns) => Wanted(PreOrder(ns), includeFiles, includeDirs)
    case _ => []
  }

  /** The walker stream indexes the same paths as the snapshot walk, only in another order. */
  lemma WalkerStreamIsWalk(fs: FileSystem, root: Path, includeFiles: bool, includeDirs: bool)
    requires includeFiles || includeDirs
    ensures multiset(PathsOf(WalkerStream(fs, root, includeFiles, includeDirs)))
      == multiset(WalkEntries(fs, root, includeFiles, includeDirs))
  {
    match ListDir(fs, root)
    case Listed(ns) =>
      WantedPaths(PreOrder(ns), includeFiles, includeDirs);
      PreOrderSplits(ns);
    case _ =>
  }

  /** The complete message sequence of one indexing run that does not fail: `Started`, the batches,
      `Finished`, all for `id`. */
  predicate Run(id: nat, source: IndexSource, ms: seq<IndexResponse>) {
    && |ms| >= 2
    && ms[0] == Started(id, source)
    && ms[|ms| - 1] == Finished(id, source)
    && WellBatched(id, ms[1..|ms| - 1])
  }

  lemma RunEntries(id: nat, source: IndexSource, batches: seq<IndexResponse>)
    ensures EntriesOf([Started(id, source)] + batches + [Finished(id, source)]) == EntriesOf(batches)
  {
    EntriesOfAppend([Started(id, source)], batches);
    EntriesOfAppend([Started(id, source)] + batches, [Finished(id, source)]);
    assert EntriesOf([Started(id, source)]) == [];
    assert EntriesOf([Finished(id, source)]) == [];
  }

  /** One request of `spawn_index_worker`'s loop. `open` says whether the GUI still holds the
      receiving end; when it does not, every send fails and the worker stops (`alive` false).
      With both kinds switched off the run is an empty `Started`/`Finished` pair. Otherwise the
      root is canonicalised and its manifest, when wanted and present, is parsed before anything
      is sent, so an unreadable manifest yields a lone `Failed`; else the entries stream in batches
      between `Started` and `Finished`. The streamed entries are exactly the snapshot index of
      `build_index_with_metadata` for a manifest, and the same paths in walk order for a walk. */
  method ServeIndexRequest(fs: FileSystem, req: IndexRequest, open: bool, due: nat -> bool)
    returns (ms: seq<IndexResponse>, alive: bool)
    ensures alive == open
    ensures !open ==> ms == []
    ensures open && !req.includeFiles && !req.includeDirs ==> ms == [Started(req.id, NoSource), Finished(req.id, NoSource)]
    ensures open && (req.includeFiles || req.includeDirs) ==>
      var built := BuildIndexWithMetadata(fs, req.root, req.useFileList, req.includeFiles, req.includeDirs);
      && (built.Err? ==> ms == [Failed(req.id, built.message)])
      && (built.Ok? ==>
        && Run(req.id, built.value.source, ms)
        && multiset(PathsOf(EntriesOf(ms))) == multiset(built.value.entries)
        && (built.value.source.FileListSource? ==> PathsOf(EntriesOf(ms)) == built.value.entries))
  {
    if !req.includeFiles && !req.includeDirs {
      if !open {
        return [], false;
      }
      return [Started(req.id, NoSource), Finished(req.id, NoSource)], true;
    }
    var root := Canon(fs, req.root);
    var manifest := if req.useFileList then FindFileList(fs, root) else None;
    var source: IndexSource;
    var entries: seq<IndexEntry>;
    if manifest.Some? {
      var parsed := ParseFileList(fs, RustIndexer, manifest.value, root, req.includeFiles, req.includeDirs);
      if parsed.Err? {
        if !open {
          return [], false;
        }
        return [Failed(req.id, parsed.message)], true;
      }
      source := FileListSource(manifest.value);
      entries := ManifestEntries(fs, parsed.value);
    } else {
      source := WalkerSource;
      entries := WalkerStream(fs, root, req.includeFiles, req.includeDirs);
      WalkerStreamIsWalk(fs, root, req.includeFiles, req.includeDirs);
    }
    if !open {
      return [], false;
    }
    var batches := StreamBatches(req.id, entries, due);
    ms := [Started(req.id, source)] + batches + [Finished(req.id, source)];
    RunEntries(req.id, source, batches);
    assert ms[1..|ms| - 1] == batches;
    alive := true;
  }

  // ---------------------------------------------------------------------------------------
  // The file-list worker
  // ---------------------------------------------------------------------------------------

  datatype FileListRequest = FileListRequest(id: nat, root: Path, includeFiles: bool, includeDirs: bool)

  datatype FileListResponse =
    | FileListFinished(id: nat, path: Path, count: nat)
    | FileListFailed(id: nat, error: string)

  /** The manifest name the GUI writes. */
  const FileListName := "FileList.txt"

  /** What `spawn_filelist_worker` does for one request: it walks the root (ignoring any manifest
      already there), writes the walked entries as a manifest named "FileList.txt" directly under
      the root, and reports the manifest's path and how many entries the walk produced; the write
      fails as `WriteText` does. `style` selects the manifest line writer. */
  function ServeFileList(fs: FileSystem, req: FileListRequest, style: LineStyle)
    : (r: (FileSystem, FileListResponse))
    ensures r.1.id == req.id
    ensures var out := Join(req.root, Parse(FileListName));
      r.1.FileListFailed? <==> IsDir(fs, out) || out.parts == [] || !IsDir(fs, Parent(out)) || out in fs.refused
    ensures r.1.FileListFailed? ==> r.0 == fs
    ensures r.1.FileListFinished? ==>
      var entries := if req.includeFiles || req.includeDirs
        then WalkEntries(fs, Canon(fs, req.root), req.includeFiles, req.includeDirs) else [];
      && r.1.path == Join(req.root, Parse(FileListName))
      && r.1.count == |entries|
      && IsFile(r.0, r.1.path) && r.1.path in r.0.texts
      && r.0.texts[r.1.path] == BuildFileListText(fs, RustIndexer, style, entries, req.root)
  {
    match BuildIndexWithMetadata(fs, req.root, false, req.includeFiles, req.includeDirs)
    case Err(e) =>
      assert false;
      (fs, FileListFailed(req.id, e))
    case Ok(snapshot) =>
      match WriteFileList(fs, RustIndexer, style, req.root, snapshot.entries, FileListName)
      case Ok((fs', out)) => (fs', FileListFinished(req.id, out, |snapshot.entries|))
      case Err(e) => (fs, FileListFailed(req.id, e))
  }
}
