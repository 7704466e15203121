/** The GUI coordinator of the Rust finder, `FlistWalkerApp` in `app.rs`: the state the window
    keeps between frames and the handlers that turn user actions and worker answers into new
    state. Every request stream carries increasing ids; an answer is applied only while its id is
    the one awaited, so a superseded request can never overwrite newer state. The window itself
    (egui), the status line and the notices are not modelled. */
module Coordinator {
  import opened Wrappers
  import opened Text
  import opened Paths
  import opened Indexer
  import opened Ranking
  import opened Workers
  import opened Matcher
  import opened FileSystem
  import opened Seqs

  /** `u64::MAX`: request ids grow with `saturating_add` and stop here. */
  const U64Max: nat := 0xFFFF_FFFF_FFFF_FFFF
  /** `new` clamps the result limit to 1..=1000. */
  const MaxLimit: nat := 1000
  /** `MAX_MESSAGES_PER_FRAME` of `poll_index_response`. */
  const MaxIndexMessagesPerFrame: nat := 12
  const LoadingPreview := "Loading preview..."
  const PreviewUnavailable := "<preview unavailable>"

  function SatInc(n: nat): nat {
    if n < U64Max then n + 1 else n
  }

  function Last<T>(s: seq<T>): T
    requires s != []
  {
    s[|s| - 1]
  }

  // ---------------------------------------------------------------------------------------
  // Request streams
  // ---------------------------------------------------------------------------------------

  /** One request channel towards a worker: the next id to hand out, the id whose answer is
      awaited, the in-progress flag kept beside it, whether the worker still accepts requests,
      and every request sent so far. */
  datatype Stream<Req> = Stream(next: nat, pending: Option<nat>, busy: bool, alive: bool, sent: seq<Req>)

  function Open<Req>(alive: bool): Stream<Req> {
    Stream(1, None, false, alive, [])
  }

  /** Hands out `s.next` for `req`; a refused send (worker gone) leaves nothing awaited. */
  function Send<Req>(s: Stream<Req>, req: Req): Stream<Req> {
    if s.alive then Stream(SatInc(s.next), Some(s.next), true, true, s.sent + [req])
    else Stream(SatInc(s.next), None, false, false, s.sent)
  }

  function Settle<Req>(s: Stream<Req>): Stream<Req> {
    s.(pending := None, busy := false)
  }

  /** Ids stay in `1..=u64::MAX`, the flag mirrors the awaited id, the awaited id was handed out
      already (it is below `next` unless the counter saturated), and a dead worker is never
      awaited. */
  predicate StreamValid<Req>(s: Stream<Req>) {
    && 1 <= s.next <= U64Max
    && s.busy == s.pending.Some?
    && (s.pending.Some? ==> s.pending.value < s.next || s.pending.value == s.next == U64Max)
    && (!s.alive ==> s.pending.None?)
  }

  // ---------------------------------------------------------------------------------------
  // The application state
  // ---------------------------------------------------------------------------------------

  datatype App = App(
    root: Path, limit: nat, query: string,
    useFileList: bool, useRegex: bool, includeFiles: bool, includeDirs: bool,
    index: IndexBuildResult,
    entries: seq<Path>,
    entryKinds: map<Path, bool>,
    results: seq<Hit>,
    pinned: set<Path>,
    currentRow: Option<nat>,
    preview: string,
    previewCache: map<Path, string>,
    scrollToCurrent: bool,
    search: Stream<SearchRequest>,
    previews: Stream<PreviewRequest>,
    indexing: Stream<IndexRequest>,
    fileLists: Stream<FileListRequest>)

  /** The path of the selected row, when the selection points into the results. */
  function SelectedPath(results: seq<Hit>, row: Option<nat>): Option<Path> {
    if row.Some? && row.value < |results| then Some(results[row.value].path) else None
  }

  function CurrentPath(app: App): Option<Path> {
    SelectedPath(app.results, app.currentRow)
  }

  /** A well-formed stream whose awaited id, if any, is that of the last request sent. */
  predicate SearchOk(s: Stream<SearchRequest>) {
    StreamValid(s) && (s.pending.Some? ==> s.sent != [] && Last(s.sent).id == s.pending.value)
  }

  predicate IndexOk(s: Stream<IndexRequest>) {
    StreamValid(s) && (s.pending.Some? ==> s.sent != [] && Last(s.sent).id == s.pending.value)
  }

  predicate FileListOk(s: Stream<FileListRequest>) {
    StreamValid(s) && (s.pending.Some? ==> s.sent != [] && Last(s.sent).id == s.pending.value)
  }

  /** A preview is awaited only for the selected row's path. */
  predicate PreviewOk(s: Stream<PreviewRequest>, current: Option<Path>) {
    && StreamValid(s)
    && (s.pending.Some? ==>
          && s.sent != []
          && Last(s.sent).id == s.pending.value
          && current == Some(Last(s.sent).path))
  }

  /** A row is selected exactly when there are results, and it points into them. */
  predicate SelectionOk(results: seq<Hit>, row: Option<nat>) {
    (row.Some? <==> results != []) && (row.Some? ==> row.value < |results|)
  }

  predicate StreamsOk(app: App) {
    && 1 <= app.limit <= MaxLimit
    && SearchOk(app.search) && IndexOk(app.indexing) && FileListOk(app.fileLists)
    && StreamValid(app.previews)
  }

  /** The state every handler keeps: the limit stays in 1..=1000, every stream is well formed
      and awaits at most the last request it sent, the selection points into the results, and
      an awaited preview is the preview of the selected row. */
  predicate Valid(app: App) {
    && StreamsOk(app)
    && SelectionOk(app.results, app.currentRow)
    && PreviewOk(app.previews, SelectedPath(app.results, app.currentRow))
  }

  /** The user's settings and selection are untouched. */
  predicate SameSettings(a: App, b: App) {
    && a.root == b.root && a.limit == b.limit && a.query == b.query
    && a.useFileList == b.useFileList && a.useRegex == b.useRegex
    && a.includeFiles == b.includeFiles && a.includeDirs == b.includeDirs
    && a.pinned == b.pinned
  }

  /** The index and the index and file-list streams are untouched. */
  predicate SameIndex(a: App, b: App) {
    && a.index == b.index && a.entries == b.entries && a.entryKinds == b.entryKinds
    && a.indexing == b.indexing && a.fileLists == b.fileLists
  }

  /** `prefer_relative_display`: rows are shown relative to the root once the index came from a
      walk or a manifest. */
  predicate PreferRelativeDisplay(app: App) {
    app.index.source.WalkerSource? || app.index.source.FileListSource?
  }

  // ---------------------------------------------------------------------------------------
  // Startup and index refresh
  // ---------------------------------------------------------------------------------------

  function ClampLimit(limit: nat): (r: nat)
    ensures 1 <= r <= MaxLimit
    ensures 1 <= limit <= MaxLimit ==> r == limit
    ensures limit < 1 ==> r == 1
    ensures limit > MaxLimit ==> r == MaxLimit
  {
    if limit < 1 then 1 else if limit > MaxLimit then MaxLimit else limit
  }

  /** `request_index_refresh`: sends a fresh index request with the current root and switches,
      and drops everything derived from the previous index. */
  function RequestIndexRefresh(app: App): (r: App)
    ensures Valid(app) ==> Valid(r)
    ensures SameSettings(app, r) && r.search == app.search && r.fileLists == app.fileLists
    ensures r.index == IndexBuildResult([], NoSource) && r.entries == [] && r.entryKinds == map[]
    ensures r.results == [] && r.currentRow.None? && r.preview == [] && r.previewCache == map[]
    ensures r.previews.pending.None?
    ensures r.indexing.next == SatInc(app.indexing.next) && r.indexing.alive == app.indexing.alive
    ensures app.indexing.alive ==>
      && r.indexing.pending == Some(app.indexing.next)
      && r.indexing.sent == app.indexing.sent
           + [IndexRequest(app.indexing.next, app.root, app.useFileList, app.includeFiles, app.includeDirs)]
    ensures !app.indexing.alive ==> r.indexing.pending.None? && r.indexing.sent == app.indexing.sent
  {
    var req := IndexRequest(app.indexing.next, app.root, app.useFileList, app.includeFiles, app.includeDirs);
    app.(indexing := Send(app.indexing, req),
         index := IndexBuildResult([], NoSource), entries := [], entryKinds := map[],
         previewCache := map[], previews := Settle(app.previews),
         results := [], currentRow := None, preview := [])
  }

  /** `FlistWalkerApp::new`: the limit is clamped, every id counter starts at 1, manifests, files
      and directories are switched on, regex is off, and a first index request goes out. Whether
      each worker accepts requests is a parameter. */
  function NewApp(root: Path, limit: nat, query: string,
                  searchAlive: bool, previewAlive: bool, indexAlive: bool, fileListAlive: bool): (r: App)
    ensures Valid(r)
    ensures r.root == root && r.query == query && r.limit == ClampLimit(limit)
    ensures r.useFileList && !r.useRegex && r.includeFiles && r.includeDirs
    ensures r.results == [] && r.pinned == {} && r.search.pending.None? && r.fileLists.pending.None?
    ensures indexAlive ==>
      r.indexing.pending == Some(1) && r.indexing.sent == [IndexRequest(1, root, true, true, true)]
    ensures !indexAlive ==> r.indexing.pending.None? && r.indexing.sent == []
  {
    var a := App(root, ClampLimit(limit), query, true, false, true, true,
                 IndexBuildResult([], NoSource), [], map[], [], {}, None, [], map[], true,
                 Open(searchAlive), Open(previewAlive), Open(indexAlive), Open(fileListAlive));
    RequestIndexRefresh(a)
  }

  // ---------------------------------------------------------------------------------------
  // Results, selection and preview
  // ---------------------------------------------------------------------------------------

  /** The first `limit` entries, each with score 0: what a blank query shows. */
  function FirstEntries(entries: seq<Path>, limit: nat): (r: seq<Hit>)
    ensures |r| == Min(limit, |entries|)
    ensures forall i :: 0 <= i < |r| ==> r[i] == Hit(entries[i], 0)
  {
    if limit == 0 || entries == [] then [] else [Hit(entries[0], 0)] + FirstEntries(entries[1..], limit - 1)
  }

  /** `current_result_kind`: the recorded kind (`true` for a directory) of the selected row. */
  function CurrentResultKind(app: App): (r: Option<bool>)
    ensures r.Some? <==> CurrentPath(app).Some? && CurrentPath(app).value in app.entryKinds
    ensures r.Some? ==> r.value == app.entryKinds[CurrentPath(app).value]
  {
    match CurrentPath(app)
    case None => None
    case Some(p) => if p in app.entryKinds then Some(app.entryKinds[p]) else None
  }

  /** `request_preview_for_current`, on the preview text and the preview stream: with no
      selected row the preview is cleared; a cached preview is shown at once; a row of unknown
      kind shows nothing; otherwise a request for the row's path and kind goes out and a
      placeholder is shown until it is answered (a refused send shows "<preview unavailable>"). */
  function PreviewFor(current: Option<Path>, cache: map<Path, string>, kinds: map<Path, bool>,
                      s: Stream<PreviewRequest>): (r: (string, Stream<PreviewRequest>))
    ensures r.1.alive == s.alive
    ensures StreamValid(s) ==> StreamValid(r.1)
    ensures r.1.pending.Some? ==>
      && current.Some? && current.value in kinds && r.1.sent != []
      && Last(r.1.sent) == PreviewRequest(r.1.pending.value, current.value, kinds[current.value])
    ensures current.None? ==> r.0 == [] && r.1.pending.None? && r.1.sent == s.sent
    ensures current.Some? && current.value in cache ==>
      r.0 == cache[current.value] && r.1.pending.None? && r.1.sent == s.sent
    ensures current.Some? && current.value !in cache && current.value !in kinds ==>
      r.0 == [] && r.1.pending.None? && r.1.sent == s.sent
    ensures current.Some? && current.value !in cache && current.value in kinds && s.alive ==>
      && r.0 == LoadingPreview
      && r.1.pending == Some(s.next)
      && r.1.sent == s.sent + [PreviewRequest(s.next, current.value, kinds[current.value])]
    ensures current.Some? && current.value !in cache && current.value in kinds && !s.alive ==>
      r.0 == PreviewUnavailable && r.1.pending.None? && r.1.sent == s.sent
  {
    match current
    case None => ([], Settle(s))
    case Some(p) =>
      if p in cache then (cache[p], Settle(s))
      else if p !in kinds then ([], Settle(s))
      else (if s.alive then LoadingPreview else PreviewUnavailable, Send(s, PreviewRequest(s.next, p, kinds[p])))
  }

  /** `request_preview_for_current` on the whole state: only the preview and its stream change. */
  function RequestPreviewForCurrent(app: App): (r: App)
    ensures SameSettings(app, r) && SameIndex(app, r) && r.search == app.search
    ensures r.results == app.results && r.currentRow == app.currentRow && r.previewCache == app.previewCache
    ensures r.scrollToCurrent == app.scrollToCurrent
    ensures (r.preview, r.previews) == PreviewFor(CurrentPath(app), app.previewCache, app.entryKinds, app.previews)
  {
    var (text, s) := PreviewFor(CurrentPath(app), app.previewCache, app.entryKinds, app.previews);
    app.(preview := text, previews := s)
  }

  /** `apply_results`: the results are replaced; the selected row is kept when it still points
      into them and otherwise moves to the last row (the first when nothing was selected); with
      no results nothing is selected and the preview is cleared. */
  function ApplyResults(app: App, results: seq<Hit>): (r: App)
    ensures StreamsOk(app) ==> Valid(r)
    ensures SameSettings(app, r) && SameIndex(app, r) && r.search == app.search && r.previewCache == app.previewCache
    ensures r.results == results
    ensures results == [] ==> r.currentRow.None? && r.preview == [] && r.previews.pending.None?
    ensures results != [] ==> r.currentRow.Some? && r.currentRow.value < |results| && r.scrollToCurrent
    ensures results != [] && app.currentRow.Some? && app.currentRow.value < |results| ==> r.currentRow == app.currentRow
    ensures results != [] && app.currentRow.Some? && app.currentRow.value >= |results| ==> r.currentRow == Some(|results| - 1)
    ensures results != [] && app.currentRow.None? ==> r.currentRow == Some(0)
  {
    if results == [] then
      app.(results := [], currentRow := None, preview := [], previews := Settle(app.previews))
    else
      var row := Min(app.currentRow.GetOr(0), |results| - 1);
      RequestPreviewForCurrent(app.(results := results, currentRow := Some(row))).(scrollToCurrent := true)
  }

  /** `enqueue_search_request`: the query, the entry snapshot and the settings go to the search
      worker under a fresh id, which becomes the awaited one. */
  function EnqueueSearch(app: App): (r: App)
    ensures Valid(app) ==> Valid(r)
    ensures SameSettings(app, r) && SameIndex(app, r)
    ensures r.results == app.results && r.currentRow == app.currentRow && r.preview == app.preview
    ensures r.previews == app.previews && r.previewCache == app.previewCache
    ensures r.search.next == SatInc(app.search.next) && r.search.alive == app.search.alive
    ensures app.search.alive ==>
      && r.search.pending == Some(app.search.next)
      && r.search.sent == app.search.sent + [SearchRequest(app.search.next, app.query, app.entries, app.limit,
                                                           app.useRegex, app.root, PreferRelativeDisplay(app))]
    ensures !app.search.alive ==> r.search.pending.None? && r.search.sent == app.search.sent
  {
    var req := SearchRequest(app.search.next, app.query, app.entries, app.limit, app.useRegex, app.root,
                             PreferRelativeDisplay(app));
    app.(search := Send(app.search, req))
  }

  /** `update_results`: a blank query shows the first `limit` entries with score 0 at once and
      awaits no search; any other query goes to the search worker. */
  function UpdateResults(app: App): (r: App)
    ensures SameSettings(app, r) && SameIndex(app, r)
    ensures AllSpace(app.query) ==>
      && r.results == FirstEntries(app.entries, app.limit)
      && r.search.pending.None? && r.search.sent == app.search.sent
    ensures AllSpace(app.query) && app.currentRow.None? && r.results != [] ==> r.currentRow == Some(0)
    ensures !AllSpace(app.query) ==>
      && r.results == app.results && r.currentRow == app.currentRow
      && r.search == EnqueueSearch(app).search
  {
    if AllSpace(app.query) then ApplyResults(app.(search := Settle(app.search)), FirstEntries(app.entries, app.limit))
    else EnqueueSearch(app)
  }

  /** `poll_search_response`: every queued answer is read; only the one carrying the awaited id
      is applied, and it ends the wait. */
  function PollSearchResponse(app: App, inbox: seq<SearchResponse>): (r: App)
    ensures SameSettings(app, r) && SameIndex(app, r)
    ensures r.search.sent == app.search.sent && r.search.next == app.search.next
    ensures (forall k :: 0 <= k < |inbox| ==> app.search.pending != Some(inbox[k].id)) ==> r == app
    decreases |inbox|
  {
    if inbox == [] then app
    else
      var resp := inbox[0];
      var a := if app.search.pending == Some(resp.id)
               then ApplyResults(app.(search := Settle(app.search)), resp.results)
               else app;
      PollSearchResponse(a, inbox[1..])
  }

  /** `poll_preview_response`: only the awaited answer is taken; it ends the wait and is cached
      for its path, and it becomes the shown preview when that path is still the selected row. */
  function PollPreviewResponse(app: App, inbox: seq<PreviewResponse>): (r: App)
    ensures SameSettings(app, r) && SameIndex(app, r) && r.search == app.search
    ensures r.results == app.results && r.currentRow == app.currentRow
    ensures r.previews.sent == app.previews.sent && r.previews.next == app.previews.next
    ensures (forall k :: 0 <= k < |inbox| ==> app.previews.pending != Some(inbox[k].id)) ==> r == app
    decreases |inbox|
  {
    if inbox == [] then app
    else
      var resp := inbox[0];
      var a :=
        if app.previews.pending != Some(resp.id) then app
        else
          var cached := app.(previews := Settle(app.previews),
                             previewCache := app.previewCache[resp.path := resp.preview]);
          if CurrentPath(app) == Some(resp.path) then cached.(preview := resp.preview) else cached;
      PollPreviewResponse(a, inbox[1..])
  }

  // ---------------------------------------------------------------------------------------
  // Index messages
  // ---------------------------------------------------------------------------------------

  /** The kinds recorded for a batch, entry by entry, a later entry for a path overriding an
      earlier one. */
  function RecordKinds(kinds: map<Path, bool>, es: seq<IndexEntry>): (r: map<Path, bool>)
    ensures forall p :: p in r <==> p in kinds || exists i :: 0 <= i < |es| && es[i].path == p
    ensures forall p :: p in kinds && (forall i :: 0 <= i < |es| ==> es[i].path != p) ==> r[p] == kinds[p]
    ensures forall i :: 0 <= i < |es| ==> r[es[i].path] == es[i].isDir || exists j :: i < j < |es| && es[j].path == es[i].path
    decreases |es|
  {
    if es == [] then kinds
    else
      var r := RecordKinds(kinds[es[0].path := es[0].isDir], es[1..]);
      assert forall i :: 1 <= i < |es| ==> es[i] == es[1..][i - 1];
      r
  }

  /** An index message belongs to the awaited request. */
  predicate Relevant(app: App, m: IndexResponse) {
    app.indexing.pending == Some(m.id)
  }

  /** One message of `poll_index_response`'s loop. A message for any other request is skipped.
      `Started` records the source; `Batch` appends its paths to the growing index and records
      their kinds; `Finished` records the source, publishes the grown index as the searched
      entries, ends the wait and refreshes the results; `Failed` only ends the wait. */
  function HandleIndexMessage(app: App, m: IndexResponse): (r: App)
    ensures !Relevant(app, m) ==> r == app
    ensures Relevant(app, m) && !m.Finished? ==> SameSettings(app, r) && r.entries == app.entries && r.results == app.results
    ensures Relevant(app, m) && m.Batch? ==>
      && r.index.entries == app.index.entries + PathsOf(m.entries)
      && r.index.source == app.index.source && r.indexing == app.indexing
    ensures Relevant(app, m) && m.Started? ==>
      r.index == IndexBuildResult(app.index.entries, m.source) && r.indexing == app.indexing
    ensures Relevant(app, m) && (m.Finished? || m.Failed?) ==>
      r.indexing.pending.None? && r.indexing.sent == app.indexing.sent && r.indexing.next == app.indexing.next
    ensures Relevant(app, m) && m.Finished? ==>
      && r.index == IndexBuildResult(app.index.entries, m.source)
      && r.entries == app.index.entries
    ensures Relevant(app, m) && m.Failed? ==> r == app.(indexing := Settle(app.indexing))
  {
    if !Relevant(app, m) then app
    else
      match m
      case Started(_, source) => app.(index := app.index.(source := source))
      case Batch(_, es) =>
        app.(index := app.index.(entries := app.index.entries + PathsOf(es)),
             entryKinds := RecordKinds(app.entryKinds, es))
      case Finished(_, source) =>
        UpdateResults(app.(index := app.index.(source := source), entries := app.index.entries,
                           indexing := Settle(app.indexing)))
      case Failed(_, _) => app.(indexing := Settle(app.indexing))
  }

  /** What handling a run of messages leaves: the state, how many messages were relevant, and
      whether a relevant batch was among them. */
  datatype Drain = Drain(app: App, accepted: nat, sawBatch: bool)

  /** The messages handled in order. */
  function Absorb(app: App, ms: seq<IndexResponse>): Drain
    decreases |ms|
  {
    if ms == [] then Drain(app, 0, false)
    else
      var d := Absorb(app, ms[..|ms| - 1]);
      var m := ms[|ms| - 1];
      if Relevant(d.app, m) then Drain(HandleIndexMessage(d.app, m), d.accepted + 1, d.sawBatch || m.Batch?)
      else d
  }

  lemma AbsorbSnoc(app: App, ms: seq<IndexResponse>, i: nat)
    requires i < |ms|
    ensures var d := Absorb(app, ms[..i]);
      Absorb(app, ms[..i + 1])
        == if Relevant(d.app, ms[i]) then Drain(HandleIndexMessage(d.app, ms[i]), d.accepted + 1, d.sawBatch || ms[i].Batch?)
           else d
  {
    assert ms[..i + 1][..i] == ms[..i];
  }

  /** The incremental refresh: the grown index becomes the searched snapshot. */
  function IncrementalRefresh(app: App): App {
    UpdateResults(app.(entries := app.index.entries))
  }

  /** `poll_index_response`: messages are taken in order; skipped ones do not count, and reading
      stops after the twelfth relevant message or once the frame budget has run out (`expired(k)`
      says whether it has after `k` relevant messages). If a relevant batch arrived and the
      50 ms refresh interval has passed (`refreshDue`), the grown index is searched at once.
      `consumed` is how many queued messages were read; the rest stay queued. */
  method PollIndexResponse(app: App, inbox: seq<IndexResponse>, expired: nat -> bool, refreshDue: bool)
    returns (r: App, consumed: nat)
    ensures consumed <= |inbox|
    ensures Absorb(app, inbox[..consumed]).accepted <= MaxIndexMessagesPerFrame
    ensures consumed < |inbox| ==>
      && 0 < consumed
      && Relevant(Absorb(app, inbox[..consumed - 1]).app, inbox[consumed - 1])
      && (Absorb(app, inbox[..consumed]).accepted == MaxIndexMessagesPerFrame
          || expired(Absorb(app, inbox[..consumed]).accepted))
    ensures var d := Absorb(app, inbox[..consumed]);
      r == if d.sawBatch && refreshDue then IncrementalRefresh(d.app) else d.app
  {
    var a := app;
    var processed := 0;
    var needsRefresh := false;
    consumed := 0;
    while consumed < |inbox|
      invariant consumed <= |inbox|
      invariant Absorb(app, inbox[..consumed]) == Drain(a, processed, needsRefresh)
      invariant processed < MaxIndexMessagesPerFrame
    {
      var m := inbox[consumed];
      AbsorbSnoc(app, inbox, consumed);
      consumed := consumed + 1;
      if !Relevant(a, m) {
        continue;
      }
      a := HandleIndexMessage(a, m);
      needsRefresh := needsRefresh || m.Batch?;
      processed := processed + 1;
      if processed >= MaxIndexMessagesPerFrame || expired(processed) {
        break;
      }
    }
    r := if needsRefresh && refreshDue then IncrementalRefresh(a) else a;
  }

  // ---------------------------------------------------------------------------------------
  // Selection
  // ---------------------------------------------------------------------------------------

  /** `(row + delta).clamp(0, n - 1)`. */
  function ClampRow(row: int, n: nat): (r: nat)
    requires n > 0
    ensures r < n
    ensures 0 <= row < n ==> r == row
    ensures row < 0 ==> r == 0
    ensures row >= n ==> r == n - 1
  {
    if row < 0 then 0 else if row >= n then n - 1 else row
  }

  /** `move_row`: with results, the selection moves by `delta` rows (from the first row when
      nothing is selected), stopping at either end, and the new row's preview is requested;
      without results nothing happens. */
  function MoveRow(app: App, delta: int): (r: App)
    ensures SameSettings(app, r) && SameIndex(app, r) && r.search == app.search && r.results == app.results
    ensures app.results == [] ==> r == app
    ensures app.results != [] ==>
      && r.currentRow == Some(ClampRow(app.currentRow.GetOr(0) + delta, |app.results|))
      && r.scrollToCurrent
  {
    if app.results == [] then app
    else
      var row := ClampRow(app.currentRow.GetOr(0) + delta, |app.results|);
      RequestPreviewForCurrent(app.(currentRow := Some(row), scrollToCurrent := true))
  }

  /** The pin set after toggling the selected row's path. */
  function TogglePin(pinned: set<Path>, current: Option<Path>): (r: set<Path>)
    ensures current.None? ==> r == pinned
    ensures current.Some? ==> (current.value in r <==> current.value !in pinned)
    ensures current.Some? ==> r - {current.value} == pinned - {current.value}
  {
    match current
    case None => pinned
    case Some(p) => if p in pinned then pinned - {p} else pinned + {p}
  }

  /** `toggle_pin_and_move`: the selected row's path is pinned or unpinned, then the selection
      moves by `delta`. */
  function TogglePinAndMove(app: App, delta: int): (r: App)
    ensures r.pinned == TogglePin(app.pinned, CurrentPath(app))
    ensures r == MoveRow(app.(pinned := r.pinned), delta)
  {
    MoveRow(app.(pinned := TogglePin(app.pinned, CurrentPath(app))), delta)
  }

  predicate StrictlySorted(s: seq<Path>) {
    forall i, j :: 0 <= i < j < |s| ==> PathLess(s[i], s[j])
  }

  /** Inserts `x` at its place in a sorted sequence. */
  function InsertSorted(s: seq<Path>, x: Path): (r: seq<Path>)
    requires StrictlySorted(s) && x !in s
    ensures StrictlySorted(r)
    ensures |r| == |s| + 1
    ensures forall y :: y in r <==> y in s || y == x
    decreases |s|
  {
    if s == [] then [x]
    else if PathLess(x, s[0]) then
      assert forall j :: 0 <= j < |s| ==> PathLess(x, s[j]) by {
        forall j | 0 <= j < |s| {
          PathLessIsStrictTotalOrder(x, s[0], s[j]);
        }
      }
      [x] + s
    else
      assert x != s[0] by { assert s[0] in s; }
      PathLessIsStrictTotalOrder(x, s[0], x);
      assert PathLess(s[0], x);
      var t := InsertSorted(s[1..], x);
      assert forall y :: y in s <==> y == s[0] || y in s[1..] by {
        assert s == [s[0]] + s[1..];
      }
      assert forall j :: 0 <= j < |t| ==> PathLess(s[0], t[j]) by {
        forall j | 0 <= j < |t| ensures PathLess(s[0], t[j]) {
          assert t[j] in t;
          if t[j] != x {
            var k :| 0 <= k < |s| - 1 && s[1..][k] == t[j];
            assert s[k + 1] == t[j];
          }
        }
      }
      [s[0]] + t
  }

  /** `selected_paths`: the pinned paths in path order when any are pinned, else the selected
      row's path, else nothing. */
  method SelectedPaths(app: App) returns (out: seq<Path>)
    ensures app.pinned != {} ==>
      && StrictlySorted(out)
      && |out| == |app.pinned|
      && (forall p :: p in out <==> p in app.pinned)
    ensures app.pinned == {} && CurrentPath(app).None? ==> out == []
    ensures app.pinned == {} && CurrentPath(app).Some? ==> out == [CurrentPath(app).value]
  {
    if app.pinned == {} {
      match CurrentPath(app)
      case None => return [];
      case Some(p) => return [p];
    }
    var rest := app.pinned;
    out := [];
    while rest != {}
      invariant StrictlySorted(out)
      invariant forall p :: p in app.pinned <==> p in out || p in rest
      invariant forall p :: p in out ==> p !in rest
      invariant |out| + |rest| == |app.pinned|
      decreases |rest|
    {
      var x :| x in rest;
      out := InsertSorted(out, x);
      rest := rest - {x};
    }
  }

  /** `clear_query_and_selection`: the query and the pins are cleared and the selection dropped,
      so the first `limit` entries are shown with the first of them selected. */
  function ClearQueryAndSelection(app: App): (r: App)
    ensures r.query == [] && r.pinned == {}
    ensures r.root == app.root && r.limit == app.limit && SameIndex(app, r)
    ensures r.results == FirstEntries(app.entries, app.limit)
    ensures r.results != [] ==> r.currentRow == Some(0)
    ensures r.search.pending.None?
  {
    UpdateResults(app.(query := [], pinned := {}, currentRow := None, preview := []))
  }

  // ---------------------------------------------------------------------------------------
  // File-list creation
  // ---------------------------------------------------------------------------------------

  /** `create_filelist`: ignored while a creation is running; otherwise a request with the root
      and the kind switches goes to the file-list worker under a fresh id. */
  function CreateFileList(app: App): (r: App)
    ensures app.fileLists.busy ==> r == app
    ensures !app.fileLists.busy ==>
      && r == app.(fileLists := r.fileLists)
      && r.fileLists.next == SatInc(app.fileLists.next)
      && (app.fileLists.alive ==>
            && r.fileLists.pending == Some(app.fileLists.next)
            && r.fileLists.sent == app.fileLists.sent
                 + [FileListRequest(app.fileLists.next, app.root, app.includeFiles, app.includeDirs)])
      && (!app.fileLists.alive ==> r.fileLists.pending.None? && r.fileLists.sent == app.fileLists.sent)
  {
    if app.fileLists.busy then app
    else
      var req := FileListRequest(app.fileLists.next, app.root, app.includeFiles, app.includeDirs);
      app.(fileLists := Send(app.fileLists, req))
  }

  /** One answer of `poll_file_list_response`: ignored unless a creation is awaited and the id
      is the awaited one; a matching answer ends the wait, and a successful one re-indexes when
      manifests are in use. */
  function HandleFileListAnswer(app: App, resp: FileListResponse): (r: App)
    ensures app.fileLists.pending != Some(resp.id) ==> r == app
    ensures app.fileLists.pending == Some(resp.id) && !(resp.FileListFinished? && app.useFileList) ==>
      r == app.(fileLists := Settle(app.fileLists))
    ensures app.fileLists.pending == Some(resp.id) && resp.FileListFinished? && app.useFileList ==>
      r == RequestIndexRefresh(app.(fileLists := Settle(app.fileLists)))
  {
    match app.fileLists.pending
    case None => app
    case Some(id) =>
      if resp.id != id then app
      else
        var a := app.(fileLists := Settle(app.fileLists));
        if resp.FileListFinished? && app.useFileList then RequestIndexRefresh(a) else a
  }

  /** `poll_filelist_response`: every queued answer is handled in order. */
  function PollFileListResponse(app: App, inbox: seq<FileListResponse>): (r: App)
    ensures (forall k :: 0 <= k < |inbox| ==> app.fileLists.pending != Some(inbox[k].id)) ==> r == app
    decreases |inbox|
  {
    if inbox == [] then app else PollFileListResponse(HandleFileListAnswer(app, inbox[0]), inbox[1..])
  }

  // ---------------------------------------------------------------------------------------
  // The invariant is kept
  // ---------------------------------------------------------------------------------------

  lemma ValidWithSearch(app: App, s: Stream<SearchRequest>)
    requires Valid(app) && SearchOk(s)
    ensures Valid(app.(search := s))
  {
  }

  lemma UpdateResultsKeepsValid(app: App)
    requires Valid(app)
    ensures Valid(UpdateResults(app))
  {
    if AllSpace(app.query) {
      ValidWithSearch(app, Settle(app.search));
    }
  }

  lemma {:induction false} PollSearchKeepsValid(app: App, inbox: seq<SearchResponse>)
    requires Valid(app)
    ensures Valid(PollSearchResponse(app, inbox))
    decreases |inbox|
  {
    if inbox != [] {
      var resp := inbox[0];
      if app.search.pending == Some(resp.id) {
        ValidWithSearch(app, Settle(app.search));
        var a := ApplyResults(app.(search := Settle(app.search)), resp.results);
        PollSearchKeepsValid(a, inbox[1..]);
      } else {
        PollSearchKeepsValid(app, inbox[1..]);
      }
    }
  }

  lemma {:induction false} PollPreviewKeepsValid(app: App, inbox: seq<PreviewResponse>)
    requires Valid(app)
    ensures Valid(PollPreviewResponse(app, inbox))
    decreases |inbox|
  {
    if inbox != [] {
      var resp := inbox[0];
      if app.previews.pending == Some(resp.id) {
        var cached := app.(previews := Settle(app.previews),
                           previewCache := app.previewCache[resp.path := resp.preview]);
        var a := if CurrentPath(app) == Some(resp.path) then cached.(preview := resp.preview) else cached;
        assert Valid(a);
        PollPreviewKeepsValid(a, inbox[1..]);
      } else {
        PollPreviewKeepsValid(app, inbox[1..]);
      }
    }
  }

  lemma ValidWithIndexing(app: App, s: Stream<IndexRequest>)
    requires Valid(app) && IndexOk(s)
    ensures Valid(app.(indexing := s))
  {
  }

  lemma ValidWithFileLists(app: App, s: Stream<FileListRequest>)
    requires Valid(app) && FileListOk(s)
    ensures Valid(app.(fileLists := s))
  {
  }

  lemma HandleIndexKeepsValid(app: App, m: IndexResponse)
    requires Valid(app)
    ensures Valid(HandleIndexMessage(app, m))
  {
    if Relevant(app, m) && m.Finished? {
      var a := app.(index := app.index.(source := m.source), entries := app.index.entries,
                    indexing := Settle(app.indexing));
      assert Valid(a);
      UpdateResultsKeepsValid(a);
    }
  }

  lemma {:induction false} AbsorbKeepsValid(app: App, ms: seq<IndexResponse>)
    requires Valid(app)
    ensures Valid(Absorb(app, ms).app)
    decreases |ms|
  {
    if ms != [] {
      AbsorbKeepsValid(app, ms[..|ms| - 1]);
      HandleIndexKeepsValid(Absorb(app, ms[..|ms| - 1]).app, ms[|ms| - 1]);
    }
  }

  /** Every frame's index polling keeps the invariant, refresh or not. */
  lemma PollIndexKeepsValid(app: App, ms: seq<IndexResponse>, refresh: bool)
    requires Valid(app)
    ensures var d := Absorb(app, ms);
      Valid(if refresh then IncrementalRefresh(d.app) else d.app)
  {
    AbsorbKeepsValid(app, ms);
    var a := Absorb(app, ms).app;
    assert Valid(a.(entries := a.index.entries));
    UpdateResultsKeepsValid(a.(entries := a.index.entries));
  }

  lemma MoveRowKeepsValid(app: App, delta: int)
    requires Valid(app)
    ensures Valid(MoveRow(app, delta))
  {
    if app.results != [] {
      var row := ClampRow(app.currentRow.GetOr(0) + delta, |app.results|);
      var a := app.(currentRow := Some(row), scrollToCurrent := true);
      assert StreamsOk(a);
      assert SelectionOk(a.results, a.currentRow);
    }
  }

  lemma TogglePinKeepsValid(app: App, delta: int)
    requires Valid(app)
    ensures Valid(TogglePinAndMove(app, delta))
  {
    var a := app.(pinned := TogglePin(app.pinned, CurrentPath(app)));
    assert Valid(a);
    MoveRowKeepsValid(a, delta);
  }

  lemma ClearQueryKeepsValid(app: App)
    requires Valid(app)
    ensures Valid(ClearQueryAndSelection(app))
  {
    var a := app.(query := [], pinned := {}, currentRow := None, preview := []);
    assert StreamsOk(a);
    assert StreamsOk(a.(search := Settle(a.search)));
  }

  lemma CreateFileListKeepsValid(app: App)
    requires Valid(app)
    ensures Valid(CreateFileList(app))
  {
    if !app.fileLists.busy {
      var req := FileListRequest(app.fileLists.next, app.root, app.includeFiles, app.includeDirs);
      ValidWithFileLists(app, Send(app.fileLists, req));
    }
  }

  lemma {:induction false} PollFileListKeepsValid(app: App, inbox: seq<FileListResponse>)
    requires Valid(app)
    ensures Valid(PollFileListResponse(app, inbox))
    decreases |inbox|
  {
    if inbox != [] {
      var resp := inbox[0];
      if app.fileLists.pending == Some(resp.id) {
        ValidWithFileLists(app, Settle(app.fileLists));
      }
      PollFileListKeepsValid(HandleFileListAnswer(app, resp), inbox[1..]);
    }
  }

  // ---------------------------------------------------------------------------------------
  // Answers reach the state that awaits them, and only that state
  // ---------------------------------------------------------------------------------------

  /** Of the queued search answers, the first carrying the awaited id is the one shown; the
      wait ends with it, so later copies of it are skipped. */
  lemma {:induction false} FirstAwaitedSearchWins(app: App, inbox: seq<SearchResponse>, k: nat)
    requires k < |inbox| && app.search.pending == Some(inbox[k].id)
    requires forall j :: 0 <= j < k ==> inbox[j].id != inbox[k].id
    ensures PollSearchResponse(app, inbox).results == inbox[k].results
    ensures PollSearchResponse(app, inbox).search.pending.None?
    decreases k
  {
    if k == 0 {
      var a := ApplyResults(app.(search := Settle(app.search)), inbox[0].results);
      assert forall j :: 0 <= j < |inbox[1..]| ==> a.search.pending != Some(inbox[1..][j].id);
    } else {
      assert app.search.pending != Some(inbox[0].id);
      FirstAwaitedSearchWins(app, inbox[1..], k - 1);
    }
  }

  /** The search worker's answer to the awaited request is what the window shows. */
  lemma SearchAnswerShown(app: App, re: RegexEngine, base: BaseScore)
    requires Valid(app) && app.search.pending.Some?
    ensures var resp := ServeSearch(Last(app.search.sent), re, base);
      && PollSearchResponse(app, [resp]).results == resp.results
      && PollSearchResponse(app, [resp]).search.pending.None?
  {
    FirstAwaitedSearchWins(app, [ServeSearch(Last(app.search.sent), re, base)], 0);
  }

  /** Once a newer search is sent, answers to every earlier request change nothing. */
  lemma SupersededSearchIgnored(app: App, inbox: seq<SearchResponse>)
    requires Valid(app) && app.search.alive && app.search.next < U64Max
    requires forall k :: 0 <= k < |inbox| ==> inbox[k].id < app.search.next
    ensures PollSearchResponse(EnqueueSearch(app), inbox) == EnqueueSearch(app)
  {
  }

  /** The preview worker's answer to the awaited request is cached and shown. */
  lemma PreviewAnswerShown(app: App, build: (Path, bool) -> string)
    requires Valid(app) && app.previews.pending.Some?
    ensures var resp := ServePreview(Last(app.previews.sent), build);
      var r := PollPreviewResponse(app, [resp]);
      && r.preview == resp.preview
      && resp.path in r.previewCache && r.previewCache[resp.path] == resp.preview
      && r.previews.pending.None?
  {
  }

  lemma AbsorbStarted(app: App, id: nat, source: IndexSource)
    requires app.indexing.pending == Some(id)
    ensures var d := Absorb(app, [Started(id, source)]);
      && d.app.indexing == app.indexing
      && d.app.index == IndexBuildResult(app.index.entries + PathsOf(EntriesOf([])), source)
      && d.accepted == 1
  {
    assert [Started(id, source)][..0] == [];
    assert app.index.entries + PathsOf([]) == app.index.entries;
  }

  /** A relevant batch at the end of a run of messages appends its paths to the growing index
      and changes nothing else of the index or its stream. */
  lemma AbsorbBatch(app: App, ms: seq<IndexResponse>)
    requires |ms| >= 1 && ms[|ms| - 1].Batch?
    requires Absorb(app, ms[..|ms| - 1]).app.indexing.pending == Some(ms[|ms| - 1].id)
    ensures var d := Absorb(app, ms[..|ms| - 1]);
      var e := Absorb(app, ms);
      && e.app.indexing == d.app.indexing
      && e.app.index == IndexBuildResult(d.app.index.entries + PathsOf(ms[|ms| - 1].entries), d.app.index.source)
      && e.accepted == d.accepted + 1
  {
    AbsorbSnoc(app, ms, |ms| - 1);
    assert ms[..|ms|] == ms;
  }

  /** The `Started` message and the batches of the awaited run grow the index by exactly the
      streamed paths, in order, and record the announced source. */
  lemma {:induction false} BatchesGrowIndex(app: App, id: nat, source: IndexSource, ms: seq<IndexResponse>)
    requires app.indexing.pending == Some(id)
    requires |ms| >= 1 && ms[0] == Started(id, source) && WellBatched(id, ms[1..])
    ensures var d := Absorb(app, ms);
      && d.app.indexing == app.indexing
      && d.app.index == IndexBuildResult(app.index.entries + PathsOf(EntriesOf(ms)), source)
      && d.accepted == |ms|
    decreases |ms|
  {
    if |ms| == 1 {
      assert ms == [Started(id, source)];
      AbsorbStarted(app, id, source);
      assert ms[..0] == [];
      assert EntriesOf(ms) == EntriesOf([]);
    } else {
      var init := ms[..|ms| - 1];
      assert WellBatched(id, init[1..]) by {
        assert init[1..] == ms[1..][..|ms| - 2];
      }
      BatchesGrowIndex(app, id, source, init);
      GrowStep(app, id, source, ms);
    }
  }

  /** The inductive step of `BatchesGrowIndex`: one more batch of the awaited run. */
  lemma GrowStep(app: App, id: nat, source: IndexSource, ms: seq<IndexResponse>)
    requires |ms| >= 2 && WellBatched(id, ms[1..])
    requires var d := Absorb(app, ms[..|ms| - 1]);
      && d.app.indexing == app.indexing && app.indexing.pending == Some(id)
      && d.app.index == IndexBuildResult(app.index.entries + PathsOf(EntriesOf(ms[..|ms| - 1])), source)
      && d.accepted == |ms| - 1
    ensures var e := Absorb(app, ms);
      && e.app.indexing == app.indexing
      && e.app.index == IndexBuildResult(app.index.entries + PathsOf(EntriesOf(ms)), source)
      && e.accepted == |ms|
  {
    var init := ms[..|ms| - 1];
    var last := ms[|ms| - 1];
    var e := Absorb(app, ms);
    assert e.app.indexing == app.indexing && e.app.index.source == source && e.accepted == |ms| by {
      assert last == ms[1..][|ms| - 2];
      AbsorbBatch(app, ms);
    }
    var A := app.index.entries;
    var X := PathsOf(EntriesOf(init));
    var Y := PathsOf(last.entries);
    assert e.app.index.entries == (A + X) + Y by {
      assert last == ms[1..][|ms| - 2];
      AbsorbBatch(app, ms);
    }
    assert PathsOf(EntriesOf(ms)) == X + Y by {
      assert EntriesOf(ms) == EntriesOf(init) + Payload(last);
      PathsOfAppend(EntriesOf(init), last.entries);
    }
    AppendAssoc(A, X, Y);
  }

  /** A complete run for the awaited request publishes exactly the streamed paths, in order,
      with the run's source, and ends the wait. */
  lemma RunDelivers(app: App, id: nat, source: IndexSource, ms: seq<IndexResponse>)
    requires app.indexing.pending == Some(id)
    requires Run(id, source, ms)
    ensures var d := Absorb(app, ms);
      && d.app.index == IndexBuildResult(app.index.entries + PathsOf(EntriesOf(ms)), source)
      && d.app.entries == d.app.index.entries
      && d.app.indexing.pending.None?
      && d.accepted == |ms|
  {
    var init := ms[..|ms| - 1];
    var last := ms[|ms| - 1];
    var d := Absorb(app, init);
    assert d.app.indexing == app.indexing && d.accepted == |init|
        && d.app.index == IndexBuildResult(app.index.entries + PathsOf(EntriesOf(init)), source) by {
      assert init[1..] == ms[1..|ms| - 1];
      BatchesGrowIndex(app, id, source, init);
    }
    assert last == Finished(id, source) && Relevant(d.app, last);
    assert Absorb(app, ms) == Drain(HandleIndexMessage(d.app, last), d.accepted + 1, d.sawBatch);
    assert EntriesOf(ms) == EntriesOf(init) by {
      assert EntriesOf(ms) == EntriesOf(init) + Payload(last);
    }
  }

  /** After a refresh, the run the index worker streams for it becomes the searched entries:
      exactly the streamed paths in order, nothing left from the previous index. */
  lemma RefreshThenRunIndexes(app: App, source: IndexSource, ms: seq<IndexResponse>)
    requires app.indexing.alive
    requires Run(app.indexing.next, source, ms)
    ensures var d := Absorb(RequestIndexRefresh(app), ms);
      && d.app.entries == PathsOf(EntriesOf(ms))
      && d.app.index.source == source
      && d.app.indexing.pending.None?
  {
    var a := RequestIndexRefresh(app);
    RunDelivers(a, app.indexing.next, source, ms);
    assert a.index.entries + PathsOf(EntriesOf(ms)) == PathsOf(EntriesOf(ms));
  }

  /** After a refresh, messages of every earlier index request are skipped without effect. */
  lemma {:induction false} OldIndexMessagesSkipped(app: App, ms: seq<IndexResponse>)
    requires app.indexing.alive
    requires forall k :: 0 <= k < |ms| ==> ms[k].id < app.indexing.next
    ensures Absorb(RequestIndexRefresh(app), ms) == Drain(RequestIndexRefresh(app), 0, false)
    decreases |ms|
  {
    if ms != [] {
      OldIndexMessagesSkipped(app, ms[..|ms| - 1]);
    }
  }

  /** An answer carrying the awaited file-list id ends the wait; a created list is re-indexed at
      once when manifests are in use, anything else changes nothing more. */
  lemma AwaitedFileListAnswerHandled(app: App, resp: FileListResponse)
    requires app.fileLists.pending == Some(resp.id)
    ensures var r := PollFileListResponse(app, [resp]);
      && r.fileLists.pending.None?
      && (resp.FileListFinished? && app.useFileList && app.indexing.alive ==>
            r.indexing.pending == Some(app.indexing.next) && r.entries == [])
      && (!(resp.FileListFinished? && app.useFileList) ==> r == app.(fileLists := Settle(app.fileLists)))
  {
    assert PollFileListResponse(app, [resp]) == HandleFileListAnswer(app, resp) by {
      assert [resp][1..] == [];
    }
  }

  /** The file-list worker's answer to the awaited request is that awaited answer. */
  lemma FileListAnswerHandled(app: App, fs: FileSystem, style: LineStyle)
    requires Valid(app) && app.fileLists.pending.Some?
    ensures var resp := ServeFileList(fs, Last(app.fileLists.sent), style).1;
      var r := PollFileListResponse(app, [resp]);
      && r.fileLists.pending.None?
      && (resp.FileListFinished? && app.useFileList && app.indexing.alive ==>
            r.indexing.pending == Some(app.indexing.next) && r.entries == [])
  {
    var resp := ServeFileList(fs, Last(app.fileLists.sent), style).1;
    AwaitedFileListAnswerHandled(app, resp);
  }

  /** Pinning the selected row twice, without moving, restores the pins. */
  lemma TogglePinTwice(app: App)
    requires Valid(app)
    ensures TogglePinAndMove(TogglePinAndMove(app, 0), 0).pinned == app.pinned
  {
    var once := TogglePinAndMove(app, 0);
    assert CurrentPath(once) == CurrentPath(app);
  }
}
