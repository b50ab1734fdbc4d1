/** The per-track loop of `POST /api/spotify/import`
    (app/api/spotify/import/route.ts): each fetched track is searched in the
    catalog and either imported into the target playlist, skipped because
    the song is already there, or failed with a reason. Before each track a
    progress snapshot is written for the poll endpoint.

    The catalog search is an input `search` (a query's outcome), and so are
    the database faults of the i-th track (`faults(i)`). The target
    playlist's rows are those of the `Playlists` module. */
module ImportRun {
  import opened Wrappers
  import opened Types
  import opened Text
  import opened Spotify
  import opened Playlists
  import opened Progress

  /** What `searchSongs(query)` does: return songs, or throw with a message. */
  datatype SearchOutcome = Found(songs: seq<Song>) | SearchThrew(message: string)

  /** Database faults while adding one track: the existence check fails
      with an error other than "not found" (PGRST116), or the insert fails. */
  datatype DbFault = NoFault | CheckFault(message: string) | InsertFault(message: string)

  /** What happened to one track. */
  datatype Outcome = Imported | Failed(reason: string) | Skipped(reason: string)

  /** One track's outcome and the target playlist's rows afterwards. */
  datatype Step = Step(outcome: Outcome, rows: seq<Member>)

  /** An entry of `results.errors`. */
  datatype TrackError = TrackError(track: string, reason: string)

  /** `${track.name}${artist ? ` by ${artist}` : ''}`. */
  function TrackName(t: ForeignTrack): (n: string)
    ensures FirstArtist(t) == [] ==> n == t.name
    ensures FirstArtist(t) != [] ==> n == t.name + " by " + FirstArtist(t)
  {
    if FirstArtist(t) == [] then t.name else t.name + " by " + FirstArtist(t)
  }

  /** How an error shows in a progress snapshot: "<track>: <reason>". */
  function ErrorLine(e: TrackError): string {
    e.track + ": " + e.reason
  }

  function ErrorLines(es: seq<TrackError>): (r: seq<string>)
    ensures |r| == |es|
    ensures forall i :: 0 <= i < |es| ==> r[i] == ErrorLine(es[i])
  {
    if es == [] then [] else [ErrorLine(es[0])] + ErrorLines(es[1..])
  }

  /** The catalog song a track resolves to, or why it does not: an empty
      query, a throwing search, no results, or a first result without an id
      each have their own reason. */
  function Lookup(t: ForeignTrack, search: string -> SearchOutcome): (r: Result<Song, string>)
    ensures SearchQuery(t) == [] ==> r == Err("Invalid search query")
    ensures SearchQuery(t) != [] && search(SearchQuery(t)).SearchThrew? ==>
      r == Err("Search failed: " + OrElse(search(SearchQuery(t)).message, "Search API error"))
    ensures SearchQuery(t) != [] && search(SearchQuery(t)) == Found([]) ==> r == Err("Not found in music library")
    ensures SearchQuery(t) != [] && search(SearchQuery(t)).Found? && |search(SearchQuery(t)).songs| > 0 ==>
      (search(SearchQuery(t)).songs[0].id == [] ==> r == Err("Invalid song data returned"))
    ensures r.Ok? <==> SearchQuery(t) != [] && search(SearchQuery(t)).Found? && |search(SearchQuery(t)).songs| > 0
                       && search(SearchQuery(t)).songs[0].id != []
    ensures r.Ok? ==> r.value == search(SearchQuery(t)).songs[0] && r.value.id != []
  {
    var q := SearchQuery(t);
    if q == [] then Err("Invalid search query")
    else match search(q)
      case SearchThrew(msg) => Err("Search failed: " + OrElse(msg, "Search API error"))
      case Found(songs) =>
        if |songs| == 0 then Err("Not found in music library")
        else if songs[0].id == [] then Err("Invalid song data returned")
        else Ok(songs[0])
  }

  /** Adding a resolved song: a failing existence check fails the track; a
      song already in the playlist is skipped; otherwise it is added as
      `addSongToPlaylist` adds it (next position), unless the insert fails. */
  function AddResolved(song: Song, rows: seq<Member>, fault: DbFault): (s: Step)
    ensures fault.CheckFault? ==> s == Step(Failed("Database error: " + OrElse(fault.message, "Unknown")), rows)
    ensures !fault.CheckFault? && IsExisting(rows, song.id) ==> s == Step(Skipped("Already in playlist"), rows)
    ensures fault.InsertFault? && !IsExisting(rows, song.id) ==> s == Step(Failed("Database error: " + fault.message), rows)
    ensures s.outcome.Imported? <==> fault.NoFault? && !IsExisting(rows, song.id)
    ensures s.outcome.Imported? ==> s.rows == AddSong(rows, song, true).rows
    ensures !s.outcome.Imported? ==> s.rows == rows
    ensures rows <= s.rows
  {
    match fault
    case CheckFault(msg) => Step(Failed("Database error: " + OrElse(msg, "Unknown")), rows)
    case InsertFault(msg) =>
      if IsExisting(rows, song.id) then Step(Skipped("Already in playlist"), rows)
      else Step(Failed("Database error: " + msg), rows)
    case NoFault =>
      if IsExisting(rows, song.id) then Step(Skipped("Already in playlist"), rows)
      else Step(Imported, AddSong(rows, song, true).rows)
  }

  /** One iteration of the loop body: look the track up, then add the song. */
  function ImportOne(t: ForeignTrack, rows: seq<Member>, search: string -> SearchOutcome, fault: DbFault): (s: Step)
    ensures Lookup(t, search).Err? ==> s == Step(Failed(Lookup(t, search).error), rows)
    ensures Lookup(t, search).Ok? ==> s == AddResolved(Lookup(t, search).value, rows, fault)
    ensures rows <= s.rows
  {
    match Lookup(t, search)
    case Err(reason) => Step(Failed(reason), rows)
    case Ok(song) => AddResolved(song, rows, fault)
  }

  /** The loop's accumulated state: the counters, the errors in push
      order, the target's rows, and every snapshot written so far. */
  datatype RunState = RunState(
    imported: nat,
    failed: nat,
    skipped: nat,
    errors: seq<TrackError>,
    rows: seq<Member>,
    writes: seq<Snapshot>)

  /** The error a track's outcome pushes, if any: failed and skipped
      tracks both push one. */
  function ErrorsOf(t: ForeignTrack, o: Outcome): (es: seq<TrackError>)
    ensures o.Imported? <==> es == []
    ensures |es| <= 1
    ensures !o.Imported? ==> es == [TrackError(TrackName(t), o.reason)]
  {
    match o
    case Imported => []
    case Failed(reason) => [TrackError(TrackName(t), reason)]
    case Skipped(reason) => [TrackError(TrackName(t), reason)]
  }

  /** The snapshot written before track `i` (`t`) of `total`. */
  function SnapshotBefore(st: RunState, i: nat, t: ForeignTrack, total: nat): Snapshot {
    Snapshot(i + 1, total, st.imported, st.failed, st.skipped, TrackName(t), ErrorLines(st.errors))
  }

  /** Iteration `i` of the loop over `total` tracks: write the snapshot,
      then classify the track and bump the matching counter. */
  function NextState(st: RunState, i: nat, t: ForeignTrack, total: nat,
                     search: string -> SearchOutcome, fault: DbFault): (r: RunState)
    ensures r.imported + r.failed + r.skipped == st.imported + st.failed + st.skipped + 1
    ensures |r.errors| - r.failed - r.skipped == |st.errors| - st.failed - st.skipped
    ensures st.errors <= r.errors
    ensures r.errors == st.errors + ErrorsOf(t, ImportOne(t, st.rows, search, fault).outcome)
    ensures r.writes == st.writes + [SnapshotBefore(st, i, t, total)]
    ensures r.rows == ImportOne(t, st.rows, search, fault).rows
    ensures r.imported == st.imported + if ImportOne(t, st.rows, search, fault).outcome.Imported? then 1 else 0
  {
    var snap := SnapshotBefore(st, i, t, total);
    var o := ImportOne(t, st.rows, search, fault);
    RunState(
      st.imported + (if o.outcome.Imported? then 1 else 0),
      st.failed + (if o.outcome.Failed? then 1 else 0),
      st.skipped + (if o.outcome.Skipped? then 1 else 0),
      st.errors + ErrorsOf(t, o.outcome),
      o.rows,
      st.writes + [snap])
  }

  /** The state after the loop has handled `tracks`, the first tracks of
      `total` fetched ones, starting from the target's rows `rows0`. Every
      track bumps exactly one counter; every failed or skipped track left
      one error; and the snapshot written before track `k` reads `k + 1`
      of `total`, with counts that add up to the `k` tracks before it. */
  function Run(tracks: seq<ForeignTrack>, total: nat, rows0: seq<Member>,
               search: string -> SearchOutcome, faults: nat -> DbFault): (st: RunState)
    ensures st.imported + st.failed + st.skipped == |tracks|
    ensures |st.errors| == st.failed + st.skipped
    ensures |st.writes| == |tracks|
    ensures forall k :: 0 <= k < |tracks| ==>
      st.writes[k].current == k + 1 && st.writes[k].total == total
      && st.writes[k].imported + st.writes[k].failed + st.writes[k].skipped == k
      && st.writes[k].currentTrack == TrackName(tracks[k])
    decreases |tracks|
  {
    if tracks == [] then RunState(0, 0, 0, [], rows0, [])
    else
      var n := |tracks| - 1;
      var prev := Run(tracks[..n], total, rows0, search, faults);
      var st := NextState(prev, n, tracks[n], total, search, faults(n));
      WritesExtend(tracks, total, prev.writes, st.writes, SnapshotBefore(prev, n, tracks[n], total));
      st
  }

  lemma WritesExtend(tracks: seq<ForeignTrack>, total: nat, prev: seq<Snapshot>, writes: seq<Snapshot>, snap: Snapshot)
    requires |tracks| > 0 && |prev| == |tracks| - 1 && writes == prev + [snap]
    requires forall k :: 0 <= k < |prev| ==>
      prev[k].current == k + 1 && prev[k].total == total
      && prev[k].imported + prev[k].failed + prev[k].skipped == k
      && prev[k].currentTrack == TrackName(tracks[..|prev|][k])
    requires snap.current == |prev| + 1 && snap.total == total
    requires snap.imported + snap.failed + snap.skipped == |prev| && snap.currentTrack == TrackName(tracks[|prev|])
    ensures forall k :: 0 <= k < |tracks| ==>
      writes[k].current == k + 1 && writes[k].total == total
      && writes[k].imported + writes[k].failed + writes[k].skipped == k
      && writes[k].currentTrack == TrackName(tracks[k])
  {
    forall k | 0 <= k < |tracks|
      ensures writes[k].current == k + 1 && writes[k].total == total
      && writes[k].imported + writes[k].failed + writes[k].skipped == k
      && writes[k].currentTrack == TrackName(tracks[k])
    {
      if k < |prev| {
        assert writes[k] == prev[k] && tracks[..|prev|][k] == tracks[k];
      }
    }
  }

  /** One more track extends the run by one iteration. */
  lemma RunSnoc(tracks: seq<ForeignTrack>, i: nat, total: nat, rows0: seq<Member>,
                search: string -> SearchOutcome, faults: nat -> DbFault)
    requires i < |tracks|
    ensures Run(tracks[..i + 1], total, rows0, search, faults)
      == NextState(Run(tracks[..i], total, rows0, search, faults), i, tracks[i], total, search, faults(i))
  {
    assert tracks[..i + 1][..i] == tracks[..i];
  }

  /** What track `k` comes to, met with the rows the tracks before it left. */
  function OutcomeAt(tracks: seq<ForeignTrack>, k: nat, total: nat, rows0: seq<Member>,
                     search: string -> SearchOutcome, faults: nat -> DbFault): Outcome
    requires k < |tracks|
  {
    ImportOne(tracks[k], Run(tracks[..k], total, rows0, search, faults).rows, search, faults(k)).outcome
  }

  /** The errors of the first `n` tracks: each failed or skipped track, in
      track order, contributes its own name and reason. */
  function ErrorsUpTo(tracks: seq<ForeignTrack>, n: nat, total: nat, rows0: seq<Member>,
                      search: string -> SearchOutcome, faults: nat -> DbFault): seq<TrackError>
    requires n <= |tracks|
  {
    if n == 0 then []
    else
      var earlier := ErrorsUpTo(tracks, n - 1, total, rows0, search, faults);
      earlier + ErrorsOf(tracks[n - 1], OutcomeAt(tracks, n - 1, total, rows0, search, faults))
  }

  /** The run's `errors` list one entry per failed or skipped track, in
      track order, naming that track and the reason it gave. */
  lemma RunErrorsInTrackOrder(tracks: seq<ForeignTrack>, total: nat, rows0: seq<Member>,
                              search: string -> SearchOutcome, faults: nat -> DbFault)
    ensures Run(tracks, total, rows0, search, faults).errors == ErrorsUpTo(tracks, |tracks|, total, rows0, search, faults)
  {
    RunErrorsUpTo(tracks, |tracks|, total, rows0, search, faults);
    assert tracks[..|tracks|] == tracks;
  }

  lemma {:induction false} RunErrorsUpTo(tracks: seq<ForeignTrack>, n: nat, total: nat, rows0: seq<Member>,
                                         search: string -> SearchOutcome, faults: nat -> DbFault)
    requires n <= |tracks|
    ensures Run(tracks[..n], total, rows0, search, faults).errors == ErrorsUpTo(tracks, n, total, rows0, search, faults)
    decreases n
  {
    if n > 0 {
      RunErrorsUpTo(tracks, n - 1, total, rows0, search, faults);
      RunSnoc(tracks, n - 1, total, rows0, search, faults);
    }
  }

  /** The progress store once the snapshots `writes` have been written in turn. */
  function AfterWrites(store0: Store, sessionId: string, writes: seq<Snapshot>): Store {
    if writes == [] then store0 else SetProgress(store0, sessionId, writes[|writes| - 1])
  }

  lemma WriteStep(store0: Store, sessionId: string, writes: seq<Snapshot>, snap: Snapshot)
    ensures SetProgress(AfterWrites(store0, sessionId, writes), sessionId, snap)
      == AfterWrites(store0, sessionId, writes + [snap])
  {
  }

  lemma ClearAfterWrites(store0: Store, sessionId: string, writes: seq<Snapshot>)
    ensures ClearProgress(AfterWrites(store0, sessionId, writes), sessionId) == ClearProgress(store0, sessionId)
  {
  }

  /** One iteration keeps both loop invariants of `ProcessTracks`. */
  lemma LoopStep(tracks: seq<ForeignTrack>, i: nat, rows0: seq<Member>, search: string -> SearchOutcome,
                 faults: nat -> DbFault, sessionId: string, store0: Store, st: RunState, store: Store)
    requires i < |tracks|
    requires st == Run(tracks[..i], |tracks|, rows0, search, faults)
    requires store == AfterWrites(store0, sessionId, st.writes)
    ensures NextState(st, i, tracks[i], |tracks|, search, faults(i)) == Run(tracks[..i + 1], |tracks|, rows0, search, faults)
    ensures SetProgress(store, sessionId, SnapshotBefore(st, i, tracks[i], |tracks|))
      == AfterWrites(store0, sessionId, NextState(st, i, tracks[i], |tracks|, search, faults(i)).writes)
  {
    RunSnoc(tracks, i, |tracks|, rows0, search, faults);
    WriteStep(store0, sessionId, st.writes, SnapshotBefore(st, i, tracks[i], |tracks|));
  }

  /** The import loop, writing each snapshot into the progress store under
      `sessionId` and removing that entry at the end. */
  method ProcessTracks(tracks: seq<ForeignTrack>, rows0: seq<Member>, search: string -> SearchOutcome,
                       faults: nat -> DbFault, sessionId: string, store0: Store)
    returns (st: RunState, store: Store)
    ensures st == Run(tracks, |tracks|, rows0, search, faults)
    ensures store == ClearProgress(store0, sessionId)
  {
    st := RunState(0, 0, 0, [], rows0, []);
    store := store0;
    var i := 0;
    while i < |tracks|
      invariant 0 <= i <= |tracks|
      invariant st == Run(tracks[..i], |tracks|, rows0, search, faults)
      invariant store == AfterWrites(store0, sessionId, st.writes)
    {
      LoopStep(tracks, i, rows0, search, faults, sessionId, store0, st, store);
      store := SetProgress(store, sessionId, SnapshotBefore(st, i, tracks[i], |tracks|));
      st := NextState(st, i, tracks[i], |tracks|, search, faults(i));
      i := i + 1;
    }
    assert tracks[..|tracks|] == tracks;
    ClearAfterWrites(store0, sessionId, st.writes);
    store := ClearProgress(store, sessionId);
  }

  /** The run keeps the target playlist's invariant: unique song ids and
      strictly increasing positions. */
  lemma {:induction false} RunKeepsWellFormed(tracks: seq<ForeignTrack>, total: nat, rows0: seq<Member>,
                                              search: string -> SearchOutcome, faults: nat -> DbFault)
    requires WellFormed(rows0)
    ensures WellFormed(Run(tracks, total, rows0, search, faults).rows)
    decreases |tracks|
  {
    if tracks != [] {
      var n := |tracks| - 1;
      var prev := Run(tracks[..n], total, rows0, search, faults);
      RunKeepsWellFormed(tracks[..n], total, rows0, search, faults);
      var lookup := Lookup(tracks[n], search);
      if lookup.Ok? {
        AddKeepsWellFormed(prev.rows, lookup.value, true);
      }
    }
  }

  /** The run only appends rows: the target's earlier rows stay, in place. */
  lemma {:induction false} RunOnlyAppends(tracks: seq<ForeignTrack>, total: nat, rows0: seq<Member>,
                                          search: string -> SearchOutcome, faults: nat -> DbFault)
    ensures rows0 <= Run(tracks, total, rows0, search, faults).rows
    decreases |tracks|
  {
    if tracks != [] {
      var n := |tracks| - 1;
      var prev := Run(tracks[..n], total, rows0, search, faults);
      RunOnlyAppends(tracks[..n], total, rows0, search, faults);
      StepAppends(prev, n, tracks[n], total, search, faults(n));
      PrefixTrans(rows0, prev.rows, Run(tracks, total, rows0, search, faults).rows);
    }
  }

  lemma StepAppends(st: RunState, i: nat, t: ForeignTrack, total: nat, search: string -> SearchOutcome, fault: DbFault)
    ensures st.rows <= NextState(st, i, t, total, search, fault).rows
  {
  }

  lemma PrefixTrans(a: seq<Member>, b: seq<Member>, c: seq<Member>)
    requires a <= b && b <= c
    ensures a <= c
  {
  }

  /** Some row of the playlist carries `songId`. */
  ghost predicate Contains(rows: seq<Member>, songId: string) {
    exists j :: 0 <= j < |rows| && rows[j].songId == songId
  }

  ghost predicate NoFaults(faults: nat -> DbFault) {
    forall i :: faults(i) == NoFault
  }

  /** The song track `t` resolves to, if any, is in the playlist. */
  ghost predicate Covered(rows: seq<Member>, t: ForeignTrack, search: string -> SearchOutcome) {
    Lookup(t, search).Ok? ==> Contains(rows, Lookup(t, search).value.id)
  }

  ghost predicate AllCovered(rows: seq<Member>, tracks: seq<ForeignTrack>, search: string -> SearchOutcome) {
    forall k :: 0 <= k < |tracks| ==> Covered(rows, tracks[k], search)
  }

  /** Without database faults, every track that resolves to a catalog song
      ends up with that song in the playlist: imported now, or already there. */
  lemma {:induction false} RunCoversResolved(tracks: seq<ForeignTrack>, total: nat, rows0: seq<Member>,
                                             search: string -> SearchOutcome, faults: nat -> DbFault)
    requires WellFormed(rows0) && NoFaults(faults)
    ensures AllCovered(Run(tracks, total, rows0, search, faults).rows, tracks, search)
    decreases |tracks|
  {
    if tracks != [] {
      var n := |tracks| - 1;
      var prev := Run(tracks[..n], total, rows0, search, faults);
      var rows := Run(tracks, total, rows0, search, faults).rows;
      RunCoversResolved(tracks[..n], total, rows0, search, faults);
      RunKeepsWellFormed(tracks[..n], total, rows0, search, faults);
      var next := NextState(prev, n, tracks[n], total, search, faults(n));
      assert rows == next.rows;
      StepCovers(prev, n, tracks[n], total, search, faults(n));
      StepAppends(prev, n, tracks[n], total, search, faults(n));
      CoveredExtend(prev.rows, rows, tracks, search);
    }
  }

  lemma CoveredExtend(prevRows: seq<Member>, rows: seq<Member>, tracks: seq<ForeignTrack>, search: string -> SearchOutcome)
    requires |tracks| > 0 && prevRows <= rows
    requires AllCovered(prevRows, tracks[..|tracks| - 1], search)
    requires Covered(rows, tracks[|tracks| - 1], search)
    ensures AllCovered(rows, tracks, search)
  {
    var front := tracks[..|tracks| - 1];
    forall k | 0 <= k < |front| ensures Covered(rows, front[k], search) {
      CoveredGrows(prevRows, rows, front[k], search);
    }
    ExtendAll(tracks, front, t => Covered(rows, t, search));
  }

  /** A property of every element but the last that the last also has
      holds everywhere. */
  lemma ExtendAll<T>(xs: seq<T>, front: seq<T>, q: T -> bool)
    requires |xs| > 0 && front == xs[..|xs| - 1]
    requires forall k :: 0 <= k < |front| ==> q(front[k])
    requires q(xs[|xs| - 1])
    ensures forall k :: 0 <= k < |xs| ==> q(xs[k])
  {
    forall k | 0 <= k < |xs| ensures q(xs[k]) {
      if k < |front| {
        assert front[k] == xs[k];
      }
    }
  }

  /** With no fault, a step leaves its own track's song in the playlist. */
  lemma StepCovers(st: RunState, i: nat, t: ForeignTrack, total: nat,
                   search: string -> SearchOutcome, fault: DbFault)
    requires WellFormed(st.rows) && fault == NoFault
    ensures Covered(NextState(st, i, t, total, search, fault).rows, t, search)
  {
    var rows := NextState(st, i, t, total, search, fault).rows;
    var lookup := Lookup(t, search);
    if lookup.Ok? {
      var id := lookup.value.id;
      if IsExisting(st.rows, id) {
        ExistingIsMembership(st.rows, id);
        var j :| 0 <= j < |st.rows| && st.rows[j].songId == id;
        assert rows[j] == st.rows[j];
      } else {
        assert rows[|st.rows|].songId == id;
      }
    }
  }

  lemma CoveredGrows(rows: seq<Member>, more: seq<Member>, t: ForeignTrack, search: string -> SearchOutcome)
    requires rows <= more && Covered(rows, t, search)
    ensures Covered(more, t, search)
  {
    if Lookup(t, search).Ok? {
      var j :| 0 <= j < |rows| && rows[j].songId == Lookup(t, search).value.id;
      assert more[j] == rows[j];
    }
  }

  /** Tracks whose songs are all in the playlist already import nothing and
      leave the playlist unchanged. */
  lemma {:induction false} RunOverPresentSongs(tracks: seq<ForeignTrack>, total: nat, rows: seq<Member>,
                                               search: string -> SearchOutcome, faults: nat -> DbFault)
    requires WellFormed(rows) && NoFaults(faults)
    requires AllCovered(rows, tracks, search)
    ensures Run(tracks, total, rows, search, faults).rows == rows
    ensures Run(tracks, total, rows, search, faults).imported == 0
    decreases |tracks|
  {
    if tracks != [] {
      var n := |tracks| - 1;
      assert AllCovered(rows, tracks[..n], search) by {
        forall k | 0 <= k < n ensures Covered(rows, tracks[..n][k], search) {
          assert tracks[..n][k] == tracks[k];
        }
      }
      RunOverPresentSongs(tracks[..n], total, rows, search, faults);
      assert Covered(rows, tracks[n], search);
      StepOverPresentSong(Run(tracks[..n], total, rows, search, faults), n, tracks[n], total, search, faults(n));
    }
  }

  lemma StepOverPresentSong(st: RunState, i: nat, t: ForeignTrack, total: nat,
                            search: string -> SearchOutcome, fault: DbFault)
    requires WellFormed(st.rows) && fault == NoFault
    requires Covered(st.rows, t, search)
    ensures NextState(st, i, t, total, search, fault).rows == st.rows
    ensures NextState(st, i, t, total, search, fault).imported == st.imported
  {
    if Lookup(t, search).Ok? {
      ExistingIsMembership(st.rows, Lookup(t, search).value.id);
    }
  }

  /** Importing the same tracks again, with the same search answers and no
      database faults, imports nothing and leaves the playlist as the first
      run left it: every song found is already there. */
  lemma ReimportChangesNothing(tracks: seq<ForeignTrack>, total: nat, rows0: seq<Member>,
                               search: string -> SearchOutcome, faults: nat -> DbFault)
    requires WellFormed(rows0) && NoFaults(faults)
    ensures var first := Run(tracks, total, rows0, search, faults);
      var second := Run(tracks, total, first.rows, search, faults);
      second.imported == 0 && second.rows == first.rows
  {
    var first := Run(tracks, total, rows0, search, faults);
    RunCoversResolved(tracks, total, rows0, search, faults);
    RunKeepsWellFormed(tracks, total, rows0, search, faults);
    RunOverPresentSongs(tracks, total, first.rows, search, faults);
  }
}
