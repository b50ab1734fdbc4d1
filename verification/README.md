# SoundWave core in Dafny

SoundWave is a music web app. Users search a music catalog, play songs
from a queue and keep playlists. They can also import a Spotify playlist
into one of their own playlists, and an admin page shows listening
statistics. This project models the app's logic as pure Dafny functions
and small methods, and proves what the code promises.

The modelled parts are:

- **The playlist import.** `POST /api/spotify/import` pages through a
  Spotify playlist's tracks, following the `next` links and dropping
  removed and local tracks. It checks the request, then creates or picks
  the target playlist. Each track is searched in the catalog and comes out
  imported, failed (with a reason) or skipped ("Already in playlist").
  Before each track it writes a progress snapshot into a store keyed by
  session id, and it clears that entry at the end. The answer carries at
  most 100 errors. Modules: `ImportFetch`, `ImportRun`, `ImportRoute`.
- **The progress store.** `Progress` holds the store and the poll
  endpoint `GET /api/spotify/import-progress`.
- **Playlist membership.** `Playlists` models `lib/playlists.ts`: rows of
  `(song id, song data, position)` per playlist. Song ids are unique and
  positions strictly increase (`Playlists.WellFormed`). Positions are not
  dense, because a removal leaves a gap. The module covers the duplicate
  check, the next position, remove, ordered read-back, `song_count`,
  create and delete.
- **The Spotify playlist listing.** `SpotifyPlaylists` models
  `GET /api/spotify/playlists`: token choice, pagination and formatting.
- **The import dialog.** `ImportDialog` models the dialog's checks, its
  request body and the name auto-fill.
- **Pure helpers.**
  - `Spotify`: the catalog search query, `msToDuration` and the base64url
    rewrite used for PKCE (section 5 of RFC 4648, section 4.2 of RFC 7636).
  - `Download`: the download file name.
  - `AdminFormat`: the admin dashboard's `formatDuration`.
  - `SongColor`: the song card's colour hash.
- **The dashboard player and queue.** `Queue` covers play and toggle,
  next and previous with wrap-around, and the queue's drop, remove,
  play-from and reorder.
- **The admin statistics route.** `Stats` covers the listening-time sum,
  the per-song and per-user aggregates with their top 10, and the hourly
  counts.

Shared pieces:

- `Wrappers` holds `Option` and `Result`.
- `Types` holds the catalog `Song` and JavaScript's `s || fallback` on
  strings.
- `Text` holds `trim` with JavaScript's white-space set, decimal rendering
  and `padStart`.
- `Sorting` holds an insertion sort with its permutation and sortedness
  contract, `Take` and a top-N selection.

Everything outside the process is a parameter:

- the signed-in user and the cookies;
- the pages each HTTP request answers (`pages[k]` answers the k-th request);
- the catalog search, as a function from query to outcome;
- the database faults of the i-th imported track;
- the success of every database round trip;
- the id and creation time the database assigns;
- the session id the import route would generate.

JavaScript's "missing, `null` or empty" text values are the empty string
wherever the code reads them by truthiness. Whole-number fields are `nat`.

Some behaviours of the code are worth stating plainly. The model keeps
each of them as written:

- Positions after a removal are not dense. The next song still goes one
  above the largest remaining position.
- The import route checks `targetPlaylistId` only after the whole Spotify
  fetch has succeeded (app/api/spotify/import/route.ts:125-130).
- `results.current` in the answer is always 0. Only the branch for an
  absent track sets it, and the fetch has already dropped absent tracks.
- A page without `items` ends the import fetch silently, keeping the
  tracks gathered so far. A non-ok page fails the whole request with a
  500.
- Skipped tracks are also pushed into `errors`.
- The insert error's reason (`Database error: <message>`) has no fallback
  text. A failing existence check falls back to "Unknown".
- `handlePrevious` with a current song that is not among the results plays
  `songs[n-2]`, or `songs[0]` when there is one result. That is
  `(-1 - 1 + n) % n` under JavaScript's `%`.
- The admin statistics route's `totalUsers` counts `song_plays` rows, so
  it always equals `totalSongsPlayed` (see Findings).
- The import route's `searchSongs` is modelled as able to throw, as the
  route allows. `searchSongs` itself catches its errors (lib/api.ts:23-25),
  so the "Search failed" branch may never run.

## Model

| member | source | states |
|---|---|---|
| ImportFetch.ValidTracks | app/api/spotify/import/route.ts:95 | a track is kept exactly when its item has a track that is not local; the result is no longer than the items |
| ImportFetch.ValidTracksConcat | app/api/spotify/import/route.ts:94-95 | the filter works item by item: the kept tracks come in item order, duplicates included |
| ImportFetch.FetchAll | app/api/spotify/import/route.ts:72-98 | every fetched track is non-local, and a failure is reported only when some page was not ok |
| ImportFetch.FetchAllConcatenates | app/api/spotify/import/route.ts:75-98 | when every page is ok with items and only the last has no `next`, the fetch is the in-order concatenation of every page's valid tracks |
| ImportFetch.FetchTracks | app/api/spotify/import/route.ts:72-98 | the pagination loop (one request per iteration, break on a page without items, throw on a non-ok page) computes exactly `FetchAll` |
| ImportRun.TrackName | app/api/spotify/import/route.ts:153 | the track's label is its title, plus " by <first artist>" when there is a first artist |
| ImportRun.ErrorLines | app/api/spotify/import/route.ts:163 | the snapshot's error lines are one "<track>: <reason>" per error, in order |
| ImportRun.Lookup | app/api/spotify/import/route.ts:168-196 | an empty query, a throwing search, no results and a first result without an id each fail with their own reason; otherwise the track resolves to the first result, and only then |
| ImportRun.AddResolved | app/api/spotify/import/route.ts:199-251 | a failing existence check fails the track; a song already present is skipped with "Already in playlist"; an insert fault fails with "Database error: …"; the song is imported exactly when there is no fault and it is absent, and then it is added as `addSongToPlaylist` adds it; other outcomes leave the rows unchanged |
| ImportRun.ImportOne | app/api/spotify/import/route.ts:166-262 | one loop iteration: a failed lookup fails the track without touching the rows; a resolved song goes through the add step; rows are only ever appended to |
| ImportRun.ErrorsOf | app/api/spotify/import/route.ts:170-255 | failed and skipped tracks push exactly one error each, carrying the track's label and the reason; imported tracks push none |
| ImportRun.NextState | app/api/spotify/import/route.ts:145-263 | one iteration bumps exactly one counter, pushes an error exactly for a failed or skipped track, keeps the earlier errors and appends this track's error after them, and writes one snapshot |
| ImportRun.Run | app/api/spotify/import/route.ts:135-263 | after the loop, imported + failed + skipped equals the number of tracks and the number of errors equals failed + skipped; the snapshot written before track k reads current k + 1 of the total, with counts adding up to k and the track's label; the errors themselves are stated by `ImportRun.RunErrorsInTrackOrder` |
| ImportRun.RunErrorsInTrackOrder | app/api/spotify/import/route.ts:145-263 | the run's errors are, in track order, the error each failed or skipped track pushes against the rows the earlier tracks left: its label and its reason |
| ImportRun.ProcessTracks | app/api/spotify/import/route.ts:145-266 | the loop with the progress store: it computes `Run` and leaves the store as it was with the session's entry removed |
| ImportRun.RunKeepsWellFormed | app/api/spotify/import/route.ts:201-246 | the import keeps the target playlist's song ids unique and positions strictly increasing |
| ImportRun.RunOnlyAppends | app/api/spotify/import/route.ts:231-238 | the import only appends rows; the rows that were there stay, in place |
| ImportRun.RunCoversResolved | app/api/spotify/import/route.ts:188-246 | without database faults, every track that resolves to a catalog song ends with that song in the playlist |
| ImportRun.RunOverPresentSongs | app/api/spotify/import/route.ts:213-217 | tracks whose songs are all present already import nothing and leave the playlist unchanged |
| ImportRun.ReimportChangesNothing | app/api/spotify/import/route.ts:201-246 | importing the same tracks a second time, with the same search answers and no faults, imports nothing and changes nothing |
| ImportRoute.Post | app/api/spotify/import/route.ts:37-288 | 401 without a user or a token; a body that fails to parse is a 500; 400 without `playlistId`, before any fetch; a failing page is a 500 with its message; a failed creation is a 500; the missing-target 400 comes only after a successful fetch; the answer is a success exactly when all these checks pass; on success the answer has `current` 0, the total, the counters, the first 100 errors, the target's rows are the run's and the progress entry is cleared; any error answer changes neither rows nor store |
| Progress.SetProgress | app/api/spotify/import/route.ts:25-27 | the session's entry becomes the snapshot and every other entry is untouched |
| Progress.ClearProgress | app/api/spotify/import/route.ts:29-31 | the session's entry is gone and every other entry is untouched |
| Progress.Poll | app/api/spotify/import-progress/route.ts:22-42 | an empty session id is a 400, an id without an entry is a 404, and otherwise the stored snapshot comes back unchanged |
| Progress.PollAfterSet | app/api/spotify/import-progress/route.ts:32-41 | a poll after a write returns the written snapshot |
| Progress.PollAfterClear | app/api/spotify/import-progress/route.ts:32-39 | a poll after the run clears its entry is a 404 "Progress not found" |
| Progress.SessionsAreIsolated | app/api/spotify/import/route.ts:25-31 | writing or clearing one session never changes what a poll of another session sees |
| Playlists.CountSong | lib/playlists.ts:69-74 | the number of rows with the song id is zero exactly when no row has it |
| Playlists.ExistingIsMembership | lib/playlists.ts:69-78 | with unique song ids, the `.single()` existence check finds a row exactly when the song is in the playlist |
| Playlists.MaxPosition | lib/playlists.ts:81-87 | none for an empty playlist, otherwise a position that some row has and no row exceeds |
| Playlists.NextPosition | lib/playlists.ts:89 | 0 for an empty playlist, otherwise one above the largest position; above every existing position |
| Playlists.AddSong | lib/playlists.ts:65-106 | an existing song or a failed insert returns false with the rows unchanged; otherwise true, and the rows gain exactly one row for the song at the end, at the next position (0, or one above the largest) |
| Playlists.AddKeepsWellFormed | lib/playlists.ts:65-106 | adding keeps song ids unique and positions strictly increasing |
| Playlists.AddedOnce | lib/playlists.ts:89-101 | after a successful add the song occurs exactly once |
| Playlists.PlaylistSongs | lib/playlists.ts:125-141 | a failed query gives no songs; otherwise the songs of the rows, each row exactly once, in ascending position order |
| Playlists.ReadBackInInsertionOrder | lib/playlists.ts:128-136 | since positions increase, reading back by position gives the songs in the order they were added |
| Playlists.AddedSongListedLast | lib/playlists.ts:89-136 | after a successful add, reading back gives the earlier songs followed by the new one |
| Playlists.WithoutSong | lib/playlists.ts:111-115 | exactly the rows of other songs remain, and the song is gone |
| Playlists.RemoveSong | lib/playlists.ts:108-123 | on success every row of the song is deleted and every other row stays; a failed delete returns false with nothing changed |
| Playlists.RemoveKeepsWellFormed | lib/playlists.ts:108-123 | removing keeps the invariant, with the positions' gaps |
| Playlists.UserPlaylists | lib/playlists.ts:4-26 | a failed query gives []; otherwise the user's playlists, each listed once (as many entries as the user owns), newest first, each with `song_count` equal to its number of rows |
| Playlists.CreatePlaylist | lib/playlists.ts:28-47 | a failure gives null with the table unchanged; on success the new playlist has the given owner, name and description, `song_count` 0, and is added to the table |
| Playlists.CreatedIsListed | lib/playlists.ts:18-42 | a new playlist shows up in its owner's listing with the same `song_count` 0 that creation reported |
| Playlists.DeletePlaylist | lib/playlists.ts:49-63 | on success no playlist with the id remains and all others stay; a failure returns false with nothing changed |
| Spotify.FirstArtist | lib/spotify.ts:60 | the first artist's name, or '' when there are no artists |
| Spotify.SearchQuery | lib/spotify.ts:59-63 | the query has no white space at either end and is empty exactly when both the first artist and the title are blank |
| Spotify.SearchQueryOfCleanParts | lib/spotify.ts:59-63 | with a non-blank artist and title that have no outer white space, the query is exactly "<artist> <title>" |
| Spotify.SearchQueryWithoutArtist | lib/spotify.ts:60-62 | without artists the query is the trimmed title |
| Spotify.MsToDuration | lib/spotify.ts:66-71 | "m:ss" whose minute field times 60 plus its two-digit seconds field equals the whole seconds, with seconds below 60; the minute field has no leading zero ("0" itself aside) |
| Spotify.MsToDurationPadsSeconds | lib/spotify.ts:70 | 61000 ms render as "1:01" |
| Spotify.MsToDurationDropsMilliseconds | lib/spotify.ts:67 | 59999 ms render as "0:59" |
| Spotify.TwoDigits | lib/spotify.ts:70 | `padStart(2, '0')` of a value below 60 is two digits that read back as the value |
| Spotify.ReplaceChar | lib/spotify.ts:40-41 | every occurrence of one character is replaced and every other character is kept in place |
| Spotify.RemoveChar | lib/spotify.ts:42 | the character is gone and every other character keeps its count |
| Spotify.RemoveCharConcat | lib/spotify.ts:42 | the removal works piece by piece, so the surviving characters keep their order |
| Spotify.Base64UrlRewrite | lib/spotify.ts:52-55 | the output has no '+', '/' or '='; on standard base64 input it uses only the URL-safe alphabet |
| Spotify.Base64UrlRoundTrip | lib/spotify.ts:39-42 | mapping '-' and '_' back gives the original base64 text without its padding |
| SpotifyPlaylists.AccessToken | app/api/spotify/playlists/route.ts:4-19 | neither cookie gives no token; a refresh token alone gives what the refresh answers; an access token is used as it is |
| SpotifyPlaylists.RefreshOnlyWithoutAccessToken | app/api/spotify/playlists/route.ts:8-18 | the refresh answer can change the token only when there is a refresh token and no access token |
| SpotifyPlaylists.Format | app/api/spotify/playlists/route.ts:103-110 | id, name and track count are kept; description, image and owner fall back to null, null and 'Unknown' exactly when missing |
| SpotifyPlaylists.FormatAll | app/api/spotify/playlists/route.ts:103-110 | the formatted list keeps the playlists' number and order |
| SpotifyPlaylists.ListAll | app/api/spotify/playlists/route.ts:80-100 | "token expired" is reported only when some page answered 401 |
| SpotifyPlaylists.FetchPlaylists | app/api/spotify/playlists/route.ts:77-100 | the pagination loop computes exactly `ListAll` |
| SpotifyPlaylists.Get | app/api/spotify/playlists/route.ts:54-120 | 401 without a user, then 401 without a usable token; the formatted playlists exactly when the listing succeeds; an upstream 401 maps to "token expired" and any other failure to a 500 |
| ImportDialog.FindById | components/SpotifyImport.tsx:173 | `find` gives none exactly when no playlist has the id, otherwise the first playlist with it |
| ImportDialog.RequestName | components/SpotifyImport.tsx:173-176 | the trimmed new name when creating, otherwise the source playlist's name or "Imported from Spotify" |
| ImportDialog.HandleImport | components/SpotifyImport.tsx:152-186 | no selected playlist, a blank new name when creating, or no target when adding each stop with their own alert; a request is sent exactly when all three pass, with the selection, the name, the flag and a target that is null exactly when creating |
| ImportDialog.SentRequestsAreWellFormed | components/SpotifyImport.tsx:152-186 | every request the dialog sends passes the import route's 400 checks, and a new playlist gets the trimmed name as typed |
| ImportDialog.AutoFill | components/SpotifyImport.tsx:87-94 | only the new name changes, and only from empty while creating, to the selected source playlist's name; with no selection, or a selection not in the list, nothing changes |
| ImportDialog.AutoFillIdempotent | components/SpotifyImport.tsx:87-94 | running the effect again changes nothing |
| ImportDialog.AutoFillKeepsTypedName | components/SpotifyImport.tsx:90 | a name already typed is never overwritten |
| Download.CollapseRuns | lib/download.ts:6 | the output has only ASCII letters, digits and single underscores, keeps the input's letters and digits in order, is empty exactly when the input is, and starts with '_' exactly when the input starts with another character |
| Download.CollapseRunsLast | lib/download.ts:6 | the output ends with '_' exactly when the input ends with a character other than an ASCII letter or digit |
| Download.CollapseRunsSplit | lib/download.ts:6 | a run of other characters between letters or digits (or an end) becomes exactly one '_' at that place, and the two sides collapse on their own |
| Download.StripUnderscores | lib/download.ts:7 | the output neither starts nor ends with '_' and is the input without its leading and trailing underscores |
| Download.LowerCase | lib/download.ts:8 | each character lower-cased in place |
| Download.SanitizeFileName | lib/download.ts:3-8 | the name is non-empty, uses only `[a-z0-9_]`, does not start or end with '_' and has no '__'; it keeps the input's ASCII letters and digits, lower-cased, in order, and is 'soundwave_track' when there are none |
| Download.SanitizeCleanIsIdentity | lib/download.ts:3-8 | a name that is already clean is returned unchanged |
| Download.SanitizeIdempotent | lib/download.ts:3-8 | sanitising twice is sanitising once |
| Download.SanitizeJoinsWords | lib/download.ts:3-8 | two words of letters and digits with other characters between them come out lower-cased and joined by one '_' ("Hello World" gives "hello_world") |
| Download.BeforeQuery | lib/download.ts:12 | the prefix of the URL up to the first '?' |
| Download.AfterLastDot | lib/download.ts:13-14 | the suffix after the last '.', or the whole path when it has none |
| Download.ExtensionFromUrl | lib/download.ts:10-22 | the last dot-separated segment of the path before any '?' (the whole path when it has no '.') exactly when that segment is one to four UTF-16 code units long, otherwise "mp3" |
| Download.ExtensionFromUrlRoundTrip | lib/download.ts:10-22 | a URL "<base>.<ext>" or "<base>.<ext>?<query>" yields `ext` |
| Download.ExtensionOfPlain | lib/download.ts:12-17 | a path without '.' or '?' is returned as it is when it is one to four code units long, otherwise "mp3" |
| Download.ExtensionCountsCodeUnits | lib/download.ts:15 | the length counts UTF-16 code units: two characters outside the Basic Multilingual Plane pass as an extension, and one more letter makes it fall back to "mp3" |
| Download.DownloadName | lib/download.ts:24-39 | a missing URL fails before the fetch; a failed fetch fails; otherwise the name is the sanitised title (or "track" when there is none), then "_soundwave_by_dhyey.", then the URL's extension |
| Download.DownloadNameUntitled | lib/download.ts:37-39 | a song without a title is saved as "track_soundwave_by_dhyey.<ext>" |
| Download.DownloadNameKeepsExtension | lib/download.ts:37-39 | the saved name's own extension is the URL's extension |
| AdminFormat.Minutes | app/admin/dashboard/page.tsx:124 | the minutes shown are below 60 |
| AdminFormat.WholeMinutes | app/admin/dashboard/page.tsx:123-124 | hours times 60 plus minutes is the number of whole minutes |
| AdminFormat.FormatDuration | app/admin/dashboard/page.tsx:122-129 | "Hh Mm" when there is at least one hour, else "Mm" |
| AdminFormat.FormatIsWholeMinutes | app/admin/dashboard/page.tsx:122-129 | two durations format alike exactly when they have the same whole minutes: leftover seconds are dropped |
| AdminFormat.Examples | app/admin/dashboard/page.tsx:122-129 | 59 gives "0m", 3599 gives "59m", 3600 gives "1h 0m" and 3661 gives "1h 1m" |
| SongColor.CodeUnits | components/SongCard.tsx:29 | a character's UTF-16 code units: itself in the Basic Multilingual Plane, its surrogate pair otherwise |
| SongColor.ColorIndex | components/SongCard.tsx:30 | the palette index is the hash modulo 9, always inside the palette |
| SongColor.ColorForSong | components/SongCard.tsx:28-31 | the colour is the palette entry at the hash modulo 9, one of the nine entries |
| SongColor.HashOfPermutation | components/SongCard.tsx:29 | the hash depends only on the multiset of characters |
| SongColor.AnagramsShareColor | components/SongCard.tsx:28-31 | ids that are anagrams of each other get the same colour |
| SongColor.Examples | components/SongCard.tsx:15-31 | the empty id gets '#ff6ec7' and "a" (code 97) gets '#ff6e9f' |
| SongColor.SurrogatePairExample | components/SongCard.tsx:29 | a character outside the Basic Multilingual Plane is summed as its two surrogates |
| Queue.HandlePlay | app/dashboard/page.tsx:72-79 | playing the current song toggles playback; any other song becomes current and plays |
| Queue.PlayTwiceToggles | app/dashboard/page.tsx:72-79 | playing the current song twice restores the player |
| Queue.PlayNextFromQueue | app/dashboard/page.tsx:81-88 | an empty queue returns false and changes nothing; otherwise the head becomes current and plays and the queue becomes its tail |
| Queue.PlayNextIsPlayFromQueue | app/dashboard/page.tsx:81-88 | with unique ids, playing the next queued song is the same as playing the queue's head from the queue |
| Queue.PlayNextKeepsUnique | app/dashboard/page.tsx:81-88 | playing the next queued song keeps the queue's ids unique |
| Queue.DropThenPlayNext | app/dashboard/page.tsx:81-88 | a song dropped onto an empty queue is the next one played, and the queue is empty again |
| Queue.FindIndex | app/dashboard/page.tsx:94 | -1 exactly when no song has the id, otherwise the first index with it |
| Queue.NextIndex | app/dashboard/page.tsx:94-95 | the index after the current song's, wrapping from the last to the first, and the first when the song is absent |
| Queue.PreviousIndex | app/dashboard/page.tsx:103-104 | the index before the current song's, wrapping from the first to the last; n-2 (0 for one result) when the song is absent |
| Queue.HandleNext | app/dashboard/page.tsx:90-98 | the queue comes first; otherwise the next result by `NextIndex` plays; nothing happens without a current song or results |
| Queue.HandlePrevious | app/dashboard/page.tsx:100-107 | the previous result by `PreviousIndex` plays; the queue is neither used nor changed |
| Queue.PreviousUndoesNext | app/dashboard/page.tsx:90-107 | with an empty queue and distinct ids, Previous after Next returns to the song that was playing |
| Queue.NextWrapsAround | app/dashboard/page.tsx:95 | Next on the last result plays the first |
| Queue.Drop | app/dashboard/page.tsx:114-134 | a dropped song is appended exactly when its id is not already queued; no data or a parse failure leaves the queue as it is |
| Queue.DropKeepsUnique | app/dashboard/page.tsx:123-128 | dropping keeps queue ids unique |
| Queue.RemoveId | app/dashboard/page.tsx:148 | exactly the entries with other ids remain, and the id is gone |
| Queue.RemoveIdConcat | app/dashboard/page.tsx:148 | the filter works piecewise, so the survivors keep their relative order |
| Queue.RemoveFromQueue | app/dashboard/page.tsx:147-149 | only the queue changes, and it loses every entry with the id |
| Queue.PlayFromQueue | app/dashboard/page.tsx:151-155 | the song becomes current and plays, and leaves the queue |
| Queue.Reorder | app/dashboard/page.tsx:174-194 | the length is kept; without a dragged index nothing changes; otherwise the dragged item lands at the drop slot (clamped to the end) and the other items keep their order |
| Queue.ReorderIsPermutation | app/dashboard/page.tsx:184-190 | the reordered queue is a permutation of the old one |
| Queue.ReorderUndo | app/dashboard/page.tsx:184-190 | dragging the item back from the drop index to its old index restores the queue |
| Queue.ReorderKeepsUnique | app/dashboard/page.tsx:184-190 | reordering keeps queue ids unique |
| Stats.TotalListeningTime | app/api/admin/stats/route.ts:37-40 | the reduce loop sums the session durations, missing ones counted as 0 |
| Stats.GroupBy | app/api/admin/stats/route.ts:55-65 | one group per distinct key holding exactly that key's rows in order; the group sizes add up to the number of rows |
| Stats.SongStats | app/api/admin/stats/route.ts:47-69 | one entry per distinct song; its play count is the number of its plays, its duration their sum, its title and artist those of its first play or 'Unknown'; the play counts add up to the number of plays |
| Stats.MostPlayedSongs | app/api/admin/stats/route.ts:71-73 | min(10, n) entries taken from the n stats, by non-increasing play count, none played less than an entry left out |
| Stats.UserStats | app/api/admin/stats/route.ts:80-101 | one entry per distinct user with its number of sessions and the sums of its durations and songs; the session counts add up to the number of sessions |
| Stats.TopUsers | app/api/admin/stats/route.ts:103-105 | min(10, n) entries taken from the n user stats, by non-increasing duration, none shorter than an entry left out |
| Stats.HourlyStats | app/api/admin/stats/route.ts:134-143 | each hour with plays once, in ascending order, with its number of plays; the counts add up to the number of plays |
| Stats.TotalUsersCountsPlays | app/api/admin/stats/route.ts:22-25 | the `totalUsers` query as written counts two plays by one user as two users |
| Stats.DistinctUsers | app/api/admin/stats/route.ts:22-25 | the number of distinct user ids among the plays, at most the number of plays |
| Stats.Get | app/api/admin/stats/route.ts:10-153 | no admin session gives 401; otherwise the report of `totalUsers` as the query counts it (always equal to `totalSongsPlayed`), plays, listening time, top songs, top users and hourly counts |
| Sorting.SortBy | app/api/admin/stats/route.ts:143 | the result is sorted by the key and is a permutation of the input |
| Sorting.TopN | app/api/admin/stats/route.ts:71-73 | `sort` then `slice(0, n)`: min(n, length) entries, sorted, drawn from the input, and no entry left out has a smaller key than one kept |
| Sorting.Take | app/api/spotify/import/route.ts:274 | `slice(0, n)`: a prefix of length min(n, length) |
| Text.Trim | lib/spotify.ts:62 | no white space at either end, empty exactly when the input is all white space, and what remains is the input between white-space ends |
| Text.DecimalRoundTrip | lib/spotify.ts:70 | a number's decimal rendering reads back as the number |

## Left out

- HTTP, Supabase, cookies and response plumbing are parameters. This covers the pages, the search, the database round-trip outcomes and ids, and the user. `response.json()` failures on a page are not modelled apart from a page without `items`.
- Playlists.AddSong: the max-position query's own failure is not modelled. When its data is null the source puts the song at position 0.
- Playlists.AddSong: the existence check's own failure is not modelled. The source ignores its `error`, so a failed check reads as "not present" and the insert goes ahead, possibly duplicating a song already in the playlist. The model takes the check to succeed.
- ImportRun.AddResolved: as for `Playlists.AddSong`, the max-position query is taken to succeed.
- ImportRoute.Post: the per-track catch-all at app/api/spotify/import/route.ts:256-262 is not modelled. Every modelled step reports its own failure, so nothing reaches it.
- ImportRoute.Post: the new playlist's description carries a date, which is left out. The name is reported through `newName` and the new id is an input.
- ImportRoute.Post: the session id that `Date.now` and `Math.random` would generate is an input.
- ImportFetch.FetchTracks: a chain of `next` links that never ends is not modelled. The pages must contain a stopping page.
- SpotifyPlaylists.FetchPlaylists: as for the import fetch, the pages must contain a stopping page.
- SpotifyPlaylists.AccessToken: the refresh itself is an input, including its network call, environment variables and error handling.
- Playlists.UserPlaylists: `song_count` is always the length of the row list. The "not an array, so 0" branch cannot arise for a list of rows.
- Playlists.UserPlaylists: the order among playlists with equal `created_at` is left unstated.
- Playlists.DeletePlaylist: the database's cascade of `playlist_songs` rows is not visible in the code and is not modelled.
- Stats.MostPlayedSongs: the order of ties follows the stable sort of the insertion order but is not stated.
- Stats.TopUsers: the order of ties is not stated, as for `Stats.MostPlayedSongs`.
- Stats.HourlyStats: the local-time hour of a play (`getHours`) is an input of each play.
- Stats.GroupBy: the first-appearance order of the groups, which `Map` keeps, is not stated.
- Stats.Get: the daily statistics are left out because they depend on dates and time zones (`toISOString`).
- Stats.Get: the catch that turns a thrown error into a 500 is left out, because the modelled steps do not throw.
- Spotify.MsToDuration: inputs are non-negative whole milliseconds. Negative and fractional values (`Math.floor` on floats) are not modelled.
- AdminFormat.FormatDuration: inputs are non-negative whole seconds, as for `Spotify.MsToDuration`.
- Queue.Reorder: the dragged index must lie inside the queue. A stale out-of-range index, which would make the source insert `undefined`, is not modelled.
- Queue: the navigation sounds and drag-highlight state are left out because they are UI only.
- ImportDialog.HandleImport: the dialog stops at the request it sends. The answer handling, progress bar (a float ratio) and polling are UI.
- Download.DownloadName: it stops at the file name. The blob, object URL and link click are browser I/O.
- OAuth and PKCE crypto are left out: random bytes, SHA-256 and `btoa`. Only the base64url character rewrite is modelled.
- Concurrency is left out: cross-request sharing of the progress map, and the race between reading the maximum position and inserting. Each run is sequential.
- Rendering, hooks and other visual components are left out, as is the admin login.

## Findings

| source | as written | input that shows it | evidently intended | confidence | as-written member | corrected member |
|---|---|---|---|---|---|---|
| app/api/admin/stats/route.ts:22-25 | `totalUsers` is the exact row count of `song_plays` selected by `user_id`, which counts plays | two plays by user "u1" give `totalUsers` 2 | the number of distinct users who played something (1 here) | not executed; high that the count is of rows, medium that distinct users were meant | Stats.TotalUsersCountsPlays | Stats.DistinctUsers |
