/** The playlist store of lib/playlists.ts. Each playlist owns a sequence of
    `playlist_songs` rows in insertion order; a row records the song id, the
    stored song data and a position. The store keeps two facts about every
    playlist's rows (`WellFormed`): song ids are unique and positions
    strictly increase in insertion order. Positions are not dense: removing
    a song leaves a gap, and the next insert still goes after the largest
    remaining position.

    Every function here takes the outcome of its database round trip as a
    parameter (`ok` / `insertOk`); a failed round trip is swallowed by the
    source into `false`, `[]` or `null`. */
module Playlists {
  import opened Wrappers
  import opened Types
  import opened Sorting

  /** One `playlist_songs` row of a playlist. */
  datatype Member = Member(songId: string, song: Song, position: int)

  /** One `playlists` row. */
  datatype PlaylistRecord = PlaylistRecord(
    id: string,
    userId: string,
    name: string,
    description: Option<string>,
    createdAt: int)

  /** A playlist as the app lists it: the row plus its `song_count`. */
  datatype PlaylistView = PlaylistView(record: PlaylistRecord, songCount: nat)

  /** `playlist_songs`, grouped by playlist id. */
  type Memberships = map<string, seq<Member>>

  /** The rows of one playlist (none when the playlist has no entry). */
  function Rows(m: Memberships, playlistId: string): seq<Member> {
    if playlistId in m then m[playlistId] else []
  }

  /** The number of rows carrying `songId`. */
  function CountSong(rows: seq<Member>, songId: string): (n: nat)
    ensures n <= |rows|
    ensures n == 0 <==> forall i :: 0 <= i < |rows| ==> rows[i].songId != songId
  {
    if rows == [] then 0
    else
      var n := CountSong(rows[1..], songId);
      assert forall i :: 1 <= i < |rows| ==> rows[i] == rows[1..][i - 1];
      (if rows[0].songId == songId then 1 else 0) + n
  }

  ghost predicate UniqueSongs(rows: seq<Member>) {
    forall i, j :: 0 <= i < j < |rows| ==> rows[i].songId != rows[j].songId
  }

  ghost predicate PositionsIncrease(rows: seq<Member>) {
    forall i, j :: 0 <= i < j < |rows| ==> rows[i].position < rows[j].position
  }

  /** The invariant every operation of the store keeps. */
  ghost predicate WellFormed(rows: seq<Member>) {
    UniqueSongs(rows) && PositionsIncrease(rows)
    && forall i :: 0 <= i < |rows| ==> 0 <= rows[i].position
  }

  /** The existence check of `addSongToPlaylist` (`.single()`) yields a row
      exactly when one row matches: with two or more matches it reports an
      error and no data. */
  predicate IsExisting(rows: seq<Member>, songId: string) {
    CountSong(rows, songId) == 1
  }

  /** With unique song ids, the existence check is plain membership. */
  lemma {:induction false} ExistingIsMembership(rows: seq<Member>, songId: string)
    requires UniqueSongs(rows)
    ensures IsExisting(rows, songId) <==> exists i :: 0 <= i < |rows| && rows[i].songId == songId
  {
    if rows != [] {
      var tail := rows[1..];
      assert UniqueSongs(tail) by {
        forall i, j | 0 <= i < j < |tail| ensures tail[i].songId != tail[j].songId {
          assert tail[i] == rows[i + 1] && tail[j] == rows[j + 1];
        }
      }
      ExistingIsMembership(tail, songId);
      if rows[0].songId == songId {
        assert forall i :: 0 <= i < |tail| ==> tail[i] == rows[i + 1];
      } else {
        if exists i :: 0 <= i < |rows| && rows[i].songId == songId {
          var i :| 0 <= i < |rows| && rows[i].songId == songId;
          assert tail[i - 1] == rows[i];
        }
        if exists i :: 0 <= i < |tail| && tail[i].songId == songId {
          var i :| 0 <= i < |tail| && tail[i].songId == songId;
          assert rows[i + 1] == tail[i];
        }
      }
    }
  }

  /** The largest position among the rows, none for an empty playlist. */
  function MaxPosition(rows: seq<Member>): (r: Option<int>)
    ensures r.None? <==> rows == []
    ensures r.Some? ==> forall i :: 0 <= i < |rows| ==> rows[i].position <= r.value
    ensures r.Some? ==> exists i :: 0 <= i < |rows| && rows[i].position == r.value
  {
    if rows == [] then None
    else
      var rest := MaxPosition(rows[1..]);
      assert forall i :: 1 <= i < |rows| ==> rows[i] == rows[1..][i - 1];
      if rest.None? || rest.value < rows[0].position then Some(rows[0].position)
      else
        var k :| 0 <= k < |rows[1..]| && rows[1..][k].position == rest.value;
        assert rows[k + 1].position == rest.value;
        rest
  }

  /** `maxPos ? maxPos.position + 1 : 0`: the position a new song gets. It
      lies above every existing position, just one above the largest. */
  function NextPosition(rows: seq<Member>): (p: int)
    ensures forall i :: 0 <= i < |rows| ==> rows[i].position < p
    ensures rows == [] ==> p == 0
    ensures rows != [] ==> exists i :: 0 <= i < |rows| && rows[i].position == p - 1
  {
    match MaxPosition(rows)
    case None => 0
    case Some(m) => m + 1
  }

  /** The outcome of a write: whether the source reports success, and the
      playlist's rows afterwards. */
  datatype Write = Write(success: bool, rows: seq<Member>)

  /** `addSongToPlaylist`: an existing row for the song means `false` and no
      change; otherwise the song goes in at the next position, unless the
      insert fails (`insertOk` false), which again means `false` and no change. */
  function AddSong(rows: seq<Member>, song: Song, insertOk: bool): (w: Write)
    ensures IsExisting(rows, song.id) ==> w == Write(false, rows)
    ensures !insertOk ==> w == Write(false, rows)
    ensures w.success <==> !IsExisting(rows, song.id) && insertOk
    ensures !w.success ==> w.rows == rows
    ensures w.success ==> |w.rows| == |rows| + 1 && w.rows[..|rows|] == rows
    ensures w.success ==> w.rows[|rows|].song == song && w.rows[|rows|].songId == song.id
    ensures w.success ==> w.rows[|rows|].position == NextPosition(rows)
  {
    if IsExisting(rows, song.id) then Write(false, rows)
    else if !insertOk then Write(false, rows)
    else
      var r := rows + [Member(song.id, song, NextPosition(rows))];
      assert r[..|rows|] == rows;
      Write(true, r)
  }

  /** Adding keeps song ids unique and positions strictly increasing. */
  lemma AddKeepsWellFormed(rows: seq<Member>, song: Song, insertOk: bool)
    requires WellFormed(rows)
    ensures WellFormed(AddSong(rows, song, insertOk).rows)
  {
    var w := AddSong(rows, song, insertOk);
    if w.success {
      ExistingIsMembership(rows, song.id);
      var r := w.rows;
      forall i, j | 0 <= i < j < |r| ensures r[i].songId != r[j].songId && r[i].position < r[j].position {
        if j == |rows| {
          assert r[i] == rows[i];
        } else {
          assert r[i] == rows[i] && r[j] == rows[j];
        }
      }
      forall i | 0 <= i < |r| ensures 0 <= r[i].position {
        if i < |rows| { assert r[i] == rows[i]; } else if rows != [] { assert 0 <= rows[0].position; }
      }
    }
  }

  /** After a successful add the song occurs exactly once. */
  lemma AddedOnce(rows: seq<Member>, song: Song, insertOk: bool)
    requires WellFormed(rows)
    requires AddSong(rows, song, insertOk).success
    ensures CountSong(AddSong(rows, song, insertOk).rows, song.id) == 1
  {
    AddKeepsWellFormed(rows, song, insertOk);
    var r := AddSong(rows, song, insertOk).rows;
    ExistingIsMembership(r, song.id);
    assert r[|rows|].songId == song.id;
  }

  /** The songs of the rows, in row order. */
  function SongsOf(rows: seq<Member>): (s: seq<Song>)
    ensures |s| == |rows|
    ensures forall i :: 0 <= i < |rows| ==> s[i] == rows[i].song
  {
    if rows == [] then [] else [rows[0].song] + SongsOf(rows[1..])
  }

  function ByPosition(m: Member): int {
    m.position
  }

  /** `getPlaylistSongs`: the stored song data ordered by ascending position;
      a failed query reads as no songs. */
  function PlaylistSongs(rows: seq<Member>, ok: bool): (r: seq<Song>)
    ensures !ok ==> r == []
    ensures ok ==> |r| == |rows|
    ensures ok ==> forall i :: 0 <= i < |r| ==> exists j :: 0 <= j < |rows| && rows[j].song == r[i]
    ensures ok ==> exists sorted :: InPositionOrder(rows, sorted) && r == SongsOf(sorted)
  {
    if !ok then []
    else
      var sorted := SortBy(rows, ByPosition);
      forall i | 0 <= i < |sorted| ensures exists j :: 0 <= j < |rows| && rows[j].song == sorted[i].song {
        assert sorted[i] in multiset(rows);
      }
      assert InPositionOrder(rows, sorted);
      SongsOf(sorted)
  }

  /** `sorted` holds the rows, each exactly once, by ascending position. */
  ghost predicate InPositionOrder(rows: seq<Member>, sorted: seq<Member>) {
    multiset(sorted) == multiset(rows) && SortedBy(sorted, ByPosition)
  }

  /** Positions increase in insertion order, so reading a playlist back
      gives its songs in the order they were added. */
  lemma ReadBackInInsertionOrder(rows: seq<Member>)
    requires PositionsIncrease(rows)
    ensures PlaylistSongs(rows, true) == SongsOf(rows)
  {
    assert SortedBy(rows, ByPosition);
    SortSortedIsIdentity(rows, ByPosition);
  }

  /** A song just added is listed last, after the songs already there. */
  lemma AddedSongListedLast(rows: seq<Member>, song: Song, insertOk: bool)
    requires WellFormed(rows)
    requires AddSong(rows, song, insertOk).success
    ensures PlaylistSongs(AddSong(rows, song, insertOk).rows, true) == PlaylistSongs(rows, true) + [song]
  {
    AddKeepsWellFormed(rows, song, insertOk);
    AppendListedLast(rows, AddSong(rows, song, insertOk).rows, song);
  }

  lemma AppendListedLast(rows: seq<Member>, r: seq<Member>, song: Song)
    requires PositionsIncrease(rows) && PositionsIncrease(r)
    requires |r| == |rows| + 1 && r[..|rows|] == rows && r[|rows|].song == song
    ensures PlaylistSongs(r, true) == PlaylistSongs(rows, true) + [song]
  {
    ReadBackInInsertionOrder(rows);
    ReadBackInInsertionOrder(r);
    SongsOfAppend(rows, r);
  }

  lemma SongsOfAppend(rows: seq<Member>, r: seq<Member>)
    requires |r| == |rows| + 1 && r[..|rows|] == rows
    ensures SongsOf(r) == SongsOf(rows) + [r[|rows|].song]
  {
    var a := SongsOf(r);
    var b := SongsOf(rows) + [r[|rows|].song];
    forall i | 0 <= i < |a| ensures a[i] == b[i] {
      if i < |rows| { assert r[i] == r[..|rows|][i]; }
    }
  }

  /** The rows left after deleting every row with `songId`. */
  function WithoutSong(rows: seq<Member>, songId: string): (r: seq<Member>)
    ensures forall m :: m in r <==> m in rows && m.songId != songId
    ensures |r| == |rows| - CountSong(rows, songId)
    ensures CountSong(r, songId) == 0
  {
    if rows == [] then []
    else
      var rest := WithoutSong(rows[1..], songId);
      assert rows == [rows[0]] + rows[1..];
      if rows[0].songId == songId then rest else [rows[0]] + rest
  }

  /** `removeSongFromPlaylist`: on success every row of the song is gone and
      every other row stays; a failed delete changes nothing. */
  function RemoveSong(rows: seq<Member>, songId: string, ok: bool): (w: Write)
    ensures w.success == ok
    ensures !ok ==> w.rows == rows
    ensures ok ==> CountSong(w.rows, songId) == 0
    ensures ok ==> forall m :: m in w.rows <==> m in rows && m.songId != songId
  {
    if ok then Write(true, WithoutSong(rows, songId)) else Write(false, rows)
  }

  /** Removing keeps the invariant (positions keep their gaps). */
  lemma {:induction false} WithoutSongKeepsWellFormed(rows: seq<Member>, songId: string)
    requires WellFormed(rows)
    ensures WellFormed(WithoutSong(rows, songId))
  {
    if rows != [] {
      var tail := rows[1..];
      TailWellFormed(rows);
      WithoutSongKeepsWellFormed(tail, songId);
      if rows[0].songId != songId {
        ConsWellFormed(rows, WithoutSong(tail, songId));
      }
    }
  }

  lemma TailWellFormed(rows: seq<Member>)
    requires WellFormed(rows) && rows != []
    ensures WellFormed(rows[1..])
  {
    var tail := rows[1..];
    forall i, j | 0 <= i < j < |tail|
      ensures tail[i].songId != tail[j].songId && tail[i].position < tail[j].position
    {
      assert tail[i] == rows[i + 1] && tail[j] == rows[j + 1];
    }
    forall i | 0 <= i < |tail| ensures 0 <= tail[i].position {
      assert tail[i] == rows[i + 1];
    }
  }

  /** The head of well-formed rows may go in front of any well-formed selection of the rest. */
  lemma ConsWellFormed(rows: seq<Member>, rest: seq<Member>)
    requires WellFormed(rows) && rows != [] && WellFormed(rest)
    requires forall m :: m in rest ==> m in rows[1..]
    ensures WellFormed([rows[0]] + rest)
  {
    var tail := rows[1..];
    var r := [rows[0]] + rest;
    forall k | 0 <= k < |rest| ensures rows[0].songId != rest[k].songId && rows[0].position < rest[k].position {
      assert rest[k] in tail;
      var j :| 0 <= j < |tail| && tail[j] == rest[k];
      assert rows[j + 1] == tail[j];
    }
    forall i, j | 0 <= i < j < |r| ensures r[i].songId != r[j].songId && r[i].position < r[j].position {
      if i > 0 {
        assert r[i] == rest[i - 1] && r[j] == rest[j - 1];
      } else {
        assert r[j] == rest[j - 1];
      }
    }
    forall i | 0 <= i < |r| ensures 0 <= r[i].position {
      if i > 0 { assert r[i] == rest[i - 1]; }
    }
  }

  lemma RemoveKeepsWellFormed(rows: seq<Member>, songId: string, ok: bool)
    requires WellFormed(rows)
    ensures WellFormed(RemoveSong(rows, songId, ok).rows)
  {
    if ok {
      WithoutSongKeepsWellFormed(rows, songId);
    }
  }

  /** The records owned by `userId`, in table order. */
  function OwnedBy(table: seq<PlaylistRecord>, userId: string): (r: seq<PlaylistRecord>)
    ensures forall p :: p in r <==> p in table && p.userId == userId
    ensures |r| <= |table|
  {
    if table == [] then []
    else
      var rest := OwnedBy(table[1..], userId);
      assert table == [table[0]] + table[1..];
      if table[0].userId == userId then [table[0]] + rest else rest
  }

  /** Each record with its `song_count`, the number of its membership rows. */
  function WithCounts(records: seq<PlaylistRecord>, m: Memberships): (r: seq<PlaylistView>)
    ensures |r| == |records|
    ensures forall i :: 0 <= i < |r| ==> r[i].record == records[i] && r[i].songCount == |Rows(m, records[i].id)|
  {
    if records == [] then []
    else [PlaylistView(records[0], |Rows(m, records[0].id)|)] + WithCounts(records[1..], m)
  }

  /** `order('created_at', { ascending: false })`: newest first. */
  function NewestFirst(p: PlaylistRecord): int {
    -p.createdAt
  }

  /** `getUserPlaylists`: the user's playlists, newest first, each with its
      song count; a failed query reads as no playlists. */
  function UserPlaylists(table: seq<PlaylistRecord>, m: Memberships, userId: string, ok: bool): (r: seq<PlaylistView>)
    ensures !ok ==> r == []
    ensures ok ==> forall i :: 0 <= i < |r| ==>
      r[i].record in table && r[i].record.userId == userId && r[i].songCount == |Rows(m, r[i].record.id)|
    ensures ok ==> forall i, j :: 0 <= i < j < |r| ==> r[i].record.createdAt >= r[j].record.createdAt
    ensures ok ==> forall p :: p in table && p.userId == userId ==> exists i :: 0 <= i < |r| && r[i].record == p
    ensures ok ==> |r| == |OwnedBy(table, userId)|
  {
    if !ok then []
    else
      var owned := OwnedBy(table, userId);
      var sorted := SortBy(owned, NewestFirst);
      SortBySameElements(owned, NewestFirst);
      var r := WithCounts(sorted, m);
      ViewsNewestFirst(sorted, r);
      ViewsComplete(sorted, r);
      r
  }

  lemma ViewsNewestFirst(sorted: seq<PlaylistRecord>, r: seq<PlaylistView>)
    requires SortedBy(sorted, NewestFirst)
    requires |r| == |sorted| && forall i :: 0 <= i < |r| ==> r[i].record == sorted[i]
    ensures forall i, j :: 0 <= i < j < |r| ==> r[i].record.createdAt >= r[j].record.createdAt
  {
    forall i, j | 0 <= i < j < |r| ensures r[i].record.createdAt >= r[j].record.createdAt {
      assert NewestFirst(sorted[i]) <= NewestFirst(sorted[j]);
    }
  }

  lemma ViewsComplete(sorted: seq<PlaylistRecord>, r: seq<PlaylistView>)
    requires |r| == |sorted| && forall i :: 0 <= i < |r| ==> r[i].record == sorted[i]
    ensures forall p :: p in sorted ==> exists i :: 0 <= i < |r| && r[i].record == p
  {
    forall p | p in sorted ensures exists i :: 0 <= i < |r| && r[i].record == p {
      var i :| 0 <= i < |sorted| && sorted[i] == p;
      assert r[i].record == p;
    }
  }

  /** The result of `createPlaylist`: the new playlist (none on failure) and the table afterwards. */
  datatype Created = Created(playlist: Option<PlaylistView>, table: seq<PlaylistRecord>)

  /** `createPlaylist`: the database assigns `newId` and `createdAt`; on
      success the new playlist is reported with `song_count` 0. */
  function CreatePlaylist(table: seq<PlaylistRecord>, userId: string, name: string, description: Option<string>,
                          newId: string, createdAt: int, ok: bool): (c: Created)
    ensures !ok ==> c == Created(None, table)
    ensures ok ==> c.playlist.Some? && c.playlist.value.songCount == 0
    ensures ok ==> c.table == table + [c.playlist.value.record]
    ensures ok ==> c.playlist.value.record == PlaylistRecord(newId, userId, name, description, createdAt)
  {
    if !ok then Created(None, table)
    else
      var p := PlaylistRecord(newId, userId, name, description, createdAt);
      Created(Some(PlaylistView(p, 0)), table + [p])
  }

  /** A freshly created playlist, which has no rows yet, shows up in its
      owner's list with the same `song_count` 0 that creation reported. */
  lemma CreatedIsListed(table: seq<PlaylistRecord>, m: Memberships, userId: string, name: string,
                        description: Option<string>, newId: string, createdAt: int)
    requires Rows(m, newId) == []
    ensures var c := CreatePlaylist(table, userId, name, description, newId, createdAt, true);
      c.playlist.value in UserPlaylists(c.table, m, userId, true)
  {
    var c := CreatePlaylist(table, userId, name, description, newId, createdAt, true);
    var p := c.playlist.value.record;
    assert p in c.table;
    var r := UserPlaylists(c.table, m, userId, true);
    var i :| 0 <= i < |r| && r[i].record == p;
    assert r[i] == c.playlist.value;
  }

  /** `deletePlaylist`: on success no playlist with that id remains and every
      other playlist stays; a failed delete changes nothing. */
  function DeletePlaylist(table: seq<PlaylistRecord>, playlistId: string, ok: bool): (r: (bool, seq<PlaylistRecord>))
    ensures r.0 == ok
    ensures !ok ==> r.1 == table
    ensures ok ==> forall p :: p in r.1 <==> p in table && p.id != playlistId
  {
    if !ok then (false, table) else (true, WithoutPlaylist(table, playlistId))
  }

  function WithoutPlaylist(table: seq<PlaylistRecord>, playlistId: string): (r: seq<PlaylistRecord>)
    ensures forall p :: p in r <==> p in table && p.id != playlistId
  {
    if table == [] then []
    else
      var rest := WithoutPlaylist(table[1..], playlistId);
      assert table == [table[0]] + table[1..];
      if table[0].id == playlistId then rest else [table[0]] + rest
  }
}
