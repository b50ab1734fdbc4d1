/** The aggregations of `GET /api/admin/stats` (app/api/admin/stats/route.ts):
    total listening time, per-song and per-user totals with their top ten,
    and plays per hour of the day. Each `Map` the source fills row by row is
    modelled as a grouping of the rows by key, in the order the keys first
    appear (the order `Map` iterates in). */
module Stats {
  import opened Types
  import opened Sorting

  /** A `song_plays` row. A missing title or artist is the empty string and
      a missing duration is 0; `hour` is the local hour of `played_at`. */
  datatype Play = Play(userId: string, songId: string, title: string, artist: string, duration: nat, hour: nat)

  /** A `listening_sessions` row; missing numbers are 0. */
  datatype Session = Session(userId: string, duration: nat, songsPlayed: nat)

  // ---------------------------------------------------------------------
  // Sums

  /** The sum of `m` over the elements. */
  function SumBy<T>(xs: seq<T>, m: T -> nat): nat {
    if xs == [] then 0 else m(xs[0]) + SumBy(xs[1..], m)
  }

  lemma {:induction false} SumByConcat<T>(a: seq<T>, b: seq<T>, m: T -> nat)
    ensures SumBy(a + b, m) == SumBy(a, m) + SumBy(b, m)
    decreases |a|
  {
    if a == [] {
      assert a + b == b;
    } else {
      assert (a + b)[1..] == a[1..] + b;
      SumByConcat(a[1..], b, m);
    }
  }

  /** Replacing one element changes the sum by the difference. */
  lemma {:induction false} SumByUpdate<T>(xs: seq<T>, k: nat, y: T, m: T -> nat)
    requires k < |xs|
    ensures SumBy(xs[k := y], m) + m(xs[k]) == SumBy(xs, m) + m(y)
    decreases |xs|
  {
    if k > 0 {
      assert xs[k := y][1..] == xs[1..][k - 1 := y];
      SumByUpdate(xs[1..], k - 1, y, m);
    }
  }

  /** `sessions.reduce((sum, s) => sum + (s.total_duration_seconds || 0), 0)`. */
  method TotalListeningTime(sessions: seq<Session>) returns (total: nat)
    ensures total == SumBy(sessions, SessionDuration)
  {
    var m := SessionDuration;
    total := 0;
    var i := |sessions|;
    // the sum is accumulated from the back so that each step extends a suffix
    while i > 0
      invariant 0 <= i <= |sessions|
      invariant total == SumBy(sessions[i..], m)
    {
      i := i - 1;
      assert sessions[i..][1..] == sessions[i + 1..];
      total := total + sessions[i].duration;
    }
    assert sessions[0..] == sessions;
  }

  /** The sum is the same whichever end it starts from. */
  lemma {:induction false} SumBySnoc<T>(xs: seq<T>, x: T, m: T -> nat)
    ensures SumBy(xs + [x], m) == SumBy(xs, m) + m(x)
  {
    SumByConcat(xs, [x], m);
  }

  // ---------------------------------------------------------------------
  // Grouping

  /** The rows sharing one key, in input order. */
  datatype Group<K, T> = Group(key: K, members: seq<T>)

  /** The rows whose key is `k`, in order. */
  function Filter<T, K(==)>(rows: seq<T>, key: T -> K, k: K): (r: seq<T>)
    ensures |r| <= |rows|
    ensures forall x :: x in r ==> x in rows && key(x) == k
  {
    if rows == [] then []
    else
      var front := rows[..|rows| - 1];
      var f := Filter(front, key, k);
      if key(rows[|rows| - 1]) == k then f + [rows[|rows| - 1]] else f
  }

  /** The first row of a key's filter is the first row with that key. */
  lemma {:induction false} FilterHead<T, K>(rows: seq<T>, key: T -> K, k: K)
    requires Filter(rows, key, k) != []
    ensures exists j :: (
      && 0 <= j < |rows| && rows[j] == Filter(rows, key, k)[0]
      && key(rows[j]) == k && forall i :: 0 <= i < j ==> key(rows[i]) != k)
    decreases |rows|
  {
    var front := rows[..|rows| - 1];
    var last := rows[|rows| - 1];
    if Filter(front, key, k) != [] {
      FilterHead(front, key, k);
      var j :| 0 <= j < |front| && front[j] == Filter(front, key, k)[0]
        && key(front[j]) == k && forall i :: 0 <= i < j ==> key(front[i]) != k;
      assert rows[j] == front[j];
      assert forall i :: 0 <= i < j ==> rows[i] == front[i];
    } else {
      assert key(last) == k;
      forall i | 0 <= i < |rows| - 1 ensures key(rows[i]) != k {
        assert rows[i] == front[i];
        if key(rows[i]) == k {
          FilterHasRow(front, key, i);
        }
      }
    }
  }

  /** A row with the key is in the key's filter. */
  lemma {:induction false} FilterHasRow<T, K>(rows: seq<T>, key: T -> K, j: nat)
    requires j < |rows|
    ensures rows[j] in Filter(rows, key, key(rows[j]))
    decreases |rows|
  {
    if j < |rows| - 1 {
      var front := rows[..|rows| - 1];
      assert front[j] == rows[j];
      FilterHasRow(front, key, j);
    }
  }

  /** No row has the key: its filter is empty. */
  lemma {:induction false} FilterNone<T, K>(rows: seq<T>, key: T -> K, k: K)
    requires forall j :: 0 <= j < |rows| ==> key(rows[j]) != k
    ensures Filter(rows, key, k) == []
    decreases |rows|
  {
    if rows != [] {
      var front := rows[..|rows| - 1];
      assert forall j :: 0 <= j < |front| ==> front[j] == rows[j];
      FilterNone(front, key, k);
    }
  }

  predicate HasKey<K(==), T>(gs: seq<Group<K, T>>, k: K) {
    exists i :: 0 <= i < |gs| && gs[i].key == k
  }

  /** The index of the group with key `k`, or -1. */
  function KeyIndex<K(==), T>(gs: seq<Group<K, T>>, k: K): (i: int)
    ensures -1 <= i < |gs|
    ensures i == -1 <==> !HasKey(gs, k)
    ensures 0 <= i ==> gs[i].key == k
  {
    if gs == [] then -1
    else if gs[|gs| - 1].key == k then |gs| - 1
    else
      var i := KeyIndex(gs[..|gs| - 1], k);
      assert forall j :: 0 <= j < |gs| - 1 ==> gs[..|gs| - 1][j] == gs[j];
      i
  }

  ghost predicate UniqueKeys<K, T>(gs: seq<Group<K, T>>) {
    forall i, j :: 0 <= i < j < |gs| ==> gs[i].key != gs[j].key
  }

  /** `gs` groups `rows`: one group per key, each holding exactly the rows
      with its key in input order, and every row's key has a group. */
  ghost predicate Groups<K, T>(gs: seq<Group<K, T>>, rows: seq<T>, key: T -> K) {
    && UniqueKeys(gs)
    && (forall i :: 0 <= i < |gs| ==> gs[i].members == Filter(rows, key, gs[i].key))
    && (forall i :: 0 <= i < |gs| ==> gs[i].members != [])
    && (forall j :: 0 <= j < |rows| ==> HasKey(gs, key(rows[j])))
  }

  function Size<K, T>(g: Group<K, T>): nat {
    |g.members|
  }

  /** The `forEach` body: the row joins its key's group, or opens a new one. */
  function AddRow<K(==), T>(gs: seq<Group<K, T>>, x: T, key: T -> K): seq<Group<K, T>> {
    var i := KeyIndex(gs, key(x));
    if i == -1 then gs + [Group(key(x), [x])]
    else gs[i := gs[i].(members := gs[i].members + [x])]
  }

  /** The rows grouped by key, groups in order of first appearance. */
  function GroupBy<T, K(==)>(rows: seq<T>, key: T -> K): (gs: seq<Group<K, T>>)
    ensures Groups(gs, rows, key)
    ensures SumBy(gs, Size) == |rows|
  {
    if rows == [] then []
    else
      var front := rows[..|rows| - 1];
      var x := rows[|rows| - 1];
      var gs := GroupBy(front, key);
      assert rows == front + [x];
      AddRowGroups(gs, front, x, key);
      AddRow(gs, x, key)
  }

  lemma AddRowGroups<K, T>(gs: seq<Group<K, T>>, front: seq<T>, x: T, key: T -> K)
    requires Groups(gs, front, key)
    ensures Groups(AddRow(gs, x, key), front + [x], key)
    ensures SumBy(AddRow(gs, x, key), Size) == SumBy(gs, Size) + 1
  {
    var rows := front + [x];
    assert rows[..|rows| - 1] == front;
    var i := KeyIndex(gs, key(x));
    if i == -1 {
      AddNewGroup(gs, front, x, key);
      SumBySnoc(gs, Group(key(x), [x]), Size);
    } else {
      AddToGroup(gs, front, x, key, i);
      SumByUpdate(gs, i, gs[i].(members := gs[i].members + [x]), Size);
    }
  }

  /** Appending a row extends its own key's filter and no other. */
  lemma FilterSnoc<T, K>(front: seq<T>, x: T, key: T -> K, k: K)
    ensures key(x) == k ==> Filter(front + [x], key, k) == Filter(front, key, k) + [x]
    ensures key(x) != k ==> Filter(front + [x], key, k) == Filter(front, key, k)
  {
    assert (front + [x])[..|front + [x]| - 1] == front;
  }

  lemma AddNewGroup<K, T>(gs: seq<Group<K, T>>, front: seq<T>, x: T, key: T -> K)
    requires Groups(gs, front, key) && !HasKey(gs, key(x))
    ensures Groups(gs + [Group(key(x), [x])], front + [x], key)
  {
    AddNewGroupMembers(gs, front, x, key);
    AddNewGroupCovers(gs, front, x, key);
  }

  lemma AddNewGroupMembers<K, T>(gs: seq<Group<K, T>>, front: seq<T>, x: T, key: T -> K)
    requires Groups(gs, front, key) && !HasKey(gs, key(x))
    ensures var r := gs + [Group(key(x), [x])];
      forall i :: 0 <= i < |r| ==> r[i].members == Filter(front + [x], key, r[i].key)
  {
    var r := gs + [Group(key(x), [x])];
    forall j | 0 <= j < |front| ensures key(front[j]) != key(x) {
      assert HasKey(gs, key(front[j]));
    }
    FilterNone(front, key, key(x));
    forall i | 0 <= i < |r| ensures r[i].members == Filter(front + [x], key, r[i].key) {
      FilterSnoc(front, x, key, r[i].key);
      if i < |gs| {
        assert r[i] == gs[i];
      }
    }
  }

  lemma AddNewGroupCovers<K, T>(gs: seq<Group<K, T>>, front: seq<T>, x: T, key: T -> K)
    requires Groups(gs, front, key)
    ensures var r := gs + [Group(key(x), [x])];
      forall j :: 0 <= j < |front + [x]| ==> HasKey(r, key((front + [x])[j]))
  {
    var rows := front + [x];
    var r := gs + [Group(key(x), [x])];
    forall j | 0 <= j < |rows| ensures HasKey(r, key(rows[j])) {
      if j < |front| {
        assert rows[j] == front[j];
        var m :| 0 <= m < |gs| && gs[m].key == key(front[j]);
        assert r[m] == gs[m];
      } else {
        assert r[|gs|].key == key(rows[j]);
      }
    }
  }

  lemma AddToGroup<K, T>(gs: seq<Group<K, T>>, front: seq<T>, x: T, key: T -> K, k: nat)
    requires Groups(gs, front, key) && k < |gs| && gs[k].key == key(x)
    ensures Groups(gs[k := gs[k].(members := gs[k].members + [x])], front + [x], key)
  {
    var rows := front + [x];
    var r := gs[k := gs[k].(members := gs[k].members + [x])];
    assert rows[..|rows| - 1] == front;
    forall j | 0 <= j < |rows| ensures HasKey(r, key(rows[j])) {
      if j < |front| {
        assert rows[j] == front[j];
        var m :| 0 <= m < |gs| && gs[m].key == key(front[j]);
        assert r[m].key == gs[m].key;
      } else {
        assert r[k].key == key(rows[j]);
      }
    }
  }

  // ---------------------------------------------------------------------
  // Per-song statistics

  datatype SongStat = SongStat(songId: string, title: string, artist: string, playCount: nat, totalDuration: nat)

  function PlaySongId(p: Play): string { p.songId }
  function PlayDuration(p: Play): nat { p.duration }
  function PlayCount(s: SongStat): nat { s.playCount }

  /** A song's entry: its plays counted and their durations summed; the
      title and artist of its first play, or 'Unknown'. */
  function SongStatOf(g: Group<string, Play>): SongStat
    requires g.members != []
  {
    SongStat(
      g.key,
      OrElse(g.members[0].title, "Unknown"),
      OrElse(g.members[0].artist, "Unknown"),
      |g.members|,
      SumBy(g.members, PlayDuration))
  }

  function SongStatsOf(gs: seq<Group<string, Play>>): (r: seq<SongStat>)
    requires forall i :: 0 <= i < |gs| ==> gs[i].members != []
    ensures |r| == |gs|
    ensures forall i :: 0 <= i < |gs| ==> r[i] == SongStatOf(gs[i])
    ensures SumBy(r, PlayCount) == SumBy(gs, Size)
  {
    if gs == [] then []
    else
      var rest := SongStatsOf(gs[1..]);
      var r := [SongStatOf(gs[0])] + rest;
      assert r[1..] == rest;
      r
  }

  /** The `songStats` map's values, in insertion order. */
  function SongStats(plays: seq<Play>): (r: seq<SongStat>)
    ensures forall i, j :: 0 <= i < j < |r| ==> r[i].songId != r[j].songId
    ensures forall i :: 0 <= i < |r| ==>
      var own := Filter(plays, PlaySongId, r[i].songId);
      && own != []
      && r[i].playCount == |own|
      && r[i].totalDuration == SumBy(own, PlayDuration)
      && r[i].title == OrElse(own[0].title, "Unknown")
      && r[i].artist == OrElse(own[0].artist, "Unknown")
    ensures forall j :: 0 <= j < |plays| ==> exists i :: 0 <= i < |r| && r[i].songId == plays[j].songId
    ensures SumBy(r, PlayCount) == |plays|
  {
    var gs := GroupBy(plays, PlaySongId);
    var r := SongStatsOf(gs);
    SongStatsCover(plays, gs, r);
    SongStatsTotals(plays, gs, r);
    r
  }

  lemma SongStatsCover(plays: seq<Play>, gs: seq<Group<string, Play>>, r: seq<SongStat>)
    requires Groups(gs, plays, PlaySongId)
    requires |r| == |gs| && forall i :: 0 <= i < |gs| ==> r[i] == SongStatOf(gs[i])
    ensures forall i, j :: 0 <= i < j < |r| ==> r[i].songId != r[j].songId
    ensures forall j :: 0 <= j < |plays| ==> exists i :: 0 <= i < |r| && r[i].songId == plays[j].songId
  {
    forall j | 0 <= j < |plays| ensures exists i :: 0 <= i < |r| && r[i].songId == plays[j].songId {
      var i :| 0 <= i < |gs| && gs[i].key == PlaySongId(plays[j]);
      assert r[i].songId == plays[j].songId;
    }
    assert forall j :: 0 <= j < |plays| ==> exists i :: 0 <= i < |r| && r[i].songId == plays[j].songId;
  }

  lemma SongStatsTotals(plays: seq<Play>, gs: seq<Group<string, Play>>, r: seq<SongStat>)
    requires Groups(gs, plays, PlaySongId)
    requires |r| == |gs| && forall i :: 0 <= i < |gs| ==> r[i] == SongStatOf(gs[i])
    ensures forall i :: 0 <= i < |r| ==>
      var own := Filter(plays, PlaySongId, r[i].songId);
      && own != []
      && r[i].playCount == |own|
      && r[i].totalDuration == SumBy(own, PlayDuration)
      && r[i].title == OrElse(own[0].title, "Unknown")
      && r[i].artist == OrElse(own[0].artist, "Unknown")
  {
    forall i | 0 <= i < |r| ensures Filter(plays, PlaySongId, r[i].songId) == gs[i].members {
      assert r[i].songId == gs[i].key;
    }
  }

  /** `mostPlayedSongs`, applied to the song entries: at most ten of them,
      by non-increasing play count, none beaten by an entry left out. */
  function MostPlayedSongs(stats: seq<SongStat>): (r: seq<SongStat>)
    ensures |r| == if |stats| < 10 then |stats| else 10
    ensures forall i, j :: 0 <= i < j < |r| ==> r[i].playCount >= r[j].playCount
    ensures multiset(r) <= multiset(stats)
    ensures forall x, y :: x in multiset(stats) - multiset(r) && y in r ==> x.playCount <= y.playCount
  {
    TopN(stats, MostPlayedFirst, 10)
  }

  /** The sort key of `(a, b) => b.play_count - a.play_count`. */
  function MostPlayedFirst(s: SongStat): int {
    -(s.playCount as int)
  }

  // ---------------------------------------------------------------------
  // Per-user statistics

  datatype UserStat = UserStat(userId: string, totalDurationSeconds: nat, totalSongsPlayed: nat, totalSessions: nat)

  function SessionUserId(s: Session): string { s.userId }
  function SessionDuration(s: Session): nat { s.duration }
  function SessionSongs(s: Session): nat { s.songsPlayed }
  function Sessions(u: UserStat): nat { u.totalSessions }

  function UserStatOf(g: Group<string, Session>): UserStat {
    UserStat(g.key, SumBy(g.members, SessionDuration), SumBy(g.members, SessionSongs), |g.members|)
  }

  function UserStatsOf(gs: seq<Group<string, Session>>): (r: seq<UserStat>)
    ensures |r| == |gs|
    ensures forall i :: 0 <= i < |gs| ==> r[i] == UserStatOf(gs[i])
    ensures SumBy(r, Sessions) == SumBy(gs, Size)
  {
    if gs == [] then []
    else
      var rest := UserStatsOf(gs[1..]);
      var r := [UserStatOf(gs[0])] + rest;
      assert r[1..] == rest;
      r
  }

  /** The `userStats` map's values, in insertion order. */
  function UserStats(sessions: seq<Session>): (r: seq<UserStat>)
    ensures forall i, j :: 0 <= i < j < |r| ==> r[i].userId != r[j].userId
    ensures forall i :: 0 <= i < |r| ==>
      var own := Filter(sessions, SessionUserId, r[i].userId);
      && r[i].totalSessions == |own| > 0
      && r[i].totalDurationSeconds == SumBy(own, SessionDuration)
      && r[i].totalSongsPlayed == SumBy(own, SessionSongs)
    ensures forall j :: 0 <= j < |sessions| ==> exists i :: 0 <= i < |r| && r[i].userId == sessions[j].userId
    ensures SumBy(r, Sessions) == |sessions|
  {
    var gs := GroupBy(sessions, SessionUserId);
    var r := UserStatsOf(gs);
    UserStatsCover(sessions, gs, r);
    UserStatsTotals(sessions, gs, r);
    r
  }

  lemma UserStatsCover(sessions: seq<Session>, gs: seq<Group<string, Session>>, r: seq<UserStat>)
    requires Groups(gs, sessions, SessionUserId)
    requires |r| == |gs| && forall i :: 0 <= i < |gs| ==> r[i] == UserStatOf(gs[i])
    ensures forall i, j :: 0 <= i < j < |r| ==> r[i].userId != r[j].userId
    ensures forall j :: 0 <= j < |sessions| ==> exists i :: 0 <= i < |r| && r[i].userId == sessions[j].userId
  {
    forall j | 0 <= j < |sessions| ensures exists i :: 0 <= i < |r| && r[i].userId == sessions[j].userId {
      var i :| 0 <= i < |gs| && gs[i].key == SessionUserId(sessions[j]);
      assert r[i].userId == sessions[j].userId;
    }
    assert forall j :: 0 <= j < |sessions| ==> exists i :: 0 <= i < |r| && r[i].userId == sessions[j].userId;
  }

  lemma UserStatsTotals(sessions: seq<Session>, gs: seq<Group<string, Session>>, r: seq<UserStat>)
    requires Groups(gs, sessions, SessionUserId)
    requires |r| == |gs| && forall i :: 0 <= i < |gs| ==> r[i] == UserStatOf(gs[i])
    ensures forall i :: 0 <= i < |r| ==>
      var own := Filter(sessions, SessionUserId, r[i].userId);
      && r[i].totalSessions == |own| > 0
      && r[i].totalDurationSeconds == SumBy(own, SessionDuration)
      && r[i].totalSongsPlayed == SumBy(own, SessionSongs)
  {
    forall i | 0 <= i < |r| ensures Filter(sessions, SessionUserId, r[i].userId) == gs[i].members {
      assert r[i].userId == gs[i].key;
    }
  }

  /** `topUsers`, applied to the user entries: at most ten of them, by
      non-increasing listening time, none beaten by a user left out. */
  function TopUsers(users: seq<UserStat>): (r: seq<UserStat>)
    ensures |r| == if |users| < 10 then |users| else 10
    ensures forall i, j :: 0 <= i < j < |r| ==> r[i].totalDurationSeconds >= r[j].totalDurationSeconds
    ensures multiset(r) <= multiset(users)
    ensures forall x, y :: x in multiset(users) - multiset(r) && y in r ==>
      x.totalDurationSeconds <= y.totalDurationSeconds
  {
    TopN(users, LongestFirst, 10)
  }

  /** The sort key of `(a, b) => b.total_duration_seconds - a.total_duration_seconds`. */
  function LongestFirst(u: UserStat): int {
    -(u.totalDurationSeconds as int)
  }

  // ---------------------------------------------------------------------
  // Plays per hour

  datatype HourCount = HourCount(hour: nat, plays: nat)

  function PlayHour(p: Play): nat { p.hour }
  function HourOf(h: HourCount): int { h.hour }
  function HourPlays(h: HourCount): nat { h.plays }

  function HourCountsOf(gs: seq<Group<nat, Play>>): (r: seq<HourCount>)
    ensures |r| == |gs|
    ensures forall i :: 0 <= i < |gs| ==> r[i] == HourCount(gs[i].key, |gs[i].members|)
    ensures SumBy(r, HourPlays) == SumBy(gs, Size)
  {
    if gs == [] then []
    else
      var rest := HourCountsOf(gs[1..]);
      var r := [HourCount(gs[0].key, |gs[0].members|)] + rest;
      assert r[1..] == rest;
      r
  }

  /** `hourlyStats`: every hour with a play exactly once, in strictly
      ascending order, with its number of plays; the counts add up to the
      number of plays. */
  function HourlyStats(plays: seq<Play>): (r: seq<HourCount>)
    ensures forall i, j :: 0 <= i < j < |r| ==> r[i].hour < r[j].hour
    ensures forall i :: 0 <= i < |r| ==> r[i].plays == |Filter(plays, PlayHour, r[i].hour)| > 0
    ensures forall j :: 0 <= j < |plays| ==> exists i :: 0 <= i < |r| && r[i].hour == plays[j].hour
    ensures SumBy(r, HourPlays) == |plays|
  {
    var gs := GroupBy(plays, PlayHour);
    var counts := HourCountsOf(gs);
    var r := SortBy(counts, HourOf);
    HourlyAscending(gs, counts);
    SortKeepsSum(counts, HourOf, HourPlays);
    HourlyCounts(plays, gs, counts, r);
    HourlyCover(plays, gs, counts, r);
    r
  }

  lemma HourlyAscending(gs: seq<Group<nat, Play>>, counts: seq<HourCount>)
    requires UniqueKeys(gs)
    requires |counts| == |gs| && forall i :: 0 <= i < |gs| ==> counts[i] == HourCount(gs[i].key, |gs[i].members|)
    ensures forall i, j :: 0 <= i < j < |SortBy(counts, HourOf)| ==> SortBy(counts, HourOf)[i].hour < SortBy(counts, HourOf)[j].hour
  {
    assert DistinctBy(counts, HourOf);
    SortKeepsDistinct(counts, HourOf);
  }

  lemma HourlyCounts(plays: seq<Play>, gs: seq<Group<nat, Play>>, counts: seq<HourCount>, r: seq<HourCount>)
    requires Groups(gs, plays, PlayHour)
    requires |counts| == |gs| && forall i :: 0 <= i < |gs| ==> counts[i] == HourCount(gs[i].key, |gs[i].members|)
    requires multiset(r) == multiset(counts)
    ensures forall i :: 0 <= i < |r| ==> r[i].plays == |Filter(plays, PlayHour, r[i].hour)| > 0
  {
    forall i | 0 <= i < |r| ensures r[i].plays == |Filter(plays, PlayHour, r[i].hour)| > 0 {
      assert r[i] in multiset(counts);
      var k :| 0 <= k < |counts| && counts[k] == r[i];
      assert gs[k].members == Filter(plays, PlayHour, gs[k].key);
    }
  }

  lemma HourlyCover(plays: seq<Play>, gs: seq<Group<nat, Play>>, counts: seq<HourCount>, r: seq<HourCount>)
    requires Groups(gs, plays, PlayHour)
    requires |counts| == |gs| && forall i :: 0 <= i < |gs| ==> counts[i] == HourCount(gs[i].key, |gs[i].members|)
    requires multiset(r) == multiset(counts)
    ensures forall j :: 0 <= j < |plays| ==> exists i :: 0 <= i < |r| && r[i].hour == plays[j].hour
  {
    forall j | 0 <= j < |plays| ensures exists i :: 0 <= i < |r| && r[i].hour == plays[j].hour {
      var k :| 0 <= k < |gs| && gs[k].key == PlayHour(plays[j]);
      assert counts[k] in multiset(r);
      var i :| 0 <= i < |r| && r[i] == counts[k];
      assert r[i].hour == plays[j].hour;
    }
    assert forall j :: 0 <= j < |plays| ==> exists i :: 0 <= i < |r| && r[i].hour == plays[j].hour;
  }

  /** Sorting does not change a sum. */
  lemma {:induction false} SortKeepsSum<T>(xs: seq<T>, key: T -> int, m: T -> nat)
    ensures SumBy(SortBy(xs, key), m) == SumBy(xs, m)
    decreases |xs|
  {
    if xs != [] {
      SortKeepsSum(xs[1..], key, m);
      InsertKeepsSum(xs[0], SortBy(xs[1..], key), key, m);
    }
  }

  lemma {:induction false} InsertKeepsSum<T>(x: T, xs: seq<T>, key: T -> int, m: T -> nat)
    requires SortedBy(xs, key)
    ensures SumBy(Insert(x, xs, key), m) == m(x) + SumBy(xs, m)
    decreases |xs|
  {
    if !(xs == [] || key(x) <= key(xs[0])) {
      assert SortedBy(xs[1..], key);
      InsertKeepsSum(x, xs[1..], key, m);
      var r := [xs[0]] + Insert(x, xs[1..], key);
      assert r[1..] == Insert(x, xs[1..], key);
    } else {
      assert ([x] + xs)[1..] == xs;
    }
  }

  // ---------------------------------------------------------------------
  // Distinct users

  /** The `totalUsers` query as written: the exact count of `song_plays`
      rows selected by `user_id`, which counts plays, not users. */
  function TotalUsersAsWritten(plays: seq<Play>): nat {
    |plays|
  }

  /** One user playing twice is counted as two users. */
  lemma TotalUsersCountsPlays()
    ensures var plays := [Play("u1", "s1", "", "", 0, 0), Play("u1", "s2", "", "", 0, 0)];
      TotalUsersAsWritten(plays) == 2 && DistinctUsers(plays) == 1
  {
    var plays := [Play("u1", "s1", "", "", 0, 0), Play("u1", "s2", "", "", 0, 0)];
    var ids := set p | p in plays :: p.userId;
    assert ids == {"u1"};
  }

  function PlayUserId(p: Play): string { p.userId }

  /** The number of distinct users among the plays. */
  function DistinctUsers(plays: seq<Play>): (n: nat)
    ensures n == |set p | p in plays :: p.userId|
    ensures n <= |plays|
  {
    var gs := GroupBy(plays, PlayUserId);
    GroupKeysAreIds(gs, plays);
    |gs|
  }

  lemma GroupKeysAreIds(gs: seq<Group<string, Play>>, plays: seq<Play>)
    requires Groups(gs, plays, PlayUserId) && SumBy(gs, Size) == |plays|
    ensures |gs| == |set p | p in plays :: p.userId|
    ensures |gs| <= |plays|
  {
    KeysAreIds(gs, plays);
    DistinctKeysCount(gs);
    SizesBound(gs);
  }

  lemma KeysAreIds(gs: seq<Group<string, Play>>, plays: seq<Play>)
    requires Groups(gs, plays, PlayUserId)
    ensures (set i | 0 <= i < |gs| :: gs[i].key) == set p | p in plays :: p.userId
  {
    var keys := set i | 0 <= i < |gs| :: gs[i].key;
    var ids := set p | p in plays :: p.userId;
    forall k | k in ids ensures k in keys {
      var p :| p in plays && p.userId == k;
      var j :| 0 <= j < |plays| && plays[j] == p;
      assert HasKey(gs, PlayUserId(plays[j]));
    }
    forall k | k in keys ensures k in ids {
      var i :| 0 <= i < |gs| && gs[i].key == k;
      var p := gs[i].members[0];
      assert p in Filter(plays, PlayUserId, k);
    }
  }

  /** Distinct keys: as many keys as groups. */
  lemma {:induction false} DistinctKeysCount<K, T>(gs: seq<Group<K, T>>)
    requires UniqueKeys(gs)
    ensures |set i | 0 <= i < |gs| :: gs[i].key| == |gs|
    decreases |gs|
  {
    if gs != [] {
      var front := gs[..|gs| - 1];
      assert UniqueKeys(front);
      DistinctKeysCount(front);
      var a := set i | 0 <= i < |front| :: front[i].key;
      var b := set i | 0 <= i < |gs| :: gs[i].key;
      assert b == a + {gs[|gs| - 1].key};
      assert gs[|gs| - 1].key !in a;
    }
  }

  /** Non-empty groups: at most as many groups as rows. */
  lemma {:induction false} SizesBound<K, T>(gs: seq<Group<K, T>>)
    requires forall i :: 0 <= i < |gs| ==> gs[i].members != []
    ensures |gs| <= SumBy(gs, Size)
    decreases |gs|
  {
    if gs != [] {
      SizesBound(gs[1..]);
    }
  }

  // ---------------------------------------------------------------------
  // The route

  /** The route's JSON answer. */
  datatype Report = Report(
    totalUsers: nat,
    totalSongsPlayed: nat,
    totalListeningTime: nat,
    mostPlayedSongs: seq<SongStat>,
    topUsers: seq<UserStat>,
    hourlyStats: seq<HourCount>)

  datatype StatsReply = Unauthorized | Ok(report: Report)

  /** `GET`: without an `admin_session` cookie, 401 'Unauthorized';
      otherwise the report over the rows read (a failed read is no rows).
      `totalUsers` is the query as written, so it always equals
      `totalSongsPlayed`. */
  method Get(adminSession: string, plays: seq<Play>, sessions: seq<Session>) returns (reply: StatsReply)
    ensures adminSession == [] <==> reply == Unauthorized
    ensures reply.Ok? ==> reply.report.totalUsers == reply.report.totalSongsPlayed
    ensures reply.Ok? ==> reply.report == Report(
      TotalUsersAsWritten(plays),
      |plays|,
      SumBy(sessions, SessionDuration),
      MostPlayedSongs(SongStats(plays)),
      TopUsers(UserStats(sessions)),
      HourlyStats(plays))
  {
    if adminSession == [] {
      return Unauthorized;
    }
    var time := TotalListeningTime(sessions);
    reply := Ok(Report(
      TotalUsersAsWritten(plays),
      |plays|,
      time,
      MostPlayedSongs(SongStats(plays)),
      TopUsers(UserStats(sessions)),
      HourlyStats(plays)));
  }
}
