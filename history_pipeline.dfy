/** The filter-and-sort pipeline of the games history screen
    (GamesHistoryViewModel.kt): saved games paired with their boards are
    kept when their difficulty and their game type pass the active
    filters, then sorted by game id or by timer, ascending or descending. */
module HistoryPipeline {

  /** The difficulty of a game. Only equality between constants matters
      to the pipeline. */
  datatype GameDifficulty = Unspecified | Simple | Easy | Moderate | Hard | Challenge | Custom

  /** The kind of puzzle of a game. Only equality between constants
      matters to the pipeline. */
  datatype GameType = Unspecified | Default6x6 | Default9x9 | Default12x12 | Killer6x6 | Killer9x9 | Killer12x12

  /** The parts of a saved game the pipeline reads: its id and its timer
      (a duration, counted here in whole units). */
  datatype SavedGame = SavedGame(uid: int, timer: int)

  /** The parts of a stored board the pipeline reads. */
  datatype SudokuBoard = SudokuBoard(difficulty: GameDifficulty, gameType: GameType)

  /** One history entry: a Pair<SavedGame, SudokuBoard>. */
  datatype Entry = Entry(first: SavedGame, second: SudokuBoard)

  datatype SortType = Ascending | Descending

  datatype SortEntry = GameID | Timer

  // ---------------------------------------------------------------------
  // Filtering.
  // ---------------------------------------------------------------------

  /** List.filter: the elements that satisfy p, in their original order. */
  function Filter<T(==,!new)>(s: seq<T>, p: T -> bool): (r: seq<T>)
    ensures |r| <= |s|
    ensures forall x :: x in r ==> x in s && p(x)
    ensures forall x :: multiset(r)[x] == if p(x) then multiset(s)[x] else 0
    ensures IsSubsequence(r, s)
  {
    if s == [] then []
    else
      assert s == [s[0]] + s[1..];
      if p(s[0]) then [s[0]] + Filter(s[1..], p) else Filter(s[1..], p)
  }

  /** r is obtained from s by deleting elements. */
  predicate IsSubsequence<T(==)>(r: seq<T>, s: seq<T>)
    decreases |s|
  {
    if r == [] then true
    else if s == [] then false
    else if r[0] == s[0] then IsSubsequence(r[1..], s[1..])
    else IsSubsequence(r, s[1..])
  }

  /** Filtering twice with two conditions gives the same list in either
      order. */
  lemma {:induction false} FilterCommutes<T(!new)>(s: seq<T>, p: T -> bool, q: T -> bool)
    ensures Filter(Filter(s, p), q) == Filter(Filter(s, q), p)
  {
    if s != [] {
      FilterCommutes(s[1..], p, q);
      var t := s[1..];
      if p(s[0]) {
        assert Filter([s[0]] + Filter(t, p), q) ==
          (if q(s[0]) then [s[0]] else []) + Filter(Filter(t, p), q) by {
          assert ([s[0]] + Filter(t, p))[1..] == Filter(t, p);
        }
      }
      if q(s[0]) {
        assert Filter([s[0]] + Filter(t, q), p) ==
          (if p(s[0]) then [s[0]] else []) + Filter(Filter(t, q), p) by {
          assert ([s[0]] + Filter(t, q))[1..] == Filter(t, q);
        }
      }
    }
  }

  /** Whether an entry passes the difficulty filter: an empty filter
      passes everything. */
  predicate DifficultyAccepted(filter: seq<GameDifficulty>, e: Entry)
  {
    |filter| == 0 || e.second.difficulty in filter
  }

  /** Whether an entry passes the game-type filter: an empty filter
      passes everything. */
  predicate TypeAccepted(filter: seq<GameType>, e: Entry)
  {
    |filter| == 0 || e.second.gameType in filter
  }

  /** applyFilterDifficulties. */
  function FilterDifficulties(filter: seq<GameDifficulty>, games: seq<Entry>): (r: seq<Entry>)
    ensures |filter| == 0 ==> r == games
    ensures IsSubsequence(r, games)
    ensures forall e :: multiset(r)[e] == if DifficultyAccepted(filter, e) then multiset(games)[e] else 0
  {
    if |filter| > 0 then Filter(games, (e: Entry) => e.second.difficulty in filter)
    else SubsequenceOfItself(games); games
  }

  /** applyFilterTypes. */
  function FilterTypes(filter: seq<GameType>, games: seq<Entry>): (r: seq<Entry>)
    ensures |filter| == 0 ==> r == games
    ensures IsSubsequence(r, games)
    ensures forall e :: multiset(r)[e] == if TypeAccepted(filter, e) then multiset(games)[e] else 0
  {
    if |filter| > 0 then Filter(games, (e: Entry) => e.second.gameType in filter)
    else SubsequenceOfItself(games); games
  }

  lemma {:induction false} SubsequenceOfItself<T>(s: seq<T>)
    ensures IsSubsequence(s, s)
  {
    if s != [] {
      SubsequenceOfItself(s[1..]);
    }
  }

  /** The two filters commute: applying the type filter first gives the
      same list. */
  lemma FiltersCommute(ds: seq<GameDifficulty>, ts: seq<GameType>, games: seq<Entry>)
    ensures FilterTypes(ts, FilterDifficulties(ds, games)) == FilterDifficulties(ds, FilterTypes(ts, games))
  {
    if |ds| > 0 && |ts| > 0 {
      FilterCommutes(games, (e: Entry) => e.second.difficulty in ds, (e: Entry) => e.second.gameType in ts);
    }
  }

  // ---------------------------------------------------------------------
  // Sorting: sortedBy / sortedByDescending, both stable.
  // ---------------------------------------------------------------------

  /** The sort key an entry is compared by. */
  function Key(e: Entry, sortEntry: SortEntry): int
  {
    match sortEntry
    case GameID => e.first.uid
    case Timer => e.first.timer
  }

  /** Whether key a may come before key b. */
  predicate InOrder(a: int, b: int, t: SortType)
  {
    if t == Ascending then a <= b else a >= b
  }

  /** Non-decreasing keys when ascending, non-increasing when descending. */
  predicate Sorted(s: seq<Entry>, t: SortType, sortEntry: SortEntry)
  {
    forall i, j :: 0 <= i < j < |s| ==> InOrder(Key(s[i], sortEntry), Key(s[j], sortEntry), t)
  }

  /** A sorted list stays sorted when an element that may precede all of
      its elements is put in front. */
  lemma SortedCons(h: Entry, s: seq<Entry>, t: SortType, sortEntry: SortEntry)
    requires Sorted(s, t, sortEntry)
    requires forall y :: y in s ==> InOrder(Key(h, sortEntry), Key(y, sortEntry), t)
    ensures Sorted([h] + s, t, sortEntry)
  {
    var r := [h] + s;
    forall i, j | 0 <= i < j < |r|
      ensures InOrder(Key(r[i], sortEntry), Key(r[j], sortEntry), t)
    {
      assert r[j] == s[j - 1];
      if i > 0 {
        assert r[i] == s[i - 1];
      } else {
        assert s[j - 1] in s;
      }
    }
  }

  /** Inserts x into a sorted list in front of the first element it may
      precede, so that x stays before the entries with an equal key. */
  function Insert(x: Entry, s: seq<Entry>, t: SortType, sortEntry: SortEntry): (r: seq<Entry>)
    requires Sorted(s, t, sortEntry)
    ensures Sorted(r, t, sortEntry)
    ensures multiset(r) == multiset(s) + multiset{x}
  {
    if s == [] || InOrder(Key(x, sortEntry), Key(s[0], sortEntry), t) then
      assert forall y :: y in s ==> InOrder(Key(x, sortEntry), Key(y, sortEntry), t) by {
        forall y | y in s ensures InOrder(Key(x, sortEntry), Key(y, sortEntry), t) {
          var j :| 0 <= j < |s| && s[j] == y;
          if j > 0 {
            assert InOrder(Key(s[0], sortEntry), Key(s[j], sortEntry), t);
          }
        }
      }
      SortedCons(x, s, t, sortEntry);
      [x] + s
    else
      var rest := Insert(x, s[1..], t, sortEntry);
      assert s == [s[0]] + s[1..];
      assert forall y :: y in rest ==> InOrder(Key(s[0], sortEntry), Key(y, sortEntry), t) by {
        forall y | y in rest ensures InOrder(Key(s[0], sortEntry), Key(y, sortEntry), t) {
          assert y in multiset(rest);
          if y != x {
            assert y in multiset(s[1..]);
            var j :| 0 <= j < |s[1..]| && s[1..][j] == y;
            assert s[j + 1] == y;
          }
        }
      }
      SortedCons(s[0], rest, t, sortEntry);
      [s[0]] + rest
  }

  /** The sort applied by applySort. */
  function SortBy(s: seq<Entry>, t: SortType, sortEntry: SortEntry): (r: seq<Entry>)
    ensures Sorted(r, t, sortEntry)
    ensures multiset(r) == multiset(s)
  {
    if s == [] then []
    else
      assert s == [s[0]] + s[1..];
      Insert(s[0], SortBy(s[1..], t, sortEntry), t, sortEntry)
  }

  /** The entries of a list whose key is v, in order. */
  function WithKey(s: seq<Entry>, sortEntry: SortEntry, v: int): seq<Entry>
  {
    Filter(s, (e: Entry) => Key(e, sortEntry) == v)
  }

  lemma WithKeyCons(x: Entry, s: seq<Entry>, sortEntry: SortEntry, v: int)
    ensures WithKey([x] + s, sortEntry, v) == (if Key(x, sortEntry) == v then [x] else []) + WithKey(s, sortEntry, v)
  {
    assert ([x] + s)[1..] == s;
  }

  /** Inserting x keeps the relative order of every group of equal keys,
      with x first in its own group. */
  lemma {:induction false} InsertStable(x: Entry, s: seq<Entry>, t: SortType, sortEntry: SortEntry, v: int)
    requires Sorted(s, t, sortEntry)
    ensures WithKey(Insert(x, s, t, sortEntry), sortEntry, v) ==
      (if Key(x, sortEntry) == v then [x] else []) + WithKey(s, sortEntry, v)
  {
    if s == [] || InOrder(Key(x, sortEntry), Key(s[0], sortEntry), t) {
      assert Insert(x, s, t, sortEntry) == [x] + s;
      WithKeyCons(x, s, sortEntry, v);
    } else {
      var tail := s[1..];
      var rest := Insert(x, tail, t, sortEntry);
      assert s == [s[0]] + tail;
      assert Insert(x, s, t, sortEntry) == [s[0]] + rest;
      InsertStable(x, tail, t, sortEntry, v);
      WithKeyCons(s[0], rest, sortEntry, v);
      WithKeyCons(s[0], tail, sortEntry, v);
      // x and s[0] have different keys, so at most one of them has key v.
      if Key(x, sortEntry) == v {
        assert WithKey(s, sortEntry, v) == WithKey(tail, sortEntry, v);
        assert WithKey([s[0]] + rest, sortEntry, v) == WithKey(rest, sortEntry, v);
      } else if Key(s[0], sortEntry) == v {
        assert WithKey(rest, sortEntry, v) == WithKey(tail, sortEntry, v);
      } else {
        assert WithKey([s[0]] + rest, sortEntry, v) == WithKey(rest, sortEntry, v);
      }
    }
  }

  /** The sort is stable: the entries with any one key keep their
      original relative order. */
  lemma {:induction false} SortStable(s: seq<Entry>, t: SortType, sortEntry: SortEntry, v: int)
    ensures WithKey(SortBy(s, t, sortEntry), sortEntry, v) == WithKey(s, sortEntry, v)
  {
    if s != [] {
      assert s == [s[0]] + s[1..];
      SortStable(s[1..], t, sortEntry, v);
      InsertStable(s[0], SortBy(s[1..], t, sortEntry), t, sortEntry, v);
      WithKeyCons(s[0], s[1..], sortEntry, v);
    }
  }

  /** applySort: ascending or descending by game id or by timer. */
  function ApplySort(t: SortType, sortEntry: SortEntry, games: seq<Entry>): (r: seq<Entry>)
    ensures Sorted(r, t, sortEntry)
    ensures multiset(r) == multiset(games)
    ensures |r| == |games|
  {
    var r := SortBy(games, t, sortEntry);
    assert |multiset(r)| == |r|;
    r
  }

  /** The four branches of applySort, stated on the saved game's own
      fields: sortedBy { it.first.uid }, sortedBy { it.first.timer },
      and their descending counterparts. */
  lemma SortKeys(games: seq<Entry>, i: int, j: int)
    requires 0 <= i < j < |games|
    ensures ApplySort(Ascending, GameID, games)[i].first.uid <= ApplySort(Ascending, GameID, games)[j].first.uid
    ensures ApplySort(Ascending, Timer, games)[i].first.timer <= ApplySort(Ascending, Timer, games)[j].first.timer
    ensures ApplySort(Descending, GameID, games)[i].first.uid >= ApplySort(Descending, GameID, games)[j].first.uid
    ensures ApplySort(Descending, Timer, games)[i].first.timer >= ApplySort(Descending, Timer, games)[j].first.timer
  {
  }

  // ---------------------------------------------------------------------
  // The whole pipeline.
  // ---------------------------------------------------------------------

  /** Whether an entry passes both filters. */
  predicate Accepted(ds: seq<GameDifficulty>, ts: seq<GameType>, e: Entry)
  {
    DifficultyAccepted(ds, e) && TypeAccepted(ts, e)
  }

  /** The games both filters accept, in their original order. */
  function AcceptedGames(ds: seq<GameDifficulty>, ts: seq<GameType>, games: seq<Entry>): seq<Entry>
  {
    Filter(games, (e: Entry) => Accepted(ds, ts, e))
  }

  /** applySortAndFilter: the difficulty filter, then the type filter,
      then the sort. The result is sorted and holds exactly the accepted
      input entries, with their multiplicities. */
  function SortAndFilter(t: SortType, sortEntry: SortEntry, ds: seq<GameDifficulty>, ts: seq<GameType>, games: seq<Entry>): (r: seq<Entry>)
    ensures Sorted(r, t, sortEntry)
    ensures forall e :: e in r ==> Accepted(ds, ts, e)
    ensures multiset(r) == multiset(AcceptedGames(ds, ts, games))
  {
    var result := FilterDifficulties(ds, games);
    var result' := FilterTypes(ts, result);
    FilteredContents(ds, ts, games);
    var sorted := ApplySort(t, sortEntry, result');
    assert forall e :: e in sorted ==> Accepted(ds, ts, e) by {
      forall e | e in sorted ensures Accepted(ds, ts, e) {
        assert e in multiset(sorted);
      }
    }
    sorted
  }

  /** Filtering by difficulty and then by type keeps the same entries,
      with the same multiplicities, as filtering once by both. */
  lemma FilteredContents(ds: seq<GameDifficulty>, ts: seq<GameType>, games: seq<Entry>)
    ensures multiset(FilterTypes(ts, FilterDifficulties(ds, games))) == multiset(AcceptedGames(ds, ts, games))
  {
    var once := FilterDifficulties(ds, games);
    var twice := FilterTypes(ts, once);
    var both := AcceptedGames(ds, ts, games);
    forall e ensures multiset(twice)[e] == multiset(both)[e] {
      assert multiset(twice)[e] == if TypeAccepted(ts, e) then multiset(once)[e] else 0;
      assert multiset(once)[e] == if DifficultyAccepted(ds, e) then multiset(games)[e] else 0;
      assert multiset(both)[e] == if Accepted(ds, ts, e) then multiset(games)[e] else 0;
    }
  }

  /** Without any filter the pipeline only sorts: it returns a sorted
      permutation of all the games. */
  lemma NoFilterKeepsAll(t: SortType, sortEntry: SortEntry, games: seq<Entry>)
    ensures SortAndFilter(t, sortEntry, [], [], games) == ApplySort(t, sortEntry, games)
  {
  }
}
