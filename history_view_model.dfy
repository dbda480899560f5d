/** The settings state of the games history screen (HistoryViewModel in
    GamesHistoryViewModel.kt): sort direction, sort key and the two filter
    lists, changed by the toggle and select methods. */
module GamesHistory {
  import opened HistoryPipeline

  /** A list without repeated elements. */
  predicate NoDuplicates<T(==)>(s: seq<T>)
  {
    forall i, j :: 0 <= i < j < |s| ==> s[i] != s[j]
  }

  /** Kotlin's `list - x`: the list without the first occurrence of x. */
  function RemoveFirst<T(==)>(s: seq<T>, x: T): (r: seq<T>)
    ensures x !in s ==> r == s
    ensures x in s ==> multiset(r) == multiset(s) - multiset{x}
    ensures forall y :: y in r ==> y in s
    ensures forall y :: y in s && y != x ==> y in r
  {
    if s == [] then []
    else if s[0] == x then
      assert s == [s[0]] + s[1..];
      s[1..]
    else
      assert s == [s[0]] + s[1..];
      [s[0]] + RemoveFirst(s[1..], x)
  }

  /** The occurrence RemoveFirst drops is the first one, and every other
      element keeps its place in order. */
  lemma {:induction false} RemoveFirstRemovesFirst<T>(s: seq<T>, x: T)
    requires x in s
    ensures exists k :: 0 <= k < |s| && s[k] == x && x !in s[..k] && RemoveFirst(s, x) == s[..k] + s[k + 1..]
  {
    if s[0] == x {
      assert s[..0] == [] && RemoveFirst(s, x) == s[0 + 1..];
    } else {
      RemoveFirstRemovesFirst(s[1..], x);
      var k :| 0 <= k < |s[1..]| && s[1..][k] == x && x !in s[1..][..k] &&
        RemoveFirst(s[1..], x) == s[1..][..k] + s[1..][k + 1..];
      RemoveFirstShift(s, x, k);
    }
  }

  /** Shifting the removed position of the tail by one, for a head that
      is not x. */
  lemma RemoveFirstShift<T>(s: seq<T>, x: T, k: int)
    requires s != [] && s[0] != x && 0 <= k < |s| - 1
    requires s[1..][k] == x && x !in s[1..][..k]
    requires RemoveFirst(s[1..], x) == s[1..][..k] + s[1..][k + 1..]
    ensures s[k + 1] == x && x !in s[..k + 1]
    ensures RemoveFirst(s, x) == s[..k + 1] + s[(k + 1) + 1..]
  {
    var t := s[1..];
    assert RemoveFirst(s, x) == [s[0]] + RemoveFirst(t, x);
    HeadSlices(s, k);
    assert [s[0]] + (t[..k] + t[k + 1..]) == ([s[0]] + t[..k]) + t[k + 1..];
  }

  /** Slices of a list seen through its tail. */
  lemma HeadSlices<T>(s: seq<T>, k: int)
    requires 0 <= k < |s| - 1
    ensures s[..k + 1] == [s[0]] + s[1..][..k]
    ensures s[k + 2..] == s[1..][k + 1..]
  {
  }

  /** selectFilter: append x when it is absent, otherwise remove it. */
  function Toggle<T(==)>(s: seq<T>, x: T): (r: seq<T>)
    ensures x !in s ==> r == s + [x]
    ensures x in s ==> multiset(r) == multiset(s) - multiset{x}
    ensures forall y :: y in r ==> y in s || y == x
    ensures forall y :: y in s && y != x ==> y in r
  {
    if x !in s then s + [x] else RemoveFirst(s, x)
  }

  /** In a list without duplicates, removing x removes it entirely and
      keeps the list free of duplicates. */
  lemma {:induction false} RemoveFirstNoDuplicates<T>(s: seq<T>, x: T)
    requires NoDuplicates(s)
    ensures x !in RemoveFirst(s, x)
    ensures NoDuplicates(RemoveFirst(s, x))
  {
    if s != [] && s[0] != x {
      RemoveFirstNoDuplicates(s[1..], x);
      var rest := RemoveFirst(s[1..], x);
      var r := [s[0]] + rest;
      assert s[0] !in s[1..];
      forall i, j | 0 <= i < j < |r| ensures r[i] != r[j] {
        assert r[j] == rest[j - 1] && rest[j - 1] in rest;
        if i > 0 {
          assert r[i] == rest[i - 1];
        }
      }
    } else if s != [] {
      assert x !in s[1..];
    }
  }

  /** Toggling flips x's membership and leaves every other element's
      membership alone; the list stays free of duplicates. */
  lemma ToggleFlips<T>(s: seq<T>, x: T)
    requires NoDuplicates(s)
    ensures x in Toggle(s, x) <==> x !in s
    ensures forall y :: y != x ==> (y in Toggle(s, x) <==> y in s)
    ensures NoDuplicates(Toggle(s, x))
  {
    if x in s {
      RemoveFirstNoDuplicates(s, x);
    }
  }

  /** Toggling an absent element twice restores the list exactly. */
  lemma {:induction false} ToggleTwiceFromAbsent<T>(s: seq<T>, x: T)
    requires x !in s
    ensures Toggle(Toggle(s, x), x) == s
  {
    RemoveLast(s, x);
  }

  /** Removing the first occurrence of x from s + [x], where x is not in
      s, gives s back. */
  lemma {:induction false} RemoveLast<T>(s: seq<T>, x: T)
    requires x !in s
    ensures RemoveFirst(s + [x], x) == s
  {
    if s != [] {
      assert (s + [x])[1..] == s[1..] + [x];
      RemoveLast(s[1..], x);
    }
  }

  /** Toggling a present element twice restores the elements, each with
      its multiplicity, though x moves to the end. */
  lemma ToggleTwiceFromPresent<T>(s: seq<T>, x: T)
    requires NoDuplicates(s) && x in s
    ensures multiset(Toggle(Toggle(s, x), x)) == multiset(s)
    ensures Toggle(Toggle(s, x), x) == RemoveFirst(s, x) + [x]
  {
    RemoveFirstNoDuplicates(s, x);
  }

  /** The opposite direction. */
  function Switched(t: SortType): (r: SortType)
    ensures r != t
  {
    if t == Ascending then Descending else Ascending
  }

  /** Switching the direction twice restores it. */
  lemma SwitchedTwice(t: SortType)
    ensures Switched(Switched(t)) == t
  {
  }

  class HistoryViewModel {
    var sortType: SortType
    var sortEntry: SortEntry
    var filterDifficulties: seq<GameDifficulty>
    var filterGameTypes: seq<GameType>

    /** The filter lists never hold an element twice: an element is
        appended only when it is absent. */
    ghost predicate Valid()
      reads this
    {
      NoDuplicates(filterDifficulties) && NoDuplicates(filterGameTypes)
    }

    /** Newest games first, by id, with no filter. */
    constructor ()
      ensures Valid()
      ensures sortType == Descending && sortEntry == GameID
      ensures filterDifficulties == [] && filterGameTypes == []
    {
      sortType := Descending;
      sortEntry := GameID;
      filterDifficulties := [];
      filterGameTypes := [];
    }

    /** selectFilter(GameDifficulty). */
    method SelectDifficultyFilter(filter: GameDifficulty)
      requires Valid()
      modifies this
      ensures Valid()
      ensures filterDifficulties == Toggle(old(filterDifficulties), filter)
      ensures filter in filterDifficulties <==> filter !in old(filterDifficulties)
      ensures forall d :: d != filter ==> (d in filterDifficulties <==> d in old(filterDifficulties))
      ensures filterGameTypes == old(filterGameTypes)
      ensures sortType == old(sortType) && sortEntry == old(sortEntry)
    {
      ToggleFlips(filterDifficulties, filter);
      filterDifficulties := if filter !in filterDifficulties then filterDifficulties + [filter]
        else RemoveFirst(filterDifficulties, filter);
    }

    /** selectFilter(GameType). */
    method SelectTypeFilter(filter: GameType)
      requires Valid()
      modifies this
      ensures Valid()
      ensures filterGameTypes == Toggle(old(filterGameTypes), filter)
      ensures filter in filterGameTypes <==> filter !in old(filterGameTypes)
      ensures forall g :: g != filter ==> (g in filterGameTypes <==> g in old(filterGameTypes))
      ensures filterDifficulties == old(filterDifficulties)
      ensures sortType == old(sortType) && sortEntry == old(sortEntry)
    {
      ToggleFlips(filterGameTypes, filter);
      filterGameTypes := if filter !in filterGameTypes then filterGameTypes + [filter]
        else RemoveFirst(filterGameTypes, filter);
    }

    /** switchSortType. */
    method SwitchSortType()
      requires Valid()
      modifies this
      ensures Valid()
      ensures sortType == Switched(old(sortType))
      ensures sortEntry == old(sortEntry)
      ensures filterDifficulties == old(filterDifficulties) && filterGameTypes == old(filterGameTypes)
    {
      sortType := if sortType == Ascending then Descending else Ascending;
    }

    /** selectSortEntry. */
    method SelectSortEntry(entry: SortEntry)
      requires Valid()
      modifies this
      ensures Valid()
      ensures sortEntry == entry
      ensures sortType == old(sortType)
      ensures filterDifficulties == old(filterDifficulties) && filterGameTypes == old(filterGameTypes)
    {
      sortEntry := entry;
    }

    /** applySortAndFilter under the current settings: sorted by the
        current key and direction, holding exactly the games both current
        filters accept. */
    function ApplySortAndFilter(games: seq<Entry>): (r: seq<Entry>)
      reads this
      ensures Sorted(r, sortType, sortEntry)
      ensures forall e :: e in r ==> Accepted(filterDifficulties, filterGameTypes, e)
      ensures multiset(r) == multiset(AcceptedGames(filterDifficulties, filterGameTypes, games))
    {
      SortAndFilter(sortType, sortEntry, filterDifficulties, filterGameTypes, games)
    }
  }
}
