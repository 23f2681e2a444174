/** The favorites store: an ordered list of favorite entries kept in one browser
    storage slot, read in full and rewritten in full by every operation. */
module Favorites {
  import opened Wrappers
  import opened JsText
  import opened Catalog
  import opened Sequences

  /** A stored favorite: the show fields the store copies, plus when it was added. */
  datatype Entry = Entry(
    id: int,
    name: string,
    image: Option<Image>,
    rating: Option<Rating>,
    genres: seq<string>,
    status: string,
    summary: string,
    premiered: string,
    network: Option<Channel>,
    language: string,
    runtime: Option<int>,
    addedDate: string)

  /** The entry `addToFavorites` records for `show`, stamped with the ISO-8601 time `now`. */
  function FavoriteOf(show: Show, now: string): (e: Entry)
    ensures e.id == show.id && e.name == show.name && e.addedDate == now
  {
    Entry(show.id, show.name, show.image, show.rating, show.genres, show.status,
          show.summary, show.premiered, show.network, show.language, show.runtime, now)
  }

  /** A show id as callers pass it: a Number, or text such as an HTML `data-` attribute. */
  datatype IdArg = Number(n: int) | Text(s: string)

  /** `parseInt(showId)`; `None` is `NaN`, which equals no stored id. */
  function ParseId(a: IdArg): (r: Option<int>)
    ensures a.Number? ==> r == Some(a.n)
  {
    match a
    case Number(n) => ParseNumberText(n); ParseInt(NumberText(n))
    case Text(s) => ParseInt(s)
  }

  /** `list.some(show => show.id === n)`. */
  function HasId(s: seq<Entry>, n: int): (b: bool)
    ensures b <==> exists i :: 0 <= i < |s| && s[i].id == n
  {
    if s == [] then false
    else s[0].id == n || HasId(s[1..], n)
  }

  /** The store's invariant: no two entries share an id. */
  ghost predicate UniqueIds(s: seq<Entry>) {
    forall i, j :: 0 <= i < j < |s| ==> s[i].id != s[j].id
  }

  /** `list.filter(show => show.id !== n)`. */
  function Without(s: seq<Entry>, n: int): (r: seq<Entry>)
    ensures |r| < |s| <==> HasId(s, n)
    ensures !HasId(s, n) ==> r == s
  {
    if s == [] then []
    else
      var rest := Without(s[1..], n);
      if s[0].id == n then rest else [s[0]] + rest
  }

  /** The filter keeps exactly the entries with another id, in their order. */
  lemma {:induction false} WithoutSelects(s: seq<Entry>, n: int)
    ensures forall e :: e in Without(s, n) <==> e in s && e.id != n
    ensures IsSubsequence(Without(s, n), s)
  {
    if s != [] {
      WithoutSelects(s[1..], n);
      var rest := Without(s[1..], n);
      assert s == [s[0]] + s[1..];
      if s[0].id != n {
        assert ([s[0]] + rest)[1..] == rest;
      }
    }
  }

  /** The filter keeps every copy of each entry with another id, and no copy of the others. */
  lemma {:induction false} WithoutKeepsCopies(s: seq<Entry>, n: int)
    ensures forall e :: multiset(Without(s, n))[e] == if e.id != n then multiset(s)[e] else 0
  {
    if s != [] {
      WithoutKeepsCopies(s[1..], n);
      assert s == [s[0]] + s[1..];
      assert multiset(s) == multiset{s[0]} + multiset(s[1..]);
      if s[0].id != n {
        assert multiset(Without(s, n)) == multiset{s[0]} + multiset(Without(s[1..], n));
      }
    }
  }

  /** The tail of a list with unique ids has unique ids. */
  lemma UniqueTail(s: seq<Entry>)
    requires s != [] && UniqueIds(s)
    ensures UniqueIds(s[1..])
  {
    forall i, j | 0 <= i < j < |s[1..]| ensures s[1..][i].id != s[1..][j].id {
      assert s[1..][i] == s[i + 1] && s[1..][j] == s[j + 1];
    }
  }

  /** Removal keeps ids unique. */
  lemma {:induction false} WithoutPreservesUnique(s: seq<Entry>, n: int)
    requires UniqueIds(s)
    ensures UniqueIds(Without(s, n))
  {
    if s != [] {
      UniqueTail(s);
      WithoutPreservesUnique(s[1..], n);
      WithoutSelects(s[1..], n);
      var rest := Without(s[1..], n);
      if s[0].id != n {
        var r := [s[0]] + rest;
        forall i, j | 0 <= i < j < |r| ensures r[i].id != r[j].id {
          assert r[j] == rest[j - 1] && r[j] in s[1..];
          if i > 0 {
            assert r[i] == rest[i - 1];
          } else {
            var k :| 0 <= k < |s[1..]| && s[1..][k] == r[j];
            assert s[k + 1] == r[j];
          }
        }
      }
    }
  }

  /** The list after `addToFavorites(show)` at time `now`: unchanged when the id is
      already present, else the new entry appended at the end. */
  function Added(s: seq<Entry>, show: Show, now: string): (r: seq<Entry>)
    ensures |r| == if HasId(s, show.id) then |s| else |s| + 1
    ensures r[..|s|] == s
  {
    if HasId(s, show.id) then s else s + [FavoriteOf(show, now)]
  }

  /** The list after `removeFromFavorites` with the coerced id `key` (`NaN` removes nothing). */
  function Removed(s: seq<Entry>, key: Option<int>): (r: seq<Entry>)
    ensures |r| <= |s|
    ensures key.None? ==> r == s
    ensures key.Some? ==> !HasId(r, key.value)
  {
    match key
    case None => s
    case Some(n) => WithoutSelects(s, n); Without(s, n)
  }

  /** The list after `toggleFavorite(show)` at time `now`. */
  function Toggled(s: seq<Entry>, show: Show, now: string): (r: seq<Entry>)
    ensures HasId(s, show.id) ==> |r| < |s|
    ensures !HasId(s, show.id) ==> |r| == |s| + 1
  {
    if HasId(s, show.id) then Removed(s, Some(show.id)) else Added(s, show, now)
  }

  /** Adding makes the show a favorite; an absent show is appended as exactly one new
      last entry with the earlier entries untouched, a present one changes nothing. */
  lemma AddedAppends(s: seq<Entry>, show: Show, now: string)
    ensures HasId(Added(s, show, now), show.id)
    ensures HasId(s, show.id) ==> Added(s, show, now) == s
    ensures !HasId(s, show.id) ==>
      && |Added(s, show, now)| == |s| + 1
      && Added(s, show, now)[..|s|] == s
      && Added(s, show, now)[|s|] == FavoriteOf(show, now)
  {
  }

  /** Adding the same show twice gives the list that adding it once gives. */
  lemma AddIdempotent(s: seq<Entry>, show: Show, t1: string, t2: string)
    ensures Added(Added(s, show, t1), show, t2) == Added(s, show, t1)
  {
    AddedAppends(s, show, t1);
  }

  /** Adding keeps the ids unique. */
  lemma AddPreservesUnique(s: seq<Entry>, show: Show, now: string)
    requires UniqueIds(s)
    ensures UniqueIds(Added(s, show, now))
  {
  }

  /** After removal no entry has the id; the others stay, every copy, in order; the list shrinks
      exactly when the id was present. */
  lemma RemovedDropsId(s: seq<Entry>, n: int)
    ensures !HasId(Removed(s, Some(n)), n)
    ensures IsSubsequence(Removed(s, Some(n)), s)
    ensures forall e :: e in s && e.id != n ==> e in Removed(s, Some(n))
    ensures forall e :: multiset(Removed(s, Some(n)))[e] == if e.id != n then multiset(s)[e] else 0
    ensures |Removed(s, Some(n))| < |s| <==> HasId(s, n)
  {
    WithoutSelects(s, n);
    WithoutKeepsCopies(s, n);
  }

  /** With unique ids, removing a present id takes out exactly one entry. */
  lemma {:induction false} RemoveDropsOne(s: seq<Entry>, n: int)
    requires UniqueIds(s) && HasId(s, n)
    ensures |Without(s, n)| == |s| - 1
  {
    if s[0].id != n {
      UniqueTail(s);
      RemoveDropsOne(s[1..], n);
    }
  }

  lemma WithoutCons(e: Entry, s: seq<Entry>, n: int)
    ensures Without([e] + s, n) == (if e.id == n then [] else [e]) + Without(s, n)
  {
    assert ([e] + s)[1..] == s;
  }

  /** `filter` of a list with one more entry at the end. */
  lemma {:induction false} WithoutAppend(s: seq<Entry>, e: Entry, n: int)
    ensures Without(s + [e], n) == Without(s, n) + (if e.id == n then [] else [e])
  {
    if s == [] {
      assert [e][1..] == [];
    } else {
      var u := s[1..];
      var head: seq<Entry> := if s[0].id == n then [] else [s[0]];
      var tail: seq<Entry> := if e.id == n then [] else [e];
      calc {
        Without(s + [e], n);
        { assert s + [e] == [s[0]] + (u + [e]); }
        Without([s[0]] + (u + [e]), n);
        { WithoutCons(s[0], u + [e], n); }
        head + Without(u + [e], n);
        { WithoutAppend(u, e, n); }
        head + (Without(u, n) + tail);
        (head + Without(u, n)) + tail;
        { assert s == [s[0]] + u; WithoutCons(s[0], u, n); }
        Without(s, n) + tail;
      }
    }
  }

  /** Toggling flips membership, and `toggleFavorite`'s result is the new membership. */
  lemma ToggleFlips(s: seq<Entry>, show: Show, now: string)
    ensures HasId(Toggled(s, show, now), show.id) == !HasId(s, show.id)
  {
    if HasId(s, show.id) {
      RemovedDropsId(s, show.id);
    } else {
      AddedAppends(s, show, now);
    }
  }

  /** Two toggles in a row: from a list without the show the list is restored exactly;
      from a list with it the show ends up re-added as the last entry. */
  lemma ToggleTwice(s: seq<Entry>, show: Show, t1: string, t2: string)
    ensures !HasId(s, show.id) ==> Toggled(Toggled(s, show, t1), show, t2) == s
    ensures HasId(s, show.id) ==>
      Toggled(Toggled(s, show, t1), show, t2) == Without(s, show.id) + [FavoriteOf(show, t2)]
  {
    ToggleFlips(s, show, t1);
    if !HasId(s, show.id) {
      WithoutAppend(s, FavoriteOf(show, t1), show.id);
    }
  }

  /** Every mutation keeps the ids unique. */
  lemma MutationsPreserveUnique(s: seq<Entry>, show: Show, key: Option<int>, now: string)
    requires UniqueIds(s)
    ensures UniqueIds(Added(s, show, now))
    ensures UniqueIds(Removed(s, key))
    ensures UniqueIds(Toggled(s, show, now))
  {
    AddPreservesUnique(s, show, now);
    WithoutPreservesUnique(s, show.id);
    if key.Some? {
      WithoutPreservesUnique(s, key.value);
    }
  }

  /** What the storage slot under the favorites key holds. */
  datatype Slot =
    | Absent                       // nothing stored (or an empty string)
    | Unreadable                   // text that is not valid JSON
    | Holds(entries: seq<Entry>)   // a JSON array of entries

  /** The favorites store; `slot` is the browser storage slot it reads and writes. */
  class Store {
    var slot: Slot

    constructor (initial: Slot)
      ensures slot == initial
    {
      slot := initial;
    }

    /** `loadFavorites`: the stored list, or the empty list when the slot is absent or
        cannot be parsed. */
    function Load(): (r: seq<Entry>)
      reads this
      ensures slot.Holds? ==> r == slot.entries
      ensures slot.Absent? || slot.Unreadable? ==> r == []
    {
      if slot.Holds? then slot.entries else []
    }

    /** `saveFavorites`: replaces the slot's contents; a failed write (`writeOk` false,
        e.g. quota exceeded) is swallowed and leaves the slot as it was. */
    method SaveFavorites(entries: seq<Entry>, writeOk: bool)
      modifies this
      ensures slot == if writeOk then Holds(entries) else old(slot)
      ensures writeOk ==> Load() == entries
    {
      if writeOk {
        slot := Holds(entries);
      }
    }

    /** `isFavorite(showId)`. */
    method IsFavorite(showId: IdArg) returns (b: bool)
      ensures b <==> ParseId(showId).Some? && HasId(Load(), ParseId(showId).value)
      ensures b <==> exists i :: 0 <= i < |Load()| && Some(Load()[i].id) == ParseId(showId)
    {
      var current := Load();
      var key := ParseId(showId);
      b := key.Some? && HasId(current, key.value);
    }

    /** `addToFavorites(show)` at time `now`. */
    method AddToFavorites(show: Show, now: string, writeOk: bool) returns (added: bool)
      modifies this
      ensures added <==> !HasId(old(Load()), show.id)
      ensures slot == if added && writeOk then Holds(old(Load()) + [FavoriteOf(show, now)]) else old(slot)
      ensures writeOk ==> Load() == Added(old(Load()), show, now)
      ensures writeOk ==> HasId(Load(), show.id)
      ensures UniqueIds(old(Load())) ==> UniqueIds(Load())
    {
      var current := Load();
      var already := IsFavorite(Number(show.id));
      assert already == HasId(current, show.id);
      if UniqueIds(current) {
        AddPreservesUnique(current, show, now);
      }
      AddedAppends(current, show, now);
      if already {
        added := false;
      } else {
        current := current + [FavoriteOf(show, now)];
        SaveFavorites(current, writeOk);
        added := true;
      }
    }

    /** `removeFromFavorites(showId)`: writes only when something was removed. */
    method RemoveFromFavorites(showId: IdArg, writeOk: bool) returns (removed: bool)
      modifies this
      ensures removed <==> ParseId(showId).Some? && HasId(old(Load()), ParseId(showId).value)
      ensures slot == if removed && writeOk then Holds(Removed(old(Load()), ParseId(showId))) else old(slot)
      ensures writeOk ==> Load() == Removed(old(Load()), ParseId(showId))
      ensures writeOk && ParseId(showId).Some? ==> !HasId(Load(), ParseId(showId).value)
      ensures UniqueIds(old(Load())) ==> UniqueIds(Load())
    {
      var current := Load();
      var key := ParseId(showId);
      var updated := if key.Some? then Without(current, key.value) else current;
      if |updated| < |current| {
        SaveFavorites(updated, writeOk);
        removed := true;
      } else {
        removed := false;
      }
      if key.Some? {
        RemovedDropsId(current, key.value);
        if UniqueIds(current) {
          WithoutPreservesUnique(current, key.value);
        }
      }
    }

    /** `toggleFavorite(show)`: removes a favorite, adds anything else; returns whether the
        show is a favorite afterwards. */
    method ToggleFavorite(show: Show, now: string, writeOk: bool) returns (nowFavorite: bool)
      modifies this
      ensures nowFavorite <==> !HasId(old(Load()), show.id)
      ensures slot == if writeOk then Holds(Toggled(old(Load()), show, now)) else old(slot)
      ensures writeOk ==> (nowFavorite <==> HasId(Load(), show.id))
      ensures UniqueIds(old(Load())) ==> UniqueIds(Load())
    {
      var favorite := IsFavorite(Number(show.id));
      if favorite {
        var _ := RemoveFromFavorites(Number(show.id), writeOk);
        nowFavorite := false;
      } else {
        var _ := AddToFavorites(show, now, writeOk);
        nowFavorite := true;
      }
      ToggleFlips(old(Load()), show, now);
    }

    /** `getAllFavorites`. */
    method GetAllFavorites() returns (r: seq<Entry>)
      ensures r == Load()
    {
      r := Load();
    }

    /** `getFavoritesCount`. */
    method GetFavoritesCount() returns (n: nat)
      ensures n == |Load()|
    {
      n := |Load()|;
    }

    /** `clearAllFavorites`: writes the empty list and reports success regardless. */
    method ClearAllFavorites(writeOk: bool) returns (ok: bool)
      modifies this
      ensures ok
      ensures slot == if writeOk then Holds([]) else old(slot)
      ensures writeOk ==> Load() == []
    {
      SaveFavorites([], writeOk);
      ok := true;
    }
  }

  /** With `[{id: 1}]` stored: removing id 2 reports false and writes nothing; removing
      the id given as the text `"1"` reports true and leaves the empty list. */
  method RemoveScenario(e: Entry) returns (first: bool, second: bool, count: nat)
    requires e.id == 1
    ensures !first && second && count == 0
  {
    var store := new Store(Holds([e]));
    assert !HasId([e], 2) && HasId([e], 1);
    first := store.RemoveFromFavorites(Number(2), true);
    assert store.Load() == [e];
    var one := NumberText(1);  // the text "1"
    ParseNumberText(1);
    assert ParseId(Text(one)) == Some(1);
    second := store.RemoveFromFavorites(Text(one), true);
    assert Without([e], 1) == [];
    count := store.GetFavoritesCount();
  }

  /** Adding the same show twice in succession stores what adding it once stores. */
  method AddTwice(store: Store, show: Show, t1: string, t2: string) returns (first: bool, second: bool)
    modifies store
    ensures !second
    ensures store.Load() == Added(old(store.Load()), show, t1)
  {
    first := store.AddToFavorites(show, t1, true);
    second := store.AddToFavorites(show, t2, true);
  }

  /** Two toggles in succession report opposite results; starting from a list without
      the show, the stored list is restored exactly. */
  method ToggleTwiceOn(store: Store, show: Show, t1: string, t2: string) returns (first: bool, second: bool)
    modifies store
    ensures first != second
    ensures first ==> store.Load() == old(store.Load())
  {
    first := store.ToggleFavorite(show, t1, true);
    second := store.ToggleFavorite(show, t2, true);
    ToggleTwice(old(store.Load()), show, t1, t2);
  }

  /** After a durable `clearAllFavorites`, `getFavoritesCount` is 0 whatever was stored. */
  method ClearThenCount(store: Store) returns (count: nat)
    modifies store
    ensures count == 0
  {
    var _ := store.ClearAllFavorites(true);
    count := store.GetFavoritesCount();
  }
}
