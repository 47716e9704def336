/**
 * The saved-properties store of the browser: a list of property ids, read once from
 * local storage and written back after every change.
 */
module Favorites {
  import opened Wrappers
  import opened Validation

  /** The storage key under which the list is kept. */
  const StorageKey := "immokraini_savedPropertyIds"

  /** What `JSON.parse` yields for a saved value: an array of strings, or anything else. */
  datatype Parsed = StringArray(items: seq<string>) | OtherValue

  /** `JSON.parse`; `None` when it throws. */
  type JsonParser = string -> Option<Parsed>

  /** The initial list: the saved array when running in the browser, a non-empty value is
      saved and it parses to an array of strings; otherwise the empty list. */
  function InitialFavorites(browser: bool, saved: Option<string>, parse: JsonParser): (ids: seq<string>)
    ensures ids != [] ==> browser && Truthy(saved) && parse(saved.value) == Some(StringArray(ids))
    ensures browser && Truthy(saved) && parse(saved.value).Some? && parse(saved.value).value.StringArray? ==>
              ids == parse(saved.value).value.items
  {
    if browser && Truthy(saved) then
      match parse(saved.value)
      case Some(StringArray(items)) => items
      case _ => []
    else []
  }

  /** `ids.filter(x => x !== id)`. */
  function Without(ids: seq<string>, id: string): (r: seq<string>)
    ensures id !in r
    ensures forall x :: x != id ==> multiset(r)[x] == multiset(ids)[x]
    ensures |r| <= |ids|
  {
    if ids == [] then []
    else
      assert ids == [ids[0]] + ids[1..];
      (if ids[0] == id then [] else [ids[0]]) + Without(ids[1..], id)
  }

  /** The list after `toggleFavorite(id)`: without `id` if it was there, else with `id`
      appended. */
  function Toggled(ids: seq<string>, id: string): seq<string> {
    if id in ids then Without(ids, id) else ids + [id]
  }

  predicate NoDuplicates(ids: seq<string>) {
    forall i, j :: 0 <= i < j < |ids| ==> ids[i] != ids[j]
  }

  lemma {:induction false} WithoutAppend(a: seq<string>, b: seq<string>, id: string)
    ensures Without(a + b, id) == Without(a, id) + Without(b, id)
    decreases |a|
  {
    if a != [] {
      WithoutAppend(a[1..], b, id);
      assert (a + b)[1..] == a[1..] + b;
    } else {
      assert a + b == b;
    }
  }

  lemma {:induction false} WithoutAbsent(ids: seq<string>, id: string)
    requires id !in ids
    ensures Without(ids, id) == ids
    decreases |ids|
  {
    if ids != [] {
      WithoutAbsent(ids[1..], id);
      assert ids == [ids[0]] + ids[1..];
    }
  }

  /** Toggling flips membership of the toggled id and keeps every other id exactly as
      often as before. */
  lemma ToggleFlips(ids: seq<string>, id: string)
    ensures id in Toggled(ids, id) <==> id !in ids
    ensures forall x :: x != id ==> multiset(Toggled(ids, id))[x] == multiset(ids)[x]
  {
  }

  /** Removing keeps the order of the remaining ids. */
  lemma {:induction false} WithoutKeepsOrder(ids: seq<string>, id: string, i: nat)
    requires i < |ids| && ids[i] != id
    ensures Without(ids, id) == Without(ids[..i], id) + [ids[i]] + Without(ids[i + 1..], id)
  {
    assert ids == ids[..i] + ([ids[i]] + ids[i + 1..]);
    WithoutAppend(ids[..i], [ids[i]] + ids[i + 1..], id);
    WithoutAppend([ids[i]], ids[i + 1..], id);
    assert Without([ids[i]], id) == [ids[i]] by {
      assert [ids[i]][1..] == [];
    }
  }

  /** A list without duplicates stays without duplicates. */
  lemma ToggleKeepsNoDuplicates(ids: seq<string>, id: string)
    requires NoDuplicates(ids)
    ensures NoDuplicates(Toggled(ids, id))
  {
    var r := Toggled(ids, id);
    forall x ensures multiset(r)[x] <= 1 {
      if x != id {
        assert multiset(ids)[x] <= 1 by {
          NoDuplicatesCount(ids, x);
        }
      }
    }
    CountNoDuplicates(r);
  }

  lemma {:induction false} NoDuplicatesCount(ids: seq<string>, x: string)
    requires NoDuplicates(ids)
    ensures multiset(ids)[x] <= 1
    decreases |ids|
  {
    if ids != [] {
      assert ids == [ids[0]] + ids[1..];
      assert NoDuplicates(ids[1..]) by {
        forall i, j | 0 <= i < j < |ids[1..]| ensures ids[1..][i] != ids[1..][j] {
          assert ids[1..][i] == ids[i + 1] && ids[1..][j] == ids[j + 1];
        }
      }
      NoDuplicatesCount(ids[1..], x);
      if ids[0] == x {
        assert x !in ids[1..] by {
          forall j | 0 <= j < |ids[1..]| ensures ids[1..][j] != x {
            assert ids[1..][j] == ids[j + 1];
          }
        }
      }
    }
  }

  lemma {:induction false} CountNoDuplicates(ids: seq<string>)
    requires forall x :: multiset(ids)[x] <= 1
    ensures NoDuplicates(ids)
    decreases |ids|
  {
    if ids != [] {
      assert ids == [ids[0]] + ids[1..];
      assert forall x :: multiset(ids[1..])[x] <= 1 by {
        forall x ensures multiset(ids[1..])[x] <= 1 {
          assert multiset(ids)[x] == multiset([ids[0]])[x] + multiset(ids[1..])[x];
        }
      }
      CountNoDuplicates(ids[1..]);
      assert multiset(ids)[ids[0]] == 1 + multiset(ids[1..])[ids[0]];
      assert ids[0] !in ids[1..];
      forall i, j | 0 <= i < j < |ids| ensures ids[i] != ids[j] {
        if i == 0 {
          assert ids[j] == ids[1..][j - 1];
        } else {
          assert ids[i] == ids[1..][i - 1] && ids[j] == ids[1..][j - 1];
        }
      }
    }
  }

  /** Toggling an id that is not saved, then toggling it again, restores the list. */
  lemma ToggleTwiceAbsent(ids: seq<string>, id: string)
    requires id !in ids
    ensures Toggled(Toggled(ids, id), id) == ids
  {
    WithoutAppend(ids, [id], id);
    WithoutAbsent(ids, id);
    assert Without([id], id) == [] by {
      assert [id][1..] == [];
    }
  }

  /** Toggling a saved id twice keeps it saved but moves it to the end of the list. */
  lemma ToggleTwicePresent(ids: seq<string>, id: string)
    requires id in ids
    ensures Toggled(Toggled(ids, id), id) == Without(ids, id) + [id]
  {
  }

  /** The store. In the browser every value the store takes is written to storage
      under `StorageKey`; on the server nothing is written. */
  class FavoritesStore {
    const browser: bool
    var ids: seq<string>
    var persisted: Option<seq<string>>

    ghost predicate Valid()
      reads this
    {
      persisted == if browser then Some(ids) else None
    }

    /** Creates the store from the saved value and, in the browser, subscribes the
        writer, which stores the initial list at once. */
    constructor (browser: bool, saved: Option<string>, parse: JsonParser)
      ensures Valid()
      ensures this.browser == browser
      ensures ids == InitialFavorites(browser, saved, parse)
    {
      this.browser := browser;
      var initial := InitialFavorites(browser, saved, parse);
      ids := initial;
      persisted := if browser then Some(initial) else None;
    }

    /** `isFavorite(id)`. */
    function IsFavorite(id: string): (saved: bool)
      reads this
      ensures saved <==> id in ids
    {
      id in ids
    }

    /** `toggleFavorite(id)`. */
    method Toggle(id: string)
      requires Valid()
      modifies this
      ensures Valid()
      ensures ids == Toggled(old(ids), id)
    {
      var updated := if id in ids then Without(ids, id) else ids + [id];
      ids := updated;
      if browser {
        persisted := Some(updated);
      }
    }
  }
}
