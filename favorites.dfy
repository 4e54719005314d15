/** The favorites synchronisation engine: one in-memory snapshot that every
    consumer observes, a device-local list used while no one is signed in, and
    a one-shot merge of the local list into the account on sign-in. */
module Favorites {
  import opened Wrappers
  import opened ArrayOps
  import opened FavoriteModel

  /** The prefix of the id given to a favorite rebuilt from a local record. */
  const LocalIdPrefix := "local_"

  /** The `isFavorite` projection: some favorite in the list has this meal id. */
  function IsFavorite(favorites: seq<Favorite>, mealId: string): bool {
    HasKey(favorites, MealIdOf, mealId)
  }

  /** The membership guard on the local list. */
  function InLocal(locals: seq<LocalFavorite>, mealId: string): bool {
    HasKey(locals, LocalMealIdOf, mealId)
  }

  /** The record `addToLocalStorage` persists for a favorite. */
  function ToLocalFavorite(favorite: Favorite): (l: LocalFavorite)
    ensures l.mealId == favorite.mealId
    ensures ParseDate(l.addedAt) == favorite.addedAt
  {
    LocalFavorite(favorite.mealId, ToIsoString(favorite.addedAt))
  }

  /** `mapLocalToFavorite`: a favorite rebuilt from a local record, with a
      synthesised id, the same meal and time, and no owner. Persisting it again
      gives back the local record. */
  function MapLocalToFavorite(local: LocalFavorite): (f: Favorite)
    ensures f.id == LocalIdPrefix + local.mealId
    ensures f.mealId == local.mealId && f.userId.None? && f.mealData.None?
    ensures f.addedAt == ParseDate(local.addedAt)
    ensures ToLocalFavorite(f) == local
  {
    Favorite(LocalIdPrefix + local.mealId, local.mealId, None, ParseDate(local.addedAt), None)
  }

  /** The snapshot published while no one is signed in. */
  function LocalSnapshot(locals: seq<LocalFavorite>): (snap: seq<Favorite>)
    ensures |snap| == |locals|
    ensures forall i :: 0 <= i < |locals| ==>
      snap[i].mealId == locals[i].mealId && snap[i].id == LocalIdPrefix + locals[i].mealId
  {
    Map(locals, MapLocalToFavorite)
  }

  /** The local snapshot shows exactly the meals of the local list. */
  lemma LocalSnapshotMembership(locals: seq<LocalFavorite>, mealId: string)
    ensures IsFavorite(LocalSnapshot(locals), mealId) <==> InLocal(locals, mealId)
  {
    var snap := LocalSnapshot(locals);
    if InLocal(locals, mealId) {
      var k :| 0 <= k < |locals| && locals[k].mealId == mealId;
      assert snap[k].mealId == mealId;
    }
  }

  /** A duplicate-free local list gives a snapshot whose synthesised ids, and
      whose meal ids, are all distinct. */
  lemma LocalSnapshotDistinct(locals: seq<LocalFavorite>)
    requires DistinctBy(locals, LocalMealIdOf)
    ensures DistinctBy(LocalSnapshot(locals), IdOf)
    ensures DistinctBy(LocalSnapshot(locals), MealIdOf)
  {
    var snap := LocalSnapshot(locals);
    forall i, j | 0 <= i < j < |snap|
      ensures snap[i].id != snap[j].id
    {
      assert snap[i].id[|LocalIdPrefix|..] == locals[i].mealId;
      assert snap[j].id[|LocalIdPrefix|..] == locals[j].mealId;
    }
  }

  /** The local meal ids that the server list lacks, in local order. */
  function UniqueLocalIds(localIds: seq<string>, serverIds: seq<string>): (r: seq<string>)
    ensures forall i :: 0 <= i < |r| ==> r[i] in localIds && r[i] !in serverIds
    ensures forall i :: 0 <= i < |localIds| && localIds[i] !in serverIds ==> localIds[i] in r
  {
    FilterMembers(localIds, id => id !in serverIds);
    Filter(localIds, id => id !in serverIds)
  }

  /** Nothing is left to merge exactly when every local id is on the server;
      when none is, the whole local list is merged, in order. */
  lemma UniqueLocalIdsExtremes(localIds: seq<string>, serverIds: seq<string>)
    ensures UniqueLocalIds(localIds, serverIds) == [] <==>
      forall i :: 0 <= i < |localIds| ==> localIds[i] in serverIds
    ensures (forall i :: 0 <= i < |localIds| ==> localIds[i] !in serverIds) ==>
      UniqueLocalIds(localIds, serverIds) == localIds
  {
    var r := UniqueLocalIds(localIds, serverIds);
    if forall i :: 0 <= i < |localIds| ==> localIds[i] !in serverIds {
      FilterKeepsAll(localIds, id => id !in serverIds);
    }
    if r != [] {
      var k :| 0 <= k < |localIds| && localIds[k] == r[0];
      assert localIds[k] !in serverIds;
    }
  }

  /** The records the merge creates, one per id that has a local record, with
      the k-th created record taking the k-th generated id. */
  function Migrated(userId: string, locals: seq<LocalFavorite>, ids: seq<string>,
                    genId: nat -> string): (r: seq<Favorite>)
    ensures |r| <= |ids|
  {
    if ids == [] then []
    else
      var prev := Migrated(userId, locals, ids[..|ids| - 1], genId);
      var mealId := ids[|ids| - 1];
      match FindByKey(locals, LocalMealIdOf, mealId)
      case None => prev
      case Some(local) =>
        prev + [Favorite(genId(|prev|), mealId, Some(userId), ParseDate(local.addedAt), None)]
  }

  /** When every id has a local record, the merge creates one record per id. */
  lemma {:induction false} MigratedLength(userId: string, locals: seq<LocalFavorite>,
                                          ids: seq<string>, genId: nat -> string)
    requires forall i :: 0 <= i < |ids| ==> InLocal(locals, ids[i])
    ensures |Migrated(userId, locals, ids, genId)| == |ids|
  {
    if ids != [] {
      MigratedLength(userId, locals, ids[..|ids| - 1], genId);
      assert FindByKey(locals, LocalMealIdOf, ids[|ids| - 1]).Some?;
    }
  }

  /** When every id has a local record, the j-th created record is for the
      j-th id, takes the j-th generated id, is owned by the user and is dated
      as the first local record for that meal. */
  lemma {:induction false} MigratedAt(userId: string, locals: seq<LocalFavorite>,
                                      ids: seq<string>, genId: nat -> string, j: nat)
    requires forall i :: 0 <= i < |ids| ==> InLocal(locals, ids[i])
    requires j < |ids|
    ensures |Migrated(userId, locals, ids, genId)| == |ids|
    ensures FindByKey(locals, LocalMealIdOf, ids[j]).Some?
    ensures Migrated(userId, locals, ids, genId)[j] ==
      Favorite(genId(j), ids[j], Some(userId),
               ParseDate(FindByKey(locals, LocalMealIdOf, ids[j]).value.addedAt), None)
  {
    var init := ids[..|ids| - 1];
    MigratedLength(userId, locals, ids, genId);
    MigratedLength(userId, locals, init, genId);
    assert FindByKey(locals, LocalMealIdOf, ids[|ids| - 1]).Some?;
    if j < |init| {
      MigratedAt(userId, locals, init, genId, j);
      assert init[j] == ids[j];
    }
  }

  /** Every unique local id has a local record. */
  lemma UniqueIdsAreLocal(locals: seq<LocalFavorite>, serverIds: seq<string>)
    ensures var ids := UniqueLocalIds(Map(locals, LocalMealIdOf), serverIds);
      forall i :: 0 <= i < |ids| ==> InLocal(locals, ids[i])
  {
    var localIds := Map(locals, LocalMealIdOf);
    var ids := UniqueLocalIds(localIds, serverIds);
    forall i | 0 <= i < |ids|
      ensures InLocal(locals, ids[i])
    {
      var k :| 0 <= k < |localIds| && localIds[k] == ids[i];
      assert LocalMealIdOf(locals[k]) == ids[i];
    }
  }

  /** The list a successful merge publishes. */
  function MergedList(userId: string, locals: seq<LocalFavorite>, server: seq<Favorite>,
                      genId: nat -> string): (merged: seq<Favorite>)
    ensures |server| <= |merged| && merged[..|server|] == server
  {
    server + Migrated(userId, locals, UniqueLocalIds(Map(locals, LocalMealIdOf), MealIds(server)), genId)
  }

  /** The meal ids of a list of favorites, in order. */
  function MealIds(favorites: seq<Favorite>): seq<string> {
    Map(favorites, MealIdOf)
  }

  /** A meal is a favorite exactly when its id is among the meal ids. */
  lemma IsFavoriteMealIds(favorites: seq<Favorite>, mealId: string)
    ensures IsFavorite(favorites, mealId) <==> mealId in MealIds(favorites)
  {
    if mealId in MealIds(favorites) {
      var k :| 0 <= k < |favorites| && MealIds(favorites)[k] == mealId;
      assert favorites[k].mealId == mealId;
    }
  }

  /** A meal is in the local list exactly when its id is among the local ids. */
  lemma InLocalMealIds(locals: seq<LocalFavorite>, mealId: string)
    ensures InLocal(locals, mealId) <==> mealId in Map(locals, LocalMealIdOf)
  {
    var ids := Map(locals, LocalMealIdOf);
    if mealId in ids {
      var k :| 0 <= k < |locals| && ids[k] == mealId;
      assert locals[k].mealId == mealId;
    }
  }

  /** The records created for ids that all have local records carry exactly
      those ids, in order. */
  lemma MigratedMealIds(userId: string, locals: seq<LocalFavorite>, ids: seq<string>,
                        genId: nat -> string)
    requires forall i :: 0 <= i < |ids| ==> InLocal(locals, ids[i])
    ensures MealIds(Migrated(userId, locals, ids, genId)) == ids
  {
    MigratedLength(userId, locals, ids, genId);
    forall j | 0 <= j < |ids|
      ensures MealIds(Migrated(userId, locals, ids, genId))[j] == ids[j]
    {
      MigratedAt(userId, locals, ids, genId, j);
    }
  }

  /** The meal ids of a successful merge: the server's, then the unique local
      ones. */
  lemma MergedMealIds(userId: string, locals: seq<LocalFavorite>, server: seq<Favorite>,
                      genId: nat -> string)
    ensures MealIds(MergedList(userId, locals, server, genId)) ==
      MealIds(server) + UniqueLocalIds(Map(locals, LocalMealIdOf), MealIds(server))
  {
    var ids := UniqueLocalIds(Map(locals, LocalMealIdOf), MealIds(server));
    var migrated := Migrated(userId, locals, ids, genId);
    UniqueIdsAreLocal(locals, MealIds(server));
    MigratedMealIds(userId, locals, ids, genId);
    MapConcat(server, migrated, MealIdOf);
  }

  /** A successful merge loses nothing: the merged list shows exactly the meals
      that were on the server or in the local list. */
  lemma MergedMembership(userId: string, locals: seq<LocalFavorite>, server: seq<Favorite>,
                         genId: nat -> string, mealId: string)
    ensures IsFavorite(MergedList(userId, locals, server, genId), mealId) <==>
      IsFavorite(server, mealId) || InLocal(locals, mealId)
  {
    var localIds := Map(locals, LocalMealIdOf);
    var serverIds := MealIds(server);
    var ids := UniqueLocalIds(localIds, serverIds);
    MergedMealIds(userId, locals, server, genId);
    IsFavoriteMealIds(MergedList(userId, locals, server, genId), mealId);
    IsFavoriteMealIds(server, mealId);
    InLocalMealIds(locals, mealId);
    if mealId in localIds && mealId !in serverIds {
      var k :| 0 <= k < |localIds| && localIds[k] == mealId;
      assert mealId in ids;
    }
  }

  /** A successful merge keeps meal ids unique when the server list and the
      local list each were. */
  lemma MergedDistinct(userId: string, locals: seq<LocalFavorite>, server: seq<Favorite>,
                       genId: nat -> string)
    requires DistinctBy(server, MealIdOf)
    requires DistinctBy(locals, LocalMealIdOf)
    ensures DistinctBy(MergedList(userId, locals, server, genId), MealIdOf)
  {
    var localIds := Map(locals, LocalMealIdOf);
    var serverIds := MealIds(server);
    var ids := UniqueLocalIds(localIds, serverIds);
    var merged := MergedList(userId, locals, server, genId);
    var all := MealIds(merged);
    var self := (id: string) => id;
    assert DistinctBy(localIds, self) by {
      forall i, j | 0 <= i < j < |localIds|
        ensures self(localIds[i]) != self(localIds[j])
      {
        assert localIds[i] == LocalMealIdOf(locals[i]);
      }
    }
    FilterDistinctBy(localIds, id => id !in serverIds, self);
    MergedMealIds(userId, locals, server, genId);
    assert all == serverIds + ids;
    forall i, j | 0 <= i < j < |merged|
      ensures merged[i].mealId != merged[j].mealId
    {
      assert merged[i].mealId == all[i] && merged[j].mealId == all[j];
      if j >= |server| {
        if i >= |server| {
          assert self(ids[i - |server|]) != self(ids[j - |server|]);
        } else {
          assert ids[j - |server|] !in serverIds;
        }
      } else {
        assert server[i].mealId != server[j].mealId;
      }
    }
  }

  /** The loop of `mergeFavorites`: starting from the server list, append one
      new owned record for each unique id that has a local record. */
  method BuildMerged(userId: string, localFavorites: seq<LocalFavorite>,
                     serverFavorites: seq<Favorite>, uniqueLocalIds: seq<string>,
                     genId: nat -> string)
    returns (merged: seq<Favorite>)
    ensures merged == serverFavorites + Migrated(userId, localFavorites, uniqueLocalIds, genId)
  {
    merged := serverFavorites;
    var created := 0;
    for i := 0 to |uniqueLocalIds|
      invariant merged == serverFavorites + Migrated(userId, localFavorites, uniqueLocalIds[..i], genId)
      invariant created == |merged| - |serverFavorites|
    {
      var mealId := uniqueLocalIds[i];
      assert uniqueLocalIds[..i + 1][..i] == uniqueLocalIds[..i];
      var localFavorite := FindByKey(localFavorites, LocalMealIdOf, mealId);
      if localFavorite.Some? {
        var favorite := Favorite(genId(created), mealId, Some(userId),
                                 ParseDate(localFavorite.value.addedAt), None);
        merged := merged + [favorite];
        created := created + 1;
      }
    }
    assert uniqueLocalIds[..|uniqueLocalIds|] == uniqueLocalIds;
  }

  /** The service. Remote reads and writes are not modelled: their outcomes
      are parameters. */
  class FavoritesService {
    /** The current favorites every consumer observes. */
    var snapshot: seq<Favorite>
    /** The value under the local-storage key; None when the key is absent. */
    var stored: Option<seq<LocalFavorite>>
    /** Set once a merge has succeeded in this session. */
    var latch: bool

    constructor (stored: Option<seq<LocalFavorite>>)
      ensures this.snapshot == [] && this.stored == stored && !this.latch
    {
      this.snapshot := [];
      this.stored := stored;
      this.latch := false;
    }

    /** `getLocalFavorites`: an absent key reads as the empty list. */
    function LocalFavorites(): (r: seq<LocalFavorite>)
      reads this
    {
      match stored
      case None => []
      case Some(locals) => locals
    }

    /** While no one is signed in, the snapshot shows exactly the local meals. */
    ghost predicate InSync()
      reads this
    {
      forall mealId :: IsFavorite(snapshot, mealId) <==> InLocal(LocalFavorites(), mealId)
    }

    /** `addToLocalStorage`: a meal already in the local list changes nothing;
        otherwise its record goes to the end of the local list and the favorite
        to the front of the snapshot. */
    method AddToLocalStorage(favorite: Favorite)
      modifies this`snapshot, this`stored
      ensures InLocal(old(LocalFavorites()), favorite.mealId) ==>
        stored == old(stored) && snapshot == old(snapshot)
      ensures !InLocal(old(LocalFavorites()), favorite.mealId) ==>
        stored == Some(old(LocalFavorites()) + [ToLocalFavorite(favorite)]) &&
        snapshot == [favorite] + old(snapshot)
      ensures InLocal(LocalFavorites(), favorite.mealId)
      ensures DistinctBy(old(LocalFavorites()), LocalMealIdOf) ==> DistinctBy(LocalFavorites(), LocalMealIdOf)
      ensures old(InSync()) ==> InSync() && IsFavorite(snapshot, favorite.mealId)
    {
      var favorites := LocalFavorites();
      var localFavorite := ToLocalFavorite(favorite);
      if !InLocal(favorites, favorite.mealId) {
        favorites := favorites + [localFavorite];
        stored := Some(favorites);
        snapshot := [favorite] + snapshot;
        if DistinctBy(old(LocalFavorites()), LocalMealIdOf) {
          DistinctByAppend(old(LocalFavorites()), localFavorite, LocalMealIdOf);
        }
        forall mealId
          ensures IsFavorite(snapshot, mealId) <==> IsFavorite(old(snapshot), mealId) || mealId == favorite.mealId
          ensures InLocal(favorites, mealId) <==> InLocal(old(LocalFavorites()), mealId) || mealId == favorite.mealId
        {
          HasKeyPrepend(favorite, old(snapshot), MealIdOf, mealId);
          HasKeyAppend(old(LocalFavorites()), localFavorite, LocalMealIdOf, mealId);
        }
      }
    }

    /** `removeFromLocalStorage`: every record and every favorite of the meal
        is dropped; the rest keep their order. */
    method RemoveFromLocalStorage(mealId: string)
      modifies this`snapshot, this`stored
      ensures stored == Some(Without(old(LocalFavorites()), LocalMealIdOf, mealId))
      ensures snapshot == Without(old(snapshot), MealIdOf, mealId)
      ensures !InLocal(LocalFavorites(), mealId) && !IsFavorite(snapshot, mealId)
      ensures forall k :: (0 <= k < |old(LocalFavorites())| && old(LocalFavorites())[k].mealId == mealId &&
        DistinctBy(old(LocalFavorites()), LocalMealIdOf)) ==>
        LocalFavorites() == old(LocalFavorites())[..k] + old(LocalFavorites())[k + 1..]
      ensures DistinctBy(old(LocalFavorites()), LocalMealIdOf) ==> DistinctBy(LocalFavorites(), LocalMealIdOf)
      ensures old(InSync()) ==> InSync()
    {
      var favorites := LocalFavorites();
      var updated := Without(favorites, LocalMealIdOf, mealId);
      stored := Some(updated);
      snapshot := Without(snapshot, MealIdOf, mealId);
      if DistinctBy(favorites, LocalMealIdOf) {
        WithoutDistinctBy(favorites, LocalMealIdOf, mealId);
        forall k | 0 <= k < |favorites| && favorites[k].mealId == mealId
          ensures updated == favorites[..k] + favorites[k + 1..]
        {
          WithoutDistinctAt(favorites, LocalMealIdOf, k);
        }
      }
      forall other
        ensures IsFavorite(snapshot, other) <==> IsFavorite(old(snapshot), other) && other != mealId
        ensures InLocal(updated, other) <==> InLocal(favorites, other) && other != mealId
      {
        HasKeyWithout(old(snapshot), MealIdOf, mealId, other);
        HasKeyWithout(favorites, LocalMealIdOf, mealId, other);
      }
    }

    /** `addToFirestore`: once the write succeeds the favorite goes to the
        front of the snapshot. There is no membership check, so adding a meal
        that is already a favorite duplicates it. */
    method AddToFirestore(userId: string, favorite: Favorite, writeOk: bool) returns (ok: bool)
      modifies this`snapshot
      ensures ok == writeOk
      ensures snapshot == if writeOk then [favorite] + old(snapshot) else old(snapshot)
      ensures writeOk && old(IsFavorite(snapshot, favorite.mealId)) ==> !DistinctBy(snapshot, MealIdOf)
    {
      ok := writeOk;
      if writeOk {
        var current := snapshot;
        snapshot := [favorite] + current;
        if IsFavorite(current, favorite.mealId) {
          var k :| 0 <= k < |current| && current[k].mealId == favorite.mealId;
          assert snapshot[0].mealId == snapshot[k + 1].mealId;
        }
      }
    }

    /** `removeFromFirestore`: once the batch delete commits, every favorite of
        the meal leaves the snapshot. */
    method RemoveFromFirestore(userId: string, mealId: string, commitOk: bool) returns (ok: bool)
      modifies this`snapshot
      ensures ok == commitOk
      ensures snapshot == if commitOk then Without(old(snapshot), MealIdOf, mealId) else old(snapshot)
      ensures commitOk ==> !IsFavorite(snapshot, mealId)
    {
      ok := commitOk;
      if commitOk {
        HasKeyWithout(snapshot, MealIdOf, mealId, mealId);
        snapshot := Without(snapshot, MealIdOf, mealId);
      }
    }

    /** `addFavorite`: builds the favorite from a fresh id and the current
        time, then adds it remotely when someone is signed in, locally
        otherwise. */
    method AddFavorite(mealId: string, mealData: Option<MealData>, user: Option<string>,
                       freshId: string, now: Date, writeOk: bool)
      returns (ok: bool)
      modifies this`snapshot, this`stored
      ensures var favorite := Favorite(freshId, mealId, None, now, mealData);
        && (user.Some? ==>
              ok == writeOk && stored == old(stored) &&
              snapshot == if writeOk then [favorite] + old(snapshot) else old(snapshot))
        && (user.None? && old(InLocal(LocalFavorites(), mealId)) ==>
              ok && stored == old(stored) && snapshot == old(snapshot))
        && (user.None? && !old(InLocal(LocalFavorites(), mealId)) ==>
              ok && stored == Some(old(LocalFavorites()) + [LocalFavorite(mealId, now.iso)]) &&
              snapshot == [favorite] + old(snapshot))
      ensures user.None? ==> InLocal(LocalFavorites(), mealId)
      ensures user.None? && old(InSync()) ==> InSync() && IsFavorite(snapshot, mealId)
      ensures user.None? && DistinctBy(old(LocalFavorites()), LocalMealIdOf) ==>
        DistinctBy(LocalFavorites(), LocalMealIdOf)
    {
      var favorite := Favorite(freshId, mealId, None, now, mealData);
      if user.Some? {
        ok := AddToFirestore(user.value, favorite, writeOk);
      } else {
        AddToLocalStorage(favorite);
        ok := true;
      }
    }

    /** `removeFavorite`: removes remotely when someone is signed in, locally
        otherwise. */
    method RemoveFavorite(mealId: string, user: Option<string>, commitOk: bool) returns (ok: bool)
      modifies this`snapshot, this`stored
      ensures user.Some? ==>
        ok == commitOk && stored == old(stored) &&
        snapshot == if commitOk then Without(old(snapshot), MealIdOf, mealId) else old(snapshot)
      ensures user.None? ==>
        ok && stored == Some(Without(old(LocalFavorites()), LocalMealIdOf, mealId)) &&
        snapshot == Without(old(snapshot), MealIdOf, mealId)
      ensures ok ==> !IsFavorite(snapshot, mealId)
      ensures user.None? && old(InSync()) ==> InSync()
      ensures user.None? && DistinctBy(old(LocalFavorites()), LocalMealIdOf) ==>
        DistinctBy(LocalFavorites(), LocalMealIdOf)
    {
      if user.Some? {
        ok := RemoveFromFirestore(user.value, mealId, commitOk);
      } else {
        RemoveFromLocalStorage(mealId);
        ok := true;
      }
    }

    /** `toggleFavorite`: removes a current favorite and answers false, adds
        any other meal and answers true; None when the remote write fails. */
    method ToggleFavorite(mealId: string, mealData: Option<MealData>, user: Option<string>,
                          freshId: string, now: Date, writeOk: bool)
      returns (r: Option<bool>)
      modifies this`snapshot, this`stored
      ensures r.None? <==> user.Some? && !writeOk
      ensures r.Some? ==> r.value == !old(IsFavorite(snapshot, mealId))
      ensures r.None? ==> snapshot == old(snapshot) && stored == old(stored)
      ensures r == Some(false) ==> !IsFavorite(snapshot, mealId)
      ensures r == Some(true) && (user.Some? || old(InSync())) ==> IsFavorite(snapshot, mealId)
      ensures user.None? && old(InSync()) ==> InSync()
      ensures user.Some? && old(DistinctBy(snapshot, MealIdOf)) ==> DistinctBy(snapshot, MealIdOf)
      ensures old(IsFavorite(snapshot, mealId)) && user.Some? ==>
        stored == old(stored) &&
        snapshot == if writeOk then Without(old(snapshot), MealIdOf, mealId) else old(snapshot)
      ensures old(IsFavorite(snapshot, mealId)) && user.None? ==>
        stored == Some(Without(old(LocalFavorites()), LocalMealIdOf, mealId)) &&
        snapshot == Without(old(snapshot), MealIdOf, mealId)
      ensures !old(IsFavorite(snapshot, mealId)) ==>
        var favorite := Favorite(freshId, mealId, None, now, mealData);
        && (user.Some? ==>
              stored == old(stored) &&
              snapshot == if writeOk then [favorite] + old(snapshot) else old(snapshot))
        && (user.None? && old(InLocal(LocalFavorites(), mealId)) ==>
              stored == old(stored) && snapshot == old(snapshot))
        && (user.None? && !old(InLocal(LocalFavorites(), mealId)) ==>
              stored == Some(old(LocalFavorites()) + [LocalFavorite(mealId, now.iso)]) &&
              snapshot == [favorite] + old(snapshot))
    {
      var isFavorite := IsFavorite(snapshot, mealId);
      if isFavorite {
        ghost var before := snapshot;
        var ok := RemoveFavorite(mealId, user, writeOk);
        r := if ok then Some(false) else None;
        if ok && DistinctBy(before, MealIdOf) {
          WithoutDistinctBy(before, MealIdOf, mealId);
        }
      } else {
        var ok := AddFavorite(mealId, mealData, user, freshId, now, writeOk);
        r := if ok then Some(true) else None;
        if user.Some? && ok {
          assert snapshot[0].mealId == mealId;
        }
      }
    }

    /** `mergeFavorites`: copies the local-only meals into the account. With
        nothing to copy, or when the batch commit fails, it answers the server
        list and changes nothing; on success it clears the local store, sets
        the latch and publishes the merged list. */
    method MergeFavorites(userId: string, localFavorites: seq<LocalFavorite>,
                          serverFavorites: seq<Favorite>, genId: nat -> string, commitOk: bool)
      returns (result: seq<Favorite>)
      modifies this
      ensures var unique := UniqueLocalIds(Map(localFavorites, LocalMealIdOf), MealIds(serverFavorites));
        && (unique == [] || !commitOk ==>
              result == serverFavorites &&
              snapshot == old(snapshot) && stored == old(stored) && latch == old(latch))
        && (unique != [] && commitOk ==>
              result == MergedList(userId, localFavorites, serverFavorites, genId) &&
              snapshot == result && stored.None? && latch)
    {
      var localIds := Map(localFavorites, LocalMealIdOf);
      var serverIds := MealIds(serverFavorites);
      var uniqueLocalIds := UniqueLocalIds(localIds, serverIds);
      if |uniqueLocalIds| == 0 {
        return serverFavorites;
      }
      var merged := BuildMerged(userId, localFavorites, serverFavorites, uniqueLocalIds, genId);
      if commitOk {
        stored := None;
        latch := true;
        snapshot := merged;
        result := merged;
      } else {
        result := serverFavorites;
      }
    }

    /** `initializeFavorites`, for one identity emission: signed out, publish
        the local list; signed in, publish the server list, merging first when
        the local list is non-empty and no merge has succeeded yet. */
    method InitializeFavorites(user: Option<string>, serverFavorites: seq<Favorite>,
                               genId: nat -> string, commitOk: bool)
      modifies this
      ensures user.None? ==>
        snapshot == LocalSnapshot(old(LocalFavorites())) &&
        stored == old(stored) && latch == old(latch) && InSync()
      ensures user.Some? && (old(LocalFavorites()) == [] || old(latch)) ==>
        snapshot == serverFavorites && stored == old(stored) && latch == old(latch)
      ensures user.Some? && old(LocalFavorites()) != [] && !old(latch) ==>
        var unique := UniqueLocalIds(Map(old(LocalFavorites()), LocalMealIdOf), MealIds(serverFavorites));
        if unique != [] && commitOk then
          snapshot == MergedList(user.value, old(LocalFavorites()), serverFavorites, genId) &&
          stored.None? && latch
        else
          snapshot == serverFavorites && stored == old(stored) && latch == old(latch)
      ensures stored != old(stored) || latch != old(latch) ==>
        user.Some? && old(LocalFavorites()) != [] && !old(latch)
    {
      if user.Some? {
        var localFavorites := LocalFavorites();
        var favorites := serverFavorites;
        if |localFavorites| > 0 && !latch {
          favorites := MergeFavorites(user.value, localFavorites, serverFavorites, genId, commitOk);
        }
        snapshot := favorites;
      } else {
        snapshot := LocalSnapshot(LocalFavorites());
        forall mealId
          ensures IsFavorite(snapshot, mealId) <==> InLocal(LocalFavorites(), mealId)
        {
          LocalSnapshotMembership(LocalFavorites(), mealId);
        }
      }
    }
  }
}
