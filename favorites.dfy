/** The shared favorites store: the list of favorite recipe ids, its copy in
    the device's local storage, and the toggle that keeps both and the
    server's like counter in step. */
module Favorites {
  import opened Types
  import opened FavoriteList

  /** The `homeat_favorites` storage slot. `Absent` is a missing key,
      `EmptyText` an empty string; `Saved` stands for JSON text, given by the
      list of ids it encodes. */
  datatype Slot = Absent | EmptyText | Saved(ids: seq<int>)

  /** How the like request ended: the fetch or the body parse threw, the
      response was not ok, or it was ok with a body whose `likes` property
      may be missing. */
  datatype LikeResponse = Threw | NotOk | Ok(likes: Option<int>)

  /** An effect of the store on the outside world, in the order it happens. */
  datatype Effect =
    | Persisted(ids: seq<int>)
    | LikeRequested(id: int, increase: bool)

  class FavoritesStore {
    var favoriteIds: seq<int>
    var storage: Slot
    var effects: seq<Effect>

    /** The store as the module initialises it: no favorites in memory, the
        device's storage as found. */
    constructor (slot: Slot)
      ensures favoriteIds == [] && storage == slot && effects == []
    {
      favoriteIds := [];
      storage := slot;
      effects := [];
    }

    /** Replaces the in-memory list by the stored one when the slot holds
        non-empty text; a missing key or an empty string leaves it alone. */
    method LoadFavorites()
      modifies this`favoriteIds
      ensures storage.Saved? ==> favoriteIds == storage.ids
      ensures !storage.Saved? ==> favoriteIds == old(favoriteIds)
    {
      var stored := storage;
      if stored.Saved? {
        favoriteIds := stored.ids;
      }
    }

    /** An id is a favorite when it is truthy and occurs in the list. */
    function IsFavorite(id: Option<int>): (r: bool)
      reads this
      ensures r <==> IsTruthyId(id) && id.value in favoriteIds
      ensures id == None || id == Some(0) ==> !r
    {
      if !IsTruthyId(id) then false
      else Includes(favoriteIds, id.value)
    }

    /** Flips the recipe's membership, writes the new list to storage, then
        asks the server to raise or lower the like counter. The recipe's
        `likes` takes the server's value only on an ok response; the local
        toggle stays whatever the response. A recipe without a truthy id is
        left alone and nothing is written or sent. */
    method ToggleFavorite(recipe: Recipe, response: LikeResponse) returns (updated: Recipe)
      modifies this`favoriteIds, this`storage, this`effects
      ensures !IsTruthyId(recipe.id) ==>
        && favoriteIds == old(favoriteIds) && storage == old(storage)
        && effects == old(effects) && updated == recipe
      ensures IsTruthyId(recipe.id) ==>
        var x := recipe.id.value;
        var wasFavorite := x in old(favoriteIds);
        && favoriteIds == Toggled(old(favoriteIds), x)
        && IsFavorite(recipe.id) == !wasFavorite
        && storage == Saved(favoriteIds)
        && effects == old(effects) + [Persisted(favoriteIds), LikeRequested(x, !wasFavorite)]
      ensures forall y :: y != recipe.id ==> IsFavorite(y) == old(IsFavorite(y))
      ensures NoDuplicates(old(favoriteIds)) ==> NoDuplicates(favoriteIds)
      ensures updated.likes == (if IsTruthyId(recipe.id) && response.Ok? then response.likes else recipe.likes)
      ensures updated.(likes := recipe.likes) == recipe
    {
      if !IsTruthyId(recipe.id) {
        return recipe;
      }
      var id := recipe.id.value;
      var wasFavorite := IsFavorite(recipe.id);
      ghost var before := favoriteIds;
      if wasFavorite {
        favoriteIds := Without(favoriteIds, id);
      } else {
        favoriteIds := favoriteIds + [id];
      }
      if NoDuplicates(before) {
        ToggleKeepsNoDuplicates(before, id);
      }
      storage := Saved(favoriteIds);
      effects := effects + [Persisted(favoriteIds)];
      var shouldIncrease := !wasFavorite;
      effects := effects + [LikeRequested(id, shouldIncrease)];
      updated := recipe;
      if response.Ok? {
        updated := updated.(likes := response.likes);
      }
    }
  }
}
