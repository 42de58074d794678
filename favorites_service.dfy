/** The favorites service: a list of favorite character ids kept as one JSON
    array under a fixed key of the device's key-value store (AsyncStorage).
    Reading (`getFavorites`) and the membership test (`isFavorite`) are
    functions of the stored items; adding and removing are read-modify-write
    methods of `Store`, each specified by a function of the items before the
    call. Whether the store's read (`getItem`) and write (`setItem`) succeed is
    passed in as `readOk` and `writeOk`. */
module FavoritesService {
  import opened IdLists

  /** The one key under which the favorites record is kept. */
  const FavoritesKey: string := "@RickAndMortyApp:favorites"

  /** A stored string, classified by what `JSON.parse` makes of it. */
  datatype Text =
    | Blank                   // the empty string: falsy, so it is never parsed
    | Unparsable              // `JSON.parse` throws a SyntaxError
    | NotAnArray              // parses to null, a number, a boolean or an object
    | IdArray(ids: seq<int>)  // parses to an array of integers: what the service writes

  /** The key-value store's contents. */
  type Items = map<string, Text>

  /** What `getFavorites` resolves to: a list, or a parsed value that is not one. */
  datatype Favorites = List(ids: seq<int>) | NotAList

  /** A promise that resolves with a value, or rejects with a TypeError. */
  datatype Result<T> = Ok(value: T) | TypeError

  /** `getFavorites`: the parsed record, or `[]` when the key is missing, the
      text is blank, the text does not parse or the read itself fails. It never
      rejects. A non-empty list is only ever the array stored under the key. */
  function GetFavorites(items: Items, readOk: bool): (r: Favorites)
    ensures readOk && FavoritesKey in items && items[FavoritesKey].IdArray? ==>
              r == List(items[FavoritesKey].ids)
    ensures r.List? && r.ids != [] ==>
              readOk && FavoritesKey in items && items[FavoritesKey] == IdArray(r.ids)
    ensures r.NotAList? <==> readOk && FavoritesKey in items && items[FavoritesKey] == NotAnArray
  {
    if !readOk || FavoritesKey !in items then List([])
    else
      match items[FavoritesKey]
      case Blank => List([])
      case Unparsable => List([])
      case NotAnArray => NotAList
      case IdArray(ids) => List(ids)
  }

  /** `isFavorite`: whether `id` is in the list `getFavorites` resolves to. When
      that value is not an array, `includes` is missing and the call rejects. */
  function IsFavorite(items: Items, id: int, readOk: bool): (r: Result<bool>)
    ensures r.Ok? <==> GetFavorites(items, readOk).List?
    ensures r.Ok? ==> (r.value <==> id in GetFavorites(items, readOk).ids)
  {
    match GetFavorites(items, readOk)
    case List(ids) => Ok(id in ids)
    case NotAList => TypeError
  }

  /** A value, or none. */
  datatype Option<T> = None | Some(value: T)

  /** The list `addFavorite(id)` hands to `setItem`, if it calls `setItem` at
      all: only when the read gave a list without `id`, and then that list
      with `id` appended at the end. */
  function AddWrite(items: Items, id: int, readOk: bool): (w: Option<seq<int>>)
    ensures w.Some? <==> GetFavorites(items, readOk).List? && id !in GetFavorites(items, readOk).ids
    ensures w.Some? ==> w.value == GetFavorites(items, readOk).ids + [id] && id in w.value
  {
    match GetFavorites(items, readOk)
    case NotAList => None
    case List(favorites) => if id in favorites then None else Some(favorites + [id])
  }

  /** The list `removeFavorite(id)` hands to `setItem`: whenever the read gave
      a list, whether or not `id` was in it, that list without `id`. */
  function RemoveWrite(items: Items, id: int, readOk: bool): (w: Option<seq<int>>)
    ensures w.Some? <==> GetFavorites(items, readOk).List?
    ensures w.Some? ==> w.value == Without(GetFavorites(items, readOk).ids, id) && id !in w.value
  {
    match GetFavorites(items, readOk)
    case NotAList => None
    case List(favorites) => Some(Without(favorites, id))
  }

  /** The items after a call that hands `w` to `setItem` (or does not call it). */
  function Written(items: Items, w: Option<seq<int>>, writeOk: bool): Items {
    if w.Some? && writeOk then items[FavoritesKey := IdArray(w.value)] else items
  }

  /** The items after `addFavorite(id)`. Only the favorites key can change, and
      it changes only by a successful write of the read list with `id` appended. */
  function AddEffect(items: Items, id: int, readOk: bool, writeOk: bool): (r: Items)
    ensures r - {FavoritesKey} == items - {FavoritesKey}
    ensures !writeOk ==> r == items
    ensures r == items ||
            (GetFavorites(items, readOk).List? && id !in GetFavorites(items, readOk).ids &&
             r == items[FavoritesKey := IdArray(GetFavorites(items, readOk).ids + [id])])
  {
    Written(items, AddWrite(items, id, readOk), writeOk)
  }

  /** The items after `removeFavorite(id)`. Only the favorites key can change;
      whenever the read list is a list and the write succeeds, the list without
      `id` is written, even if `id` was not in it. */
  function RemoveEffect(items: Items, id: int, readOk: bool, writeOk: bool): (r: Items)
    ensures r - {FavoritesKey} == items - {FavoritesKey}
    ensures !writeOk || GetFavorites(items, readOk).NotAList? ==> r == items
    ensures writeOk && GetFavorites(items, readOk).List? ==>
              r == items[FavoritesKey := IdArray(Without(GetFavorites(items, readOk).ids, id))]
  {
    Written(items, RemoveWrite(items, id, readOk), writeOk)
  }

  /** The device's key-value store, of which the service uses one key. */
  class Store {
    var items: Items
    /** Every list handed to `setItem` under the favorites key, in call order,
        whether or not the write succeeded. */
    ghost var setItemCalls: seq<seq<int>>

    constructor (initial: Items)
      ensures items == initial && setItemCalls == []
    {
      items := initial;
      setItemCalls := [];
    }

    /** `addFavorite`: read the list; if `id` is new, write it back with `id`
        appended. A failed write, or a TypeError from a non-array record, is
        caught and leaves the store as it was. */
    method AddFavorite(id: int, readOk: bool, writeOk: bool)
      modifies this
      ensures items == AddEffect(old(items), id, readOk, writeOk)
      ensures var w := AddWrite(old(items), id, readOk);
              setItemCalls == old(setItemCalls) + (if w.Some? then [w.value] else [])
    {
      var favorites := GetFavorites(items, readOk);
      if favorites.List? && id !in favorites.ids {
        var newFavorites := favorites.ids + [id];
        setItemCalls := setItemCalls + [newFavorites];
        if writeOk {
          items := items[FavoritesKey := IdArray(newFavorites)];
        }
      }
    }

    /** `removeFavorite`: read the list and always write it back filtered. A
        failed write, or a TypeError from a non-array record, is caught and
        leaves the store as it was. */
    method RemoveFavorite(id: int, readOk: bool, writeOk: bool)
      modifies this
      ensures items == RemoveEffect(old(items), id, readOk, writeOk)
      ensures var w := RemoveWrite(old(items), id, readOk);
              setItemCalls == old(setItemCalls) + (if w.Some? then [w.value] else [])
    {
      var favorites := GetFavorites(items, readOk);
      if favorites.List? {
        var newFavorites := Without(favorites.ids, id);
        setItemCalls := setItemCalls + [newFavorites];
        if writeOk {
          items := items[FavoritesKey := IdArray(newFavorites)];
        }
      }
    }
  }

  /** The stored list, when there is one, holds no id twice. */
  predicate WellFormed(items: Items) {
    FavoritesKey in items && items[FavoritesKey].IdArray? ==> NoDuplicates(items[FavoritesKey].ids)
  }

  /** A record that was never written, or was written blank, reads as the empty
      list; so does any record when the read fails. */
  lemma NeverWrittenReadsEmpty(items: Items, readOk: bool)
    requires FavoritesKey !in items || items[FavoritesKey] == Blank || !readOk
    ensures GetFavorites(items, readOk) == List([])
    ensures forall id :: IsFavorite(items, id, readOk) == Ok(false)
  {
  }

  /** A record that does not parse reads as the empty list, not as a failure. */
  lemma CorruptReadsEmpty(items: Items, readOk: bool)
    requires FavoritesKey in items && items[FavoritesKey] == Unparsable
    ensures GetFavorites(items, readOk) == List([])
  {
  }

  /** Adding a new id appends it after the existing ids, which keep their
      order; afterwards it is a favorite and every other id keeps its status. */
  lemma AddAppends(items: Items, id: int, readOk: bool)
    requires GetFavorites(items, readOk).List? && id !in GetFavorites(items, readOk).ids
    ensures var after := AddEffect(items, id, readOk, true);
            after[FavoritesKey] == IdArray(GetFavorites(items, readOk).ids + [id]) &&
            IsFavorite(after, id, true) == Ok(true) &&
            forall x :: x != id ==> IsFavorite(after, x, true) == IsFavorite(items, x, readOk)
  {
  }

  /** Adding an id that is already a favorite does not call `setItem`, so the
      store is unchanged whatever the write would have done. */
  lemma AddPresentWritesNothing(items: Items, id: int, readOk: bool, writeOk: bool)
    requires GetFavorites(items, readOk).List? && id in GetFavorites(items, readOk).ids
    ensures AddWrite(items, id, readOk) == None
    ensures AddEffect(items, id, readOk, writeOk) == items
  {
  }

  /** `add(id); add(id)` leaves the store as `add(id)` does, once the first
      call has gone through. */
  lemma AddIdempotent(items: Items, id: int, readOk: bool, writeOk: bool)
    ensures var once := AddEffect(items, id, readOk, true);
            AddEffect(once, id, true, writeOk) == once
  {
    var once := AddEffect(items, id, readOk, true);
    if GetFavorites(items, readOk).List? {
      assert id in GetFavorites(once, true).ids;
    }
  }

  /** Adding keeps the stored list free of duplicates, whatever the outcome of
      the read and the write. */
  lemma AddKeepsWellFormed(items: Items, id: int, readOk: bool, writeOk: bool)
    requires WellFormed(items)
    ensures WellFormed(AddEffect(items, id, readOk, writeOk))
  {
    var favorites := GetFavorites(items, readOk);
    if favorites.List? && id !in favorites.ids && writeOk {
      AppendKeepsNoDuplicates(favorites.ids, id);
    }
  }

  /** Removing writes the read list without `id`, in the same order;
      afterwards `id` is not a favorite and every other id keeps its status. */
  lemma RemoveFilters(items: Items, id: int, readOk: bool)
    requires GetFavorites(items, readOk).List?
    ensures var after := RemoveEffect(items, id, readOk, true);
            after[FavoritesKey] == IdArray(Without(GetFavorites(items, readOk).ids, id)) &&
            IsSubsequence(after[FavoritesKey].ids, GetFavorites(items, readOk).ids) &&
            IsFavorite(after, id, true) == Ok(false) &&
            forall x :: x != id ==> IsFavorite(after, x, true) == IsFavorite(items, x, readOk)
  {
  }

  /** Removing always calls `setItem`: a list without `id` is written back
      unchanged, and an absent, blank or corrupt record is replaced by a
      valid array. */
  lemma RemoveAlwaysWrites(items: Items, id: int, readOk: bool)
    requires GetFavorites(items, readOk).List?
    ensures RemoveWrite(items, id, readOk).Some?
    ensures id !in GetFavorites(items, readOk).ids ==>
              RemoveWrite(items, id, readOk) == Some(GetFavorites(items, readOk).ids)
    ensures RemoveEffect(items, id, readOk, true)[FavoritesKey].IdArray?
    ensures GetFavorites(items, readOk).ids == [] ==>
              RemoveEffect(items, id, readOk, true)[FavoritesKey] == IdArray([])
  {
    if id !in GetFavorites(items, readOk).ids {
      WithoutAbsent(GetFavorites(items, readOk).ids, id);
    }
  }

  /** `remove(id); remove(id)` leaves the store as `remove(id)` does, once the
      first call has gone through. */
  lemma RemoveIdempotent(items: Items, id: int, readOk: bool, writeOk: bool)
    requires GetFavorites(items, readOk).List?
    ensures var once := RemoveEffect(items, id, readOk, true);
            RemoveEffect(once, id, true, writeOk) == once
  {
    WithoutIdempotent(GetFavorites(items, readOk).ids, id);
  }

  /** Removing keeps the stored list free of duplicates, whatever the outcome
      of the read and the write. */
  lemma RemoveKeepsWellFormed(items: Items, id: int, readOk: bool, writeOk: bool)
    requires WellFormed(items)
    ensures WellFormed(RemoveEffect(items, id, readOk, writeOk))
  {
    var favorites := GetFavorites(items, readOk);
    if favorites.List? {
      WithoutKeepsNoDuplicates(favorites.ids, id);
    }
  }

  /** A failed read inside add or remove is taken for an empty list, so a
      successful write then replaces every stored favorite: add leaves `[id]`
      and remove leaves `[]`. */
  lemma ReadFailureReplacesList(items: Items, id: int)
    ensures AddEffect(items, id, false, true)[FavoritesKey] == IdArray([id])
    ensures RemoveEffect(items, id, false, true)[FavoritesKey] == IdArray([])
  {
  }

  /** A record that parses to something other than an array makes
      `isFavorite` reject, while add and remove swallow the TypeError and
      write nothing. */
  lemma NotAnArrayRecord(items: Items, id: int, writeOk: bool)
    requires FavoritesKey in items && items[FavoritesKey] == NotAnArray
    ensures IsFavorite(items, id, true) == TypeError
    ensures AddEffect(items, id, true, writeOk) == items
    ensures RemoveEffect(items, id, true, writeOk) == items
  {
  }
}
