/** Sequences of calls to the favorites service, each call taken as one atomic
    step (concurrent calls are not interleaved). */
module FavoriteSequences {
  import opened IdLists
  import opened FavoritesService

  /** One call to `addFavorite` or `removeFavorite`, with the outcome of its
      read and of its write. */
  datatype Call =
    | Add(id: int, readOk: bool, writeOk: bool)
    | Remove(id: int, readOk: bool, writeOk: bool)

  /** The items after one call. */
  function Apply(items: Items, c: Call): Items {
    match c
    case Add(id, readOk, writeOk) => AddEffect(items, id, readOk, writeOk)
    case Remove(id, readOk, writeOk) => RemoveEffect(items, id, readOk, writeOk)
  }

  /** The items after the calls, in order. */
  function Run(items: Items, calls: seq<Call>): Items
    decreases |calls|
  {
    if calls == [] then items else Run(Apply(items, calls[0]), calls[1..])
  }

  /** Every read and every write succeeded. */
  predicate AllSucceed(calls: seq<Call>) {
    forall i :: 0 <= i < |calls| ==> calls[i].readOk && calls[i].writeOk
  }

  /** Reference meaning of a call sequence for one id: the last add or remove
      of `x` decides; with none, `x` keeps the status it had before. */
  function Favorited(before: bool, calls: seq<Call>, x: int): bool
    decreases |calls|
  {
    if calls == [] then before
    else Favorited(if calls[0].id == x then calls[0].Add? else before, calls[1..], x)
  }

  /** Whatever the outcomes of reads and writes, the stored list never gains
      a duplicate. */
  lemma {:induction false} RunKeepsWellFormed(items: Items, calls: seq<Call>)
    requires WellFormed(items)
    ensures WellFormed(Run(items, calls))
    decreases |calls|
  {
    if calls != [] {
      match calls[0] {
        case Add(id, readOk, writeOk) => AddKeepsWellFormed(items, id, readOk, writeOk);
        case Remove(id, readOk, writeOk) => RemoveKeepsWellFormed(items, id, readOk, writeOk);
      }
      RunKeepsWellFormed(Apply(items, calls[0]), calls[1..]);
    }
  }

  /** When every read and write succeeds, `isFavorite(x)` after the calls is
      what the last add or remove of `x` made it, for every id `x`. */
  lemma {:induction false} RunMembership(items: Items, calls: seq<Call>, x: int)
    requires GetFavorites(items, true).List?
    requires AllSucceed(calls)
    ensures IsFavorite(Run(items, calls), x, true) ==
            Ok(Favorited(IsFavorite(items, x, true).value, calls, x))
    decreases |calls|
  {
    if calls != [] {
      var next := Apply(items, calls[0]);
      match calls[0] {
        case Add(id, _, _) =>
          if id in GetFavorites(items, true).ids {
            AddPresentWritesNothing(items, id, true, true);
          } else {
            AddAppends(items, id, true);
          }
        case Remove(id, _, _) => RemoveFilters(items, id, true);
      }
      assert IsFavorite(next, x, true) ==
             Ok(if calls[0].id == x then calls[0].Add? else IsFavorite(items, x, true).value);
      assert AllSucceed(calls[1..]) by {
        forall i | 0 <= i < |calls| - 1 ensures calls[1..][i].readOk && calls[1..][i].writeOk {
          assert calls[1..][i] == calls[i + 1];
        }
      }
      RunMembership(next, calls[1..], x);
    }
  }

  /** The calls that add `ids` one by one, every read and write succeeding. */
  function AddAll(ids: seq<int>): (calls: seq<Call>)
    ensures |calls| == |ids| && AllSucceed(calls)
    ensures forall i :: 0 <= i < |ids| ==> calls[i] == Add(ids[i], true, true)
  {
    if ids == [] then [] else [Add(ids[0], true, true)] + AddAll(ids[1..])
  }

  /** Running `a` and then `b` is running `a + b`. */
  lemma {:induction false} RunAppend(items: Items, a: seq<Call>, b: seq<Call>)
    ensures Run(items, a + b) == Run(Run(items, a), b)
    decreases |a|
  {
    if a != [] {
      assert (a + b)[0] == a[0] && (a + b)[1..] == a[1..] + b;
      RunAppend(Apply(items, a[0]), a[1..], b);
    } else {
      assert a + b == b;
    }
  }

  /** Adding ids one by one to a store that was never written, then reading
      it back, gives each id once, in the order of its first addition. */
  lemma {:induction false} AddAllRoundTrip(ids: seq<int>)
    ensures GetFavorites(Run(map[], AddAll(ids)), true) == List(FirstOccurrences(ids))
    decreases |ids|
  {
    if ids != [] {
      var init, last := ids[..|ids| - 1], ids[|ids| - 1];
      assert ids == init + [last];
      assert AddAll(ids) == AddAll(init) + [Add(last, true, true)];
      AddAllRoundTrip(init);
      RunAppend(map[], AddAll(init), [Add(last, true, true)]);
      var before := Run(map[], AddAll(init));
      assert Run(map[], AddAll(ids)) == AddEffect(before, last, true, true);
      if last !in init {
        AddAppends(before, last, true);
      }
    }
  }
}
