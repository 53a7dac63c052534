/**
 * The filter loop of `get_trending_gguf_models`: over the model ids the hub
 * returned (most downloaded first), keep those that name one of the wanted
 * categories and, when only small models are wanted, that look small by
 * name; stop once `max_models` ids are kept.
 */
module TrendingFilter {
  import opened Text
  import opened Seqs

  /** Size markers that rule a model out when only small models are wanted. */
  const LargeMarkers: seq<string> := ["70b", "30b", "40b", "65b", "13b"]

  /** Size markers one of which a small model must carry. */
  const SmallMarkers: seq<string> := ["1b", "2b", "3b", "5b", "7b", "8b"]

  /** `any(cat.lower() in id for cat in categories)` on an already lower-cased `id`. */
  predicate AnyCategoryIn(lowerId: string, categories: seq<string>)
    decreases |categories|
  {
    |categories| > 0 && (Contains(lowerId, Lower(categories[0])) || AnyCategoryIn(lowerId, categories[1..]))
  }

  /**
   * `any(cat.lower() in model.id.lower() for cat in categories)`, skipped
   * (everything matches) when no categories are given: `None` and the empty
   * list are both falsy.
   */
  predicate MatchesCategory(id: string, categories: seq<string>) {
    |categories| == 0 || AnyCategoryIn(Lower(id), categories)
  }

  /** With categories given, an id matches exactly when one of them occurs in it, ignoring case. */
  lemma {:induction false} MatchesCategoryIff(id: string, categories: seq<string>)
    requires |categories| > 0
    ensures MatchesCategory(id, categories) <==>
      exists k | 0 <= k < |categories| :: Contains(Lower(id), Lower(categories[k]))
  {
    AnyCategoryIff(Lower(id), categories);
  }

  lemma {:induction false} AnyCategoryIff(lowerId: string, categories: seq<string>)
    ensures AnyCategoryIn(lowerId, categories) <==>
      exists k | 0 <= k < |categories| :: Contains(lowerId, Lower(categories[k]))
    decreases |categories|
  {
    if |categories| > 0 {
      AnyCategoryIff(lowerId, categories[1..]);
      assert forall k | 1 <= k < |categories| :: categories[k] == categories[1..][k - 1];
      if exists k | 0 <= k < |categories| :: Contains(lowerId, Lower(categories[k])) {
        var k :| 0 <= k < |categories| && Contains(lowerId, Lower(categories[k]));
        assert k == 0 || Contains(lowerId, Lower(categories[1..][k - 1]));
      }
    }
  }

  /** An empty category string occurs in every id, so it lets every id through. */
  lemma EmptyCategoryMatchesAll(id: string, categories: seq<string>, k: int)
    requires 0 <= k < |categories| && categories[k] == ""
    ensures MatchesCategory(id, categories)
  {
    MatchesCategoryIff(id, categories);
    assert Lower(categories[k]) == "";
    assert IsPrefix("", Lower(id));
  }

  /** No large marker and at least one small marker in the lower-cased id. */
  predicate LooksSmall(id: string) {
    !ContainsAny(Lower(id), LargeMarkers) && ContainsAny(Lower(id), SmallMarkers)
  }

  /** An id looks small exactly when no large marker and some small marker occurs in it, ignoring case. */
  lemma LooksSmallIff(id: string)
    ensures LooksSmall(id) <==>
      && (forall k | 0 <= k < |LargeMarkers| :: !Contains(Lower(id), LargeMarkers[k]))
      && (exists k | 0 <= k < |SmallMarkers| :: Contains(Lower(id), SmallMarkers[k]))
  {
    ContainsAnyIff(Lower(id), LargeMarkers);
    ContainsAnyIff(Lower(id), SmallMarkers);
  }

  /** An id survives both `continue` tests of the loop. */
  predicate Keep(id: string, smallOnly: bool, categories: seq<string>) {
    MatchesCategory(id, categories) && (smallOnly ==> LooksSmall(id))
  }

  function Keeper(smallOnly: bool, categories: seq<string>): string -> bool {
    id => Keep(id, smallOnly, categories)
  }

  /**
   * The number of ids the loop can keep: the cap test runs after the append,
   * so even a `max_models` of zero or less lets one id through.
   */
  function Cap(maxModels: int): (n: nat)
    ensures n >= 1
    ensures maxModels >= 1 ==> n == maxModels
    ensures maxModels < 1 ==> n == 1
  {
    if maxModels >= 1 then maxModels else 1
  }

  /** Reference definition: every id that passes the tests, cut to the cap. */
  function Trending(ids: seq<string>, maxModels: int, smallOnly: bool, categories: seq<string>): seq<string> {
    var all := Filter(ids, Keeper(smallOnly, categories));
    if |all| <= Cap(maxModels) then all else all[..Cap(maxModels)]
  }

  /**
   * The reference list is an order-preserving subsequence of the input,
   * every member of which passes both tests, and no longer than the cap.
   */
  lemma TrendingSound(ids: seq<string>, maxModels: int, smallOnly: bool, categories: seq<string>)
    ensures IsSubsequence(Trending(ids, maxModels, smallOnly, categories), ids)
    ensures forall k | 0 <= k < |Trending(ids, maxModels, smallOnly, categories)| ::
      Keep(Trending(ids, maxModels, smallOnly, categories)[k], smallOnly, categories)
    ensures |Trending(ids, maxModels, smallOnly, categories)| <= Cap(maxModels)
  {
    var all := Filter(ids, Keeper(smallOnly, categories));
    var t := Trending(ids, maxModels, smallOnly, categories);
    FilterIsSubsequence(ids, Keeper(smallOnly, categories));
    PrefixOfSubsequence(all, ids, |t|);
    assert t == all[..|t|];
    forall k | 0 <= k < |t| ensures Keep(t[k], smallOnly, categories) {
      assert t[k] in all;
    }
  }

  /** Nothing that passes the tests is left out unless the cap is full. */
  lemma TrendingComplete(ids: seq<string>, maxModels: int, smallOnly: bool, categories: seq<string>)
    ensures || |Trending(ids, maxModels, smallOnly, categories)| == Cap(maxModels)
            || forall id | id in ids && Keep(id, smallOnly, categories) :: id in Trending(ids, maxModels, smallOnly, categories)
  {
    var keep := Keeper(smallOnly, categories);
    assert forall id | id in ids && Keep(id, smallOnly, categories) :: keep(id);
  }

  /** Once the ids kept from a prefix fill the cap, the rest of the input does not matter. */
  lemma CapReached(ids: seq<string>, n: nat, maxModels: int, smallOnly: bool, categories: seq<string>)
    requires n <= |ids|
    requires |Filter(ids[..n], Keeper(smallOnly, categories))| == Cap(maxModels)
    ensures Trending(ids, maxModels, smallOnly, categories) == Filter(ids[..n], Keeper(smallOnly, categories))
  {
    var keep := Keeper(smallOnly, categories);
    FilterAppend(ids[..n], ids[n..], keep);
    assert ids[..n] + ids[n..] == ids;
    var a := Filter(ids[..n], keep);
    assert (a + Filter(ids[n..], keep))[..|a|] == a;
  }

  /**
   * The loop itself, appending an id and then breaking once `max_models`
   * ids are kept: it computes the reference list, so `TrendingSound`
   * describes its result.
   */
  method SelectTrending(ids: seq<string>, maxModels: int, smallOnly: bool, categories: seq<string>)
    returns (selected: seq<string>)
    ensures selected == Trending(ids, maxModels, smallOnly, categories)
  {
    var keep := Keeper(smallOnly, categories);
    selected := [];
    var i := 0;
    while i < |ids|
      invariant 0 <= i <= |ids|
      invariant selected == Filter(ids[..i], keep)
      invariant |selected| < Cap(maxModels)
    {
      FilterSnoc(ids, i, keep);
      if keep(ids[i]) {
        selected := selected + [ids[i]];
        if |selected| >= maxModels {
          CapReached(ids, i + 1, maxModels, smallOnly, categories);
          break;
        }
      }
      i := i + 1;
    }
    assert i == |ids| ==> ids[..i] == ids;
  }
}
