/** The catalog as a list of gifts and the pure transformations the
    handlers apply to it: the per-element maps of claim, edit and reset,
    the filters of delete and of the catalog view, the append of a new
    gift, and the lookup of a gift by id. */
module Catalog {
  import opened Gifts

  /** Every gift in the list satisfies the record invariant. */
  predicate AllConsistent(gs: seq<Gift>) {
    forall i :: 0 <= i < |gs| ==> Consistent(gs[i])
  }

  /** No two positions of the list carry the same id. */
  predicate UniqueIds(gs: seq<Gift>) {
    forall i, j :: 0 <= i < |gs| && 0 <= j < |gs| && i != j ==> gs[i].id != gs[j].id
  }

  /** The two lists carry the same ids at the same positions. */
  predicate SameIds(a: seq<Gift>, b: seq<Gift>) {
    |a| == |b| && forall i :: 0 <= i < |a| ==> a[i].id == b[i].id
  }

  // ---------------------------------------------------------------------
  // Array.prototype.map and Array.prototype.filter

  /** `s.map(f)`. */
  function MapSeq<T>(f: T -> T, s: seq<T>): (r: seq<T>)
    ensures |r| == |s|
    ensures forall i :: 0 <= i < |s| ==> r[i] == f(s[i])
  {
    if s == [] then [] else [f(s[0])] + MapSeq(f, s[1..])
  }

  /** `s.filter(p)`: the elements satisfying `p`, in their order; exactly
      those, each as often as in `s` (FilterCounts), and fewer than `s` when
      some element fails `p` (FilterShrinks). */
  function Filter<T>(p: T -> bool, s: seq<T>): (r: seq<T>)
    ensures |r| <= |s|
    ensures forall i :: 0 <= i < |r| ==> p(r[i])
  {
    if s == [] then []
    else
      var rest := Filter(p, s[1..]);
      if p(s[0]) then [s[0]] + rest else rest
  }

  lemma {:induction false} FilterCounts<T(!new)>(p: T -> bool, s: seq<T>)
    ensures forall x :: multiset(Filter(p, s))[x] == if p(x) then multiset(s)[x] else 0
  {
    if s != [] {
      assert s == [s[0]] + s[1..];
      FilterCounts(p, s[1..]);
    }
  }

  /** Every kept element comes from `s`. */
  lemma FilterMembers<T(!new)>(p: T -> bool, s: seq<T>)
    ensures forall i :: 0 <= i < |Filter(p, s)| ==> Filter(p, s)[i] in s
  {
    FilterCounts(p, s);
    var r := Filter(p, s);
    forall i | 0 <= i < |r| ensures r[i] in s {
      assert multiset(r)[r[i]] > 0;
    }
  }

  lemma {:induction false} FilterShrinks<T>(p: T -> bool, s: seq<T>)
    ensures (exists i :: 0 <= i < |s| && !p(s[i])) ==> |Filter(p, s)| < |s|
  {
    if exists i :: 0 <= i < |s| && !p(s[i]) {
      var i :| 0 <= i < |s| && !p(s[i]);
      if i > 0 {
        assert s[1..][i - 1] == s[i];
        FilterShrinks(p, s[1..]);
      }
    }
  }

  /** Filtering commutes with concatenation, so the kept elements stay in
      their original relative order. */
  lemma {:induction false} FilterAppend<T(!new)>(p: T -> bool, a: seq<T>, b: seq<T>)
    ensures Filter(p, a + b) == Filter(p, a) + Filter(p, b)
  {
    if a == [] {
      assert a + b == b;
    } else {
      assert (a + b)[0] == a[0];
      assert (a + b)[1..] == a[1..] + b;
      FilterAppend(p, a[1..], b);
    }
  }

  /** Filtering a list with unique ids keeps the ids unique. */
  lemma {:induction false} FilterKeepsUniqueIds(p: Gift -> bool, gs: seq<Gift>)
    ensures UniqueIds(gs) ==> UniqueIds(Filter(p, gs))
  {
    if gs != [] && UniqueIds(gs) {
      var tail := gs[1..];
      assert UniqueIds(tail) by {
        forall i, j | 0 <= i < |tail| && 0 <= j < |tail| && i != j
          ensures tail[i].id != tail[j].id
        {
          assert tail[i] == gs[i + 1] && tail[j] == gs[j + 1];
        }
      }
      FilterKeepsUniqueIds(p, tail);
      FilterMembers(p, tail);
      var rest := Filter(p, tail);
      if p(gs[0]) {
        forall k | 0 <= k < |rest| ensures rest[k].id != gs[0].id {
          var m :| 0 <= m < |tail| && tail[m] == rest[k];
          assert gs[m + 1] == rest[k];
        }
        ConsKeepsUniqueIds(gs[0], rest);
      }
    }
  }

  lemma ConsKeepsUniqueIds(g: Gift, rest: seq<Gift>)
    requires UniqueIds(rest)
    requires forall k :: 0 <= k < |rest| ==> rest[k].id != g.id
    ensures UniqueIds([g] + rest)
  {
    var r := [g] + rest;
    forall i, j | 0 <= i < |r| && 0 <= j < |r| && i != j ensures r[i].id != r[j].id {
      if i > 0 { assert r[i] == rest[i - 1]; }
      if j > 0 { assert r[j] == rest[j - 1]; }
    }
  }

  // ---------------------------------------------------------------------
  // The per-gift maps

  /** The in-memory claim (App.jsx `confirmPurchase`): the gifts with `id`
      that are still available become purchased by `name` at `now`; a gift
      with `id` that is already purchased, and every other gift, is left
      as it is. */
  function ClaimAll(gs: seq<Gift>, id: int, name: string, now: Timestamp): (r: seq<Gift>)
    ensures |r| == |gs| && SameIds(r, gs)
    ensures forall i :: 0 <= i < |gs| && gs[i].id == id && gs[i].status == Available ==>
      r[i].status == Purchased && r[i].purchasedAt == Some(now) && r[i].purchaserName == name &&
      SameListing(r[i], gs[i])
    ensures forall i :: 0 <= i < |gs| && (gs[i].id != id || gs[i].status == Purchased) ==> r[i] == gs[i]
    ensures AllConsistent(gs) ==> AllConsistent(r)
  {
    MapSeq((g: Gift) => if g.id == id && g.status == Available then Claimed(g, name, now) else g, gs)
  }

  /** The cache update after a confirmed store claim (main.jsx): every gift
      with `id` is marked purchased by `name` at `at`, whatever its status;
      every other gift is left as it is. */
  function MarkPurchased(gs: seq<Gift>, id: int, name: string, at: Timestamp): (r: seq<Gift>)
    ensures |r| == |gs| && SameIds(r, gs)
    ensures forall i :: 0 <= i < |gs| && gs[i].id == id ==>
      r[i].status == Purchased && r[i].purchasedAt == Some(at) && r[i].purchaserName == name &&
      SameListing(r[i], gs[i])
    ensures forall i :: 0 <= i < |gs| && gs[i].id != id ==> r[i] == gs[i]
    ensures AllConsistent(gs) ==> AllConsistent(r)
  {
    MapSeq((g: Gift) => if g.id == id then Claimed(g, name, at) else g, gs)
  }

  /** `updateGift`: the gifts with `id` take the edit; only the edited field
      changes, and every other gift is left as it is. */
  function UpdateAll(gs: seq<Gift>, id: int, e: Edit): (r: seq<Gift>)
    ensures |r| == |gs| && SameIds(r, gs)
    ensures forall i :: 0 <= i < |gs| && gs[i].id == id ==>
      Holds(r[i], e) && forall f :: f != EditedField(e) ==> SameField(r[i], gs[i], f)
    ensures forall i :: 0 <= i < |gs| && gs[i].id != id ==> r[i] == gs[i]
    ensures AllConsistent(gs) ==> AllConsistent(r)
  {
    MapSeq((g: Gift) => if g.id == id then ApplyEdit(g, e) else g, gs)
  }

  /** `resetGiftStatus`: the gifts with `id` become available with no
      purchase time and an empty purchaser; their listing and every other
      gift are left as they are. */
  function ResetAll(gs: seq<Gift>, id: int): (r: seq<Gift>)
    ensures |r| == |gs| && SameIds(r, gs)
    ensures forall i :: 0 <= i < |gs| && gs[i].id == id ==>
      r[i].status == Available && r[i].purchasedAt == None && r[i].purchaserName == "" &&
      SameListing(r[i], gs[i])
    ensures forall i :: 0 <= i < |gs| && gs[i].id != id ==> r[i] == gs[i]
    ensures AllConsistent(gs) ==> AllConsistent(r)
  {
    MapSeq((g: Gift) => if g.id == id then Cleared(g) else g, gs)
  }

  /** Equal ids at equal positions keep a list's ids unique. */
  lemma SameIdsKeepUnique(a: seq<Gift>, b: seq<Gift>)
    requires SameIds(a, b) && UniqueIds(b)
    ensures UniqueIds(a)
  {
  }

  // ---------------------------------------------------------------------
  // Delete

  /** `deleteGift`: exactly the gifts with `id` are removed; every other gift
      is kept as often as before, in its original order (RemoveAppend). */
  function Remove(gs: seq<Gift>, id: int): (r: seq<Gift>)
    ensures forall i :: 0 <= i < |r| ==> r[i].id != id && r[i] in gs
    ensures forall g :: multiset(r)[g] == if g.id == id then 0 else multiset(gs)[g]
    ensures (exists i :: 0 <= i < |gs| && gs[i].id == id) ==> |r| < |gs|
    ensures AllConsistent(gs) ==> AllConsistent(r)
    ensures UniqueIds(gs) ==> UniqueIds(r)
  {
    var keep := (g: Gift) => g.id != id;
    FilterCounts(keep, gs);
    FilterMembers(keep, gs);
    FilterShrinks(keep, gs);
    FilterKeepsUniqueIds(keep, gs);
    Filter(keep, gs)
  }

  lemma RemoveAppend(a: seq<Gift>, b: seq<Gift>, id: int)
    ensures Remove(a + b, id) == Remove(a, id) + Remove(b, id)
  {
    FilterAppend((g: Gift) => g.id != id, a, b);
  }

  // ---------------------------------------------------------------------
  // The catalog view

  predicate IsAvailable(g: Gift) { g.status == Available }
  predicate IsPurchased(g: Gift) { g.status == Purchased }

  /** The list `renderGifts` shows for the `filter` state: the available
      gifts for "available", the purchased ones for "purchased", and the
      whole list for any other value. */
  function View(gs: seq<Gift>, filter: string): (r: seq<Gift>)
    ensures filter == "available" ==>
      forall g :: multiset(r)[g] == if g.status == Available then multiset(gs)[g] else 0
    ensures filter == "purchased" ==>
      forall g :: multiset(r)[g] == if g.status == Purchased then multiset(gs)[g] else 0
    ensures filter != "available" && filter != "purchased" ==> r == gs
  {
    FilterCounts(IsAvailable, gs);
    FilterCounts(IsPurchased, gs);
    if filter == "available" then Filter(IsAvailable, gs)
    else if filter == "purchased" then Filter(IsPurchased, gs)
    else gs
  }

  /** The view keeps the catalog's order. */
  lemma ViewAppend(a: seq<Gift>, b: seq<Gift>, filter: string)
    ensures View(a + b, filter) == View(a, filter) + View(b, filter)
  {
    FilterAppend(IsAvailable, a, b);
    FilterAppend(IsPurchased, a, b);
  }

  /** Every gift is shown by exactly one of the two status views. */
  lemma ViewPartition(gs: seq<Gift>)
    ensures |View(gs, "available")| + |View(gs, "purchased")| == |gs|
  {
    StatusPartition(gs);
  }

  lemma {:induction false} StatusPartition(gs: seq<Gift>)
    ensures |Filter(IsAvailable, gs)| + |Filter(IsPurchased, gs)| == |gs|
  {
    if gs != [] {
      StatusPartition(gs[1..]);
    }
  }

  // ---------------------------------------------------------------------
  // Lookup and new ids

  /** `gifts.find(g => g.id === id)`: the first gift with that id, if any. */
  function Find(gs: seq<Gift>, id: int): (r: Option<Gift>)
    ensures r.None? <==> forall i :: 0 <= i < |gs| ==> gs[i].id != id
    ensures r.Some? ==> r.value.id == id
    ensures r.Some? ==>
      exists i :: 0 <= i < |gs| && gs[i] == r.value && (forall j :: 0 <= j < i ==> gs[j].id != id)
  {
    if gs == [] then None
    else if gs[0].id == id then Some(gs[0])
    else
      var r := Find(gs[1..], id);
      assert r.Some? ==>
        exists i :: 0 <= i < |gs| && gs[i] == r.value && (forall j :: 0 <= j < i ==> gs[j].id != id) by {
        if r.Some? {
          var k :| 0 <= k < |gs[1..]| && gs[1..][k] == r.value &&
            (forall j :: 0 <= j < k ==> gs[1..][j].id != id);
          assert gs[k + 1] == r.value;
          forall j | 0 <= j < k + 1 ensures gs[j].id != id {
            if j > 0 { assert gs[j] == gs[1..][j - 1]; }
          }
        }
      }
      r
  }

  /** The largest id of a non-empty list. */
  function MaxId(gs: seq<Gift>): (m: int)
    requires gs != []
    ensures forall i :: 0 <= i < |gs| ==> gs[i].id <= m
    ensures exists i :: 0 <= i < |gs| && gs[i].id == m
  {
    if |gs| == 1 then gs[0].id
    else
      var rest := MaxId(gs[1..]);
      assert exists i :: 1 <= i < |gs| && gs[i].id == rest by {
        var k :| 0 <= k < |gs[1..]| && gs[1..][k].id == rest;
        assert gs[k + 1].id == rest;
      }
      if gs[0].id >= rest then gs[0].id else rest
  }

  /** The id `addNewGift` gives a new gift: one more than the largest id,
      and 1 for an empty catalog (see JsNextId for the source's value
      there). It exceeds every id in the list. */
  function NextId(gs: seq<Gift>): (r: int)
    ensures forall i :: 0 <= i < |gs| ==> gs[i].id < r
    ensures gs != [] ==> exists i :: 0 <= i < |gs| && gs[i].id == r - 1
    ensures gs == [] ==> r == 1
  {
    if gs == [] then 1 else MaxId(gs) + 1
  }

  /** A list numbered 1, 2, ..., n in order gets n + 1 as its next id. */
  lemma NumberedNextId(gs: seq<Gift>)
    requires forall i :: 0 <= i < |gs| ==> gs[i].id == i + 1
    ensures NextId(gs) == |gs| + 1
  {
    if gs != [] {
      assert gs[|gs| - 1].id == |gs|;
    }
  }

  /** `addNewGift`: the list with one blank gift appended under a fresh id. */
  function AddBlank(gs: seq<Gift>): (r: seq<Gift>)
    ensures |r| == |gs| + 1 && r[..|gs|] == gs
    ensures r[|gs|] == BlankGift(NextId(gs))
    ensures forall i :: 0 <= i < |gs| ==> gs[i].id < r[|gs|].id
    ensures AllConsistent(gs) ==> AllConsistent(r)
    ensures UniqueIds(gs) ==> UniqueIds(r)
  {
    var r := gs + [BlankGift(NextId(gs))];
    assert r[..|gs|] == gs;
    r
  }

  // ---------------------------------------------------------------------
  // `Math.max(...ids) + 1` as JavaScript evaluates it

  /** The JavaScript numbers that `Math.max` can produce from integer ids. */
  datatype JsNumber = NegInfinity | Finite(n: int)

  /** `Math.max(...xs)`: `-Infinity` for no arguments. */
  function JsMax(xs: seq<JsNumber>): (r: JsNumber)
    ensures r == NegInfinity <==> forall i :: 0 <= i < |xs| ==> xs[i] == NegInfinity
    ensures r.Finite? ==> exists i :: 0 <= i < |xs| && xs[i] == r
    ensures r.Finite? ==> forall i :: 0 <= i < |xs| && xs[i].Finite? ==> xs[i].n <= r.n
  {
    if xs == [] then NegInfinity
    else
      var m := JsMax(xs[1..]);
      match (xs[0], m)
      case (NegInfinity, _) => m
      case (_, NegInfinity) => xs[0]
      case (Finite(a), Finite(b)) => Finite(if a >= b then a else b)
  }

  /** `x + 1`, where `-Infinity + 1` is `-Infinity`. */
  function JsIncrement(x: JsNumber): (r: JsNumber)
    ensures r.Finite? <==> x.Finite?
    ensures x.Finite? ==> r.n - x.n == 1
  {
    match x
    case NegInfinity => NegInfinity
    case Finite(n) => Finite(n + 1)
  }

  /** The id as the source computes it from the ids of the list. */
  function JsNextId(ids: seq<JsNumber>): (r: JsNumber)
    ensures r == NegInfinity <==> forall i :: 0 <= i < |ids| ==> ids[i] == NegInfinity
    ensures r.Finite? ==> forall i :: 0 <= i < |ids| && ids[i].Finite? ==> ids[i].n < r.n
    ensures r.Finite? ==> exists i :: 0 <= i < |ids| && ids[i] == Finite(r.n - 1)
  {
    JsIncrement(JsMax(ids))
  }

  function JsIds(gs: seq<Gift>): (r: seq<JsNumber>)
    ensures |r| == |gs| && forall i :: 0 <= i < |gs| ==> r[i] == Finite(gs[i].id)
  {
    if gs == [] then [] else [Finite(gs[0].id)] + JsIds(gs[1..])
  }

  /** The source's id agrees with NextId on every non-empty catalog. */
  lemma {:induction false} JsNextIdAgrees(gs: seq<Gift>)
    requires gs != []
    ensures JsNextId(JsIds(gs)) == Finite(NextId(gs))
  {
    JsMaxIsMaxId(gs);
  }

  lemma {:induction false} JsMaxIsMaxId(gs: seq<Gift>)
    requires gs != []
    ensures JsMax(JsIds(gs)) == Finite(MaxId(gs))
  {
    assert JsIds(gs)[1..] == JsIds(gs[1..]);
    if |gs| > 1 {
      JsMaxIsMaxId(gs[1..]);
    } else {
      assert JsIds(gs[1..]) == [];
    }
  }

  /** On an empty catalog the source's id is `-Infinity`, and the next
      addition computes `-Infinity` again: two gifts share one id. */
  lemma JsNextIdRepeatsAfterEmpty()
    ensures JsNextId([]) == NegInfinity
    ensures JsNextId([JsNextId([])]) == JsNextId([])
  {
  }

  // ---------------------------------------------------------------------
  // Properties relating several operations

  /** A second claim on the same id without a reset in between changes
      nothing: between resets, only the first claim takes effect. */
  lemma ClaimTwiceIsClaimOnce(gs: seq<Gift>, id: int, n1: string, t1: Timestamp, n2: string, t2: Timestamp)
    ensures ClaimAll(ClaimAll(gs, id, n1, t1), id, n2, t2) == ClaimAll(gs, id, n1, t1)
  {
  }

  /** Claiming a gift that is already purchased leaves the list unchanged. */
  lemma ClaimPurchasedIsNoop(gs: seq<Gift>, id: int, name: string, now: Timestamp)
    requires forall i :: 0 <= i < |gs| && gs[i].id == id ==> gs[i].status == Purchased
    ensures ClaimAll(gs, id, name, now) == gs
  {
  }

  /** After a reset, a claim on the same id succeeds again. */
  lemma ResetThenClaim(gs: seq<Gift>, id: int, name: string, now: Timestamp)
    ensures var r := ClaimAll(ResetAll(gs, id), id, name, now);
      forall i :: 0 <= i < |gs| && gs[i].id == id ==>
        r[i].status == Purchased && r[i].purchasedAt == Some(now) && r[i].purchaserName == name
  {
  }
}
