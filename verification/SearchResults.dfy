/**
 * The rest of the search query (packages/db/src/search.ts:179-255): the cap per teaching, the final
 * order, the page, and the rows read back beside each hit.
 */
module SearchResults {
  import opened Runs
  import opened Ordering
  import opened Search

  /** The teaching each candidate belongs to. */
  type Teachings = map<nat, nat>

  ghost predicate SameTeaching(teachings: Teachings, a: nat, b: nat) {
    a in teachings && b in teachings && teachings[a] == teachings[b]
  }

  /** `row_number() over (partition by recording_id order by ...)`, less one. */
  ghost function AheadInTeaching(arms: Arms, teachings: Teachings, id: nat): set<nat> {
    set other | other in Fused(arms) && SameTeaching(teachings, other, id) && InOrder(arms)(other, id)
  }

  ghost function KeptIds(arms: Arms, teachings: Teachings, cap: Option<nat>): set<nat> {
    set id | id in Fused(arms) && (cap.None? || |AheadInTeaching(arms, teachings, id)| + 1 <= cap.value)
  }

  /** The whole answer, before the page is cut. */
  ghost function Listing(arms: Arms, teachings: Teachings, cap: Option<nat>): seq<nat> {
    InOrderIsTotal(arms, KeptIds(arms, teachings, cap));
    Sorted(InOrder(arms), KeptIds(arms, teachings, cap))
  }

  // -------------------------------------------------------------------------------------------
  // The cap
  // -------------------------------------------------------------------------------------------

  /** The elements of `keep`, in the order they have in `xs`. */
  function Only(xs: seq<nat>, keep: set<nat>): seq<nat> {
    if xs == [] then []
    else (if xs[0] in keep then [xs[0]] else []) + Only(xs[1..], keep)
  }

  lemma {:induction false} OnlyElements(xs: seq<nat>, keep: set<nat>)
    ensures Elements(Only(xs, keep)) == Elements(xs) * keep
  {
    if xs != [] {
      OnlyElements(xs[1..], keep);
      var rest := Only(xs[1..], keep);
      assert xs == [xs[0]] + xs[1..];
      assert Elements(xs) == Elements(xs[1..]) + {xs[0]};
      assert Elements([xs[0]] + rest) == Elements(rest) + {xs[0]};
      assert [] + rest == rest;
    }
  }

  lemma {:induction false} OnlyAscends(less: (nat, nat) -> bool, xs: seq<nat>, keep: set<nat>)
    requires Ascending(less, xs)
    ensures Ascending(less, Only(xs, keep))
  {
    if xs != [] {
      OnlyAscends(less, xs[1..], keep);
      OnlyElements(xs[1..], keep);
      var rest := Only(xs[1..], keep);
      forall j | 0 <= j < |rest|
        ensures less(xs[0], rest[j])
      {
        assert rest[j] in Elements(rest) && rest[j] in Elements(xs[1..]);
        var i :| 0 <= i < |xs[1..]| && xs[1..][i] == rest[j];
        assert less(xs[0], xs[i + 1]);
      }
    }
  }

  /** Leaving elements out of a sorted list is sorting what is left. */
  lemma OnlyIsSorted(less: (nat, nat) -> bool, all: set<nat>, keep: set<nat>)
    requires StrictTotal(less, all) && keep <= all
    ensures StrictTotal(less, keep) && Only(Sorted(less, all), keep) == Sorted(less, keep)
  {
    OnlyElements(Sorted(less, all), keep);
    OnlyAscends(less, Sorted(less, all), keep);
    assert all * keep == keep;
    AscendingIsUnique(less, Only(Sorted(less, all), keep), Sorted(less, keep));
  }

  lemma ListingElements(arms: Arms, teachings: Teachings, cap: Option<nat>)
    ensures var ids := Listing(arms, teachings, cap);
            && Elements(ids) == KeptIds(arms, teachings, cap) && Ascending(InOrder(arms), ids)
            && (forall id :: id in ids <==> id in KeptIds(arms, teachings, cap))
    ensures KeptIds(arms, teachings, None) == Fused(arms)
  {
    InOrderIsTotal(arms, KeptIds(arms, teachings, cap));
    var ids := Listing(arms, teachings, cap);
    assert forall id :: id in ids <==> id in Elements(ids);
  }

  /** The rows that stand above a place in the list, and of its teaching: those ahead of it in its partition. */
  lemma AboveIsAhead(arms: Arms, teachings: Teachings, all: seq<nat>, k: nat)
    requires StrictTotal(InOrder(arms), Fused(arms)) && Elements(all) == Fused(arms) && Ascending(InOrder(arms), all) && k < |all|
    ensures (set id | id in all[..k] && SameTeaching(teachings, id, all[k])) == AheadInTeaching(arms, teachings, all[k])
  {
    RankIsPosition(InOrder(arms), all, k);
    hide StrictTotal, Ascending, Fused, SameTeaching;
    forall id
      ensures id in all[..k] <==> id in Fused(arms) && InOrder(arms)(id, all[k])
    {
      assert id in Elements(all[..k]) <==> id in Before(InOrder(arms), Elements(all), all[k]);
    }
  }

  /** A row of the uncapped list is kept exactly when fewer than the cap of its own teaching stand above it. */
  lemma CapKeepsTheFirstOfEachTeaching(arms: Arms, teachings: Teachings, cap: nat, k: nat)
    requires k < |Listing(arms, teachings, None)|
    ensures var all := Listing(arms, teachings, None);
            all[k] in Listing(arms, teachings, Some(cap)) <==>
            |set id | id in all[..k] && SameTeaching(teachings, id, all[k])| < cap
  {
    hide Listing, Fused, StrictTotal, Ascending, Elements, InOrder, AheadInTeaching;
    var all := Listing(arms, teachings, None);
    InOrderIsTotal(arms, Fused(arms));
    ListingElements(arms, teachings, None);
    ListingElements(arms, teachings, Some(cap));
    assert all[k] in all;
    AboveIsAhead(arms, teachings, all, k);
  }

  /** The capped list is the uncapped one with rows left out, and raising the cap only puts rows back. */
  lemma RaisingTheCapOnlyAdds(arms: Arms, teachings: Teachings, cap: nat, higher: Option<nat>)
    requires higher.None? || cap <= higher.value
    ensures KeptIds(arms, teachings, Some(cap)) <= KeptIds(arms, teachings, higher)
    ensures Listing(arms, teachings, Some(cap)) ==
            Only(Listing(arms, teachings, higher), KeptIds(arms, teachings, Some(cap)))
  {
    InOrderIsTotal(arms, KeptIds(arms, teachings, higher));
    hide AheadInTeaching, StrictTotal;
    assert KeptIds(arms, teachings, Some(cap)) <= KeptIds(arms, teachings, higher);
    hide KeptIds;
    OnlyIsSorted(InOrder(arms), KeptIds(arms, teachings, higher), KeptIds(arms, teachings, Some(cap)));
  }

  ghost function OfTeaching(ids: set<nat>, teachings: Teachings, recording: nat): set<nat> {
    set id | id in ids && id in teachings && teachings[id] == recording
  }

  /** Every teaching keeps its best `cap` rows, or all of them when it has no more than that. */
  lemma EachTeachingKeepsItsShare(arms: Arms, teachings: Teachings, cap: nat, recording: nat)
    ensures var all := OfTeaching(Fused(arms), teachings, recording);
            |OfTeaching(KeptIds(arms, teachings, Some(cap)), teachings, recording)| ==
            if |all| < cap then |all| else cap
  {
    var all := OfTeaching(Fused(arms), teachings, recording);
    var less := InOrder(arms);
    InOrderIsTotal(arms, all);
    var top := Top(less, all, cap);
    AscendingDistinct(less, Sorted(less, all));
    DistinctCount(top);
    hide StrictTotal, InOrder;
    forall id
      ensures id in Elements(top) <==> id in OfTeaching(KeptIds(arms, teachings, Some(cap)), teachings, recording)
    {
      TopOfASet(less, all, cap, id);
      if id in all {
        assert Before(less, all, id) == AheadInTeaching(arms, teachings, id);
      }
    }
    assert Elements(top) == OfTeaching(KeptIds(arms, teachings, Some(cap)), teachings, recording);
  }

  // -------------------------------------------------------------------------------------------
  // Pages
  // -------------------------------------------------------------------------------------------

  /** `offset ... limit ...`. */
  function Page<T>(xs: seq<T>, offset: nat, limit: nat): seq<T> {
    if offset >= |xs| then [] else Take(xs[offset..], limit)
  }

  lemma PageOfDistinct<T>(xs: seq<T>, offset: nat, limit: nat)
    ensures Elements(Page(xs, offset, limit)) <= Elements(xs)
    ensures Distinct(xs) ==> Distinct(Page(xs, offset, limit))
  {
    var page := Page(xs, offset, limit);
    assert forall k :: 0 <= k < |page| ==> page[k] == xs[offset + k];
  }

  /** The next `pages` pages from `offset` on, end to end. */
  function Walk<T>(xs: seq<T>, offset: nat, limit: nat, pages: nat): seq<T>
    decreases pages
  {
    if pages == 0 then [] else Page(xs, offset, limit) + Walk(xs, offset + limit, limit, pages - 1)
  }

  lemma PagesJoin<T>(xs: seq<T>, offset: nat, limit: nat, more: nat)
    ensures Page(xs, offset, limit) + Page(xs, offset + limit, more) == Page(xs, offset, limit + more)
  {
  }

  lemma {:induction false} WalkIsOnePage<T>(xs: seq<T>, offset: nat, limit: nat, pages: nat)
    ensures Walk(xs, offset, limit, pages) == Page(xs, offset, pages * limit)
    decreases pages
  {
    if pages > 0 {
      WalkIsOnePage(xs, offset + limit, limit, pages - 1);
      var more := (pages - 1) * limit;
      assert pages * limit == limit + more;
      PagesJoin(xs, offset, limit, more);
    }
  }

  /** Walking the pages gives the list once through, whatever the page size. */
  lemma PagesAreTheList<T>(xs: seq<T>, limit: nat, pages: nat)
    requires limit > 0 && pages >= |xs|
    ensures Walk(xs, 0, limit, pages) == xs
  {
    WalkIsOnePage(xs, 0, limit, pages);
    assert pages * limit >= pages;
  }
}
