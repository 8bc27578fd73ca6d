/**
 * Keyset paging of a member's notifications (packages/db/src/notifications.ts:376-406), over a
 * table that grows between the calls.
 */
module Notifications {
  import opened Runs
  import opened Ordering

  datatype Row = Row(user: nat, createdAt: int)

  type Table = map<nat, Row>

  /** `order by created_at desc, id desc`. */
  predicate Newer(table: Table, a: nat, b: nat) {
    a in table && b in table
    && (table[a].createdAt > table[b].createdAt || (table[a].createdAt == table[b].createdAt && a > b))
  }

  ghost function NewestFirst(table: Table): (nat, nat) -> bool {
    (a: nat, b: nat) => Newer(table, a, b)
  }

  function Mine(table: Table, user: nat): set<nat> {
    set id | id in table && table[id].user == user
  }

  /** The member's rows that follow the cursor row; all of them without a cursor. */
  function Following(table: Table, user: nat, before: Option<nat>): set<nat> {
    set id | id in Mine(table, user) && (before.None? || Newer(table, before.value, id))
  }

  lemma NewestFirstIsTotal(table: Table, ids: set<nat>)
    requires ids <= table.Keys
    ensures StrictTotal(NewestFirst(table), ids)
  {
  }

  /** One call. `None` refuses the cursor. */
  ghost function Page(table: Table, user: nat, limit: nat, before: Option<nat>): Option<seq<nat>> {
    if before.Some? && before.value !in Mine(table, user) then None
    else
      NewestFirstIsTotal(table, Following(table, user, before));
      Some(Top(NewestFirst(table), Following(table, user, before), limit))
  }

  /** The cursor is refused exactly when it is not one of the member's own rows. */
  lemma ForeignCursorsAreRefused(table: Table, user: nat, limit: nat, before: Option<nat>)
    ensures Page(table, user, limit, before).None? <==>
            before.Some? && !(before.value in table && table[before.value].user == user)
  {
  }

  /** A page holds the newest rows that follow, in order: what it leaves out comes after everything on it. */
  lemma PageIsTheNewest(table: Table, user: nat, limit: nat, before: Option<nat>)
    requires Page(table, user, limit, before).Some?
    ensures var page := Page(table, user, limit, before).value;
            && |page| <= limit && Elements(page) <= Following(table, user, before)
            && Ascending(NewestFirst(table), page)
            && (|page| < limit ==> Elements(page) == Following(table, user, before))
            && (forall id, other :: id in Following(table, user, before) && id !in page && other in page ==> Newer(table, other, id))
            // On the columns: the member's own rows, strictly older than the cursor, newest first by date and then id.
            && (forall id :: id in page ==> Follows(table, user, before, id))
            && (|page| < limit ==> forall id :: Follows(table, user, before, id) ==> id in page)
            && (forall i, j :: 0 <= i < j < |page| ==> IsLater(table, page[i], page[j]))
  {
    var less, all := NewestFirst(table), Following(table, user, before);
    NewestFirstIsTotal(table, all);
    var xs := Sorted(less, all);
    var page := Top(less, all, limit);
    assert forall id :: Follows(table, user, before, id) <==> id in all;
    assert forall id :: id in page <==> id in Elements(page);
    assert Elements(xs) == all && Ascending(less, xs);
    forall id, other | id in all && id !in page && other in page
      ensures Newer(table, other, id)
    {
      assert id in Elements(xs);
      var k :| 0 <= k < |xs| && xs[k] == id;
      var j :| 0 <= j < |page| && page[j] == other;
      TakeHas(xs, limit, k);
      assert less(xs[j], xs[k]);
    }
  }

  /** By date and, on the same date, by id. */
  ghost predicate IsLater(table: Table, a: nat, b: nat) {
    && a in table && b in table && table[a].createdAt >= table[b].createdAt
    && (table[a].createdAt == table[b].createdAt ==> a > b)
  }

  /** The member's own row, after the cursor when there is one. */
  ghost predicate Follows(table: Table, user: nat, before: Option<nat>, id: nat) {
    id in table && table[id].user == user && (before.Some? ==> IsLater(table, before.value, id))
  }

  // -------------------------------------------------------------------------------------------
  // Walking the pages
  // -------------------------------------------------------------------------------------------

  /** The later table has every row of the earlier one, as it was. */
  ghost predicate Extends(later: Table, earlier: Table) {
    forall id :: id in earlier ==> id in later && later[id] == earlier[id]
  }

  /** The table at each call; rows arrive between calls, at any place in the order, and none goes. */
  ghost predicate Grows(tables: seq<Table>) {
    forall i, j :: 0 <= i < j < |tables| ==> Extends(tables[j], tables[i])
  }

  /** The ids of the pages, end to end: each call from the last id of the one before, until a page is not full. */
  ghost function Walk(tables: seq<Table>, user: nat, limit: nat, before: Option<nat>): seq<nat>
    decreases |tables|
  {
    if tables == [] then []
    else
      match Page(tables[0], user, limit, before)
      case None => []
      case Some(page) =>
        if |page| < limit || page == [] then page
        else page + Walk(tables[1..], user, limit, Some(page[|page| - 1]))
  }

  /** Some call came back with fewer than `limit` rows. */
  ghost predicate Finishes(tables: seq<Table>, user: nat, limit: nat, before: Option<nat>)
    decreases |tables|
  {
    tables != [] &&
    match Page(tables[0], user, limit, before)
    case None => false
    case Some(page) => |page| < limit || (page != [] && Finishes(tables[1..], user, limit, Some(page[|page| - 1])))
  }

  lemma GrowsLater(tables: seq<Table>)
    requires Grows(tables) && tables != []
    ensures Grows(tables[1..]) && (|tables| > 1 ==> tables[1..][|tables| - 2] == tables[|tables| - 1])
    ensures Extends(tables[|tables| - 1], tables[0])
    ensures |tables| > 1 ==> tables[1..][0] == tables[1] && Extends(tables[1], tables[0])
  {
    assert forall i :: 0 <= i < |tables[1..]| ==> tables[1..][i] == tables[i + 1];
  }

  lemma NewerLater(table: Table, later: Table, a: nat, b: nat)
    requires Extends(later, table) && a in table && b in table
    ensures Newer(later, a, b) <==> Newer(table, a, b)
  {
  }

  lemma NewerIsTransitive(table: Table, a: nat, b: nat, c: nat)
    requires Newer(table, a, b) && Newer(table, b, c)
    ensures Newer(table, a, c) && !Newer(table, c, a) && !Newer(table, b, a)
  {
  }

  lemma LastIsOldest(table: Table, page: seq<nat>, id: nat)
    requires Ascending(NewestFirst(table), page) && id in page
    ensures id == page[|page| - 1] || Newer(table, id, page[|page| - 1])
  {
    var j :| 0 <= j < |page| && page[j] == id;
    assert j < |page| - 1 ==> NewestFirst(table)(page[j], page[|page| - 1]);
  }

  /** Following a row that follows the cursor is following the cursor. */
  lemma FollowingShrinks(table: Table, user: nat, before: Option<nat>, last: nat)
    requires last in Following(table, user, before)
    ensures Following(table, user, Some(last)) <= Following(table, user, before)
    ensures last !in Following(table, user, Some(last))
  {
    NotNewerThanItself(table, last);
    hide Newer;
    forall id | id in Following(table, user, Some(last))
      ensures id in Following(table, user, before)
    {
      if before.Some? {
        NewerIsTransitive(table, before.value, last, id);
      }
    }
  }

  lemma FollowingLater(table: Table, later: Table, user: nat, before: Option<nat>, id: nat)
    requires Extends(later, table) && id in Following(table, user, before) && (before.Some? ==> before.value in table)
    ensures id in Following(later, user, before)
  {
  }

  lemma MineLater(table: Table, later: Table, user: nat, id: nat)
    requires Extends(later, table) && id in Mine(table, user)
    ensures id in Mine(later, user) && id in table
  {
  }

  lemma PageOf(table: Table, user: nat, limit: nat, before: Option<nat>, page: seq<nat>)
    requires Page(table, user, limit, before) == Some(page) && page != []
    ensures before.Some? ==> before.value in Mine(table, user)
    ensures page[|page| - 1] in page && page[|page| - 1] in Following(table, user, before)
    ensures page[|page| - 1] in Mine(table, user)
    ensures forall id :: id in page ==> id in Following(table, user, before) && id in table
  {
    PageIsTheNewest(table, user, limit, before);
    forall id | id in page
      ensures id in Following(table, user, before)
    {
      assert id in Elements(page);
    }
  }

  /** A page's last row is the cursor of the rest: nothing that follows it is on the page, and nothing else is lost. */
  lemma CursorSplits(table: Table, later: Table, user: nat, limit: nat, before: Option<nat>)
    requires Page(table, user, limit, before).Some? && Page(table, user, limit, before).value != []
    requires Extends(later, table)
    ensures var page := Page(table, user, limit, before).value;
            var last := page[|page| - 1];
            && last in Mine(later, user) && (before.Some? ==> before.value in Mine(later, user))
            && last in Following(later, user, before) && last !in Following(later, user, Some(last))
            && (forall id :: id in Following(table, user, before) && id !in page ==> id in Following(later, user, Some(last)))
            && Following(later, user, Some(last)) <= Following(later, user, before)
            && (forall id, other :: id in page && other in Following(later, user, Some(last)) ==> Newer(later, id, other))
  {
    hide *;
    var page := Page(table, user, limit, before).value;
    var last := page[|page| - 1];
    PageIsTheNewest(table, user, limit, before);
    PageOf(table, user, limit, before, page);
    MineLater(table, later, user, last);
    if before.Some? {
      MineLater(table, later, user, before.value);
    }
    FollowingLater(table, later, user, before, last);
    FollowingShrinks(later, user, before, last);
    forall id | id in Following(table, user, before) && id !in page
      ensures id in Following(later, user, Some(last))
    {
      FollowsLast(table, later, user, before, last, id);
    }
    forall id, other | id in page && other in Following(later, user, Some(last))
      ensures Newer(later, id, other)
    {
      LastIsOldest(table, page, id);
      NewerLater(table, later, id, last);
      FollowsIsNewer(later, user, last, other);
      if id != last {
        NewerIsTransitive(later, id, last, other);
      }
    }
  }

  lemma FollowsLast(table: Table, later: Table, user: nat, before: Option<nat>, last: nat, id: nat)
    requires Extends(later, table) && id in Following(table, user, before) && Newer(table, last, id)
    ensures id in Following(later, user, Some(last))
  {
  }

  lemma FollowsIsNewer(table: Table, user: nat, last: nat, id: nat)
    requires id in Following(table, user, Some(last))
    ensures Newer(table, last, id)
  {
  }

  lemma NotNewerThanItself(table: Table, id: nat)
    ensures !Newer(table, id, id)
  {
  }

  lemma OwnCursor(table: Table, user: nat, limit: nat, before: Option<nat>)
    requires before.Some? ==> before.value in Mine(table, user)
    ensures Page(table, user, limit, before).Some? && |Page(table, user, limit, before).value| <= limit
  {
  }

  /** Every page's rows, in the order of the last table, strictly descending: nothing is listed twice. */
  lemma {:induction false} WalkDescends(tables: seq<Table>, user: nat, limit: nat, before: Option<nat>)
    requires Grows(tables) && tables != [] && (before.Some? ==> before.value in Mine(tables[0], user))
    ensures var end := tables[|tables| - 1];
            var ids := Walk(tables, user, limit, before);
            && Ascending(NewestFirst(end), ids) && Elements(ids) <= Following(end, user, before)
    decreases |tables|
  {
    hide Page, Following, NewestFirst, Newer, Mine, Extends, Grows, Ascending;
    var table, end := tables[0], tables[|tables| - 1];
    GrowsLater(tables);
    OwnCursor(table, user, limit, before);
    var page := Page(table, user, limit, before).value;
    PageDescendsLater(table, end, user, limit, before);
    if |page| == limit && page != [] {
      CursorSplits(table, end, user, limit, before);
      var last := page[|page| - 1];
      if |tables| > 1 {
        CursorSplits(table, tables[1], user, limit, before);
        WalkDescends(tables[1..], user, limit, Some(last));
        var rest := Walk(tables[1..], user, limit, Some(last));
        RestFollows(end, page, rest, Following(end, user, Some(last)));
        Joined(end, page, rest);
      } else {
        assert Walk(tables[1..], user, limit, Some(last)) == [];
        assert page + [] == page;
      }
    }
  }

  lemma RestFollows(table: Table, page: seq<nat>, rest: seq<nat>, following: set<nat>)
    requires Elements(rest) <= following
    requires forall id, other :: id in page && other in following ==> Newer(table, id, other)
    ensures forall id, other :: id in page && other in Elements(rest) ==> NewestFirst(table)(id, other)
  {
  }

  lemma AscendsLater(table: Table, later: Table, page: seq<nat>)
    requires Extends(later, table) && Ascending(NewestFirst(table), page)
    ensures Ascending(NewestFirst(later), page)
  {
    forall i, j | 0 <= i < j < |page|
      ensures Newer(later, page[i], page[j])
    {
      assert NewestFirst(table)(page[i], page[j]);
    }
  }

  lemma PageDescendsLater(table: Table, later: Table, user: nat, limit: nat, before: Option<nat>)
    requires Page(table, user, limit, before).Some? && Extends(later, table)
    ensures var page := Page(table, user, limit, before).value;
            Ascending(NewestFirst(later), page) && Elements(page) <= Following(later, user, before)
  {
    PageIsTheNewest(table, user, limit, before);
    var page := Page(table, user, limit, before).value;
    if page != [] {
      PageOf(table, user, limit, before, page);
    }
    if before.Some? && page != [] {
      MineLater(table, later, user, before.value);
    }
    AscendsLater(table, later, page);
    hide Page, NewestFirst, Newer, Following, Extends, Ascending;
    forall id | id in Elements(page)
      ensures id in Following(later, user, before)
    {
      FollowingLater(table, later, user, before, id) by {
        InOwnTable(table, user, before);
      }
    }
  }

  lemma InOwnTable(table: Table, user: nat, before: Option<nat>)
    requires before.Some? ==> before.value in Mine(table, user)
    ensures before.Some? ==> before.value in table
  {
  }

  lemma Joined(table: Table, page: seq<nat>, rest: seq<nat>)
    requires Ascending(NewestFirst(table), page) && Ascending(NewestFirst(table), rest)
    requires forall id, other :: id in page && other in Elements(rest) ==> NewestFirst(table)(id, other)
    ensures Ascending(NewestFirst(table), page + rest) && Elements(page + rest) == Elements(page) + Elements(rest)
  {
    hide NewestFirst;
    forall i, j | 0 <= i < j < |page + rest|
      ensures NewestFirst(table)((page + rest)[i], (page + rest)[j])
    {
      if i < |page| && j >= |page| {
        assert rest[j - |page|] in Elements(rest) && page[i] in page;
      }
    }
  }

  /** A walk that comes to an end has listed every row that was there when it began. */
  lemma {:induction false} NothingIsSkipped(tables: seq<Table>, user: nat, limit: nat, before: Option<nat>, id: nat)
    requires Grows(tables) && Finishes(tables, user, limit, before)
    requires id in Following(tables[0], user, before)
    ensures id in Walk(tables, user, limit, before)
    decreases |tables|
  {
    var table := tables[0];
    var page := Page(table, user, limit, before).value;
    PageIsTheNewest(table, user, limit, before);
    if |page| == limit && id !in page {
      assert tables[1..] != [];
      assert tables[1..][0] == tables[1];
      GrowsLater(tables);
      CursorSplits(table, tables[1], user, limit, before);
      hide Page, Following;
      NothingIsSkipped(tables[1..], user, limit, Some(page[|page| - 1]), id);
    } else if |page| < limit {
      assert id in Elements(page);
    }
  }

  /** With enough calls the walk ends, however many rows arrive while it goes on. */
  lemma {:induction false} EnoughCallsFinish(tables: seq<Table>, user: nat, limit: nat, before: Option<nat>)
    requires tables != [] && Grows(tables) && limit > 0 && (before.Some? ==> before.value in Mine(tables[0], user))
    requires |tables| > |Following(tables[|tables| - 1], user, before)|
    ensures Finishes(tables, user, limit, before)
    decreases |tables|
  {
    hide Page, Following, NewestFirst, Newer, Mine, Extends, Grows;
    var table, end := tables[0], tables[|tables| - 1];
    GrowsLater(tables);
    OwnCursor(table, user, limit, before);
    var page := Page(table, user, limit, before).value;
    if |page| == limit {
      var last := page[|page| - 1];
      CursorSplits(table, end, user, limit, before);
      Fewer(Following(end, user, Some(last)), Following(end, user, before), last);
      CursorSplits(table, tables[1], user, limit, before);
      EnoughCallsFinish(tables[1..], user, limit, Some(last));
    }
  }

  lemma Fewer(a: set<nat>, b: set<nat>, x: nat)
    requires a <= b && x in b && x !in a
    ensures |a| < |b|
  {
    assert b == a + (b - a);
    assert x in b - a;
  }

  /** Walked to the end, the pages give every row the member had at the start exactly once, newest first. */
  lemma EveryRowExactlyOnce(tables: seq<Table>, user: nat, limit: nat)
    requires Grows(tables) && tables != [] && limit > 0 && |tables| > |Mine(tables[|tables| - 1], user)|
    ensures var ids := Walk(tables, user, limit, None);
            var end := tables[|tables| - 1];
            && Mine(tables[0], user) <= Elements(ids) <= Mine(end, user)
            && Distinct(ids) && Ascending(NewestFirst(end), ids)
            && (forall id :: id in tables[0] && tables[0][id].user == user ==> id in ids)
            && (forall id :: id in ids ==> id in end && end[id].user == user)
            && (forall i, j :: 0 <= i < j < |ids| ==> IsLater(end, ids[i], ids[j]))
  {
    var end := tables[|tables| - 1];
    assert Following(end, user, None) == Mine(end, user) && Following(tables[0], user, None) == Mine(tables[0], user);
    EnoughCallsFinish(tables, user, limit, None);
    WalkDescends(tables, user, limit, None);
    forall id | id in Mine(tables[0], user)
      ensures id in Elements(Walk(tables, user, limit, None))
    {
      NothingIsSkipped(tables, user, limit, None, id);
    }
    NewestFirstIsTotal(end, Elements(Walk(tables, user, limit, None)));
    assert forall id :: id in Walk(tables, user, limit, None) <==> id in Elements(Walk(tables, user, limit, None));
    AscendingDistinct(NewestFirst(end), Walk(tables, user, limit, None));
  }
}
