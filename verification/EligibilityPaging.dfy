/**
 The keyset pages of the eligible roster (`eligibleCitizens` in
 apps/api-ts/src/jurisdiction/jurisdiction.service.ts) and a caller that follows their cursors.

 Citizen ids are UUIDs; only their order matters here, so they are numbers, and the all-zero UUID that
 stands for "no cursor" is 0. The roster is what the query's conditions select, in id order.
 */
module EligibilityPaging {
  import opened Wrappers

  const PAGE: nat := 500

  predicate Ascending(roster: seq<nat>) {
    forall i, j :: 0 <= i < j < |roster| ==> roster[i] < roster[j]
  }

  /** The ids greater than the cursor, in order. */
  function After(roster: seq<nat>, cursor: nat): seq<nat> {
    if roster == [] then []
    else (if roster[0] > cursor then [roster[0]] else []) + After(roster[1..], cursor)
  }

  datatype Page = Page(citizenIds: seq<nat>, nextCursor: Option<nat>)

  /** At most 501 rows are read; the 501st only tells that there is another page. */
  function EligiblePage(roster: seq<nat>, after: Option<nat>): Page {
    var all := After(roster, if after.Some? then after.value else 0);
    var rows := if |all| > PAGE + 1 then all[..PAGE + 1] else all;
    Page(if |rows| > PAGE then rows[..PAGE] else rows,
         if |rows| > PAGE then Some(rows[PAGE - 1]) else None)
  }

  lemma {:induction false} AfterIsATail(roster: seq<nat>, cursor: nat, k: nat)
    requires Ascending(roster) && k <= |roster|
    requires forall i :: 0 <= i < k ==> roster[i] <= cursor
    requires forall i :: k <= i < |roster| ==> roster[i] > cursor
    ensures After(roster, cursor) == roster[k..]
    decreases |roster|
  {
    if roster != [] {
      if k > 0 {
        AfterIsATail(roster[1..], cursor, k - 1);
      } else {
        AfterIsATail(roster[1..], cursor, 0);
      }
    }
  }

  /** When exactly the first k ids are at or before the cursor, its page is the next 500 after them. */
  lemma PageIsTheNextSlice(roster: seq<nat>, after: Option<nat>, k: nat)
    requires Ascending(roster) && k <= |roster|
    requires var cursor := if after.Some? then after.value else 0;
             && (forall i :: 0 <= i < k ==> roster[i] <= cursor)
             && (forall i :: k <= i < |roster| ==> roster[i] > cursor)
    ensures var page := EligiblePage(roster, after);
            if k + 500 < |roster| then
              page.citizenIds == roster[k..k + 500] && page.nextCursor == Some(roster[k + 499])
            else
              page.citizenIds == roster[k..] && page.nextCursor == None
  {
    AfterIsATail(roster, if after.Some? then after.value else 0, k);
    var all := roster[k..];
    if |all| > PAGE {
      assert all[..PAGE] == roster[k..k + PAGE];
      assert |all| > PAGE + 1 ==> all[..PAGE + 1][..PAGE] == all[..PAGE];
    }
  }

  /** The page after the first k citizens extends them, and has a cursor unless they are then all listed. */
  lemma OnePageMore(roster: seq<nat>, after: Option<nat>, k: nat)
    requires Ascending(roster) && 0 < k <= |roster| && after == Some(roster[k - 1])
    ensures var page := EligiblePage(roster, after);
            var listed := roster[..k] + page.citizenIds;
            && listed <= roster
            && (page.nextCursor.None? <==> listed == roster)
            && (page.nextCursor.Some? ==> |listed| == k + 500 && page.nextCursor.value == roster[k + 499])
  {
    PageIsTheNextSlice(roster, after, k);
    Joined(roster, k, if k + 500 < |roster| then k + 500 else |roster|);
  }

  lemma Joined(roster: seq<nat>, k: nat, m: nat)
    requires k <= m <= |roster|
    ensures roster[..k] + roster[k..m] == roster[..m]
    ensures roster[k..|roster|] == roster[k..] && roster[..|roster|] == roster
  {
  }

  /** Pages read one after another, each with the cursor the one before gave. */
  predicate Follows(roster: seq<nat>, pages: seq<Page>) {
    pages != [] ==>
      var front, last := pages[..|pages| - 1], pages[|pages| - 1];
      if front == [] then last == EligiblePage(roster, None)
      else
        && Follows(roster, front) && front[|front| - 1].nextCursor.Some?
        && last == EligiblePage(roster, front[|front| - 1].nextCursor)
  }

  function Listed(pages: seq<Page>): seq<nat> {
    if pages == [] then [] else Listed(pages[..|pages| - 1]) + pages[|pages| - 1].citizenIds
  }

  /**
   Following the cursors lists the roster from its beginning, 500 citizens a page, and there is no further
   cursor exactly when every eligible citizen has been listed, each of them once and in order.
   */
  lemma {:induction false} CursorsListEveryoneOnce(roster: seq<nat>, pages: seq<Page>)
    requires Ascending(roster) && forall i :: 0 <= i < |roster| ==> roster[i] > 0
    requires |pages| > 0 && Follows(roster, pages)
    ensures Listed(pages) <= roster
    ensures pages[|pages| - 1].nextCursor.None? <==> Listed(pages) == roster
    ensures pages[|pages| - 1].nextCursor.Some? ==>
              |Listed(pages)| == PAGE * |pages| && pages[|pages| - 1].nextCursor.value == roster[PAGE * |pages| - 1]
  {
    var front := pages[..|pages| - 1];
    if front == [] {
      assert Listed(front) == [];
      PageIsTheNextSlice(roster, None, 0);
    } else {
      CursorsListEveryoneOnce(roster, front);
      var k := PAGE * |front|;
      assert k <= |roster| && Listed(front) == roster[..k];
      assert roster[..k][k - 1] == roster[k - 1];
      OnePageMore(roster, front[|front| - 1].nextCursor, k);
    }
  }

  lemma {:induction false} AfterIsGreater(roster: seq<nat>, cursor: nat, i: nat)
    requires i < |After(roster, cursor)|
    ensures After(roster, cursor)[i] > cursor
  {
    if roster[0] > cursor {
      if i > 0 {
        AfterIsGreater(roster[1..], cursor, i - 1);
      }
    } else {
      AfterIsGreater(roster[1..], cursor, i);
    }
  }

  /** A citizen with the all-zero UUID is on no page: the default cursor skips it as every later one does. */
  lemma ZeroIdIsNeverListed(roster: seq<nat>, after: Option<nat>)
    ensures 0 !in EligiblePage(roster, after).citizenIds
  {
    var cursor := if after.Some? then after.value else 0;
    var ids := EligiblePage(roster, after).citizenIds;
    forall i | 0 <= i < |ids|
      ensures ids[i] > 0
    {
      AfterIsGreater(roster, cursor, i);
    }
  }
}
