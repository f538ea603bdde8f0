/**
 The `sources` table of the kchoo work queue, and the meaning of every SQL
 statement of `KchooDB` as a function on that table.

 A row of `sources` is a `Source`; the table is a map from the row's serial
 id to the row. The `source_states` lookup table is closed here into the
 enumeration `State`, and a row's `site_id` is represented by the name of
 its site, which is how every statement reaches it
 (`(SELECT id FROM sites WHERE name = ...)`).
 */
module Sources {

  datatype Option<+T> = None | Some(value: T)

  /** The rows of `source_states` that the statements name. */
  datatype State = Pending | Populating | Standby | Error

  /** A processed-id cursor (`earliest_processed_id`, `latest_processed_id`). */
  type Cursor = string

  datatype Source = Source(
    site: string,
    remoteIdentifier: string,
    state: State,
    earliest: Option<Cursor>,
    latest: Option<Cursor>)

  type Table = map<int, Source>

  /** One row handed out by a claim: `{dbID, twitterID}`. */
  datatype Claim = Claim(dbID: int, twitterID: string)

  /** The store errors the statements can raise on their own. */
  datatype QueryError =
    | EmptyIdList    // `WHERE id IN ()` is not valid SQL
    | NegativeLimit  // `LIMIT` must not be negative

  datatype Result<+T> = Ok(value: T) | Err(error: QueryError)

  /** Serial ids are positive and below the next value of the sequence. */
  predicate IdsBelow(rows: Table, hi: int)
  {
    forall k :: k in rows ==> 1 <= k < hi
  }

  predicate Increasing(s: seq<int>)
  {
    forall i, j :: 0 <= i < j < |s| ==> s[i] < s[j]
  }

  predicate Distinct(s: seq<int>)
  {
    forall i, j :: 0 <= i < j < |s| ==> s[i] != s[j]
  }

  // ---------------------------------------------------------------------
  // INSERT (addSource)

  /** The row `addSource` inserts: state `pending`, no cursors. */
  function NewSource(site: string, remoteIdentifier: string): (r: Source)
    ensures Claimable(r, site)
  {
    Source(site, remoteIdentifier, Pending, None, None)
  }

  // ---------------------------------------------------------------------
  // The claim (getPendingSources)

  /**
   The claim's row predicate: the row belongs to `site`, and it is either
   `pending` or `populating` with a non-null latest cursor (a claim that
   reported progress but did not finish).
   */
  predicate Claimable(s: Source, site: string)
  {
    s.site == site && (s.state == Pending || (s.state == Populating && s.latest.Some?))
  }

  /** The set of rows the claim's predicate matches. */
  function ClaimableIds(rows: Table, site: string): (r: set<int>)
    ensures r <= rows.Keys
  {
    set k | k in rows && Claimable(rows[k], site)
  }

  /** The matching ids in `[lo, hi)`, in id order (`ORDER BY id`). */
  function MatchingIds(rows: Table, site: string, lo: int, hi: int): (r: seq<int>)
    ensures Increasing(r)
    ensures forall i :: 0 <= i < |r| ==> lo <= r[i] < hi && r[i] in rows && Claimable(rows[r[i]], site)
    decreases hi - lo
  {
    if hi <= lo then []
    else
      MatchingIds(rows, site, lo, hi - 1)
      + (if hi - 1 in rows && Claimable(rows[hi - 1], site) then [hi - 1] else [])
  }

  /** The ids a claim with `LIMIT limit` takes from a table whose ids are below `hi`. */
  function ClaimOrder(rows: Table, site: string, limit: nat, hi: int): (r: seq<int>)
    ensures |r| <= limit
    ensures r <= MatchingIds(rows, site, 1, hi)
  {
    var m := MatchingIds(rows, site, 1, hi);
    if limit < |m| then m[..limit] else m
  }

  /** `count` defaults to 1 when the caller leaves it out. */
  function ClaimLimit(count: Option<int>): (r: int)
  {
    match count
    case None => 1
    case Some(n) => n
  }

  function IdsOf(claims: seq<Claim>): (r: seq<int>)
  {
    seq(|claims|, i requires 0 <= i < |claims| => claims[i].dbID)
  }

  // ---------------------------------------------------------------------
  // UPDATE ... SET state (the claim, setErrors, finishPopulatingSources)

  /** `UPDATE sources SET state = to WHERE id IN (ids)`. */
  function SetState(rows: Table, ids: seq<int>, to: State): (r: Table)
    ensures r.Keys == rows.Keys
  {
    map k | k in rows :: if k in ids then rows[k].(state := to) else rows[k]
  }

  /** The rows an `IN (ids)` update touches; its row count is their number. */
  function Affected(rows: Table, ids: seq<int>): (r: set<int>)
    ensures r <= rows.Keys
  {
    set k | k in rows && k in ids
  }

  // ---------------------------------------------------------------------
  // UPDATE ... SET earliest_processed_id (saveSource)

  /** JavaScript truthiness of an optional cursor: `undefined`, `null` and `''` are falsy. */
  predicate Truthy(v: Option<Cursor>)
  {
    v.Some? && v.value != ""
  }

  /**
   `UPDATE sources SET earliest_processed_id = earliest [, latest_processed_id = latest]
   WHERE id = id`, the second assignment present only for a truthy `latest`.
   */
  function SaveCursors(rows: Table, id: int, earliest: Option<Cursor>, latest: Option<Cursor>): (r: Table)
    ensures r.Keys == rows.Keys
  {
    map k | k in rows ::
      if k == id then rows[k].(earliest := earliest, latest := if Truthy(latest) then latest else rows[k].latest)
      else rows[k]
  }

  // =====================================================================
  // Lemmas

  /** Every matching id in the range is found by the scan. */
  lemma {:induction false} MatchingIdsComplete(rows: Table, site: string, lo: int, hi: int, x: int)
    requires lo <= x < hi && x in rows && Claimable(rows[x], site)
    ensures x in MatchingIds(rows, site, lo, hi)
    decreases hi - lo
  {
    if x < hi - 1 {
      MatchingIdsComplete(rows, site, lo, hi - 1, x);
    }
  }

  /** Scanning `[lo, hi)` is scanning `[lo, mid)` and then `[mid, hi)`. */
  lemma {:induction false} MatchingIdsSplit(rows: Table, site: string, lo: int, mid: int, hi: int)
    requires lo <= mid <= hi
    ensures MatchingIds(rows, site, lo, hi) == MatchingIds(rows, site, lo, mid) + MatchingIds(rows, site, mid, hi)
    decreases hi - mid
  {
    if mid < hi {
      MatchingIdsSplit(rows, site, lo, mid, hi - 1);
      var e := if hi - 1 in rows && Claimable(rows[hi - 1], site) then [hi - 1] else [];
      calc {
        MatchingIds(rows, site, lo, hi);
        MatchingIds(rows, site, lo, hi - 1) + e;
        (MatchingIds(rows, site, lo, mid) + MatchingIds(rows, site, mid, hi - 1)) + e;
        MatchingIds(rows, site, lo, mid) + (MatchingIds(rows, site, mid, hi - 1) + e);
        MatchingIds(rows, site, lo, mid) + MatchingIds(rows, site, mid, hi);
      }
    }
  }

  /** The scan of a range depends only on the rows inside it. */
  lemma {:induction false} MatchingIdsAgree(rows: Table, other: Table, site: string, lo: int, hi: int)
    requires forall k :: lo <= k < hi ==> (k in rows <==> k in other)
    requires forall k :: lo <= k < hi && k in rows ==> rows[k] == other[k]
    ensures MatchingIds(rows, site, lo, hi) == MatchingIds(other, site, lo, hi)
    decreases hi - lo
  {
    if lo < hi {
      MatchingIdsAgree(rows, other, site, lo, hi - 1);
    }
  }

  /**
   A sequence has at most as many distinct elements as positions, and
   exactly as many when no element repeats.
   */
  lemma {:induction false} SeqSetCard(s: seq<int>)
    ensures |set x | x in s| <= |s|
    ensures Distinct(s) ==> |set x | x in s| == |s|
  {
    if s != [] {
      var t := s[..|s| - 1];
      SeqSetCard(t);
      assert (set x | x in s) == (set x | x in t) + {s[|s| - 1]};
      if Distinct(s) {
        assert s[|s| - 1] !in (set x | x in t);
      }
    }
  }

  /** A subset is no larger than its superset. */
  lemma SubsetCard(a: set<int>, b: set<int>)
    requires a <= b
    ensures |a| <= |b|
  {
    assert b == a + (b - a);
    assert a * (b - a) == {};
  }

  /** When every id is below `hi`, the scan lists exactly the matching rows. */
  lemma MatchingIdsExact(rows: Table, site: string, hi: int)
    requires IdsBelow(rows, hi)
    ensures (set x | x in MatchingIds(rows, site, 1, hi)) == ClaimableIds(rows, site)
    ensures |MatchingIds(rows, site, 1, hi)| == |ClaimableIds(rows, site)|
  {
    var m := MatchingIds(rows, site, 1, hi);
    forall x | x in ClaimableIds(rows, site)
      ensures x in m
    {
      MatchingIdsComplete(rows, site, 1, hi, x);
    }
    SeqSetCard(m);
  }

  /** The claim takes `min(count, #matching)` rows (at most `count`). */
  lemma ClaimBounded(rows: Table, site: string, limit: nat, hi: int)
    requires IdsBelow(rows, hi)
    ensures var n := |ClaimableIds(rows, site)|;
      |ClaimOrder(rows, site, limit, hi)| == if limit < n then limit else n
  {
    MatchingIdsExact(rows, site, hi);
  }

  /** Every claimed row belongs to the site and is pending or an unfinished populating row. */
  lemma ClaimSound(rows: Table, site: string, limit: nat, hi: int, k: int)
    requires k in ClaimOrder(rows, site, limit, hi)
    ensures k in rows && k < hi
    ensures rows[k].site == site
    ensures rows[k].state == Pending || (rows[k].state == Populating && rows[k].latest.Some?)
  {
  }

  /** The claim returns its rows in increasing id order. */
  lemma ClaimInIdOrder(rows: Table, site: string, limit: nat, hi: int)
    ensures Increasing(ClaimOrder(rows, site, limit, hi))
  {
  }

  /** A matching row left out of the claim has a larger id than every claimed row. */
  lemma {:induction false} ClaimTakesSmallest(rows: Table, site: string, limit: nat, hi: int, x: int)
    requires IdsBelow(rows, hi)
    requires x in ClaimableIds(rows, site)
    requires x !in ClaimOrder(rows, site, limit, hi)
    ensures forall y :: y in ClaimOrder(rows, site, limit, hi) ==> y < x
  {
    var m := MatchingIds(rows, site, 1, hi);
    MatchingIdsComplete(rows, site, 1, hi, x);
    var j :| 0 <= j < |m| && m[j] == x;
    var sel := ClaimOrder(rows, site, limit, hi);
    assert limit <= j;
    forall y | y in sel
      ensures y < x
    {
      var i :| 0 <= i < |sel| && sel[i] == y;
      assert m[i] == y;
    }
  }

  /**
   The claim's update, stated for the rows the claim selects (the instance of
   `SetStateFrame` with the claim's ids and `populating`): a claimed row moves
   to `populating` with site, identifier and cursors as they were, and every
   other row is unchanged.
   */
  lemma ClaimMovesToPopulating(rows: Table, site: string, limit: nat, hi: int, k: int)
    requires k in rows
    ensures var sel := ClaimOrder(rows, site, limit, hi);
      var r := SetState(rows, sel, Populating);
      && k in r
      && (k in sel ==>
            && r[k].state == Populating && r[k].site == rows[k].site
            && r[k].remoteIdentifier == rows[k].remoteIdentifier
            && r[k].earliest == rows[k].earliest && r[k].latest == rows[k].latest)
      && (k !in sel ==> r[k] == rows[k])
  {
  }

  /**
   `UPDATE ... SET state = to WHERE id IN (ids)` moves every existing listed
   row to `to` whatever its state, and leaves every other row and the set of
   ids as they were.
   */
  lemma SetStateFrame(rows: Table, ids: seq<int>, to: State)
    ensures SetState(rows, ids, to).Keys == rows.Keys
    ensures forall k :: k in rows && k in ids ==>
      SetState(rows, ids, to)[k] == rows[k].(state := to)
    ensures forall k :: k in rows && k !in ids ==> SetState(rows, ids, to)[k] == rows[k]
  {
  }

  /** Re-running a state update is harmless: a retried call changes nothing more. */
  lemma SetStateIdempotent(rows: Table, ids: seq<int>, to: State)
    ensures SetState(SetState(rows, ids, to), ids, to) == SetState(rows, ids, to)
  {
  }

  /**
   The row count of a state update never exceeds the length of the id list,
   and equals it when the listed ids are distinct and all exist.
   */
  lemma AffectedCount(rows: Table, ids: seq<int>)
    ensures |Affected(rows, ids)| <= |ids|
    ensures Distinct(ids) && (forall i :: 0 <= i < |ids| ==> ids[i] in rows) ==>
      |Affected(rows, ids)| == |ids|
  {
    var listed := set x | x in ids;
    SubsetCard(Affected(rows, ids), listed);
    SeqSetCard(ids);
    if forall i :: 0 <= i < |ids| ==> ids[i] in rows {
      assert Affected(rows, ids) == listed;
    }
  }

  /**
   `saveSource` always overwrites the earliest cursor of row `id`, changes its
   latest cursor only for a truthy `latest`, and touches nothing else.
   */
  lemma SaveCursorsFrame(rows: Table, id: int, earliest: Option<Cursor>, latest: Option<Cursor>)
    ensures SaveCursors(rows, id, earliest, latest).Keys == rows.Keys
    ensures id in rows ==> var r := SaveCursors(rows, id, earliest, latest)[id];
      && r.earliest == earliest
      && r.latest == (if Truthy(latest) then latest else rows[id].latest)
      && r.site == rows[id].site && r.remoteIdentifier == rows[id].remoteIdentifier
      && r.state == rows[id].state
    ensures forall k :: k in rows && k != id ==> SaveCursors(rows, id, earliest, latest)[k] == rows[k]
  {
  }

  /**
   A new source is the next one claimed for its site when no other row of
   that site is claimable: right after `addSource`, `getPendingSources` with
   a count of 1 returns exactly the new row.
   */
  lemma AddThenClaimOne(rows: Table, hi: int, site: string, remoteIdentifier: string)
    requires 1 <= hi && IdsBelow(rows, hi)
    requires ClaimableIds(rows, site) == {}
    ensures ClaimOrder(rows[hi := NewSource(site, remoteIdentifier)], site, 1, hi + 1) == [hi]
  {
    var after := rows[hi := NewSource(site, remoteIdentifier)];
    var below := MatchingIds(after, site, 1, hi);
    MatchingIdsAgree(after, rows, site, 1, hi);
    MatchingIdsExact(rows, site, hi);
    assert below == [];
    assert MatchingIds(after, site, 1, hi + 1) == below + [hi];
  }

  /**
   A claimed row that reported no latest cursor is not matched by the next
   claim: it stays with the worker that took it.
   */
  lemma ClaimedWithoutProgressNotReclaimed(rows: Table, site: string, limit: nat, hi: int, k: int)
    requires k in ClaimOrder(rows, site, limit, hi)
    requires rows[k].latest.None?
    ensures k !in MatchingIds(SetState(rows, ClaimOrder(rows, site, limit, hi), Populating), site, 1, hi)
  {
  }

  /**
   Crash recovery: once a claimed row has saved a truthy latest cursor, it is
   matched again by the next claim for its site, cursors preserved.
   */
  lemma ProgressMakesReclaimable(rows: Table, site: string, limit: nat, hi: int, k: int,
                                 earliest: Option<Cursor>, latest: Option<Cursor>)
    requires k in ClaimOrder(rows, site, limit, hi)
    requires Truthy(latest)
    ensures var after := SaveCursors(SetState(rows, ClaimOrder(rows, site, limit, hi), Populating), k, earliest, latest);
      && k in MatchingIds(after, site, 1, hi)
      && after[k].earliest == earliest && after[k].latest == latest
  {
    var sel := ClaimOrder(rows, site, limit, hi);
    var after := SaveCursors(SetState(rows, sel, Populating), k, earliest, latest);
    assert 1 <= k < hi;
    MatchingIdsComplete(after, site, 1, hi, k);
  }

  /** A row that the finishing or error update reaches is not matched by the next claim. */
  lemma SettledNotClaimable(rows: Table, ids: seq<int>, site: string, hi: int, k: int)
    requires k in rows && k in ids
    ensures k !in MatchingIds(SetState(rows, ids, Standby), site, 1, hi)
    ensures k !in MatchingIds(SetState(rows, ids, Error), site, 1, hi)
  {
  }

  /**
   A settled row (`standby` or `error`) stays settled under every statement:
   the claim neither selects nor changes it, the cursor update keeps its
   state, and the two state updates leave it `standby` or `error`. With
   `SettledNotClaimable`, no later claim ever matches it.
   */
  lemma SettledStaysSettled(rows: Table, site: string, limit: nat, hi: int, k: int,
                            id: int, earliest: Option<Cursor>, latest: Option<Cursor>,
                            ids: seq<int>, to: State)
    requires k in rows && (rows[k].state == Standby || rows[k].state == Error)
    requires to == Standby || to == Error
    ensures k !in ClaimOrder(rows, site, limit, hi)
    ensures SetState(rows, ClaimOrder(rows, site, limit, hi), Populating)[k] == rows[k]
    ensures SaveCursors(rows, id, earliest, latest)[k].state == rows[k].state
    ensures SetState(rows, ids, to)[k].state in {Standby, Error}
    ensures !Claimable(rows[k], site)
  {
    var sel := ClaimOrder(rows, site, limit, hi);
    if k in sel {
      ClaimSound(rows, site, limit, hi, k);
      assert false;
    }
    SetStateFrame(rows, sel, Populating);
  }
}
