/**
 `KchooDB`: the five queue operations, each one statement on the shared
 `sources` table. The table and the `sources_id_seq` counter are fields of
 the object; every method changes them as its statement does, and its
 postcondition gives the new table as the matching function of `Sources`.
 */
module Db {
  import opened Sources

  class KchooDB {
    /** The `sources` table, by serial id. */
    var rows: Table
    /** The next value the id sequence hands out. */
    var nextId: int

    ghost predicate Valid()
      reads this
    {
      1 <= nextId && IdsBelow(rows, nextId)
    }

    /** A handle on a store that already holds `initial`. */
    constructor (initial: Table, next: int)
      requires 1 <= next && IdsBelow(initial, next)
      ensures Valid()
      ensures rows == initial && nextId == next
    {
      rows := initial;
      nextId := next;
    }

    /** `INSERT INTO sources ... RETURNING id`: a fresh row in `pending`. */
    method AddSource(site: string, remoteIdentifier: string) returns (id: int)
      requires Valid()
      modifies this
      ensures Valid()
      ensures id !in old(rows) && id == old(nextId) && nextId == old(nextId) + 1
      ensures rows == old(rows)[id := NewSource(site, remoteIdentifier)]
      ensures forall k :: k in old(rows) ==> k in rows && rows[k] == old(rows)[k]
    {
      id := nextId;
      rows := rows[id := NewSource(site, remoteIdentifier)];
      nextId := nextId + 1;
    }

    /**
     The inner `SELECT id ... ORDER BY id LIMIT limit` of the claim: scans
     the ids in increasing order and keeps the first `limit` matching rows,
     with their remote identifiers.
     */
    method SelectClaimable(site: string, limit: nat) returns (claims: seq<Claim>)
      requires Valid()
      ensures IdsOf(claims) == ClaimOrder(rows, site, limit, nextId)
      ensures forall i :: 0 <= i < |claims| ==>
        claims[i].dbID in rows && claims[i].twitterID == rows[claims[i].dbID].remoteIdentifier
    {
      claims := [];
      var id := 1;
      while id < nextId && |claims| < limit
        invariant 1 <= id <= nextId
        invariant IdsOf(claims) == MatchingIds(rows, site, 1, id)
        invariant |claims| <= limit
        invariant forall i :: 0 <= i < |claims| ==>
          claims[i].dbID in rows && claims[i].twitterID == rows[claims[i].dbID].remoteIdentifier
      {
        if id in rows && Claimable(rows[id], site) {
          claims := claims + [Claim(id, rows[id].remoteIdentifier)];
          assert IdsOf(claims) == MatchingIds(rows, site, 1, id) + [id];
        }
        id := id + 1;
      }
      MatchingIdsSplit(rows, site, 1, id, nextId);
    }

    /**
     `getPendingSources`: in one statement, takes up to `count` claimable
     rows of `site` with the smallest ids, moves them to `populating` and
     returns their ids and remote identifiers.

     The statement as written binds `$2` (the count) in the site filter of
     db.js:41 and never mentions `$1`, so the store rejects it on every call;
     this models the evidently intended `$1` (the site name). The `LIMIT` of
     db.js:56 binds the count, as intended.
     */
    method GetPendingSources(site: string, count: Option<int>) returns (r: Result<seq<Claim>>)
      requires Valid()
      modifies this
      ensures Valid() && nextId == old(nextId)
      ensures ClaimLimit(count) < 0 ==> r == Err(NegativeLimit) && rows == old(rows)
      ensures 0 <= ClaimLimit(count) ==>
        && r.Ok?
        && IdsOf(r.value) == ClaimOrder(old(rows), site, ClaimLimit(count), old(nextId))
        && (forall i :: 0 <= i < |r.value| ==>
              r.value[i].dbID in old(rows)
              && r.value[i].twitterID == old(rows)[r.value[i].dbID].remoteIdentifier)
        && rows == SetState(old(rows), IdsOf(r.value), Populating)
    {
      var limit := ClaimLimit(count);
      if limit < 0 {
        return Err(NegativeLimit);
      }
      var claims := SelectClaimable(site, limit);
      rows := SetState(rows, IdsOf(claims), Populating);
      return Ok(claims);
    }

    /**
     `saveSource`: overwrites the earliest cursor of row `id` (an omitted
     `earliestID` is stored as NULL) and, only when `latestID` is truthy,
     its latest cursor. Returns the row count.
     */
    method SaveSource(id: int, earliestID: Option<Cursor>, latestID: Option<Cursor>) returns (affected: nat)
      requires Valid()
      modifies this
      ensures Valid() && nextId == old(nextId)
      ensures rows == SaveCursors(old(rows), id, earliestID, latestID)
      ensures affected == if id in old(rows) then 1 else 0
    {
      var updateLatest := false;
      if Truthy(latestID) {
        updateLatest := true;
      }
      if id in rows {
        var row := rows[id].(earliest := earliestID);
        if updateLatest {
          row := row.(latest := latestID);
        }
        rows := rows[id := row];
        affected := 1;
      } else {
        affected := 0;
      }
    }

    /**
     `UPDATE sources SET state = to WHERE id IN (ids)`, shared by `setErrors`
     and `finishPopulatingSources`. An empty list yields `IN ()`, which the
     store rejects; otherwise the result is the row count.
     */
    method UpdateStates(ids: seq<int>, to: State) returns (r: Result<nat>)
      requires Valid()
      modifies this
      ensures Valid() && nextId == old(nextId)
      ensures ids == [] ==> r == Err(EmptyIdList) && rows == old(rows)
      ensures ids != [] ==> r == Ok(|Affected(old(rows), ids)|) && rows == SetState(old(rows), ids, to)
    {
      if ids == [] {
        return Err(EmptyIdList);
      }
      r := Ok(|Affected(rows, ids)|);
      rows := SetState(rows, ids, to);
    }

    /**
     `setErrors`: every listed row goes to `error`, whatever its state.
     The statement of db.js:103 assigns a column `status`; this models the
     evidently intended `state`, the column every other statement uses.
     */
    method SetErrors(ids: seq<int>) returns (r: Result<nat>)
      requires Valid()
      modifies this
      ensures Valid() && nextId == old(nextId)
      ensures ids == [] ==> r == Err(EmptyIdList) && rows == old(rows)
      ensures ids != [] ==> r == Ok(|Affected(old(rows), ids)|) && rows == SetState(old(rows), ids, Error)
    {
      r := UpdateStates(ids, Error);
    }

    /**
     `finishPopulatingSources`: every listed row goes to `standby`, with no
     condition on its current state. As for `setErrors`, the `status` column
     of db.js:120 is modelled as `state`.
     */
    method FinishPopulatingSources(ids: seq<int>) returns (r: Result<nat>)
      requires Valid()
      modifies this
      ensures Valid() && nextId == old(nextId)
      ensures ids == [] ==> r == Err(EmptyIdList) && rows == old(rows)
      ensures ids != [] ==> r == Ok(|Affected(old(rows), ids)|) && rows == SetState(old(rows), ids, Standby)
    {
      r := UpdateStates(ids, Standby);
    }
  }

  /**
   A worker's populate cycle on an empty store, as the contracts alone
   determine it: add, claim, save progress, finish; the finished row is
   settled with its cursors and is not claimed again.
   */
  method PopulateCycle()
  {
    var db := new KchooDB(map[], 1);
    var a := db.AddSource("twitter", "abc");
    AddThenClaimOne(map[], 1, "twitter", "abc");
    var claimed := db.GetPendingSources("twitter", None);
    assert IdsOf(claimed.value) == [a];
    assert claimed.value[0] == Claim(a, "abc");
    assert claimed.value == [Claim(a, "abc")];
    assert claimed == Ok([Claim(a, "abc")]);
    assert db.rows[a].state == Populating;
    var saved := db.SaveSource(a, Some("1000"), Some("1001"));
    assert saved == 1;
    assert Affected(db.rows, [a]) == {a};
    var finished := db.FinishPopulatingSources([a]);
    assert finished == Ok(1);
    assert db.rows[a] == Source("twitter", "abc", Standby, Some("1000"), Some("1001"));
    assert db.rows.Keys == {a} && db.nextId == a + 1;
    assert !Claimable(db.rows[a], "twitter");
    assert MatchingIds(db.rows, "twitter", 1, db.nextId) == MatchingIds(db.rows, "twitter", 1, a);
    assert MatchingIds(db.rows, "twitter", 1, db.nextId) == [];
    assert ClaimOrder(db.rows, "twitter", 5, db.nextId) == [];
    var again := db.GetPendingSources("twitter", Some(5));
    assert |again.value| == |IdsOf(again.value)| == 0;
    assert again == Ok([]);
  }
}
