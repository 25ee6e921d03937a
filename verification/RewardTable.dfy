/**
  The table that keeps one reward from being paid twice: a row without a transaction hash
  is a reservation, a row with one is a completed payment. Each function is one SQL
  statement; RewardEvents issues them in the order of the store's methods.
 */
module RewardTable {
  import opened Wrappers
  import opened ByteStrings

  datatype Key = Key(eventType: string, eventKey: string)

  // Times are milliseconds on the database clock.
  datatype Row = Row(txHash: Option<Bytes>, paidAt: int)

  type Rows = map<Key, Row>

  const RESERVATION_MS: int := 15 * 60 * 1000

  predicate Expired(rows: Rows, key: Key, now: int) {
    key in rows && rows[key].txHash.None? && rows[key].paidAt < now - RESERVATION_MS
  }

  function Expire(rows: Rows, key: Key, now: int): Rows {
    if Expired(rows, key, now) then rows - {key} else rows
  }

  function Reserve(rows: Rows, key: Key, now: int): Rows {
    if key in rows then rows else rows[key := Row(None, now)]
  }

  // False when the row is completed with another hash: no row is affected.
  predicate Completable(rows: Rows, key: Key, txHash: Bytes) {
    key in rows ==> rows[key].txHash in {None, Some(txHash)}
  }

  function Complete(rows: Rows, key: Key, txHash: Bytes, now: int): Rows {
    if key !in rows || rows[key].txHash.None? then rows[key := Row(Some(txHash), now)] else rows
  }

  function Release(rows: Rows, key: Key): Rows {
    if key in rows && rows[key].txHash.None? then rows - {key} else rows
  }

  class RewardEvents {
    var rows: Rows

    constructor ()
      ensures rows == map[]
    {
      rows := map[];
    }

    method TryReserve(key: Key, now: int) returns (reserved: bool)
      modifies this
      ensures rows == Reserve(Expire(old(rows), key, now), key, now)
      ensures reserved <==> key !in old(rows) || Expired(old(rows), key, now)
    {
      if key in rows && rows[key].txHash.None? && rows[key].paidAt < now - RESERVATION_MS {
        rows := rows - {key};
      }
      if key in rows {
        return false;
      }
      rows := rows[key := Row(None, now)];
      reserved := true;
    }

    method CompleteEvent(key: Key, txHash: Bytes, now: int) returns (r: Result<(), ()>)
      modifies this
      ensures rows == Complete(old(rows), key, txHash, now)
      ensures r.Ok? <==> Completable(old(rows), key, txHash)
      ensures r.Ok? ==> key in rows && rows[key].txHash == Some(txHash)
    {
      if key !in rows {
        rows := rows[key := Row(Some(txHash), now)];
        return Ok(());
      }
      if rows[key].txHash.None? {
        rows := rows[key := Row(Some(txHash), now)];
        return Ok(());
      }
      r := if rows[key].txHash.value == txHash then Ok(()) else Err(());
    }

    method ReleaseEvent(key: Key)
      modifies this
      ensures rows == Release(old(rows), key)
    {
      if key in rows && rows[key].txHash.None? {
        rows := rows - {key};
      }
    }
  }
}
