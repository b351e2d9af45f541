/**
 * The `messages` table the handler writes to: one row per secret, keyed by
 * its id (the primary key). The backend is a remote database; an insert
 * either adds the row or reports an error and changes nothing.
 */
module MessagesTable {
  import opened Wrappers

  /** The `destroy_mode` column: "view" (destroyed on first read) or "time" (destroyed at expiry). */
  datatype DestroyMode = View | Time

  /** The hex strings returned by the AES-256-GCM encryption of a message. */
  datatype Ciphered = Ciphered(ciphertext: string, iv: string, tag: string)

  /**
   * A row `(id, ciphertext, iv, tag, destroy_mode, expires_at)`; `expires_at`
   * is held as milliseconds since the epoch rather than as its ISO 8601 text.
   */
  datatype Record = Record(
    id: string,
    ciphertext: string,
    iv: string,
    tag: string,
    destroyMode: DestroyMode,
    expiresAt: Option<int>)

  /** A row carries an expiry exactly when it is destroyed by time. */
  predicate WellFormed(r: Record) {
    r.destroyMode == View <==> r.expiresAt == None
  }

  /** Every row sits under its own id and is well-formed. */
  predicate Consistent(rows: map<string, Record>) {
    forall k :: k in rows ==> rows[k].id == k && WellFormed(rows[k])
  }

  /**
   * The outcome of inserting `r`: None when the backend reports an error,
   * either because it fails or because a row with that id already exists.
   */
  function TryInsert(rows: map<string, Record>, r: Record, backendFails: bool): (res: Option<map<string, Record>>)
    ensures res.Some? <==> !backendFails && r.id !in rows
    ensures res.Some? ==> r.id in res.value && res.value[r.id] == r
    ensures res.Some? ==> res.value.Keys == rows.Keys + {r.id} && |res.value| == |rows| + 1
    ensures res.Some? ==> forall k :: k in rows ==> res.value[k] == rows[k]
  {
    if backendFails || r.id in rows then None else Some(rows[r.id := r])
  }

  /** The table itself, which the handler changes in place. */
  class Table {
    var rows: map<string, Record>

    constructor ()
      ensures rows == map[]
    {
      rows := map[];
    }

    /** `supabase.from("messages").insert([r])`; `ok` is false when the result carries an error. */
    method Insert(r: Record, backendFails: bool) returns (ok: bool)
      modifies this
      ensures ok <==> TryInsert(old(rows), r, backendFails).Some?
      ensures rows == if ok then TryInsert(old(rows), r, backendFails).value else old(rows)
    {
      ok := !backendFails && r.id !in rows;
      if ok {
        rows := rows[r.id := r];
      }
    }
  }

  /** Inserting a well-formed row under its own id keeps the table consistent. */
  lemma InsertKeepsConsistent(rows: map<string, Record>, r: Record, backendFails: bool)
    requires Consistent(rows) && WellFormed(r)
    ensures TryInsert(rows, r, backendFails).Some? ==> Consistent(TryInsert(rows, r, backendFails).value)
  {
  }
}
