/**
 * The in-memory attachment store of the sync engine: a backend that owns a
 * table of attachments keyed by attachment id, and a front-end that hands
 * every request to the backend unchanged.  Results that the source posts to
 * a callback are returned to the caller instead.
 */
module AttachmentStore {
  import opened Wrappers

  newtype byte = x: int | 0 <= x < 256

  /** The opaque unique id an attachment carries. */
  datatype AttachmentId = AttachmentId(uniqueId: string)

  /** An attachment: its id and its immutable bytes. */
  datatype Attachment = Attachment(id: AttachmentId, data: seq<byte>)

  /** The result codes the store reports. */
  datatype Result = Success | NotFound

  /** What a read reports: a result code and, on success, a copy of the entry. */
  datatype ReadReply = ReadReply(result: Result, attachment: Option<Attachment>)

  type AttachmentMap = map<AttachmentId, Attachment>

  /** Every entry is filed under the id of the attachment it holds. */
  ghost predicate KeyedById(table: AttachmentMap)
  {
    forall id :: id in table ==> table[id].id == id
  }

  /** Looking an id up in the table: the stored attachment, or NOT_FOUND. */
  function Lookup(table: AttachmentMap, id: AttachmentId): (r: ReadReply)
    ensures r.result == Success <==> id in table
    ensures r.result == Success ==> r.attachment == Some(table[id])
    ensures r.result == NotFound ==> r.attachment == None
  {
    if id in table then ReadReply(Success, Some(table[id])) else ReadReply(NotFound, None)
  }

  /**
   * Inserting an (id, attachment) pair into an ordered map: the key is added
   * when it is new, and an entry already under that key is left as it was.
   */
  function Insert(table: AttachmentMap, a: Attachment): (r: AttachmentMap)
    ensures r.Keys == table.Keys + {a.id}
    ensures a.id !in table ==> r[a.id] == a
    ensures a.id in table ==> r[a.id] == table[a.id]
    ensures forall id :: id in table ==> r[id] == table[id]
  {
    if a.id in table then table else table[a.id := a]
  }

  /** Erasing a key: that key is gone and every other entry is kept. */
  function Erase(table: AttachmentMap, id: AttachmentId): (r: AttachmentMap)
    ensures r.Keys == table.Keys - {id}
    ensures forall k :: k in r ==> r[k] == table[k]
  {
    table - {id}
  }

  /** The backend, which owns the table and does all the work. */
  class Backend {
    var attachments: AttachmentMap

    ghost predicate Valid()
      reads this
    {
      KeyedById(attachments)
    }

    constructor ()
      ensures Valid() && attachments == map[]
    {
      attachments := map[];
    }

    /** Reads one attachment; the table is not changed (there is no modifies clause). */
    method Read(id: AttachmentId) returns (result: Result, attachment: Option<Attachment>)
      requires Valid()
      ensures ReadReply(result, attachment) == Lookup(attachments, id)
      ensures result == Success ==> attachment.Some? && attachment.value.id == id
    {
      result := NotFound;
      attachment := None;
      if id in attachments {
        attachment := Some(attachments[id]);
        result := Success;
      }
    }

    /** Stores an attachment under its own id and reports SUCCESS with that id. */
    method Write(a: Attachment) returns (result: Result, id: AttachmentId)
      requires Valid()
      modifies this
      ensures Valid()
      ensures result == Success && id == a.id
      ensures attachments == Insert(old(attachments), a)
    {
      id := a.id;
      if id !in attachments {
        attachments := attachments[id := a];
      }
      result := Success;
    }

    /** Removes one attachment, reporting NOT_FOUND when there was none. */
    method Drop(id: AttachmentId) returns (result: Result)
      requires Valid()
      modifies this
      ensures Valid()
      ensures result == Success <==> id in old(attachments)
      ensures attachments == Erase(old(attachments), id)
    {
      result := NotFound;
      if id in attachments {
        attachments := attachments - {id};
        result := Success;
      }
    }
  }

  /** The front-end: each request is passed to the backend exactly once. */
  class FakeAttachmentStore {
    const backend: Backend

    ghost predicate Valid()
      reads this, backend
    {
      backend.Valid()
    }

    constructor ()
      ensures Valid() && fresh(backend) && backend.attachments == map[]
    {
      backend := new Backend();
    }

    method Read(id: AttachmentId) returns (result: Result, attachment: Option<Attachment>)
      requires Valid()
      ensures ReadReply(result, attachment) == Lookup(backend.attachments, id)
    {
      result, attachment := backend.Read(id);
    }

    method Write(a: Attachment) returns (result: Result, id: AttachmentId)
      requires Valid()
      modifies backend
      ensures Valid()
      ensures result == Success && id == a.id
      ensures backend.attachments == Insert(old(backend.attachments), a)
    {
      result, id := backend.Write(a);
    }

    method Drop(id: AttachmentId) returns (result: Result)
      requires Valid()
      modifies backend
      ensures Valid()
      ensures result == Success <==> id in old(backend.attachments)
      ensures backend.attachments == Erase(old(backend.attachments), id)
    {
      result := backend.Drop(id);
    }
  }

  // Properties of sequences of store operations, stated on the table.

  /** Every operation keeps each entry filed under its own id. */
  lemma OperationsKeepKeyedById(table: AttachmentMap, a: Attachment, id: AttachmentId)
    requires KeyedById(table)
    ensures KeyedById(Insert(table, a))
    ensures KeyedById(Erase(table, id))
    ensures Lookup(table, id).result == Success ==> Lookup(table, id).attachment.value.id == id
  {
  }

  /** A write of a fresh id followed by a read of the returned id yields that attachment. */
  lemma ReadAfterFreshWrite(table: AttachmentMap, a: Attachment)
    requires a.id !in table
    ensures Lookup(Insert(table, a), a.id) == ReadReply(Success, Some(a))
  {
  }

  /** A write of an id that is already stored changes nothing: the old entry is read back. */
  lemma WriteOfStoredIdKeepsEntry(table: AttachmentMap, a: Attachment)
    requires a.id in table
    ensures Insert(table, a) == table
    ensures Lookup(Insert(table, a), a.id) == Lookup(table, a.id)
  {
  }

  /** After a drop the id reads as NOT_FOUND, and a second drop finds nothing to erase. */
  lemma DropThenReadOrDrop(table: AttachmentMap, id: AttachmentId)
    ensures Lookup(Erase(table, id), id) == ReadReply(NotFound, None)
    ensures id !in Erase(table, id)
    ensures Erase(Erase(table, id), id) == Erase(table, id)
  {
  }

  /** Dropping an absent id leaves the table as it was. */
  lemma DropOfAbsentIdChangesNothing(table: AttachmentMap, id: AttachmentId)
    requires id !in table
    ensures Erase(table, id) == table
  {
  }

  /** Writes and drops touch only their own id: every other id reads as before. */
  lemma OtherIdsUnaffected(table: AttachmentMap, a: Attachment, id: AttachmentId, other: AttachmentId)
    requires other != a.id && other != id
    ensures Lookup(Insert(table, a), other) == Lookup(table, other)
    ensures Lookup(Erase(table, id), other) == Lookup(table, other)
  {
  }

  /** A client of the front-end: write, read back, drop, read and drop again. */
  method WriteReadDropScenario(store: FakeAttachmentStore, a: Attachment)
      returns (firstRead: ReadReply, dropped: Result, secondRead: ReadReply, secondDrop: Result)
    requires store.Valid() && a.id !in store.backend.attachments
    modifies store.backend
    ensures store.Valid()
    ensures firstRead == ReadReply(Success, Some(a))
    ensures dropped == Success
    ensures secondRead == ReadReply(NotFound, None) && secondDrop == NotFound
    ensures store.backend.attachments == old(store.backend.attachments)
  {
    var written, id := store.Write(a);
    var r, att := store.Read(id);
    firstRead := ReadReply(r, att);
    dropped := store.Drop(id);
    r, att := store.Read(id);
    secondRead := ReadReply(r, att);
    secondDrop := store.Drop(id);
  }
}
