/** The record store of the upload path: a database session over the
    `image` table, and `save_image_metadata`, which derives a record from the
    stored file and commits it. */
module DbCrud {
  import opened Exceptions
  import opened FileUtils
  import opened Models

  /** The rows a commit writes: the pending records in order, with the ids
      the store assigns counting up from `first`. */
  function Numbered(rows: seq<Image>, first: int): (r: seq<Image>)
    ensures |r| == |rows|
    ensures forall i :: 0 <= i < |rows| ==> r[i] == rows[i].(id := Some(first + i))
  {
    if |rows| == 0 then [] else [rows[0].(id := Some(first))] + Numbered(rows[1..], first + 1)
  }

  /** A database session: the committed `image` table, the records added to
      the session but not yet committed, and the next id the store assigns. */
  class Session {
    var table: seq<Image>
    var pending: seq<Image>
    var nextId: int

    /** Every committed row has an id the store assigned, and no two rows share one. */
    ghost predicate Valid()
      reads this
    {
      (forall i :: 0 <= i < |table| ==> table[i].id.Some? && table[i].id.value < nextId) &&
      (forall i, j :: 0 <= i < j < |table| ==> table[i].id != table[j].id)
    }

    constructor ()
      ensures Valid() && table == [] && pending == []
    {
      table, pending, nextId := [], [], 1;
    }

    /** `db.add(record)`. */
    method Add(img: Image)
      modifies this
      ensures pending == old(pending) + [img]
      ensures table == old(table) && nextId == old(nextId)
    {
      pending := pending + [img];
    }

    /** `await db.commit()`: the pending records become rows with fresh ids,
      or, when the store fails, nothing is written. */
    method Commit(fault: Option<string>) returns (r: Result<seq<Image>>)
      requires Valid()
      modifies this
      ensures Valid()
      ensures r.Ok? <==> fault.None?
      ensures r.Ok? ==> r.value == Numbered(old(pending), old(nextId))
      ensures r.Ok? ==> table == old(table) + r.value && pending == []
      ensures r.Ok? ==> nextId == old(nextId) + |old(pending)|
      ensures r.Err? ==> r.error == Failure(fault.value) && table == old(table) && nextId == old(nextId)
      ensures r.Err? ==> pending == old(pending)
    {
      if fault.Some? {
        r := Err(Failure(fault.value));
      } else {
        var rows := Numbered(pending, nextId);
        table, nextId, pending := table + rows, nextId + |pending|, [];
        r := Ok(rows);
      }
    }

    /** `await db.refresh(record)`: reads a committed row back; a record
      that is not a row cannot be refreshed. */
    method Refresh(img: Image, fault: Option<string>) returns (r: Result<Image>)
      ensures r.Ok? <==> fault.None? && img in table
      ensures r.Ok? ==> r.value == img
      ensures fault.Some? ==> r == Err(Failure(fault.value))
      ensures fault.None? && img !in table ==> r == Err(Failure("Could not refresh instance"))
    {
      if fault.Some? {
        r := Err(Failure(fault.value));
      } else if img !in table {
        r := Err(Failure("Could not refresh instance"));
      } else {
        r := Ok(img);
      }
    }
  }

  /** The record `models.Image(...)` describes before the store assigns its id. */
  function NewImage(uuid: string, filename: string, size: int, location: Path): (img: Image)
    ensures img.id.None? && '.' !in img.extension
    ensures img.path == PathText(location)
  {
    Image(None, uuid, filename, size, RawSuffix(filename), PathText(location))
  }

  /** A record's file: some file whose path text is the record's path holds
      exactly as many bytes as the record's size. */
  ghost predicate Stored(files: map<Path, seq<byte>>, img: Image)
  {
    exists p :: p in files && PathText(p) == img.path && |files[p]| == img.size
  }

  /** No orphan records: every row has its file, of the recorded size. */
  ghost predicate ConsistentRows(files: map<Path, seq<byte>>, table: seq<Image>)
  {
    forall i :: 0 <= i < |table| ==> Stored(files, table[i])
  }

  ghost predicate Consistent(fs: FileSystem, db: Session)
    reads fs, db
  {
    ConsistentRows(fs.files, db.table)
  }

  /** Putting a file at a path that held none keeps every row's file, and a
      row that describes the new file keeps the table consistent. */
  lemma ConsistentAfterWrite(files: map<Path, seq<byte>>, table: seq<Image>, location: Path,
                             content: seq<byte>, added: seq<Image>)
    requires ConsistentRows(files, table) && location !in files
    requires forall i :: 0 <= i < |added| ==> added[i].path == PathText(location) && added[i].size == |content|
    ensures ConsistentRows(files[location := content], table + added)
  {
    var files' := files[location := content];
    forall i | 0 <= i < |table + added| ensures Stored(files', (table + added)[i]) {
      if i < |table| {
        assert Stored(files, table[i]);
        var p :| p in files && PathText(p) == table[i].path && |files[p]| == table[i].size;
        assert p != location && files'[p] == files[p];
      } else {
        assert location in files' && |files'[location]| == |content|;
      }
    }
  }

  /** The faults the store can raise while a record is saved. */
  datatype DbFaults = DbFaults(commit: Option<string>, refresh: Option<string>)

  const MetadataErrorPrefix: string := "Error while saving image metadata: "

  /** The body of `save_image_metadata`'s `try` block, which the router also
      runs inline: build the record (name verbatim, size measured on disk,
      raw suffix, path text, the given uuid), add and commit it, refresh it.
      The first failing step's exception propagates unchanged. */
  method InsertImage(fs: FileSystem, db: Session, location: Path, filename: string,
                     recordUuid: string, faults: DbFaults)
    returns (r: Result<Image>)
    requires db.Valid() && db.pending == []
    modifies db
    ensures db.Valid()
    ensures r.Ok? <==> location in fs.files && faults.commit.None? && faults.refresh.None?
    ensures r.Ok? ==> db.table == old(db.table) + [r.value]
    ensures r.Ok? ==> && r.value.name == filename
                      && r.value.size == |fs.files[location]|
                      && r.value.extension == RawSuffix(filename)
                      && r.value.path == PathText(location)
                      && r.value.uuid == recordUuid
    ensures r.Ok? ==> r.value.id.Some? && forall i :: 0 <= i < |old(db.table)| ==> old(db.table)[i].id != r.value.id
    // the exception of the first failing step
    ensures location !in fs.files ==> r == Err(OSError(NoSuchFile, PathText(location)))
    ensures location in fs.files && faults.commit.Some? ==> r == Err(Failure(faults.commit.value))
    ensures location in fs.files && faults.commit.None? && faults.refresh.Some? ==> r == Err(Failure(faults.refresh.value))
    // a successful commit stores the row even when the refresh after it fails; otherwise no row is added
    ensures location in fs.files && faults.commit.None? ==>
              db.table == old(db.table) + [NewImage(recordUuid, filename, |fs.files[location]|, location).(id := Some(old(db.nextId)))]
    ensures !(location in fs.files && faults.commit.None?) ==> db.table == old(db.table)
    ensures db.table == old(db.table) ==> db.nextId == old(db.nextId)
    // the record stays pending only when the commit failed
    ensures db.pending == if location in fs.files && faults.commit.Some?
                          then [NewImage(recordUuid, filename, |fs.files[location]|, location)] else []
    ensures old(Consistent(fs, db)) ==> Consistent(fs, db)
  {
    var size := fs.GetSize(location);
    if size.Err? {
      r := Err(size.error);
      return;
    }
    var record := NewImage(recordUuid, filename, size.value, location);
    db.Add(record);
    var committed := db.Commit(faults.commit);
    if committed.Err? {
      r := Err(committed.error);
      return;
    }
    var row := committed.value[0];
    assert Stored(fs.files, row);
    r := db.Refresh(row, faults.refresh);
  }

  /** `save_image_metadata`: the steps of `InsertImage`, with every failure
      re-raised as a plain exception whose message is `MetadataErrorPrefix`
      followed by the original exception's text. */
  method SaveImageMetadata(fs: FileSystem, db: Session, location: Path, filename: string,
                           recordUuid: string, faults: DbFaults)
    returns (r: Result<Image>)
    requires db.Valid() && db.pending == []
    modifies db
    ensures db.Valid()
    ensures r.Ok? <==> location in fs.files && faults.commit.None? && faults.refresh.None?
    ensures r.Ok? ==> db.table == old(db.table) + [r.value]
    ensures r.Ok? ==> && r.value.name == filename
                      && r.value.size == |fs.files[location]|
                      && r.value.extension == RawSuffix(filename)
                      && r.value.path == PathText(location)
                      && r.value.uuid == recordUuid
    ensures r.Ok? ==> r.value.id.Some? && forall i :: 0 <= i < |old(db.table)| ==> old(db.table)[i].id != r.value.id
    ensures r.Err? ==> r.error.Failure? && StartsWith(r.error.message, MetadataErrorPrefix)
    ensures location !in fs.files ==>
              r == Err(Failure(MetadataErrorPrefix + Str(OSError(NoSuchFile, PathText(location)))))
    ensures location in fs.files && faults.commit.Some? ==>
              r == Err(Failure(MetadataErrorPrefix + faults.commit.value))
    ensures location in fs.files && faults.commit.None? && faults.refresh.Some? ==>
              r == Err(Failure(MetadataErrorPrefix + faults.refresh.value))
    // a successful commit stores the row even when the refresh after it fails; otherwise no row is added
    ensures location in fs.files && faults.commit.None? ==>
              db.table == old(db.table) + [NewImage(recordUuid, filename, |fs.files[location]|, location).(id := Some(old(db.nextId)))]
    ensures !(location in fs.files && faults.commit.None?) ==> db.table == old(db.table)
    ensures db.table == old(db.table) ==> db.nextId == old(db.nextId)
    // the record stays pending only when the commit failed
    ensures db.pending == if location in fs.files && faults.commit.Some?
                          then [NewImage(recordUuid, filename, |fs.files[location]|, location)] else []
    ensures old(Consistent(fs, db)) ==> Consistent(fs, db)
  {
    r := InsertImage(fs, db, location, filename, recordUuid, faults);
    if r.Err? {
      r := Err(Failure(MetadataErrorPrefix + Str(r.error)));
    }
  }
}
