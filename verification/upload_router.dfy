/** The `POST /upload_image/` endpoint, which runs the upload steps inline
    rather than through `handle_image_upload`, and answers with its own
    error mapping: HTTPExceptions are re-raised, and every other exception
    becomes a 500 JSON response carrying the exception's text unwrapped. */
module UploadRouter {
  import opened Exceptions
  import opened FileUtils
  import opened Models
  import opened DbCrud
  import opened Services

  const FailedMessage: string := "Failed to upload image"

  /** The JSON content of the endpoint's answers. */
  datatype Body =
    | Uploaded(message: string, filePath: string, metadata: Image)
    | Failed(message: string, error: string)

  /** What the endpoint does: raise an HTTPException to FastAPI, or return a
      JSON response with a status code. */
  datatype Outcome = Raise(exception: Raised) | Respond(statusCode: int, body: Body)

  /** The two `except` clauses: an HTTPException is raised again as it is;
      anything else is answered with 500 and `str(e)`. */
  function Answer(e: Raised): (out: Outcome)
    ensures out.Raise? <==> e.HTTPException?
    ensures out.Raise? ==> out.exception == e
    ensures out.Respond? ==> out.statusCode == 500 && out.body.Failed? && out.body.message == FailedMessage
  {
    if e.HTTPException? then Raise(e) else Respond(500, Failed(FailedMessage, Str(e)))
  }

  /** A failed inline record is answered with the store's message as it is. */
  lemma RecordFailureAnswered(faults: DbFaults)
    requires faults.commit.Some? || faults.refresh.Some?
    ensures Answer(RecordFailure(faults, false)) == Respond(500, Failed(FailedMessage, StoreMessage(faults)))
  {
  }

  /** `upload_image`. The same steps as `handle_image_upload`, in the same
      order and with the same effects on the folder tree, the files and the
      table; only the answers differ: a rejected name or a failed write is
      raised, a failed folder or record is a 500 response with the bare
      exception text, and a completed upload builds the 200 response. The
      rendering of that response to JSON is not modelled; in the source it
      fails on the record's timestamps and is answered with a 500. */
  method UploadImage(fs: FileSystem, db: Session, allowed: seq<string>, base: Path, file: Upload, o: Oracle)
    returns (out: Outcome, ghost stopped: Step)
    requires fs.Valid() && db.Valid() && db.pending == [] && ValidOracle(o)
    modifies fs, db
    ensures fs.Valid() && db.Valid()
    ensures out.Raise? ==> out.exception.HTTPException?
    ensures out.Raise? <==> stopped == Validate || stopped == WriteFile
    // validation: the 400 is raised and nothing changes
    ensures stopped == Validate <==> !AllowedFile(file.filename, allowed)
    ensures stopped == Validate ==> && out == Raise(InvalidExtension(allowed))
                                    && fs.dirs == old(fs.dirs) && fs.files == old(fs.files) && db.table == old(db.table)
    // the folder: answered with 500 and the OSError's or fault's text; nothing changes
    ensures stopped == MakeFolder <==>
              AllowedFile(file.filename, allowed) && MkdirFails(old(fs.dirs), old(fs.files), DateFolder(base, o.today), o.mkdirFault)
    ensures stopped == MakeFolder ==>
              && out == Respond(500, Failed(FailedMessage, Str(MkdirError(old(fs.files), DateFolder(base, o.today), o.mkdirFault))))
              && fs.dirs == old(fs.dirs) && fs.files == old(fs.files) && db.table == old(db.table)
    // the write: save_file's 500 is raised again, no record is made
    ensures stopped == WriteFile ==> && out.exception.statusCode == 500
                                     && StartsWith(out.exception.detail, "Error saving file: ")
                                     && db.table == old(db.table)
                                     && PartlyWritten(old(fs.files), fs.files, FileLocation(base, o, file.filename), file.content)
    // the record: answered with 500 and the store's own message, without any prefix; the file stays
    ensures stopped == SaveRecord ==>
              && (o.dbFaults.commit.Some? || o.dbFaults.refresh.Some?)
              && out == Respond(500, Failed(FailedMessage, StoreMessage(o.dbFaults)))
              && fs.files == old(fs.files)[FileLocation(base, o, file.filename) := file.content]
    // once the folder is made it stays, whatever fails after it
    ensures stopped == WriteFile || stopped == SaveRecord ==> fs.dirs == old(fs.dirs) + Prefixes(DateFolder(base, o.today))
    // the record stays pending in the session only when the commit failed
    ensures db.pending == if stopped == SaveRecord && o.dbFaults.commit.Some?
                          then [NewImage(Uuid4Text(o.recordEntropy), file.filename, |file.content|, FileLocation(base, o, file.filename))]
                          else []
    // success: 200 with the same message, path and record as the service returns
    ensures stopped == Done ==> var loc := FileLocation(base, o, file.filename);
              && out.Respond? && out.statusCode == 200 && out.body.Uploaded?
              && out.body.message == "Image uploaded successfully"
              && out.body.filePath == PathText(loc)
              && fs.dirs == old(fs.dirs) + Prefixes(DateFolder(base, o.today))
              && fs.files == old(fs.files)[loc := file.content]
              && db.table == old(db.table) + [out.body.metadata]
              && out.body.metadata.name == file.filename
              && out.body.metadata.size == |file.content|
              && out.body.metadata.extension == RawSuffix(file.filename)
              && out.body.metadata.path == PathText(loc)
              && out.body.metadata.uuid == Uuid4Text(o.recordEntropy)
    // with no fault and nothing in the way, the upload goes through
    ensures AllowedFile(file.filename, allowed) && o.mkdirFault.None? && o.writeFault.NoWriteFault? &&
            o.dbFaults == DbFaults(None, None) &&
            !AncestorIsFile(old(fs.files), FileLocation(base, o, file.filename)) &&
            FileLocation(base, o, file.filename) !in old(fs.dirs)
            ==> stopped == Done
    // the file is written before the record
    ensures db.table != old(db.table) ==>
              var loc := FileLocation(base, o, file.filename);
              && loc in fs.files && fs.files[loc] == file.content
              && db.table == old(db.table) + [NewImage(Uuid4Text(o.recordEntropy), file.filename, |file.content|, loc)
                                                .(id := Some(old(db.nextId)))]
    // a write fault stops the upload at the write, and a store fault fails it
    ensures stopped != Validate && stopped != MakeFolder && !o.writeFault.NoWriteFault? ==> stopped == WriteFile
    ensures stopped == Done ==> o.writeFault.NoWriteFault? && o.dbFaults == DbFaults(None, None)
    // a failed commit adds no row; a failed refresh leaves the committed row
    ensures stopped == SaveRecord && o.dbFaults.commit.Some? ==> db.table == old(db.table)
    // the id counter moves only with the table
    ensures db.table == old(db.table) ==> db.nextId == old(db.nextId)
    ensures stopped == SaveRecord && o.dbFaults.commit.None? ==>
              db.table == old(db.table) + [NewImage(Uuid4Text(o.recordEntropy), file.filename, |file.content|,
                                                    FileLocation(base, o, file.filename)).(id := Some(old(db.nextId)))]
    // no orphan record, given a fresh file name
    ensures old(Consistent(fs, db)) && FileLocation(base, o, file.filename) !in old(fs.files) ==> Consistent(fs, db)
  {
    if !AllowedFile(file.filename, allowed) {
      out, stopped := Raise(InvalidExtension(allowed)), Validate;
      return;
    }
    var uniqueFilename := UniqueFilename(o.nameEntropy, file.filename);
    var location, stored, step := StoreInDateFolder(fs, db, base, o.today, uniqueFilename, file,
                                                    Uuid4Text(o.recordEntropy), o.mkdirFault, o.writeFault,
                                                    o.dbFaults, false);
    stopped := step;
    ghost var loc := FileLocation(base, o, file.filename);
    assert DateFolder(base, o.today) + [uniqueFilename] == loc;
    if location.Err? {
      out := Answer(location.error);
    } else if stored.Err? {
      out := Answer(stored.error);
      if step == SaveRecord {
        RecordFailureAnswered(o.dbFaults);
      }
    } else {
      out := Respond(200, Uploaded("Image uploaded successfully", PathText(location.value), stored.value));
    }
  }
}
