/** `handle_image_upload`: validate the extension, name the file after a
    fresh uuid, make today's folder, write the bytes, then record them. */
module Services {
  import opened Text
  import opened Exceptions
  import opened FileUtils
  import opened Models
  import opened DbCrud

  const DefaultAllowedExtensions: string := "jpg,png"

  /** `os.getenv("ALLOWED_IMAGE_EXTENSIONS", "jpg,png").split(',')`: the
      entries are the comma-separated pieces, untrimmed. */
  function AllowedExtensions(env: Option<string>): (exts: seq<string>)
    ensures |exts| >= 1 && forall i :: 0 <= i < |exts| ==> ',' !in exts[i]
    ensures Join(exts, ",") == env.GetOr(DefaultAllowedExtensions)
  {
    JoinSplit(env.GetOr(DefaultAllowedExtensions), ',');
    Split(env.GetOr(DefaultAllowedExtensions), ',')
  }

  /** Without the variable the allow-list is jpg and png. */
  lemma DefaultAllowList()
    ensures AllowedExtensions(None) == ["jpg", "png"]
  {
    SplitJoin(["jpg", "png"], ',');
    assert Join(["jpg", "png"], ",") == DefaultAllowedExtensions;
  }

  /** Spaces after the commas stay part of the entries. */
  lemma EntriesNotTrimmed()
    ensures AllowedExtensions(Some("jpg, png")) == ["jpg", " png"]
  {
    SplitJoin(["jpg", " png"], ',');
    assert Join(["jpg", " png"], ",") == "jpg, png";
  }

  /** What the environment decides during one upload: the random bytes of the
      two `uuid4()` calls, today's date, and the faults of each step. */
  datatype Oracle = Oracle(
    nameEntropy: seq<byte>,
    recordEntropy: seq<byte>,
    today: Date,
    mkdirFault: Option<string>,
    writeFault: WriteFault,
    dbFaults: DbFaults)

  predicate ValidOracle(o: Oracle)
  {
    |o.nameEntropy| == 16 && |o.recordEntropy| == 16 && ValidDate(o.today)
  }

  /** `generate_uuid() + "." + file.filename.split('.')[-1]`. */
  function UniqueFilename(nameEntropy: seq<byte>, filename: string): (n: string)
    requires |nameEntropy| == 16
    ensures |n| == 37 + |RawSuffix(filename)| && n[36] == '.'
    ensures IsUuidShape(n[..36]) && '.' !in n[37..]
  {
    Uuid4Text(nameEntropy) + "." + RawSuffix(filename)
  }

  /** `date_folder / unique_filename`. */
  function FileLocation(base: Path, o: Oracle, filename: string): (loc: Path)
    requires ValidOracle(o)
    ensures |loc| == |base| + 2 && loc[..|loc| - 1] == DateFolder(base, o.today)
    ensures '.' in loc[|loc| - 1]
  {
    DateFolder(base, o.today) + [UniqueFilename(o.nameEntropy, filename)]
  }

  /** The stored name keeps the upload's raw suffix after its one '.', and
      two stored names are equal only when their uuids' random bits are. */
  lemma UniqueFilenameFacts(e1: seq<byte>, f1: string, e2: seq<byte>, f2: string)
    requires |e1| == 16 && |e2| == 16
    ensures RawSuffix(UniqueFilename(e1, f1)) == RawSuffix(f1)
    ensures UniqueFilename(e1, f1) == UniqueFilename(e2, f2) ==> Uuid4Bytes(e1) == Uuid4Bytes(e2)
  {
    var u1 := Uuid4Text(e1);
    var s1 := RawSuffix(f1);
    assert UniqueFilename(e1, f1) == u1 + ['.'] + s1;
    LastPieceOf(u1, '.', s1);
    if UniqueFilename(e1, f1) == UniqueFilename(e2, f2) {
      UuidPrefix(e1, f1);
      UuidPrefix(e2, f2);
      Uuid4TextInjective(e1, e2);
    }
  }

  /** The first 36 characters of the stored name are the uuid. */
  lemma UuidPrefix(e: seq<byte>, f: string)
    requires |e| == 16
    ensures UniqueFilename(e, f)[..36] == Uuid4Text(e)
  {
  }

  /** The file's parent is `base/YYYY-MM-DD` and its text is
      `str(base) + "/" + YYYY-MM-DD + "/" + uuid + "." + suffix`. */
  lemma FileLocationText(base: Path, o: Oracle, filename: string)
    requires ValidOracle(o) && base != []
    ensures FileLocation(base, o, filename)[..|base| + 1] == base + [DateFolderName(o.today)]
    ensures PathText(FileLocation(base, o, filename)) ==
            PathText(base) + "/" + DateFolderName(o.today) + "/" + Uuid4Text(o.nameEntropy) + "." + RawSuffix(filename)
  {
    var folder := DateFolder(base, o.today);
    PathTextChild(base, DateFolderName(o.today));
    PathTextChild(folder, UniqueFilename(o.nameEntropy, filename));
  }

  const InvalidExtensionPrefix: string := "Invalid file extension. Allowed extensions are: "

  /** The 400 a rejected name raises; its detail lists the allow-list, first entry first. */
  function InvalidExtension(allowed: seq<string>): (e: Raised)
    ensures e.HTTPException? && e.statusCode == 400 && StartsWith(e.detail, InvalidExtensionPrefix)
    ensures |allowed| >= 1 ==> StartsWith(e.detail[|InvalidExtensionPrefix|..], allowed[0])
  {
    HTTPException(400, InvalidExtensionPrefix + Join(allowed, ", "))
  }

  const UploadFailedPrefix: string := "Failed to upload image: "

  /** `except Exception as e: raise HTTPException(500, f"Failed to upload image: {e}")`,
      with HTTPExceptions passed through unchanged. */
  function AsHttpError(e: Raised): (h: Raised)
    ensures h.HTTPException?
    ensures e.HTTPException? ==> h == e
    ensures !e.HTTPException? ==> h.statusCode == 500 && StartsWith(h.detail, UploadFailedPrefix)
  {
    if e.HTTPException? then e else HTTPException(500, UploadFailedPrefix + Str(e))
  }

  /** A failed record reaches the client as a 500 whose detail is the store's
      message behind both prefixes. */
  lemma RecordFailureReaches(faults: DbFaults)
    requires faults.commit.Some? || faults.refresh.Some?
    ensures AsHttpError(RecordFailure(faults, true)) ==
            HTTPException(500, UploadFailedPrefix + (MetadataErrorPrefix + StoreMessage(faults)))
  {
  }

  /** The dictionary `handle_image_upload` returns. */
  datatype UploadResponse = UploadResponse(message: string, filePath: string, metadata: Image)

  /** The step at which an upload stopped; `Done` when it went through. */
  datatype Step = Validate | MakeFolder | WriteFile | SaveRecord | Done

  /** The store's message when recording a completely written file fails:
      the commit's, else the refresh's. */
  function StoreMessage(faults: DbFaults): string
    requires faults.commit.Some? || faults.refresh.Some?
  {
    if faults.commit.Some? then faults.commit.value else faults.refresh.value
  }

  /** The exception a failed record step raises: `save_image_metadata`
      re-raises it with its prefix (`wrapped`), the router's inline steps
      let the store's own exception through. */
  function RecordFailure(faults: DbFaults, wrapped: bool): Raised
    requires faults.commit.Some? || faults.refresh.Some?
  {
    Failure(if wrapped then MetadataErrorPrefix + StoreMessage(faults) else StoreMessage(faults))
  }

  /** The record step for a completely written file: `save_image_metadata`
      when `wrapped`, the router's inline steps otherwise. */
  method RecordWritten(fs: FileSystem, db: Session, location: Path, file: Upload, recordUuid: string,
                       dbFaults: DbFaults, wrapped: bool)
    returns (r: Result<Image>)
    requires db.Valid() && db.pending == [] && location in fs.files && fs.files[location] == file.content
    modifies db
    ensures db.Valid()
    ensures r.Ok? <==> dbFaults == DbFaults(None, None)
    ensures r.Err? ==> (dbFaults.commit.Some? || dbFaults.refresh.Some?) && r.error == RecordFailure(dbFaults, wrapped)
    ensures db.pending == if dbFaults.commit.Some?
                          then [NewImage(recordUuid, file.filename, |file.content|, location)] else []
    ensures r.Ok? ==> && db.table == old(db.table) + [r.value]
                      && r.value.name == file.filename
                      && r.value.size == |file.content|
                      && r.value.extension == RawSuffix(file.filename)
                      && r.value.path == PathText(location)
                      && r.value.uuid == recordUuid
    ensures dbFaults.commit.None? ==>
              db.table == old(db.table) + [NewImage(recordUuid, file.filename, |file.content|, location)
                                             .(id := Some(old(db.nextId)))]
    ensures dbFaults.commit.Some? ==> db.table == old(db.table)
    ensures db.table == old(db.table) ==> db.nextId == old(db.nextId)
    ensures old(Consistent(fs, db)) ==> Consistent(fs, db)
  {
    if wrapped {
      r := SaveImageMetadata(fs, db, location, file.filename, recordUuid, dbFaults);
    } else {
      r := InsertImage(fs, db, location, file.filename, recordUuid, dbFaults);
    }
  }

  /** The last two steps of an upload: `await save_file(file, location)`,
      then the record, through `save_image_metadata` when `wrapped` and
      inline otherwise; the record is only attempted once the file is
      written, so `os.path.getsize` always finds it. */
  method WriteThenRecord(fs: FileSystem, db: Session, location: Path, file: Upload, recordUuid: string,
                         writeFault: WriteFault, dbFaults: DbFaults, wrapped: bool)
    returns (r: Result<Image>, ghost stopped: Step)
    requires fs.Valid() && db.Valid() && db.pending == []
    modifies fs, db
    ensures fs.Valid() && db.Valid() && fs.dirs == old(fs.dirs)
    ensures stopped == WriteFile || stopped == SaveRecord || stopped == Done
    ensures r.Ok? <==> stopped == Done
    ensures stopped == WriteFile <==> !(old(fs.CanOpen(location)) && writeFault.NoWriteFault?)
    ensures stopped == WriteFile ==> && r.error.HTTPException? && r.error.statusCode == 500
                                     && StartsWith(r.error.detail, "Error saving file: ")
                                     && db.table == old(db.table)
    ensures stopped == SaveRecord ==> && (dbFaults.commit.Some? || dbFaults.refresh.Some?)
                                      && r.error == RecordFailure(dbFaults, wrapped)
    ensures stopped == WriteFile ==> PartlyWritten(old(fs.files), fs.files, location, file.content)
    ensures stopped != WriteFile ==> fs.files == old(fs.files)[location := file.content]
    ensures db.pending == if stopped == SaveRecord && dbFaults.commit.Some?
                          then [NewImage(recordUuid, file.filename, |file.content|, location)] else []
    ensures r.Ok? ==> && db.table == old(db.table) + [r.value]
                      && r.value.name == file.filename
                      && r.value.size == |file.content|
                      && r.value.extension == RawSuffix(file.filename)
                      && r.value.path == PathText(location)
                      && r.value.uuid == recordUuid
    ensures old(fs.CanOpen(location)) && writeFault.NoWriteFault? && dbFaults == DbFaults(None, None) ==> r.Ok?
    ensures db.table != old(db.table) ==>
              && location in fs.files && fs.files[location] == file.content
              && db.table == old(db.table) + [NewImage(recordUuid, file.filename, |file.content|, location)
                                                .(id := Some(old(db.nextId)))]
    // a store fault fails the step; a failed refresh still leaves the committed row
    ensures r.Ok? ==> dbFaults == DbFaults(None, None)
    ensures stopped == SaveRecord && dbFaults.commit.Some? ==> db.table == old(db.table)
    ensures db.table == old(db.table) ==> db.nextId == old(db.nextId)
    ensures stopped == SaveRecord && dbFaults.commit.None? ==>
              db.table == old(db.table) + [NewImage(recordUuid, file.filename, |file.content|, location)
                                             .(id := Some(old(db.nextId)))]
    ensures old(Consistent(fs, db)) && location !in old(fs.files) ==> Consistent(fs, db)
  {
    ghost var files0 := fs.files;
    var saved := SaveFile(fs, file.content, location, writeFault);
    if saved.Err? {
      r, stopped := Err(saved.error), WriteFile;
      if ConsistentRows(files0, db.table) && location !in files0 && fs.files != files0 {
        ConsistentAfterWrite(files0, db.table, location, fs.files[location], []);
        assert db.table + [] == db.table;
      }
      return;
    }
    if ConsistentRows(files0, db.table) && location !in files0 {
      ConsistentAfterWrite(files0, db.table, location, file.content, []);
      assert db.table + [] == db.table;
    }
    r := RecordWritten(fs, db, location, file, recordUuid, dbFaults, wrapped);
    stopped := if r.Ok? then Done else SaveRecord;
  }

  /** The steps of an upload after validation: make today's folder under
      `base`, then write the bytes as `name` inside it and record them. A
      failed folder leaves everything as it was. */
  method StoreInDateFolder(fs: FileSystem, db: Session, base: Path, today: Date, name: string, file: Upload,
                           recordUuid: string, mkdirFault: Option<string>, writeFault: WriteFault,
                           dbFaults: DbFaults, wrapped: bool)
    returns (r: Result<Path>, stored: Result<Image>, ghost stopped: Step)
    requires fs.Valid() && db.Valid() && db.pending == [] && ValidDate(today)
    modifies fs, db
    ensures fs.Valid() && db.Valid()
    ensures stopped == MakeFolder || stopped == WriteFile || stopped == SaveRecord || stopped == Done
    ensures r.Err? <==> stopped == MakeFolder
    ensures stopped == MakeFolder <==> MkdirFails(old(fs.dirs), old(fs.files), DateFolder(base, today), mkdirFault)
    ensures r.Ok? ==> r.value == DateFolder(base, today) + [name]
    ensures stored.Ok? <==> stopped == Done
    ensures stopped == MakeFolder ==> && r.error == MkdirError(old(fs.files), DateFolder(base, today), mkdirFault)
                                      && fs.dirs == old(fs.dirs) && fs.files == old(fs.files) && db.table == old(db.table)
    ensures stopped == WriteFile ==> && stored.error.HTTPException? && stored.error.statusCode == 500
                                     && StartsWith(stored.error.detail, "Error saving file: ")
                                     && db.table == old(db.table)
    ensures stopped == SaveRecord ==> && (dbFaults.commit.Some? || dbFaults.refresh.Some?)
                                      && stored.error == RecordFailure(dbFaults, wrapped)
    ensures stopped != MakeFolder ==> fs.dirs == old(fs.dirs) + Prefixes(DateFolder(base, today))
    ensures stopped == WriteFile ==> PartlyWritten(old(fs.files), fs.files, DateFolder(base, today) + [name], file.content)
    ensures stopped == SaveRecord || stopped == Done ==>
              fs.files == old(fs.files)[DateFolder(base, today) + [name] := file.content]
    ensures db.pending == if stopped == SaveRecord && dbFaults.commit.Some?
                          then [NewImage(recordUuid, file.filename, |file.content|, DateFolder(base, today) + [name])] else []
    ensures stored.Ok? ==> && db.table == old(db.table) + [stored.value]
                           && stored.value.name == file.filename
                           && stored.value.size == |file.content|
                           && stored.value.extension == RawSuffix(file.filename)
                           && stored.value.path == PathText(DateFolder(base, today) + [name])
                           && stored.value.uuid == recordUuid
    ensures mkdirFault.None? && writeFault.NoWriteFault? && dbFaults == DbFaults(None, None) &&
            !AncestorIsFile(old(fs.files), DateFolder(base, today) + [name]) &&
            DateFolder(base, today) + [name] !in old(fs.dirs)
            ==> stored.Ok?
    ensures db.table != old(db.table) ==>
              var loc := DateFolder(base, today) + [name];
              && loc in fs.files && fs.files[loc] == file.content
              && db.table == old(db.table) + [NewImage(recordUuid, file.filename, |file.content|, loc)
                                                .(id := Some(old(db.nextId)))]
    // a write fault stops the upload at the write, and a store fault fails it
    ensures stopped != MakeFolder && !writeFault.NoWriteFault? ==> stopped == WriteFile
    ensures stored.Ok? ==> writeFault.NoWriteFault? && dbFaults == DbFaults(None, None)
    ensures stopped == SaveRecord && dbFaults.commit.Some? ==> db.table == old(db.table)
    ensures db.table == old(db.table) ==> db.nextId == old(db.nextId)
    ensures stopped == SaveRecord && dbFaults.commit.None? ==>
              db.table == old(db.table) + [NewImage(recordUuid, file.filename, |file.content|, DateFolder(base, today) + [name])
                                             .(id := Some(old(db.nextId)))]
    ensures old(Consistent(fs, db)) && DateFolder(base, today) + [name] !in old(fs.files) ==> Consistent(fs, db)
  {
    ghost var folderPath := DateFolder(base, today);
    ghost var target := folderPath + [name];
    ghost var clear := !AncestorIsFile(fs.files, target) && target !in fs.dirs;
    if clear {
      fs.ParentOfClearPath(folderPath, name);
    }
    var folder := CreateDateFolder(fs, base, today, mkdirFault);
    if folder.Err? {
      r, stored, stopped := Err(folder.error), Err(folder.error), MakeFolder;
      return;
    }
    var location := folder.value + [name];
    r := Ok(location);
    assert location[..|location| - 1] == folderPath;
    if clear {
      assert location !in Prefixes(folderPath);
      assert fs.CanOpen(location);
    }
    stored, stopped := WriteThenRecord(fs, db, location, file, recordUuid, writeFault, dbFaults, wrapped);
  }

  /** `handle_image_upload`. The steps run in order and each failure ends the
      upload: a rejected name changes nothing; a failed folder or write leaves
      no record; a failed record leaves the written file. */
  method HandleImageUpload(fs: FileSystem, db: Session, allowed: seq<string>, base: Path, file: Upload, o: Oracle)
    returns (r: Result<UploadResponse>, ghost stopped: Step)
    requires fs.Valid() && db.Valid() && db.pending == [] && ValidOracle(o)
    modifies fs, db
    ensures fs.Valid() && db.Valid()
    ensures r.Ok? <==> stopped == Done
    ensures r.Err? ==> r.error.HTTPException?
    // validation: a rejected name is a 400 and changes nothing
    ensures stopped == Validate <==> !AllowedFile(file.filename, allowed)
    ensures stopped == Validate ==> r == Err(InvalidExtension(allowed))
    ensures stopped == Validate ==> fs.dirs == old(fs.dirs) && fs.files == old(fs.files) && db.table == old(db.table)
    // the folder: its OSError or fault becomes a 500 naming it; nothing is written
    ensures stopped == MakeFolder <==>
              AllowedFile(file.filename, allowed) && MkdirFails(old(fs.dirs), old(fs.files), DateFolder(base, o.today), o.mkdirFault)
    ensures stopped == MakeFolder ==>
              && r == Err(HTTPException(500, UploadFailedPrefix + Str(MkdirError(old(fs.files), DateFolder(base, o.today), o.mkdirFault))))
              && fs.dirs == old(fs.dirs) && fs.files == old(fs.files) && db.table == old(db.table)
    // the write: save_file's 500 passes through unchanged, no record is made
    ensures stopped == WriteFile ==> && r.error.statusCode == 500 && StartsWith(r.error.detail, "Error saving file: ")
                                     && db.table == old(db.table)
                                     && PartlyWritten(old(fs.files), fs.files, FileLocation(base, o, file.filename), file.content)
    // the record: a 500 wrapping the metadata error wrapping the store's message; the file stays
    ensures stopped == SaveRecord ==>
              && (o.dbFaults.commit.Some? || o.dbFaults.refresh.Some?)
              && r == Err(HTTPException(500, UploadFailedPrefix + (MetadataErrorPrefix + StoreMessage(o.dbFaults))))
              && fs.files == old(fs.files)[FileLocation(base, o, file.filename) := file.content]
    // once the folder is made it stays, whatever fails after it
    ensures stopped == WriteFile || stopped == SaveRecord ==> fs.dirs == old(fs.dirs) + Prefixes(DateFolder(base, o.today))
    // the record stays pending in the session only when the commit failed
    ensures db.pending == if stopped == SaveRecord && o.dbFaults.commit.Some?
                          then [NewImage(Uuid4Text(o.recordEntropy), file.filename, |file.content|, FileLocation(base, o, file.filename))]
                          else []
    // success
    ensures r.Ok? ==> var loc := FileLocation(base, o, file.filename);
              && r.value.message == "Image uploaded successfully"
              && r.value.filePath == PathText(loc)
              && fs.dirs == old(fs.dirs) + Prefixes(DateFolder(base, o.today))
              && fs.files == old(fs.files)[loc := file.content]
              && db.table == old(db.table) + [r.value.metadata]
              && r.value.metadata.name == file.filename
              && r.value.metadata.size == |file.content|
              && r.value.metadata.extension == RawSuffix(file.filename)
              && r.value.metadata.path == PathText(loc)
              && r.value.metadata.uuid == Uuid4Text(o.recordEntropy)
    // with no fault and nothing in the way, the upload goes through
    ensures AllowedFile(file.filename, allowed) && o.mkdirFault.None? && o.writeFault.NoWriteFault? &&
            o.dbFaults == DbFaults(None, None) &&
            !AncestorIsFile(old(fs.files), FileLocation(base, o, file.filename)) &&
            FileLocation(base, o, file.filename) !in old(fs.dirs)
            ==> r.Ok?
    // the file is written before the record
    ensures db.table != old(db.table) ==>
              var loc := FileLocation(base, o, file.filename);
              && loc in fs.files && fs.files[loc] == file.content
              && db.table == old(db.table) + [NewImage(Uuid4Text(o.recordEntropy), file.filename, |file.content|, loc)
                                                .(id := Some(old(db.nextId)))]
    // a write fault stops the upload at the write, and a store fault fails it
    ensures stopped != Validate && stopped != MakeFolder && !o.writeFault.NoWriteFault? ==> stopped == WriteFile
    ensures stopped == Done ==> o.writeFault.NoWriteFault? && o.dbFaults == DbFaults(None, None)
    // a failed commit adds no row; a failed refresh leaves the committed row
    ensures stopped == SaveRecord && o.dbFaults.commit.Some? ==> db.table == old(db.table)
    // the id counter moves only with the table
    ensures db.table == old(db.table) ==> db.nextId == old(db.nextId)
    ensures stopped == SaveRecord && o.dbFaults.commit.None? ==>
              db.table == old(db.table) + [NewImage(Uuid4Text(o.recordEntropy), file.filename, |file.content|,
                                                    FileLocation(base, o, file.filename)).(id := Some(old(db.nextId)))]
    // no orphan record, given a fresh file name
    ensures old(Consistent(fs, db)) && FileLocation(base, o, file.filename) !in old(fs.files) ==> Consistent(fs, db)
  {
    if !AllowedFile(file.filename, allowed) {
      r, stopped := Err(InvalidExtension(allowed)), Validate;
      return;
    }
    var uniqueFilename := UniqueFilename(o.nameEntropy, file.filename);
    var location, stored, step := StoreInDateFolder(fs, db, base, o.today, uniqueFilename, file,
                                                    Uuid4Text(o.recordEntropy), o.mkdirFault, o.writeFault,
                                                    o.dbFaults, true);
    stopped := step;
    ghost var loc := FileLocation(base, o, file.filename);
    assert DateFolder(base, o.today) + [uniqueFilename] == loc;
    if location.Err? {
      r := Err(AsHttpError(location.error));
    } else if stored.Err? {
      r := Err(AsHttpError(stored.error));
      if step == SaveRecord {
        RecordFailureReaches(o.dbFaults);
      }
    } else {
      r := Ok(UploadResponse("Image uploaded successfully", PathText(location.value), stored.value));
    }
  }
}
