# Image upload core, modelled in Dafny

This project models the upload path of a small FastAPI image service and
proves properties of the model. An upload runs these steps in order:

1. check the file name's extension against an allow-list;
2. name the stored file after a fresh version-4 UUID, keeping the name's last suffix;
3. make today's `YYYY-MM-DD` folder under the data directory;
4. write the bytes there;
5. record an `Image` row: name, size on disk, raw suffix, path and a second fresh UUID.

The first failing step ends the upload. The service function
`handle_image_upload` turns every failure into an HTTP error. The router
endpoint `upload_image` runs the same steps inline and maps errors its own way.

Layout, one module per file:

- `text.dfy` (`Text`): Python's `str.split`, `rsplit(sep, 1)`, `str.join`,
  ASCII `str.lower` and zero-padded decimal digits, with their round trips.
- `exceptions.dfy` (`Exceptions`): the exceptions as values, their `str()`,
  and the `Option`/`Result` wrappers that stand in for raising.
- `file_utils.dfy` (`FileUtils`):
  - `allowed_file`;
  - the RFC 3339 full-date folder name and its parser;
  - the RFC 4122 text of `uuid4()` and its parser;
  - the filesystem, as the class `FileSystem` with a set of directories and a map from file paths to bytes;
  - `create_date_folder` and `save_file`.
- `models.dfy` (`Models`): the `Image` record.
- `db_crud.dfy` (`DbCrud`):
  - the database session, as the class `Session` with the committed table, the pending rows and the next id;
  - `save_image_metadata`;
  - the "no record without its file" invariant.
- `services.dfy` (`Services`): the allow-list taken from the environment, the unique name, the location, and `handle_image_upload`.
- `upload_router.dfy` (`UploadRouter`): `upload_image` and its answers.

The environment is an input. The 16 random bytes of each `uuid4()` call,
today's date, and the faults of the folder, write, commit and refresh steps
are fields of an `Oracle` value. The four methods that run the upload's
later steps (`WriteThenRecord`, `StoreInDateFolder`, `HandleImageUpload`,
`UploadImage`) also return a ghost `Step` that names the step where the
upload stopped. The contracts use it to tell the
failure cases apart.

## Model

| member | source | states |
|---|---|---|
| Text.Split | project/app/image_upload/Services.py:11 | `split(',')` gives at least one piece, and no piece contains the separator |
| Text.JoinSplit | project/app/image_upload/Services.py:11 | joining the pieces of a split with the separator gives the original text back |
| Text.SplitJoin | project/app/image_upload/Services.py:11 | splitting a join of separator-free pieces gives the pieces back |
| Text.Join | project/app/image_upload/Services.py:20 | `", ".join(entries)`: the joined text starts with the first entry; for a one-character separator such as the ',' of the allow-list, `Split` is its inverse (`SplitJoin`, `JoinSplit`) |
| Text.SplitAround | project/app/image_upload/Services.py:23 | splitting at one separator splits the text on each side independently |
| Text.LastIndex | project/app/utils/file_utils.py:10 | the index `rsplit('.', 1)` cuts at holds a '.', and no '.' follows it |
| Text.RSplitOnce | project/app/utils/file_utils.py:10 | `rsplit(sep, 1)` on a text holding `sep`: the two halves with `sep` between them rebuild the text, and the second half holds no `sep` |
| Text.RSplitOnceIsLastPiece | project/app/utils/file_utils.py:10 | `rsplit('.', 1)[1]` equals `split('.')[-1]` when the name has a '.', and the two halves rebuild the name |
| Text.LastPieceOf | project/app/image_upload/Services.py:23 | for `stem + '.' + tail` with no '.' in `tail`, `split('.')[-1]` is `tail` |
| Text.LastPieceNoSep | project/app/image_upload/Services.py:23 | without a '.', `split('.')[-1]` is the whole name |
| Text.Lower | project/app/utils/file_utils.py:10 | `lower()` keeps the length, maps each character, and leaves no upper-case letter |
| Text.LowerIdempotent | project/app/utils/file_utils.py:10 | lower-casing twice equals lower-casing once |
| Text.LowerAppend | project/app/utils/file_utils.py:10 | lower-casing distributes over concatenation |
| Text.LowerKeeps | project/app/utils/file_utils.py:10 | a non-letter, such as '.', occurs in the lower-cased text exactly when it occurs in the text |
| Text.LowerFixed | project/app/utils/file_utils.py:10 | a text is its own lower-case form exactly when it has no upper-case letter |
| Text.Digits | project/app/utils/file_utils.py:14 | zero-padded decimal has exactly the requested width and only digits |
| Text.Value | project/app/utils/file_utils.py:14 | a digit string of width w denotes a number below 10^w |
| Text.ValueOfDigits | project/app/utils/file_utils.py:14 | reading zero-padded digits back gives the number |
| Text.DigitsOfValue | project/app/utils/file_utils.py:14 | writing back the number a digit string denotes, at its width, gives the string |
| Exceptions.Str | project/app/image_upload/Services.py:51 | `str(e)`: an OSError's text ends with the `repr` of its file name; any other exception's text is its message |
| Exceptions.Repr | project/app/utils/file_utils.py:29 | `repr` of a file name: quoted with the same quote at both ends, and never shorter than the name plus two quotes |
| Exceptions.Escaped | project/app/utils/file_utils.py:29 | the text between `repr`'s quotes is never shorter than the name, and equals it when nothing needs a backslash |
| Exceptions.ReprPlain | project/app/utils/file_utils.py:29 | a name without quotes, backslashes or line breaks is shown verbatim in single quotes |
| Exceptions.ReprApostrophe | project/app/utils/file_utils.py:29 | a name with a single quote and no double quote is shown verbatim in double quotes |
| FileUtils.RawSuffix | project/app/image_upload/db_crud.py:15 | `filename.split('.')[-1]` holds no '.'; with a '.' in the name it is the part after the last one (the name is `rsplit`'s first half, '.', the suffix); without one it is the whole name |
| FileUtils.AllowedFile | project/app/utils/file_utils.py:8-10 | accepted iff the name has a '.' and the lower-cased text after its last '.' is an allow-list entry |
| FileUtils.NoDotRejected | project/app/utils/file_utils.py:10 | a name without '.' is rejected |
| FileUtils.EmptyAllowListRejects | project/app/utils/file_utils.py:10 | an empty allow-list rejects every name |
| FileUtils.AllowedFileAt | project/app/utils/file_utils.py:10 | for any stem, `stem.suffix` (with no '.' in the suffix) has raw suffix `suffix` and is accepted iff `lower(suffix)` is listed |
| FileUtils.LastSuffixAccepted | project/app/utils/file_utils.py:10 | only the last suffix counts: any `….exe.png` is accepted under `[jpg, png]` |
| FileUtils.LastSuffixRejected | project/app/utils/file_utils.py:10 | only the last suffix counts: any `….png.exe` is rejected under `[jpg, png]` |
| FileUtils.SuffixCaseIrrelevant | project/app/utils/file_utils.py:10 | two suffixes that agree up to letter case get the same verdict |
| FileUtils.AllowedFileIgnoresCase | project/app/utils/file_utils.py:10 | lower-casing the whole name never changes the verdict |
| FileUtils.LowerCaseEntries | project/app/utils/file_utils.py:10 | keeps exactly the allow-list entries that have no upper-case letter |
| FileUtils.UpperCaseEntriesNeverMatch | project/app/utils/file_utils.py:10 | dropping the entries that have an upper-case letter never changes the verdict, because the list is matched verbatim |
| FileUtils.AcceptedSuffixHasNoSlash | project/app/utils/file_utils.py:10 | when no entry contains '/', an accepted name's suffix contains none, so the stored name is one path component |
| FileUtils.DateFolderName | project/app/utils/file_utils.py:14 | `strftime('%Y-%m-%d')` is 10 characters: digits, with '-' at indices 4 and 7 |
| FileUtils.ParseDateFolder | project/app/utils/file_utils.py:14 | a folder name parsed as a date gives a valid calendar date (RFC 3339 section 5.7) |
| FileUtils.DateFolderRoundTrip | project/app/utils/file_utils.py:14 | every date's folder name parses back to that date |
| FileUtils.ParsedDateFolderName | project/app/utils/file_utils.py:14 | every name that parses as a date is that date's folder name |
| FileUtils.DateFolderNameInjective | project/app/utils/file_utils.py:14-15 | different days get different folders |
| FileUtils.DateFolder | project/app/utils/file_utils.py:14-15 | `base_dir / current_date` is `base` with one more component, which has the `YYYY-MM-DD` shape |
| FileUtils.Hex | project/app/utils/file_utils.py:21 | two lower-case hex digits per byte |
| FileUtils.UnHex | project/app/utils/file_utils.py:21 | reading hex back gives one byte per two digits |
| FileUtils.UnHexHex | project/app/utils/file_utils.py:21 | reading a byte string's hex back gives the bytes |
| FileUtils.HexAppend | project/app/utils/file_utils.py:21 | hex is computed byte by byte, so it distributes over concatenation |
| FileUtils.Uuid4Bytes | project/app/utils/file_utils.py:21 | `uuid4()` sets version 4 in byte 6 and variant 10 in byte 8 (RFC 4122 section 4.4), and keeps the other 122 random bits |
| FileUtils.Uuid4Text | project/app/utils/file_utils.py:19-21 | `str(uuid4())` is 36 characters, '-' at 8, 13, 18 and 23, lower-case hex elsewhere, '4' at 14, and one of `89ab` at 19 |
| FileUtils.ParseUuid | project/app/utils/file_utils.py:21 | a parsed UUID text gives 16 bytes |
| FileUtils.ParseUuid4Text | project/app/utils/file_utils.py:21 | the text of a generated UUID parses back to its bytes |
| FileUtils.Uuid4TextInjective | project/app/utils/file_utils.py:21 | two UUID texts are equal only when their bytes are |
| FileUtils.PathTextChild | project/app/image_upload/Services.py:29 | `str(dir / name)` is `str(dir)`, then '/', then the name |
| FileUtils.Prefixes | project/app/utils/file_utils.py:16 | the set of a path's ancestors holds the path itself and the root |
| FileUtils.MkdirError | project/app/utils/file_utils.py:16 | a failing `mkdir` raises an OSError or the environment's fault, never an HTTPException |
| FileUtils.FileSystem.MakeDirs | project/app/utils/file_utils.py:16 | `mkdir(parents=True, exist_ok=True)`: an existing directory is kept and is no error; otherwise it fails iff the path or an ancestor is a file, or the environment refuses, and the error says which; on success the path and all its ancestors are directories; files never change |
| FileUtils.FileSystem.PrefixesOfDir | project/app/utils/file_utils.py:16 | in a valid tree, every ancestor of a directory is a directory |
| FileUtils.FileSystem.ParentOfClearPath | project/app/image_upload/Services.py:29 | if no ancestor of `folder / name` is a file, then `folder` is no file and has no file ancestor |
| FileUtils.FileSystem.GetSize | project/app/image_upload/db_crud.py:14 | `os.path.getsize` is the byte length of the file; for a missing file it raises errno 2 naming the path |
| FileUtils.FileSystem.WriteFile | project/app/utils/file_utils.py:26-27 | `open("wb")` and one write: succeeds iff the parent is a directory, no ancestor is a file, the path is no directory and nothing fails; replaces any earlier content; a late fault leaves a prefix of the bytes; directories never change |
| FileUtils.CreateDateFolder | project/app/utils/file_utils.py:12-17 | returns `base/YYYY-MM-DD` and makes it a directory, together with its ancestors; an existing folder is kept with nothing changed (idempotent); it fails iff `mkdir` does, with `mkdir`'s error; files never change |
| FileUtils.SaveFile | project/app/utils/file_utils.py:23-29 | on success the file holds exactly the upload's bytes and no other path changes; every failure is an HTTP 500 whose detail starts "Error saving file: ", and leaves the files as they were or the location holding a prefix of the bytes; directories never change |
| DbCrud.Numbered | project/app/image_upload/db_crud.py:22 | the committed rows are the pending ones in order, with consecutive ids from the next free one |
| DbCrud.Session.Add | project/app/image_upload/db_crud.py:21 | `db.add` appends to the pending rows and leaves the table alone |
| DbCrud.Session.Commit | project/app/image_upload/db_crud.py:22 | a commit succeeds iff the store does not fail; it appends the pending rows, numbered consecutively from the next free id, and empties the pending list; a failing commit raises the store's error and leaves the table, the counter and the pending list alone |
| DbCrud.NewImage | project/app/image_upload/db_crud.py:11-19 | the record `models.Image(...)` builds has no id yet, an extension without '.', and `str(file_location)` as its path |
| DbCrud.Session.Refresh | project/app/image_upload/db_crud.py:23 | a refresh succeeds iff the row is committed and nothing fails, and returns the row |
| DbCrud.ConsistentAfterWrite | project/app/image_upload/Services.py:32-35 | writing a file at a new path keeps every row's file, and rows that describe the new file keep the table consistent |
| DbCrud.InsertImage | project/app/image_upload/db_crud.py:11-25 | the record has the name verbatim, the size on disk, the raw suffix, `str(location)` and the given uuid; the first failing step's exception comes out unchanged; a successful commit appends exactly that row with a new id, even when the refresh after it fails, and otherwise the table is unchanged; the record stays pending exactly when the commit failed; no record exists without its file; the id counter moves only when the table does |
| DbCrud.SaveImageMetadata | project/app/image_upload/db_crud.py:8-27 | the same record, table, pending list and consistency as `InsertImage`, including the row a failed refresh leaves committed; every failure is re-raised with "Error while saving image metadata: " in front of the original text |
| Services.AllowedExtensions | project/app/image_upload/Services.py:11 | the allow-list is the environment value (default "jpg,png") split on ','; joining the entries with ',' gives that value back |
| Services.DefaultAllowList | project/app/image_upload/Services.py:11 | without the variable the allow-list is exactly `["jpg", "png"]` |
| Services.EntriesNotTrimmed | project/app/image_upload/Services.py:11 | entries are not trimmed: "jpg, png" gives `["jpg", " png"]` |
| Services.UniqueFilename | project/app/image_upload/Services.py:23 | the stored name is a UUID text, one '.', then the upload's raw suffix, which holds no '.' |
| Services.UniqueFilenameFacts | project/app/image_upload/Services.py:23 | the stored name's raw suffix is the upload's raw suffix, case kept; two stored names are equal only when their UUIDs' bytes are |
| Services.FileLocation | project/app/image_upload/Services.py:29 | `date_folder / unique_filename`: the date folder with one more component, which holds a '.' |
| Services.FileLocationText | project/app/image_upload/Services.py:26-29 | the location's parent is `base/YYYY-MM-DD`, and its text is `str(base)/YYYY-MM-DD/uuid.suffix` |
| Services.InvalidExtension | project/app/image_upload/Services.py:18-21 | a 400 whose detail starts "Invalid file extension. Allowed extensions are: " and continues with the first allowed entry |
| Services.AsHttpError | project/app/image_upload/Services.py:46-51 | an HTTPException passes through unchanged; any other exception becomes a 500 whose detail starts "Failed to upload image: " |
| Services.RecordFailureReaches | project/app/image_upload/Services.py:49-51 | a failed record reaches the client as a 500 with the store's message behind both prefixes |
| Services.RecordWritten | project/app/image_upload/Services.py:35 | recording a completely written file succeeds iff the store does not fail; a failure is the store's message, with the metadata prefix when it goes through `save_image_metadata`; a failed commit adds no row, any other outcome adds exactly the record; the record stays pending exactly when the commit failed; the id counter moves only when the table does |
| Services.WriteThenRecord | project/app/image_upload/Services.py:32-35 | the record is attempted only after a complete write; the step succeeds only with no write fault and no store fault; a failed write leaves the table alone and the files as they were or with a prefix of the bytes at the location; a failed record leaves exactly the written file, no row after a failed commit and the committed row after a failed refresh; directories never change; the pending list holds the record only after a failed commit; the id counter moves only when the table does |
| Services.StoreInDateFolder | project/app/image_upload/Services.py:26-35 | after validation: a failing folder changes nothing and reports `mkdir`'s error; otherwise the folder and its ancestors exist, a write fault stops it at the write, a store fault fails it, and the write and the record run as in `WriteThenRecord` at `folder / name`, with the same files, table and pending list afterwards |
| Services.HandleImageUpload | project/app/image_upload/Services.py:15-51 | 400 iff the name is rejected, with nothing changed; a 500 naming the folder error, with nothing changed; once the folder exists a write fault gives `save_file`'s 500 unchanged, with no record, the new folders kept and at most a prefix of the bytes at the location; a store fault gives a 500 with both prefixes, with the new folders and exactly the written file kept, no row after a failed commit and the committed row after a failed refresh; success happens iff no step fails, with the message, `str(location)`, exactly the new folders, the one new file and one new row with the specified fields; the record stays pending only after a failed commit; the file is written before any row; no record without its file; the id counter moves only when the table does |
| UploadRouter.Answer | project/app/routers/upload.py:84-89 | an HTTPException is raised again unchanged; any other exception is answered with status 500 and message "Failed to upload image" |
| UploadRouter.RecordFailureAnswered | project/app/routers/upload.py:87-89 | a failed inline record is answered with the store's message, without any prefix |
| UploadRouter.UploadImage | project/app/routers/upload.py:30-89 | the same steps, fault outcomes and effects on folders, files, table, id counter and pending list as the service, including the row a failed refresh leaves committed; a rejected name raises the 400; a failed folder or record is a 500 response carrying the bare exception text; `save_file`'s 500 is raised again; the 200 response the code builds, with the message, `str(location)` and the record, comes iff no step fails (its JSON rendering is not modelled, see "Left out") |

## Left out

- Unicode: `lower()` is modelled on ASCII letters only. Other characters are kept as they are.
- The model's `FileSystem.GetSize` reports a directory as a missing file, whereas `os.path.getsize` returns the directory entry's size. The location is never a directory when the size is measured, so this does not matter.
- Path normalisation: a suffix containing '/' would make pathlib split the stored name into two components. The model keeps the name as one component. `FileUtils.AcceptedSuffixHasNoSlash` shows this cannot happen unless an allow-list entry contains '/'.
- A missing upload file name (`None`) is not modelled. Names are strings.
- Years: the date is limited to Python's years 1 to 9999. `%Y` padding below year 1000 is taken as four digits.
- Timestamps: `created_at` and `updated_at` are not modelled. They come from separate clock reads.
- Store-side defaults of the ORM are not modelled.
- The record's `.dict()` and the JSON rendering of responses are not modelled.
- UploadRouter.UploadImage: the model ends a completed upload with the 200 response the code builds. In the source, building `JSONResponse` renders the content at once. The record's `created_at` and `updated_at` are datetimes, which `json.dumps` cannot serialise, so the resulting `TypeError` is caught, and the client gets a 500 `{"message": "Failed to upload image", "error": "Object of type datetime is not JSON serializable"}`. The file and the committed row are kept. `handle_image_upload` returns its dict unrendered and is not affected.
- Logging is not modelled.
- Async: each awaited call is one sequential step. Concurrent uploads are not modelled.
- Database setup, `get_db`, the routing in `Route.py` and `main.py`, and creating the data directory at import time are not part of this model.
- The duplicate `project/app/image-upload/db_crud.py` is not part of this model: it cannot be imported.
- DbCrud.Session.Refresh: reloading a row is the identity, because the model has no column the store changes on its own.
- An injected folder fault changes nothing. A real `mkdir` could create some ancestors before it fails.
- Services.HandleImageUpload and UploadRouter.UploadImage: the no-orphan-record guarantee needs the generated location to be new. `open("wb")` overwrites an existing file, and this could change the size behind an older record.
- The stored `extension` is the raw suffix, not lower-cased. `save_file` opens with `"wb"` and overwrites. No file is deleted when the write or the record fails.
- Exceptions.Str: `repr` is modelled for the quote choice and the escapes of backslash, quote, tab, newline and carriage return. Python also escapes other non-printable characters, which the model shows as they are.
- DbCrud.Session.Refresh: refreshing a record that is not a row raises a fixed message here. SQLAlchemy's message names the instance. The upload only refreshes the row it has just committed, so this text is never produced.
- DbCrud.Session.Commit: ids come from a counter with no gaps, and a failed commit does not use one up. The store assigns the id (`models.Image.id` is the primary key), and a real sequence may leave gaps. The same holds for the ids that Services.HandleImageUpload and UploadRouter.UploadImage state. What the source relies on is that the id is new, which DbCrud.InsertImage also states on its own.
- DbCrud.InsertImage: after a failed commit the record stays pending in the session, and the upload methods require an empty pending list. Each request gets a fresh session from `get_db`, so running a second upload on a session whose commit failed (SQLAlchemy would need a rollback first) is not modelled.
- Download by identifier is not modelled: there is no code for it.
