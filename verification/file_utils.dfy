/** The file-name rules of the upload path and the filesystem they act on:
    the extension allow-list check, the `YYYY-MM-DD` date folder, the text of
    a version-4 UUID, and `save_file`'s overwriting write. */
module FileUtils {
  import opened Text
  import opened Exceptions

  newtype byte = x: int | 0 <= x < 256

  /** An uploaded file as the handlers see it: its client-supplied name and its bytes. */
  datatype Upload = Upload(filename: string, content: seq<byte>)

  // ---------------------------------------------------------------------
  // allowed_file
  // ---------------------------------------------------------------------

  /** `filename.split('.')[-1]`: the raw text after the last '.', case kept
      (the whole name when it has no '.'). */
  function RawSuffix(filename: string): (suffix: string)
    ensures '.' !in suffix
    ensures '.' in filename ==> filename == RSplitOnce(filename, '.').0 + "." + suffix
    ensures '.' !in filename ==> suffix == filename
  {
    if '.' in filename then
      RSplitOnceIsLastPiece(filename, '.');
      LastPiece(filename, '.')
    else
      LastPieceNoSep(filename, '.');
      LastPiece(filename, '.')
  }

  /** `allowed_file`: the text after the last '.', lower-cased, is in the allow-list. */
  function AllowedFile(filename: string, allowed: seq<string>): (ok: bool)
    ensures ok <==> '.' in filename && Lower(RawSuffix(filename)) in allowed
  {
    '.' in filename &&
    (RSplitOnceIsLastPiece(filename, '.');
     Lower(RSplitOnce(filename, '.').1) in allowed)
  }

  /** A name without a '.' is always rejected. */
  lemma NoDotRejected(filename: string, allowed: seq<string>)
    requires '.' !in filename
    ensures !AllowedFile(filename, allowed)
  {
  }

  /** An empty allow-list rejects every name. */
  lemma EmptyAllowListRejects(filename: string)
    ensures !AllowedFile(filename, [])
  {
  }

  /** For any split of the name at a '.' after which no '.' follows, the
      check is membership of the lower-cased tail. */
  lemma AllowedFileAt(stem: string, suffix: string, allowed: seq<string>)
    requires '.' !in suffix
    ensures RawSuffix(stem + "." + suffix) == suffix
    ensures AllowedFile(stem + "." + suffix, allowed) <==> Lower(suffix) in allowed
  {
    LastPieceOf(stem, '.', suffix);
  }

  /** Only the last suffix counts: whatever precedes it, `.exe.png` is
      accepted under the default allow-list ... */
  lemma LastSuffixAccepted(stem: string)
    ensures AllowedFile(stem + ".exe.png", ["jpg", "png"])
  {
    assert Lower("png") == "png" by { LowerFixed("png"); }
    assert stem + ".exe" + "." + "png" == stem + ".exe.png";
    AllowedFileAt(stem + ".exe", "png", ["jpg", "png"]);
  }

  /** ... and `.png.exe` rejected. */
  lemma LastSuffixRejected(stem: string)
    ensures !AllowedFile(stem + ".png.exe", ["jpg", "png"])
  {
    assert Lower("exe") == "exe" by { LowerFixed("exe"); }
    assert stem + ".png" + "." + "exe" == stem + ".png.exe";
    AllowedFileAt(stem + ".png", "exe", ["jpg", "png"]);
  }

  /** Changing the letter case of the suffix never changes the verdict. */
  lemma SuffixCaseIrrelevant(stem: string, s1: string, s2: string, allowed: seq<string>)
    requires '.' !in s1
    requires Lower(s1) == Lower(s2)
    ensures AllowedFile(stem + "." + s1, allowed) == AllowedFile(stem + "." + s2, allowed)
  {
    LowerKeeps(s1, '.');
    LowerKeeps(s2, '.');
    AllowedFileAt(stem, s1, allowed);
    AllowedFileAt(stem, s2, allowed);
  }

  /** Lower-casing the whole name never changes the verdict. */
  lemma AllowedFileIgnoresCase(filename: string, allowed: seq<string>)
    ensures AllowedFile(Lower(filename), allowed) == AllowedFile(filename, allowed)
  {
    LowerKeeps(filename, '.');
    if '.' in filename {
      RSplitOnceIsLastPiece(filename, '.');
      var (stem, suffix) := RSplitOnce(filename, '.');
      LowerAppend(stem + ".", suffix);
      LowerAppend(stem, ".");
      assert Lower(".") == ".";
      LowerKeeps(suffix, '.');
      AllowedFileAt(stem, suffix, allowed);
      AllowedFileAt(Lower(stem), Lower(suffix), allowed);
      LowerIdempotent(suffix);
    }
  }

  /** The entries of the allow-list that are already lower-case. */
  function LowerCaseEntries(allowed: seq<string>): (r: seq<string>)
    ensures forall e :: e in r <==> e in allowed && !HasUpper(e)
  {
    if |allowed| == 0 then []
    else (if HasUpper(allowed[0]) then [] else [allowed[0]]) + LowerCaseEntries(allowed[1..])
  }

  /** The allow-list is matched verbatim against a lower-cased suffix, so an
      entry with an upper-case letter can never match. */
  lemma UpperCaseEntriesNeverMatch(filename: string, allowed: seq<string>)
    ensures AllowedFile(filename, allowed) == AllowedFile(filename, LowerCaseEntries(allowed))
  {
    if '.' in filename {
      LowerIdempotent(RawSuffix(filename));
      LowerFixed(Lower(RawSuffix(filename)));
    }
  }

  /** When no allow-list entry holds a '/', an accepted name's suffix holds none
      either, so the stored name is a single path component. */
  lemma AcceptedSuffixHasNoSlash(filename: string, allowed: seq<string>)
    requires forall i :: 0 <= i < |allowed| ==> '/' !in allowed[i]
    requires AllowedFile(filename, allowed)
    ensures '/' !in RawSuffix(filename)
  {
    LowerKeeps(RawSuffix(filename), '/');
  }

  // ---------------------------------------------------------------------
  // create_date_folder: the RFC 3339 full-date name
  // ---------------------------------------------------------------------

  /** A calendar date as `datetime.now()` supplies it. */
  datatype Date = Date(year: int, month: int, day: int)

  predicate IsLeapYear(year: int)
  {
    year % 4 == 0 && (year % 100 != 0 || year % 400 == 0)
  }

  function DaysInMonth(year: int, month: int): int
    requires 1 <= month <= 12
  {
    if month == 2 then (if IsLeapYear(year) then 29 else 28)
    else if month == 4 || month == 6 || month == 9 || month == 11 then 30
    else 31
  }

  /** The dates Python's `datetime` can represent. */
  predicate ValidDate(d: Date)
  {
    1 <= d.year <= 9999 && 1 <= d.month <= 12 && 1 <= d.day <= DaysInMonth(d.year, d.month)
  }

  /** `YYYY-MM-DD`: four digits, '-', two digits, '-', two digits. */
  predicate IsFullDateShape(s: string)
  {
    |s| == 10 && s[4] == '-' && s[7] == '-' &&
    forall i :: 0 <= i < 10 && i != 4 && i != 7 ==> IsDigit(s[i])
  }

  /** `strftime('%Y-%m-%d')`. */
  function DateFolderName(d: Date): (name: string)
    requires ValidDate(d)
    ensures IsFullDateShape(name)
  {
    Digits(d.year, 4) + "-" + Digits(d.month, 2) + "-" + Digits(d.day, 2)
  }

  /** Reads a folder name back as a date, per the full-date rule of
      section 5.6 of RFC 3339 (with the month lengths of its section 5.7). */
  function ParseDateFolder(s: string): (r: Option<Date>)
    ensures r.Some? ==> ValidDate(r.value)
  {
    if IsFullDateShape(s) then
      var d := Date(Value(s[..4]), Value(s[5..7]), Value(s[8..]));
      if ValidDate(d) then Some(d) else None
    else None
  }

  /** Every date's folder name reads back as that date. */
  lemma DateFolderRoundTrip(d: Date)
    requires ValidDate(d)
    ensures ParseDateFolder(DateFolderName(d)) == Some(d)
  {
    var name := DateFolderName(d);
    assert name[..4] == Digits(d.year, 4);
    assert name[5..7] == Digits(d.month, 2);
    assert name[8..] == Digits(d.day, 2);
    ValueOfDigits(d.year, 4);
    ValueOfDigits(d.month, 2);
    ValueOfDigits(d.day, 2);
  }

  /** Every name that reads as a date is that date's folder name. */
  lemma ParsedDateFolderName(s: string)
    requires ParseDateFolder(s).Some?
    ensures DateFolderName(ParseDateFolder(s).value) == s
  {
    assert forall i :: 0 <= i < 4 ==> s[..4][i] == s[i];
    assert forall i :: 0 <= i < 2 ==> s[5..7][i] == s[5 + i] && s[8..][i] == s[8 + i];
    DigitsOfValue(s[..4]);
    DigitsOfValue(s[5..7]);
    DigitsOfValue(s[8..]);
    assert s == s[..4] + "-" + s[5..7] + "-" + s[8..];
  }

  /** Different days get different folders. */
  lemma DateFolderNameInjective(d1: Date, d2: Date)
    requires ValidDate(d1) && ValidDate(d2)
    requires DateFolderName(d1) == DateFolderName(d2)
    ensures d1 == d2
  {
    DateFolderRoundTrip(d1);
    DateFolderRoundTrip(d2);
  }

  // ---------------------------------------------------------------------
  // generate_uuid: str(uuid.uuid4())
  // ---------------------------------------------------------------------

  predicate IsLowerHex(c: char)
  {
    '0' <= c <= '9' || 'a' <= c <= 'f'
  }

  /** The lower-case hex digit for 0..15. */
  function HexDigit(v: nat): (c: char)
    requires v < 16
    ensures IsLowerHex(c)
  {
    if v < 10 then (48 + v) as char else (87 + v) as char
  }

  function HexValue(c: char): (v: nat)
    requires IsLowerHex(c)
    ensures v < 16 && HexDigit(v) == c
  {
    if c <= '9' then c as int - 48 else c as int - 87
  }

  /** Two lower-case hex digits per byte, most significant first. */
  function Hex(bs: seq<byte>): (s: string)
    ensures |s| == 2 * |bs|
    ensures forall i :: 0 <= i < |s| ==> IsLowerHex(s[i])
  {
    if |bs| == 0 then ""
    else [HexDigit(bs[0] as int / 16), HexDigit(bs[0] as int % 16)] + Hex(bs[1..])
  }

  /** Reads pairs of hex digits back as bytes. */
  function UnHex(s: string): (bs: seq<byte>)
    requires |s| % 2 == 0
    requires forall i :: 0 <= i < |s| ==> IsLowerHex(s[i])
    ensures |bs| == |s| / 2
  {
    if |s| == 0 then []
    else [(16 * HexValue(s[0]) + HexValue(s[1])) as byte] + UnHex(s[2..])
  }

  lemma HexDigitValue(v: nat)
    requires v < 16
    ensures HexValue(HexDigit(v)) == v
  {
  }

  lemma {:induction false} UnHexHex(bs: seq<byte>)
    ensures UnHex(Hex(bs)) == bs
  {
    if |bs| > 0 {
      var hi, lo := bs[0] as int / 16, bs[0] as int % 16;
      var tail := Hex(bs[1..]);
      var s := [HexDigit(hi), HexDigit(lo)] + tail;
      assert Hex(bs) == s;
      assert s[0] == HexDigit(hi) && s[1] == HexDigit(lo) && s[2..] == tail;
      HexDigitValue(hi);
      HexDigitValue(lo);
      UnHexHex(bs[1..]);
      assert UnHex(s) == [(16 * hi + lo) as byte] + bs[1..];
      assert (16 * hi + lo) as byte == bs[0];
      assert bs == [bs[0]] + bs[1..];
    }
  }

  lemma {:induction false} HexAppend(a: seq<byte>, b: seq<byte>)
    ensures Hex(a + b) == Hex(a) + Hex(b)
  {
    if |a| > 0 {
      HexAppend(a[1..], b);
      assert (a + b)[0] == a[0] && (a + b)[1..] == a[1..] + b;
    } else {
      assert a + b == b;
    }
  }

  /** `uuid.UUID(bytes=random, version=4)`: the high nibble of byte 6 becomes
      the version 4, the top two bits of byte 8 become the variant 10
      (section 4.4 of RFC 4122); the other 122 bits are the random ones. */
  function Uuid4Bytes(random: seq<byte>): (b: seq<byte>)
    requires |random| == 16
    ensures |b| == 16
    ensures b[6] as int / 16 == 4 && b[6] as int % 16 == random[6] as int % 16
    ensures b[8] as int / 64 == 2 && b[8] as int % 64 == random[8] as int % 64
    ensures forall i :: 0 <= i < 16 && i != 6 && i != 8 ==> b[i] == random[i]
  {
    random[6 := (random[6] as int % 16 + 64) as byte][8 := (random[8] as int % 64 + 128) as byte]
  }

  /** The 8-4-4-4-12 shape of section 3 of RFC 4122, in lower-case hex. */
  predicate IsUuidShape(t: string)
  {
    |t| == 36 && t[8] == '-' && t[13] == '-' && t[18] == '-' && t[23] == '-' &&
    forall i :: 0 <= i < 36 && i != 8 && i != 13 && i != 18 && i != 23 ==> IsLowerHex(t[i])
  }

  /** `generate_uuid`: `str(uuid.uuid4())`, given the 16 random bytes it draws. */
  function Uuid4Text(random: seq<byte>): (t: string)
    requires |random| == 16
    ensures IsUuidShape(t)
    ensures t[14] == '4'
    ensures t[19] in "89ab"
  {
    var b := Uuid4Bytes(random);
    Hex(b[..4]) + "-" + Hex(b[4..6]) + "-" + Hex(b[6..8]) + "-" + Hex(b[8..10]) + "-" + Hex(b[10..])
  }

  /** Reads the text form back as the 16 bytes of the UUID. */
  function ParseUuid(t: string): (r: Option<seq<byte>>)
    ensures r.Some? ==> |r.value| == 16
  {
    if IsUuidShape(t) then
      var digits := t[..8] + t[9..13] + t[14..18] + t[19..23] + t[24..];
      assert forall i :: 0 <= i < |digits| ==> IsLowerHex(digits[i]);
      Some(UnHex(digits))
    else None
  }

  /** The text of a generated UUID reads back as its bytes. */
  lemma ParseUuid4Text(random: seq<byte>)
    requires |random| == 16
    ensures ParseUuid(Uuid4Text(random)) == Some(Uuid4Bytes(random))
  {
    var b := Uuid4Bytes(random);
    var t := Uuid4Text(random);
    assert t[..8] == Hex(b[..4]);
    assert t[9..13] == Hex(b[4..6]);
    assert t[14..18] == Hex(b[6..8]);
    assert t[19..23] == Hex(b[8..10]);
    assert t[24..] == Hex(b[10..]);
    HexAppend(b[..4], b[4..6]);
    HexAppend(b[..6], b[6..8]);
    HexAppend(b[..8], b[8..10]);
    HexAppend(b[..10], b[10..]);
    assert b[..4] + b[4..6] == b[..6];
    assert b[..6] + b[6..8] == b[..8];
    assert b[..8] + b[8..10] == b[..10];
    assert b[..10] + b[10..] == b;
    UnHexHex(b);
  }

  /** Two UUIDs have the same text only when their random bits agree. */
  lemma Uuid4TextInjective(r1: seq<byte>, r2: seq<byte>)
    requires |r1| == 16 && |r2| == 16
    requires Uuid4Text(r1) == Uuid4Text(r2)
    ensures Uuid4Bytes(r1) == Uuid4Bytes(r2)
  {
    ParseUuid4Text(r1);
    ParseUuid4Text(r2);
  }

  // ---------------------------------------------------------------------
  // The filesystem: directories and files, and the two writes
  // ---------------------------------------------------------------------

  /** An absolute path, as its components below the root. */
  type Path = seq<string>

  /** `str(path)` of an absolute `PosixPath`. */
  function PathText(p: Path): string
  {
    "/" + Join(p, "/")
  }

  /** `str(dir / name)` is `str(dir)`, a '/', and the name. */
  lemma PathTextChild(dir: Path, name: string)
    requires dir != []
    ensures PathText(dir + [name]) == PathText(dir) + "/" + name
  {
    JoinAppend(dir, "/", name);
  }

  /** The path and all its ancestors, the root included. */
  function Prefixes(p: Path): (ps: set<Path>)
    ensures p in ps && [] in ps
  {
    assert p[..|p|] == p && p[..0] == [];
    set k | 0 <= k <= |p| :: p[..k]
  }

  /** The faults the environment can cause while `save_file` writes: opening
      fails (permissions, disk), or the upload read or the write fails after
      `written` bytes reached the file. */
  datatype WriteFault = NoWriteFault | OpenFails(message: string) | FailsAfter(written: nat, message: string)

  /** Some proper ancestor of `p` is a file. */
  predicate AncestorIsFile(files: map<Path, seq<byte>>, p: Path)
  {
    exists k :: 0 <= k < |p| && p[..k] in files
  }

  /** Whether `mkdir(parents=True, exist_ok=True)` fails on `p`: it is not
      a directory, and it or one of its ancestors is a file, or the
      environment refuses. */
  predicate MkdirFails(dirs: set<Path>, files: map<Path, seq<byte>>, p: Path, fault: Option<string>)
  {
    p !in dirs && (p in files || AncestorIsFile(files, p) || fault.Some?)
  }

  /** The exception that failure raises. */
  function MkdirError(files: map<Path, seq<byte>>, p: Path, fault: Option<string>): (e: Raised)
    requires p in files || AncestorIsFile(files, p) || fault.Some?
    ensures !e.HTTPException?
  {
    if p in files then OSError(FileExists, PathText(p))
    else if AncestorIsFile(files, p) then OSError(NotADirectory, PathText(p))
    else Failure(fault.value)
  }

  class FileSystem {
    var dirs: set<Path>
    var files: map<Path, seq<byte>>

    /** The root is a directory, nothing is both a file and a directory, and
        every file or directory but the root lies in a directory. */
    ghost predicate Valid()
      reads this
    {
      [] in dirs && dirs !! files.Keys &&
      (forall d :: d in dirs && d != [] ==> d[..|d| - 1] in dirs) &&
      (forall f :: f in files ==> f != [] && f[..|f| - 1] in dirs)
    }

    constructor ()
      ensures Valid() && dirs == {[]} && files == map[]
    {
      dirs := {[]};
      files := map[];
    }

    /** `Path.mkdir(parents=True, exist_ok=True)`. An existing directory is
        not an error; otherwise the missing ancestors are created too, unless
        the path or one of its ancestors is a file, or the environment
        refuses (`fault`). */
    method MakeDirs(p: Path, fault: Option<string>) returns (r: Result<()>)
      requires Valid()
      modifies this
      ensures Valid() && files == old(files)
      ensures old(p in dirs) ==> r.Ok? && dirs == old(dirs)
      ensures r.Err? <==> MkdirFails(old(dirs), old(files), p, fault)
      ensures r.Ok? ==> dirs == old(dirs) + Prefixes(p)
      ensures r.Err? ==> dirs == old(dirs) && r.error == MkdirError(old(files), p, fault)
    {
      if p in dirs {
        PrefixesOfDir(p);
        r := Ok(());
      } else if p in files {
        r := Err(OSError(FileExists, PathText(p)));
      } else if AncestorIsFile(files, p) {
        r := Err(OSError(NotADirectory, PathText(p)));
      } else if fault.Some? {
        r := Err(Failure(fault.value));
      } else {
        var added := Prefixes(p);
        assert added !! files.Keys;
        forall d | d in added && d != [] ensures d[..|d| - 1] in added {
          var k :| 0 <= k <= |p| && d == p[..k];
          assert d[..|d| - 1] == p[..k - 1];
        }
        dirs := dirs + added;
        r := Ok(());
      }
    }

    /** A directory's ancestors are all directories. */
    lemma PrefixesOfDir(p: Path)
      requires Valid() && p in dirs
      ensures Prefixes(p) <= dirs
      decreases |p|
    {
      if p != [] {
        var q := p[..|p| - 1];
        PrefixesOfDir(q);
        forall k | 0 <= k <= |p| ensures p[..k] in dirs {
          if k < |p| { assert p[..k] == q[..k] && q[..k] in Prefixes(q); } else { assert p[..k] == p; }
        }
      }
    }

    /** The ancestors of a path's parent are ancestors of the path. */
    lemma ParentOfClearPath(p: Path, name: string)
      requires !AncestorIsFile(files, p + [name])
      ensures p !in files && !AncestorIsFile(files, p)
    {
      var c := p + [name];
      assert c[..|p|] == p;
      forall k | 0 <= k < |p| ensures p[..k] !in files {
        assert c[..k] == p[..k];
      }
    }

    /** `os.path.getsize`: the byte length of a file; a missing file raises.
        (A directory's own size is not modelled: it is reported missing.) */
    method GetSize(p: Path) returns (r: Result<nat>)
      ensures r.Ok? <==> p in files
      ensures r.Ok? ==> r.value == |files[p]|
      ensures r.Err? ==> r.error == OSError(NoSuchFile, PathText(p))
    {
      if p in files {
        r := Ok(|files[p]|);
      } else {
        r := Err(OSError(NoSuchFile, PathText(p)));
      }
    }

    /** `open(p, "wb")` followed by one write of `content`. Opening creates or
        truncates the file; a fault after that leaves what was written so far. */
    method WriteFile(p: Path, content: seq<byte>, fault: WriteFault) returns (r: Result<()>)
      requires Valid()
      modifies this
      ensures Valid() && dirs == old(dirs)
      ensures r.Ok? <==> old(CanOpen(p)) && fault.NoWriteFault?
      ensures r.Ok? ==> files == old(files)[p := content]
      ensures r.Err? && old(CanOpen(p)) && fault.FailsAfter? ==>
                files == old(files)[p := content[..Min(fault.written, |content|)]]
      ensures r.Err? && !(old(CanOpen(p)) && fault.FailsAfter?) ==> files == old(files)
      ensures r.Err? ==> !r.error.HTTPException?
    {
      if p != [] && AncestorIsFile(files, p) {
        r := Err(OSError(NotADirectory, PathText(p)));
      } else if p != [] && p[..|p| - 1] !in dirs {
        r := Err(OSError(NoSuchFile, PathText(p)));
      } else if p in dirs {
        r := Err(OSError(IsADirectory, PathText(p)));
      } else if fault.OpenFails? {
        r := Err(Failure(fault.message));
      } else if fault.FailsAfter? {
        files := files[p := content[..Min(fault.written, |content|)]];
        r := Err(Failure(fault.message));
      } else {
        files := files[p := content];
        r := Ok(());
      }
    }

    /** Opening for writing succeeds: the parent is a directory (so no ancestor
        is a file) and the path is not a directory. */
    predicate CanOpen(p: Path)
      reads this
    {
      p != [] && !AncestorIsFile(files, p) && p[..|p| - 1] in dirs && p !in dirs
    }
  }

  function Min(a: nat, b: nat): nat { if a <= b then a else b }

  /** The folder `create_date_folder` names: `base_dir / YYYY-MM-DD`. */
  function DateFolder(base: Path, today: Date): (folder: Path)
    requires ValidDate(today)
    ensures |folder| == |base| + 1 && folder[..|base|] == base
    ensures IsFullDateShape(folder[|base|])
  {
    base + [DateFolderName(today)]
  }

  /** `create_date_folder`: makes `base_dir/YYYY-MM-DD` for today's date,
      with its missing ancestors, and returns it; an existing folder is kept. */
  method CreateDateFolder(fs: FileSystem, base: Path, today: Date, fault: Option<string>)
    returns (r: Result<Path>)
    requires fs.Valid() && ValidDate(today)
    modifies fs
    ensures fs.Valid() && fs.files == old(fs.files)
    ensures r.Ok? ==> r.value == DateFolder(base, today) && r.value in fs.dirs
    ensures r.Ok? ==> fs.dirs == old(fs.dirs) + Prefixes(DateFolder(base, today))
    ensures old(DateFolder(base, today) in fs.dirs) ==> r.Ok? && fs.dirs == old(fs.dirs)
    ensures r.Err? <==> MkdirFails(old(fs.dirs), old(fs.files), DateFolder(base, today), fault)
    ensures r.Err? ==> fs.dirs == old(fs.dirs) && r.error == MkdirError(old(fs.files), DateFolder(base, today), fault)
  {
    var folder := base + [DateFolderName(today)];
    var made := fs.MakeDirs(folder, fault);
    if made.Ok? {
      r := Ok(folder);
    } else {
      r := Err(made.error);
    }
  }

  /** What a failed write leaves: the files as they were, or the same files
      with `location` holding a prefix of the bytes (truncated or partly written). */
  predicate PartlyWritten(before: map<Path, seq<byte>>, after: map<Path, seq<byte>>, location: Path, content: seq<byte>)
  {
    after == before || (location in after && after == before[location := after[location]] && after[location] <= content)
  }

  /** `save_file`: writes the upload's bytes to `location`, replacing any
      file there; every failure becomes an HTTP 500 "Error saving file". */
  method SaveFile(fs: FileSystem, content: seq<byte>, location: Path, fault: WriteFault)
    returns (r: Result<()>)
    requires fs.Valid()
    modifies fs
    ensures fs.Valid() && fs.dirs == old(fs.dirs)
    ensures r.Ok? <==> old(fs.CanOpen(location)) && fault.NoWriteFault?
    ensures r.Ok? ==> fs.files == old(fs.files)[location := content]
    ensures r.Err? ==> r.error.HTTPException? && r.error.statusCode == 500
    ensures r.Err? ==> StartsWith(r.error.detail, "Error saving file: ")
    ensures r.Err? ==> PartlyWritten(old(fs.files), fs.files, location, content)
  {
    var written := fs.WriteFile(location, content, fault);
    if written.Ok? {
      r := Ok(());
    } else {
      r := Err(HTTPException(500, "Error saving file: " + Str(written.error)));
    }
  }
}
