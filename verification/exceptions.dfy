/** The exceptions the upload path raises or catches, as values, and the
    Option/Result wrappers the model uses in place of raising. */
module Exceptions {

  datatype Option<+T> = None | Some(value: T) {
    function GetOr(default: T): T
    {
      match this
      case Some(v) => v
      case None => default
    }
  }

  /** The operating-system errors the file operations can meet. */
  datatype OsErrorKind = NoSuchFile | FileExists | NotADirectory | IsADirectory

  /** A Python exception. `HTTPException` is FastAPI's; `OSError` covers the
      subclasses raised by `mkdir`, `open` and `os.path.getsize`; `Failure`
      is any other exception (a database error, a plain `Exception`, an
      environment fault), known by its message. */
  datatype Raised =
    | HTTPException(statusCode: int, detail: string)
    | OSError(kind: OsErrorKind, filename: string)
    | Failure(message: string)

  /** A character `repr` shows with a backslash in front, given the quote it chose. */
  predicate NeedsEscape(c: char, quote: char)
  {
    c == '\\' || c == quote || c == '\n' || c == '\r' || c == '\t'
  }

  /** The body of `repr(s)` between its quotes. */
  function Escaped(s: string, quote: char): (e: string)
    ensures |e| >= |s|
    ensures (forall i :: 0 <= i < |s| ==> !NeedsEscape(s[i], quote)) ==> e == s
  {
    if |s| == 0 then ""
    else
      var c := s[0];
      var head := if c == '\n' then "\\n" else if c == '\r' then "\\r" else if c == '\t' then "\\t"
                  else if NeedsEscape(c, quote) then ['\\', c] else [c];
      head + Escaped(s[1..], quote)
  }

  /** `repr(s)`, as `OSError` shows a file name: in single quotes unless the
      text holds a single quote and no double quote. */
  function Repr(s: string): (r: string)
    ensures |r| >= |s| + 2
    ensures r[0] == r[|r| - 1] && r[0] in "'\""
  {
    var quote := if '\'' in s && '"' !in s then '"' else '\'';
    [quote] + Escaped(s, quote) + [quote]
  }

  /** A name without quotes, backslashes or line breaks is shown verbatim in single quotes. */
  lemma ReprPlain(s: string)
    requires '\'' !in s && '"' !in s && '\\' !in s && '\n' !in s && '\r' !in s && '\t' !in s
    ensures Repr(s) == "'" + s + "'"
  {
    assert forall i :: 0 <= i < |s| ==> !NeedsEscape(s[i], '\'') by {
      forall i | 0 <= i < |s| ensures !NeedsEscape(s[i], '\'') {
        assert s[i] in s;
      }
    }
  }

  /** A name with a single quote and no double quote is shown verbatim in double quotes. */
  lemma ReprApostrophe(s: string)
    requires '\'' in s && '"' !in s && '\\' !in s && '\n' !in s && '\r' !in s && '\t' !in s
    ensures Repr(s) == "\"" + s + "\""
  {
    assert forall i :: 0 <= i < |s| ==> !NeedsEscape(s[i], '"') by {
      forall i | 0 <= i < |s| ensures !NeedsEscape(s[i], '"') {
        assert s[i] in s;
      }
    }
  }

  /** `str(e)` for the exceptions the code turns into text (it never does so
      for an HTTPException): an OSError's errno and message followed by the
      `repr` of its file name; any other exception's message. */
  function Str(e: Raised): (s: string)
    requires !e.HTTPException?
    ensures e.Failure? ==> s == e.message
    ensures e.OSError? ==> |s| > |Repr(e.filename)| && s[|s| - |Repr(e.filename)|..] == Repr(e.filename)
  {
    match e
    case OSError(kind, filename) =>
      var head := match kind
        case NoSuchFile => "[Errno 2] No such file or directory"
        case FileExists => "[Errno 17] File exists"
        case NotADirectory => "[Errno 20] Not a directory"
        case IsADirectory => "[Errno 21] Is a directory";
      head + ": " + Repr(filename)
    case Failure(message) => message
  }

  /** The outcome of a step that either returns a value or raises. */
  datatype Result<+T> = Ok(value: T) | Err(error: Raised)

  predicate StartsWith(s: string, prefix: string)
  {
    |prefix| <= |s| && s[..|prefix|] == prefix
  }
}
