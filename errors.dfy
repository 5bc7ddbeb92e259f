/** The failures the server turns into one-line error strings: the exceptions that reach
    `_handle_error`, and the error strings the tools return directly. */
module Errors {
  import opened Text

  /** Operating-system failures that `_handle_error` reports through its generic branch,
      with their Linux errno values and texts. */
  datatype OsKind = FileExists | NotADirectory | IsADirectory

  /** An exception caught by a tool. */
  datatype Raised =
    | FileNotFound(filename: string)
    | PermissionDenied(filename: string)
    | ValueError(message: string)
    | OsFailure(kind: OsKind, filename: string)
    | Other(typeName: string, message: string)

  function KindName(k: OsKind): string
  {
    match k
    case FileExists => "FileExistsError"
    case NotADirectory => "NotADirectoryError"
    case IsADirectory => "IsADirectoryError"
  }

  /** `str(e)` of an OSError raised with a file name: "[Errno n] text: 'name'". */
  function OsText(k: OsKind, filename: string): (r: string)
    ensures StartsWith(r, "[Errno ")
    ensures |r| >= |filename| + 2 && r[|r| - |filename| - 2..] == "'" + filename + "'"
  {
    match k
    case FileExists => "[Errno 17] File exists: '" + filename + "'"
    case NotADirectory => "[Errno 20] Not a directory: '" + filename + "'"
    case IsADirectory => "[Errno 21] Is a directory: '" + filename + "'"
  }

  /** `_handle_error`: one message per kind of exception; the two file-access failures
      name the file, a ValueError shows its own message, anything else shows its type name
      and text. */
  function HandleError(e: Raised): (msg: string)
    ensures StartsWith(msg, "Error: ")
  {
    match e
    case FileNotFound(f) => "Error: File not found — " + f + ". Check the path and try again."
    case PermissionDenied(f) =>
      "Error: Permission denied — " + f + ". You don't have access to this file."
    case ValueError(m) => "Error: " + m
    case OsFailure(k, f) => "Error: " + KindName(k) + ": " + OsText(k, f)
    case Other(t, m) => "Error: " + t + ": " + m
  }

  /** The file name a file-access message embeds. */
  function Culprit(e: Raised): string
  {
    match e
    case FileNotFound(f) => f
    case PermissionDenied(f) => f
    case ValueError(m) => m
    case OsFailure(_, f) => f
    case Other(_, m) => m
  }

  /** A text found between a prefix and a suffix is contained in the whole. */
  lemma ContainsMiddle(msg: string, pre: string, f: string, post: string)
    requires msg == pre + f + post
    ensures Contains(msg, f)
  {
    assert msg[|pre|..|pre| + |f|] == f;
    assert OccursAt(msg, f, |pre|);
  }

  /** Every message names what went wrong: the file name (or the ValueError's own message)
      appears in it, right after the fixed lead-in for its kind. */
  lemma HandleErrorNamesCulprit(e: Raised)
    ensures Contains(HandleError(e), Culprit(e))
  {
    var msg := HandleError(e);
    match e
    case FileNotFound(f) =>
      ContainsMiddle(msg, "Error: File not found — ", f, ". Check the path and try again.");
    case PermissionDenied(f) =>
      ContainsMiddle(msg, "Error: Permission denied — ", f, ". You don't have access to this file.");
    case ValueError(m) =>
      ContainsMiddle(msg, "Error: ", m, []);
    case OsFailure(k, f) =>
      OsMessageNamesFile(k, f);
    case Other(t, m) =>
      ContainsMiddle(msg, "Error: " + t + ": ", m, []);
  }

  /** An OS error's message ends with the quoted file name. */
  lemma OsMessageNamesFile(k: OsKind, f: string)
    ensures Contains(HandleError(OsFailure(k, f)), f)
  {
    var msg := HandleError(OsFailure(k, f));
    var lead := "Error: " + KindName(k) + ": ";
    match k
    case FileExists =>
      ContainsMiddle(msg, lead + "[Errno 17] File exists: '", f, "'");
    case NotADirectory =>
      ContainsMiddle(msg, lead + "[Errno 20] Not a directory: '", f, "'");
    case IsADirectory =>
      ContainsMiddle(msg, lead + "[Errno 21] Is a directory: '", f, "'");
  }

  /** Failures a tool reports without raising: each message names the path as the caller
      gave it. */
  datatype ToolError =
    | Caught(e: Raised)
    | ReadDirectory(path: string)
    | NotADirectoryPath(path: string)
    | AlreadyExists(path: string)
    | DoesNotExist(path: string)
    | DeleteDirectory(path: string)

  /** The text a tool returns for a failure. */
  function Message(t: ToolError): (msg: string)
    ensures StartsWith(msg, "Error: ")
  {
    match t
    case Caught(e) => HandleError(e)
    case ReadDirectory(p) => "Error: '" + p + "' is a directory. Use fs_list_directory to list it."
    case NotADirectoryPath(p) => "Error: '" + p + "' is not a directory."
    case AlreadyExists(p) => "Error: '" + p + "' already exists. Set overwrite=true to replace it."
    case DoesNotExist(p) => "Error: '" + p + "' does not exist."
    case DeleteDirectory(p) =>
      "Error: '" + p + "' is a directory. This tool only deletes files, not directories."
  }
}
