/**
 * Publishing the admin's matrix to the archive repository: the file path
 * built from the class and the date text, and the create-or-update
 * decision over the repository's files. The repository is a map from path
 * to file; a call that raises is given as a fault.
 */
module Archive {
  import opened Wrappers
  import opened Strings

  /** A stored file: its content and the revision its sha names. */
  datatype ArchiveFile = ArchiveFile(content: string, revision: nat)

  /** How a repository call raises: an HTTP status, or a transport error that is not one. */
  datatype HostError = Status(code: int) | Transport

  datatype HostCall = GetContents | UpdateFile | CreateFile

  /** The one repository call that raises on this run, and how. */
  datatype HostFault = HostFault(call: HostCall, error: HostError)

  /** How the push ends: one value per message the admin can see. */
  datatype Published =
    | NotConfigured          // no repository configured
    | Updated(path: string)  // an existing file was updated
    | Created(path: string)  // a new file was created
    | HostFailed(code: int)  // the repository refused the update with a status other than 404
    | PushFailed             // the create call raised
    | PushFileFailed         // a call raised with something other than an HTTP status

  datatype Publication = Publication(outcome: Published, files: map<string, ArchiveFile>)

  const Prefix: string := "records/attendance_matrix_"

  /** `records/attendance_matrix_<class>_<date text without '-'>.csv`. */
  function ArchivePath(className: string, dateText: string): (p: string)
    ensures |p| == |Prefix| + |className| + 1 + |Without(dateText, '-')| + 4
    ensures p[..|Prefix|] == Prefix && p[|p| - 4..] == ".csv"
    ensures p[|Prefix|..|Prefix| + |className|] == className
    ensures p[|Prefix| + |className|..|p| - 4] == "_" + Without(dateText, '-')
  {
    Prefix + className + "_" + Without(dateText, '-') + ".csv"
  }

  /** Paths of one class are equal exactly when their date parts are. */
  lemma PathDatePart(className: string, a: string, b: string)
    ensures ArchivePath(className, a) == ArchivePath(className, b) <==> Without(a, '-') == Without(b, '-')
  {
    var p, q := ArchivePath(className, a), ArchivePath(className, b);
    if p == q {
      assert "_" + Without(a, '-') == "_" + Without(b, '-');
      assert Without(a, '-') == ("_" + Without(a, '-'))[1..];
      assert Without(b, '-') == ("_" + Without(b, '-'))[1..];
    }
  }

  /** The error the given call raises on this run, if it is the faulty one. */
  function Raised(fault: Option<HostFault>, call: HostCall): (r: Option<HostError>)
    ensures r.Some? <==> fault.Some? && fault.value.call == call
  {
    if fault.Some? && fault.value.call == call then Some(fault.value.error) else None
  }

  /**
   * The GitHub exception handler: a 404 creates the file; any other status
   * is reported; the create call raising ends in the inner handler.
   * Creating over an existing path is refused with 422.
   */
  function OnStatus(files: map<string, ArchiveFile>, path: string, content: string, code: int, fault: Option<HostFault>): (r: Publication)
    ensures r.outcome.Created? || r.outcome.HostFailed? || r.outcome == PushFailed
    ensures r.outcome.Created? <==> code == 404 && Raised(fault, CreateFile).None? && path !in files
    ensures r.outcome.Created? ==> r.outcome.path == path && r.files == files[path := ArchiveFile(content, 0)]
    ensures !r.outcome.Created? ==> r.files == files
    ensures r.outcome.HostFailed? <==> code != 404
  {
    if code != 404 then Publication(HostFailed(code), files)
    else if Raised(fault, CreateFile).Some? || path in files then Publication(PushFailed, files)
    else Publication(Created(path), files[path := ArchiveFile(content, 0)])
  }

  /**
   * The push: fetch the file; update it with its sha when it is there;
   * a GitHub exception from either call goes to `OnStatus`; anything else
   * raised is reported as a failed push.
   */
  function Publish(files: map<string, ArchiveFile>, configured: bool, path: string, content: string, fault: Option<HostFault>): (r: Publication)
    ensures !configured <==> r.outcome == NotConfigured
    ensures r.outcome.Updated? ==>
              path in files && r.outcome.path == path &&
              r.files == files[path := ArchiveFile(content, files[path].revision + 1)]
    ensures r.outcome.Created? ==> path !in files && r.outcome.path == path && r.files == files[path := ArchiveFile(content, 0)]
    ensures !r.outcome.Updated? && !r.outcome.Created? ==> r.files == files
    ensures forall q :: q != path ==> (q in r.files <==> q in files) && (q in files ==> r.files[q] == files[q])
  {
    if !configured then Publication(NotConfigured, files)
    else
      var got := if Raised(fault, GetContents).Some? then Raised(fault, GetContents)
                 else if path !in files then Some(Status(404)) else None;
      match got
      case Some(Transport) => Publication(PushFileFailed, files)
      case Some(Status(code)) => OnStatus(files, path, content, code, fault)
      case None =>
        match Raised(fault, UpdateFile)
        case Some(Transport) => Publication(PushFileFailed, files)
        case Some(Status(code)) => OnStatus(files, path, content, code, fault)
        case None => Publication(Updated(path), files[path := ArchiveFile(content, files[path].revision + 1)])
  }

  // --------------------------------------------------------------- lemmas

  /** With nothing raising, an existing file is updated to the new content under the next revision. */
  lemma UpdatesExisting(files: map<string, ArchiveFile>, path: string, content: string)
    requires path in files
    ensures Publish(files, true, path, content, None) ==
            Publication(Updated(path), files[path := ArchiveFile(content, files[path].revision + 1)])
  {
  }

  /** With nothing raising, a missing file is created: the 404 from the fetch leads to the create call. */
  lemma CreatesMissing(files: map<string, ArchiveFile>, path: string, content: string)
    requires path !in files
    ensures Publish(files, true, path, content, None) == Publication(Created(path), files[path := ArchiveFile(content, 0)])
  {
  }

  /** A push that stored the file is followed, for the same path, by an update rather than a second file. */
  lemma RepublishUpdates(files: map<string, ArchiveFile>, path: string, first: string, second: string, fault: Option<HostFault>)
    requires var r := Publish(files, true, path, first, fault); r.outcome.Updated? || r.outcome.Created?
    ensures var f := Publish(files, true, path, first, fault).files;
            Publish(f, true, path, second, None).outcome == Updated(path) &&
            Publish(f, true, path, second, None).files[path].content == second
  {
    var f := Publish(files, true, path, first, fault).files;
    assert path in f;
    UpdatesExisting(f, path, second);
  }

  /** An update refused with a status other than 404 writes nothing and reports the status. */
  lemma RefusedUpdateWritesNothing(files: map<string, ArchiveFile>, path: string, content: string, code: int)
    requires path in files && code != 404
    ensures Publish(files, true, path, content, Some(HostFault(UpdateFile, Status(code)))) == Publication(HostFailed(code), files)
  {
  }

  /** An update refused with 404 falls through to the create call, which the existing path makes fail. */
  lemma VanishedUpdateFails(files: map<string, ArchiveFile>, path: string, content: string)
    requires path in files
    ensures Publish(files, true, path, content, Some(HostFault(UpdateFile, Status(404)))) == Publication(PushFailed, files)
  {
  }

  /** The repository as a mutable file store. */
  class Repository {
    var files: map<string, ArchiveFile>

    constructor (initial: map<string, ArchiveFile>)
      ensures files == initial
    {
      files := initial;
    }

    /** `show_matrix_and_push` after the Push button: the repository calls in order, on `files`. */
    method Push(configured: bool, path: string, content: string, fault: Option<HostFault>) returns (outcome: Published)
      modifies this
      ensures Publication(outcome, files) == Publish(old(files), configured, path, content, fault)
    {
      if !configured {
        return NotConfigured;
      }
      var got: Option<HostError>;
      if Raised(fault, GetContents).Some? {
        got := Raised(fault, GetContents);
      } else if path !in files {
        got := Some(Status(404));
      } else {
        got := None;
      }
      if got == None {
        var sha := files[path].revision;
        got := Raised(fault, UpdateFile);
        if got == None {
          files := files[path := ArchiveFile(content, sha + 1)];
          return Updated(path);
        }
      }
      match got.value
      case Transport =>
        outcome := PushFileFailed;
      case Status(code) =>
        if code != 404 {
          outcome := HostFailed(code);
        } else if Raised(fault, CreateFile).Some? || path in files {
          outcome := PushFailed;
        } else {
          files := files[path := ArchiveFile(content, 0)];
          outcome := Created(path);
        }
    }
  }
}
