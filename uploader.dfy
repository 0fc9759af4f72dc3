/**
 * `google_uploader.py`: walk a directory tree, upload every file whose name
 * ends in an image suffix, count the uploads that went through, and list
 * the ones that did not in `failed_uploads.txt`.  The network calls are
 * taken as given outcomes, one per file.
 */
module Uploader {

  import opened Wrappers
  import opened Paths

  predicate IsAscii(c: char)
  {
    c as int < 128
  }

  /** `filename.encode("ascii", errors="ignore").decode("ascii")`: drop every non-ASCII character. */
  function Sanitize(s: string): (r: string)
    ensures |r| <= |s|
    ensures forall i :: 0 <= i < |r| ==> IsAscii(r[i]) && r[i] in s
  {
    if s == [] then []
    else
      var last := s[|s| - 1];
      Sanitize(s[..|s| - 1]) + (if IsAscii(last) then [last] else [])
  }

  /** Sanitising works character by character: it distributes over concatenation. */
  lemma {:induction false} SanitizeAppend(a: string, b: string)
    ensures Sanitize(a + b) == Sanitize(a) + Sanitize(b)
    decreases |b|
  {
    if b != [] {
      var b' := b[..|b| - 1];
      assert (a + b)[..|a + b| - 1] == a + b';
      assert (a + b)[|a + b| - 1] == b[|b| - 1];
      SanitizeAppend(a, b');
    } else {
      assert a + b == a;
    }
  }

  /** An ASCII name is left as it is. */
  lemma {:induction false} SanitizeKeepsAscii(s: string)
    requires forall i :: 0 <= i < |s| ==> IsAscii(s[i])
    ensures Sanitize(s) == s
  {
    if s != [] {
      SanitizeKeepsAscii(s[..|s| - 1]);
      assert s[..|s| - 1] + [s[|s| - 1]] == s;
    }
  }

  /** Sanitising twice is sanitising once. */
  lemma SanitizeIdempotent(s: string)
    ensures Sanitize(Sanitize(s)) == Sanitize(s)
  {
    SanitizeKeepsAscii(Sanitize(s));
  }

  /** Exactly the non-ASCII characters go: the length drops by their number. */
  lemma {:induction false} SanitizeDropsNonAscii(s: string)
    ensures |Sanitize(s)| == |s| - |NonAscii(s)|
  {
    if s != [] {
      SanitizeDropsNonAscii(s[..|s| - 1]);
    }
  }

  function NonAscii(s: string): string
  {
    if s == [] then []
    else NonAscii(s[..|s| - 1]) + (if IsAscii(s[|s| - 1]) then [] else [s[|s| - 1]])
  }

  /** A non-ASCII character between ASCII text is dropped and the text closes up around it. */
  lemma SanitizeDropsBetween(a: string, c: char, b: string)
    requires forall i :: 0 <= i < |a| ==> IsAscii(a[i])
    requires forall i :: 0 <= i < |b| ==> IsAscii(b[i])
    requires !IsAscii(c)
    ensures Sanitize(a + [c] + b) == a + b
  {
    assert Sanitize([c]) == [] by {
      assert [c][..0] == [];
    }
    SanitizeKeepsAscii(a);
    SanitizeKeepsAscii(b);
    var ac := a + [c];
    SanitizeAppend(a, [c]);
    assert Sanitize(ac) == a + [] == a;
    SanitizeAppend(ac, b);
  }

  /** The `X-Goog-Upload-File-Name` header: the sanitised basename of the file. */
  function UploadName(path: Path): string
  {
    Sanitize(Basename(path))
  }

  /** For a file found in a directory, the upload name is the sanitised file name. */
  lemma UploadNameOfWalkedFile(root: Path, name: string)
    requires |name| > 0
    requires forall i :: 0 <= i < |name| ==> name[i] != '/'
    ensures UploadName(Join(root, name)) == Sanitize(name)
  {
    BasenameOfJoin(root, name);
  }

  /**
   * The outcome of `upload_photo` and `create_media_item` for one file: an
   * exception, a failed upload (`None`), or an upload token together with
   * whether creating the media item raised.
   */
  datatype UploadAttempt = UploadRaises | NoToken | Token(token: string, createRaises: bool)

  /** A file name as `os.walk` lists it, with the outcome its upload would have. */
  datatype FileEntry = FileEntry(name: string, attempt: UploadAttempt)

  /** One `(root, dirs, files)` triple of `os.walk`; the subdirectories come as later listings. */
  datatype DirListing = DirListing(root: Path, files: seq<FileEntry>)

  /**
   * An upload counts as successful when a non-empty token came back and
   * creating the media item did not raise (a refused creation still counts).
   */
  predicate Succeeds(a: UploadAttempt)
  {
    a.Token? && a.token != "" && !a.createRaises
  }

  /** A listed file, with its joined path, if its name qualifies for upload. */
  function Tried(root: Path, f: FileEntry): seq<(Path, UploadAttempt)>
  {
    if UploadQualifies(f.name) then [(Join(root, f.name), f.attempt)] else []
  }

  /** The uploadable files of one listing, with their joined paths, in listing order. */
  function DirAttempts(root: Path, files: seq<FileEntry>): (r: seq<(Path, UploadAttempt)>)
    ensures |r| <= |files|
  {
    if files == [] then []
    else DirAttempts(root, files[..|files| - 1]) + Tried(root, files[|files| - 1])
  }

  /** The uploadable files of the whole walk, in the order they are tried. */
  function Attempts(walk: seq<DirListing>): seq<(Path, UploadAttempt)>
  {
    if walk == [] then []
    else Attempts(walk[..|walk| - 1]) + DirAttempts(walk[|walk| - 1].root, walk[|walk| - 1].files)
  }

  /** `successful_uploads` after the given attempts. */
  function SuccessCount(xs: seq<(Path, UploadAttempt)>): nat
  {
    if xs == [] then 0
    else SuccessCount(xs[..|xs| - 1]) + (if Succeeds(xs[|xs| - 1].1) then 1 else 0)
  }

  /** `failed_uploads` after the given attempts. */
  function FailedPaths(xs: seq<(Path, UploadAttempt)>): seq<Path>
  {
    if xs == [] then []
    else FailedPaths(xs[..|xs| - 1]) + (if Succeeds(xs[|xs| - 1].1) then [] else [xs[|xs| - 1].0])
  }

  lemma SnocAttempts(xs: seq<(Path, UploadAttempt)>, x: (Path, UploadAttempt))
    ensures SuccessCount(xs + [x]) == SuccessCount(xs) + (if Succeeds(x.1) then 1 else 0)
    ensures FailedPaths(xs + [x]) == FailedPaths(xs) + (if Succeeds(x.1) then [] else [x.0])
  {
    assert (xs + [x])[..|xs|] == xs;
  }

  /** Every tried file is either counted as uploaded or listed as failed, never both. */
  lemma {:induction false} SuccessesAndFailuresPartition(xs: seq<(Path, UploadAttempt)>)
    ensures SuccessCount(xs) + |FailedPaths(xs)| == |xs|
  {
    if xs != [] {
      SuccessesAndFailuresPartition(xs[..|xs| - 1]);
    }
  }

  /** A path is listed as failed only if some tried file at that path did not succeed. */
  lemma {:induction false} FailedAreUnsuccessful(xs: seq<(Path, UploadAttempt)>, p: Path)
    requires p in FailedPaths(xs)
    ensures exists x :: x in xs && x.0 == p && !Succeeds(x.1)
  {
    var last := xs[|xs| - 1];
    if p in FailedPaths(xs[..|xs| - 1]) {
      FailedAreUnsuccessful(xs[..|xs| - 1], p);
      var x :| x in xs[..|xs| - 1] && x.0 == p && !Succeeds(x.1);
      assert x in xs;
    } else {
      assert last in xs;
    }
  }

  /** The contents of `failed_uploads.txt`: one path per line. */
  function Report(failed: seq<Path>): string
  {
    if failed == [] then "" else Report(failed[..|failed| - 1]) + failed[|failed| - 1] + "\n"
  }

  function CountChar(s: string, c: char): nat
  {
    if s == [] then 0 else CountChar(s[..|s| - 1], c) + (if s[|s| - 1] == c then 1 else 0)
  }

  lemma {:induction false} CountCharAppend(a: string, b: string, c: char)
    ensures CountChar(a + b, c) == CountChar(a, c) + CountChar(b, c)
    decreases |b|
  {
    if b == [] {
      assert a + b == a;
    } else {
      assert (a + b)[..|a + b| - 1] == a + b[..|b| - 1];
      CountCharAppend(a, b[..|b| - 1], c);
    }
  }

  lemma {:induction false} CountCharAbsent(s: string, c: char)
    requires forall i :: 0 <= i < |s| ==> s[i] != c
    ensures CountChar(s, c) == 0
  {
    if s != [] {
      CountCharAbsent(s[..|s| - 1], c);
    }
  }

  /** When no path holds a line break, the report has exactly one line per failed file. */
  lemma {:induction false} ReportLines(failed: seq<Path>)
    requires forall k, i :: 0 <= k < |failed| && 0 <= i < |failed[k]| ==> failed[k][i] != '\n'
    ensures CountChar(Report(failed), '\n') == |failed|
  {
    if failed != [] {
      var prefix := failed[..|failed| - 1];
      var last := failed[|failed| - 1];
      ReportLines(prefix);
      CountCharAppend(Report(prefix) + last, "\n", '\n');
      CountCharAppend(Report(prefix), last, '\n');
      CountCharAbsent(last, '\n');
      assert CountChar("\n", '\n') == 1 by {
        assert "\n"[..0] == "";
      }
    }
  }

  /** The body of the inner loop: try one listed file if its name qualifies. */
  method UploadFile(root: Path, file: FileEntry, successes0: nat, failed0: seq<Path>, ghost before: seq<(Path, UploadAttempt)>)
    returns (successes: nat, failed: seq<Path>)
    requires successes0 == SuccessCount(before) && failed0 == FailedPaths(before)
    ensures successes == SuccessCount(before + Tried(root, file))
    ensures failed == FailedPaths(before + Tried(root, file))
  {
    successes, failed := successes0, failed0;
    if UploadQualifies(file.name) {
      var filePath := Join(root, file.name);
      SnocAttempts(before, (filePath, file.attempt));
      match file.attempt {
        case UploadRaises =>
          failed := failed + [filePath];
        case NoToken =>
          failed := failed + [filePath];
        case Token(uploadToken, createRaises) =>
          if uploadToken != "" && !createRaises {
            successes := successes + 1;
          } else {
            failed := failed + [filePath];
          }
      }
    } else {
      assert before + Tried(root, file) == before;
    }
  }

  lemma DirAttemptsSnoc(root: Path, files: seq<FileEntry>, j: nat)
    requires j < |files|
    ensures DirAttempts(root, files[..j + 1]) == DirAttempts(root, files[..j]) + Tried(root, files[j])
  {
    assert files[..j + 1][..j] == files[..j];
  }

  /** The inner loop: try every uploadable file of one listing, in order. */
  method UploadDirectory(root: Path, files: seq<FileEntry>, successes0: nat, failed0: seq<Path>, ghost before: seq<(Path, UploadAttempt)>)
    returns (successes: nat, failed: seq<Path>)
    requires successes0 == SuccessCount(before) && failed0 == FailedPaths(before)
    ensures successes == SuccessCount(before + DirAttempts(root, files))
    ensures failed == FailedPaths(before + DirAttempts(root, files))
  {
    successes, failed := successes0, failed0;
    assert before + DirAttempts(root, files[..0]) == before;
    for j := 0 to |files|
      invariant successes == SuccessCount(before + DirAttempts(root, files[..j]))
      invariant failed == FailedPaths(before + DirAttempts(root, files[..j]))
    {
      DirAttemptsSnoc(root, files, j);
      assert before + DirAttempts(root, files[..j + 1]) == before + DirAttempts(root, files[..j]) + Tried(root, files[j]);
      successes, failed := UploadFile(root, files[j], successes, failed, before + DirAttempts(root, files[..j]));
    }
    assert files[..|files|] == files;
  }

  /**
   * `main` after authentication: the nested loops over the walk, then the
   * report, written only when something failed.
   */
  method UploadAll(walk: seq<DirListing>) returns (successes: nat, failed: seq<Path>, report: Option<string>)
    ensures successes == SuccessCount(Attempts(walk))
    ensures failed == FailedPaths(Attempts(walk))
    ensures successes + |failed| == |Attempts(walk)|
    ensures report == if failed == [] then None else Some(Report(failed))
  {
    successes, failed := 0, [];
    for i := 0 to |walk|
      invariant successes == SuccessCount(Attempts(walk[..i]))
      invariant failed == FailedPaths(Attempts(walk[..i]))
    {
      assert walk[..i + 1][..i] == walk[..i];
      successes, failed := UploadDirectory(walk[i].root, walk[i].files, successes, failed, Attempts(walk[..i]));
    }
    assert walk[..|walk|] == walk;
    SuccessesAndFailuresPartition(Attempts(walk));
    if |failed| > 0 {
      report := Some(Report(failed));
    } else {
      report := None;
    }
  }
}
