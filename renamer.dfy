/**
 * `image_renamer.py`: every image file is copied (or moved) into a year
 * bucket under the output directory, renamed after its EXIF capture
 * timestamp; a name clash is skipped, overwritten, or resolved by inserting
 * `D` before the extension.
 */
module Renamer {

  import opened Wrappers
  import opened Paths
  import opened FileSystem
  import opened Scanner
  import opened Placement
  import opened Resolver
  import opened Runs

  /** What opening a file with the EXIF library gives: failure, or the optional `datetime_original`. */
  datatype ExifRead = Unreadable | Decoded(timestamp: Option<string>)

  /** The flags `--skip`, `--overwrite` and `--delete-orig`. */
  datatype Options = Options(skip: bool, overwrite: bool, deleteOriginals: bool)

  /** `new_filepath` before duplicate handling. */
  function Target(outDir: Path, source: Path, timestamp: Option<string>): Path
  {
    Join(YearDirectory(outDir, timestamp), RenamedFilename(timestamp, source))
  }

  /**
   * A file whose timestamp is not an absolute path is headed for its year
   * bucket, and the bucket lies under the output directory.
   */
  lemma TargetUnderBucket(outDir: Path, source: Path, timestamp: Option<string>)
    requires timestamp.Some? ==> Relative(timestamp.value)
    ensures outDir <= YearDirectory(outDir, timestamp)
    ensures YearDirectory(outDir, timestamp) <= Target(outDir, source, timestamp)
  {
    YearDirectoryUnderOutput(outDir, timestamp);
    RenamedFilenameRelative(timestamp, source);
  }

  /**
   * The path actually written, after any `D`s are inserted, is still in
   * the year bucket.
   */
  lemma DestinationUnderBucket(existing: set<Path>, outDir: Path, source: Path, timestamp: Option<string>, overwrite: bool)
    requires timestamp.Some? ==> Relative(timestamp.value)
    ensures YearDirectory(outDir, timestamp) <= Destination(existing, Target(outDir, source, timestamp), RenameMarker, overwrite)
  {
    var bucket := YearDirectory(outDir, timestamp);
    var name := RenamedFilename(timestamp, source);
    RenamedFilenameRelative(timestamp, source);
    JoinSplits(bucket, name);
    DestinationKeepsDirectory(Join(bucket, ""), existing, Join(bucket, name), RenameMarker, overwrite);
  }

  /**
   * A timestamp that starts with a separator is joined as an absolute
   * path: the file leaves the output directory altogether.
   */
  lemma AbsoluteTimestampLeavesOutput()
    ensures Target("out", "a.jpg", Some("/x")) == "/x.jpg"
  {
    assert BeforeColon("/x") == "/x";
    RFindUnique("a", '/', -1);
    assert NamedComponent("a");
    SplitAtExtension("a", ".jpg");
    assert "a" + ".jpg" == "a.jpg";
    assert TimestampName("/x") == "/x";
  }

  /**
   * `os.rename` onto a directory, `shutil.copyfile` onto a directory or
   * onto the source itself, and either of them into a bucket path that is
   * a regular file raise, and nothing in `main` catches that.
   */
  predicate WriteFails(d: Disk, bucket: Path, source: Path, dst: Path, move: bool)
  {
    dst in d.dirs || bucket in d.files || (!move && dst == source)
  }

  /** The body of the `for f in image_files` loop for one file. */
  function Step(s: RunState, c: Candidate<ExifRead>, outDir: Path, opt: Options): RunState
  {
    if c.path !in s.disk.files || c.read.Unreadable? then s
    else
      var ts := c.read.timestamp;
      var d := EnsureDir(s.disk, YearDirectory(outDir, ts));
      var target := Target(outDir, c.path, ts);
      if target in d.files && opt.skip then s.(disk := d)
      else
        var dst := Destination(d.files.Keys, target, RenameMarker, opt.overwrite);
        if WriteFails(d, YearDirectory(outDir, ts), c.path, dst, opt.deleteOriginals) then s.(disk := d, aborted := true)
        else if opt.deleteOriginals then RunState(Rename(d, c.path, dst), s.converted + 1, false)
        else RunState(CopyFile(d, c.path, dst), s.converted + 1, false)
  }

  /** `Step` with the run's fixed output directory and flags. */
  function StepFor(outDir: Path, opt: Options): (RunState, Candidate<ExifRead>) -> RunState
  {
    (s, c) => Step(s, c, outDir, opt)
  }

  /** A step counts at most the one file it handles. */
  lemma StepCountsAtMostOne(outDir: Path, opt: Options)
    ensures forall s, c :: StepFor(outDir, opt)(s, c).converted <= s.converted + 1
  {
  }

  /**
   * One turn of the loop in `main`: decode, bucket, name, resolve the
   * clash, then copy or move and count.
   */
  method ProcessFile(d0: Disk, converted0: nat, c: Candidate<ExifRead>, outDir: Path, opt: Options)
    returns (d: Disk, converted: nat, aborted: bool)
    ensures RunState(d, converted, aborted) == Step(RunState(d0, converted0, false), c, outDir, opt)
  {
    d, converted, aborted := d0, converted0, false;
    if c.path !in d.files || c.read.Unreadable? {
      return;
    }
    var ts := c.read.timestamp;
    var yearDirectory := YearDirectory(outDir, ts);
    if !Exists(d, yearDirectory) {
      d := d.(dirs := d.dirs + {yearDirectory});
    }
    var newPath := Join(yearDirectory, RenamedFilename(ts, c.path));
    var duplicate := newPath in d.files;
    if duplicate && opt.skip {
      return;
    }
    if !opt.overwrite {
      newPath := ResolveDuplicate(d.files.Keys, newPath, Text(RenameMarker));
    }
    if newPath in d.dirs || yearDirectory in d.files || (!opt.deleteOriginals && newPath == c.path) {
      aborted := true;
      return;
    }
    if opt.deleteOriginals {
      d := Rename(d, c.path, newPath);
    } else {
      d := CopyFile(d, c.path, newPath);
    }
    converted := converted + 1;
  }

  /**
   * `main` from the scan on: filter the image files, then for each one
   * decode, bucket, name, resolve the clash and copy or move.
   */
  method Run(disk: Disk, scan: seq<Candidate<ExifRead>>, outDir: Path, opt: Options)
    returns (result: RunState)
    ensures result == RunAll(RunState(disk, 0, false), ImageFiles(scan), StepFor(outDir, opt))
    ensures result.converted <= |ImageFiles(scan)|
  {
    var imageFiles := ImageFiles(scan);
    var d := disk;
    var converted: nat := 0;
    var aborted := false;
    var i := 0;
    while i < |imageFiles| && !aborted
      invariant 0 <= i <= |imageFiles|
      invariant RunState(d, converted, aborted) == RunAll(RunState(disk, 0, false), imageFiles[..i], StepFor(outDir, opt))
    {
      RunAllSnoc(RunState(disk, 0, false), imageFiles, i, StepFor(outDir, opt));
      ghost var before := RunState(d, converted, aborted);
      d, converted, aborted := ProcessFile(d, converted, imageFiles[i], outDir, opt);
      assert RunState(d, converted, aborted) == StepFor(outDir, opt)(before, imageFiles[i]);
      i := i + 1;
    }
    if aborted {
      AbortedStays(RunState(disk, 0, false), imageFiles, i, StepFor(outDir, opt));
    } else {
      assert imageFiles[..i] == imageFiles;
    }
    result := RunState(d, converted, aborted);
    StepCountsAtMostOne(outDir, opt);
    ConvertedBound(RunState(disk, 0, false), imageFiles, StepFor(outDir, opt));
  }

  /** Files that cannot be opened or decoded are skipped: nothing changes. */
  lemma UnreadableSkipped(s: RunState, c: Candidate<ExifRead>, outDir: Path, opt: Options)
    requires c.path !in s.disk.files || c.read.Unreadable?
    ensures Step(s, c, outDir, opt) == s
  {
  }

  /**
   * With `--skip`, a file whose target already exists writes nothing and
   * is not counted, whatever `--overwrite` says; at most the bucket
   * directory is created.
   */
  lemma SkipWhenTargetExists(s: RunState, c: Candidate<ExifRead>, outDir: Path, opt: Options)
    requires c.path in s.disk.files && c.read.Decoded?
    requires opt.skip
    requires Target(outDir, c.path, c.read.timestamp) in s.disk.files
    ensures Step(s, c, outDir, opt).disk.files == s.disk.files
    ensures Step(s, c, outDir, opt).converted == s.converted
    ensures Step(s, c, outDir, opt).aborted == s.aborted
  {
  }

  /**
   * Without `--overwrite`, a processed file lands on its target with the
   * least number of inserted `D`s that names no existing file; every file
   * other than the source keeps its bytes, the new file has the source's
   * bytes, and the source survives exactly when it is copied.
   */
  lemma NoOverwriteWithoutFlag(s: RunState, c: Candidate<ExifRead>, outDir: Path, opt: Options)
    requires c.path in s.disk.files && c.read.Decoded?
    requires !opt.overwrite
    requires !(opt.skip && Target(outDir, c.path, c.read.timestamp) in s.disk.files)
    requires !Step(s, c, outDir, opt).aborted
    ensures var target := Target(outDir, c.path, c.read.timestamp);
            var k := FreeIndex(s.disk.files.Keys, target, Text(RenameMarker), 0);
            var dst := Decorated(target, Text(RenameMarker), k);
            var r := Step(s, c, outDir, opt);
            && dst !in s.disk.files
            && (forall j :: 0 <= j < k ==> Decorated(target, Text(RenameMarker), j) in s.disk.files)
            && r.disk.files.Keys == (if opt.deleteOriginals then s.disk.files.Keys - {c.path} else s.disk.files.Keys) + {dst}
            && r.disk.files[dst] == s.disk.files[c.path]
            && (forall q :: q in s.disk.files && q != c.path ==> r.disk.files[q] == s.disk.files[q])
            && r.converted == s.converted + 1
  {
  }

  /**
   * With `--overwrite` (and no skip), the undecorated target is used and
   * whatever was there is replaced by the source's bytes; a copy leaves the
   * source alone, a move removes it; no other file changes.
   */
  lemma OverwriteReplacesTarget(s: RunState, c: Candidate<ExifRead>, outDir: Path, opt: Options)
    requires c.path in s.disk.files && c.read.Decoded?
    requires opt.overwrite
    requires !(opt.skip && Target(outDir, c.path, c.read.timestamp) in s.disk.files)
    requires !Step(s, c, outDir, opt).aborted
    ensures var target := Target(outDir, c.path, c.read.timestamp);
            var r := Step(s, c, outDir, opt);
            && r.disk.files[target] == s.disk.files[c.path]
            && r.disk.files.Keys == (if opt.deleteOriginals && target != c.path then s.disk.files.Keys - {c.path} else s.disk.files.Keys) + {target}
            && (forall q :: q in s.disk.files && q != c.path && q != target ==> r.disk.files[q] == s.disk.files[q])
            && (!opt.deleteOriginals ==> r.disk.files[c.path] == s.disk.files[c.path])
            && r.converted == s.converted + 1
  {
  }

  /**
   * A file is aborted on only by a failing write: a target that is a
   * directory, a bucket that is a regular file, or (in copy mode) a target
   * that is the source itself, which only `--overwrite` can produce.
   */
  lemma AbortOnlyOnFailingWrite(s: RunState, c: Candidate<ExifRead>, outDir: Path, opt: Options)
    requires !s.aborted
    requires Step(s, c, outDir, opt).aborted
    ensures c.path in s.disk.files && c.read.Decoded?
    ensures var target := Target(outDir, c.path, c.read.timestamp);
            var dst := Destination(s.disk.files.Keys, target, RenameMarker, opt.overwrite);
            && WriteFails(EnsureDir(s.disk, YearDirectory(outDir, c.read.timestamp)), YearDirectory(outDir, c.read.timestamp), c.path, dst, opt.deleteOriginals)
            && (dst == c.path ==> opt.overwrite)
  {
  }

  /** Without `--overwrite`, a file lands on its resolved target with the source's bytes and is counted. */
  lemma LandsOnResolved(s: RunState, c: Candidate<ExifRead>, outDir: Path, opt: Options)
    requires !opt.overwrite
    requires c.path in s.disk.files && c.read.Decoded?
    requires !(opt.skip && Target(outDir, c.path, c.read.timestamp) in s.disk.files)
    requires !Step(s, c, outDir, opt).aborted
    ensures var dst := Resolved(s.disk.files.Keys, Target(outDir, c.path, c.read.timestamp), Text(RenameMarker));
            var r := Step(s, c, outDir, opt);
            && dst in r.disk.files
            && r.disk.files[dst] == s.disk.files[c.path]
            && r.disk.files.Keys == (if opt.deleteOriginals then s.disk.files.Keys - {c.path} else s.disk.files.Keys) + {dst}
            && r.converted == s.converted + 1
  {
  }

  /** A copy leaves every file other than its destination as it was, the source included. */
  lemma CopyLeavesOthers(s: RunState, c: Candidate<ExifRead>, outDir: Path, opt: Options, q: Path)
    requires !opt.deleteOriginals
    requires c.path in s.disk.files && c.read.Decoded?
    requires !(opt.skip && Target(outDir, c.path, c.read.timestamp) in s.disk.files)
    requires !Step(s, c, outDir, opt).aborted
    requires q in s.disk.files
    requires q != Destination(s.disk.files.Keys, Target(outDir, c.path, c.read.timestamp), RenameMarker, opt.overwrite)
    ensures q in Step(s, c, outDir, opt).disk.files
    ensures Step(s, c, outDir, opt).disk.files[q] == s.disk.files[q]
  {
  }

  /**
   * Two files that derive the same target, copied one after the other
   * without `--skip` or `--overwrite`: the second lands on the name with
   * exactly one more `D` than the first's, provided that name was free
   * before the run reached them, and the first copy stays in place.
   */
  lemma SecondCopyGetsOneMoreMarker(s: RunState, c1: Candidate<ExifRead>, c2: Candidate<ExifRead>, outDir: Path, opt: Options, s1: RunState)
    requires !opt.skip && !opt.overwrite && !opt.deleteOriginals
    requires c1.path in s.disk.files && c1.read.Decoded?
    requires s1 == Step(s, c1, outDir, opt) && !s1.aborted
    requires c2.path in s1.disk.files && c2.read.Decoded?
    requires Target(outDir, c2.path, c2.read.timestamp) == Target(outDir, c1.path, c1.read.timestamp)
    requires !Step(s1, c2, outDir, opt).aborted
    requires var target := Target(outDir, c1.path, c1.read.timestamp);
             Decorated(target, Text(RenameMarker), FreeIndex(s.disk.files.Keys, target, Text(RenameMarker), 0) + 1) !in s.disk.files
    ensures var target := Target(outDir, c1.path, c1.read.timestamp);
            var m := Text(RenameMarker);
            var k := FreeIndex(s.disk.files.Keys, target, m, 0);
            var s2 := Step(s1, c2, outDir, opt);
            && Destination(s1.disk.files.Keys, target, RenameMarker, false) == Decorated(target, m, k + 1)
            && Holds(s2.disk, Decorated(target, m, k), s.disk.files[c1.path])
            && Holds(s2.disk, Decorated(target, m, k + 1), s1.disk.files[c2.path])
            && s2.converted == s.converted + 2
  {
    var target := Target(outDir, c1.path, c1.read.timestamp);
    var m := Text(RenameMarker);
    var existing := s.disk.files.Keys;
    var k := FreeIndex(existing, target, m, 0);
    LandsOnResolved(s, c1, outDir, opt);
    ResolveAfterWrite(existing, target, m);
    assert s1.disk.files.Keys == existing + {Decorated(target, m, k)};
    assert Resolved(s1.disk.files.Keys, target, m) == Decorated(target, m, k + 1);
    LandsOnResolved(s1, c2, outDir, opt);
    DecoratedDistinct(target, m, k, k + 1);
    CopyLeavesOthers(s1, c2, outDir, opt, Decorated(target, m, k));
  }

  /**
   * When the bucket path names a regular file, the write under it raises:
   * the run ends and no file changes.
   */
  lemma BucketFileAborts(s: RunState, c: Candidate<ExifRead>, outDir: Path, opt: Options)
    requires c.path in s.disk.files && c.read.Decoded?
    requires YearDirectory(outDir, c.read.timestamp) in s.disk.files
    requires !(opt.skip && Target(outDir, c.path, c.read.timestamp) in s.disk.files)
    ensures Step(s, c, outDir, opt).aborted
    ensures Step(s, c, outDir, opt).disk == s.disk
  {
  }

  /**
   * The same two files moved with `--delete-orig`: the second again lands
   * on the name with exactly one more `D`, provided that name was free and
   * the first file was not itself one of the taken names its own
   * resolution passed over; the second file is gone from its old path.
   */
  lemma SecondMoveGetsOneMoreMarker(s: RunState, c1: Candidate<ExifRead>, c2: Candidate<ExifRead>, outDir: Path, opt: Options, s1: RunState)
    requires !opt.skip && !opt.overwrite && opt.deleteOriginals
    requires c1.path in s.disk.files && c1.read.Decoded?
    requires s1 == Step(s, c1, outDir, opt) && !s1.aborted
    requires c2.path in s1.disk.files && c2.read.Decoded?
    requires Target(outDir, c2.path, c2.read.timestamp) == Target(outDir, c1.path, c1.read.timestamp)
    requires !Step(s1, c2, outDir, opt).aborted
    requires var target := Target(outDir, c1.path, c1.read.timestamp);
             var k := FreeIndex(s.disk.files.Keys, target, Text(RenameMarker), 0);
             && (forall j :: 0 <= j < k ==> Decorated(target, Text(RenameMarker), j) != c1.path)
             && Decorated(target, Text(RenameMarker), k + 1) !in s.disk.files
    ensures var target := Target(outDir, c1.path, c1.read.timestamp);
            var m := Text(RenameMarker);
            var k := FreeIndex(s.disk.files.Keys, target, m, 0);
            var s2 := Step(s1, c2, outDir, opt);
            && Destination(s1.disk.files.Keys, target, RenameMarker, false) == Decorated(target, m, k + 1)
            && Holds(s1.disk, Decorated(target, m, k), s.disk.files[c1.path])
            && Holds(s2.disk, Decorated(target, m, k + 1), s1.disk.files[c2.path])
            && c2.path !in s2.disk.files
            && s2.converted == s.converted + 2
  {
    var target := Target(outDir, c1.path, c1.read.timestamp);
    var m := Text(RenameMarker);
    var existing := s.disk.files.Keys;
    var k := FreeIndex(existing, target, m, 0);
    LandsOnResolved(s, c1, outDir, opt);
    ResolveAfterMove(existing, target, m, c1.path);
    LandsOnResolved(s1, c2, outDir, opt);
    DecoratedDistinct(target, m, k, k + 1);
  }

  /** A step keeps a well-formed disk well formed: it never writes a file over a directory. */
  lemma StepKeepsWellFormed(outDir: Path, opt: Options)
    ensures forall s: RunState, c :: WellFormed(s.disk) ==> WellFormed(StepFor(outDir, opt)(s, c).disk)
  {
  }

  /** The run's count is at most the number of image files scanned. */
  lemma ConvertedAtMostImageFiles(disk: Disk, scan: seq<Candidate<ExifRead>>, outDir: Path, opt: Options)
    ensures RunAll(RunState(disk, 0, false), ImageFiles(scan), StepFor(outDir, opt)).converted <= |ImageFiles(scan)| <= |scan|
  {
    StepCountsAtMostOne(outDir, opt);
    ConvertedBound(RunState(disk, 0, false), ImageFiles(scan), StepFor(outDir, opt));
  }

  /** A run that starts from a well-formed disk ends on one. */
  lemma RunKeepsDiskWellFormed(disk: Disk, scan: seq<Candidate<ExifRead>>, outDir: Path, opt: Options)
    requires WellFormed(disk)
    ensures WellFormed(RunAll(RunState(disk, 0, false), ImageFiles(scan), StepFor(outDir, opt)).disk)
  {
    StepKeepsWellFormed(outDir, opt);
    RunKeepsWellFormed(RunState(disk, 0, false), ImageFiles(scan), StepFor(outDir, opt));
  }
}
