/**
 * `image_resizer.py`: every image file is written, shrunk so that its
 * larger side is `max_dim`, into a year bucket under the output directory,
 * keeping its basename; a name clash is skipped, overwritten, or resolved
 * by inserting `_RESIZED` before the extension.  Images already smaller
 * than `max_dim` are copied unchanged and not counted.
 */
module Resizer {

  import opened Wrappers
  import opened Paths
  import opened FileSystem
  import opened Scanner
  import opened Placement
  import opened Resolver
  import opened Runs
  import opened Scaling

  /** What opening a file with the image library gives: failure, or its timestamp and size. */
  datatype ImageRead = Unopenable | Opened(timestamp: Option<string>, width: nat, height: nat)

  /** The flags `--skip`, `--overwrite`, `--delete-orig` and the value of `--resize`. */
  datatype Options = Options(skip: bool, overwrite: bool, deleteOriginals: bool, maxDim: int)

  /**
   * What the two `resized_image.save` attempts give: both raise (an image
   * mode the file format cannot hold, say), or the bytes written.
   */
  datatype Saving = SaveRaises | Saved(bytes: Bytes)

  /**
   * The image library's resampling and encoding, given the original file's
   * bytes and the new width and height, which the model does not look inside.
   */
  type Encoder = (Bytes, nat, nat) -> Saving

  /** `new_filepath` before duplicate handling: the same basename, in the bucket. */
  function Target(outDir: Path, c: Candidate<ImageRead>): Path
    requires c.read.Opened?
  {
    Join(YearDirectory(outDir, c.read.timestamp), Basename(c.path))
  }

  /** The resized file keeps the source's basename, hence its extension and its being an image. */
  lemma TargetKeepsName(outDir: Path, c: Candidate<ImageRead>)
    requires c.read.Opened?
    ensures Ext(Target(outDir, c)) == Ext(c.path)
    ensures IsImageFile(c.path) ==> IsImageFile(Target(outDir, c))
  {
    BasenameSplits(c.path);
    ExtOfJoin(YearDirectory(outDir, c.read.timestamp), Basename(c.path));
    BasenameKeepsExtension(c.path);
  }

  /**
   * A file whose timestamp is not an absolute path is written into its
   * year bucket, under the output directory, whatever number of
   * `_RESIZED` markers is inserted.
   */
  lemma TargetUnderBucket(existing: set<Path>, outDir: Path, c: Candidate<ImageRead>, overwrite: bool)
    requires c.read.Opened?
    requires c.read.timestamp.Some? ==> Relative(c.read.timestamp.value)
    ensures outDir <= YearDirectory(outDir, c.read.timestamp)
    ensures YearDirectory(outDir, c.read.timestamp) <= Target(outDir, c)
    ensures YearDirectory(outDir, c.read.timestamp) <= Destination(existing, Target(outDir, c), ResizeMarker, overwrite)
  {
    var bucket := YearDirectory(outDir, c.read.timestamp);
    YearDirectoryUnderOutput(outDir, c.read.timestamp);
    BasenameHasNoSeparator(c.path);
    JoinSplits(bucket, Basename(c.path));
    DestinationKeepsDirectory(Join(bucket, ""), existing, Target(outDir, c), ResizeMarker, overwrite);
  }

  /**
   * The end of the loop body, once the destination is fixed: an image
   * smaller than `max_dim` is copied unchanged and not counted; any other is
   * resized, saved, optionally deleted, and counted.  A failing copy, save or
   * resize raises and ends the run; the model then leaves the disk as it was.
   */
  function Emit(d: Disk, converted: nat, c: Candidate<ImageRead>, dst: Path, opt: Options, encode: Encoder): RunState
    requires c.path in d.files && c.read.Opened?
  {
    var w, h := c.read.width, c.read.height;
    if opt.maxDim > Biggest(w, h) then
      if dst in d.dirs || dst == c.path then RunState(d, converted, true)
      else RunState(CopyFile(d, c.path, dst), converted, false)
    else if !Resizable(w, h, opt.maxDim) || dst in d.dirs then RunState(d, converted, true)
    else
      var big := Biggest(w, h);
      match encode(d.files[c.path], Scaled(w, opt.maxDim, big), Scaled(h, opt.maxDim, big))
      case SaveRaises => RunState(d, converted, true)
      case Saved(bytes) =>
        var saved := WriteFile(d, dst, bytes);
        RunState(if opt.deleteOriginals then Remove(saved, c.path) else saved, converted + 1, false)
  }

  /** The body of the `for f in image_files` loop for one file. */
  function Step(s: RunState, c: Candidate<ImageRead>, outDir: Path, opt: Options, encode: Encoder): RunState
  {
    if c.path !in s.disk.files || c.read.Unopenable? then s
    else
      var d := EnsureDir(s.disk, YearDirectory(outDir, c.read.timestamp));
      var target := Target(outDir, c);
      if target in d.files && opt.skip then s.(disk := d)
      else if YearDirectory(outDir, c.read.timestamp) in d.files then s.(disk := d, aborted := true)
      else
        Emit(d, s.converted, c, Destination(d.files.Keys, target, ResizeMarker, opt.overwrite), opt, encode)
  }

  /** `Step` with the run's fixed output directory, flags and encoder. */
  function StepFor(outDir: Path, opt: Options, encode: Encoder): (RunState, Candidate<ImageRead>) -> RunState
  {
    (s, c) => Step(s, c, outDir, opt, encode)
  }

  /** A step counts at most the one file it handles. */
  lemma StepCountsAtMostOne(outDir: Path, opt: Options, encode: Encoder)
    ensures forall s, c :: StepFor(outDir, opt, encode)(s, c).converted <= s.converted + 1
  {
    forall s: RunState, c: Candidate<ImageRead>
      ensures StepFor(outDir, opt, encode)(s, c).converted <= s.converted + 1
    {
      if c.path in s.disk.files && c.read.Opened? {
        var d := EnsureDir(s.disk, YearDirectory(outDir, c.read.timestamp));
        var dst := Destination(d.files.Keys, Target(outDir, c), ResizeMarker, opt.overwrite);
        EmitCountsAtMostOne(d, s.converted, c, dst, opt, encode);
      }
    }
  }

  lemma EmitCountsAtMostOne(d: Disk, converted: nat, c: Candidate<ImageRead>, dst: Path, opt: Options, encode: Encoder)
    requires c.path in d.files && c.read.Opened?
    ensures Emit(d, converted, c, dst, opt, encode).converted <= converted + 1
  {
  }

  /**
   * One turn of the loop in `main`: open, bucket, resolve the clash, then
   * copy a small image or resize, save, delete the original and count.
   */
  method ProcessFile(d0: Disk, converted0: nat, c: Candidate<ImageRead>, outDir: Path, opt: Options, encode: Encoder)
    returns (d: Disk, converted: nat, aborted: bool)
    ensures RunState(d, converted, aborted) == Step(RunState(d0, converted0, false), c, outDir, opt, encode)
  {
    d, converted, aborted := d0, converted0, false;
    if c.path !in d.files || c.read.Unopenable? {
      return;
    }
    var yearDirectory := YearDirectory(outDir, c.read.timestamp);
    if !Exists(d, yearDirectory) {
      d := d.(dirs := d.dirs + {yearDirectory});
    }
    var newPath := Join(yearDirectory, Basename(c.path));
    var duplicate := newPath in d.files;
    if duplicate && opt.skip {
      return;
    }
    if !opt.overwrite {
      newPath := ResolveDuplicate(d.files.Keys, newPath, Text(ResizeMarker));
    }
    if yearDirectory in d.files {
      aborted := true;
      return;
    }
    d, converted, aborted := Save(d, converted, c, newPath, opt, encode);
  }

  /** Copy or resize-and-save, as `Emit` says. */
  method Save(d0: Disk, converted0: nat, c: Candidate<ImageRead>, newPath: Path, opt: Options, encode: Encoder)
    returns (d: Disk, converted: nat, aborted: bool)
    requires c.path in d0.files && c.read.Opened?
    ensures RunState(d, converted, aborted) == Emit(d0, converted0, c, newPath, opt, encode)
  {
    d, converted, aborted := d0, converted0, false;
    var x, y := c.read.width, c.read.height;
    var biggest := Biggest(x, y);
    if opt.maxDim > biggest {
      if newPath in d.dirs || newPath == c.path {
        aborted := true;
        return;
      }
      d := CopyFile(d, c.path, newPath);
      return;
    }
    if opt.maxDim <= 0 {
      aborted := true;
      return;
    }
    var newX, newY := Scaled(x, opt.maxDim, biggest), Scaled(y, opt.maxDim, biggest);
    if newX == 0 || newY == 0 || newPath in d.dirs {
      aborted := true;
      return;
    }
    var saving := encode(d.files[c.path], newX, newY);
    if saving.SaveRaises? {
      aborted := true;
      return;
    }
    d := WriteFile(d, newPath, saving.bytes);
    if opt.deleteOriginals {
      d := Remove(d, c.path);
    }
    converted := converted + 1;
  }

  /**
   * `main` from the scan on: filter the image files, then for each one
   * open, bucket, resolve the clash and copy or resize.
   */
  method Run(disk: Disk, scan: seq<Candidate<ImageRead>>, outDir: Path, opt: Options, encode: Encoder)
    returns (result: RunState)
    ensures result == RunAll(RunState(disk, 0, false), ImageFiles(scan), StepFor(outDir, opt, encode))
    ensures result.converted <= |ImageFiles(scan)|
  {
    var imageFiles := ImageFiles(scan);
    var d := disk;
    var converted: nat := 0;
    var aborted := false;
    var i := 0;
    while i < |imageFiles| && !aborted
      invariant 0 <= i <= |imageFiles|
      invariant RunState(d, converted, aborted) == RunAll(RunState(disk, 0, false), imageFiles[..i], StepFor(outDir, opt, encode))
    {
      RunAllSnoc(RunState(disk, 0, false), imageFiles, i, StepFor(outDir, opt, encode));
      ghost var before := RunState(d, converted, aborted);
      d, converted, aborted := ProcessFile(d, converted, imageFiles[i], outDir, opt, encode);
      assert RunState(d, converted, aborted) == StepFor(outDir, opt, encode)(before, imageFiles[i]);
      i := i + 1;
    }
    if aborted {
      AbortedStays(RunState(disk, 0, false), imageFiles, i, StepFor(outDir, opt, encode));
    } else {
      assert imageFiles[..i] == imageFiles;
    }
    result := RunState(d, converted, aborted);
    StepCountsAtMostOne(outDir, opt, encode);
    ConvertedBound(RunState(disk, 0, false), imageFiles, StepFor(outDir, opt, encode));
  }

  /** Files that cannot be opened are skipped: nothing changes. */
  lemma UnopenableSkipped(s: RunState, c: Candidate<ImageRead>, outDir: Path, opt: Options, encode: Encoder)
    requires c.path !in s.disk.files || c.read.Unopenable?
    ensures Step(s, c, outDir, opt, encode) == s
  {
  }

  /**
   * With `--skip`, a file whose target already exists writes nothing and
   * is not counted; at most the bucket directory is created.
   */
  lemma SkipWhenTargetExists(s: RunState, c: Candidate<ImageRead>, outDir: Path, opt: Options, encode: Encoder)
    requires c.path in s.disk.files && c.read.Opened?
    requires opt.skip
    requires Target(outDir, c) in s.disk.files
    ensures Step(s, c, outDir, opt, encode).disk.files == s.disk.files
    ensures Step(s, c, outDir, opt, encode).converted == s.converted
    ensures Step(s, c, outDir, opt, encode).aborted == s.aborted
  {
  }

  /**
   * An image whose larger side is below `max_dim` is copied byte for byte to
   * its destination; it is not counted and its original is kept even with
   * `--delete-orig`.
   */
  lemma SmallImageCopied(s: RunState, c: Candidate<ImageRead>, outDir: Path, opt: Options, encode: Encoder)
    requires c.path in s.disk.files && c.read.Opened?
    requires opt.maxDim > Biggest(c.read.width, c.read.height)
    requires !(opt.skip && Target(outDir, c) in s.disk.files)
    requires !s.aborted && !Step(s, c, outDir, opt, encode).aborted
    ensures var dst := Destination(s.disk.files.Keys, Target(outDir, c), ResizeMarker, opt.overwrite);
            var r := Step(s, c, outDir, opt, encode);
            && r.disk.files == s.disk.files[dst := s.disk.files[c.path]]
            && c.path in r.disk.files
            && r.converted == s.converted
  {
    var d := EnsureDir(s.disk, YearDirectory(outDir, c.read.timestamp));
    var dst := Destination(d.files.Keys, Target(outDir, c), ResizeMarker, opt.overwrite);
    assert Step(s, c, outDir, opt, encode) == Emit(d, s.converted, c, dst, opt, encode);
  }

  /**
   * An image at least `max_dim` on its larger side is resized so that that
   * side is `max_dim` and neither side grows; the encoding of that size is
   * saved at the destination, the original is removed exactly under
   * `--delete-orig`, and the file is counted.
   */
  lemma LargeImageResized(s: RunState, c: Candidate<ImageRead>, outDir: Path, opt: Options, encode: Encoder)
    requires c.path in s.disk.files && c.read.Opened?
    requires opt.maxDim <= Biggest(c.read.width, c.read.height)
    requires !(opt.skip && Target(outDir, c) in s.disk.files)
    requires !Step(s, c, outDir, opt, encode).aborted
    ensures opt.maxDim > 0
    ensures var w, h := c.read.width, c.read.height;
            var big := Biggest(w, h);
            var nw, nh := Scaled(w, opt.maxDim, big), Scaled(h, opt.maxDim, big);
            && 0 < nw <= w && 0 < nh <= h
            && Biggest(nw, nh) == opt.maxDim
    ensures var dst := Destination(s.disk.files.Keys, Target(outDir, c), ResizeMarker, opt.overwrite);
            var w, h := c.read.width, c.read.height;
            var big := Biggest(w, h);
            var saving := encode(s.disk.files[c.path], Scaled(w, opt.maxDim, big), Scaled(h, opt.maxDim, big));
            var r := Step(s, c, outDir, opt, encode);
            && saving.Saved?
            && var bytes := saving.bytes;
            && r.disk.files == (if opt.deleteOriginals then s.disk.files[dst := bytes] - {c.path} else s.disk.files[dst := bytes])
            && r.converted == s.converted + 1
  {
    var d := EnsureDir(s.disk, YearDirectory(outDir, c.read.timestamp));
    var dst := Destination(d.files.Keys, Target(outDir, c), ResizeMarker, opt.overwrite);
    assert Step(s, c, outDir, opt, encode) == Emit(d, s.converted, c, dst, opt, encode);
    var w, h := c.read.width, c.read.height;
    var big := Biggest(w, h);
    ScaledSide(w, opt.maxDim, big);
    ScaledSide(h, opt.maxDim, big);
    if w > h {
      ScaledMonotone(h, w, opt.maxDim, big);
    } else {
      ScaledMonotone(w, h, opt.maxDim, big);
    }
  }

  /**
   * Resizing raises, ending the run without writing, when `max_dim` is not
   * positive or the smaller side would truncate to zero; a non-positive
   * `max_dim` therefore aborts on the first image that is opened and not
   * skipped.  (`LargeImageResized` gives the converse.)
   */
  lemma ResizeAbortsWhenTooThin(s: RunState, c: Candidate<ImageRead>, outDir: Path, opt: Options, encode: Encoder)
    requires c.path in s.disk.files && c.read.Opened?
    requires opt.maxDim <= Biggest(c.read.width, c.read.height)
    requires !(opt.skip && Target(outDir, c) in s.disk.files)
    requires var w, h := c.read.width, c.read.height;
             opt.maxDim <= 0 || (if w > h then h else w) * opt.maxDim < Biggest(w, h)
    ensures Step(s, c, outDir, opt, encode).aborted
    ensures Step(s, c, outDir, opt, encode).disk.files == s.disk.files
  {
    ResizableIff(c.read.width, c.read.height, opt.maxDim);
  }

  /**
   * With `--overwrite` and `--delete-orig`, an image that sits where its
   * resized copy would go is overwritten by the resized copy and then
   * deleted: the file is gone from the disk although it is counted.
   */
  lemma ResizeOntoSourceLosesImage(s: RunState, c: Candidate<ImageRead>, outDir: Path, opt: Options, encode: Encoder)
    requires c.path in s.disk.files && c.read.Opened?
    requires opt.overwrite && opt.deleteOriginals && !opt.skip
    requires Target(outDir, c) == c.path
    requires Resizable(c.read.width, c.read.height, opt.maxDim)
    requires c.path !in s.disk.dirs && YearDirectory(outDir, c.read.timestamp) !in s.disk.files
    requires var w, h := c.read.width, c.read.height;
             encode(s.disk.files[c.path], Scaled(w, opt.maxDim, Biggest(w, h)), Scaled(h, opt.maxDim, Biggest(w, h))).Saved?
    ensures Step(s, c, outDir, opt, encode).disk.files == s.disk.files - {c.path}
    ensures Step(s, c, outDir, opt, encode).converted == s.converted + 1
  {
    var d := EnsureDir(s.disk, YearDirectory(outDir, c.read.timestamp));
    assert Destination(d.files.Keys, Target(outDir, c), ResizeMarker, opt.overwrite) == c.path;
    assert Step(s, c, outDir, opt, encode) == Emit(d, s.converted, c, c.path, opt, encode);
  }

  /** When both save attempts raise, the run ends and no file changes. */
  lemma SaveFailureAborts(s: RunState, c: Candidate<ImageRead>, outDir: Path, opt: Options, encode: Encoder)
    requires c.path in s.disk.files && c.read.Opened?
    requires !(opt.skip && Target(outDir, c) in s.disk.files)
    requires Resizable(c.read.width, c.read.height, opt.maxDim)
    requires var w, h := c.read.width, c.read.height;
             encode(s.disk.files[c.path], Scaled(w, opt.maxDim, Biggest(w, h)), Scaled(h, opt.maxDim, Biggest(w, h))) == SaveRaises
    ensures Step(s, c, outDir, opt, encode).aborted
    ensures Step(s, c, outDir, opt, encode).disk.files == s.disk.files
    ensures Step(s, c, outDir, opt, encode).converted == s.converted
  {
    var d := EnsureDir(s.disk, YearDirectory(outDir, c.read.timestamp));
    var dst := Destination(d.files.Keys, Target(outDir, c), ResizeMarker, opt.overwrite);
    if YearDirectory(outDir, c.read.timestamp) !in d.files {
      assert Step(s, c, outDir, opt, encode) == Emit(d, s.converted, c, dst, opt, encode);
    }
  }

  /**
   * When the bucket path names a regular file, the copy or save under it
   * raises: the run ends and no file changes.
   */
  lemma BucketFileAborts(s: RunState, c: Candidate<ImageRead>, outDir: Path, opt: Options, encode: Encoder)
    requires c.path in s.disk.files && c.read.Opened?
    requires YearDirectory(outDir, c.read.timestamp) in s.disk.files
    requires !(opt.skip && Target(outDir, c) in s.disk.files)
    ensures Step(s, c, outDir, opt, encode).aborted
    ensures Step(s, c, outDir, opt, encode).disk == s.disk
  {
  }

  /** A step keeps a well-formed disk well formed: it never writes a file over a directory. */
  lemma StepKeepsWellFormed(outDir: Path, opt: Options, encode: Encoder)
    ensures forall s: RunState, c :: WellFormed(s.disk) ==> WellFormed(StepFor(outDir, opt, encode)(s, c).disk)
  {
    forall s: RunState, c | WellFormed(s.disk)
      ensures WellFormed(StepFor(outDir, opt, encode)(s, c).disk)
    {
      if c.path in s.disk.files && c.read.Opened? {
        var d := EnsureDir(s.disk, YearDirectory(outDir, c.read.timestamp));
        var dst := Destination(d.files.Keys, Target(outDir, c), ResizeMarker, opt.overwrite);
        EmitKeepsWellFormed(d, s.converted, c, dst, opt, encode);
      }
    }
  }

  lemma EmitKeepsWellFormed(d: Disk, converted: nat, c: Candidate<ImageRead>, dst: Path, opt: Options, encode: Encoder)
    requires c.path in d.files && c.read.Opened?
    requires WellFormed(d)
    ensures WellFormed(Emit(d, converted, c, dst, opt, encode).disk)
  {
  }

  /** A run that starts from a well-formed disk ends on one. */
  lemma RunKeepsDiskWellFormed(disk: Disk, scan: seq<Candidate<ImageRead>>, outDir: Path, opt: Options, encode: Encoder)
    requires WellFormed(disk)
    ensures WellFormed(RunAll(RunState(disk, 0, false), ImageFiles(scan), StepFor(outDir, opt, encode)).disk)
  {
    StepKeepsWellFormed(outDir, opt, encode);
    RunKeepsWellFormed(RunState(disk, 0, false), ImageFiles(scan), StepFor(outDir, opt, encode));
  }

  /** The run's count is at most the number of image files scanned. */
  lemma ConvertedAtMostImageFiles(disk: Disk, scan: seq<Candidate<ImageRead>>, outDir: Path, opt: Options, encode: Encoder)
    ensures RunAll(RunState(disk, 0, false), ImageFiles(scan), StepFor(outDir, opt, encode)).converted <= |ImageFiles(scan)| <= |scan|
  {
    StepCountsAtMostOne(outDir, opt, encode);
    ConvertedBound(RunState(disk, 0, false), ImageFiles(scan), StepFor(outDir, opt, encode));
  }
}
