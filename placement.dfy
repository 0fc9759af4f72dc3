/**
 * Where the renamer and the resizer put a file: the year bucket taken from
 * the EXIF capture timestamp (or `Other`), and the renamer's
 * timestamp-derived filename.
 */
module Placement {

  import opened Wrappers
  import opened Paths

  /** The bucket for files without a capture timestamp. */
  const OtherBucket: string := "Other"

  /** `t.split(":")[0]`: the text before the first colon, or all of `t`. */
  function BeforeColon(t: string): (r: string)
    ensures r <= t
    ensures forall i :: 0 <= i < |r| ==> r[i] != ':'
    ensures |r| < |t| ==> t[|r|] == ':'
  {
    if t == [] || t[0] == ':' then [] else [t[0]] + BeforeColon(t[1..])
  }

  /** A text whose first colon is at `n` keeps exactly its first `n` characters. */
  lemma BeforeColonAt(t: string, n: nat)
    requires n < |t| && t[n] == ':'
    requires forall i :: 0 <= i < n ==> t[i] != ':'
    ensures BeforeColon(t) == t[..n]
  {
  }

  /** The bucket directory name: the year part of the timestamp, or `Other`. */
  function Bucket(timestamp: Option<string>): string
  {
    match timestamp
    case None => OtherBucket
    case Some(t) => BeforeColon(t)
  }

  /** `year_directory`: the bucket directory under the output directory. */
  function YearDirectory(outDir: Path, timestamp: Option<string>): Path
  {
    Join(outDir, Bucket(timestamp))
  }

  /**
   * A timestamp that does not start with a separator gives a bucket under
   * the output directory.  One that does (`/x`) is joined as an absolute
   * path and replaces the output directory.
   */
  lemma YearDirectoryUnderOutput(outDir: Path, timestamp: Option<string>)
    requires timestamp.Some? ==> Relative(timestamp.value)
    ensures Relative(Bucket(timestamp))
    ensures outDir <= YearDirectory(outDir, timestamp)
  {
  }

  /** A timestamp in the EXIF form puts the file in the bucket of its four-digit year. */
  lemma BucketIsYear(t: string)
    requires |t| >= 5 && t[4] == ':'
    requires forall i :: 0 <= i < 4 ==> '0' <= t[i] <= '9'
    ensures Bucket(Some(t)) == t[..4]
  {
    var r := BeforeColon(t);
    assert r[..4] == t[..4];
    assert |r| == 4;
  }

  /** `s` with every `a` replaced by `b` (`str.replace` on single characters). */
  function ReplaceChar(s: string, a: char, b: char): string
  {
    seq(|s|, i requires 0 <= i < |s| => if s[i] == a then b else s[i])
  }

  /** `date_time.replace(":", "-").replace(" ", "_")`. */
  function TimestampName(t: string): string
  {
    ReplaceChar(ReplaceChar(t, ':', '-'), ' ', '_')
  }

  /**
   * The timestamp name keeps the timestamp's length and characters, with
   * colons turned into dashes and spaces into underscores; it holds no
   * colon and no space.
   */
  lemma TimestampNameChars(t: string)
    ensures |TimestampName(t)| == |t|
    ensures forall i :: 0 <= i < |t| ==>
              TimestampName(t)[i] == (if t[i] == ':' then '-' else if t[i] == ' ' then '_' else t[i])
    ensures forall i :: 0 <= i < |t| ==> TimestampName(t)[i] != ':' && TimestampName(t)[i] != ' '
  {
  }

  lemma TimestampNameExample()
    ensures TimestampName("2021:05:03 10:15:02") + ".jpg" == "2021-05-03_10-15-02.jpg"
  {
    var t := "2021:05:03 10:15:02";
    TimestampNameChars(t);
    assert TimestampName(t) == "2021-05-03_10-15-02";
  }

  /**
   * The renamer's new filename: the timestamp name plus the original
   * extension when the timestamp is a non-empty string, else the original
   * basename.
   */
  function RenamedFilename(timestamp: Option<string>, source: Path): Path
  {
    if timestamp.Some? && timestamp.value != "" then TimestampName(timestamp.value) + Ext(source)
    else Basename(source)
  }

  /** The new filename is relative, so joining it keeps the bucket, when the timestamp is. */
  lemma RenamedFilenameRelative(timestamp: Option<string>, source: Path)
    requires timestamp.Some? ==> Relative(timestamp.value)
    ensures Relative(RenamedFilename(timestamp, source))
  {
    if timestamp.Some? && timestamp.value != "" {
      TimestampNameChars(timestamp.value);
    } else {
      BasenameHasNoSeparator(source);
    }
  }

  /** No dot and no separator in `t`. */
  predicate PlainText(t: string)
  {
    forall i :: 0 <= i < |t| ==> t[i] != '.' && t[i] != '/'
  }

  /** The basename of a path keeps the path's extension. */
  lemma BasenameKeepsExtension(p: Path)
    ensures Ext(Basename(p)) == Ext(p)
  {
    BasenameSplits(p);
    ExtOfLastComponent(p[..RFind(p, '/') + 1], Basename(p));
  }

  /**
   * The new filename keeps the source's extension, so a renamed image is
   * still an image file, provided the timestamp text holds no dot or
   * separator (true of the EXIF `YYYY:MM:DD HH:MM:SS` form).
   */
  lemma RenamedKeepsExtension(timestamp: Option<string>, source: Path)
    requires timestamp.Some? ==> PlainText(timestamp.value)
    ensures Ext(RenamedFilename(timestamp, source)) == Ext(source)
    ensures IsImageFile(source) ==> IsImageFile(RenamedFilename(timestamp, source))
  {
    if timestamp.Some? && timestamp.value != "" {
      var t := timestamp.value;
      var n := TimestampName(t);
      TimestampNameChars(t);
      assert PlainText(n);
      RFindUnique(n, '/', -1);
      assert n[0] != '.';
      assert NamedComponent(n);
      SplitExtParts(source);
      if Ext(source) == "" {
        RFindUnique(n, '.', -1);
        assert n + Ext(source) == n;
      } else {
        SplitAtExtension(n, Ext(source));
      }
    } else {
      BasenameKeepsExtension(source);
    }
  }
}
