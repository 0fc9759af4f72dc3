/**
 * `exif_date_adder.py`: every image file without a readable capture
 * timestamp (or every one, under `--overwrite`) gets the given date with a
 * time of day that counts the files stamped so far, one second apart, up to
 * one day's worth of seconds.
 */
module DateAdder {

  import opened Wrappers
  import opened FileSystem
  import opened Scanner
  import opened Runs
  import Placement

  /** `3600 * 24`: the run stops after stamping this many files. */
  const SecondsPerDay: nat := 3600 * 24

  predicate IsDigit(c: char)
  {
    '0' <= c <= '9'
  }

  /**
   * What the regular expression's `\d` accepts.  On a `str` pattern that is
   * every Unicode decimal digit, a table this model takes as a parameter;
   * all it relies on is that the ASCII digits are in it and `:` is not.
   */
  predicate DigitClass(isDecimal: char -> bool)
  {
    (forall c: char :: IsDigit(c) ==> isDecimal(c)) && !isDecimal(':')
  }

  /** `re.match('\d{4}:\d{2}:\d{2}', date)`: the date starts `YYYY:MM:DD`; anything may follow. */
  predicate DateFormatOk(date: string, isDecimal: char -> bool)
  {
    |date| >= 10
    && isDecimal(date[0]) && isDecimal(date[1]) && isDecimal(date[2]) && isDecimal(date[3])
    && date[4] == ':'
    && isDecimal(date[5]) && isDecimal(date[6])
    && date[7] == ':'
    && isDecimal(date[8]) && isDecimal(date[9])
  }

  /** The date check only looks at the start: trailing text is accepted, and ends up in the stamp. */
  lemma DateFormatExamples(isDecimal: char -> bool)
    requires DigitClass(isDecimal)
    ensures DateFormatOk("2021:05:03", isDecimal)
    ensures DateFormatOk("2021:05:03 and more", isDecimal)
    ensures !DateFormatOk("2021-05-03", isDecimal)
    ensures !DateFormatOk("21:05:03", isDecimal)
  {
    assert IsDigit('0') && IsDigit('1') && IsDigit('2') && IsDigit('3') && IsDigit('5');
  }

  /** Digits of other scripts pass as well: a date written in Arabic-Indic digits is accepted. */
  lemma ArabicIndicDateAccepted(isDecimal: char -> bool)
    requires forall c: char :: '\U{660}' <= c <= '\U{669}' ==> isDecimal(c)
    ensures DateFormatOk("\U{662}\U{660}\U{662}\U{661}:\U{660}\U{665}:\U{660}\U{663}", isDecimal)
  {
  }

  /** Only the first ten characters decide the check. */
  lemma DateFormatPrefix(date: string, rest: string, isDecimal: char -> bool)
    requires |date| >= 10
    ensures DateFormatOk(date + rest, isDecimal) == DateFormatOk(date, isDecimal)
  {
    assert forall i :: 0 <= i < 10 ==> (date + rest)[i] == date[i];
  }

  /** `hours`, `minutes` and `seconds` computed from `converted_count`. */
  function Clock(k: nat): (nat, nat, nat)
  {
    (k / 3600, (k % 3600) / 60, (k % 3600) % 60)
  }

  /** The clock splits the count into hours, minutes and seconds that recompose it, within one day. */
  lemma ClockParts(k: nat)
    ensures var (h, m, s) := Clock(k);
            h * 3600 + m * 60 + s == k && m < 60 && s < 60
    ensures k < SecondsPerDay ==> Clock(k).0 < 24
  {
  }

  function Digit(n: nat): char
    requires n < 10
  {
    (48 + n) as char
  }

  function DigitValue(c: char): int
  {
    c as int - 48
  }

  /** The value of a numeral read in base ten. */
  function NumeralValue(t: string): int
  {
    if t == [] then 0 else NumeralValue(t[..|t| - 1]) * 10 + DigitValue(t[|t| - 1])
  }

  /** The decimal numeral of `n`: digits that read back as `n`, without leading zeros. */
  function Decimal(n: nat): (r: string)
    ensures |r| >= 1
    ensures forall i :: 0 <= i < |r| ==> IsDigit(r[i])
    ensures NumeralValue(r) == n
    ensures r[0] == '0' ==> n == 0
  {
    if n < 10 then [Digit(n)] else Decimal(n / 10) + [Digit(n % 10)]
  }

  /** `f"{n:02d}"`: the numeral padded with a zero to at least two digits. */
  function Pad2(n: nat): string
  {
    if n < 10 then ['0'] + Decimal(n) else Decimal(n)
  }

  /** Below one hundred, the padded numeral is exactly the tens digit and the units digit. */
  lemma Pad2Small(n: nat)
    requires n < 100
    ensures Pad2(n) == [Digit(n / 10), Digit(n % 10)]
  {
    if n >= 10 {
      assert Decimal(n / 10) == [Digit(n / 10)];
    }
  }

  /** `HH:MM:SS` for the count `k`. */
  function TimeText(k: nat): string
  {
    var (h, m, s) := Clock(k);
    Pad2(h) + ":" + Pad2(m) + ":" + Pad2(s)
  }

  /** The value of the two-digit numeral at `t[i..i+2]`. */
  function TwoDigits(t: string, i: nat): int
    requires i + 2 <= |t|
  {
    DigitValue(t[i]) * 10 + DigitValue(t[i + 1])
  }

  /** Reading an `HH:MM:SS` time back as seconds since midnight. */
  function ParseTime(t: string): int
    requires |t| == 8
  {
    TwoDigits(t, 0) * 3600 + TwoDigits(t, 3) * 60 + TwoDigits(t, 6)
  }

  lemma TwoDigitsOf(n: nat, t: string, i: nat)
    requires n < 100
    requires i + 2 <= |t| && t[i..i + 2] == Pad2(n)
    ensures TwoDigits(t, i) == n
  {
    Pad2Small(n);
    assert t[i] == Pad2(n)[0] && t[i + 1] == Pad2(n)[1];
  }

  /**
   * Within one day the time text is eight characters and reads back as the
   * count it was made from.
   */
  lemma TimeRoundTrip(k: nat)
    requires k < SecondsPerDay
    ensures |TimeText(k)| == 8
    ensures ParseTime(TimeText(k)) == k
  {
    var (h, m, s) := Clock(k);
    ClockParts(k);
    Pad2Small(h);
    Pad2Small(m);
    Pad2Small(s);
    var t := TimeText(k);
    assert t == Pad2(h) + ":" + Pad2(m) + ":" + Pad2(s);
    TwoDigitsOf(h, t, 0);
    TwoDigitsOf(m, t, 3);
    TwoDigitsOf(s, t, 6);
  }

  /** The value written to `datetime_original` for the `k`-th stamped file. */
  function Stamp(date: string, k: nat): string
  {
    date + " " + TimeText(k)
  }

  /** Within one day, different counts give different stamps. */
  lemma StampInjective(date: string, j: nat, k: nat)
    requires j < SecondsPerDay && k < SecondsPerDay
    requires j != k
    ensures Stamp(date, j) != Stamp(date, k)
  {
    TimeRoundTrip(j);
    TimeRoundTrip(k);
    var n := |date| + 1;
    assert Stamp(date, j)[n..] == TimeText(j);
    assert Stamp(date, k)[n..] == TimeText(k);
  }

  /**
   * Python's `<` on strings: `a` and `b` agree up to index `i`, where `a`
   * either ends (a proper prefix) or holds the smaller character.
   */
  predicate LexLessAt(a: string, b: string, i: nat)
  {
    i < |b| && i <= |a| && a[..i] == b[..i] && (i == |a| || a[i] < b[i])
  }

  predicate LexLess(a: string, b: string)
  {
    exists i: nat :: i < |b| && LexLessAt(a, b, i)
  }

  /** A common prefix does not change the order. */
  lemma LexLessCommonPrefix(p: string, a: string, b: string)
    requires LexLess(a, b)
    ensures LexLess(p + a, p + b)
  {
    var i: nat :| i < |b| && LexLessAt(a, b, i);
    assert (p + a)[..|p| + i] == p + a[..i];
    assert (p + b)[..|p| + i] == p + b[..i];
    assert LexLessAt(p + a, p + b, |p| + i);
  }

  /** Between strings of one length, what follows does not change the order. */
  lemma LexLessExtend(a: string, b: string, x: string, y: string)
    requires |a| == |b| && LexLess(a, b)
    ensures LexLess(a + x, b + y)
  {
    var i: nat :| i < |b| && LexLessAt(a, b, i);
    assert (a + x)[..i] == a[..i];
    assert (b + y)[..i] == b[..i];
    assert LexLessAt(a + x, b + y, i);
  }

  /** Two-digit fields compare as their values. */
  lemma Pad2Ordered(n: nat, m: nat)
    requires n < m < 100
    ensures |Pad2(n)| == 2 && |Pad2(m)| == 2
    ensures LexLess(Pad2(n), Pad2(m))
  {
    Pad2Small(n);
    Pad2Small(m);
    if n / 10 == m / 10 {
      assert LexLessAt(Pad2(n), Pad2(m), 1);
    } else {
      assert LexLessAt(Pad2(n), Pad2(m), 0);
    }
  }

  /** A later count has a later clock: hours first, then minutes, then seconds. */
  lemma ClockOrdered(j: nat, k: nat)
    requires j < k
    ensures var (hj, mj, sj) := Clock(j);
            var (hk, mk, sk) := Clock(k);
            hj < hk || (hj == hk && mj < mk) || (hj == hk && mj == mk && sj < sk)
  {
    ClockParts(j);
    ClockParts(k);
  }

  /**
   * Three two-character fields separated by colons compare field by field:
   * the first field that differs decides.
   */
  lemma FieldsOrdered(a1: string, a2: string, a3: string, b1: string, b2: string, b3: string)
    requires |a1| == |b1| == |a2| == |b2| == |a3| == |b3| == 2
    requires LexLess(a1, b1) || (a1 == b1 && LexLess(a2, b2)) || (a1 == b1 && a2 == b2 && LexLess(a3, b3))
    ensures LexLess(a1 + ":" + a2 + ":" + a3, b1 + ":" + b2 + ":" + b3)
  {
    assert a1 + ":" + a2 + ":" + a3 == a1 + (":" + a2 + ":" + a3);
    assert b1 + ":" + b2 + ":" + b3 == b1 + (":" + b2 + ":" + b3);
    if LexLess(a1, b1) {
      LexLessExtend(a1, b1, ":" + a2 + ":" + a3, ":" + b2 + ":" + b3);
    } else if a1 == b1 && LexLess(a2, b2) {
      LexLessExtend(a2, b2, ":" + a3, ":" + b3);
      LexLessCommonPrefix(a1 + ":", a2 + (":" + a3), b2 + (":" + b3));
      assert a1 + ":" + a2 + ":" + a3 == (a1 + ":") + (a2 + (":" + a3));
      assert b1 + ":" + b2 + ":" + b3 == (a1 + ":") + (b2 + (":" + b3));
    } else {
      LexLessCommonPrefix(a1 + ":" + a2 + ":", a3, b3);
    }
  }

  /** Within one day, a later count gives a later time text, in string order. */
  lemma TimeTextOrdered(j: nat, k: nat)
    requires j < k < SecondsPerDay
    ensures LexLess(TimeText(j), TimeText(k))
  {
    ClockParts(j);
    ClockParts(k);
    ClockOrdered(j, k);
    var (hj, mj, sj) := Clock(j);
    var (hk, mk, sk) := Clock(k);
    Pad2Small(hj);
    Pad2Small(mj);
    Pad2Small(sj);
    Pad2Small(hk);
    Pad2Small(mk);
    Pad2Small(sk);
    if hj < hk {
      Pad2Ordered(hj, hk);
    } else if mj < mk {
      Pad2Ordered(mj, mk);
    } else {
      Pad2Ordered(sj, sk);
    }
    FieldsOrdered(Pad2(hj), Pad2(mj), Pad2(sj), Pad2(hk), Pad2(mk), Pad2(sk));
  }

  /**
   * Within one day, a later count gives a later stamp in string order, so
   * files stamped later sort later.
   */
  lemma StampOrdered(date: string, j: nat, k: nat)
    requires j < k < SecondsPerDay
    ensures LexLess(Stamp(date, j), Stamp(date, k))
  {
    TimeTextOrdered(j, k);
    LexLessCommonPrefix(date + " ", TimeText(j), TimeText(k));
  }

  lemma StampExample()
    ensures Stamp("2021:05:03", 3661) == "2021:05:03 01:01:01"
    ensures Stamp("2021:05:03", SecondsPerDay - 1) == "2021:05:03 23:59:59"
  {
    assert Clock(3661) == (1, 1, 1);
    assert Clock(SecondsPerDay - 1) == (23, 59, 59);
    Pad2Small(1);
    Pad2Small(23);
    Pad2Small(59);
    assert TimeText(3661) == "01:01:01";
    assert TimeText(SecondsPerDay - 1) == "23:59:59";
  }

  /**
   * A stamp written with an accepted date is bucketed by the organisers
   * under the date's first four characters, its year.
   */
  lemma StampBucketsByYear(date: string, k: nat, isDecimal: char -> bool)
    requires DateFormatOk(date, isDecimal) && !isDecimal(':')
    ensures Placement.Bucket(Some(Stamp(date, k))) == date[..4]
  {
    var t := Stamp(date, k);
    assert t[..4] == date[..4];
    Placement.BeforeColonAt(t, 4);
  }

  /** What `image.get("datetime_original")` does: raise, or return a value (possibly `None`). */
  datatype GetResult = GetRaises | Returns(value: Option<string>)

  /** What opening and parsing a file with the EXIF library gives. */
  datatype ExifFile = Unparsable | Parsed(get: GetResult)

  /**
   * Setting `datetime_original` and serialising with `get_file()`: either
   * raises (the setter, before the file is reopened; or the serialiser,
   * after `open(f, 'wb')` has emptied the file), or gives the new bytes.
   */
  datatype Encoding = SetRaises | SerialiseRaises | Encoded(bytes: Bytes)

  /** The EXIF library's update of a file's bytes with a new timestamp. */
  type Encoder = (Bytes, string) -> Encoding

  /** The flags `--overwrite` and `--date`. */
  datatype Options = Options(overwrite: bool, date: string)

  /**
   * A parsed file is stamped under `--overwrite`, or when reading its
   * timestamp raises; a read that returns anything, `None` included,
   * skips it otherwise.
   */
  predicate Eligible(f: ExifFile, opt: Options)
  {
    f.Parsed? && (opt.overwrite || f.get.GetRaises?)
  }

  /** The body of the `for f in image_files` loop for one file, before the day cap. */
  function Step(s: RunState, c: Candidate<ExifFile>, opt: Options, encode: Encoder): RunState
  {
    if c.path !in s.disk.files || !Eligible(c.read, opt) then s
    else
      match encode(s.disk.files[c.path], Stamp(opt.date, s.converted))
      case SetRaises => s.(aborted := true)
      case SerialiseRaises => s.(disk := WriteFile(s.disk, c.path, []), aborted := true)
      case Encoded(b) => RunState(WriteFile(s.disk, c.path, b), s.converted + 1, false)
  }

  /** The loop's step: a run that has stamped a day's worth of files has left the loop. */
  function StepFor(opt: Options, encode: Encoder): (RunState, Candidate<ExifFile>) -> RunState
  {
    (s: RunState, c: Candidate<ExifFile>) => if s.converted == SecondsPerDay then s else Step(s, c, opt, encode)
  }

  /**
   * One turn of the loop: parse, check for an existing timestamp, stamp
   * with the count's time of day, write back and count.
   */
  method ProcessFile(d0: Disk, converted0: nat, c: Candidate<ExifFile>, opt: Options, encode: Encoder)
    returns (d: Disk, converted: nat, aborted: bool)
    ensures RunState(d, converted, aborted) == Step(RunState(d0, converted0, false), c, opt, encode)
  {
    d, converted, aborted := d0, converted0, false;
    if c.path !in d.files || c.read.Unparsable? {
      return;
    }
    var hours, minutes, seconds := converted / 3600, (converted % 3600) / 60, (converted % 3600) % 60;
    if c.read.get.Returns? && !opt.overwrite {
      return;
    }
    var stamp := opt.date + " " + Pad2(hours) + ":" + Pad2(minutes) + ":" + Pad2(seconds);
    assert stamp == Stamp(opt.date, converted);
    var encoding := encode(d.files[c.path], stamp);
    match encoding {
      case SetRaises =>
        aborted := true;
      case SerialiseRaises =>
        d := WriteFile(d, c.path, []);
        aborted := true;
      case Encoded(b) =>
        d := WriteFile(d, c.path, b);
        converted := converted + 1;
    }
  }

  /**
   * `main` from the date check on: a malformed date stops before anything
   * is touched; otherwise the image files are stamped in order until a day's
   * worth of seconds is used up.
   */
  method Run(disk: Disk, scan: seq<Candidate<ExifFile>>, opt: Options, encode: Encoder, isDecimal: char -> bool)
    returns (result: RunState)
    ensures !DateFormatOk(opt.date, isDecimal) ==> result == RunState(disk, 0, false)
    ensures DateFormatOk(opt.date, isDecimal) ==>
              result == RunAll(RunState(disk, 0, false), ImageFiles(scan), StepFor(opt, encode))
    ensures result.converted <= SecondsPerDay
    ensures result.converted <= |ImageFiles(scan)|
  {
    if !DateFormatOk(opt.date, isDecimal) {
      return RunState(disk, 0, false);
    }
    result := StampAll(disk, ImageFiles(scan), opt, encode);
    CountBounds(disk, ImageFiles(scan), opt, encode);
  }

  /** The `for f in image_files` loop, with its `break` once a day's worth of files is stamped. */
  method StampAll(disk: Disk, imageFiles: seq<Candidate<ExifFile>>, opt: Options, encode: Encoder)
    returns (result: RunState)
    ensures result == RunAll(RunState(disk, 0, false), imageFiles, StepFor(opt, encode))
  {
    var d := disk;
    var converted: nat := 0;
    var aborted := false;
    var i := 0;
    ghost var init := RunState(disk, 0, false);
    while i < |imageFiles| && !aborted
      invariant 0 <= i <= |imageFiles|
      invariant converted < SecondsPerDay
      invariant RunState(d, converted, aborted) == RunAll(init, imageFiles[..i], StepFor(opt, encode))
    {
      RunAllSnoc(init, imageFiles, i, StepFor(opt, encode));
      StepBeforeFullDay(RunState(d, converted, aborted), imageFiles[i], opt, encode);
      d, converted, aborted := ProcessFile(d, converted, imageFiles[i], opt, encode);
      i := i + 1;
      if converted == SecondsPerDay {
        FullDayStays(init, imageFiles, i, opt, encode);
        break;
      }
    }
    if converted < SecondsPerDay {
      if aborted {
        AbortedStays(init, imageFiles, i, StepFor(opt, encode));
      } else {
        assert imageFiles[..i] == imageFiles;
      }
    }
    result := RunState(d, converted, aborted);
  }

  lemma StepBeforeFullDay(s: RunState, c: Candidate<ExifFile>, opt: Options, encode: Encoder)
    requires s.converted < SecondsPerDay
    ensures StepFor(opt, encode)(s, c) == Step(s, c, opt, encode)
  {
  }

  /** Once a day's worth of files is stamped, the remaining files change nothing. */
  lemma FullDayStays(s0: RunState, cs: seq<Candidate<ExifFile>>, i: nat, opt: Options, encode: Encoder)
    requires i <= |cs|
    requires RunAll(s0, cs[..i], StepFor(opt, encode)).converted == SecondsPerDay
    ensures RunAll(s0, cs, StepFor(opt, encode)) == RunAll(s0, cs[..i], StepFor(opt, encode))
  {
    FixedStays(s0, cs, i, StepFor(opt, encode));
  }

  /** A run stamps at most a day's worth of files, and at most one per image file. */
  lemma CountBounds(disk: Disk, files: seq<Candidate<ExifFile>>, opt: Options, encode: Encoder)
    ensures RunAll(RunState(disk, 0, false), files, StepFor(opt, encode)).converted <= SecondsPerDay
    ensures RunAll(RunState(disk, 0, false), files, StepFor(opt, encode)).converted <= |files|
  {
    StepStaysWithinDay(opt, encode);
    CountStaysAtMost(RunState(disk, 0, false), files, StepFor(opt, encode), SecondsPerDay);
    StepCountsAtMostOne(opt, encode);
    ConvertedBound(RunState(disk, 0, false), files, StepFor(opt, encode));
  }

  lemma StepStaysWithinDay(opt: Options, encode: Encoder)
    ensures forall s: RunState, c :: s.converted <= SecondsPerDay ==> StepFor(opt, encode)(s, c).converted <= SecondsPerDay
  {
  }

  lemma StepCountsAtMostOne(opt: Options, encode: Encoder)
    ensures forall s, c :: StepFor(opt, encode)(s, c).converted <= s.converted + 1
  {
  }

  /**
   * A stamped file gets the date with the time of day of the files stamped
   * before it, which is at most `23:59:59`; only that file's bytes change
   * and it is counted.
   */
  lemma StampedWithCount(s: RunState, c: Candidate<ExifFile>, opt: Options, encode: Encoder)
    requires s.converted < SecondsPerDay
    requires c.path in s.disk.files && Eligible(c.read, opt)
    requires encode(s.disk.files[c.path], Stamp(opt.date, s.converted)).Encoded?
    ensures var r := StepFor(opt, encode)(s, c);
            && r.disk.files == s.disk.files[c.path := encode(s.disk.files[c.path], Stamp(opt.date, s.converted)).bytes]
            && r.disk.dirs == s.disk.dirs
            && r.converted == s.converted + 1
    ensures Clock(s.converted).0 < 24
  {
    ClockParts(s.converted);
  }

  /** Whether the loop, reaching `c` in state `s`, stamps `c` and writes it back. */
  predicate StampsFile(s: RunState, c: Candidate<ExifFile>, opt: Options, encode: Encoder)
  {
    && !s.aborted
    && s.converted != SecondsPerDay
    && c.path in s.disk.files
    && Eligible(c.read, opt)
    && encode(s.disk.files[c.path], Stamp(opt.date, s.converted)).Encoded?
  }

  /**
   * The files a run stamps, in processing order, each with the count whose
   * time of day it is given: the file is written with
   * `Stamp(opt.date, count)`.
   */
  function Stamped(s0: RunState, cs: seq<Candidate<ExifFile>>, opt: Options, encode: Encoder): seq<(string, nat)>
  {
    if cs == [] then []
    else
      var s := RunAll(s0, cs[..|cs| - 1], StepFor(opt, encode));
      var c := cs[|cs| - 1];
      Stamped(s0, cs[..|cs| - 1], opt, encode) + (if StampsFile(s, c, opt, encode) then [(c.path, s.converted)] else [])
  }

  /** The count rises exactly at the files the loop stamps. */
  lemma StepCountsStamps(s: RunState, c: Candidate<ExifFile>, opt: Options, encode: Encoder)
    requires !s.aborted
    ensures StepFor(opt, encode)(s, c).converted == s.converted + (if StampsFile(s, c, opt, encode) then 1 else 0)
  {
  }

  /**
   * The `i`-th file a run stamps gets count `i` (counting from where the
   * run started), and the final count is the number stamped.
   */
  lemma {:induction false} StampedFollowCount(s0: RunState, cs: seq<Candidate<ExifFile>>, opt: Options, encode: Encoder)
    ensures RunAll(s0, cs, StepFor(opt, encode)).converted == s0.converted + |Stamped(s0, cs, opt, encode)|
    ensures forall i :: 0 <= i < |Stamped(s0, cs, opt, encode)| ==> Stamped(s0, cs, opt, encode)[i].1 == s0.converted + i
  {
    if cs != [] {
      var pre, c := cs[..|cs| - 1], cs[|cs| - 1];
      StampedFollowCount(s0, pre, opt, encode);
      var s := RunAll(s0, pre, StepFor(opt, encode));
      if !s.aborted {
        StepCountsStamps(s, c, opt, encode);
      }
      var before := Stamped(s0, pre, opt, encode);
      var w := Stamped(s0, cs, opt, encode);
      forall i | 0 <= i < |w|
        ensures w[i].1 == s0.converted + i
      {
        if i < |before| {
          assert w[i] == before[i];
        }
      }
    }
  }

  /**
   * In a run from the start, the `i`-th file stamped gets the date with
   * time of day `i` seconds, the count is the number of files stamped, and
   * the stamps strictly increase in string order in the order the files
   * were processed: stamped files sort in processing order.
   */
  lemma RunStampsIncrease(disk: Disk, files: seq<Candidate<ExifFile>>, opt: Options, encode: Encoder)
    ensures var w := Stamped(RunState(disk, 0, false), files, opt, encode);
            && |w| == RunAll(RunState(disk, 0, false), files, StepFor(opt, encode)).converted
            && (forall i :: 0 <= i < |w| ==> w[i].1 == i)
            && (forall i, j :: 0 <= i < j < |w| ==> LexLess(Stamp(opt.date, w[i].1), Stamp(opt.date, w[j].1)))
  {
    StampedFollowCount(RunState(disk, 0, false), files, opt, encode);
    CountBounds(disk, files, opt, encode);
    CountedStampsIncrease(Stamped(RunState(disk, 0, false), files, opt, encode), opt.date);
  }

  /** Stamps of the counts `0, 1, ...` within one day strictly increase. */
  lemma CountedStampsIncrease(w: seq<(string, nat)>, date: string)
    requires |w| <= SecondsPerDay
    requires forall i :: 0 <= i < |w| ==> w[i].1 == i
    ensures forall i, j :: 0 <= i < j < |w| ==> LexLess(Stamp(date, w[i].1), Stamp(date, w[j].1))
  {
    forall i, j | 0 <= i < j < |w|
      ensures LexLess(Stamp(date, w[i].1), Stamp(date, w[j].1))
    {
      StampOrdered(date, i, j);
    }
  }

  /**
   * Without `--overwrite`, a file whose timestamp read returns is left
   * alone, even when what it returns is `None`.
   */
  lemma SkippedWhenReadReturns(s: RunState, c: Candidate<ExifFile>, opt: Options, encode: Encoder)
    requires !opt.overwrite
    requires c.read.Parsed? && c.read.get.Returns?
    ensures Step(s, c, opt, encode) == s
  {
  }

  /**
   * A file is stamped exactly when it exists, parses, and either
   * `--overwrite` is given or its timestamp read raises; then only that
   * file can change.
   */
  lemma StepTouchesOnlyEligible(s: RunState, c: Candidate<ExifFile>, opt: Options, encode: Encoder)
    ensures Step(s, c, opt, encode) != s ==> c.path in s.disk.files && Eligible(c.read, opt)
    ensures forall q :: q in s.disk.files && q != c.path ==>
              q in Step(s, c, opt, encode).disk.files && Step(s, c, opt, encode).disk.files[q] == s.disk.files[q]
    ensures Step(s, c, opt, encode).disk.files.Keys == s.disk.files.Keys
  {
  }

  /** A failing serialisation leaves the file empty and ends the run. */
  lemma SerialiseFailureEmptiesFile(s: RunState, c: Candidate<ExifFile>, opt: Options, encode: Encoder)
    requires c.path in s.disk.files && Eligible(c.read, opt)
    requires encode(s.disk.files[c.path], Stamp(opt.date, s.converted)) == SerialiseRaises
    ensures Step(s, c, opt, encode).disk.files[c.path] == []
    ensures Step(s, c, opt, encode).aborted
  {
  }

  /** Stamping rewrites an existing file in place, so a well-formed disk stays well formed. */
  lemma StepKeepsWellFormed(opt: Options, encode: Encoder)
    ensures forall s: RunState, c :: WellFormed(s.disk) ==> WellFormed(StepFor(opt, encode)(s, c).disk)
  {
  }
}
