/**
 * The scan of the input directory, taken as an input sequence (its order
 * carries no meaning), and the `is_image_file` filter applied to it.
 */
module Scanner {

  import opened Paths

  /** A scanned path, with what the image library reports when it opens the file. */
  datatype Candidate<R> = Candidate(path: Path, read: R)

  /** `list(filter(is_image_file, files))`. */
  function ImageFiles<R>(scan: seq<Candidate<R>>): (r: seq<Candidate<R>>)
    ensures |r| <= |scan|
    ensures forall c :: c in r ==> c in scan && IsImageFile(c.path)
    ensures forall c :: c in scan && IsImageFile(c.path) ==> c in r
  {
    if scan == [] then []
    else
      var rest := ImageFiles(scan[..|scan| - 1]);
      var last := scan[|scan| - 1];
      assert scan == scan[..|scan| - 1] + [last];
      if IsImageFile(last.path) then rest + [last] else rest
  }

  /** Each scanned image file is kept as often as it was scanned; nothing else is kept. */
  lemma {:induction false} ImageFilesCounts<R>(scan: seq<Candidate<R>>, c: Candidate<R>)
    ensures multiset(ImageFiles(scan))[c] == if IsImageFile(c.path) then multiset(scan)[c] else 0
  {
    if scan != [] {
      var rest, last := scan[..|scan| - 1], scan[|scan| - 1];
      assert scan == rest + [last];
      ImageFilesCounts(rest, c);
    }
  }

  /** Filtering keeps the scan's order: it works on each part of a split scan separately. */
  lemma {:induction false} ImageFilesAppend<R>(a: seq<Candidate<R>>, b: seq<Candidate<R>>)
    ensures ImageFiles(a + b) == ImageFiles(a) + ImageFiles(b)
    decreases |b|
  {
    if b == [] {
      assert a + b == a;
    } else {
      var b', last := b[..|b| - 1], b[|b| - 1];
      assert a + b == (a + b') + [last];
      assert b == b' + [last];
      ImageFilesSnoc(a + b', last);
      ImageFilesSnoc(b', last);
      ImageFilesAppend(a, b');
    }
  }

  lemma ImageFilesSnoc<R>(xs: seq<Candidate<R>>, x: Candidate<R>)
    ensures ImageFiles(xs + [x]) == ImageFiles(xs) + (if IsImageFile(x.path) then [x] else [])
  {
    assert (xs + [x])[..|xs|] == xs;
  }
}
