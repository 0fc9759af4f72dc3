/**
 * The duplicate-name loop shared by the renamer and the resizer: while the
 * wanted path names an existing file, insert a fixed marker (`D` for
 * renames, `_RESIZED` for resizes) before its extension.
 */
module Resolver {

  import opened Paths

  /** A marker is non-empty and holds no dot or separator, so inserting it keeps the extension. */
  predicate IsMarker(m: string)
  {
    |m| > 0 && forall i :: 0 <= i < |m| ==> m[i] != '.' && m[i] != '/'
  }

  /** The two scripts' markers: `D` for the renamer, `_RESIZED` for the resizer. */
  datatype Marker = RenameMarker | ResizeMarker

  function Text(k: Marker): (m: string)
    ensures IsMarker(m)
  {
    match k
    case RenameMarker => "D"
    case ResizeMarker => "_RESIZED"
  }

  /** `k` copies of `m`. */
  function Repeat(m: string, k: nat): string
  {
    if k == 0 then "" else Repeat(m, k - 1) + m
  }

  lemma {:induction false} RepeatIsMarkerText(m: string, k: nat)
    requires IsMarker(m)
    ensures forall i :: 0 <= i < |Repeat(m, k)| ==> Repeat(m, k)[i] != '.' && Repeat(m, k)[i] != '/'
  {
    if k > 0 {
      RepeatIsMarkerText(m, k - 1);
      var r := Repeat(m, k - 1);
      forall i | 0 <= i < |r + m| ensures (r + m)[i] != '.' && (r + m)[i] != '/' {
        if i < |r| {
          assert (r + m)[i] == r[i];
        } else {
          assert (r + m)[i] == m[i - |r|];
        }
      }
    }
  }

  lemma {:induction false} RepeatGrows(m: string, j: nat, k: nat)
    requires IsMarker(m)
    requires j < k
    ensures |Repeat(m, j)| < |Repeat(m, k)|
  {
    if j < k - 1 {
      RepeatGrows(m, j, k - 1);
    }
  }

  /** The path after `k` rounds of inserting `m` before the extension of `p`. */
  function Decorated(p: Path, m: string, k: nat): Path
  {
    Root(p) + Repeat(m, k) + Ext(p)
  }

  /** Decorated paths for different round counts differ (their lengths do). */
  lemma DecoratedDistinct(p: Path, m: string, j: nat, k: nat)
    requires IsMarker(m)
    requires j != k
    ensures Decorated(p, m, j) != Decorated(p, m, k)
  {
    if j < k {
      RepeatGrows(m, j, k);
    } else {
      RepeatGrows(m, k, j);
    }
  }

  /** `splitext` of a decorated path: the markers join the root, the extension stays. */
  lemma DecoratedSplits(p: Path, m: string, k: nat)
    requires IsMarker(m)
    ensures SplitExt(Decorated(p, m, k)) == (Root(p) + Repeat(m, k), Ext(p))
  {
    SplitExtParts(p);
    if k == 0 {
      assert Decorated(p, m, k) == p;
    } else if Ext(p) == "" {
      RepeatIsMarkerText(m, k);
      NoExtensionAppend(p, Repeat(m, k));
      assert Decorated(p, m, k) == p + Repeat(m, k);
    } else {
      MarkedRootIsNamed(Root(p), m, k);
      SplitAtExtension(Root(p) + Repeat(m, k), Ext(p));
    }
  }

  /** A root followed by at least one marker has a named last component: the marker's last character. */
  lemma MarkedRootIsNamed(root: string, m: string, k: nat)
    requires IsMarker(m) && k > 0
    ensures NamedComponent(root + Repeat(m, k))
  {
    var t := Repeat(m, k);
    var r := root + t;
    var last := |r| - 1;
    assert t == Repeat(m, k - 1) + m;
    assert r[last] == m[|m| - 1];
    RFindAppend(r[..last], [r[last]], '/');
    assert r[..last] + [r[last]] == r;
    assert RFind(r, '/') < last;
    assert HasNonDot(r, RFind(r, '/') + 1, |r|);
  }

  /** One turn of the source loop turns `k` insertions into `k + 1`. */
  lemma DecoratedStep(p: Path, m: string, k: nat)
    requires IsMarker(m)
    ensures Root(Decorated(p, m, k)) + m + Ext(Decorated(p, m, k)) == Decorated(p, m, k + 1)
  {
    DecoratedSplits(p, m, k);
    assert Repeat(m, k + 1) == Repeat(m, k) + m;
  }

  lemma DecoratedZero(p: Path, m: string)
    ensures Decorated(p, m, 0) == p
  {
    SplitExtParts(p);
  }

  /** The first `n` decorations of `p` all name existing files. */
  predicate Taken(existing: set<Path>, p: Path, m: string, n: nat)
  {
    forall j :: 0 <= j < n ==> Decorated(p, m, j) in existing
  }

  /** The first `n` decorations of `p`. */
  function Decorations(p: Path, m: string, n: nat): set<Path>
  {
    if n == 0 then {} else Decorations(p, m, n - 1) + {Decorated(p, m, n - 1)}
  }

  lemma {:induction false} DecorationsBefore(p: Path, m: string, n: nat, k: nat)
    requires IsMarker(m)
    requires n <= k
    ensures Decorated(p, m, k) !in Decorations(p, m, n)
  {
    if n > 0 {
      DecorationsBefore(p, m, n - 1, k);
      DecoratedDistinct(p, m, n - 1, k);
    }
  }

  /** The first `n` decorations are `n` different paths. */
  lemma {:induction false} DecorationsCount(p: Path, m: string, n: nat)
    requires IsMarker(m)
    ensures |Decorations(p, m, n)| == n
  {
    if n > 0 {
      DecorationsCount(p, m, n - 1);
      DecorationsBefore(p, m, n - 1, n - 1);
    }
  }

  lemma {:induction false} TakenDecorations(existing: set<Path>, p: Path, m: string, n: nat)
    requires Taken(existing, p, m, n)
    ensures Decorations(p, m, n) <= existing
  {
    if n > 0 {
      TakenDecorations(existing, p, m, n - 1);
    }
  }

  /** Pigeonhole: `n` distinct taken decorations need at least `n` existing files. */
  lemma TakenBound(existing: set<Path>, p: Path, m: string, n: nat)
    requires IsMarker(m)
    requires Taken(existing, p, m, n)
    ensures n <= |existing|
  {
    DecorationsCount(p, m, n);
    TakenDecorations(existing, p, m, n);
    SubsetCardinality(Decorations(p, m, n), existing);
  }

  lemma SubsetCardinality<T>(a: set<T>, b: set<T>)
    requires a <= b
    ensures |a| <= |b|
  {
    assert b == a + (b - a);
  }

  /**
   * The least number of insertions, from `k` on, whose path names no
   * existing file.  It exists, and is at most the number of existing files.
   */
  function FreeIndex(existing: set<Path>, p: Path, m: string, k: nat): (n: nat)
    requires IsMarker(m)
    requires Taken(existing, p, m, k)
    ensures k <= n <= |existing|
    ensures Decorated(p, m, n) !in existing
    ensures Taken(existing, p, m, n)
    decreases |existing| - k
  {
    if Decorated(p, m, k) in existing then
      TakenBound(existing, p, m, k + 1);
      FreeIndex(existing, p, m, k + 1)
    else
      TakenBound(existing, p, m, k);
      k
  }

  /** The least free count is the only count that is free with all smaller counts taken. */
  lemma FreeIndexUnique(existing: set<Path>, p: Path, m: string, k: nat, n: nat)
    requires IsMarker(m)
    requires Taken(existing, p, m, k)
    requires k <= n
    requires Decorated(p, m, n) !in existing
    requires Taken(existing, p, m, n)
    ensures FreeIndex(existing, p, m, k) == n
  {
  }

  /** The path the duplicate loop settles on. */
  function Resolved(existing: set<Path>, p: Path, m: string): Path
    requires IsMarker(m)
  {
    Decorated(p, m, FreeIndex(existing, p, m, 0))
  }

  /**
   * The path a file is written to: the wanted path itself under
   * `--overwrite`, else its first free decoration.
   */
  function Destination(existing: set<Path>, p: Path, k: Marker, overwrite: bool): Path
  {
    if overwrite then p else Resolved(existing, p, Text(k))
  }

  /** Whatever the loop settles on stays in the wanted path's directory. */
  lemma DestinationKeepsDirectory(q: Path, existing: set<Path>, p: Path, k: Marker, overwrite: bool)
    requires q <= p && (q == "" || q[|q| - 1] == '/')
    ensures q <= Destination(existing, p, k, overwrite)
  {
    RootKeepsDirectory(q, p);
  }

  /**
   * The source's loop: re-split the current path and insert the marker
   * until the path is free.  It ends on the least free decoration, which
   * never names an existing file.
   */
  method ResolveDuplicate(existing: set<Path>, p: Path, m: string) returns (q: Path)
    requires IsMarker(m)
    ensures q !in existing
    ensures q == Resolved(existing, p, m)
  {
    q := p;
    var duplicate := q in existing;
    ghost var k: nat := 0;
    DecoratedZero(p, m);
    while duplicate
      invariant q == Decorated(p, m, k)
      invariant Taken(existing, p, m, k)
      invariant duplicate == (q in existing)
      decreases |existing| - k
    {
      TakenBound(existing, p, m, k + 1);
      DecoratedStep(p, m, k);
      q := Root(q) + m + Ext(q);
      k := k + 1;
      duplicate := q in existing;
    }
    FreeIndexUnique(existing, p, m, 0, k);
  }

  /**
   * Once the resolved path has been written, resolving the same wanted
   * path again needs at least one more insertion, and exactly one more when
   * the next decoration was free.
   */
  lemma ResolveAfterWrite(existing: set<Path>, p: Path, m: string)
    requires IsMarker(m)
    ensures FreeIndex(existing + {Resolved(existing, p, m)}, p, m, 0) > FreeIndex(existing, p, m, 0)
    ensures var k := FreeIndex(existing, p, m, 0);
            Decorated(p, m, k + 1) !in existing ==>
              FreeIndex(existing + {Resolved(existing, p, m)}, p, m, 0) == k + 1
  {
    var k := FreeIndex(existing, p, m, 0);
    var after := existing + {Resolved(existing, p, m)};
    assert Taken(after, p, m, k + 1);
    if Decorated(p, m, k + 1) !in existing {
      DecoratedDistinct(p, m, k, k + 1);
      FreeIndexUnique(after, p, m, 0, k + 1);
    }
  }

  /**
   * When the file being moved leaves the set as its resolved path enters,
   * resolving the same wanted path again needs exactly one more insertion,
   * provided the moved file was none of the taken decorations and the next
   * decoration was free.
   */
  lemma ResolveAfterMove(existing: set<Path>, p: Path, m: string, source: Path)
    requires IsMarker(m)
    requires forall j :: 0 <= j < FreeIndex(existing, p, m, 0) ==> Decorated(p, m, j) != source
    requires Decorated(p, m, FreeIndex(existing, p, m, 0) + 1) !in existing
    ensures FreeIndex(existing - {source} + {Resolved(existing, p, m)}, p, m, 0) == FreeIndex(existing, p, m, 0) + 1
  {
    var k := FreeIndex(existing, p, m, 0);
    var after := existing - {source} + {Resolved(existing, p, m)};
    assert Taken(after, p, m, k + 1);
    DecoratedDistinct(p, m, k, k + 1);
    FreeIndexUnique(after, p, m, 0, k + 1);
  }
}
