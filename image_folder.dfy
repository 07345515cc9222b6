/** The slideshow's image selection: from a folder's listing, the `.jpg` and `.png` names
    joined to the folder and sorted, with a window `[start, end)` of them taken and `end`
    clamped to the number of files. */
module ImageFolder {
  import opened Wrappers

  // ---------------------------------------------------------------------------------------
  // Names and paths
  // ---------------------------------------------------------------------------------------

  /** `s.endswith(suffix)`. */
  predicate EndsWith(s: string, suffix: string)
  {
    |suffix| <= |s| && s[|s| - |suffix|..] == suffix
  }

  /** The names the slideshow picks up: those ending in `.jpg` or `.png`, case-sensitively. */
  predicate IsImageName(name: string)
  {
    EndsWith(name, ".jpg") || EndsWith(name, ".png")
  }

  /** `os.path.join(folder, name)` on POSIX: an absolute name replaces the folder, an empty
      folder or one ending in a separator is followed directly by the name, and otherwise a
      separator is put between them. */
  function Join(folder: string, name: string): string
  {
    if |name| > 0 && name[0] == '/' then name
    else if folder == [] || folder[|folder| - 1] == '/' then folder + name
    else folder + "/" + name
  }

  /** The directory part `Join` puts in front of a relative name. */
  function Prefix(folder: string): string
  {
    if folder == [] || folder[|folder| - 1] == '/' then folder else folder + "/"
  }

  /** The comprehension over the listing: each image name, joined to the folder, in listing
      order. */
  function ImageFiles(folder: string, listing: seq<string>): seq<string>
  {
    if listing == [] then []
    else if IsImageName(listing[0]) then [Join(folder, listing[0])] + ImageFiles(folder, listing[1..])
    else ImageFiles(folder, listing[1..])
  }

  /** The image names of the listing, in listing order. */
  function ImageNames(listing: seq<string>): seq<string>
  {
    if listing == [] then []
    else if IsImageName(listing[0]) then [listing[0]] + ImageNames(listing[1..])
    else ImageNames(listing[1..])
  }

  function JoinAll(folder: string, names: seq<string>): seq<string>
  {
    if names == [] then [] else [Join(folder, names[0])] + JoinAll(folder, names[1..])
  }

  // ---------------------------------------------------------------------------------------
  // Python's string order and `sorted`
  // ---------------------------------------------------------------------------------------

  /** `a <= b` on Python strings: code point by code point, a proper prefix first. */
  predicate LexLe(a: string, b: string)
  {
    |a| == 0 || (|b| > 0 && (a[0] < b[0] || (a[0] == b[0] && LexLe(a[1..], b[1..]))))
  }

  predicate Sorted(s: seq<string>)
  {
    forall i, j :: 0 <= i < j < |s| ==> LexLe(s[i], s[j])
  }

  /** Inserts `x` before the first element it is at most. */
  function Insert(x: string, s: seq<string>): seq<string>
  {
    if s == [] then [x]
    else if LexLe(x, s[0]) then [x] + s
    else [s[0]] + Insert(x, s[1..])
  }

  /** `sorted(s)` for a list of strings. */
  function SortStrings(s: seq<string>): seq<string>
  {
    if s == [] then [] else Insert(s[0], SortStrings(s[1..]))
  }

  lemma {:induction false} LexLeTotal(a: string, b: string)
    ensures LexLe(a, b) || LexLe(b, a)
  {
    if |a| > 0 && |b| > 0 && a[0] == b[0] {
      LexLeTotal(a[1..], b[1..]);
    }
  }

  lemma {:induction false} LexLeTransitive(a: string, b: string, c: string)
    requires LexLe(a, b) && LexLe(b, c)
    ensures LexLe(a, c)
  {
    if |a| > 0 && a[0] == b[0] && b[0] == c[0] {
      LexLeTransitive(a[1..], b[1..], c[1..]);
    }
  }

  lemma {:induction false} LexLeAntisymmetric(a: string, b: string)
    requires LexLe(a, b) && LexLe(b, a)
    ensures a == b
  {
    if |a| > 0 {
      LexLeAntisymmetric(a[1..], b[1..]);
      assert a == [a[0]] + a[1..];
      assert b == [b[0]] + b[1..];
    }
  }

  /** A common prefix does not change the order. */
  lemma {:induction false} LexLePrefix(p: string, a: string, b: string)
    ensures LexLe(p + a, p + b) <==> LexLe(a, b)
  {
    if p != [] {
      assert (p + a)[1..] == p[1..] + a;
      assert (p + b)[1..] == p[1..] + b;
      LexLePrefix(p[1..], a, b);
    } else {
      assert p + a == a && p + b == b;
    }
  }

  lemma {:induction false} LexLeReflexive(a: string)
    ensures LexLe(a, a)
  {
    if |a| > 0 {
      LexLeReflexive(a[1..]);
    }
  }

  /** An element at most every element of a sorted list can go in front of it. */
  lemma PrependSorted(h: string, t: seq<string>)
    requires Sorted(t) && forall k :: 0 <= k < |t| ==> LexLe(h, t[k])
    ensures Sorted([h] + t)
  {
    var u := [h] + t;
    forall i, j | 0 <= i < j < |u| ensures LexLe(u[i], u[j]) {
      if i > 0 {
        assert u[i] == t[i - 1] && u[j] == t[j - 1];
      } else {
        assert u[j] == t[j - 1];
      }
    }
  }

  lemma SortedTail(s: seq<string>)
    requires Sorted(s) && s != []
    ensures Sorted(s[1..])
  {
    forall i, j | 0 <= i < j < |s[1..]| ensures LexLe(s[1..][i], s[1..][j]) {
      assert s[1..][i] == s[i + 1] && s[1..][j] == s[j + 1];
    }
  }

  /** The head of a sorted list is at most everything `x` is inserted among in its tail,
      when it is at most `x`. */
  lemma HeadBelowInsert(x: string, s: seq<string>)
    requires Sorted(s) && s != [] && LexLe(s[0], x)
    requires multiset(Insert(x, s[1..])) == multiset(s[1..]) + multiset{x}
    ensures forall k :: 0 <= k < |Insert(x, s[1..])| ==> LexLe(s[0], Insert(x, s[1..])[k])
  {
    var t := Insert(x, s[1..]);
    forall k | 0 <= k < |t| ensures LexLe(s[0], t[k]) {
      assert t[k] in multiset(t);
      if t[k] != x {
        assert t[k] in multiset(s[1..]);
        var m :| 0 <= m < |s[1..]| && s[1..][m] == t[k];
        assert s[m + 1] == t[k];
      }
    }
  }

  lemma {:induction false} InsertSorted(x: string, s: seq<string>)
    requires Sorted(s)
    ensures Sorted(Insert(x, s))
    ensures multiset(Insert(x, s)) == multiset(s) + multiset{x}
  {
    if s == [] {
    } else if LexLe(x, s[0]) {
      forall k | 0 <= k < |s| ensures LexLe(x, s[k]) {
        if k > 0 {
          LexLeTransitive(x, s[0], s[k]);
        }
      }
      PrependSorted(x, s);
    } else {
      LexLeTotal(x, s[0]);
      SortedTail(s);
      InsertSorted(x, s[1..]);
      HeadBelowInsert(x, s);
      PrependSorted(s[0], Insert(x, s[1..]));
      assert s == [s[0]] + s[1..];
    }
  }

  /** The result of `sorted` is in order and holds exactly the input's elements. */
  lemma {:induction false} SortStringsSorted(s: seq<string>)
    ensures Sorted(SortStrings(s))
    ensures multiset(SortStrings(s)) == multiset(s)
  {
    if s != [] {
      SortStringsSorted(s[1..]);
      InsertSorted(s[0], SortStrings(s[1..]));
      assert s == [s[0]] + s[1..];
    }
  }

  /** A list of strings has only one sorted arrangement: any sorted permutation of the input
      is what `sorted` returns. */
  lemma {:induction false} SortedUnique(a: seq<string>, b: seq<string>)
    requires Sorted(a) && Sorted(b) && multiset(a) == multiset(b)
    ensures a == b
    decreases |a|
  {
    if a != [] {
      assert |b| == |a| by { assert |multiset(a)| == |multiset(b)|; }
      assert a[0] in multiset(b);
      assert b[0] in multiset(a);
      var i :| 0 <= i < |b| && b[i] == a[0];
      var j :| 0 <= j < |a| && a[j] == b[0];
      LexLeReflexive(a[0]);
      assert LexLe(b[0], a[0]) by { if i > 0 { assert LexLe(b[0], b[i]); } }
      assert LexLe(a[0], b[0]) by { if j > 0 { assert LexLe(a[0], a[j]); } }
      LexLeAntisymmetric(a[0], b[0]);
      assert a == [a[0]] + a[1..];
      assert b == [b[0]] + b[1..];
      assert multiset(a) == multiset{a[0]} + multiset(a[1..]);
      assert multiset(b) == multiset{a[0]} + multiset(b[1..]);
      assert multiset(a[1..]) == multiset(a) - multiset{a[0]} == multiset(b[1..]);
      SortedTail(a);
      SortedTail(b);
      SortedUnique(a[1..], b[1..]);
    }
  }

  // ---------------------------------------------------------------------------------------
  // The selection
  // ---------------------------------------------------------------------------------------

  /** `image_files`: the image paths of the folder, sorted. */
  function SortedImageFiles(folder: string, listing: seq<string>): seq<string>
  {
    SortStrings(ImageFiles(folder, listing))
  }

  /** `lst[i]` bound for a slice of a list of length `n`: a negative index counts from the
      end, and the result is clamped to `0..n`. */
  function SliceBound(i: int, n: nat): (b: nat)
    ensures b <= n
  {
    if i < 0 then (if i + n < 0 then 0 else i + n) else if i > n then n else i
  }

  /** `s[start:end]` with Python's slice semantics. */
  function PySlice(s: seq<string>, start: int, end: int): seq<string>
  {
    var lo := SliceBound(start, |s|);
    var hi := SliceBound(end, |s|);
    if hi <= lo then [] else s[lo..hi]
  }

  /** What `load_images_from_folder` returns, with each image standing for the path it is
      loaded from: the paths, whether the window reached the last file, and the end index. */
  datatype Batch = Batch(images: seq<string>, lastImg: bool, end: int)

  const NoImages := "No images found in the given folder"

  /** `load_images_from_folder(folder, start, end)` over the folder's listing. */
  function LoadImagesFromFolder(folder: string, listing: seq<string>, start: int, end: int)
    : Result<Batch, string>
  {
    var files := SortedImageFiles(folder, listing);
    if |files| == 0 then Err(NoImages)
    else if |files| < end then Ok(Batch(PySlice(files, start, |files|), true, |files|))
    else Ok(Batch(PySlice(files, start, end), false, end))
  }
}
