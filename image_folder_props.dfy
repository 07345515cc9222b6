/** What the image selection promises, proved about the functions that specify it. */
module ImageFolderProperties {
  import opened Wrappers
  import opened ImageFolder

  // ---------------------------------------------------------------------------------------
  // Which paths are selected, and in what order
  // ---------------------------------------------------------------------------------------

  lemma {:induction false} ImageFilesMembers(folder: string, listing: seq<string>)
    ensures forall p :: p in ImageFiles(folder, listing) <==>
              exists f :: f in listing && IsImageName(f) && Join(folder, f) == p
    ensures |ImageFiles(folder, listing)| == |ImageNames(listing)|
  {
    if listing != [] {
      ImageFilesMembers(folder, listing[1..]);
      assert listing == [listing[0]] + listing[1..];
    }
  }

  /** Every selected path is the folder joined to a listed `.jpg` or `.png` name, every such
      name gives a selected path, and sorting neither adds nor drops a path. */
  lemma SelectsImageNames(folder: string, listing: seq<string>)
    ensures forall p :: p in SortedImageFiles(folder, listing) <==>
              exists f :: f in listing && IsImageName(f) && Join(folder, f) == p
    ensures multiset(SortedImageFiles(folder, listing)) == multiset(ImageFiles(folder, listing))
    ensures |SortedImageFiles(folder, listing)| == |ImageNames(listing)|
  {
    ImageFilesMembers(folder, listing);
    SortStringsSorted(ImageFiles(folder, listing));
    var files := SortedImageFiles(folder, listing);
    forall p ensures p in files <==> p in ImageFiles(folder, listing) {
      assert p in files <==> p in multiset(files);
    }
    assert |files| == |multiset(files)| == |multiset(ImageFiles(folder, listing))|;
  }

  /** The selected paths are in Python's string order. */
  lemma SelectionSorted(folder: string, listing: seq<string>)
    ensures Sorted(SortedImageFiles(folder, listing))
  {
    SortStringsSorted(ImageFiles(folder, listing));
  }

  /** Any arrangement of the image paths that is in order is the selection. */
  lemma SelectionUnique(folder: string, listing: seq<string>, files: seq<string>)
    requires Sorted(files) && multiset(files) == multiset(ImageFiles(folder, listing))
    ensures files == SortedImageFiles(folder, listing)
  {
    SortStringsSorted(ImageFiles(folder, listing));
    SortedUnique(files, SortedImageFiles(folder, listing));
  }

  predicate Relative(name: string)
  {
    |name| == 0 || name[0] != '/'
  }

  lemma {:induction false} ImageFilesJoinNames(folder: string, listing: seq<string>)
    ensures ImageFiles(folder, listing) == JoinAll(folder, ImageNames(listing))
  {
    if listing != [] {
      ImageFilesJoinNames(folder, listing[1..]);
    }
  }

  lemma {:induction false} ImageNamesIn(listing: seq<string>)
    ensures forall f :: f in ImageNames(listing) ==> f in listing
  {
    if listing != [] {
      ImageNamesIn(listing[1..]);
    }
  }

  lemma {:induction false} InsertJoined(folder: string, x: string, s: seq<string>)
    requires Relative(x) && forall f :: f in s ==> Relative(f)
    ensures JoinAll(folder, Insert(x, s)) == Insert(Join(folder, x), JoinAll(folder, s))
  {
    if s != [] {
      assert s[0] in s;
      LexLePrefix(Prefix(folder), x, s[0]);
      assert Join(folder, x) == Prefix(folder) + x;
      assert Join(folder, s[0]) == Prefix(folder) + s[0];
      if !LexLe(x, s[0]) {
        InsertJoined(folder, x, s[1..]);
      }
    }
  }

  lemma {:induction false} SortJoined(folder: string, s: seq<string>)
    requires forall f :: f in s ==> Relative(f)
    ensures JoinAll(folder, SortStrings(s)) == SortStrings(JoinAll(folder, s))
  {
    if s != [] {
      SortJoined(folder, s[1..]);
      SortStringsSorted(s[1..]);
      forall f | f in SortStrings(s[1..]) ensures Relative(f) {
        assert f in multiset(SortStrings(s[1..]));
      }
      InsertJoined(folder, s[0], SortStrings(s[1..]));
    }
  }

  /** Since every path has the same directory part, sorting the paths orders them as their
      names: the selection is the sorted image names, each joined to the folder. Directory
      listings hold names, never absolute paths. */
  lemma SelectionByName(folder: string, listing: seq<string>)
    requires forall f :: f in listing ==> Relative(f)
    ensures SortedImageFiles(folder, listing) == JoinAll(folder, SortStrings(ImageNames(listing)))
  {
    ImageNamesIn(listing);
    ImageFilesJoinNames(folder, listing);
    SortJoined(folder, ImageNames(listing));
  }

  // ---------------------------------------------------------------------------------------
  // The returned window
  // ---------------------------------------------------------------------------------------

  lemma {:induction false} ImageNamesEmpty(listing: seq<string>)
    ensures ImageNames(listing) == [] <==> forall f :: f in listing ==> !IsImageName(f)
  {
    if listing != [] {
      ImageNamesEmpty(listing[1..]);
      assert listing == [listing[0]] + listing[1..];
    }
  }

  /** The function raises exactly when no listed name is a `.jpg` or `.png`, with the
      message "No images found in the given folder". */
  lemma RaisesIffNoImage(folder: string, listing: seq<string>, start: int, end: int)
    ensures LoadImagesFromFolder(folder, listing, start, end).Err? <==>
            forall f :: f in listing ==> !IsImageName(f)
    ensures LoadImagesFromFolder(folder, listing, start, end).Err? ==>
            LoadImagesFromFolder(folder, listing, start, end).error == "No images found in the given folder"
  {
    SelectsImageNames(folder, listing);
    ImageNamesEmpty(listing);
  }

  /** With fewer files than `end`, the returned end is the file count and the last image is
      flagged; otherwise, a count equal to `end` included, the end comes back unchanged and
      the flag is clear. */
  lemma ClampsEnd(folder: string, listing: seq<string>, start: int, end: int)
    requires LoadImagesFromFolder(folder, listing, start, end).Ok?
    ensures var n := |SortedImageFiles(folder, listing)|;
            var b := LoadImagesFromFolder(folder, listing, start, end).value;
            (n < end ==> b.end == n && b.lastImg) &&
            (end <= n ==> b.end == end && !b.lastImg) &&
            b.end <= n
  {
  }

  /** The images are the files from `start` up to the returned end, with Python's slice
      semantics; when `0 <= start <= end'` there are `end' - start` of them, the `k`-th being
      file `start + k`. */
  lemma ReturnsWindow(folder: string, listing: seq<string>, start: int, end: int)
    requires LoadImagesFromFolder(folder, listing, start, end).Ok?
    ensures var files := SortedImageFiles(folder, listing);
            var b := LoadImagesFromFolder(folder, listing, start, end).value;
            b.images == PySlice(files, start, b.end) &&
            (0 <= start <= b.end ==>
               |b.images| == b.end - start &&
               forall k :: 0 <= k < |b.images| ==> b.images[k] == files[start + k])
  {
    var files := SortedImageFiles(folder, listing);
    var b := LoadImagesFromFolder(folder, listing, start, end).value;
    ClampsEnd(folder, listing, start, end);
    if 0 <= start <= b.end {
      WindowSlice(files, start, b.end);
    }
  }

  /** A slice within bounds is the contiguous run `s[start..end]`. */
  lemma WindowSlice(s: seq<string>, start: int, end: int)
    requires 0 <= start <= end <= |s|
    ensures PySlice(s, start, end) == s[start..end]
  {
  }

  /** A negative bound counts from the end: `s[-k:]` is the last `k` elements. */
  lemma NegativeStart(s: seq<string>, k: nat)
    requires 0 < k <= |s|
    ensures PySlice(s, -(k as int), |s|) == s[|s| - k..]
  {
  }
}
