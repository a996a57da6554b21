/**
 * The scanner: which entries of the chosen folder become media files
 * (`update_lists`, second loop) and which of them are dropped because a
 * category folder already holds a file of the same name
 * (`filter_media_files_in_categories`).
 */
module Media {
  import opened Wrappers
  import opened Text
  import opened SortedTree

  datatype Kind = Image | Video | Audio

  /** One `(file_type, file_path)` pair of `media_files`. */
  datatype MediaEntry = MediaEntry(kind: Kind, path: FilePath)

  /** One entry of `os.listdir(media_folder)`; `isFile` is `os.path.isfile`. */
  datatype Child = Child(name: string, isFile: bool)

  const ImageSuffixes: seq<string> := ["png", "jpg", "jpeg", "gif"]
  const VideoSuffixes: seq<string> := ["mp4", "avi", "mov"]
  const AudioSuffixes: seq<string> := ["mp3", "wav", "flac"]

  predicate EndsWithAny(s: string, suffixes: seq<string>) {
    exists i :: 0 <= i < |suffixes| && EndsWith(s, suffixes[i])
  }

  /** The three `str.endswith` tests on the lower-cased name, in order; no dot is required. */
  function MediaKind(name: string): Option<Kind> {
    var low := Lower(name);
    if EndsWithAny(low, ImageSuffixes) then Some(Image)
    else if EndsWithAny(low, VideoSuffixes) then Some(Video)
    else if EndsWithAny(low, AudioSuffixes) then Some(Audio)
    else None
  }

  /** The kind an extension of the three tables stands for. */
  function SuffixKind(ext: string): Kind
    requires ext in ImageSuffixes + VideoSuffixes + AudioSuffixes
  {
    if ext in ImageSuffixes then Image else if ext in VideoSuffixes then Video else Audio
  }

  /**
   * Every name that ends, in any letter case, with one of the ten extensions
   * is tagged with that extension's kind, whatever comes before it: the
   * three tables never claim the same name twice.
   */
  lemma KindBySuffix(stem: string, ext: string)
    requires Lower(ext) in ImageSuffixes + VideoSuffixes + AudioSuffixes
    ensures MediaKind(stem + ext) == Some(SuffixKind(Lower(ext)))
  {
    var e := Lower(ext);
    LowerAppend(stem, ext);
    assert EndsWith(e, e);
    EndsWithAppend(Lower(stem), e, e);
    var low := Lower(stem + ext);
    EndsWithOneOf(low, e, ImageSuffixes);
    EndsWithOneOf(low, e, VideoSuffixes);
    EndsWithOneOf(low, e, AudioSuffixes);
  }

  /** A name that ends with one of the ten extensions ends with an extension of a table exactly when that table lists it. */
  lemma EndsWithOneOf(low: string, e: string, table: seq<string>)
    requires e in ImageSuffixes + VideoSuffixes + AudioSuffixes && EndsWith(low, e)
    requires table == ImageSuffixes || table == VideoSuffixes || table == AudioSuffixes
    ensures EndsWithAny(low, table) <==> e in table
  {
    if EndsWithAny(low, table) {
      var i :| 0 <= i < |table| && EndsWith(low, table[i]);
      assert table[i] in ImageSuffixes + VideoSuffixes + AudioSuffixes;
      SuffixesEndDistinctly(e, table[i]);
      EndsWithLastTwo(low, e);
      EndsWithLastTwo(low, table[i]);
    }
    if e in table {
      assert EndsWith(low, table[IndexOf(table, e)]);
    }
  }

  /** No two of the ten extensions end in the same two characters. */
  lemma SuffixesEndDistinctly(e: string, f: string)
    requires e in ImageSuffixes + VideoSuffixes + AudioSuffixes
    requires f in ImageSuffixes + VideoSuffixes + AudioSuffixes
    ensures |e| >= 3 && |f| >= 3
    ensures e[|e| - 1] == f[|f| - 1] && e[|e| - 2] == f[|f| - 2] ==> e == f
  {
  }

  function IndexOf(s: seq<string>, x: string): (i: nat)
    requires x in s
    ensures i < |s| && s[i] == x
  {
    if s[0] == x then 0 else 1 + IndexOf(s[1..], x)
  }

  lemma EndsWithAnyConcat(s: string, a: seq<string>, b: seq<string>)
    ensures EndsWithAny(s, a + b) <==> EndsWithAny(s, a) || EndsWithAny(s, b)
  {
    if EndsWithAny(s, a + b) {
      var i :| 0 <= i < |a + b| && EndsWith(s, (a + b)[i]);
      if i < |a| {
        assert EndsWith(s, a[i]);
      } else {
        assert EndsWith(s, b[i - |a|]);
      }
    }
    if EndsWithAny(s, a) {
      var i :| 0 <= i < |a| && EndsWith(s, a[i]);
      assert (a + b)[i] == a[i];
    }
    if EndsWithAny(s, b) {
      var i :| 0 <= i < |b| && EndsWith(s, b[i]);
      assert (a + b)[|a| + i] == b[i];
    }
  }

  /** The lower-cased name of a tagged file ends with an extension of its kind, and an untagged one with none of the ten. */
  lemma TaggedOnlyBySuffix(name: string)
    ensures MediaKind(name) == Some(Image) ==> EndsWithAny(Lower(name), ImageSuffixes)
    ensures MediaKind(name) == Some(Video) ==> EndsWithAny(Lower(name), VideoSuffixes) && !EndsWithAny(Lower(name), ImageSuffixes)
    ensures MediaKind(name) == Some(Audio) ==>
      EndsWithAny(Lower(name), AudioSuffixes) && !EndsWithAny(Lower(name), ImageSuffixes) && !EndsWithAny(Lower(name), VideoSuffixes)
    ensures MediaKind(name) == None <==> !EndsWithAny(Lower(name), ImageSuffixes + VideoSuffixes + AudioSuffixes)
  {
    var low := Lower(name);
    EndsWithAnyConcat(low, ImageSuffixes, VideoSuffixes);
    EndsWithAnyConcat(low, ImageSuffixes + VideoSuffixes, AudioSuffixes);
  }

  // ---------------------------------------------------------------------------
  // Second loop of `update_lists`

  /** `any(file_path.startswith(os.path.join(media_folder, c)) for c in categorized_folders)`:
      both paths share the folder prefix, so this is a test on the name. */
  predicate SkippedAsCategory(name: string, categories: set<string>) {
    exists c :: c in categories && StartsWith(name, c)
  }

  predicate Eligible(c: Child, categories: set<string>) {
    c.isFile && !SkippedAsCategory(c.name, categories) && MediaKind(c.name).Some?
  }

  /** What one listing entry appends to `media_files`. */
  function ScanChild(c: Child, categories: set<string>, folder: string): (r: seq<MediaEntry>)
    ensures |r| <= 1
    ensures r != [] <==> Eligible(c, categories)
  {
    if !c.isFile || SkippedAsCategory(c.name, categories) then []
    else match MediaKind(c.name)
      case None => []
      case Some(k) => [MediaEntry(k, FilePath(folder, c.name))]
  }

  /** What the loop over `os.listdir(media_folder)` appends, in listing order. */
  function Scan(children: seq<Child>, categories: set<string>, folder: string): seq<MediaEntry>
  {
    if children == [] then []
    else Scan(children[..|children| - 1], categories, folder) + ScanChild(children[|children| - 1], categories, folder)
  }

  /** Scanning a listing piecewise gives the pieces' results in order. */
  lemma {:induction false} ScanAppend(a: seq<Child>, b: seq<Child>, categories: set<string>, folder: string)
    ensures Scan(a + b, categories, folder) == Scan(a, categories, folder) + Scan(b, categories, folder)
    decreases |b|
  {
    if b != [] {
      var b' := b[..|b| - 1];
      assert (a + b)[..|a + b| - 1] == a + b';
      assert (a + b)[|a + b| - 1] == b[|b| - 1];
      ScanAppend(a, b', categories, folder);
    } else {
      assert a + b == a;
    }
  }

  /** Every scanned entry comes from an eligible file of the listing, tagged by its name. */
  lemma {:induction false} ScanSound(children: seq<Child>, categories: set<string>, folder: string, e: MediaEntry)
    requires e in Scan(children, categories, folder)
    ensures exists i :: 0 <= i < |children| && Eligible(children[i], categories) &&
                        e == MediaEntry(MediaKind(children[i].name).value, FilePath(folder, children[i].name))
    decreases |children|
  {
    var last := |children| - 1;
    var init := children[..last];
    assert Scan(children, categories, folder) == Scan(init, categories, folder) + ScanChild(children[last], categories, folder);
    if e in Scan(init, categories, folder) {
      ScanSound(init, categories, folder, e);
      var i :| 0 <= i < |init| && Eligible(init[i], categories) &&
        e == MediaEntry(MediaKind(init[i].name).value, FilePath(folder, init[i].name));
      assert init[i] == children[i];
    } else {
      assert Eligible(children[last], categories);
    }
  }

  /** Every eligible file of the listing is scanned, tagged by its name. */
  lemma {:induction false} ScanComplete(children: seq<Child>, categories: set<string>, folder: string, i: nat)
    requires i < |children| && Eligible(children[i], categories)
    ensures MediaEntry(MediaKind(children[i].name).value, FilePath(folder, children[i].name)) in Scan(children, categories, folder)
    decreases |children|
  {
    var last := |children| - 1;
    var init := children[..last];
    assert Scan(children, categories, folder) == Scan(init, categories, folder) + ScanChild(children[last], categories, folder);
    if i < last {
      assert init[i] == children[i];
      ScanComplete(init, categories, folder, i);
    }
  }

  /** An entry is scanned exactly when it comes from an eligible file of the listing, tagged by its name. */
  lemma ScanMembers(children: seq<Child>, categories: set<string>, folder: string, e: MediaEntry)
    ensures e in Scan(children, categories, folder) <==>
      exists i :: 0 <= i < |children| && Eligible(children[i], categories) &&
        e == MediaEntry(MediaKind(children[i].name).value, FilePath(folder, children[i].name))
  {
    if e in Scan(children, categories, folder) {
      ScanSound(children, categories, folder, e);
    }
    if (exists i :: 0 <= i < |children| && Eligible(children[i], categories) &&
          e == MediaEntry(MediaKind(children[i].name).value, FilePath(folder, children[i].name))) {
      var i :| 0 <= i < |children| && Eligible(children[i], categories) &&
        e == MediaEntry(MediaKind(children[i].name).value, FilePath(folder, children[i].name));
      ScanComplete(children, categories, folder, i);
    }
  }

  // ---------------------------------------------------------------------------
  // `filter_media_files_in_categories`

  /** Some folder in `categories` already holds a file with the entry's basename. */
  predicate AlreadySorted(e: MediaEntry, categories: set<string>, root: SortedRoot) {
    exists c :: c in categories && FileExists(root, FilePath(c, e.path.name))
  }

  /** `r` is `s` with some elements left out and the rest in their order. */
  predicate IsSubsequence<T(==)>(r: seq<T>, s: seq<T>) {
    r == [] || (s != [] && ((r[0] == s[0] && IsSubsequence(r[1..], s[1..])) || IsSubsequence(r, s[1..])))
  }

  /** The list comprehension of `filter_media_files_in_categories`. */
  function Filtered(entries: seq<MediaEntry>, categories: set<string>, root: SortedRoot): (r: seq<MediaEntry>)
    ensures IsSubsequence(r, entries)
    ensures forall e :: e in r ==> e in entries && !AlreadySorted(e, categories, root)
    ensures forall e :: multiset(r)[e] == if AlreadySorted(e, categories, root) then 0 else multiset(entries)[e]
  {
    if entries == [] then []
    else
      var rest := Filtered(entries[1..], categories, root);
      assert entries == [entries[0]] + entries[1..];
      if AlreadySorted(entries[0], categories, root) then rest else [entries[0]] + rest
  }

  /** Filtering twice against the same tree drops nothing more. */
  lemma {:induction false} FilteredIdempotent(entries: seq<MediaEntry>, categories: set<string>, root: SortedRoot)
    ensures Filtered(Filtered(entries, categories, root), categories, root) == Filtered(entries, categories, root)
  {
    if entries != [] {
      FilteredIdempotent(entries[1..], categories, root);
      var rest := Filtered(entries[1..], categories, root);
      if !AlreadySorted(entries[0], categories, root) {
        assert ([entries[0]] + rest)[1..] == rest;
      }
    }
  }

  /**
   * When `categories` holds every directory of the tree (as it does after
   * `update_lists`), no remaining entry's basename exists in any category
   * folder, and every entry that was dropped had one there.
   */
  lemma FilteredAgainstTree(entries: seq<MediaEntry>, categories: set<string>, root: SortedRoot)
    requires root.dirs.Keys <= categories
    ensures forall e, d :: e in Filtered(entries, categories, root) && d in root.dirs ==> e.path.name !in root.dirs[d]
    ensures forall e :: e in entries && e !in Filtered(entries, categories, root) ==>
      exists d :: d in root.dirs && e.path.name in root.dirs[d]
  {
    var r := Filtered(entries, categories, root);
    forall e | e in entries && e !in r
      ensures exists d :: d in root.dirs && e.path.name in root.dirs[d]
    {
      assert multiset(r)[e] == 0;
      assert AlreadySorted(e, categories, root);
    }
    forall e, d | e in r && d in root.dirs
      ensures e.path.name !in root.dirs[d]
    {
      assert !AlreadySorted(e, categories, root);
      assert !FileExists(root, FilePath(d, e.path.name));
    }
  }
}
