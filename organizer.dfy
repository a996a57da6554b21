/**
 * The classification-and-undo engine of `MediaOrganizerApp`: its four
 * pieces of state, the rescan, the copy triggered by a digit key, the undo,
 * and the allocation of a new category folder. The two directories the app
 * reads are passed in as values: `source` is `os.listdir(media_folder)`
 * and `root` is `Sorted_Media`; operations that change `Sorted_Media`
 * return its new state.
 */
module Organizer {
  import opened Wrappers
  import opened Text
  import opened SortedTree
  import opened Media
  import opened Categories
  import opened UndoLedger

  /** Python's `xs[i]` on a list of `length` elements: negative indices count from the end; `None` is `IndexError`. */
  function PyIndex(length: nat, i: int): (r: Option<nat>)
    ensures r.Some? <==> -(length as int) <= i < length
    ensures r.Some? ==> r.value < length && r.value == i % length
  {
    if 0 <= i < length then Some(i) else if -(length as int) <= i < 0 then Some(length + i) else None
  }

  /** `event.char.isdigit() and event.char in '1234567890'`, then `int(event.char)`. */
  function KeyCategory(ch: string): Option<nat> {
    if IsDigitString(ch) && IsSubstring(ch, "1234567890") then Some(DecimalValue(ch)) else None
  }

  /** A one-character key selects a category exactly when it is a digit, and `0` selects category 0. */
  lemma DigitKeys(c: char)
    ensures KeyCategory([c]).Some? <==> IsDigit(c)
    ensures IsDigit(c) ==> KeyCategory([c]) == Some(c as int - '0' as int)
  {
    if IsDigit(c) {
      var i := if c == '0' then 9 else c as int - '1' as int;
      assert "1234567890"[i..i + 1] == [c];
      assert DecimalValue([c]) == c as int - '0' as int by {
        assert [c][..0] == [];
      }
    }
  }

  /** `os.path.isfile(src)` for a file of the chosen folder, read off its listing. */
  predicate SourceIsFile(source: seq<Child>, name: string) {
    exists c :: c in source && c.name == name && c.isFile
  }

  /** The first loop of `update_lists`: every directory listed in `Sorted_Media` joins `known`. */
  method CollectCategoryFolders(known: set<string>, root: SortedRoot) returns (categories: set<string>)
    requires SortedTree.Valid(root)
    ensures categories == known + root.dirs.Keys
  {
    categories := known;
    for i := 0 to |root.listing|
      invariant categories == known + set j | 0 <= j < i && root.listing[j] in root.dirs :: root.listing[j]
    {
      var folder := root.listing[i];
      if folder in root.dirs {
        categories := categories + {folder};
      }
    }
    assert categories == known + DirectoryNames(root);
  }

  /** The second loop of `update_lists`: append the media files of the listing that are not skipped. */
  method ScanMediaFolder(files: seq<MediaEntry>, source: seq<Child>, categories: set<string>, folder: string)
    returns (appended: seq<MediaEntry>)
    ensures appended == files + Scan(source, categories, folder)
  {
    appended := files;
    for i := 0 to |source|
      invariant appended == files + Scan(source[..i], categories, folder)
    {
      assert source[..i + 1][..i] == source[..i];
      var file := source[i];
      assert Scan(source[..i + 1], categories, folder) == Scan(source[..i], categories, folder) + ScanChild(file, categories, folder);
      if file.isFile {
        if SkippedAsCategory(file.name, categories) {
          continue;
        }
        var kind := MediaKind(file.name);
        if kind.Some? {
          appended := appended + [MediaEntry(kind.value, FilePath(folder, file.name))];
        }
      }
    }
    assert source[..|source|] == source;
  }

  /** What a digit key led to. */
  datatype CopyOutcome =
    | NoMedia                          // `media_files` is empty: return
    | IndexError                       // `media_files[current_file_index]` raised
    | CategoryMissing(folder: string)  // the resolved folder does not exist: return
    | CopyFailed(dest: FilePath)       // `shutil.copy` raised: destination not a directory or source not a file
    | Copied(action: Action)           // copied and recorded

  /** What `undo_copy` led to. */
  datatype UndoOutcome =
    | NothingToUndo                    // empty stack: return
    | RemoveFailed(action: Action)     // the entry was popped, then `os.remove(dest)` raised
    | Undone(action: Action)

  class MediaOrganizerApp {
    var mediaFiles: seq<MediaEntry>
    var undoStack: seq<Action>
    var currentFileIndex: int
    var categorizedFolders: set<string>
    var mediaFolder: Option<string>
    const maxUndoStack: nat := 20

    ghost predicate Valid()
      reads this
    {
      |undoStack| <= maxUndoStack && (mediaFiles != [] ==> mediaFolder.Some?)
    }

    constructor ()
      ensures Valid()
      ensures mediaFiles == [] && undoStack == [] && currentFileIndex == 0
      ensures categorizedFolders == {} && mediaFolder == None
    {
      mediaFiles := [];
      undoStack := [];
      currentFileIndex := 0;
      categorizedFolders := {};
      mediaFolder := None;
    }

    /** `media_files[current_file_index]`, or `None` where that raises. */
    function CurrentEntry(): (r: Option<MediaEntry>)
      reads this
      ensures r.Some? <==> -|mediaFiles| <= currentFileIndex < |mediaFiles|
      ensures 0 <= currentFileIndex < |mediaFiles| ==> r == Some(mediaFiles[currentFileIndex])
      ensures -|mediaFiles| <= currentFileIndex < 0 ==> r == Some(mediaFiles[|mediaFiles| + currentFileIndex])
    {
      match PyIndex(|mediaFiles|, currentFileIndex)
      case None => None
      case Some(i) => Some(mediaFiles[i])
    }

    /**
     * `update_lists`: every directory of `Sorted_Media` joins
     * `categorizedFolders`; the media files of the listing that are not
     * skipped are appended (the old list is kept); then entries whose
     * basename a category folder holds are dropped.
     */
    method UpdateLists(source: seq<Child>, root: SortedRoot)
      requires Valid() && mediaFolder.Some? && SortedTree.Valid(root) && root.present
      modifies this
      ensures Valid() && mediaFolder == old(mediaFolder)
      ensures undoStack == old(undoStack) && currentFileIndex == old(currentFileIndex)
      ensures categorizedFolders == old(categorizedFolders) + root.dirs.Keys
      ensures mediaFiles == Filtered(old(mediaFiles) + Scan(source, categorizedFolders, mediaFolder.value), categorizedFolders, root)
    {
      categorizedFolders := CollectCategoryFolders(categorizedFolders, root);
      mediaFiles := ScanMediaFolder(mediaFiles, source, categorizedFolders, mediaFolder.value);
      FilterMediaFilesInCategories(root);
    }

    /** `filter_media_files_in_categories`: drop every entry whose basename a categorized folder holds. */
    method FilterMediaFilesInCategories(root: SortedRoot)
      requires Valid()
      modifies this
      ensures Valid()
      ensures mediaFiles == Filtered(old(mediaFiles), categorizedFolders, root)
      ensures undoStack == old(undoStack) && currentFileIndex == old(currentFileIndex)
      ensures categorizedFolders == old(categorizedFolders) && mediaFolder == old(mediaFolder)
    {
      mediaFiles := Filtered(mediaFiles, categorizedFolders, root);
    }

    /** `load_media_files` for the folder the dialog returned: both collections start over, then a scan. */
    method LoadMediaFiles(folder: string, source: seq<Child>, root: SortedRoot)
      requires Valid() && SortedTree.Valid(root) && root.present
      modifies this
      ensures Valid() && mediaFolder == Some(folder)
      ensures categorizedFolders == root.dirs.Keys
      ensures mediaFiles == Filtered(Scan(source, categorizedFolders, folder), categorizedFolders, root)
      ensures undoStack == old(undoStack) && currentFileIndex == old(currentFileIndex)
    {
      mediaFolder := Some(folder);
      mediaFiles := [];
      categorizedFolders := {};
      UpdateLists(source, root);
      assert [] + Scan(source, categorizedFolders, folder) == Scan(source, categorizedFolders, folder);
    }

    /**
     * What `copy_file_to_category(n)` does, from the state before the call
     * to the state after it, given the file listing `source`, `Sorted_Media`
     * before (`root`) and after (`root'`), and what the call led to.
     */
    twostate predicate CopyEffect(n: nat, source: seq<Child>, root: SortedRoot, outcome: CopyOutcome, root': SortedRoot)
      requires old(Valid()) && SortedTree.Valid(root)
      reads this
    {
      && mediaFolder == old(mediaFolder)
      && (outcome == NoMedia <==> old(mediaFiles) == [])
      && (outcome == IndexError <==> old(mediaFiles) != [] && old(CurrentEntry()) == None)
      && (old(CurrentEntry()).Some? ==>
            var e := old(CurrentEntry()).value;
            var present := EnsurePresent(root);
            var folder := ResolveCategory(present.listing, n);
            var dest := FilePath(folder, e.path.name);
            && (!Exists(present, folder) ==> outcome == CategoryMissing(folder))
            && (Exists(present, folder) && !(folder in present.dirs && SourceIsFile(source, e.path.name)) ==>
                  outcome == CopyFailed(dest))
            && (folder in present.dirs && SourceIsFile(source, e.path.name) ==> outcome == Copied(Copy(e.path, dest))))
      // nothing changes when there is nothing to copy; once there is a current file, `Sorted_Media` is created
      && (outcome.NoMedia? || outcome.IndexError? ==> root' == root && unchanged(this))
      && (outcome.CategoryMissing? || outcome.CopyFailed? ==> root' == EnsurePresent(root) && unchanged(this))
      // a copy overwrites any file of the same name and is pushed onto the bounded stack
      && (outcome.Copied? ==>
            && root' == AddFile(EnsurePresent(root), outcome.action.dest)
            && undoStack == Push(old(undoStack), outcome.action, maxUndoStack))
      && (outcome.Copied? && old(currentFileIndex) + 1 < |old(mediaFiles)| ==>
            && currentFileIndex == old(currentFileIndex) + 1
            && mediaFiles == old(mediaFiles) && categorizedFolders == old(categorizedFolders))
      && (outcome.Copied? && old(currentFileIndex) + 1 >= |old(mediaFiles)| ==>
            && currentFileIndex == 0
            && categorizedFolders == old(categorizedFolders) + root'.dirs.Keys
            && mediaFiles == Filtered(old(mediaFiles) + Scan(source, categorizedFolders, old(mediaFolder).value),
                                      categorizedFolders, root'))
      && (0 <= old(currentFileIndex) < |old(mediaFiles)| ==> 0 <= currentFileIndex < |mediaFiles| || currentFileIndex == 0)
    }

    /**
     * `copy_file_to_category(n)`: route the current file to the folder
     * that `n` resolves to, record the copy, and move to the next file,
     * rescanning once the end of the list is reached.
     */
    method CopyFileToCategory(n: nat, source: seq<Child>, root: SortedRoot) returns (outcome: CopyOutcome, root': SortedRoot)
      requires Valid() && SortedTree.Valid(root)
      modifies this
      ensures Valid() && SortedTree.Valid(root')
      ensures CopyEffect(n, source, root, outcome, root')
    {
      if mediaFiles == [] {
        return NoMedia, root;
      }
      var index := PyIndex(|mediaFiles|, currentFileIndex);
      if index.None? {
        return IndexError, root;
      }
      var entry := mediaFiles[index.value];
      root' := EnsurePresent(root);

      var folder := ResolveCategory(root'.listing, n);
      if !Exists(root', folder) {
        return CategoryMissing(folder), root';
      }

      var dest := FilePath(folder, entry.path.name);
      if FileExists(root', dest) {
        // the "rename" builds the very same path again
        dest := FilePath(folder, entry.path.name);
      }
      if !(folder in root'.dirs && SourceIsFile(source, entry.path.name)) {
        return CopyFailed(dest), root';
      }
      root' := AddFile(root', dest);

      var action := Copy(entry.path, dest);
      PushUndo(action);
      AdvanceCursor(source, root');
      outcome := Copied(action);
    }

    /** Record a copy: append it, then drop the oldest record once the stack exceeds `maxUndoStack`. */
    method PushUndo(action: Action)
      requires Valid()
      modifies this
      ensures Valid()
      ensures undoStack == Push(old(undoStack), action, maxUndoStack)
      ensures mediaFiles == old(mediaFiles) && currentFileIndex == old(currentFileIndex)
      ensures categorizedFolders == old(categorizedFolders) && mediaFolder == old(mediaFolder)
    {
      undoStack := undoStack + [action];
      if |undoStack| > maxUndoStack {
        undoStack := undoStack[1..];
      }
    }

    /** Go to the next file; past the end, rescan and start again at 0. */
    method AdvanceCursor(source: seq<Child>, root: SortedRoot)
      requires Valid() && mediaFiles != [] && SortedTree.Valid(root) && root.present
      modifies this
      ensures Valid() && undoStack == old(undoStack) && mediaFolder == old(mediaFolder)
      ensures old(currentFileIndex) + 1 < |old(mediaFiles)| ==>
        && currentFileIndex == old(currentFileIndex) + 1
        && mediaFiles == old(mediaFiles) && categorizedFolders == old(categorizedFolders)
      ensures old(currentFileIndex) + 1 >= |old(mediaFiles)| ==>
        && currentFileIndex == 0
        && categorizedFolders == old(categorizedFolders) + root.dirs.Keys
        && mediaFiles == Filtered(old(mediaFiles) + Scan(source, categorizedFolders, old(mediaFolder).value), categorizedFolders, root)
      ensures 0 <= old(currentFileIndex) < |old(mediaFiles)| ==> 0 <= currentFileIndex < |mediaFiles| || currentFileIndex == 0
    {
      currentFileIndex := currentFileIndex + 1;
      if currentFileIndex >= |mediaFiles| {
        UpdateLists(source, root);
        currentFileIndex := 0;
      }
    }

    /** The digit branch of `on_key_press`. */
    method OnKeyPress(ch: string, source: seq<Child>, root: SortedRoot) returns (outcome: Option<CopyOutcome>, root': SortedRoot)
      requires Valid() && SortedTree.Valid(root)
      modifies this
      ensures Valid() && SortedTree.Valid(root')
      ensures outcome.Some? <==> KeyCategory(ch).Some?
      ensures outcome.Some? ==> CopyEffect(KeyCategory(ch).value, source, root, outcome.value, root')
      ensures outcome.None? ==> root' == root && unchanged(this)
    {
      var category := KeyCategory(ch);
      if category.Some? {
        var copied;
        copied, root' := CopyFileToCategory(category.value, source, root);
        outcome := Some(copied);
      } else {
        outcome, root' := None, root;
      }
    }

    /**
     * `undo_copy`: pop the most recent record, delete its destination and
     * step the index back by one, with no lower bound.
     */
    method UndoCopy(root: SortedRoot) returns (outcome: UndoOutcome, root': SortedRoot)
      requires Valid() && SortedTree.Valid(root)
      modifies this
      ensures Valid() && SortedTree.Valid(root')
      ensures mediaFiles == old(mediaFiles) && categorizedFolders == old(categorizedFolders) && mediaFolder == old(mediaFolder)
      ensures old(undoStack) == [] ==>
        outcome == NothingToUndo && root' == root && undoStack == [] && currentFileIndex == old(currentFileIndex)
      ensures old(undoStack) != [] ==>
        var a := old(undoStack)[|old(undoStack)| - 1];
        && undoStack == old(undoStack)[..|old(undoStack)| - 1]
        && (FileExists(root, a.dest) ==>
              outcome == Undone(a) && root' == RemoveFile(root, a.dest) && currentFileIndex == old(currentFileIndex) - 1)
        && (!FileExists(root, a.dest) ==>
              outcome == RemoveFailed(a) && root' == root && currentFileIndex == old(currentFileIndex))
    {
      if undoStack == [] {
        return NothingToUndo, root;
      }
      var action := undoStack[|undoStack| - 1];
      undoStack := undoStack[..|undoStack| - 1];
      if !FileExists(root, action.dest) {
        return RemoveFailed(action), root;
      }
      root' := RemoveFile(root, action.dest);
      currentFileIndex := currentFileIndex - 1;
      outcome := Undone(action);
    }

    /**
     * `create_category_folder` with the dialog's answer as `description`
     * (`None` when cancelled): allocate the smallest free number and, for
     * a non-empty description, create `Category_<n>_<description>`.
     */
    method CreateCategoryFolder(root: SortedRoot, description: Option<string>) returns (next: nat, root': SortedRoot)
      requires SortedTree.Valid(root)
      ensures SortedTree.Valid(root')
      ensures IsSmallestFree(next, CategoryNumbers(EnsurePresent(root).listing))
      ensures description.None? || description == Some("") ==> root' == EnsurePresent(root)
      ensures description.Some? && description.value != "" ==>
        && !Exists(EnsurePresent(root), DescribedName(next, description.value))
        && root' == MakeFolder(EnsurePresent(root), DescribedName(next, description.value))
        && ResolveCategory(root'.listing, next) == DescribedName(next, description.value)
        && DescribedName(next, description.value) in root'.dirs
    {
      var present := EnsurePresent(root);
      next := NextCategoryNumber(present.listing);
      root' := present;
      if description.Some? && description.value != "" {
        var name := DescribedName(next, description.value);
        NewCategoryIsRoutable(present.listing, next, description.value);
        if !Exists(present, name) {
          root' := MakeFolder(present, name);
        }
      }
    }
  }

  /**
   * Undoing a copy straight after it removes exactly that copy: the tree is
   * back as it was when the copy created a new file, and the stack is back
   * as it was when it was below its cap.
   */
  method CopyThenUndo(app: MediaOrganizerApp, n: nat, source: seq<Child>, root: SortedRoot)
    returns (copied: CopyOutcome, undone: UndoOutcome, root': SortedRoot)
    requires app.Valid() && SortedTree.Valid(root)
    modifies app
    ensures copied.Copied? ==> undone == Undone(copied.action)
    ensures copied.Copied? && !FileExists(EnsurePresent(root), copied.action.dest) ==> root' == EnsurePresent(root)
    ensures copied.Copied? && |old(app.undoStack)| < app.maxUndoStack ==> app.undoStack == old(app.undoStack)
  {
    ghost var stack0 := app.undoStack;
    var afterCopy;
    copied, afterCopy := app.CopyFileToCategory(n, source, root);
    if !copied.Copied? {
      undone, root' := app.UndoCopy(afterCopy);
      return;
    }
    var a := copied.action;
    var present := EnsurePresent(root);
    assert afterCopy == AddFile(present, a.dest);
    assert app.undoStack == Push(stack0, a, app.maxUndoStack);
    PopAfterPush(stack0, a, app.maxUndoStack);
    undone, root' := app.UndoCopy(afterCopy);
    assert undone == Undone(a) && root' == RemoveFile(afterCopy, a.dest);
    if !FileExists(present, a.dest) {
      RemoveUndoesAdd(present, a.dest);
    }
  }
}
