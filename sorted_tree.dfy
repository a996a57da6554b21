/**
 * The `Sorted_Media` directory as a value. `listing` is what `os.listdir`
 * returns for it (every entry, in the platform's order), `dirs` maps each
 * entry that is a directory to the names of the files it holds. A missing
 * `Sorted_Media` is `present == false`.
 */
module SortedTree {

  /** A path as a directory part and a basename (`os.path.join(dir, name)`). */
  datatype FilePath = FilePath(dir: string, name: string)

  datatype SortedRoot = SortedRoot(present: bool, listing: seq<string>, dirs: map<string, set<string>>)

  predicate NoDuplicates(names: seq<string>) {
    forall i, j :: 0 <= i < j < |names| ==> names[i] != names[j]
  }

  /** What every real directory satisfies. */
  predicate Valid(root: SortedRoot) {
    && (!root.present ==> root.listing == [] && root.dirs == map[])
    && (forall d :: d in root.dirs ==> d in root.listing)
    && NoDuplicates(root.listing)
  }

  /** `os.path.exists(os.path.join(Sorted_Media, name))`. */
  predicate Exists(root: SortedRoot, name: string) {
    name in root.listing
  }

  /** `os.path.exists` of a file inside a category folder. */
  predicate FileExists(root: SortedRoot, p: FilePath) {
    p.dir in root.dirs && p.name in root.dirs[p.dir]
  }

  /** The names `os.path.isdir` accepts, collected from the listing. */
  function DirectoryNames(root: SortedRoot): (names: set<string>)
    requires Valid(root)
    ensures names == root.dirs.Keys
  {
    set f | f in root.listing && f in root.dirs
  }

  /** `if not os.path.exists(sorted_folder): os.makedirs(sorted_folder)`. */
  function EnsurePresent(root: SortedRoot): (r: SortedRoot)
    requires Valid(root)
    ensures Valid(r) && r.present
    ensures root.present ==> r == root
    ensures !root.present ==> r.listing == [] && r.dirs == map[]
  {
    if root.present then root else SortedRoot(true, [], map[])
  }

  /** `shutil.copy` into an existing category folder: the file is there afterwards, overwritten if it was. */
  function AddFile(root: SortedRoot, p: FilePath): (r: SortedRoot)
    requires Valid(root) && p.dir in root.dirs
    ensures Valid(r)
    ensures r.present == root.present && r.listing == root.listing && r.dirs.Keys == root.dirs.Keys
    ensures FileExists(r, p)
    ensures forall q :: q != p ==> (FileExists(r, q) <==> FileExists(root, q))
  {
    root.(dirs := root.dirs[p.dir := root.dirs[p.dir] + {p.name}])
  }

  /** `os.remove` of an existing file in a category folder. */
  function RemoveFile(root: SortedRoot, p: FilePath): (r: SortedRoot)
    requires Valid(root) && FileExists(root, p)
    ensures Valid(r)
    ensures r.present == root.present && r.listing == root.listing && r.dirs.Keys == root.dirs.Keys
    ensures !FileExists(r, p)
    ensures forall q :: q != p ==> (FileExists(r, q) <==> FileExists(root, q))
  {
    root.(dirs := root.dirs[p.dir := root.dirs[p.dir] - {p.name}])
  }

  /** `os.makedirs` of a new, empty folder directly under `Sorted_Media`, listed last. */
  function MakeFolder(root: SortedRoot, name: string): (r: SortedRoot)
    requires Valid(root) && root.present && !Exists(root, name)
    ensures Valid(r) && r.present
    ensures r.listing == root.listing + [name]
    ensures r.dirs == root.dirs[name := {}]
  {
    SortedRoot(true, root.listing + [name], root.dirs[name := {}])
  }

  /** Removing a file that a copy just created gives back the tree as it was before the copy. */
  lemma RemoveUndoesAdd(root: SortedRoot, p: FilePath)
    requires Valid(root) && p.dir in root.dirs && !FileExists(root, p)
    ensures FileExists(AddFile(root, p), p)
    ensures RemoveFile(AddFile(root, p), p) == root
  {
    var added := AddFile(root, p);
    assert added.dirs[p.dir] - {p.name} == root.dirs[p.dir];
    assert RemoveFile(added, p).dirs == root.dirs;
  }

  /**
   * A copy onto an existing name overwrites it, so the undo that deletes the
   * destination leaves neither the copy nor the file that was there before.
   */
  lemma UndoAfterOverwriteLosesFile(root: SortedRoot, p: FilePath)
    requires Valid(root) && FileExists(root, p)
    ensures AddFile(root, p) == root
    ensures !FileExists(RemoveFile(AddFile(root, p), p), p)
  {
    assert root.dirs[p.dir] + {p.name} == root.dirs[p.dir];
    assert AddFile(root, p).dirs == root.dirs;
  }
}
