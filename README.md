# Media Organizer: the classification-and-undo engine

Media Organizer is a small tkinter program (`main.py`). It shows the files of a chosen folder one at a
time. A digit key copies the current file into a category folder under `Sorted_Media`, and Ctrl-Z undoes
the last copies. This project models the engine behind that window, the part of `MediaOrganizerApp`
with real state:

- `media_files`: the working list of `(kind, path)` entries;
- `undo_stack`: the records of the copies, at most `max_undo_stack = 20` of them;
- `current_file_index`: the cursor into `media_files`;
- `categorized_folders`: the names of the directories seen in `Sorted_Media`.

It also models the operations that read and change this state: the rescan (`update_lists`,
`filter_media_files_in_categories`), the copy behind a digit key (`copy_file_to_category`), the undo
(`undo_copy`) and the numbering of new category folders (`create_category_folder`).

The two directories the program reads are passed in as values.
- `Media.Child` sequence: the listing of the chosen media folder. It gives each name and whether
  `os.path.isfile` holds, in `os.listdir` order. That order is platform-defined, and the model takes
  it as given.
- `SortedTree.SortedRoot`: the `Sorted_Media` directory. It records whether the directory exists, its
  listing in `os.listdir` order, and a map from each subdirectory to the names of the files inside it.
  The operations that copy, delete or create return the new value.

Path joining is `SortedTree.FilePath(dir, name)`. Its `name` is what `os.path.basename` returns.

Modules, leaves first:
- `Text`: `startswith`, `endswith`, `lower`, `str(n)`, `int(s)`, `s.split("_")[1]`.
- `SortedTree`: the `Sorted_Media` tree and the copy, remove and make-folder updates to it.
- `Media`: extension tagging, the scanner and the filter.
- `Categories`: routing a number to a folder, and allocating the next number.
- `UndoLedger`: the bounded undo stack.
- `Organizer`: the `MediaOrganizerApp` class and its methods.

Python behaviours the model keeps on purpose:
- Python's negative indexing is modelled (`Organizer.PyIndex`). After an undo the index can be -1,
  and `media_files[-1]` is then the last entry. An index outside `[-len, len)` raises `IndexError`,
  which the model returns as an outcome with nothing changed.
- Raised exceptions leave the state as it was at the point of the raise. Each one is a distinct
  outcome:
  - `shutil.copy` fails when the resolved name is a plain file, or when the source is no longer a file.
  - `os.remove` fails in undo after the record was already popped.
- An `int()` that raises `ValueError` while numbers are allocated skips that folder (`None` from
  `Text.ParseInt`).

Behaviours of the code worth knowing:
- A rescan appends to `media_files` instead of rebuilding it. Only `load_media_files` clears it.
  Entries found twice are then dropped only by the filter, when a category folder already holds them.
- The extension test needs no dot, so `xpng` is an image (`Media.KindBySuffix` with stem `x`).
- Of several `Category_<n>_...` folders, the first one in listing order wins, not the
  lexicographically first.
- On a name collision the copy overwrites, although the comment at `main.py:231` says it renames.
  The "rename" at `main.py:232-233` builds the same path again.
- Undo steps the index back with no clamp at 0.
- An empty or cancelled description creates no folder (`if description:` at `main.py:272`).
- A missing `Sorted_Media` makes `update_lists` fail, because `os.listdir` at `main.py:63` raises.
  The model puts it as a precondition of `UpdateLists` and `LoadMediaFiles`.
  `copy_file_to_category` and `create_category_folder` create it first.
- A key press calls `copy_file_to_category(int(event.char))`. Key `0` therefore means category 0,
  not category 10.

## Model

| member | source | states |
|---|---|---|
| `Media.KindBySuffix` | main.py:75-80 | Any name that ends, in any letter case, with one of the ten extensions is tagged with that extension's kind. Nothing needs to come before the extension, not even a dot. |
| `Media.TaggedOnlyBySuffix` | main.py:75-80 | A tagged name's lower-cased form ends with an extension of its kind, a video name has no image extension, and an audio name has neither an image nor a video extension. A name is left out exactly when it ends with none of the ten. |
| `Media.MediaKind` | main.py:75-80 | The tag of a file name. `KindBySuffix` and `TaggedOnlyBySuffix` state what it means: the kind of the extension the lower-cased name ends with, image before video before audio, and no tag when no extension matches. |
| `Media.SkippedAsCategory` | main.py:72 | A file is skipped when its name starts with a categorized folder's name. Both paths are joined to the same media folder, so the path test at `main.py:72` is this test on the name. `ScanMembers` and `ScanChild` state its effect: a skipped file adds no entry. |
| `Media.ScanChild` | main.py:69-80 | One listing entry adds at most one media entry. It adds one exactly when the entry is a regular file that is not skipped and has a media extension. |
| `Media.Scan` | main.py:68-80 | The entries the loop appends, in listing order. `ScanAppend`, `ScanSound`, `ScanComplete` and `ScanMembers` state what it holds. |
| `Media.ScanSound` | main.py:68-80 | Every scanned entry comes from an eligible regular file of the listing, with that file's tag and its path in the media folder. |
| `Media.ScanComplete` | main.py:68-80 | Every eligible regular file of the listing produces its entry in the scan. |
| `Media.ScanAppend` | main.py:68-80 | The listing is scanned in order: scanning two pieces gives the first piece's entries followed by the second's. |
| `Media.ScanMembers` | main.py:68-80 | An entry is appended exactly when it comes from a regular file of the listing whose name starts with no categorized-folder name and has a media extension. It is tagged by that name and its path is joined to the media folder. |
| `Media.AlreadySorted` | main.py:89-92 | The condition of the comprehension: some categorized folder holds a file with the entry's basename. `Filtered` and `FilteredAgainstTree` state its effect: exactly these entries are dropped. |
| `Media.Filtered` | main.py:87-93 | The filter keeps an order-preserving subsequence. No kept entry has its basename in a categorized folder. Every entry without such a match is kept as often as it occurred, and every dropped entry had one. |
| `Media.FilteredIdempotent` | main.py:85-93 | Filtering a second time against the same tree removes nothing more. |
| `Media.FilteredAgainstTree` | main.py:63-66 | When the categorized set holds every directory of `Sorted_Media`, as it does after a rescan, no kept basename exists in any category folder. Every dropped entry had a file of its name in one. |
| `Categories.WithPrefix` | main.py:219-220 | The comprehension keeps exactly the listed names with the prefix. Its head is the first such name in listing order. |
| `Categories.ResolveCategory` | main.py:217-223 | A number `n` routes to the first listed `Category_<n>_...` when there is one. Otherwise it routes to `Category_<n>`, and then no listed name has the prefix. |
| `Categories.ResolvedFolderNumber` | main.py:217-226 | A routed folder that exists has the key's number where the allocation loop reads it (`int(name.split("_")[1]) == n`). |
| `Categories.NumberOfCategoryName` | main.py:262 | `int(name.split("_")[1])` returns `n` for both `Category_<n>` and `Category_<n>_<description>`. |
| `Text.ParseIntOfNatToString` | main.py:262 | `int(str(n)) == n` for every non-negative `n`. |
| `Categories.CategoryNumberOf` | main.py:257-265 | The number the loop reads from one name. Only names starting with `Category_` give one, and `None` stands for the `ValueError` that is skipped. `NumberOfCategoryName` and `ResolvedFolderNumber` state its values on the program's own folder names. |
| `Categories.CategoryNumbers` | main.py:257-265 | The list `category_numbers`: at most one number per listed name, in listing order. `CategoryNumbersMembers` and `CollectNumbers` state its members and its equality with the loop. |
| `Categories.CategoryNumbersMembers` | main.py:257-265 | A number is collected exactly when some listed name starting with `Category_` parses to it. Names whose parse raises `ValueError` add nothing. |
| `Categories.CollectNumbers` | main.py:258-265 | The loop over the `Category_` names collects the parsed numbers in listing order. |
| `Categories.SmallestFree` | main.py:267-269 | The counting loop stops at `n >= 1` with `n` not collected and every integer in `1..n-1` collected. |
| `Categories.NextCategoryNumber` | main.py:257-269 | The allocated number is the smallest positive integer that no listed `Category_` folder carries. |
| `Categories.SmallestFreeIsUnique` | main.py:267-269 | The three facts about the allocated number determine it. |
| `Categories.NewCategoryIsRoutable` | main.py:271-275 | `Category_<n>_<description>` with the allocated `n` never collides with a listed name. Once added to the listing, it is exactly the folder that key `n` routes to. |
| `UndoLedger.Push` | main.py:238-240 | A push appends at the tail. If the stack was below the cap it is the old stack plus the record; at the cap, exactly the oldest record is dropped. A stack within the cap stays within it. |
| `UndoLedger.PushAllKeepsLatest` | main.py:238-240 | After any number of pushes, the stack holds exactly the most recent `cap` records of everything pushed, in push order. |
| `UndoLedger.PushThenLatest` | main.py:238-240 | One push followed by more records keeps the same latest `cap` records as pushing everything onto the old stack at once. |
| `UndoLedger.PopAfterPush` | main.py:238-240 | Popping right after a push gives back the pushed record. The rest is the old stack, minus its oldest record if the cap was reached. |
| `SortedTree.AddFile` | main.py:235 | After the copy the destination exists. No other file's existence, no listing and no folder changes. |
| `SortedTree.RemoveFile` | main.py:285 | After the remove the destination is gone and nothing else changes. |
| `SortedTree.MakeFolder` | main.py:273-275 | The new folder is listed after the existing entries and is empty. |
| `SortedTree.EnsurePresent` | main.py:214-215 | `Sorted_Media` exists afterwards. An existing one is left untouched, and a new one is empty. |
| `SortedTree.RemoveUndoesAdd` | main.py:235 | Deleting a file that a copy has just created gives back the tree as it was before the copy. |
| `SortedTree.UndoAfterOverwriteLosesFile` | main.py:232-235 | A copy onto an existing name changes nothing visible. The undo that deletes it then leaves no file of that name. |
| `Organizer.PyIndex` | main.py:211 | `media_files[i]` is defined exactly for `-len <= i < len`, and it reads position `i mod len`. |
| `Organizer.KeyCategory` | main.py:203-204 | The key test `event.char.isdigit() and event.char in '1234567890'`, then `int(event.char)`. `DigitKeys` states its values on single characters: every digit selects its own value, and `0` selects 0. |
| `Organizer.DigitKeys` | main.py:203-204 | A one-character key selects a category exactly when it is a digit, and it selects that digit's value (`0` selects category 0). |
| `Organizer.CollectCategoryFolders` | main.py:63-66 | The first loop of `update_lists` adds every directory of `Sorted_Media` to the categorized set, and nothing else. |
| `Organizer.ScanMediaFolder` | main.py:68-80 | The second loop appends the scan of the listing to the list it started from. |
| `Organizer.MediaOrganizerApp.constructor` | main.py:16-22 | The app starts with empty lists, index 0 and no folder chosen. |
| `Organizer.MediaOrganizerApp.CurrentEntry` | main.py:211 | `media_files[current_file_index]` with Python's indexing. It is defined exactly for `-len <= index < len`. A non-negative index reads that position, and a negative one counts from the end. |
| `Organizer.MediaOrganizerApp.UpdateLists` | main.py:61-83 | The categorized set grows by the directories of `Sorted_Media` and loses nothing. The media list becomes the old list followed by the new scan, with the whole list then filtered, as at `main.py:83`. The stack and the index are unchanged. |
| `Organizer.MediaOrganizerApp.FilterMediaFilesInCategories` | main.py:85-93 | Only the media list changes, and it becomes its filtered form. |
| `Organizer.MediaOrganizerApp.LoadMediaFiles` | main.py:52-57 | Both collections start over, then the folder is scanned. |
| `Organizer.MediaOrganizerApp.CopyFileToCategory` | main.py:206-246 | Its ensures is the twostate predicate `CopyEffect`. Each of the five outcomes happens exactly under its condition. An empty list or an out-of-range index changes nothing. A missing target or a failed copy only creates `Sorted_Media`. A copy writes `<resolved folder>/<basename>` even over an existing file, and pushes `("copy", src, dest)` onto the bounded stack. It then advances the cursor and keeps it in range or at 0. |
| `Organizer.MediaOrganizerApp.PushUndo` | main.py:238-240 | The stack becomes `Push(old stack, record, 20)`, and it stays within 20 records. |
| `Organizer.MediaOrganizerApp.AdvanceCursor` | main.py:243-246 | The index goes up by one. At the end of the list the lists are rescanned and the index becomes 0. An index that was in range stays in range or becomes 0. |
| `Organizer.MediaOrganizerApp.OnKeyPress` | main.py:199-204 | A key copies exactly when it is a digit string occurring in `1234567890`. The copy has the whole `CopyEffect` of `copy_file_to_category` for the key's own number `int(event.char)`: the outcome cases, the resolved folder, the new tree, stack, index and lists. Any other key changes nothing. |
| `Organizer.MediaOrganizerApp.UndoCopy` | main.py:277-288 | An empty stack changes nothing. Otherwise exactly the newest record is popped and the rest of the stack is unchanged. Its destination is deleted and the index drops by exactly one, with no clamp. If the destination is already gone, the record is still consumed and the index stays. |
| `Organizer.MediaOrganizerApp.CreateCategoryFolder` | main.py:250-275 | The allocated number is the smallest free one. A cancelled or empty description creates nothing beyond `Sorted_Media`. A non-empty one creates `Category_<n>_<description>`, which is new and is what key `n` then routes to. |
| `Organizer.CopyThenUndo` | main.py:235-240 | An undo straight after a copy removes that copy. The tree comes back when the copy created a new file, and the stack comes back when it was below its cap. |

## Left out

- Image display, video preview, the play button and launching the system player (`display_image`,
  `show_video_preview`, `draw_play_button`, `open_video_player`): rendering and process launch through
  PIL, cv2, tkinter and `subprocess`.
- `show_media` and `show_undo_message`: label and canvas updates.
  - `show_media` runs after every state change in its callers, so an `IndexError` it raises does not
    affect the modelled state.
  - `show_undo_message` runs at `main.py:286`, before the decrement at `main.py:287`. It only takes
    `os.path.basename` of a string path and sets a label, so it cannot raise `IndexError`.
- `select_folder` and both dialogs: the chosen folder and the description are parameters. A cancelled
  folder dialog sets `media_folder` to `''`, so a later rescan would fail to list `''`. That case is not
  modelled.
- The Escape branch of `on_key_press`, the key bindings and `__init__`'s widgets: presentation only.
  `categorized_folders` has no value in `__init__` and is first set by `load_media_files`. The model
  starts it empty, which no operation can tell apart, because nothing reads it before a load.
- Byte contents of files: a copy is modelled as the destination name appearing in its folder.
- Subdirectories inside category folders: a category folder is modelled as a set of file names. So
  `shutil.copy` onto a name that is a directory, and `os.remove` of one, are not modelled.
- Descriptions containing a path separator make `os.makedirs` create nested folders. The model creates
  one folder with that name.
- `Sorted_Media` is modelled as a case-sensitive file system: `SortedTree.Exists` and `SortedTree.FileExists`
  compare names exactly. On a case-insensitive volume, such as the Windows and macOS defaults that
  `main.py:194-197` supports, `os.path.exists` differs at four places:
  - `main.py:90`: the filter also drops `a.jpg` when `Category_1/A.JPG` exists.
  - `main.py:225`: routing accepts `category_1` for `Category_1`.
  - `main.py:232-235`: the copy also overwrites a file whose name differs only in case.
  - `main.py:274`: no folder is created when a case variant such as `category_1_Cats` exists. That variant
    is not counted at `main.py:257`, because `startswith` is case-sensitive.

  So `Categories.NewCategoryIsRoutable` ("never collides") and `Media.FilteredAgainstTree` hold only on a
  case-sensitive file system.
- A newly created folder is placed last in the listing. Real `os.listdir` order is platform-defined.
- Other programs changing either directory between calls, and concurrency in general.
- I/O errors other than the ones listed above, such as permissions, a full disk, or the media folder
  vanishing.
- `Text.Lower`: only ASCII letters are case-mapped. Two other characters have a Python lower-case
  form that contains an ASCII letter: U+0130 becomes `i` followed by U+0307, and U+212A becomes `k`.
  Neither can complete one of the ten extensions: `k` occurs in none of them, and after U+0130 the
  name ends in U+0307. So the tagging is unaffected.
- `Text.ParseInt`: Unicode digits and non-ASCII whitespace, which Python's `int()` accepts, are not
  modelled. Underscores between digits cannot occur, because the text was split on `_`.
- `Organizer.MediaOrganizerApp.CopyFileToCategory`: takes a `nat`. Its only caller passes
  `int(event.char)`, which is never negative.
- `Organizer.CopyThenUndo`: does not restate that the index comes back. That follows from the
  `+1` in `AdvanceCursor` and the `-1` in `UndoCopy` when no rescan happened.
