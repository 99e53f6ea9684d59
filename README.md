# Folder tree of json-folders, modelled in Dafny

The application keeps one in-memory folder tree. Every folder is an object
`{name, children}`, where `children` maps a simple name to a child folder.
It starts as a root named `root` holding one empty folder `f1`. Folders are
addressed by slash-separated path strings. The functions of `main.js` that
change or read the tree are modelled here:

- `folderExists` walks the fragments of a path and fails at the first missing one.
- `stringToFolder` returns the folder at a path.
- `addFolder` has `mkdir -p` semantics for a path string: missing ancestors are
  added first, then the folder at the path is set to a fresh empty folder. It
  silently replaces an existing subtree. Given a folder object instead of a
  string, it attaches that folder to a parent under its own name.
- `deleteFolder` removes one entry. It does nothing when the immediate parent
  is missing.
- `moveFolder` has two guards, "destination inside the source" and "source
  equals destination", each reported by an alert. Then comes a single-pass
  rename to `name_1` on a name collision. Then the source is detached and
  reattached under the destination.

Layout:

- `paths.dfy` (module `Paths`): `Split` and `Join` as JavaScript's
  `split('/')` and `join('/')` behave, the immediate-parent string, and
  `KeyPath`. `KeyPath` is the sequence of child keys that `stringToFolder`
  and `deleteFolder` actually use for a name.
- `folders.dfy` (module `Folders`): the `Folder` datatype, the initial
  tree, and the two walks (`Exists` for `folderExists`, `Get` for
  `stringToFolder`). It also has `Graft`/`SetEntry`, which replace, add or
  remove one entry at the end of a walk, and the `WellFormed` invariant. The
  invariant says every child's key equals the child's name and no key
  contains a slash.
- `folder_ops.dfy` (module `FolderOps`): the effect of each operation as a
  function of the tree before the call (`AddPath`, `RemoveAt`, `Resolve`,
  `InsideSource`, `FinalName`, `Relocated`), and the lemmas stating what the
  operations promise.
- `folder_tree.dfy` (module `FolderTrees`): the imperative layer. The
  walking loops `FolderExists`, `Descend` and `StringToFolder`, the
  do-while rename loop `ResolveCollision`, and the class `FolderTree`. Its
  field `root` is updated by `AddFolder`, `AttachNode`, `DeleteFolder` and
  `MoveFolder`. Each method's `ensures` ties the new root to a function in
  `FolderOps` or `Folders`, and says the well-formedness invariant is kept.

Behaviour of the code that the model keeps as written:

- When the immediate parent string of a name is `""`, `stringToFolder` and
  `deleteFolder` use the whole string as one key (`main.js:107-108`,
  `main.js:46-47`). This holds for a single fragment and also for a name
  `"/x"`. `folderExists("/x")` walks `["", "x"]`, so the two can disagree;
  `SlashedNameDisagreement` exhibits a well-formed tree where they do.
  `deleteFolder("/x")` never changes a well-formed tree
  (`DeleteFolderRemoves`).
- The first guard of `moveFolder` drops the first `|source|` fragments of the
  destination without comparing them with the source (`main.js:62-65`). It
  rejects every destination inside the source
  (`InsideSourceCoversDescendants`), but also some that are not
  (`InsideSourceOverreaches`). When the destination has no more fragments than
  the source, it tests the key `""` under the source (`InsideSourceTests`).
- The collision loop resets its flag before testing it (`main.js:85`), so it
  renames at most once, to `name_1`. An existing `name_1` in the destination
  is then overwritten (`MoveRenamesOnce`). A loop that repeats until the
  name is unique may have been intended; the model follows the code.
- A successful move removes the source path unless that path lies inside
  the entry the folder is moved to (`MoveEffect`). That entry can be the
  overwritten `name_1` folder when the source lay inside it.

## Model

| member | source | states |
|---|---|---|
| Paths.Split | main.js:21 | a split has at least one piece; no piece holds a slash; there are two or more pieces exactly when the string holds a slash |
| Paths.JoinSplit | main.js:22 | joining the pieces of a split with `/` gives back the original string |
| Paths.SplitJoin | main.js:24-25 | splitting the immediate-parent string gives back the fragments before the last one, so `folderExists(immediateParent)` walks exactly those fragments and the recursive `addFolder` works on one fragment fewer |
| Paths.JoinEmpty | main.js:24 | the immediate-parent string is `""` exactly when there is one fragment, or two of which the first is empty |
| Paths.LeadingSlash | main.js:28-30 | a split starts with an empty piece followed by more exactly when the name starts with `/`, the case in which `addFolder` walks through a top-level key `""` |
| Paths.KeyPathSplit | main.js:103-115 | the keys `stringToFolder` uses are the fragments of the name, except for a name `"/x"`, looked up as the single key `"/x"`, which holds a slash |
| Paths.KeyPathInjective | main.js:70 | distinct names are looked up under distinct key sequences, so the string comparison of the second guard is a comparison of resolved positions |
| Folders.ExistsIffGet | main.js:118-125 | the `folderExists` walk succeeds exactly when the lookup walk finds a folder |
| Folders.GetSetEntry | main.js:34-37 | setting or deleting one child entry of the folder at a path: the new entry is seen at and below that entry's path, every path off it is unchanged, and the folders on the way stay with their names |
| Folders.InitialTreeWellFormed | main.js:9-17 | the initial tree has every key equal to its folder's name and no key with a slash |
| FolderOps.AddPath | main.js:19-37 | after adding, the full path exists; the root's keys are the old ones plus the first fragment |
| FolderOps.AddPathEffect | main.js:24-37 | after adding: the path ends at an empty folder with nothing below it; every path off the added path is unchanged; every ancestor exists, keeping its name if it existed before |
| FolderOps.AddCreatesPath | main.js:24-26 | after adding, the path and every prefix of it (every ancestor) exist |
| FolderOps.AddGivesFreshFolder | main.js:33-37 | the folder at the added path is named after the last fragment and has no children, whatever was there before |
| FolderOps.AddIdempotent | main.js:19-37 | adding a path twice gives the same tree as adding it once |
| FolderOps.AddPathWellFormed | main.js:33-37 | adding slash-free fragments to a well-formed tree keeps it well-formed |
| FolderOps.RemoveAt | main.js:43-56 | after deleting, nothing is found under the deleted key sequence |
| FolderOps.RemoveEffect | main.js:48-55 | a missing immediate parent leaves the tree unchanged; otherwise nothing at or below the path is left, every path off it (siblings included) is unchanged, and its ancestors stay with their names |
| FolderOps.RemoveIdempotent | main.js:43-56 | deleting twice gives the same tree as deleting once |
| FolderOps.RemoveWellFormed | main.js:43-56 | deleting keeps a well-formed tree well-formed |
| FolderOps.DeleteFolderRemoves | main.js:44-47 | after `deleteFolder(name)` the fragment walk of `name` fails, except for a name `"/x"`, whose deletion leaves a well-formed tree unchanged |
| FolderOps.ResolveAgreesWithExists | main.js:103-116 | except for a name `"/x"`, `stringToFolder` returns the end of the fragment walk, and finds a folder exactly when `folderExists` holds; for `"/x"` it finds nothing in a well-formed tree |
| FolderOps.SlashedNameDisagreement | main.js:105-109 | a well-formed tree where `folderExists("/x")` holds and `stringToFolder("/x")` finds nothing |
| FolderOps.InsideSourceTests | main.js:62-65 | the first guard tests the destination fragments beyond the source's count under the source folder, or the key `""` when there are none |
| FolderOps.InsideSourceCoversDescendants | main.js:62-68 | every destination strictly inside the source is rejected by the first guard |
| FolderOps.InsideSourceOverreaches | main.js:62-68 | the first guard also rejects moving `a` to `b/x` when `a` and `b` each hold `x` |
| FolderOps.GuardsKeepDestination | main.js:90-91 | when neither guard rejects, deleting the source entry leaves the destination folder in place, so the reattachment has a parent |
| FolderOps.MoveEffect | main.js:90-91 | an accepted move puts the source folder, renamed, with the same children, at the destination's final-name entry; the source path is gone unless it lay inside that entry; every path off both entries is unchanged |
| FolderOps.MoveKeepsAncestors | main.js:87-91 | an accepted move renames no folder but the moved one: every folder on the way to the destination, and every folder on the way to the source not inside the target entry, is still there with its old name |
| FolderOps.MoveRenamesOnce | main.js:75-91 | moving `x` into a `y` that holds `x` and `x_1` gives the name `x_1` and replaces the old `x_1` |
| FolderOps.MoveWellFormed | main.js:87-91 | an accepted move (rename, then reattach under the new name) keeps a well-formed tree well-formed |
| FolderTrees.FolderExists | main.js:118-125 | the loop returns exactly whether the fragment walk succeeds from the given folder |
| FolderTrees.Descend | main.js:110-113 | the loop ends at the folder the walk reaches |
| FolderTrees.StringToFolder | main.js:103-116 | the method returns the folder under the name's key sequence, or none |
| FolderTrees.ResolveCollision | main.js:75-88 | the do-while runs its body once and yields the name with `_1` appended exactly when the destination already has a child of that name, otherwise the name unchanged |
| FolderTrees.FolderTree.constructor | main.js:9-17 | the tree starts as `root` holding the empty `f1`, and is well-formed |
| FolderTrees.FolderTree.AddFolder | main.js:19-37 | the new root is the old one with the path added (ancestors first), and well-formedness is kept |
| FolderTrees.FolderTree.AttachNode | main.js:38-40 | the given folder becomes the child, under its own name, of the folder at the given path; well-formedness is kept for a well-formed, slash-free node |
| FolderTrees.FolderTree.DeleteFolder | main.js:43-56 | the new root is the old one with the entry under the name's key sequence removed, or unchanged when its parent is missing; well-formedness is kept |
| FolderTrees.FolderTree.MoveFolder | main.js:58-92 | a move into the source or onto itself is reported and changes nothing; otherwise it reports the final name and the root becomes the relocated tree; well-formedness is kept |

## Left out

- `requestAddFolder`, `requestDeleteFolder`, `requestMoveFolder` (`main.js:127-144`): input glue around `window.prompt`.
- `refreshView` / `makeList` and `document.getElementById` (`main.js:146-165`): DOM rendering.
- `alert` (`main.js:66,71`): modelled as the returned `MoveOutcome`.
- `findFolder` (`main.js:94-101`): never called, and its result depends on the enumeration order of object keys.
- Object identity and aliasing: folders are values. An in-place update of a nested folder is modelled as walking to it and grafting the updated folder back at its path. The source never shares a folder between two parents, so nothing is lost.
- The `parent` argument: the class methods work on the root, which is how the input handlers call them. `moveFolder` resolves against the global tree and deletes against `parent`; the model uses the one root for both. The node form of `addFolder` receives a folder object as parent; `AttachNode` takes the path of that folder instead.
- JavaScript runtime errors from dereferencing `undefined` become preconditions. `AddFolder` requires a top-level `""` folder for a name starting with `/`. `MoveFolder` requires the source to resolve, and the destination too unless the first guard rejects.
- Properties inherited by plain JavaScript objects (`constructor`, `__proto__`, ...) are not modelled: a child map holds only its own keys.
- Strings are sequences of Dafny characters; UTF-16 code units are not modelled.
- Trash and restore, origin tracking and the identity-based reverse path lookup are not part of `main.js`, so they are not part of this model.
