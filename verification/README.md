# File registry of the snipp.in editor, in Dafny

This project models the in-memory file registry of the editor's `Files` store module
(`src/store/modules/Files/actions.js`). The registry (`state.files`) maps an id to a node
record `{id, name, type, parent, contents, editable}`. Every action that changes the registry
replaces the whole map in one commit (`SET_FILES`); `deleteDirectory` makes one such commit
per omitted id, including an id that is not a key. `loadFiles` commits the records it has read from the durable store.
`openRenameMode` commits but writes nothing durable. Each of the other changing actions then
starts a durable-store write, which never feeds back into the registry. `createExportPayload`
commits nothing: it only reads the map. Each action is modelled as a pure transition on an
immutable `map<Id, Node>`. The one exception is `deleteDirectory`, a recursive method. It
returns the final registry and `log`, the ids of its `omit` commits in the order they happen.

Files and modules:

- `wrappers.dfy` (`Wrappers`): `Option`. `None` stands for an absent or `undefined` property.
- `nodes.dfy` (`Nodes`): the node record with all fields optional, and the registry type.
  A parent is `Absent` (absent or `undefined`), `Root` (`null`, the root level) or
  `Under(d)`, a link to the entry `d`.
  - It defines JavaScript truthiness of an id (`Truthy`) and the key an `undefined` id
    becomes (`KeyOf`: "undefined").
  - `Prior` is the spread of a possibly missing entry. `SameExcept` says which fields an
    update may change.
  - It states two registry invariants: ids equal keys (`IdsMatchKeys`), and parent links
    name directories (`ParentsAreDirectories`).
  - The `VFile` constructor is a parameter `vfile: Node -> Node`. Where a property needs
    something from it, the only assumption used is `KeepsGiven`: the fields its argument
    sets explicitly survive.
- `actions.dfy` (`Actions`): `createFile`, `createDirectory`, `moveFile`,
  `updateFileContents`, `renameFile`, `openRenameMode`, `deleteFile`.
- `subtree.dfy` (`Subtree`): `deleteDirectory`. This file also states the post-order
  property and the two halves of the subtree property:
  - no descendant survives;
  - nothing that is not a descendant is removed.
- `snapshot.dfy` (`Snapshot`): `loadFiles` (the `reduce` that rebuilds the registry),
  `createExportPayload` and `restoreFiles`.
- `sample.dfy` (`Sample`): a small well-formed tree with a root-level directory, on which the
  export/restore round trip applies.

Three behaviours of the code are easy to overlook, and the model keeps them:

- `moveFile`, `updateFileContents`, `renameFile` and `openRenameMode` are not no-ops on an id
  that is not a key. Their only guard is `!id`. Spreading the missing entry yields `{}`, so
  a partial record holding only the written fields is inserted (`MoveAbsentIdInsertsPartialRecord`).
- `deleteDirectory` on an id that is not a key is not a no-op either. Entries whose parent
  names that id are still deleted, and an `omit` is still committed for the id.
- Descendants of a FILE node are not deleted by `deleteDirectory`, because a file child is
  handed to `deleteFile`, which does not recurse. "No descendant survives" therefore holds
  only when parent links name directories (`NoDescendantSurvives` requires
  `ParentsAreDirectories`).

## Model

| member | source | states |
|---|---|---|
| Actions.CreateFile | src/store/modules/Files/actions.js:53-62 | the returned node is the constructor's result for the details with type FILE, stored under its id (or "undefined" when it has none); every other entry is kept; a fresh id adds exactly one entry; the node's type is FILE whenever the constructor keeps given fields |
| Actions.CreateDirectory | src/store/modules/Files/actions.js:104-109 | the constructed DIRECTORY node is stored under its id; every other entry is kept; a fresh id adds exactly one entry; the node is a directory whenever the constructor keeps given fields |
| Actions.MoveFile | src/store/modules/Files/actions.js:66-76 | a falsy id leaves the registry unchanged; otherwise only key `id` changes: its parent becomes `directoryId`, `editable` becomes false, all its other fields are those of the prior entry (none when absent), and the key set gains `id` if it was missing |
| Actions.UpdateFileContents | src/store/modules/Files/actions.js:115-124 | a falsy id is a no-op; otherwise only the `contents` of entry `id` change, `editable` included among the fields kept, and every other entry is untouched |
| Actions.RenameFile | src/store/modules/Files/actions.js:141-151 | a falsy id is a no-op; otherwise entry `id` gets the new name and leaves rename mode, its other fields and every other entry are kept |
| Actions.OpenRenameMode | src/store/modules/Files/actions.js:170-179 | a falsy id is a no-op; otherwise only `editable` of entry `id` changes, to true |
| Actions.DeleteFile | src/store/modules/Files/actions.js:182-186 | a falsy id is a no-op; otherwise exactly key `id` is removed and every remaining entry is unchanged |
| Actions.MoveAbsentIdInsertsPartialRecord | src/store/modules/Files/actions.js:66-76 | moving a truthy id that is not a key changes the registry: one entry is added holding only `parent` and `editable = false` |
| Actions.MoveFileRoundTrip | src/store/modules/Files/actions.js:66-76 | moving an entry that is not being renamed back to its former parent restores the registry exactly |
| Actions.RenameFileRoundTrip | src/store/modules/Files/actions.js:141-151 | renaming an entry that is not being renamed back to its former name restores the registry exactly |
| Actions.UpdateFileContentsRoundTrip | src/store/modules/Files/actions.js:115-124 | writing the former contents back restores the registry whatever its rename mode, so the update never touches `editable` |
| Actions.UpdateFileContentsLastWins | src/store/modules/Files/actions.js:115-124 | two successive contents updates equal the second one alone |
| Actions.OpenRenameModeIdempotent | src/store/modules/Files/actions.js:170-179 | opening rename mode twice equals opening it once |
| Actions.RenameAfterOpenRenameMode | src/store/modules/Files/actions.js:141-179 | a rename after opening rename mode gives the same registry as the rename alone |
| Actions.DeleteFileUndoesCreateFile | src/store/modules/Files/actions.js:182-186 | deleting the node just created with a fresh, non-empty id gives back the registry as it was before the creation |
| Actions.DeleteFileAbsentOrRepeated | src/store/modules/Files/actions.js:182-186 | deleting an id that is not a key leaves the registry equal to before; deleting twice equals deleting once |
| Actions.UpdatesKeepIdsMatchingKeys | src/store/modules/Files/actions.js:66-186 | when ids equal keys, a field update on a truthy id keeps that invariant if and only if the id is already a key; a deletion always keeps it |
| Actions.CreateKeepsIdsMatchingKeys | src/store/modules/Files/actions.js:53-109 | creating a node whose constructed id is non-empty keeps ids equal to keys |
| Subtree.DeleteDirectory | src/store/modules/Files/actions.js:203-217 | a falsy id commits nothing; otherwise the result keeps a subset of the entries, each unchanged; an entry is gone exactly when its key was omitted; the directory's own omit comes last, after every child's. When ids equal keys, the omits are in post-order: no directory, and no id that is not an entry, is omitted while an entry naming it as parent is still present. Every omitted id is the directory, one of its children, or a child of an omitted directory. Termination needs only that the directories under the deleted id are ranked below their parents |
| Subtree.MoveToUnrankedKeepsRanked | src/store/modules/Files/actions.js:66-76 | moving any entry under a parent the termination witness does not rank, such as making a directory its own parent, keeps the witness, so directories elsewhere can still be deleted |
| Subtree.NoDescendantSurvives | src/store/modules/Files/actions.js:203-217 | with parent links naming directories, any entry reachable from the deleted id through parent links at call time is absent from the result |
| Subtree.OmittedDescends | src/store/modules/Files/actions.js:203-217 | every omitted entry other than the directory reaches it through parent links, so entries that do not descend from it are kept unchanged |
| Subtree.DeleteSubtreeEntry | src/store/modules/Files/actions.js:203-217 | for one entry: an entry that stays is unchanged; when ids equal keys and parent links name directories, an entry other than the directory is gone if and only if it descends from the directory through parent links |
| Snapshot.LoadFiles | src/store/modules/Files/actions.js:24-30 | the key set is exactly the set of ids of the loaded records, so there are never more entries than records |
| Snapshot.LoadFilesLastWins | src/store/modules/Files/actions.js:24-29 | the entry for an id is the constructor's node for the last record with that id, with `editable` forced to false |
| Snapshot.LoadFilesNotEditable | src/store/modules/Files/actions.js:26 | when the constructor keeps given fields, every loaded entry has `editable = false` |
| Snapshot.LoadFilesDistinctSize | src/store/modules/Files/actions.js:24-30 | records with pairwise distinct ids give exactly one entry each |
| Snapshot.LoadFilesIdsMatchKeys | src/store/modules/Files/actions.js:24-30 | when the constructor keeps given fields, records with non-empty ids load into a registry whose ids equal its keys |
| Snapshot.RestoreFiles | src/store/modules/Files/actions.js:251-270 | a payload without `files` makes the action reject before any commit, leaving the registry as it was; otherwise the key set is the union of the existing and the incoming keys, incoming keys hold the constructor's node for the incoming value, other keys keep their old value, and the action resolves to true |
| Snapshot.ExportRestoreRoundTrip | src/store/modules/Files/actions.js:246-263 | restoring the export payload at once resolves and gives back the registry, when the constructor keeps the fields it is given and every registry node sets all six fields |
| Sample.ExportRestoreRoundTripTree | src/store/modules/Files/actions.js:246-263 | the round trip holds for a well-formed tree whose root directory has a `null` parent, whatever the constructor does beyond keeping the fields it is given |
| Snapshot.RestoreFilesIdempotent | src/store/modules/Files/actions.js:251-263 | restoring the same payload twice equals restoring it once |
| Snapshot.RestoreFilesKeepsIdsMatchingKeys | src/store/modules/Files/actions.js:251-263 | when the constructor keeps given fields and both the registry and the payload have ids equal to keys, so does the merged registry |

## Left out

- Durable-store writes (`db.transaction`, `modify`, `delete`, `add`, `bulkPut`) and their
  error logging are left out. They are asynchronous and their outcome never reaches the registry.
- `searchFiles` is left out. It depends on the Fuse.js fuzzy scorer and a floating-point
  threshold. That library is not part of this model.
- Dispatches to other modules (`Editor/reOpenFiles`, `Editor/closeFileFromAllEditor`,
  `UI/showExplorerPanel`) are left out, because they do not change the registry.
  `Editor/getChildren` is modelled as the set of entries whose parent is the id.
  Its order is left open: the method picks children in an arbitrary order.
- The `VFile` constructor and id generation are not part of this model. The constructor is
  a function parameter.
- Interleaving between concurrently running actions is left out. Each action is one atomic
  step; `deleteDirectory` runs its recursion sequentially.
- Numeric ids are not modelled: ids are strings.
- `loadFiles` reading the three stored tables is left out. The records of the file table are
  its input.
- Snapshot.RestoreFiles: a `files` value that is present but not an object (a string or a
  number, which `Object.keys` accepts) is not modelled. The payload holds either a registry
  or nothing.
- Snapshot.ExportRestoreRoundTrip: promised only for registries whose nodes set all six
  fields, where a `null` parent counts as set, so root-level entries are covered
  (`Sample.ExportRestoreRoundTripTree`). A node with an absent or `undefined` field is not covered:
  a constructor that keeps given fields may still fill that field in, and then the restored
  node differs.
- Snapshot.CreateExportPayload: carries no contract of its own, since it returns the registry
  unchanged. Its meaning is stated by `ExportRestoreRoundTrip` and `Sample.ExportRestoreRoundTripTree`.
- Subtree.DeleteDirectory: requires a `height` witness that ranks the deleted id and every
  directory reachable below it through parent links. A directory cycle below the deleted id
  has no such witness, and there the source recurses without end. Cycles elsewhere in the
  registry do not matter (`MoveToUnrankedKeepsRanked`).
- Subtree.DeleteDirectory: assumes ids contain no lodash property-path syntax (`.` or `[…]`).
  For such an id that is not an own key, `omit` deletes a nested field of another entry
  instead. The model removes exactly that one key.
- Actions.DeleteFile: assumes ids contain no lodash property-path syntax (`.` or `[…]`). For
  such an id that is not an own key, `omit(state.files, id)` deletes a nested field of another
  entry. The model removes exactly the key `id`, and nothing when it is absent.
- Actions.DeleteFileAbsentOrRepeated: "an absent id changes nothing" holds only for ids
  without property-path syntax, for the reason given for `Actions.DeleteFile`.
- Subtree.DeleteDirectory: the post-order and subtree contracts are stated only for
  registries whose ids equal their keys. Otherwise `deleteFile` and the recursion act on a
  child's `id` field, which may name a different entry.
- Subtree.NoDescendantSurvives: requires that parent links name directories. The source
  leaves children of a deleted FILE node in place.
- Actions.CreateFile: the FILE type of the new node is promised only when the constructor
  keeps the fields it is given. The constructor's code is not part of this model.
- Actions.CreateDirectory: likewise for the DIRECTORY type.
- Snapshot.LoadFilesNotEditable: likewise for `editable = false`.
