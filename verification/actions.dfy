/**
 The single-entry registry transitions: create, move, update contents, rename, rename mode and
 single deletion. Each is one whole-map commit; the durable-store write that follows it never
 feeds back into the registry and is not modelled.
 */
module Actions {
  import opened Wrappers
  import opened Nodes

  /** `{...details, type: t}`, where missing details stand for `{}`. */
  function Details(details: Option<Node>, t: FileType): Node
  {
    details.GetOr(Empty).(kind := Some(t))
  }

  /** The registry after `createFile`, and the node it returns. */
  datatype Created = Created(files: Registry, file: Node)

  /**
   `createFile`: build a FILE node from the details and store it under its id. When the
   constructor's id is fresh, exactly one entry is added.
   */
  function CreateFile(reg: Registry, details: Option<Node>, vfile: Node -> Node): (r: Created)
    ensures r.file == vfile(Details(details, File))
    ensures r.files.Keys == reg.Keys + {KeyOf(r.file.id)}
    ensures r.files[KeyOf(r.file.id)] == r.file
    ensures OthersUnchanged(reg, r.files, KeyOf(r.file.id))
    ensures KeyOf(r.file.id) !in reg ==> |r.files| == |reg| + 1
    ensures KeepsGiven(vfile) ==> r.file.kind == Some(File)
  {
    var file := vfile(Details(details, File));
    var files := reg[KeyOf(file.id) := file];
    assert KeepsGiven(vfile) ==> Keeps(file, Details(details, File));
    Created(files, file)
  }

  /** `createDirectory`: as `createFile` with type DIRECTORY; the action returns nothing. */
  function CreateDirectory(reg: Registry, details: Option<Node>, vfile: Node -> Node): (r: Registry)
    ensures var dir := vfile(Details(details, Directory));
      && r.Keys == reg.Keys + {KeyOf(dir.id)}
      && r[KeyOf(dir.id)] == dir
      && OthersUnchanged(reg, r, KeyOf(dir.id))
      && (KeyOf(dir.id) !in reg ==> |r| == |reg| + 1)
      && (KeepsGiven(vfile) ==> IsDirectory(r[KeyOf(dir.id)]))
  {
    var dir := vfile(Details(details, Directory));
    assert KeepsGiven(vfile) ==> Keeps(dir, Details(details, Directory));
    reg[KeyOf(dir.id) := dir]
  }

  /**
   `moveFile`: reparent the entry and leave rename mode. A truthy id that is not a key still
   gets an entry, holding only the two fields written.
   */
  function MoveFile(reg: Registry, id: Option<Id>, directoryId: Parent): (r: Registry)
    ensures !Truthy(id) ==> r == reg
    ensures Truthy(id) ==>
      && r.Keys == reg.Keys + {id.value}
      && OthersUnchanged(reg, r, id.value)
      && r[id.value].parent == directoryId
      && r[id.value].editable == Some(false)
      && SameExcept(Prior(reg, id.value), r[id.value], {ParentField, EditableField})
  {
    if !Truthy(id) then reg
    else reg[id.value := Prior(reg, id.value).(parent := directoryId, editable := Some(false))]
  }

  /** `updateFileContents`: replace the contents; rename mode is left as it is. */
  function UpdateFileContents(reg: Registry, id: Option<Id>, contents: Option<string>): (r: Registry)
    ensures !Truthy(id) ==> r == reg
    ensures Truthy(id) ==>
      && r.Keys == reg.Keys + {id.value}
      && OthersUnchanged(reg, r, id.value)
      && r[id.value].contents == contents
      && SameExcept(Prior(reg, id.value), r[id.value], {ContentsField})
  {
    if !Truthy(id) then reg
    else reg[id.value := Prior(reg, id.value).(contents := contents)]
  }

  /** `renameFile`: set the name and leave rename mode. */
  function RenameFile(reg: Registry, id: Option<Id>, name: Option<string>): (r: Registry)
    ensures !Truthy(id) ==> r == reg
    ensures Truthy(id) ==>
      && r.Keys == reg.Keys + {id.value}
      && OthersUnchanged(reg, r, id.value)
      && r[id.value].name == name
      && r[id.value].editable == Some(false)
      && SameExcept(Prior(reg, id.value), r[id.value], {NameField, EditableField})
  {
    if !Truthy(id) then reg
    else reg[id.value := Prior(reg, id.value).(name := name, editable := Some(false))]
  }

  /** `openRenameMode`: mark the entry as being renamed. */
  function OpenRenameMode(reg: Registry, id: Option<Id>): (r: Registry)
    ensures !Truthy(id) ==> r == reg
    ensures Truthy(id) ==>
      && r.Keys == reg.Keys + {id.value}
      && OthersUnchanged(reg, r, id.value)
      && r[id.value].editable == Some(true)
      && SameExcept(Prior(reg, id.value), r[id.value], {EditableField})
  {
    if !Truthy(id) then reg
    else reg[id.value := Prior(reg, id.value).(editable := Some(true))]
  }

  /** `deleteFile`: `omit(state.files, id)`. */
  function DeleteFile(reg: Registry, id: Option<Id>): (r: Registry)
    ensures !Truthy(id) ==> r == reg
    ensures Truthy(id) ==> r.Keys == reg.Keys - {id.value}
    ensures SubMap(r, reg)
  {
    if !Truthy(id) then reg else reg - {id.value}
  }

  /** A move on a truthy id that is not a key adds an entry with no id, name or type. */
  lemma MoveAbsentIdInsertsPartialRecord(reg: Registry, id: Option<Id>, directoryId: Parent)
    requires Truthy(id) && id.value !in reg
    ensures var r := MoveFile(reg, id, directoryId);
      && r != reg
      && |r| == |reg| + 1
      && r[id.value] == Node(None, None, None, directoryId, None, Some(false))
  {
    var r := MoveFile(reg, id, directoryId);
    assert id.value in r;
  }

  /** Moving an entry back to its former parent undoes the move when it was not being renamed. */
  lemma MoveFileRoundTrip(reg: Registry, id: Option<Id>, directoryId: Parent)
    requires Truthy(id) && id.value in reg && reg[id.value].editable == Some(false)
    ensures MoveFile(MoveFile(reg, id, directoryId), id, reg[id.value].parent) == reg
  {
    var back := MoveFile(MoveFile(reg, id, directoryId), id, reg[id.value].parent);
    assert back[id.value] == reg[id.value];
  }

  /** Renaming an entry back to its former name undoes the rename when it was not being renamed. */
  lemma RenameFileRoundTrip(reg: Registry, id: Option<Id>, name: Option<string>)
    requires Truthy(id) && id.value in reg && reg[id.value].editable == Some(false)
    ensures RenameFile(RenameFile(reg, id, name), id, reg[id.value].name) == reg
  {
    var back := RenameFile(RenameFile(reg, id, name), id, reg[id.value].name);
    assert back[id.value] == reg[id.value];
  }

  /**
   Writing the former contents back restores the registry whatever the rename mode, since a
   contents update never touches `editable`.
   */
  lemma UpdateFileContentsRoundTrip(reg: Registry, id: Option<Id>, contents: Option<string>)
    requires Truthy(id) && id.value in reg
    ensures UpdateFileContents(UpdateFileContents(reg, id, contents), id, reg[id.value].contents) == reg
  {
    var back := UpdateFileContents(UpdateFileContents(reg, id, contents), id, reg[id.value].contents);
    assert back[id.value] == reg[id.value];
  }

  /** Of two successive contents updates, only the last one is visible. */
  lemma UpdateFileContentsLastWins(reg: Registry, id: Option<Id>, first: Option<string>, second: Option<string>)
    ensures UpdateFileContents(UpdateFileContents(reg, id, first), id, second) == UpdateFileContents(reg, id, second)
  {
  }

  /** Opening rename mode twice is the same as opening it once. */
  lemma OpenRenameModeIdempotent(reg: Registry, id: Option<Id>)
    ensures OpenRenameMode(OpenRenameMode(reg, id), id) == OpenRenameMode(reg, id)
  {
  }

  /** A completed rename leaves no trace of the rename mode that preceded it. */
  lemma RenameAfterOpenRenameMode(reg: Registry, id: Option<Id>, name: Option<string>)
    ensures RenameFile(OpenRenameMode(reg, id), id, name) == RenameFile(reg, id, name)
  {
  }

  /** Deleting a file created with a fresh id gives back the registry as it was. */
  lemma DeleteFileUndoesCreateFile(reg: Registry, details: Option<Node>, vfile: Node -> Node)
    requires Truthy(vfile(Details(details, File)).id)
    requires vfile(Details(details, File)).id.value !in reg
    ensures var c := CreateFile(reg, details, vfile);
      DeleteFile(c.files, c.file.id) == reg
  {
    var c := CreateFile(reg, details, vfile);
    assert DeleteFile(c.files, c.file.id).Keys == reg.Keys;
  }

  /** Deleting an id that is not a key changes nothing; deleting twice is deleting once. */
  lemma DeleteFileAbsentOrRepeated(reg: Registry, id: Option<Id>)
    ensures Truthy(id) && id.value !in reg ==> DeleteFile(reg, id) == reg
    ensures DeleteFile(DeleteFile(reg, id), id) == DeleteFile(reg, id)
  {
    if Truthy(id) && id.value !in reg {
      assert DeleteFile(reg, id).Keys == reg.Keys;
    }
  }

  /**
   The field updates keep ids equal to keys when they address an existing entry; on an absent
   key they break it, because the inserted record has no id.
   */
  lemma UpdatesKeepIdsMatchingKeys(reg: Registry, id: Option<Id>, d: Parent, s: Option<string>)
    requires IdsMatchKeys(reg)
    ensures Truthy(id) ==> (IdsMatchKeys(MoveFile(reg, id, d)) <==> id.value in reg)
    ensures Truthy(id) ==> (IdsMatchKeys(UpdateFileContents(reg, id, s)) <==> id.value in reg)
    ensures Truthy(id) ==> (IdsMatchKeys(RenameFile(reg, id, s)) <==> id.value in reg)
    ensures Truthy(id) ==> (IdsMatchKeys(OpenRenameMode(reg, id)) <==> id.value in reg)
    ensures IdsMatchKeys(DeleteFile(reg, id))
  {
    if Truthy(id) && id.value !in reg {
      assert MoveFile(reg, id, d)[id.value].id == None;
      assert UpdateFileContents(reg, id, s)[id.value].id == None;
      assert RenameFile(reg, id, s)[id.value].id == None;
      assert OpenRenameMode(reg, id)[id.value].id == None;
    }
  }

  /** Creating a node whose constructed id is present and non-empty keeps ids equal to keys. */
  lemma CreateKeepsIdsMatchingKeys(reg: Registry, details: Option<Node>, vfile: Node -> Node)
    requires IdsMatchKeys(reg)
    ensures Truthy(vfile(Details(details, File)).id) ==> IdsMatchKeys(CreateFile(reg, details, vfile).files)
    ensures Truthy(vfile(Details(details, Directory)).id) ==> IdsMatchKeys(CreateDirectory(reg, details, vfile))
  {
    var file := vfile(Details(details, File));
    if Truthy(file.id) {
      var files := CreateFile(reg, details, vfile).files;
      forall k | k in files
        ensures files[k].id == Some(k) && k != ""
      {
        if k != KeyOf(file.id) {
          assert files[k] == reg[k];
        }
      }
    }
    var dir := vfile(Details(details, Directory));
    if Truthy(dir.id) {
      var dirs := CreateDirectory(reg, details, vfile);
      forall k | k in dirs
        ensures dirs[k].id == Some(k) && k != ""
      {
        if k != KeyOf(dir.id) {
          assert dirs[k] == reg[k];
        }
      }
    }
  }
}
