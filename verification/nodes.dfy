/**
 The file-node record kept by the registry, the registry itself, and the abstract
 `VFile` constructor.
 */
module Nodes {
  import opened Wrappers

  /** Identifiers and registry keys. JavaScript turns every property key into a string. */
  type Id = string

  datatype FileType = File | Directory

  /**
   The `parent` property: absent or `undefined`, `null` for the root level, or the id of an
   entry.
   */
  datatype Parent = Absent | Root | Under(dir: Id)

  /**
   A record `{id, name, type, parent, contents, editable}`. Every field is optional: a record
   built by spreading a missing entry carries only the fields written explicitly. `None` is an
   absent or `undefined` property; for `parent` that is `Absent`.
   */
  datatype Node = Node(
    id: Option<Id>,
    name: Option<string>,
    kind: Option<FileType>,
    parent: Parent,
    contents: Option<string>,
    editable: Option<bool>)

  /** The object literal `{}`. */
  const Empty := Node(None, None, None, Absent, None, None)

  /** `state.files`: the map from id to node. */
  type Registry = map<Id, Node>

  /** `!id` is false: the argument is defined and is not the empty string. */
  predicate Truthy(id: Option<Id>)
  {
    id.Some? && id.value != ""
  }

  /** The property key that `[id]` denotes in an object literal; `undefined` becomes "undefined". */
  function KeyOf(id: Option<Id>): Id
  {
    id.GetOr("undefined")
  }

  /** `{...state.files[k]}`: the entry at `k`, or a record with no fields when `k` is not a key. */
  function Prior(reg: Registry, k: Id): Node
  {
    if k in reg then reg[k] else Empty
  }

  predicate IsDirectory(n: Node)
  {
    n.kind == Some(Directory)
  }

  /** The six fields of a node, for stating which ones an operation may change. */
  datatype Field = IdField | NameField | TypeField | ParentField | ContentsField | EditableField

  /** `x` and `y` agree on every field outside `changed`. */
  predicate SameExcept(x: Node, y: Node, changed: set<Field>)
  {
    && (IdField !in changed ==> x.id == y.id)
    && (NameField !in changed ==> x.name == y.name)
    && (TypeField !in changed ==> x.kind == y.kind)
    && (ParentField !in changed ==> x.parent == y.parent)
    && (ContentsField !in changed ==> x.contents == y.contents)
    && (EditableField !in changed ==> x.editable == y.editable)
  }

  /** A node that sets all six fields. */
  predicate Complete(n: Node)
  {
    && n.id.Some? && n.name.Some? && n.kind.Some?
    && n.parent != Absent && n.contents.Some? && n.editable.Some?
  }

  /** Every field that `given` sets explicitly has the same value in `built`. */
  predicate Keeps(built: Node, given: Node)
  {
    && (given.id.Some? ==> built.id == given.id)
    && (given.name.Some? ==> built.name == given.name)
    && (given.kind.Some? ==> built.kind == given.kind)
    && (given.parent != Absent ==> built.parent == given.parent)
    && (given.contents.Some? ==> built.contents == given.contents)
    && (given.editable.Some? ==> built.editable == given.editable)
  }

  /**
   `new VFile(x)` is a parameter `vfile` of every operation that builds nodes: the constructor
   may fill in defaults and generate an id, but this predicate is the most the model assumes
   of it, and only where a property says so — the fields its argument sets survive.
   */
  ghost predicate KeepsGiven(vfile: Node -> Node)
  {
    forall x :: Keeps(vfile(x), x)
  }

  /** Registry invariant: every entry records its own key, a non-empty string, as its id. */
  predicate IdsMatchKeys(reg: Registry)
  {
    forall k :: k in reg ==> reg[k].id == Some(k) && k != ""
  }

  /** Registry invariant: a parent reference to an existing entry names a directory. */
  predicate ParentsAreDirectories(reg: Registry)
  {
    forall k :: k in reg && reg[k].parent.Under? && reg[k].parent.dir in reg ==>
      IsDirectory(reg[reg[k].parent.dir])
  }

  /** `r` holds a subset of the entries of `reg`, each unchanged. */
  predicate SubMap(r: Registry, reg: Registry)
  {
    forall k :: k in r ==> k in reg && r[k] == reg[k]
  }

  /** Every entry of `reg` other than the one at `k` is still in `r`, unchanged. */
  predicate OthersUnchanged(reg: Registry, r: Registry, k: Id)
  {
    forall j :: j in reg && j != k ==> j in r && r[j] == reg[j]
  }
}
