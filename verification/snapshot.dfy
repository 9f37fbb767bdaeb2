/**
 Whole-registry transitions: rebuilding the registry from the stored records at startup,
 the export snapshot, and restoring a snapshot by merging it over the registry.
 */
module Snapshot {
  import opened Wrappers
  import opened Nodes

  /** The node `loadFiles` stores for one record: rebuilt with rename mode off. */
  function Loaded(item: Node, vfile: Node -> Node): Node
  {
    vfile(item.(editable := Some(false)))
  }

  /**
   `loadFiles`: fold the stored records, in order, into a new registry keyed by each record's
   id; a later record with the same id replaces an earlier one.
   */
  function LoadFiles(records: seq<Node>, vfile: Node -> Node): (r: Registry)
    ensures r.Keys == set i | 0 <= i < |records| :: KeyOf(records[i].id)
    ensures |r| <= |records|
    decreases |records|
  {
    if records == [] then map[]
    else
      var prefix := records[..|records| - 1];
      var item := records[|records| - 1];
      var prev := LoadFiles(prefix, vfile);
      assert forall i :: 0 <= i < |prefix| ==> prefix[i] == records[i];
      prev[KeyOf(item.id) := Loaded(item, vfile)]
  }

  /** No record after position `i` carries the id of the record at `i`. */
  predicate LastWithKey(records: seq<Node>, i: int)
    requires 0 <= i < |records|
  {
    forall j :: i < j < |records| ==> KeyOf(records[j].id) != KeyOf(records[i].id)
  }

  /** One step of the fold: the last record is stored over the registry built from the others. */
  lemma LoadFilesStep(records: seq<Node>, vfile: Node -> Node)
    requires records != []
    ensures var item := records[|records| - 1];
      LoadFiles(records, vfile) == LoadFiles(records[..|records| - 1], vfile)[KeyOf(item.id) := Loaded(item, vfile)]
  {
  }

  /** The entry for an id is built from the last record carrying that id. */
  lemma {:induction false} LoadFilesLastWins(records: seq<Node>, vfile: Node -> Node, i: int)
    requires 0 <= i < |records| && LastWithKey(records, i)
    ensures KeyOf(records[i].id) in LoadFiles(records, vfile)
    ensures LoadFiles(records, vfile)[KeyOf(records[i].id)] == Loaded(records[i], vfile)
    decreases |records|
  {
    var n := |records|;
    var prefix := records[..n - 1];
    LoadFilesStep(records, vfile);
    if i < n - 1 {
      assert prefix[i] == records[i];
      assert KeyOf(records[n - 1].id) != KeyOf(records[i].id);
      assert LastWithKey(prefix, i) by {
        forall j | i < j < |prefix|
          ensures KeyOf(prefix[j].id) != KeyOf(prefix[i].id)
        {
          assert prefix[j] == records[j];
        }
      }
      LoadFilesLastWins(prefix, vfile, i);
    }
  }

  /** No rename survives a reload. */
  lemma {:induction false} LoadFilesNotEditable(records: seq<Node>, vfile: Node -> Node)
    requires KeepsGiven(vfile)
    ensures forall k :: k in LoadFiles(records, vfile) ==> LoadFiles(records, vfile)[k].editable == Some(false)
    decreases |records|
  {
    if records != [] {
      var item := records[|records| - 1];
      assert Keeps(Loaded(item, vfile), item.(editable := Some(false)));
      LoadFilesNotEditable(records[..|records| - 1], vfile);
    }
  }

  /** Records with pairwise distinct ids give exactly one entry each. */
  lemma {:induction false} LoadFilesDistinctSize(records: seq<Node>, vfile: Node -> Node)
    requires forall i, j :: 0 <= i < j < |records| ==> KeyOf(records[i].id) != KeyOf(records[j].id)
    ensures |LoadFiles(records, vfile)| == |records|
    decreases |records|
  {
    if records != [] {
      var n := |records|;
      var prefix := records[..n - 1];
      forall i, j | 0 <= i < j < |prefix|
        ensures KeyOf(prefix[i].id) != KeyOf(prefix[j].id)
      {
        assert prefix[i] == records[i] && prefix[j] == records[j];
      }
      LoadFilesDistinctSize(prefix, vfile);
    }
  }

  /** Records whose ids are present and non-empty load into a registry whose ids match its keys. */
  lemma {:induction false} LoadFilesIdsMatchKeys(records: seq<Node>, vfile: Node -> Node)
    requires KeepsGiven(vfile)
    requires forall i :: 0 <= i < |records| ==> Truthy(records[i].id)
    ensures IdsMatchKeys(LoadFiles(records, vfile))
    decreases |records|
  {
    if records != [] {
      var n := |records|;
      var prefix := records[..n - 1];
      forall i | 0 <= i < |prefix|
        ensures Truthy(prefix[i].id)
      {
        assert prefix[i] == records[i];
      }
      LoadFilesIdsMatchKeys(prefix, vfile);
      var item := records[n - 1];
      assert Keeps(Loaded(item, vfile), item.(editable := Some(false)));
    }
  }

  /**
   `{files: …}`, the value `createExportPayload` returns and `restoreFiles` accepts. `None`
   stands for a payload whose `files` is missing or null.
   */
  datatype Payload = Payload(files: Option<Registry>)

  /** `createExportPayload`: the current registry, as it is. */
  function CreateExportPayload(reg: Registry): Payload
  {
    Payload(Some(reg))
  }

  /**
   What `restoreFiles` leaves behind: the registry after the action, and whether the action
   resolved (to `true`) rather than rejected.
   */
  datatype Restore = Restore(files: Registry, resolved: bool)

  /**
   `restoreFiles`: rebuild every incoming entry with the constructor and merge the result over
   the registry, incoming entries winning; the action then resolves to `true`. Without
   `files`, `Object.keys` throws before any commit: the action rejects and the registry stays.
   */
  function RestoreFiles(reg: Registry, payload: Payload, vfile: Node -> Node): (r: Restore)
    ensures r.resolved <==> payload.files.Some?
    ensures payload.files.None? ==> r.files == reg
    ensures payload.files.Some? ==>
      var incoming := payload.files.value;
      && r.files.Keys == reg.Keys + incoming.Keys
      && (forall k :: k in incoming ==> r.files[k] == vfile(incoming[k]))
      && (forall k :: k in reg && k !in incoming ==> r.files[k] == reg[k])
  {
    match payload.files
    case None => Restore(reg, false)
    case Some(incoming) =>
      var rebuilt := map k | k in incoming :: vfile(incoming[k]);
      Restore(reg + rebuilt, true)
  }

  /**
   Export followed at once by a restore leaves the registry as it was, when the constructor
   keeps the fields it is given and every registry node sets all of its fields.
   */
  lemma ExportRestoreRoundTrip(reg: Registry, vfile: Node -> Node)
    requires KeepsGiven(vfile)
    requires forall k :: k in reg ==> Complete(reg[k])
    ensures RestoreFiles(reg, CreateExportPayload(reg), vfile) == Restore(reg, true)
  {
    var r := RestoreFiles(reg, CreateExportPayload(reg), vfile).files;
    forall k | k in reg
      ensures r[k] == reg[k]
    {
      assert Keeps(vfile(reg[k]), reg[k]);
    }
    assert r.Keys == reg.Keys;
  }

  /** Restoring the same payload twice is restoring it once, whatever the constructor does. */
  lemma RestoreFilesIdempotent(reg: Registry, payload: Payload, vfile: Node -> Node)
    ensures var once := RestoreFiles(reg, payload, vfile).files;
      RestoreFiles(once, payload, vfile).files == once
  {
    var once := RestoreFiles(reg, payload, vfile).files;
    var twice := RestoreFiles(once, payload, vfile).files;
    assert twice.Keys == once.Keys;
  }

  /** A restore keeps ids equal to keys when the incoming entries already satisfy it. */
  lemma RestoreFilesKeepsIdsMatchingKeys(reg: Registry, payload: Payload, vfile: Node -> Node)
    requires KeepsGiven(vfile)
    requires IdsMatchKeys(reg) && IdsMatchKeys(payload.files.GetOr(map[]))
    ensures IdsMatchKeys(RestoreFiles(reg, payload, vfile).files)
  {
    if payload.files.Some? {
      var incoming := payload.files.value;
      var r := RestoreFiles(reg, payload, vfile).files;
      forall k | k in incoming
        ensures r[k].id == Some(k)
      {
        assert Keeps(vfile(incoming[k]), incoming[k]);
      }
    }
  }
}
