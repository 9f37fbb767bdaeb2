/**
 A concrete registry, a small well-formed tree, on which the export/restore round trip is
 shown to apply.
 */
module Sample {
  import opened Wrappers
  import opened Nodes
  import Snapshot

  /**
   An ordinary tree: a root directory `d1` with a `null` parent, holding a file `f1` and a
   directory `d2` that holds a file `f2`.
   */
  function SampleTree(): Registry
  {
    map[
      "d1" := Node(Some("d1"), Some("src"), Some(Directory), Root, Some(""), Some(false)),
      "f1" := Node(Some("f1"), Some("a.js"), Some(File), Under("d1"), Some("x"), Some(false)),
      "d2" := Node(Some("d2"), Some("lib"), Some(Directory), Under("d1"), Some(""), Some(false)),
      "f2" := Node(Some("f2"), Some("b.js"), Some(File), Under("d2"), Some("y"), Some(false))]
  }

  /** The round trip covers ordinary trees, root-level entries included. */
  lemma ExportRestoreRoundTripTree(vfile: Node -> Node)
    requires KeepsGiven(vfile)
    ensures IdsMatchKeys(SampleTree()) && ParentsAreDirectories(SampleTree())
    ensures Snapshot.RestoreFiles(SampleTree(), Snapshot.CreateExportPayload(SampleTree()), vfile) == Snapshot.Restore(SampleTree(), true)
  {
    var reg := SampleTree();
    assert reg.Keys == {"d1", "f1", "d2", "f2"};
    forall k | k in reg
      ensures Complete(reg[k]) && reg[k].id == Some(k) && k != ""
      ensures reg[k].parent.Under? && reg[k].parent.dir in reg ==> IsDirectory(reg[reg[k].parent.dir])
    {
      assert k == "d1" || k == "f1" || k == "d2" || k == "f2";
    }
    Snapshot.ExportRestoreRoundTrip(reg, vfile);
  }
}
