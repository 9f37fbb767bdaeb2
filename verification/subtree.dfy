/**
 Recursive directory deletion. `deleteDirectory` asks the editor for the children of the
 directory once, deletes each of them in turn (a subdirectory by recursion, anything else by
 `deleteFile`) and only then omits the directory itself.
 */
module Subtree {
  import opened Wrappers
  import opened Nodes
  import Actions

  /** `Editor/getChildren(a)`: the keys of the entries whose parent is `a`. */
  function Children(reg: Registry, a: Id): set<Id>
  {
    set k | k in reg && reg[k].parent == Under(a)
  }

  /**
   Termination witness over the ids that `height` ranks: a directory with an id whose parent
   link names a ranked id is ranked itself, strictly below its parent. Ids outside `height`
   are not constrained, so a directory cycle elsewhere in the registry does not matter;
   a cycle under the deleted id cannot be ranked, and on it the recursion need not end.
   */
  ghost predicate Ranked(reg: Registry, height: map<Id, nat>)
  {
    forall k ::
      (k in reg && IsDirectory(reg[k]) && Truthy(reg[k].id) && reg[k].parent.Under? &&
       reg[k].parent.dir in height) ==>
      && reg[k].id.value in height
      && height[reg[k].id.value] < height[reg[k].parent.dir]
  }

  /** Every omitted directory of `reg` is ranked by `height`. */
  ghost predicate OmittedDirectoriesRanked(reg: Registry, log: seq<Id>, height: map<Id, nat>)
  {
    forall x :: x in log && x in reg && IsDirectory(reg[x]) ==> x in height
  }

  function Level(height: map<Id, nat>, id: Option<Id>): nat
  {
    if Truthy(id) && id.value in height then height[id.value] else 0
  }

  /** The ids that one `deleteFile` call commits an `omit` for. */
  function Omitted(id: Option<Id>): seq<Id>
  {
    if Truthy(id) then [id.value] else []
  }

  /** Omitting `x` could strand entries: `x` is a directory of `reg`, or no entry at all. */
  predicate MayHaveChildren(reg: Registry, x: Id)
  {
    x !in reg || IsDirectory(reg[x])
  }

  /** Every entry of `reg` whose parent is the id omitted at position `i` was omitted earlier. */
  predicate ChildrenGoneBefore(reg: Registry, log: seq<Id>, i: nat)
    requires i < |log|
  {
    forall k :: k in reg && reg[k].parent == Under(log[i]) ==> k in log[..i]
  }

  /** Post-order: no directory is omitted while one of its children is still present. */
  predicate PostOrder(reg: Registry, log: seq<Id>)
  {
    forall i :: 0 <= i < |log| && MayHaveChildren(reg, log[i]) ==> ChildrenGoneBefore(reg, log, i)
  }

  /** `x` is `a`, a child of `a`, or a child of an omitted directory of `reg`. */
  predicate OmittedUnder(reg: Registry, log: seq<Id>, a: Id, x: Id)
  {
    || x == a
    || (&& x in reg
        && reg[x].parent.Under?
        && var p := reg[x].parent.dir;
           p == a || (p in log && p in reg && IsDirectory(reg[p])))
  }

  predicate WithinSubtree(reg: Registry, log: seq<Id>, a: Id)
  {
    forall x :: x in log ==> OmittedUnder(reg, log, a, x)
  }

  /**
   `deleteDirectory`: returns the registry after the last commit and `log`, the ids of the
   `omit` commits in the order they happen. The children are taken from the registry as it is
   when the call starts, in an order the editor's getter chooses and this model leaves open.
   */
  method DeleteDirectory(reg: Registry, id: Option<Id>, ghost height: map<Id, nat>)
    returns (r: Registry, log: seq<Id>)
    requires Ranked(reg, height)
    requires Truthy(id) ==> id.value in height
    ensures SubMap(r, reg)
    ensures forall k :: k in reg ==> (k in r <==> k !in log)
    ensures !Truthy(id) ==> r == reg && log == []
    ensures Truthy(id) ==> |log| > 0 && log[|log| - 1] == id.value && id.value !in r
    ensures IdsMatchKeys(reg) && Truthy(id) ==>
      forall k :: k in Children(reg, id.value) ==> k in log[..|log| - 1]
    ensures IdsMatchKeys(reg) ==> PostOrder(reg, log)
    ensures IdsMatchKeys(reg) && Truthy(id) ==> WithinSubtree(reg, log, id.value)
    ensures IdsMatchKeys(reg) ==> OmittedDirectoriesRanked(reg, log, height)
    decreases Level(height, id), if Truthy(id) then 1 else 0
  {
    if !Truthy(id) {
      return reg, [];
    }
    var a := id.value;
    var kids := Children(reg, a);
    var pending := kids;
    r, log := reg, [];
    while pending != {}
      invariant pending <= kids
      invariant SubMap(r, reg)
      invariant forall k :: k in reg ==> (k in r <==> k !in log)
      invariant IdsMatchKeys(reg) ==> forall c :: c in kids && c !in pending ==> c in log
      invariant IdsMatchKeys(reg) ==> PostOrder(reg, log)
      invariant IdsMatchKeys(reg) ==> WithinSubtree(reg, log, a)
      invariant IdsMatchKeys(reg) ==> OmittedDirectoriesRanked(reg, log, height)
      decreases pending
    {
      var c :| c in pending;
      var child := reg[c];
      var omitted: seq<Id>;
      if IsDirectory(child) {
        RankedSubMap(reg, r, height);
        var next: Registry;
        next, omitted := DeleteDirectory(r, child.id, height);
        if IdsMatchKeys(reg) {
          IdsMatchKeysSubMap(reg, r);
          PostOrderExtend(reg, r, log, omitted);
          WithinExtend(reg, r, log, omitted, a, c);
          RankedLogExtend(reg, r, log, omitted, c, height);
        }
        r := next;
      } else {
        r, omitted := Actions.DeleteFile(r, child.id), Omitted(child.id);
        if IdsMatchKeys(reg) {
          FileStepExtend(reg, log, a, c);
          assert OmittedDirectoriesRanked(reg, log + omitted, height);
        }
      }
      log := log + omitted;
      pending := pending - {c};
    }
    if IdsMatchKeys(reg) {
      FinalStepExtend(reg, log, a);
      assert OmittedDirectoriesRanked(reg, log + [a], height);
    }
    r, log := r - {a}, log + [a];
  }

  lemma RankedSubMap(reg: Registry, r: Registry, height: map<Id, nat>)
    requires Ranked(reg, height) && SubMap(r, reg)
    ensures Ranked(r, height)
  {
  }

  lemma IdsMatchKeysSubMap(reg: Registry, r: Registry)
    requires IdsMatchKeys(reg) && SubMap(r, reg)
    ensures IdsMatchKeys(r)
  {
  }

  /** The omissions of a nested call, ordered for its own registry, stay ordered for `reg`. */
  lemma PostOrderExtend(reg: Registry, r: Registry, log: seq<Id>, sub: seq<Id>)
    requires SubMap(r, reg)
    requires forall k :: k in reg ==> (k in r <==> k !in log)
    requires PostOrder(reg, log) && PostOrder(r, sub)
    ensures PostOrder(reg, log + sub)
  {
    var all := log + sub;
    forall i | 0 <= i < |all| && MayHaveChildren(reg, all[i])
      ensures ChildrenGoneBefore(reg, all, i)
    {
      if i < |log| {
        assert all[..i] == log[..i];
        assert all[i] == log[i];
        assert ChildrenGoneBefore(reg, log, i);
      } else {
        var j := i - |log|;
        assert all[i] == sub[j];
        assert all[..i] == log + sub[..j];
        assert MayHaveChildren(r, sub[j]);
        assert ChildrenGoneBefore(r, sub, j);
        forall k | k in reg && reg[k].parent == Under(all[i])
          ensures k in all[..i]
        {
          if k in r {
            assert k in sub[..j];
          } else {
            assert k in log;
          }
        }
      }
    }
  }

  /** A subdirectory's omissions all hang off the directory being deleted. */
  lemma WithinExtend(reg: Registry, r: Registry, log: seq<Id>, sub: seq<Id>, a: Id, c: Id)
    requires SubMap(r, reg)
    requires c in reg && reg[c].parent == Under(a) && IsDirectory(reg[c]) && c in sub
    requires WithinSubtree(reg, log, a) && WithinSubtree(r, sub, c)
    ensures WithinSubtree(reg, log + sub, a)
  {
    var all := log + sub;
    forall x | x in all
      ensures OmittedUnder(reg, all, a, x)
    {
      if x in log {
        assert OmittedUnder(reg, log, a, x);
      } else {
        assert OmittedUnder(r, sub, c, x);
      }
    }
  }

  /** A subdirectory's omitted directories are ranked: all but the subdirectory itself are still in `r`. */
  lemma RankedLogExtend(reg: Registry, r: Registry, log: seq<Id>, sub: seq<Id>, c: Id, height: map<Id, nat>)
    requires SubMap(r, reg) && c in height
    requires OmittedDirectoriesRanked(reg, log, height) && OmittedDirectoriesRanked(r, sub, height)
    requires WithinSubtree(r, sub, c)
    ensures OmittedDirectoriesRanked(reg, log + sub, height)
  {
    forall x | x in log + sub && x in reg && IsDirectory(reg[x])
      ensures x in height
    {
      if x !in log && x != c {
        assert OmittedUnder(r, sub, c, x);
      }
    }
  }

  /**
   Reparenting any entry under an id that `height` does not rank keeps the witness: a
   directory made its own parent elsewhere does not stop a deletion here.
   */
  lemma MoveToUnrankedKeepsRanked(reg: Registry, height: map<Id, nat>, id: Option<Id>, directoryId: Parent)
    requires Ranked(reg, height)
    requires !directoryId.Under? || directoryId.dir !in height
    ensures Ranked(Actions.MoveFile(reg, id, directoryId), height)
  {
  }

  /** Omitting a file child keeps both orderings. */
  lemma FileStepExtend(reg: Registry, log: seq<Id>, a: Id, c: Id)
    requires IdsMatchKeys(reg)
    requires c in reg && reg[c].parent == Under(a) && !IsDirectory(reg[c])
    requires PostOrder(reg, log) && WithinSubtree(reg, log, a)
    ensures Omitted(reg[c].id) == [c]
    ensures PostOrder(reg, log + [c]) && WithinSubtree(reg, log + [c], a)
  {
    var all := log + [c];
    forall i | 0 <= i < |all| && MayHaveChildren(reg, all[i])
      ensures ChildrenGoneBefore(reg, all, i)
    {
      assert i < |log|;
      assert all[..i] == log[..i];
      assert all[i] == log[i];
      assert ChildrenGoneBefore(reg, log, i);
    }
    forall x | x in all
      ensures OmittedUnder(reg, all, a, x)
    {
      if x in log {
        assert OmittedUnder(reg, log, a, x);
      }
    }
  }

  /** Omitting the directory itself after all its children keeps both orderings. */
  lemma FinalStepExtend(reg: Registry, log: seq<Id>, a: Id)
    requires forall k :: k in Children(reg, a) ==> k in log
    requires PostOrder(reg, log) && WithinSubtree(reg, log, a)
    ensures PostOrder(reg, log + [a]) && WithinSubtree(reg, log + [a], a)
  {
    var all := log + [a];
    assert all[..|log|] == log;
    forall i | 0 <= i < |all| && MayHaveChildren(reg, all[i])
      ensures ChildrenGoneBefore(reg, all, i)
    {
      if i < |log| {
        assert all[..i] == log[..i];
        assert all[i] == log[i];
        assert ChildrenGoneBefore(reg, log, i);
      } else {
        forall k | k in reg && reg[k].parent == Under(all[i])
          ensures k in all[..i]
        {
          assert k in Children(reg, a);
        }
      }
    }
    forall x | x in all
      ensures OmittedUnder(reg, all, a, x)
    {
      if x in log {
        assert OmittedUnder(reg, log, a, x);
      }
    }
  }

  /** `k` reaches `a` by following at most `n + 1` parent links through entries of `reg`. */
  ghost predicate Descends(reg: Registry, k: Id, a: Id, n: nat)
    decreases n
  {
    && k in reg
    && reg[k].parent.Under?
    && (reg[k].parent.dir == a || (n > 0 && Descends(reg, reg[k].parent.dir, a, n - 1)))
  }

  /**
   No descendant survives: when every parent link names a directory, an entry reachable from
   the deleted id by parent links at call time is gone from the result.
   */
  lemma {:induction false} NoDescendantSurvives(reg: Registry, r: Registry, log: seq<Id>, a: Id, k: Id, n: nat)
    requires ParentsAreDirectories(reg)
    requires forall x :: x in reg ==> (x in r <==> x !in log)
    requires forall x :: x in Children(reg, a) ==> x in log
    requires PostOrder(reg, log)
    requires Descends(reg, k, a, n)
    ensures k !in r
    decreases n
  {
    var p := reg[k].parent.dir;
    if p == a {
      assert k in Children(reg, a);
    } else {
      NoDescendantSurvives(reg, r, log, a, p, n - 1);
      assert p in log;
      var i :| 0 <= i < |log| && log[i] == p;
      assert MayHaveChildren(reg, log[i]);
      assert ChildrenGoneBefore(reg, log, i);
      assert k in log[..i];
    }
  }

  /** The ids of the omitted entries whose heights exceed that of `x`. */
  ghost function Above(log: seq<Id>, height: map<Id, nat>, x: Id): set<Id>
  {
    set y | y in log && y in height && x in height && height[y] > height[x]
  }

  lemma ProperSubsetSmaller(small: set<Id>, big: set<Id>)
    requires small < big
    ensures |small| < |big|
  {
    var rest := big - small;
    if rest == {} {
      assert false;
    }
    var y :| y in rest;
    assert big == small + rest;
    assert small * rest == {};
    assert |rest| >= 1 by {
      assert {y} <= rest;
      assert rest == {y} + (rest - {y});
    }
  }

  /**
   Nothing else is deleted: every omitted entry other than `a` itself reaches `a` by parent
   links, so every entry that does not descend from `a` is still there.
   */
  lemma {:induction false} OmittedDescends(reg: Registry, log: seq<Id>, a: Id, height: map<Id, nat>, x: Id)
    returns (n: nat)
    requires IdsMatchKeys(reg) && Ranked(reg, height)
    requires WithinSubtree(reg, log, a) && OmittedDirectoriesRanked(reg, log, height)
    requires x in log && x in reg && x != a
    ensures Descends(reg, x, a, n)
    decreases if IsDirectory(reg[x]) then 0 else 1, |Above(log, height, x)|
  {
    assert OmittedUnder(reg, log, a, x);
    var p := reg[x].parent.dir;
    if p == a {
      n := 0;
    } else {
      assert p in log && p in reg && IsDirectory(reg[p]);
      assert p in height;
      if IsDirectory(reg[x]) {
        assert x in height && p in height && height[x] < height[p];
        assert p in Above(log, height, x);
        assert p !in Above(log, height, p);
        ProperSubsetSmaller(Above(log, height, p), Above(log, height, x));
      }
      var m := OmittedDescends(reg, log, a, height, p);
      n := m + 1;
    }
  }

  /**
   `deleteDirectory` seen from one entry: when ids equal keys and parent links name
   directories, an entry other than the directory is gone exactly when it descends from it,
   and an entry that stays is unchanged.
   */
  method DeleteSubtreeEntry(reg: Registry, id: Option<Id>, ghost height: map<Id, nat>, k: Id)
    returns (r: Registry, log: seq<Id>)
    requires Ranked(reg, height)
    requires Truthy(id) ==> id.value in height
    ensures k in r ==> k in reg && r[k] == reg[k]
    ensures IdsMatchKeys(reg) && ParentsAreDirectories(reg) && Truthy(id) && k in reg && k != id.value ==>
      (k !in r <==> exists n: nat :: Descends(reg, k, id.value, n))
  {
    r, log := DeleteDirectory(reg, id, height);
    if IdsMatchKeys(reg) && ParentsAreDirectories(reg) && Truthy(id) && k in reg && k != id.value {
      var a := id.value;
      forall n: nat | Descends(reg, k, a, n)
        ensures k !in r
      {
        NoDescendantSurvives(reg, r, log, a, k, n);
      }
      if k !in r {
        ghost var n := OmittedDescends(reg, log, a, height, k);
        assert Descends(reg, k, a, n);
      }
      assert (exists m: nat :: Descends(reg, k, a, m)) ==> k !in r;
      assert k !in r ==> exists m: nat :: Descends(reg, k, a, m);
    }
  }
}
