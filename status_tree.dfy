/**
  The status tree of GitManager.cs (`StatusTreeClass`, `StatusTreeEntry`): a
  trie built from a flat status snapshot, keyed by the '\\'-separated chunks of
  each path with ".meta" removed, whose nodes accumulate the flags of every
  entry below them.

  A `StatusTreeEntry` is only ever reachable from its one parent dictionary, so
  the nested dictionaries are modelled as a value: a `Node` holding a `map` of
  its children.  The dictionary at the root is the mutable field of
  `StatusTreeClass`.
 */
module StatusTree {
  import opened Wrappers
  import opened FlagHelper
  import opened GitTypes
  import opened Text
  import opened GitPaths

  /** `StatusTreeEntry`: its depth, its accumulated flags, its force flag and its children. */
  datatype Node = Node(depth: int, state: Bits, forceStatus: bool, children: map<string, Node>)

  /** The settings the build reads: `ShowEmptyFolders` and `ProjectStatusOverlayDepth`.  The file
      system is not modelled: `emptyFolders` holds the directories that exist and are empty. */
  datatype BuildSettings = BuildSettings(showEmptyFolders: bool, overlayDepth: int, emptyFolders: set<string>)

  /** The keys an entry's path is stored under: its chunks split on '\\', with ".meta" removed from each. */
  function TreeKeys(path: string): (r: seq<string>)
    ensures |r| == |SplitAll(path, '\\')| >= 1
    ensures forall i :: 0 <= i < |r| ==> r[i] == RemoveAll(SplitAll(path, '\\')[i], MetaExtension)
  {
    var pieces := SplitAll(path, '\\');
    seq(|pieces|, i requires 0 <= i < |pieces| => RemoveAll(pieces[i], MetaExtension))
  }

  /** The status `Build` files an entry under: `Ignored` for an empty folder's meta when empty folders are hidden. */
  function EffectiveStatus(entry: StatusEntry, settings: BuildSettings): (r: Bits)
    ensures r == entry.status || r == Ignored
    ensures settings.showEmptyFolders ==> r == entry.status
  {
    if !settings.showEmptyFolders && IsEmptyFolderMeta(entry.path, settings.emptyFolders) then Ignored else entry.status
  }

  /** `AddRecursive`: ORs `status` into the node for `keys[index]` (created at depth `index` when missing),
      forces it when fewer than `overlayDepth + 1` chunks remain, and descends into its children. */
  function AddRecursive(index: nat, entries: map<string, Node>, keys: seq<string>, status: Bits, overlayDepth: int): (r: map<string, Node>)
    requires index < |keys|
    ensures r.Keys == entries.Keys + {keys[index]}
    ensures forall k :: k in entries && k != keys[index] ==> r[k] == entries[k]
    decreases |keys| - index, 1
  {
    entries[keys[index] := AddedNode(index, entries, keys, status, overlayDepth)]
  }

  /** The node `AddRecursive` stores under `keys[index]`. */
  function AddedNode(index: nat, entries: map<string, Node>, keys: seq<string>, status: Bits, overlayDepth: int): (r: Node)
    requires index < |keys|
    ensures r.depth == if keys[index] in entries then entries[keys[index]].depth else index
    decreases |keys| - index, 0
  {
    var chunk := keys[index];
    var entry :=
      if chunk in entries then entries[chunk].(state := SetFlagsTo(entries[chunk].state, status, true))
      else Node(index, SetFlags({}, status), false, map[]);
    var forced := if |keys| - index < overlayDepth + 1 then entry.(forceStatus := true) else entry;
    if index < |keys| - 1 then forced.(children := AddRecursive(index + 1, forced.children, keys, status, overlayDepth))
    else forced
  }

  /** Adds one snapshot entry to the tree, as one iteration of `Build` does. */
  function AddEntry(entries: map<string, Node>, entry: StatusEntry, settings: BuildSettings): map<string, Node>
  {
    AddRecursive(0, entries, TreeKeys(entry.path), EffectiveStatus(entry, settings), settings.overlayDepth)
  }

  /** The tree after adding the snapshot entries in order. */
  function BuildFrom(entries: map<string, Node>, status: seq<StatusEntry>, settings: BuildSettings): map<string, Node>
  {
    if status == [] then entries
    else AddEntry(BuildFrom(entries, status[..|status| - 1], settings), status[|status| - 1], settings)
  }

  /** `GetStatusRecursive`: descends one chunk per level; no node for an empty path or a missing chunk. */
  function GetStatusRecursive(path: seq<string>, entries: map<string, Node>): (r: Option<Node>)
    ensures path == [] ==> r == None
    ensures r.Some? ==> path[0] in entries
    ensures |path| == 1 && path[0] in entries ==> r == Some(entries[path[0]])
    decreases |path|
  {
    if |path| == 0 then None
    else if path[0] in entries then
      if |path| > 1 then GetStatusRecursive(path[1..], entries[path[0]].children) else Some(entries[path[0]])
    else None
  }

  /** `StatusTreeClass`: the root dictionary of the tree. */
  class StatusTreeClass {
    var entries: map<string, Node>

    /** The two-argument constructor: an empty tree, then `Build` of the snapshot. */
    constructor (status: seq<StatusEntry>, settings: BuildSettings)
      ensures entries == BuildFrom(map[], status, settings)
    {
      entries := map[];
      new;
      Build(status, settings);
    }

    /** `Build`: adds every snapshot entry in order. */
    method Build(status: seq<StatusEntry>, settings: BuildSettings)
      modifies this
      ensures entries == BuildFrom(old(entries), status, settings)
    {
      var start := entries;
      var k := 0;
      while k < |status|
        invariant 0 <= k <= |status|
        invariant entries == BuildFrom(start, status[..k], settings)
      {
        assert status[..k + 1][..k] == status[..k];
        entries := AddEntry(entries, status[k], settings);
        k := k + 1;
      }
      assert status[..k] == status;
    }

    /** `GetStatus`: the node reached by the path's non-empty '/'-separated chunks, if any. */
    function GetStatus(path: string): (r: Option<Node>)
      reads this
      ensures r.Some? ==> SplitNonEmpty(path, '/') != [] && SplitNonEmpty(path, '/')[0] in entries
    {
      GetStatusRecursive(SplitNonEmpty(path, '/'), entries)
    }
  }

  // ---------------------------------------------------------------------------
  // What a node records, independently of the tree

  /** The part of a node a lookup reports, without its children. */
  datatype Info = Info(depth: int, state: Bits, forceStatus: bool)

  function InfoOf(n: Option<Node>): Option<Info>
  {
    if n.None? then None else Some(Info(n.value.depth, n.value.state, n.value.forceStatus))
  }

  /** A node after one more entry passes through it: created with the entry's flags, or OR-ed and forced. */
  function Merge(before: Option<Info>, depth: int, status: Bits, force: bool): (r: Info)
    ensures status <= r.state
    ensures before.Some? ==> r.depth == before.value.depth && before.value.state <= r.state
    ensures r.forceStatus <==> force || (before.Some? && before.value.forceStatus)
  {
    if before.None? then Info(depth, status, force)
    else Info(before.value.depth, before.value.state + status, before.value.forceStatus || force)
  }

  /** The chunks `q` occur in `keys` starting at `index`. */
  predicate PassesThrough(keys: seq<string>, index: nat, q: seq<string>)
  {
    index + |q| <= |keys| && keys[index..index + |q|] == q
  }

  /** The snapshot entry is stored under a node whose key path is `q`. */
  predicate Reaches(entry: StatusEntry, q: seq<string>)
  {
    PassesThrough(TreeKeys(entry.path), 0, q)
  }

  /** Whether the entry forces the node at key path `q`. */
  predicate Forces(entry: StatusEntry, q: seq<string>, settings: BuildSettings)
  {
    |TreeKeys(entry.path)| - (|q| - 1) < settings.overlayDepth + 1
  }

  /** What the node at key path `q` records, folded over the snapshot without building a tree. */
  function Expected(status: seq<StatusEntry>, q: seq<string>, settings: BuildSettings): Option<Info>
  {
    if status == [] then None
    else
      var before := Expected(status[..|status| - 1], q, settings);
      var e := status[|status| - 1];
      if Reaches(e, q) then Some(Merge(before, |q| - 1, EffectiveStatus(e, settings), Forces(e, q, settings)))
      else before
  }

  // ---------------------------------------------------------------------------
  // Properties

  lemma PassesThroughStep(keys: seq<string>, index: nat, q: seq<string>)
    requires index < |keys| && |q| > 1
    ensures PassesThrough(keys, index, q) <==> keys[index] == q[0] && PassesThrough(keys, index + 1, q[1..])
  {
    if index + |q| <= |keys| {
      assert keys[index..index + |q|] == [keys[index]] + keys[index + 1..index + 1 + |q[1..]|];
      assert q == [q[0]] + q[1..];
    }
  }

  /** The stored node records what `Merge` makes of the old one, and its children are the old children
      with the rest of the key path added. */
  lemma AddedNodeSpec(index: nat, entries: map<string, Node>, keys: seq<string>, status: Bits, overlayDepth: int)
    requires index < |keys|
    ensures var chunk := keys[index];
      var node := AddedNode(index, entries, keys, status, overlayDepth);
      var previous := if chunk in entries then Some(entries[chunk]) else None;
      var oldChildren := if chunk in entries then entries[chunk].children else map[];
      && InfoOf(Some(node)) == Some(Merge(InfoOf(previous), index, status, |keys| - index < overlayDepth + 1))
      && node.children == if index < |keys| - 1 then AddRecursive(index + 1, oldChildren, keys, status, overlayDepth) else oldChildren
  {
    assert SetFlags({}, status) == status;
  }

  /** One `AddRecursive` changes exactly the nodes on the added key path, each as `Merge` says. */
  lemma {:induction false} AddRecursiveSpec(index: nat, entries: map<string, Node>, keys: seq<string>, status: Bits, overlayDepth: int, q: seq<string>)
    requires index < |keys| && q != []
    ensures InfoOf(GetStatusRecursive(q, AddRecursive(index, entries, keys, status, overlayDepth))) ==
      if PassesThrough(keys, index, q)
      then Some(Merge(InfoOf(GetStatusRecursive(q, entries)), index + |q| - 1, status, |keys| - (index + |q| - 1) < overlayDepth + 1))
      else InfoOf(GetStatusRecursive(q, entries))
    decreases |keys| - index
  {
    var chunk := keys[index];
    var result := AddRecursive(index, entries, keys, status, overlayDepth);
    var done := AddedNode(index, entries, keys, status, overlayDepth);
    if q[0] != chunk {
      if |q| > 1 {
        PassesThroughStep(keys, index, q);
      } else {
        assert keys[index..index + 1] == [chunk];
      }
    } else if |q| == 1 {
      assert keys[index..index + 1] == [chunk];
      assert GetStatusRecursive(q, result) == Some(done);
      AddedNodeSpec(index, entries, keys, status, overlayDepth);
    } else {
      PassesThroughStep(keys, index, q);
      AddedNodeSpec(index, entries, keys, status, overlayDepth);
      assert GetStatusRecursive(q, result) == GetStatusRecursive(q[1..], done.children);
      var oldChildren := if chunk in entries then entries[chunk].children else map[];
      if chunk !in entries {
        assert GetStatusRecursive(q[1..], map[]) == None;
      } else {
        assert GetStatusRecursive(q, entries) == GetStatusRecursive(q[1..], oldChildren);
      }
      if index < |keys| - 1 {
        AddRecursiveSpec(index + 1, oldChildren, keys, status, overlayDepth, q[1..]);
      } else {
        assert !PassesThrough(keys, index, q);
      }
    }
  }

  /** Looking up a built tree finds exactly what `Expected` folds from the snapshot. */
  lemma {:induction false} BuildMatchesExpected(status: seq<StatusEntry>, q: seq<string>, settings: BuildSettings)
    requires q != []
    ensures InfoOf(GetStatusRecursive(q, BuildFrom(map[], status, settings))) == Expected(status, q, settings)
  {
    if status != [] {
      var init := status[..|status| - 1];
      var e := status[|status| - 1];
      BuildMatchesExpected(init, q, settings);
      AddRecursiveSpec(0, BuildFrom(map[], init, settings), TreeKeys(e.path), EffectiveStatus(e, settings), settings.overlayDepth, q);
    }
  }

  /** A node exists exactly for the key paths some entry reaches, at depth one less than its key path's length. */
  lemma {:induction false} ExpectedExists(status: seq<StatusEntry>, q: seq<string>, settings: BuildSettings)
    ensures Expected(status, q, settings).Some? <==> exists i :: 0 <= i < |status| && Reaches(status[i], q)
    ensures Expected(status, q, settings).Some? ==> Expected(status, q, settings).value.depth == |q| - 1
  {
    if status != [] {
      var init := status[..|status| - 1];
      ExpectedExists(init, q, settings);
      if exists i :: 0 <= i < |init| && Reaches(init[i], q) {
        var i :| 0 <= i < |init| && Reaches(init[i], q);
        assert status[i] == init[i];
      }
      if exists i :: 0 <= i < |status| && Reaches(status[i], q) {
        var i :| 0 <= i < |status| && Reaches(status[i], q);
        if i < |init| {
          assert init[i] == status[i];
        }
      }
    }
  }

  /** A node's flags are the OR of the effective flags of exactly the entries that reach it. */
  lemma {:induction false} ExpectedState(status: seq<StatusEntry>, q: seq<string>, settings: BuildSettings)
    requires Expected(status, q, settings).Some?
    ensures forall i :: 0 <= i < |status| && Reaches(status[i], q) ==> EffectiveStatus(status[i], settings) <= Expected(status, q, settings).value.state
    ensures forall b :: b in Expected(status, q, settings).value.state ==>
      exists i :: 0 <= i < |status| && Reaches(status[i], q) && b in EffectiveStatus(status[i], settings)
  {
    var init := status[..|status| - 1];
    var e := status[|status| - 1];
    var r := Expected(status, q, settings).value;
    assert forall i :: 0 <= i < |init| ==> init[i] == status[i];
    if Expected(init, q, settings).Some? {
      ExpectedState(init, q, settings);
    } else {
      ExpectedExists(init, q, settings);
    }
    forall b | b in r.state
      ensures exists i :: 0 <= i < |status| && Reaches(status[i], q) && b in EffectiveStatus(status[i], settings)
    {
      if !(Reaches(e, q) && b in EffectiveStatus(e, settings)) {
        var i :| 0 <= i < |init| && Reaches(init[i], q) && b in EffectiveStatus(init[i], settings);
        assert status[i] == init[i];
      }
    }
  }

  /** A node is forced exactly when some entry reaching it has fewer than `overlayDepth + 1` chunks from it on. */
  lemma {:induction false} ExpectedForce(status: seq<StatusEntry>, q: seq<string>, settings: BuildSettings)
    requires Expected(status, q, settings).Some?
    ensures Expected(status, q, settings).value.forceStatus <==>
      exists i :: 0 <= i < |status| && Reaches(status[i], q) && Forces(status[i], q, settings)
  {
    var init := status[..|status| - 1];
    if Expected(init, q, settings).Some? {
      ExpectedForce(init, q, settings);
    } else {
      ExpectedExists(init, q, settings);
    }
    if exists i :: 0 <= i < |init| && Reaches(init[i], q) && Forces(init[i], q, settings) {
      var i :| 0 <= i < |init| && Reaches(init[i], q) && Forces(init[i], q, settings);
      assert status[i] == init[i];
    }
    if exists i :: 0 <= i < |status| && Reaches(status[i], q) && Forces(status[i], q, settings) {
      var i :| 0 <= i < |status| && Reaches(status[i], q) && Forces(status[i], q, settings);
      if i < |init| {
        assert init[i] == status[i];
      }
    }
  }

  /** The tree built from a snapshot: a lookup by key path finds a node exactly when some entry
      reaches it; the node's depth is its key path's length less one, its flags are the OR of the
      reaching entries' flags, and it is forced exactly when one of those entries is deep enough. */
  lemma BuildLookup(status: seq<StatusEntry>, q: seq<string>, settings: BuildSettings)
    requires q != []
    ensures var n := GetStatusRecursive(q, BuildFrom(map[], status, settings));
      && (n.Some? <==> exists i :: 0 <= i < |status| && Reaches(status[i], q))
      && (n.Some? ==> n.value.depth == |q| - 1)
      && (n.Some? ==> forall i :: 0 <= i < |status| && Reaches(status[i], q) ==> EffectiveStatus(status[i], settings) <= n.value.state)
      && (n.Some? ==> forall b :: b in n.value.state ==>
            exists i :: 0 <= i < |status| && Reaches(status[i], q) && b in EffectiveStatus(status[i], settings))
      && (n.Some? ==> (n.value.forceStatus <==> exists i :: 0 <= i < |status| && Reaches(status[i], q) && Forces(status[i], q, settings)))
  {
    BuildMatchesExpected(status, q, settings);
    ExpectedExists(status, q, settings);
    if Expected(status, q, settings).Some? {
      ExpectedState(status, q, settings);
      ExpectedForce(status, q, settings);
    }
  }

  /** An asset and its ".meta" file are stored under the same keys, so they share every node. */
  lemma MetaSharesKeys(path: string)
    ensures TreeKeys(MetaPathFromAsset(path)) == TreeKeys(path)
  {
    var pieces := SplitAll(path, '\\');
    var n := |pieces|;
    SplitAllExtendLast(path, '\\', MetaExtension);
    var metaPieces := SplitAll(MetaPathFromAsset(path), '\\');
    assert metaPieces == pieces[..n - 1] + [pieces[n - 1] + MetaExtension];
    var keys, metaKeys := TreeKeys(path), TreeKeys(MetaPathFromAsset(path));
    forall i | 0 <= i < n ensures metaKeys[i] == keys[i] {
      if i < n - 1 {
        assert metaPieces[i] == pieces[i];
      } else {
        assert metaPieces[i] == pieces[i] + MetaExtension;
        RemoveMetaSuffix(pieces[i]);
      }
    }
  }

  /** `GetStatus` of an empty path finds nothing, and doubled '/' separators do not matter. */
  lemma GetStatusPaths(tree: StatusTreeClass, p: string, q: string)
    ensures tree.GetStatus([]) == None
    ensures tree.GetStatus(p + ['/', '/'] + q) == tree.GetStatus(p + ['/'] + q)
  {
    assert SplitAll([], '/') == [[]];
    DoubledSeparator(p, '/', q);
  }
}
