/**
  The static helpers of Assets/Plugins/UniGit/Editor/GitManager.cs that pair an
  asset path with its ".meta" sidecar and decide, from status flags, whether a
  path can be staged, unstaged or blamed.
 */
module GitPaths {
  import opened FlagHelper
  import opened GitTypes
  import opened Text

  const MetaExtension: string := ".meta"

  /** `AssetPathFromMeta`: drops a trailing ".meta"; other paths are returned unchanged. */
  function AssetPathFromMeta(metaPath: string): (r: string)
    ensures !EndsWith(metaPath, MetaExtension) ==> r == metaPath
    ensures EndsWith(metaPath, MetaExtension) ==> r + MetaExtension == metaPath
  {
    if EndsWith(metaPath, MetaExtension) then metaPath[..|metaPath| - 5] else metaPath
  }

  /** `MetaPathFromAsset`: appends ".meta". */
  function MetaPathFromAsset(assetPath: string): (r: string)
    ensures EndsWith(r, MetaExtension) && r != []
  {
    assetPath + MetaExtension
  }

  /** `GetPathWithMeta`: the path itself when it has an extension, then its partner when that is not empty. */
  function GetPathWithMeta(path: string): seq<string>
  {
    var partner := if EndsWith(path, MetaExtension) then AssetPathFromMeta(path) else MetaPathFromAsset(path);
    (if HasExtension(path) then [path] else []) + (if partner != [] then [partner] else [])
  }

  /** The partner `GetPathWithMeta` pairs a path with. */
  function Partner(path: string): string
  {
    if EndsWith(path, MetaExtension) then AssetPathFromMeta(path) else MetaPathFromAsset(path)
  }

  /** `GetPathsWithMeta`: `GetPathWithMeta` of every path, concatenated in order. */
  function GetPathsWithMeta(paths: seq<string>): (r: seq<string>)
    ensures forall x :: x in r <==> exists i :: 0 <= i < |paths| && x in GetPathWithMeta(paths[i])
  {
    if paths == [] then []
    else
      var rest := GetPathsWithMeta(paths[1..]);
      assert forall x :: x in rest <==> exists i :: 1 <= i < |paths| && x in GetPathWithMeta(paths[i]) by {
        forall x | x in rest ensures exists i :: 1 <= i < |paths| && x in GetPathWithMeta(paths[i]) {
          var j :| 0 <= j < |paths[1..]| && x in GetPathWithMeta(paths[1..][j]);
          assert x in GetPathWithMeta(paths[j + 1]);
        }
        forall x | exists i :: 1 <= i < |paths| && x in GetPathWithMeta(paths[i]) ensures x in rest {
          var i :| 1 <= i < |paths| && x in GetPathWithMeta(paths[i]);
          assert paths[1..][i - 1] == paths[i];
        }
      }
      GetPathWithMeta(paths[0]) + rest
  }

  /** `IsEmptyFolderMeta`: a ".meta" path whose asset path names an existing, empty directory.
      The file system is not modelled: `emptyFolders` is the set of directories that exist and are empty. */
  predicate IsEmptyFolderMeta(path: string, emptyFolders: set<string>)
  {
    EndsWith(path, MetaExtension) && path[..|path| - 5] in emptyFolders
  }

  /** `CanStage`: some change in the working directory. */
  predicate CanStage(fileStatus: Bits)
  {
    IsFlagSet(fileStatus, WorkdirChanges)
  }

  /** `CanUnstage`: some change recorded in the index. */
  predicate CanUnstage(fileStatus: Bits)
  {
    IsFlagSet(fileStatus, IndexChanges)
  }

  /** `CanBlame(FileStatus)`: neither new in the index, nor ignored, nor new in the working directory. */
  predicate CanBlame(fileStatus: Bits)
  {
    AreNotSet(fileStatus, [NewInIndex, Ignored, NewInWorkdir])
  }

  // ---------------------------------------------------------------------------
  // Properties

  /** An asset's meta path leads back to the asset, and a meta path's asset leads back to the meta path. */
  lemma MetaRoundTrip(path: string)
    ensures AssetPathFromMeta(MetaPathFromAsset(path)) == path
    ensures EndsWith(path, MetaExtension) ==> MetaPathFromAsset(AssetPathFromMeta(path)) == path
  {
    var m := MetaPathFromAsset(path);
    assert m[..|m| - 5] == path;
  }

  /** `GetPathsWithMeta` is `SelectMany`: one path yields what `GetPathWithMeta` yields for it,
      and the paths of a concatenation are the paths of each part, in order. */
  lemma PathsWithMetaSingle(path: string)
    ensures GetPathsWithMeta([path]) == GetPathWithMeta(path)
  {
    assert [path][1..] == [];
  }

  lemma {:induction false} PathsWithMetaAppend(a: seq<string>, b: seq<string>)
    ensures GetPathsWithMeta(a + b) == GetPathsWithMeta(a) + GetPathsWithMeta(b)
  {
    if a == [] {
      assert a + b == b;
    } else {
      assert (a + b)[0] == a[0];
      assert (a + b)[1..] == a[1..] + b;
      PathsWithMetaAppend(a[1..], b);
    }
  }

  /** `GetPathWithMeta` yields at most two paths: the path itself exactly when it has an extension,
      and its partner exactly when the partner is not empty; a meta path always yields itself. */
  lemma PathWithMetaShape(path: string)
    ensures |GetPathWithMeta(path)| <= 2
    ensures path in GetPathWithMeta(path) <==> HasExtension(path) || Partner(path) == path
    ensures HasExtension(path) ==> GetPathWithMeta(path)[0] == path
    ensures Partner(path) != [] <==> Partner(path) in GetPathWithMeta(path)
    ensures forall x :: x in GetPathWithMeta(path) ==> x == path || x == Partner(path)
    ensures EndsWith(path, MetaExtension) ==> HasExtension(path)
    ensures !EndsWith(path, MetaExtension) ==> MetaPathFromAsset(path) in GetPathWithMeta(path)
  {
    if EndsWith(path, MetaExtension) {
      var asset := AssetPathFromMeta(path);
      MetaHasExtension(asset);
    }
  }

  /** A workdir change of any kind makes a path stageable, and nothing else does. */
  lemma CanStageBits(s: Bits)
    ensures CanStage(s) <==> 7 in s || 8 in s || 9 in s || 10 in s || 11 in s
  {
    assert WorkdirChanges == {8, 7, 11, 10, 9};
  }

  /** A change of any kind recorded in the index makes a path unstageable, and nothing else does. */
  lemma CanUnstageBits(s: Bits)
    ensures CanUnstage(s) <==> 0 in s || 1 in s || 2 in s || 3 in s || 4 in s
  {
    assert IndexChanges == {1, 0, 3, 4, 2};
  }

  /** Blame is refused exactly for paths new in the index, ignored, or new in the working directory. */
  lemma CanBlameBits(s: Bits)
    ensures CanBlame(s) <==> 0 !in s && 14 !in s && 7 !in s
  {
    var flags := [NewInIndex, Ignored, NewInWorkdir];
    IsFlagSetPositions(s, 0, 0);
    IsFlagSetPositions(s, 14, 14);
    IsFlagSetPositions(s, 7, 7);
    assert AreNotSet(s, flags) <==> !IsFlagSet(s, flags[0]) && !IsFlagSet(s, flags[1]) && !IsFlagSet(s, flags[2]);
  }
}
