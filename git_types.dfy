/**
  The status flags the core reads from LibGit2Sharp.  LibGit2Sharp is not part
  of this model; its `FileStatus` flags enum and `ChangeKind` enum are given
  here with the values that library (and libgit2) assigns them.
 */
module GitTypes {
  import opened FlagHelper

  // FileStatus: one bit per state of a path
  const Unaltered: Bits := {}
  const NewInIndex: Bits := Bit(0)
  const ModifiedInIndex: Bits := Bit(1)
  const DeletedFromIndex: Bits := Bit(2)
  const RenamedInIndex: Bits := Bit(3)
  const TypeChangeInIndex: Bits := Bit(4)
  const NewInWorkdir: Bits := Bit(7)
  const ModifiedInWorkdir: Bits := Bit(8)
  const DeletedFromWorkdir: Bits := Bit(9)
  const TypeChangeInWorkdir: Bits := Bit(10)
  const RenamedInWorkdir: Bits := Bit(11)
  const Unreadable: Bits := Bit(12)
  const Ignored: Bits := Bit(14)
  const Conflicted: Bits := Bit(15)
  const Nonexistent: Bits := Bit(31)

  /** The flags of a change in the working directory that staging would record. */
  const WorkdirChanges: Bits := ModifiedInWorkdir + NewInWorkdir + RenamedInWorkdir + TypeChangeInWorkdir + DeletedFromWorkdir

  /** The flags of a change recorded in the index that unstaging would undo. */
  const IndexChanges: Bits := ModifiedInIndex + NewInIndex + RenamedInIndex + TypeChangeInIndex + DeletedFromIndex

  // ChangeKind: a plain (non-flags) enum of LibGit2Sharp, by its integer value
  const Unmodified: int := 0
  const Added: int := 1
  const Deleted: int := 2
  const Modified: int := 3
  const Renamed: int := 4
  const Copied: int := 5
  const KindIgnored: int := 6
  const Untracked: int := 7
  const TypeChanged: int := 8
  const KindUnreadable: int := 9
  const KindConflicted: int := 10

  /** A status snapshot entry: a repository-relative path and its flags. */
  datatype StatusEntry = StatusEntry(path: string, status: Bits)
}
