/**
  Editor/GitSettings.cs: the persisted settings (`GitSettingsJson`), the flag
  layouts of their enums, and the migration `Copy` from the obsolete
  `GitSettings` asset.  A C# `float` is copied and never computed with, so it
  is modelled as a `real`; a C# `string` that may be null is an `Option`.
 */
module Settings {
  import opened Wrappers
  import opened FlagHelper

  // ThreadingType
  const ThreadingStage: Bits := Bit(0)
  const ThreadingUnstage: Bits := Bit(1)
  const ThreadingStatus: Bits := Bit(2)
  const ThreadingStatusListGui: Bits := Bit(3)
  const ThreadingCommitListGui: Bits := Bit(4)

  /** `DefalutThreadingType`: status retrieval, the status list and the commit list run in the background. */
  const DefaultThreadingType: Bits := ThreadingStatus + ThreadingStatusListGui + ThreadingCommitListGui

  // RenameTypeEnum
  const RenameNone: Bits := {}
  const RenameInIndex: Bits := Bit(0)
  const RenameInWorkDir: Bits := Bit(1)
  const RenameAll: Bits := AllBits()

  // AnimationTypeEnum
  const AnimationNone: Bits := {}
  const AnimationAll: Bits := AllBits()

  /** The members shared by the two `ExternalsTypeEnum` declarations. */
  datatype External = Pull | Push | Fetch | Merge | Commit | Switch | Reset | Revert | Blame | Diff

  /** `GitSettings.ExternalsTypeEnum`, the obsolete asset's declaration. */
  function LegacyExternalBit(e: External): Bits
  {
    match e
    case Pull => Bit(0)
    case Push => Bit(1)
    case Fetch => Bit(2)
    case Merge => Bit(3)
    case Commit => Bit(4)
    case Switch => Bit(5)
    case Reset => Bit(6)
    case Revert => Bit(7)
    case Blame => Bit(8)
    case Diff => Bit(9)
  }

  /** `GitSettingsJson.ExternalsTypeEnum`. */
  function ExternalBit(e: External): Bits
  {
    match e
    case Pull => Bit(0)
    case Push => Bit(1)
    case Fetch => Bit(2)
    case Merge => Bit(3)
    case Commit => Bit(4)
    case Switch => Bit(5)
    case Reset => Bit(6)
    case Revert => Bit(7)
    case Blame => Bit(8)
    case Diff => Bit(9)
  }

  /** The obsolete `GitSettings` asset, only read by `Copy`. */
  datatype LegacySettings = LegacySettings(
    autoStage: bool,
    autoFetch: bool,
    maxCommits: int,
    externalsType: Bits,
    externalProgram: Option<string>,
    credentialsManager: Option<string>,
    projectStatusOverlayDepth: int,
    showEmptyFolders: bool,
    gitStatusMultithreaded: bool,
    useGavatar: bool,
    maxCommitTextAreaSize: real,
    detectRenames: bool)

  /** The `GitSettingsJson` fields no operation of this model reads or writes, kept together as one value. */
  datatype OtherSettings = OtherSettings(
    useSimpleContextMenus: bool,
    readFromFile: bool,
    disableGitLFS: bool,
    lazyMode: bool,
    trackSystemFiles: bool,
    useUnityConsole: bool,
    animationType: Bits,
    createFoldersForDriftingMeta: bool,
    activeSubModule: Option<string>,
    remoteToken: Option<string>)

  /** Every field of a `GitSettingsJson`, including `IsDirty`. */
  datatype SettingsData = SettingsData(
    autoStage: bool,
    autoFetch: bool,
    externalsType: Bits,
    externalProgram: Option<string>,
    credentialsManager: Option<string>,
    projectStatusOverlayDepth: int,
    showEmptyFolders: bool,
    threading: Bits,
    useGavatar: bool,
    maxCommitTextAreaSize: real,
    detectRenames: Bits,
    others: OtherSettings,
    isDirty: bool)

  /** The threading `Copy` derives from the obsolete multithreading switch. */
  function ThreadingFromLegacy(gitStatusMultithreaded: bool): Bits
  {
    if gitStatusMultithreaded then DefaultThreadingType else {}
  }

  /** The rename detection `Copy` derives from the obsolete switch. */
  function RenamesFromLegacy(detectRenames: bool): Bits
  {
    if detectRenames then RenameAll else RenameNone
  }

  /** The settings `Copy` produces from `current` and the obsolete asset. */
  function Copied(current: SettingsData, legacy: LegacySettings): SettingsData
  {
    SettingsData(
      legacy.autoStage, legacy.autoFetch, legacy.externalsType, legacy.externalProgram,
      legacy.credentialsManager, legacy.projectStatusOverlayDepth, legacy.showEmptyFolders,
      ThreadingFromLegacy(legacy.gitStatusMultithreaded),
      legacy.useGavatar, legacy.maxCommitTextAreaSize,
      RenamesFromLegacy(legacy.detectRenames),
      current.others, current.isDirty)
  }

  /** `GitSettingsJson`. */
  class GitSettingsJson {
    var autoStage: bool
    var autoFetch: bool
    var externalsType: Bits
    var externalProgram: Option<string>
    var credentialsManager: Option<string>
    var projectStatusOverlayDepth: int
    var showEmptyFolders: bool
    var threading: Bits
    var useGavatar: bool
    var maxCommitTextAreaSize: real
    var detectRenames: Bits
    var others: OtherSettings
    var isDirty: bool

    /** The field values of the settings object. */
    function Data(): SettingsData
      reads this
    {
      SettingsData(autoStage, autoFetch, externalsType, externalProgram, credentialsManager,
        projectStatusOverlayDepth, showEmptyFolders, threading, useGavatar, maxCommitTextAreaSize,
        detectRenames, others, isDirty)
    }

    /** The field initialisers: overlay depth 2, default threading, Gravatars on, text area 120,
        all renames detected, system files tracked, all animations; everything else false or null. */
    constructor ()
      ensures Data() == SettingsData(false, false, {}, None, None, 2, false, DefaultThreadingType, true, 120.0,
        RenameAll, OtherSettings(false, false, false, false, true, false, AnimationAll, false, None, None), false)
    {
      autoStage := false;
      autoFetch := false;
      externalsType := {};
      externalProgram := None;
      credentialsManager := None;
      projectStatusOverlayDepth := 2;
      showEmptyFolders := false;
      threading := DefaultThreadingType;
      useGavatar := true;
      maxCommitTextAreaSize := 120.0;
      detectRenames := RenameAll;
      others := OtherSettings(false, false, false, false, true, false, AnimationAll, false, None, None);
      isDirty := false;
    }

    method Copy(settings: LegacySettings)
      modifies this
      ensures Data() == Copied(old(Data()), settings)
    {
      CopyRepositoryOptions(settings);
      CopyDisplayOptions(settings);
    }

    /** The first half of `Copy`: staging, fetching, external programs, credentials and overlay depth;
        no other field changes. */
    method CopyRepositoryOptions(settings: LegacySettings)
      modifies this`autoStage, this`autoFetch, this`externalsType, this`externalProgram, this`credentialsManager, this`projectStatusOverlayDepth
      ensures autoStage == settings.autoStage && autoFetch == settings.autoFetch
      ensures externalsType == settings.externalsType && externalProgram == settings.externalProgram
      ensures credentialsManager == settings.credentialsManager
      ensures projectStatusOverlayDepth == settings.projectStatusOverlayDepth
    {
      autoStage := settings.autoStage;
      autoFetch := settings.autoFetch;
      externalsType := settings.externalsType;
      externalProgram := settings.externalProgram;
      credentialsManager := settings.credentialsManager;
      projectStatusOverlayDepth := settings.projectStatusOverlayDepth;
    }

    /** The second half of `Copy`: empty folders, threading, Gravatars, text area size and rename
        detection; no other field changes. */
    method CopyDisplayOptions(settings: LegacySettings)
      modifies this`showEmptyFolders, this`threading, this`useGavatar, this`maxCommitTextAreaSize, this`detectRenames
      ensures showEmptyFolders == settings.showEmptyFolders && useGavatar == settings.useGavatar
      ensures threading == ThreadingFromLegacy(settings.gitStatusMultithreaded)
      ensures maxCommitTextAreaSize == settings.maxCommitTextAreaSize
      ensures detectRenames == RenamesFromLegacy(settings.detectRenames)
    {
      showEmptyFolders := settings.showEmptyFolders;
      threading := ThreadingFromLegacy(settings.gitStatusMultithreaded);
      useGavatar := settings.useGavatar;
      maxCommitTextAreaSize := settings.maxCommitTextAreaSize;
      detectRenames := RenamesFromLegacy(settings.detectRenames);
    }

    /** `MarkDirty`: only `IsDirty` changes. */
    method MarkDirty()
      modifies this
      ensures Data() == old(Data()).(isDirty := true)
    {
      isDirty := true;
    }

    /** `ResetDirty`: only `IsDirty` changes. */
    method ResetDirty()
      modifies this
      ensures Data() == old(Data()).(isDirty := false)
    {
      isDirty := false;
    }
  }

  // ---------------------------------------------------------------------------
  // Properties

  /** The threading options are five distinct single bits, and the default runs neither stage nor unstage in the background. */
  lemma ThreadingLayout()
    ensures ThreadingStage == {0} && ThreadingUnstage == {1} && ThreadingStatus == {2}
    ensures ThreadingStatusListGui == {3} && ThreadingCommitListGui == {4}
    ensures !IsFlagSet(DefaultThreadingType, ThreadingStage) && !IsFlagSet(DefaultThreadingType, ThreadingUnstage)
    ensures DefaultThreadingType == {2, 3, 4}
  {
  }

  /** The two `ExternalsTypeEnum` declarations agree member by member, so the cast in `Copy` keeps every
      option, and distinct members are distinct bits. */
  lemma ExternalsLayoutsAgree(e: External, f: External)
    ensures LegacyExternalBit(e) == ExternalBit(e)
    ensures e != f ==> ExternalBit(e) * ExternalBit(f) == {}
  {
  }

  /** After `Copy`: the verbatim fields equal the asset's, threading is the default exactly when status
      retrieval was multithreaded (and empty otherwise), renames are all detected or none, and every
      field `Copy` does not name keeps its value. */
  lemma CopySpec(current: SettingsData, legacy: LegacySettings)
    ensures var r := Copied(current, legacy);
      && r.autoStage == legacy.autoStage && r.autoFetch == legacy.autoFetch
      && r.externalProgram == legacy.externalProgram && r.credentialsManager == legacy.credentialsManager
      && r.projectStatusOverlayDepth == legacy.projectStatusOverlayDepth
      && r.showEmptyFolders == legacy.showEmptyFolders && r.useGavatar == legacy.useGavatar
      && r.maxCommitTextAreaSize == legacy.maxCommitTextAreaSize
      && r.externalsType == legacy.externalsType
      && (r.threading == DefaultThreadingType <==> legacy.gitStatusMultithreaded)
      && (!legacy.gitStatusMultithreaded ==> r.threading == {})
      && (IsFlagSet(r.threading, ThreadingStatus) <==> legacy.gitStatusMultithreaded)
      && (legacy.detectRenames ==> r.detectRenames == RenameAll && RenameInIndex <= r.detectRenames && RenameInWorkDir <= r.detectRenames)
      && (!legacy.detectRenames ==> r.detectRenames == RenameNone)
      && r.others == current.others && r.isDirty == current.isDirty
  {
    assert 2 in DefaultThreadingType;
  }

  /** `Copy` is idempotent: copying the same asset twice gives the settings copying it once does. */
  lemma CopyIdempotent(current: SettingsData, legacy: LegacySettings)
    ensures Copied(Copied(current, legacy), legacy) == Copied(current, legacy)
  {
  }
}
