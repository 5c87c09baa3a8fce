/**
  Editor/GitOverlay.cs: the choice of status icon for a path.  The overlay
  keeps one cached `GUIContent` per icon and size; handing one out writes the
  status into that shared object's tooltip.  Textures are not modelled: a
  content is identified by the icon it shows and its size, and its tooltip by
  the status whose name it displays.
 */
module Overlay {
  import opened Wrappers
  import opened FlagHelper
  import opened GitTypes

  /** The status icons of `GitOverlay.Icons`, by the change they show. */
  datatype IconKind = ValidIcon | ModifiedIcon | AddedIcon | UntrackedIcon | IgnoredIcon | ConflictIcon | DeletedIcon | RenamedIcon

  const AllKinds: seq<IconKind> := [ValidIcon, ModifiedIcon, AddedIcon, UntrackedIcon, IgnoredIcon, ConflictIcon, DeletedIcon, RenamedIcon]

  /** A cached `GUIContent`; `tooltip` is the status whose name it shows, `None` for the empty tooltip. */
  class GuiContent {
    const kind: IconKind
    const small: bool
    var tooltip: Option<Bits>

    constructor (kind: IconKind, small: bool)
      ensures this.kind == kind && this.small == small && tooltip == None
    {
      this.kind := kind;
      this.small := small;
      tooltip := None;
    }
  }

  /** The icon categories that match a status, in the order `GetDiffTypeIcons` yields them. */
  function DiffTypeKinds(status: Bits): seq<IconKind>
  {
    KindsUpTo(Shows(status), 7)
  }

  /** The shown categories among the first `n` that `GetDiffTypeIcons` tests, in test order. */
  function KindsUpTo(shows: IconKind -> bool, n: nat): seq<IconKind>
    requires n <= 7
  {
    if n == 0 then [] else KindsUpTo(shows, n - 1) + Piece(shows, TestedKind(n - 1))
  }

  /** The first shown category among the first `n` tested. */
  function FirstUpTo(shows: IconKind -> bool, n: nat): Option<IconKind>
    requires n <= 7
  {
    if n == 0 then None
    else if FirstUpTo(shows, n - 1).Some? then FirstUpTo(shows, n - 1)
    else if shows(TestedKind(n - 1)) then Some(TestedKind(n - 1))
    else None
  }

  /** Which categories a status shows: those of whose flags it has at least one. */
  function Shows(status: Bits): IconKind -> bool
  {
    (kind: IconKind) => IsFlagSet(status, CategoryFlags(kind))
  }

  /** The category when it is shown, nothing otherwise. */
  function Piece(shows: IconKind -> bool, kind: IconKind): seq<IconKind>
  {
    if shows(kind) then [kind] else []
  }

  /** The icon category `GetDiffTypeIcon` chooses: the first that matches, if any. */
  function DiffTypeKind(status: Bits): Option<IconKind>
  {
    if IsFlagSet(status, Ignored) then Some(IgnoredIcon)
    else if IsFlagSet(status, NewInIndex) then Some(AddedIcon)
    else if IsFlagSet(status, NewInWorkdir) then Some(UntrackedIcon)
    else if IsFlagSet(status, ModifiedInWorkdir + ModifiedInIndex) then Some(ModifiedIcon)
    else if IsFlagSet(status, Conflicted) then Some(ConflictIcon)
    else if IsFlagSet(status, RenamedInIndex + RenamedInWorkdir) then Some(RenamedIcon)
    else if IsFlagSet(status, DeletedFromIndex + DeletedFromWorkdir) then Some(DeletedIcon)
    else None
  }

  /** The icon category of a `ChangeKind`, by its integer value; `None` for the kinds without one. */
  function ChangeKindIcon(kind: int): Option<IconKind>
  {
    if kind == Unmodified then Some(ValidIcon)
    else if kind == Added then Some(AddedIcon)
    else if kind == Deleted then Some(DeletedIcon)
    else if kind == Modified then Some(ModifiedIcon)
    else if kind == KindIgnored then Some(IgnoredIcon)
    else if kind == Untracked then Some(UntrackedIcon)
    else if kind == KindConflicted then Some(ConflictIcon)
    else if kind == Renamed then Some(RenamedIcon)
    else None
  }

  /** The place of a category in the order `GetDiffTypeIcons` tests them; the valid icon comes after all. */
  function Rank(kind: IconKind): nat
  {
    match kind
    case IgnoredIcon => 0
    case AddedIcon => 1
    case UntrackedIcon => 2
    case ModifiedIcon => 3
    case ConflictIcon => 4
    case RenamedIcon => 5
    case DeletedIcon => 6
    case ValidIcon => 7
  }

  /** The category `GetDiffTypeIcons` tests in the given place. */
  function TestedKind(n: nat): (kind: IconKind)
    requires n < 7
    ensures Rank(kind) == n
  {
    match n
    case 0 => IgnoredIcon
    case 1 => AddedIcon
    case 2 => UntrackedIcon
    case 3 => ModifiedIcon
    case 4 => ConflictIcon
    case 5 => RenamedIcon
    case 6 => DeletedIcon
  }

  /** The status flags that select a category (none select the valid icon). */
  function CategoryFlags(kind: IconKind): Bits
  {
    match kind
    case IgnoredIcon => Ignored
    case AddedIcon => NewInIndex
    case UntrackedIcon => NewInWorkdir
    case ModifiedIcon => ModifiedInWorkdir + ModifiedInIndex
    case ConflictIcon => Conflicted
    case RenamedIcon => RenamedInIndex + RenamedInWorkdir
    case DeletedIcon => DeletedFromIndex + DeletedFromWorkdir
    case ValidIcon => Unaltered
  }

  /** `SetupTooltip`: names the status in the shared content's tooltip and hands the content back. */
  method SetupTooltip(content: GuiContent, status: Bits) returns (r: GuiContent)
    modifies content
    ensures r == content && content.tooltip == Some(status)
  {
    content.tooltip := Some(status);
    r := content;
  }

  class GitOverlay {
    /** `icons`: the cached content of each category in each size. */
    const icons: map<(IconKind, bool), GuiContent>

    /** Every category has a content in both sizes, and each content shows its own category and size. */
    ghost predicate Valid()
    {
      && (forall kind: IconKind, small: bool :: (kind, small) in icons)
      && (forall key :: key in icons ==> icons[key].kind == key.0 && icons[key].small == key.1)
    }

    /** The constructor: one fresh content per category and size. */
    constructor ()
      ensures Valid()
      ensures forall key :: key in icons ==> fresh(icons[key])
    {
      var m: map<(IconKind, bool), GuiContent> := map[];
      for i := 0 to |AllKinds|
        invariant forall j, small: bool :: 0 <= j < i ==> (AllKinds[j], small) in m
        invariant forall key :: key in m ==> m[key].kind == key.0 && m[key].small == key.1
        invariant forall key :: key in m ==> fresh(m[key])
      {
        var large := new GuiContent(AllKinds[i], false);
        var small := new GuiContent(AllKinds[i], true);
        m := m[(AllKinds[i], false) := large][(AllKinds[i], true) := small];
      }
      forall kind: IconKind, small: bool ensures (kind, small) in m {
        assert kind == AllKinds[IndexOfKind(kind)];
      }
      icons := m;
    }

    /** `small ? icons.xSmall : icons.x`. */
    function Icon(kind: IconKind, small: bool): (r: GuiContent)
      requires Valid()
      ensures r.kind == kind && r.small == small
    {
      icons[(kind, small)]
    }

    /** `GetDiffTypeIcon(FileStatus, bool)`: the content of the first matching category with the
        status in its tooltip, or `GUIContent.none` (here `None`) when no category matches; no other
        content changes. */
    method GetDiffTypeIcon(status: Bits, small: bool) returns (r: Option<GuiContent>)
      requires Valid()
      modifies icons.Values
      ensures r.None? <==> DiffTypeKind(status).None?
      ensures r.Some? ==> r.value == Icon(DiffTypeKind(status).value, small) && r.value.tooltip == Some(status)
      ensures forall c :: c in icons.Values && Some(c) != r ==> c.tooltip == old(c.tooltip)
    {
      var content: Option<GuiContent> := None;
      if IsFlagSet(status, Ignored) {
        content := Some(Icon(IgnoredIcon, small));
      } else if IsFlagSet(status, NewInIndex) {
        content := Some(Icon(AddedIcon, small));
      } else if IsFlagSet(status, NewInWorkdir) {
        content := Some(Icon(UntrackedIcon, small));
      } else if IsFlagSet(status, ModifiedInWorkdir + ModifiedInIndex) {
        content := Some(Icon(ModifiedIcon, small));
      } else if IsFlagSet(status, Conflicted) {
        content := Some(Icon(ConflictIcon, small));
      } else if IsFlagSet(status, RenamedInIndex + RenamedInWorkdir) {
        content := Some(Icon(RenamedIcon, small));
      } else if IsFlagSet(status, DeletedFromIndex + DeletedFromWorkdir) {
        content := Some(Icon(DeletedIcon, small));
      }
      if content.Some? {
        var c := SetupTooltip(content.value, status);
        r := Some(c);
      } else {
        r := None;
      }
    }

    /** The contents of the given categories in one size. */
    function Contents(kinds: seq<IconKind>, small: bool): (r: seq<GuiContent>)
      requires Valid()
      ensures |r| == |kinds|
      ensures forall i :: 0 <= i < |kinds| ==> r[i] == Icon(kinds[i], small)
    {
      seq(|kinds|, i requires 0 <= i < |kinds| => Icon(kinds[i], small))
    }

    /** One `if` of `GetDiffTypeIcons`: when the status has the category's flags, the category's
        content gets the tooltip and is yielded.  `yielded` holds the contents of the categories
        `before`; `tips` holds the tooltips from before the first `if`. */
    method YieldIf(kind: IconKind, status: Bits, small: bool, yielded: seq<GuiContent>,
                   ghost before: seq<IconKind>, ghost tips: map<GuiContent, Option<Bits>>) returns (r: seq<GuiContent>)
      requires Valid() && yielded == Contents(before, small) && Yielded(yielded, status, tips)
      modifies icons.Values
      ensures r == Contents(before + Piece(Shows(status), kind), small) && Yielded(r, status, tips)
    {
      r := yielded;
      if IsFlagSet(status, CategoryFlags(kind)) {
        var c := SetupTooltip(Icon(kind, small), status);
        ContentsAppend(before, kind, small);
        r := r + [c];
      }
    }

    /** The contents of one more category are one more content. */
    lemma ContentsAppend(kinds: seq<IconKind>, kind: IconKind, small: bool)
      requires Valid()
      ensures Contents(kinds + [kind], small) == Contents(kinds, small) + [Icon(kind, small)]
    {
    }

    /** Every content in `yielded` names the status in its tooltip, and every other content has its
        tooltip from `tips`. */
    ghost predicate Yielded(yielded: seq<GuiContent>, status: Bits, tips: map<GuiContent, Option<Bits>>)
      reads icons.Values, yielded
    {
      && (forall c :: c in icons.Values ==> c in tips)
      && (forall i :: 0 <= i < |yielded| ==> yielded[i].tooltip == Some(status))
      && (forall c :: c in icons.Values && c !in yielded ==> c.tooltip == tips[c])
    }

    /** `GetDiffTypeIcons`: the content of every matching category, in order, each with the status in
        its tooltip; the contents of the other categories keep theirs. */
    method GetDiffTypeIcons(status: Bits, small: bool) returns (r: seq<GuiContent>)
      requires Valid()
      modifies icons.Values
      ensures r == Contents(DiffTypeKinds(status), small)
      ensures forall i :: 0 <= i < |r| ==> r[i].tooltip == Some(status)
      ensures forall c :: c in icons.Values && c !in r ==> c.tooltip == old(c.tooltip)
    {
      ghost var tips := map c | c in icons.Values :: c.tooltip;
      ghost var shows := Shows(status);
      ghost var kinds: seq<IconKind> := [];
      r := [];
      r := YieldIf(IgnoredIcon, status, small, r, kinds, tips);
      kinds := kinds + Piece(shows, IgnoredIcon);
      r := YieldIf(AddedIcon, status, small, r, kinds, tips);
      kinds := kinds + Piece(shows, AddedIcon);
      r := YieldIf(UntrackedIcon, status, small, r, kinds, tips);
      kinds := kinds + Piece(shows, UntrackedIcon);
      r := YieldIf(ModifiedIcon, status, small, r, kinds, tips);
      kinds := kinds + Piece(shows, ModifiedIcon);
      r := YieldIf(ConflictIcon, status, small, r, kinds, tips);
      kinds := kinds + Piece(shows, ConflictIcon);
      r := YieldIf(RenamedIcon, status, small, r, kinds, tips);
      kinds := kinds + Piece(shows, RenamedIcon);
      r := YieldIf(DeletedIcon, status, small, r, kinds, tips);
      kinds := kinds + Piece(shows, DeletedIcon);
      KindsUpToUnfolded(shows);
    }

    /** `GetDiffTypeIcon(ChangeKind, bool)`: the content of the kind's category, `null` (here `None`)
        for a kind without one; tooltips are left alone. */
    function GetChangeKindIcon(kind: int, small: bool): (r: Option<GuiContent>)
      requires Valid()
      ensures r.Some? <==> ChangeKindIcon(kind).Some?
      ensures r.Some? ==> r.value.kind == ChangeKindIcon(kind).value && r.value.small == small
    {
      match ChangeKindIcon(kind)
      case Some(k) => Some(Icon(k, small))
      case None => None
    }
  }

  function IndexOfKind(kind: IconKind): (i: nat)
    ensures i < |AllKinds| && AllKinds[i] == kind
  {
    match kind
    case ValidIcon => 0
    case ModifiedIcon => 1
    case AddedIcon => 2
    case UntrackedIcon => 3
    case IgnoredIcon => 4
    case ConflictIcon => 5
    case DeletedIcon => 6
    case RenamedIcon => 7
  }

  // ---------------------------------------------------------------------------
  // Properties

  /** The flags of each category, as bit positions. */
  lemma CategoryBits(status: Bits)
    ensures Shows(status)(IgnoredIcon) <==> 14 in status
    ensures Shows(status)(AddedIcon) <==> 0 in status
    ensures Shows(status)(UntrackedIcon) <==> 7 in status
    ensures Shows(status)(ModifiedIcon) <==> 8 in status || 1 in status
    ensures Shows(status)(ConflictIcon) <==> 15 in status
    ensures Shows(status)(RenamedIcon) <==> 3 in status || 11 in status
    ensures Shows(status)(DeletedIcon) <==> 2 in status || 9 in status
    ensures !Shows(status)(ValidIcon)
  {
    IsFlagSetPositions(status, 14, 14);
    IsFlagSetPositions(status, 0, 0);
    IsFlagSetPositions(status, 7, 7);
    IsFlagSetPositions(status, 8, 1);
    IsFlagSetPositions(status, 15, 15);
    IsFlagSetPositions(status, 3, 11);
    IsFlagSetPositions(status, 2, 9);
  }

  /** Among the first `n` categories tested, the list holds exactly the shown ones, each once, in test order. */
  lemma {:induction false} KindsUpToSpec(shows: IconKind -> bool, n: nat)
    requires n <= 7
    ensures |KindsUpTo(shows, n)| <= n
    ensures forall k :: k in KindsUpTo(shows, n) <==> Rank(k) < n && shows(k)
    ensures forall i, j :: 0 <= i < j < |KindsUpTo(shows, n)| ==> Rank(KindsUpTo(shows, n)[i]) < Rank(KindsUpTo(shows, n)[j])
  {
    if n > 0 {
      KindsUpToSpec(shows, n - 1);
      var prev := KindsUpTo(shows, n - 1);
      var kind := TestedKind(n - 1);
      assert forall k :: Rank(k) < n <==> Rank(k) < n - 1 || k == kind by {
        forall k ensures Rank(k) < n <==> Rank(k) < n - 1 || k == kind {
          if Rank(k) == n - 1 {
            assert k == TestedKind(Rank(k));
          }
        }
      }
      assert forall i :: 0 <= i < |prev| ==> prev[i] in prev;
    }
  }

  /** The list of all seven categories, written out in test order. */
  lemma KindsUpToUnfolded(shows: IconKind -> bool)
    ensures KindsUpTo(shows, 7) == [] + Piece(shows, IgnoredIcon) + Piece(shows, AddedIcon)
      + Piece(shows, UntrackedIcon) + Piece(shows, ModifiedIcon) + Piece(shows, ConflictIcon)
      + Piece(shows, RenamedIcon) + Piece(shows, DeletedIcon)
  {
    assert KindsUpTo(shows, 1) == [] + Piece(shows, IgnoredIcon);
    assert KindsUpTo(shows, 3) == KindsUpTo(shows, 1) + Piece(shows, AddedIcon) + Piece(shows, UntrackedIcon);
    assert KindsUpTo(shows, 5) == KindsUpTo(shows, 3) + Piece(shows, ModifiedIcon) + Piece(shows, ConflictIcon);
  }

  /** The list is empty exactly when no category is shown, and otherwise starts with the first shown. */
  lemma {:induction false} KindsUpToFirst(shows: IconKind -> bool, n: nat)
    requires n <= 7
    ensures KindsUpTo(shows, n) == [] <==> FirstUpTo(shows, n).None?
    ensures KindsUpTo(shows, n) != [] ==> KindsUpTo(shows, n)[0] == FirstUpTo(shows, n).value
  {
    if n > 0 {
      KindsUpToFirst(shows, n - 1);
    }
  }

  /** The single icon is the first of the list of icons, and there is one exactly when the list is not empty. */
  lemma DiffTypeKindIsFirst(status: Bits)
    ensures DiffTypeKind(status).None? <==> DiffTypeKinds(status) == []
    ensures DiffTypeKind(status).Some? ==> DiffTypeKind(status).value == DiffTypeKinds(status)[0]
  {
    var shows := Shows(status);
    assert DiffTypeKind(status) == FirstUpTo(shows, 7);
    KindsUpToFirst(shows, 7);
  }

  /** The list of icons holds each category at most once, in the fixed order ignored, added,
      untracked, modified, conflict, renamed, deleted; so at most seven. */
  lemma DiffTypeKindsOrder(status: Bits)
    ensures |DiffTypeKinds(status)| <= 7
    ensures forall i, j :: 0 <= i < j < |DiffTypeKinds(status)| ==> Rank(DiffTypeKinds(status)[i]) < Rank(DiffTypeKinds(status)[j])
  {
    KindsUpToSpec(Shows(status), 7);
  }

  /** The list of icons holds exactly the categories whose flags are set, never the valid icon. */
  lemma DiffTypeKindsMembers(status: Bits)
    ensures var r := DiffTypeKinds(status);
      && ValidIcon !in r
      && (IgnoredIcon in r <==> 14 in status)
      && (AddedIcon in r <==> 0 in status)
      && (UntrackedIcon in r <==> 7 in status)
      && (ModifiedIcon in r <==> 1 in status || 8 in status)
      && (ConflictIcon in r <==> 15 in status)
      && (RenamedIcon in r <==> 3 in status || 11 in status)
      && (DeletedIcon in r <==> 2 in status || 9 in status)
  {
    KindsUpToSpec(Shows(status), 7);
    CategoryBits(status);
  }

  /** The icon `GetDiffTypeIcon` chooses, by bit positions. */
  lemma DiffTypeKindByBits(status: Bits)
    ensures DiffTypeKind(status) ==
      if 14 in status then Some(IgnoredIcon)
      else if 0 in status then Some(AddedIcon)
      else if 7 in status then Some(UntrackedIcon)
      else if 8 in status || 1 in status then Some(ModifiedIcon)
      else if 15 in status then Some(ConflictIcon)
      else if 3 in status || 11 in status then Some(RenamedIcon)
      else if 2 in status || 9 in status then Some(DeletedIcon)
      else None
  {
    CategoryBits(status);
  }

  /** The two overloads agree on the kinds of change they both name: a status whose first matching
      flag is that of an added, untracked, modified, conflicted, renamed or deleted (or ignored) path
      gets the icon of the corresponding `ChangeKind`. */
  lemma ChangeKindAgrees(status: Bits)
    ensures 14 in status ==> DiffTypeKind(status) == ChangeKindIcon(KindIgnored)
    ensures 14 !in status && 0 in status ==> DiffTypeKind(status) == ChangeKindIcon(Added)
    ensures 14 !in status && 0 !in status && 7 in status ==> DiffTypeKind(status) == ChangeKindIcon(Untracked)
    ensures 14 !in status && 0 !in status && 7 !in status && (1 in status || 8 in status) ==> DiffTypeKind(status) == ChangeKindIcon(Modified)
    ensures status == Conflicted ==> DiffTypeKind(status) == ChangeKindIcon(KindConflicted)
    ensures status == RenamedInIndex || status == RenamedInWorkdir ==> DiffTypeKind(status) == ChangeKindIcon(Renamed)
    ensures status == DeletedFromIndex || status == DeletedFromWorkdir ==> DiffTypeKind(status) == ChangeKindIcon(Deleted)
    ensures DiffTypeKind(status) != ChangeKindIcon(Unmodified)
  {
    DiffTypeKindByBits(status);
  }

  /** Exactly the kinds Copied, TypeChanged and Unreadable, and values outside the enum, have no icon. */
  lemma ChangeKindIconDomain(kind: int)
    ensures ChangeKindIcon(kind).None? <==> kind == Copied || kind == TypeChanged || kind == KindUnreadable || kind < 0 || kind > 10
  {
  }
}
