/**
  Editor/Windows/Diff/GitDiffWindowSorter.cs: the comparer that orders the rows
  of the diff window's status list.  Rows are grouped by a priority derived
  from their status flags, then ordered by the chosen sort type in the chosen
  direction, optionally putting rows with both staged and unstaged changes
  first, and finally by ordinal comparison of their paths.

  The culture-aware, case-insensitive name comparison and the file dates are
  not computed here: they come in an `Environment` value.
 */
module DiffSorter {
  import opened Wrappers
  import opened FlagHelper
  import opened GitTypes
  import opened GitPaths

  datatype SortType = Name | Path | ModificationDate | CreationDate | OutOfRange(value: int)

  datatype SortDir = Ascending | Descending

  /** The diff window's settings the comparer reads. */
  datatype DiffSettings = DiffSettings(sortType: SortType, sortDir: SortDir, unstagedChangesPriority: bool)

  /** A row of the status list. */
  datatype StatusListEntry = StatusListEntry(name: string, localPath: string, state: Bits)

  /**
    What the comparer consults outside the rows: `string.Compare` with
    `InvariantCultureIgnoreCase`, and the modification and creation date
    (in ticks) that `GetClosest` picks for a row's path and its meta file.
   */
  datatype Environment = Environment(
    cultureCompare: (string, string) -> int,
    modificationDate: string -> int,
    creationDate: string -> int)

  /** The `ArgumentOutOfRangeException` thrown for an unknown sort type. */
  datatype SortError = ArgumentOutOfRange

  function Sign(x: int): int
  {
    if x < 0 then -1 else if x > 0 then 1 else 0
  }

  /** `int.CompareTo` and `DateTime.Compare`: -1, 0 or 1. */
  function CompareValues(a: int, b: int): (r: int)
    ensures r == Sign(a - b)
  {
    if a < b then -1 else if a > b then 1 else 0
  }

  /** `string.Compare(a, b, StringComparison.Ordinal)`: the difference of the first differing
      characters, or of the lengths when one string is a prefix of the other. */
  function OrdinalCompare(a: string, b: string): int
  {
    if a == [] || b == [] then |a| - |b|
    else if a[0] != b[0] then a[0] as int - b[0] as int
    else OrdinalCompare(a[1..], b[1..])
  }

  /** A comparison whose sign flips when its operands are swapped (and so is 0 on equal operands). */
  ghost predicate IsComparer(compare: (string, string) -> int)
  {
    forall a, b :: Sign(compare(a, b)) == -Sign(compare(b, a))
  }

  /** `GetPriority`: conflicts first, then new, modified, deleted or renamed paths, then the rest. */
  function GetPriority(status: Bits): int
  {
    if IsFlagSet(status, Conflicted) then -1
    else if IsFlagSet(status, NewInIndex + NewInWorkdir) then 1
    else if IsFlagSet(status, ModifiedInIndex + ModifiedInWorkdir) then 2
    else if IsFlagSet(status, DeletedFromIndex + DeletedFromWorkdir) then 3
    else if IsFlagSet(status, RenamedInIndex + RenamedInWorkdir) then 3
    else 4
  }

  /** The grouping step: priorities compared when the window groups rows, 0 otherwise. */
  function GroupCompare(grouping: bool, x: StatusListEntry, y: StatusListEntry): int
  {
    if grouping then CompareValues(GetPriority(x.state), GetPriority(y.state)) else 0
  }

  /** The operands in the order the rest of `Compare` sees them: swapped when descending. */
  function Oriented(dir: SortDir, x: StatusListEntry, y: StatusListEntry): (StatusListEntry, StatusListEntry)
  {
    if dir == Descending then (y, x) else (x, y)
  }

  /** A row with changes both to stage and to unstage. */
  predicate Pending(e: StatusListEntry)
  {
    CanStage(e.state) && CanUnstage(e.state)
  }

  /** The unstaged-changes step: -1 or 1 when exactly one of the rows is pending, 0 otherwise. */
  function PendingCompare(l: StatusListEntry, r: StatusListEntry): int
  {
    if Pending(l) && !Pending(r) then -1
    else if !Pending(l) && Pending(r) then 1
    else 0
  }

  /** The `switch` on the sort type, with both dates read from their own row. */
  function KeyCompare(sortType: SortType, l: StatusListEntry, r: StatusListEntry, env: Environment): Result<int, SortError>
  {
    match sortType
    case Name => Success(env.cultureCompare(l.name, r.name))
    case Path => Success(env.cultureCompare(l.localPath, r.localPath))
    case ModificationDate => Success(CompareValues(env.modificationDate(r.localPath), env.modificationDate(l.localPath)))
    case CreationDate => Success(CompareValues(env.creationDate(r.localPath), env.creationDate(l.localPath)))
    case OutOfRange(_) => Failure(ArgumentOutOfRange)
  }

  /** The `switch` as written: the modification date of the right row is read from the left row's path. */
  function KeyCompareAsWritten(sortType: SortType, l: StatusListEntry, r: StatusListEntry, env: Environment): Result<int, SortError>
  {
    if sortType == ModificationDate then
      Success(CompareValues(env.modificationDate(l.localPath), env.modificationDate(l.localPath)))
    else KeyCompare(sortType, l, r, env)
  }

  /** Everything after the grouping step, given the sort key's verdict on the oriented rows. */
  function WithinGroup(settings: DiffSettings, l: StatusListEntry, r: StatusListEntry, key: Result<int, SortError>): Result<int, SortError>
  {
    if settings.unstagedChangesPriority && PendingCompare(l, r) != 0 then Success(PendingCompare(l, r))
    else match key
      case Failure(e) => Failure(e)
      case Success(c) => Success(if c == 0 then OrdinalCompare(l.localPath, r.localPath) else c)
  }

  /** `Compare`, with the date sorts reading each row's own date. */
  function Compare(grouping: bool, settings: DiffSettings, x: StatusListEntry, y: StatusListEntry, env: Environment): Result<int, SortError>
  {
    var group := GroupCompare(grouping, x, y);
    if group != 0 then Success(group)
    else
      var (l, r) := Oriented(settings.sortDir, x, y);
      WithinGroup(settings, l, r, KeyCompare(settings.sortType, l, r, env))
  }

  /** `Compare` as written. */
  function CompareAsWritten(grouping: bool, settings: DiffSettings, x: StatusListEntry, y: StatusListEntry, env: Environment): Result<int, SortError>
  {
    var group := GroupCompare(grouping, x, y);
    if group != 0 then Success(group)
    else
      var (l, r) := Oriented(settings.sortDir, x, y);
      WithinGroup(settings, l, r, KeyCompareAsWritten(settings.sortType, l, r, env))
  }

  // ---------------------------------------------------------------------------
  // Properties of the ordinal comparison

  /** The ordinal comparison is 0 exactly on equal strings. */
  lemma {:induction false} OrdinalCompareZero(a: string, b: string)
    ensures OrdinalCompare(a, b) == 0 <==> a == b
  {
    if a != [] && b != [] && a[0] == b[0] {
      OrdinalCompareZero(a[1..], b[1..]);
      assert a == [a[0]] + a[1..] && b == [b[0]] + b[1..];
    }
  }

  /** Swapping the operands negates the ordinal comparison. */
  lemma {:induction false} OrdinalCompareAntisymmetric(a: string, b: string)
    ensures OrdinalCompare(a, b) == -OrdinalCompare(b, a)
  {
    if a != [] && b != [] && a[0] == b[0] {
      OrdinalCompareAntisymmetric(a[1..], b[1..]);
    }
  }

  /** The ordinal order is transitive. */
  lemma {:induction false} OrdinalCompareTransitive(a: string, b: string, c: string)
    requires OrdinalCompare(a, b) < 0 && OrdinalCompare(b, c) < 0
    ensures OrdinalCompare(a, c) < 0
  {
    if a != [] && b != [] && c != [] && a[0] == b[0] && b[0] == c[0] {
      OrdinalCompareTransitive(a[1..], b[1..], c[1..]);
    }
  }

  // ---------------------------------------------------------------------------
  // Properties of the comparer

  /** The priority of each status, by its flags. */
  lemma PriorityByFlags(s: Bits)
    ensures 15 in s ==> GetPriority(s) == -1
    ensures 15 !in s && (0 in s || 7 in s) ==> GetPriority(s) == 1
    ensures 15 !in s && 0 !in s && 7 !in s && (1 in s || 8 in s) ==> GetPriority(s) == 2
    ensures 15 !in s && 0 !in s && 7 !in s && 1 !in s && 8 !in s && (2 in s || 9 in s || 3 in s || 11 in s) ==> GetPriority(s) == 3
    ensures GetPriority(s) == 4 <==> 15 !in s && 0 !in s && 7 !in s && 1 !in s && 8 !in s && 2 !in s && 9 !in s && 3 !in s && 11 !in s
  {
    IsFlagSetPositions(s, 15, 15);
    IsFlagSetPositions(s, 0, 7);
    IsFlagSetPositions(s, 1, 8);
    IsFlagSetPositions(s, 2, 9);
    IsFlagSetPositions(s, 3, 11);
  }

  /** With grouping on, rows of different priority are ordered by ascending priority, whatever the
      sort type, direction or unstaged-changes setting. */
  lemma GroupingOrdersByPriority(settings: DiffSettings, x: StatusListEntry, y: StatusListEntry, env: Environment)
    requires GetPriority(x.state) != GetPriority(y.state)
    ensures Compare(true, settings, x, y, env) == Success(if GetPriority(x.state) < GetPriority(y.state) then -1 else 1)
  {
  }

  /** Within a group, sorting descending compares the swapped pair ascending. */
  lemma DescendingSwaps(grouping: bool, settings: DiffSettings, x: StatusListEntry, y: StatusListEntry, env: Environment)
    requires GroupCompare(grouping, x, y) == 0
    ensures Compare(grouping, settings.(sortDir := Descending), x, y, env)
         == Compare(grouping, settings.(sortDir := Ascending), y, x, env)
  {
  }

  /** With unstaged-changes priority, a pending row comes first when ascending and last when
      descending, because the rule sees the swapped pair. */
  lemma PendingFirst(grouping: bool, settings: DiffSettings, x: StatusListEntry, y: StatusListEntry, env: Environment)
    requires GroupCompare(grouping, x, y) == 0 && settings.unstagedChangesPriority
    requires Pending(x) && !Pending(y)
    ensures Compare(grouping, settings, x, y, env) == Success(if settings.sortDir == Ascending then -1 else 1)
    ensures Compare(grouping, settings, y, x, env) == Success(if settings.sortDir == Ascending then 1 else -1)
  {
  }

  /** An unknown sort type throws exactly when neither the grouping nor the unstaged-changes rule
      decides the order first. */
  lemma OutOfRangeThrows(grouping: bool, settings: DiffSettings, x: StatusListEntry, y: StatusListEntry, env: Environment)
    ensures Compare(grouping, settings, x, y, env).Failure? <==>
      && settings.sortType.OutOfRange?
      && GroupCompare(grouping, x, y) == 0
      && !(settings.unstagedChangesPriority && PendingCompare(x, y) != 0)
  {
  }

  /** Every known sort type compares a row with itself as 0. */
  lemma CompareReflexive(grouping: bool, settings: DiffSettings, x: StatusListEntry, env: Environment)
    requires IsComparer(env.cultureCompare)
    requires !settings.sortType.OutOfRange?
    ensures Compare(grouping, settings, x, x, env) == Success(0)
  {
    assert Sign(env.cultureCompare(x.name, x.name)) == -Sign(env.cultureCompare(x.name, x.name));
    assert Sign(env.cultureCompare(x.localPath, x.localPath)) == -Sign(env.cultureCompare(x.localPath, x.localPath));
    OrdinalCompareZero(x.localPath, x.localPath);
  }

  /** The sort keys are antisymmetric on every known sort type. */
  lemma KeyCompareAntisymmetric(sortType: SortType, l: StatusListEntry, r: StatusListEntry, env: Environment)
    requires IsComparer(env.cultureCompare)
    requires !sortType.OutOfRange?
    ensures KeyCompare(sortType, l, r, env).Success? && KeyCompare(sortType, r, l, env).Success?
    ensures Sign(KeyCompare(sortType, l, r, env).value) == -Sign(KeyCompare(sortType, r, l, env).value)
  {
    match sortType
    case Name =>
      assert Sign(env.cultureCompare(l.name, r.name)) == -Sign(env.cultureCompare(r.name, l.name));
    case Path =>
      assert Sign(env.cultureCompare(l.localPath, r.localPath)) == -Sign(env.cultureCompare(r.localPath, l.localPath));
    case ModificationDate =>
    case CreationDate =>
  }

  /** Every known sort type is antisymmetric: swapping the rows flips the sign of the result. */
  lemma CompareAntisymmetric(grouping: bool, settings: DiffSettings, x: StatusListEntry, y: StatusListEntry, env: Environment)
    requires IsComparer(env.cultureCompare)
    requires !settings.sortType.OutOfRange?
    ensures Compare(grouping, settings, x, y, env).Success? && Compare(grouping, settings, y, x, env).Success?
    ensures Sign(Compare(grouping, settings, x, y, env).value) == -Sign(Compare(grouping, settings, y, x, env).value)
  {
    if GroupCompare(grouping, x, y) == 0 {
      var (l, r) := Oriented(settings.sortDir, x, y);
      assert Oriented(settings.sortDir, y, x) == (r, l);
      KeyCompareAntisymmetric(settings.sortType, l, r, env);
      WithinGroupAntisymmetric(settings, l, r, KeyCompare(settings.sortType, l, r, env), KeyCompare(settings.sortType, r, l, env));
    }
  }

  /** The steps after grouping keep the antisymmetry of the sort key. */
  lemma WithinGroupAntisymmetric(settings: DiffSettings, l: StatusListEntry, r: StatusListEntry, key: Result<int, SortError>, swapped: Result<int, SortError>)
    requires key.Success? && swapped.Success? && Sign(key.value) == -Sign(swapped.value)
    ensures WithinGroup(settings, l, r, key).Success? && WithinGroup(settings, r, l, swapped).Success?
    ensures Sign(WithinGroup(settings, l, r, key).value) == -Sign(WithinGroup(settings, r, l, swapped).value)
  {
    PendingCompareAntisymmetric(l, r);
    if !(settings.unstagedChangesPriority && PendingCompare(l, r) != 0) {
      assert WithinGroup(settings, l, r, key) == Success(if key.value == 0 then OrdinalCompare(l.localPath, r.localPath) else key.value);
      assert WithinGroup(settings, r, l, swapped) == Success(if swapped.value == 0 then OrdinalCompare(r.localPath, l.localPath) else swapped.value);
      OrdinalCompareAntisymmetric(l.localPath, r.localPath);
    }
  }

  lemma PendingCompareAntisymmetric(l: StatusListEntry, r: StatusListEntry)
    ensures PendingCompare(l, r) == -PendingCompare(r, l)
  {
  }

  /** The ordinal tiebreak leaves no ties between rows of different paths. */
  lemma ZeroOnlyForSamePath(grouping: bool, settings: DiffSettings, x: StatusListEntry, y: StatusListEntry, env: Environment)
    requires Compare(grouping, settings, x, y, env) == Success(0)
    ensures x.localPath == y.localPath
  {
    OrdinalCompareZero(x.localPath, y.localPath);
    OrdinalCompareZero(y.localPath, x.localPath);
  }

  /** Sorting by date puts the newer row first when ascending and last when descending, once the
      grouping and unstaged-changes rules leave the pair tied. */
  lemma NewestFirst(grouping: bool, settings: DiffSettings, x: StatusListEntry, y: StatusListEntry, env: Environment)
    requires settings.sortType == ModificationDate || settings.sortType == CreationDate
    requires GroupCompare(grouping, x, y) == 0 && !(settings.unstagedChangesPriority && PendingCompare(x, y) != 0)
    requires settings.sortType == ModificationDate ==> env.modificationDate(x.localPath) > env.modificationDate(y.localPath)
    requires settings.sortType == CreationDate ==> env.creationDate(x.localPath) > env.creationDate(y.localPath)
    ensures Compare(grouping, settings, x, y, env) == Success(if settings.sortDir == Ascending then -1 else 1)
  {
    assert PendingCompare(y, x) == -PendingCompare(x, y);
  }

  /** As written, sorting by modification date never consults the dates: the order is the one
      every row having the same date would give. */
  lemma ModificationDateIgnoredAsWritten(grouping: bool, settings: DiffSettings, x: StatusListEntry, y: StatusListEntry, env: Environment)
    requires settings.sortType == ModificationDate
    ensures CompareAsWritten(grouping, settings, x, y, env)
         == Compare(grouping, settings, x, y, env.(modificationDate := (p: string) => 0))
  {
  }

  /** A pair the written comparer orders against their dates: "a.txt", modified at tick 1, is put
      before "b.txt", modified at tick 2, although the newer row should come first. */
  lemma ModificationDateCounterexample()
    ensures var x := StatusListEntry("a.txt", "a.txt", ModifiedInWorkdir);
      var y := StatusListEntry("b.txt", "b.txt", ModifiedInWorkdir);
      var env := Environment((a: string, b: string) => 0, (p: string) => if p == "a.txt" then 1 else 2, (p: string) => 0);
      var settings := DiffSettings(ModificationDate, Ascending, false);
      && CompareAsWritten(false, settings, x, y, env) == Success(-1)
      && Compare(false, settings, x, y, env) == Success(1)
  {
    var x := StatusListEntry("a.txt", "a.txt", ModifiedInWorkdir);
    var y := StatusListEntry("b.txt", "b.txt", ModifiedInWorkdir);
    assert OrdinalCompare(x.localPath, y.localPath) == 'a' as int - 'b' as int;
  }
}
