/**
  Editor/Utils/GitCiBuild.cs: the command-line lookup of the continuous-integration
  build.  The process's command-line arguments are a parameter here instead of being
  read from the environment; a `null` result is `None`.
 */
module CiBuild {
  import opened Wrappers

  /** `name` occurs at `i` and is followed by a value. */
  predicate NamedAt(args: seq<string>, name: string, i: int)
  {
    0 <= i && i + 1 < |args| && args[i] == name
  }

  /** `GetArg(name)`: the argument after the first occurrence of `name` that has one; an occurrence
      as the last argument is passed over.  `None` when no occurrence is followed by a value. */
  method GetArg(args: array<string>, name: string) returns (r: Option<string>)
    ensures r.None? <==> forall i :: 0 <= i < args.Length ==> !NamedAt(args[..], name, i)
    ensures r.Some? ==> exists i ::
      (&& NamedAt(args[..], name, i)
       && (forall j :: 0 <= j < i ==> !NamedAt(args[..], name, j))
       && r.value == args[i + 1])
    ensures r.Some? ==> r.value in args[1..]
  {
    for i := 0 to args.Length
      invariant forall j :: 0 <= j < i ==> !NamedAt(args[..], name, j)
    {
      if args[i] == name && args.Length > i + 1 {
        assert NamedAt(args[..], name, i);
        assert args[i + 1] == args[1..][i];
        return Some(args[i + 1]);
      }
    }
    return None;
  }
}
