/**
  The .NET string operations the core relies on: `EndsWith`, `Replace(char, char)`,
  `Replace(string, "")`, `Split(char)` with and without `RemoveEmptyEntries`, and
  `Path.HasExtension`.  Every comparison here is character by character.  .NET's
  `EndsWith(string)` compares with the current culture instead, which agrees on the ASCII
  suffix ".meta" except under cultures that ignore or fold characters.
 */
module Text {

  /** `s.EndsWith(suffix)`. */
  predicate EndsWith(s: string, suffix: string)
  {
    |s| >= |suffix| && s[|s| - |suffix|..] == suffix
  }

  /** `s.Replace(from, to)` for single characters. */
  function ReplaceChar(s: string, from: char, to: char): (r: string)
    ensures |r| == |s|
    ensures forall i :: 0 <= i < |s| ==> r[i] == (if s[i] == from then to else s[i])
  {
    if s == [] then [] else [if s[0] == from then to else s[0]] + ReplaceChar(s[1..], from, to)
  }

  /** `s.Split(sep)`: the pieces between separators, empty pieces included. */
  function SplitAll(s: string, sep: char): (r: seq<string>)
    ensures |r| >= 1
  {
    if s == [] then [[]]
    else if s[0] == sep then [[]] + SplitAll(s[1..], sep)
    else
      var rest := SplitAll(s[1..], sep);
      [[s[0]] + rest[0]] + rest[1..]
  }

  /** The pieces that are not empty, in order. */
  function NonEmpty(pieces: seq<string>): (r: seq<string>)
    ensures forall i :: 0 <= i < |r| ==> r[i] != []
    ensures forall x :: x in r <==> x in pieces && x != []
  {
    if pieces == [] then []
    else (if pieces[0] == [] then [] else [pieces[0]]) + NonEmpty(pieces[1..])
  }

  /** `s.Split(new[] {sep}, StringSplitOptions.RemoveEmptyEntries)`. */
  function SplitNonEmpty(s: string, sep: char): seq<string>
  {
    NonEmpty(SplitAll(s, sep))
  }

  /** The pieces joined back with the separator. */
  function Join(pieces: seq<string>, sep: char): string
    requires |pieces| >= 1
  {
    if |pieces| == 1 then pieces[0] else pieces[0] + [sep] + Join(pieces[1..], sep)
  }

  /** `pattern` occurs in `s` at index `i`. */
  predicate OccursAt(s: string, pattern: string, i: int)
  {
    0 <= i && i + |pattern| <= |s| && s[i..i + |pattern|] == pattern
  }

  /** `pattern` occurs somewhere in `s`. */
  ghost predicate Occurs(s: string, pattern: string)
  {
    exists i :: OccursAt(s, pattern, i)
  }

  /** `s.Replace(pattern, "")`: removes the occurrences of `pattern` found scanning from the left.
      The string comes back unchanged exactly when the pattern does not occur in it, and shorter
      otherwise. */
  function RemoveAll(s: string, pattern: string): (r: string)
    requires pattern != []
    ensures |r| <= |s|
    ensures r == s <==> !Occurs(s, pattern)
    decreases |s|
  {
    if |s| >= |pattern| && s[..|pattern|] == pattern then
      assert OccursAt(s, pattern, 0);
      RemoveAll(s[|pattern|..], pattern)
    else if s == [] then []
    else
      OccursPastFirst(s, pattern);
      [s[0]] + RemoveAll(s[1..], pattern)
  }

  /** Without an occurrence at the start, `pattern` occurs in `s` exactly when it occurs in `s[1..]`. */
  lemma OccursPastFirst(s: string, pattern: string)
    requires s != [] && !OccursAt(s, pattern, 0)
    ensures Occurs(s, pattern) <==> Occurs(s[1..], pattern)
  {
    if Occurs(s, pattern) {
      var i :| OccursAt(s, pattern, i);
      assert s[1..][i - 1..i - 1 + |pattern|] == s[i..i + |pattern|];
      assert OccursAt(s[1..], pattern, i - 1);
    }
    if Occurs(s[1..], pattern) {
      var i :| OccursAt(s[1..], pattern, i);
      assert s[1..][i..i + |pattern|] == s[i + 1..i + 1 + |pattern|];
      assert OccursAt(s, pattern, i + 1);
    }
  }

  /** The characters `Path.HasExtension` stops at: directory, alternative directory and volume separators. */
  predicate IsPathSeparator(ch: char)
  {
    ch == '\\' || ch == '/' || ch == ':'
  }

  /** `Path.HasExtension`: the last '.' after the last separator exists and is not the final character. */
  predicate HasExtension(path: string)
  {
    ExtensionScan(path, |path|)
  }

  /** Scans `path[..i]` backwards for a '.' before any separator. */
  predicate ExtensionScan(path: string, i: nat)
    requires i <= |path|
  {
    if i == 0 then false
    else if path[i - 1] == '.' then i - 1 != |path| - 1
    else if IsPathSeparator(path[i - 1]) then false
    else ExtensionScan(path, i - 1)
  }

  // ---------------------------------------------------------------------------
  // Properties

  /** Splitting and joining are inverse: no piece holds the separator, and joining restores the string. */
  lemma {:induction false} SplitJoin(s: string, sep: char)
    ensures forall i :: 0 <= i < |SplitAll(s, sep)| ==> sep !in SplitAll(s, sep)[i]
    ensures Join(SplitAll(s, sep), sep) == s
  {
    if s != [] {
      SplitJoin(s[1..], sep);
      var rest := SplitAll(s[1..], sep);
      if s[0] == sep {
        assert SplitAll(s, sep)[1..] == rest;
      } else {
        var r := SplitAll(s, sep);
        assert r[0] == [s[0]] + rest[0];
        assert forall i :: 1 <= i < |r| ==> r[i] == rest[i];
        if |rest| > 1 {
          assert r[1..] == rest[1..];
          assert Join(r, sep) == r[0] + [sep] + Join(rest[1..], sep);
          assert Join(rest, sep) == rest[0] + [sep] + Join(rest[1..], sep);
        }
      }
    }
  }

  /** Splitting around one separator splits each side separately. */
  lemma {:induction false} SplitAllAppend(p: string, sep: char, q: string)
    ensures SplitAll(p + [sep] + q, sep) == SplitAll(p, sep) + SplitAll(q, sep)
  {
    if p == [] {
      assert p + [sep] + q == [sep] + q;
      assert ([sep] + q)[1..] == q;
    } else {
      assert (p + [sep] + q)[1..] == p[1..] + [sep] + q;
      SplitAllAppend(p[1..], sep, q);
    }
  }

  lemma {:induction false} NonEmptyAppend(a: seq<string>, b: seq<string>)
    ensures NonEmpty(a + b) == NonEmpty(a) + NonEmpty(b)
  {
    if a == [] {
      assert a + b == b;
    } else {
      assert (a + b)[0] == a[0];
      assert (a + b)[1..] == a[1..] + b;
      NonEmptyAppend(a[1..], b);
    }
  }

  /** Empty pieces are discarded, so a doubled separator splits like a single one ("A//B" like "A/B"). */
  lemma DoubledSeparator(p: string, sep: char, q: string)
    ensures SplitNonEmpty(p + [sep, sep] + q, sep) == SplitNonEmpty(p + [sep] + q, sep)
  {
    assert p + [sep, sep] + q == p + [sep] + ([sep] + q);
    SplitAllAppend(p, sep, [sep] + q);
    SplitAllAppend(p, sep, q);
    SplitAllAppend([], sep, q);
    assert [] + [sep] + q == [sep] + q;
    NonEmptyAppend(SplitAll(p, sep), SplitAll([sep] + q, sep));
    NonEmptyAppend(SplitAll(p, sep), SplitAll(q, sep));
    NonEmptyAppend([[]], SplitAll(q, sep));
  }

  /** ".meta" cannot overlap itself, so removing it from `s + ".meta"` removes the suffix and acts on `s` as before. */
  lemma {:induction false} RemoveMetaSuffix(s: string)
    ensures RemoveAll(s + ".meta", ".meta") == RemoveAll(s, ".meta")
    decreases |s|
  {
    var pat := ".meta";
    if |s| >= 5 && s[..5] == pat {
      assert (s + pat)[..5] == pat;
      assert (s + pat)[5..] == s[5..] + pat;
      RemoveMetaSuffix(s[5..]);
    } else if s == [] {
      assert s + pat == pat;
      assert pat[5..] == [];
    } else {
      assert (s + pat)[..5] != pat by {
        if |s| >= 5 {
          assert (s + pat)[..5] == s[..5];
        } else {
          assert (s + pat)[..5] == s + pat[..5 - |s|];
          assert (s + pat)[|s|] == pat[0];
        }
      }
      assert (s + pat)[1..] == s[1..] + pat;
      RemoveMetaSuffix(s[1..]);
    }
  }

  /** No occurrence of `pattern` in `a + b` straddles the end of `a`. */
  predicate NoStraddle(a: string, b: string, pattern: string)
  {
    forall i :: 0 <= i < |a| < i + |pattern| ==> !OccursAt(a + b, pattern, i)
  }

  /** Dropping `k` characters from the front of `a` keeps occurrences from straddling. */
  lemma NoStraddleDrop(a: string, b: string, pattern: string, k: nat)
    requires k <= |a| && NoStraddle(a, b, pattern)
    ensures NoStraddle(a[k..], b, pattern)
  {
    assert (a + b)[k..] == a[k..] + b;
    forall i | 0 <= i < |a[k..]| < i + |pattern|
      ensures !OccursAt(a[k..] + b, pattern, i)
    {
      assert !OccursAt(a + b, pattern, i + k);
    }
  }

  /** Removing acts on each side of a split separately when no occurrence of the pattern
      straddles it. */
  lemma {:induction false} RemoveAllAppend(a: string, b: string, pattern: string)
    requires pattern != [] && NoStraddle(a, b, pattern)
    ensures RemoveAll(a + b, pattern) == RemoveAll(a, pattern) + RemoveAll(b, pattern)
    decreases |a|
  {
    var n := |pattern|;
    if a == [] {
      assert a + b == b;
    } else if |a| >= n && a[..n] == pattern {
      assert (a + b)[..n] == pattern;
      assert (a + b)[n..] == a[n..] + b;
      NoStraddleDrop(a, b, pattern, n);
      RemoveAllAppend(a[n..], b, pattern);
    } else {
      if |a| >= n {
        assert (a + b)[..n] == a[..n];
      } else {
        assert !OccursAt(a + b, pattern, 0);
      }
      assert (a + b)[1..] == a[1..] + b;
      NoStraddleDrop(a, b, pattern, 1);
      RemoveAllAppend(a[1..], b, pattern);
    }
  }

  /** A ".meta" path always has an extension. */
  lemma MetaHasExtension(s: string)
    ensures HasExtension(s + ".meta")
  {
    var p := s + ".meta";
    var n := |p|;
    assert p[n - 1] == 'a' && p[n - 2] == 't' && p[n - 3] == 'e' && p[n - 4] == 'm' && p[n - 5] == '.';
    assert ExtensionScan(p, n - 4);
    assert ExtensionScan(p, n - 3);
    assert ExtensionScan(p, n - 2);
    assert ExtensionScan(p, n - 1);
  }

  /** The pieces with `s` appended to the last one. */
  function ExtendLast(pieces: seq<string>, s: string): (r: seq<string>)
    requires |pieces| >= 1
    ensures |r| == |pieces|
  {
    pieces[..|pieces| - 1] + [pieces[|pieces| - 1] + s]
  }

  lemma ExtendLastCons(x: string, rest: seq<string>, s: string)
    requires |rest| >= 1
    ensures ExtendLast([x] + rest, s) == [x] + ExtendLast(rest, s)
  {
    assert ([x] + rest)[..|rest|] == [x] + rest[..|rest| - 1];
  }

  lemma ExtendLastHead(c: char, rest: seq<string>, s: string)
    requires |rest| >= 1
    ensures var extended := ExtendLast(rest, s);
      ExtendLast([[c] + rest[0]] + rest[1..], s) == [[c] + extended[0]] + extended[1..]
  {
    var extended := ExtendLast(rest, s);
    if |rest| == 1 {
      assert extended == [rest[0] + s];
      assert [c] + (rest[0] + s) == ([c] + rest[0]) + s;
    } else {
      ExtendLastCons([c] + rest[0], rest[1..], s);
      ExtendLastCons(rest[0], rest[1..], s);
      assert [rest[0]] + rest[1..] == rest;
    }
  }

  lemma {:induction false} SplitAllNoSeparator(s: string, sep: char)
    requires sep !in s
    ensures SplitAll(s, sep) == [s]
  {
    if s != [] {
      assert sep !in s[1..];
      SplitAllNoSeparator(s[1..], sep);
      assert [s[0]] + s[1..] == s;
    }
  }

  /** Appending text without a separator only extends the last piece of a split. */
  lemma {:induction false} SplitAllExtendLast(p: string, sep: char, s: string)
    requires sep !in s
    ensures SplitAll(p + s, sep) == ExtendLast(SplitAll(p, sep), s)
  {
    if p == [] {
      assert p + s == s;
      SplitAllNoSeparator(s, sep);
    } else {
      assert (p + s)[0] == p[0];
      assert (p + s)[1..] == p[1..] + s;
      SplitAllExtendLast(p[1..], sep, s);
      var rest := SplitAll(p[1..], sep);
      if p[0] == sep {
        ExtendLastCons([], rest, s);
      } else {
        ExtendLastHead(p[0], rest, s);
      }
    }
  }

  /** `EndsWith` holds exactly when the string is something followed by the suffix. */
  lemma EndsWithAppend(s: string, suffix: string)
    ensures EndsWith(s, suffix) <==> exists p :: p + suffix == s
  {
    if EndsWith(s, suffix) {
      assert s[..|s| - |suffix|] + suffix == s;
    }
    if exists p :: p + suffix == s {
      var p :| p + suffix == s;
      assert s[|s| - |suffix|..] == suffix;
    }
  }

  /** The pieces of a split without empty entries are non-empty and free of the separator; a string
      without the separator is one piece, or none when it is empty. */
  lemma SplitNonEmptyPieces(s: string, sep: char)
    ensures var r := SplitNonEmpty(s, sep);
      && (forall i :: 0 <= i < |r| ==> r[i] != [] && sep !in r[i])
      && (sep !in s ==> r == if s == [] then [] else [s])
  {
    SplitJoin(s, sep);
    var r := SplitNonEmpty(s, sep);
    forall i | 0 <= i < |r| ensures sep !in r[i] {
      assert r[i] in SplitAll(s, sep);
    }
    if sep !in s {
      SplitAllNoSeparator(s, sep);
      assert NonEmpty([s]) == (if s == [] then [] else [s]) + NonEmpty([]);
    }
  }

  /** `ExtensionScan` over `path[..n]` finds a '.' that is not the last character of the path and
      has neither a '.' nor a separator after it before `n`. */
  lemma {:induction false} ExtensionScanMeaning(path: string, n: nat)
    requires n <= |path|
    ensures ExtensionScan(path, n) <==>
      exists i :: 0 <= i < n && i != |path| - 1 && path[i] == '.'
        && forall j :: i < j < n ==> path[j] != '.' && !IsPathSeparator(path[j])
  {
    if n > 0 {
      var c := path[n - 1];
      if c == '.' {
        if n - 1 == |path| - 1 {
          forall i | 0 <= i < n - 1 && path[i] == '.'
            ensures !forall j :: i < j < n ==> path[j] != '.' && !IsPathSeparator(path[j])
          {
            assert path[n - 1] == '.';
          }
        }
      } else if IsPathSeparator(c) {
        forall i | 0 <= i < n - 1 && path[i] == '.'
          ensures !forall j :: i < j < n ==> path[j] != '.' && !IsPathSeparator(path[j])
        {
          assert IsPathSeparator(path[n - 1]);
        }
      } else {
        ExtensionScanMeaning(path, n - 1);
      }
    }
  }

  /** `Path.HasExtension`: the last '.' after the last separator exists and is not the final
      character. */
  lemma HasExtensionMeaning(path: string)
    ensures HasExtension(path) <==>
      exists i :: 0 <= i < |path| - 1 && path[i] == '.'
        && forall j :: i < j < |path| ==> path[j] != '.' && !IsPathSeparator(path[j])
  {
    ExtensionScanMeaning(path, |path|);
  }
}
