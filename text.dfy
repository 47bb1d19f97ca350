/**
 * The few Python string operations the handler relies on: `str.split` with a
 * one-character separator, `sep.join`, taking the last piece of a split (which
 * is also what `os.path.basename` returns for `/`), `str.endswith` and the
 * negative slice `s[:-n]`.
 */
module Text {

  /** `s.split(sep)`: the pieces between occurrences of `sep`; never empty. */
  function Split(s: string, sep: char): (parts: seq<string>)
    ensures |parts| >= 1
    ensures forall i :: 0 <= i < |parts| ==> sep !in parts[i]
    ensures sep !in s ==> parts == [s]
    ensures sep in s ==> |parts| >= 2
    decreases |s|
  {
    if |s| == 0 then [""]
    else
      var rest := Split(s[1..], sep);
      if s[0] == sep then [""] + rest
      else
        assert sep !in s ==> s == [s[0]] + s[1..];
        [[s[0]] + rest[0]] + rest[1..]
  }

  /** `sep.join(parts)`. */
  function Join(parts: seq<string>, sep: char): string
  {
    if |parts| == 0 then ""
    else if |parts| == 1 then parts[0]
    else parts[0] + [sep] + Join(parts[1..], sep)
  }

  /** Joining the pieces of a split gives back the original string. */
  lemma {:induction false} JoinSplit(s: string, sep: char)
    ensures Join(Split(s, sep), sep) == s
    decreases |s|
  {
    if |s| > 0 {
      var rest := Split(s[1..], sep);
      JoinSplit(s[1..], sep);
      if s[0] == sep {
        assert Split(s, sep) == [""] + rest;
        assert ([""] + rest)[1..] == rest;
      } else if |rest| > 1 {
        assert Join(rest, sep) == rest[0] + [sep] + Join(rest[1..], sep);
        assert Split(s, sep)[1..] == rest[1..];
      }
    }
  }

  /** Splitting a string that starts with a separator-free piece and a separator. */
  lemma {:induction false} SplitAfterPiece(p: string, t: string, sep: char)
    requires sep !in p
    ensures Split(p + [sep] + t, sep) == [p] + Split(t, sep)
    decreases |p|
  {
    var s := p + [sep] + t;
    if |p| == 0 {
      assert s[1..] == t;
    } else {
      assert s[1..] == p[1..] + [sep] + t;
      SplitAfterPiece(p[1..], t, sep);
      assert [p[0]] + p[1..] == p;
    }
  }

  /** Splitting a join of separator-free pieces gives back the pieces. */
  lemma {:induction false} SplitJoin(parts: seq<string>, sep: char)
    requires |parts| >= 1
    requires forall i :: 0 <= i < |parts| ==> sep !in parts[i]
    ensures Split(Join(parts, sep), sep) == parts
    decreases |parts|
  {
    if |parts| > 1 {
      SplitAfterPiece(parts[0], Join(parts[1..], sep), sep);
      SplitJoin(parts[1..], sep);
      assert [parts[0]] + parts[1..] == parts;
    }
  }

  function Last<T>(xs: seq<T>): T
    requires |xs| > 0
  {
    xs[|xs| - 1]
  }

  /** The last piece of a split is the tail of `s` after its last separator. */
  lemma {:induction false} SplitLastIsTail(s: string, sep: char)
    ensures var r := Last(Split(s, sep));
      |r| <= |s| && r == s[|s| - |r|..] && (|r| < |s| ==> s[|s| - |r| - 1] == sep)
    decreases |s|
  {
    if |s| > 0 {
      var t := s[1..];
      var rest := Split(t, sep);
      SplitLastIsTail(t, sep);
      var r' := Last(rest);
      if s[0] != sep && |rest| == 1 {
        assert sep !in t;
        assert rest == [t];
        assert Split(s, sep) == [[s[0]] + t];
        assert [s[0]] + t == s;
      } else {
        assert Last(Split(s, sep)) == r';
        assert r' == s[|s| - |r'|..];
      }
    }
  }

  /**
   * `s.split(sep)[-1]`, which for `sep == '/'` is also `os.path.basename(s)`:
   * the tail of `s` after its last separator, or all of `s` when there is none.
   */
  function LastSegment(s: string, sep: char): (r: string)
    ensures sep !in r
    ensures |r| <= |s| && r == s[|s| - |r|..]
    ensures |r| < |s| ==> s[|s| - |r| - 1] == sep
  {
    SplitLastIsTail(s, sep);
    Last(Split(s, sep))
  }

  /** `s.endswith(suffix)`. */
  predicate EndsWith(s: string, suffix: string)
  {
    |suffix| <= |s| && s[|s| - |suffix|..] == suffix
  }

  /** `s[:-n]` for a positive `n`: all but the last `n` characters, or nothing. */
  function DropLast(s: string, n: nat): (r: string)
    requires n > 0
    ensures |r| == if |s| >= n then |s| - n else 0
    ensures r == s[..|r|]
  {
    if |s| >= n then s[..|s| - n] else ""
  }

  /** The first index in `s` holding a character of `cs`, or `|s|` if there is none. */
  function IndexOfAny(s: string, cs: set<char>): (i: nat)
    ensures i <= |s|
    ensures forall k :: 0 <= k < i ==> s[k] !in cs
    ensures i < |s| ==> s[i] in cs
  {
    if |s| == 0 then 0
    else if s[0] in cs then 0
    else 1 + IndexOfAny(s[1..], cs)
  }

  /** `c.lower()` for ASCII characters; every other character is left as it is. */
  function LowerAscii(c: char): char
  {
    if 'A' <= c <= 'Z' then (c as int + 32) as char else c
  }

  function Lower(s: string): (r: string)
    ensures |r| == |s|
  {
    if |s| == 0 then "" else [LowerAscii(s[0])] + Lower(s[1..])
  }

  /**
   * Two strings that both are "the tail of `s` after its last separator" are
   * the same string.
   */
  lemma TailAfterLastSepUnique(s: string, sep: char, r1: string, r2: string)
    requires |r1| <= |s| && r1 == s[|s| - |r1|..] && sep !in r1 && (|r1| < |s| ==> s[|s| - |r1| - 1] == sep)
    requires |r2| <= |s| && r2 == s[|s| - |r2|..] && sep !in r2 && (|r2| < |s| ==> s[|s| - |r2| - 1] == sep)
    ensures r1 == r2
  {
  }

  /** Text before the last separator does not affect the last segment. */
  lemma LastSegmentOfAppend(a: string, b: string, sep: char)
    requires sep in b
    ensures LastSegment(a + b, sep) == LastSegment(b, sep)
  {
    var r := LastSegment(b, sep);
    var s := a + b;
    assert s[|s| - |r|..] == b[|b| - |r|..];
    assert s[|s| - |r| - 1] == b[|b| - |r| - 1];
    TailAfterLastSepUnique(s, sep, r, LastSegment(s, sep));
  }

  /** `IndexOfAny` finds the first position holding a character of the set. */
  lemma IndexOfAnyAt(s: string, cs: set<char>, i: nat)
    requires i <= |s|
    requires forall k :: 0 <= k < i ==> s[k] !in cs
    requires i < |s| ==> s[i] in cs
    ensures IndexOfAny(s, cs) == i
  {
  }

  /** The last segment of `a`, a separator and a separator-free `name` is `name`. */
  lemma LastSegmentAfter(a: string, name: string, sep: char)
    requires sep !in name
    ensures LastSegment(a + [sep] + name, sep) == name
  {
    assert a + [sep] + name == a + ([sep] + name);
    LastSegmentOfAppend(a, [sep] + name, sep);
    TailAfterLastSepUnique([sep] + name, sep, name, LastSegment([sep] + name, sep));
  }
}
