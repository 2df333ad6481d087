/**
 * The string operations of JavaScript that the resolver relies on: indexOf,
 * startsWith/endsWith, splitting on path separators, ASCII case folding and
 * the character classes `\d` and `\w` (which, outside Unicode mode, are ASCII).
 */
module Text {

  /** `s.indexOf(c)`: the first index of `c` in `s`, or -1. */
  function IndexOf(s: string, c: char): (r: int)
    ensures -1 <= r < |s|
    ensures r == -1 <==> c !in s
    ensures r >= 0 ==> s[r] == c && c !in s[..r]
  {
    if |s| == 0 then -1
    else if s[0] == c then 0
    else
      var k := IndexOf(s[1..], c);
      assert s[1..][..k + 1] == s[1..k + 2] by { if k >= 0 { assert s[1..][..k] == s[1..k + 1]; } }
      if k == -1 then -1 else k + 1
  }

  predicate StartsWith(s: string, prefix: string)
  {
    |prefix| <= |s| && s[..|prefix|] == prefix
  }

  predicate EndsWith(s: string, suffix: string)
  {
    |suffix| <= |s| && s[|s| - |suffix|..] == suffix
  }

  /** The separators of `/\/|\\/`. */
  predicate IsSeparator(c: char)
  {
    c == '/' || c == '\\'
  }

  predicate NoSeparator(s: string)
  {
    forall k | 0 <= k < |s| :: !IsSeparator(s[k])
  }

  /** `s.split(/\/|\\/)`: the segments between separators; never empty. */
  function Split(s: string): (segments: seq<string>)
    ensures |segments| >= 1
  {
    if s == [] then [""]
    else
      var rest := Split(s[1..]);
      if IsSeparator(s[0]) then [""] + rest
      else [[s[0]] + rest[0]] + rest[1..]
  }

  /** No segment of a split holds a separator. */
  lemma {:induction false} SplitHasNoSeparator(s: string)
    ensures forall i | 0 <= i < |Split(s)| :: NoSeparator(Split(s)[i])
    decreases |s|
  {
    if s != [] {
      SplitHasNoSeparator(s[1..]);
      var rest := Split(s[1..]);
      if !IsSeparator(s[0]) {
        assert NoSeparator([s[0]] + rest[0]) by {
          forall k | 0 <= k < |[s[0]] + rest[0]| ensures !IsSeparator(([s[0]] + rest[0])[k]) {
            if k > 0 { assert ([s[0]] + rest[0])[k] == rest[0][k - 1]; }
          }
        }
      }
    }
  }

  /** Segments glued back together with `/`: the inverse of Split. */
  function Join(segments: seq<string>): string
    requires |segments| >= 1
  {
    if |segments| == 1 then segments[0]
    else segments[0] + "/" + Join(segments[1..])
  }

  lemma {:induction false} SplitSingle(s: string)
    requires NoSeparator(s)
    ensures Split(s) == [s]
    decreases |s|
  {
    if s != [] {
      SplitSingle(s[1..]);
      assert [s[0]] + s[1..] == s;
    }
  }

  /** One step of Split, stated on a string built by prepending one character. */
  lemma SplitCons(c: char, t: string)
    ensures Split([c] + t) ==
      if IsSeparator(c) then [""] + Split(t) else [[c] + Split(t)[0]] + Split(t)[1..]
  {
    assert ([c] + t)[1..] == t;
  }

  /** Gluing a character onto the first segment commutes with appending more segments. */
  lemma ExtendFirst(c: char, ra: seq<string>, rb: seq<string>)
    requires |ra| >= 1
    ensures [[c] + (ra + rb)[0]] + (ra + rb)[1..] == ([[c] + ra[0]] + ra[1..]) + rb
  {
    assert (ra + rb)[0] == ra[0];
    assert (ra + rb)[1..] == ra[1..] + rb;
  }

  /** The inductive step of SplitAtSeparator on a separator: both splits gain an empty first segment. */
  lemma SplitStepSeparator(c: char, t: string, rest: string, rb: seq<string>)
    requires IsSeparator(c)
    requires Split(t) == Split(rest) + rb
    ensures Split([c] + t) == Split([c] + rest) + rb
  {
    SplitCons(c, t);
    SplitCons(c, rest);
  }

  /** The inductive step of SplitAtSeparator on another character: both first segments gain it. */
  lemma SplitStepWord(c: char, t: string, rest: string, rb: seq<string>)
    requires !IsSeparator(c)
    requires Split(t) == Split(rest) + rb
    ensures Split([c] + t) == Split([c] + rest) + rb
  {
    SplitCons(c, t);
    SplitCons(c, rest);
    ExtendFirst(c, Split(rest), rb);
  }

  /** Splitting distributes over a separator. */
  lemma {:induction false} SplitAtSeparator(a: string, sep: char, b: string)
    requires IsSeparator(sep)
    ensures Split(a + [sep] + b) == Split(a) + Split(b)
    decreases |a|
  {
    if a == [] {
      assert a + [sep] + b == [sep] + b;
      SplitCons(sep, b);
    } else {
      var c, rest := a[0], a[1..];
      SplitAtSeparator(rest, sep, b);
      if IsSeparator(c) {
        SplitStepSeparator(c, rest + [sep] + b, rest, Split(b));
      } else {
        SplitStepWord(c, rest + [sep] + b, rest, Split(b));
      }
      assert a == [c] + rest;
      assert a + [sep] + b == [c] + (rest + [sep] + b);
    }
  }

  /** Round trip: splitting the join of separator-free segments gives them back. */
  lemma {:induction false} SplitJoin(segments: seq<string>)
    requires |segments| >= 1
    requires forall i | 0 <= i < |segments| :: NoSeparator(segments[i])
    ensures Split(Join(segments)) == segments
    decreases |segments|
  {
    SplitSingle(segments[0]);
    if |segments| > 1 {
      SplitJoin(segments[1..]);
      assert segments[0] + "/" + Join(segments[1..]) == segments[0] + ['/'] + Join(segments[1..]);
      SplitAtSeparator(segments[0], '/', Join(segments[1..]));
      assert [segments[0]] + segments[1..] == segments;
    }
  }

  function LowerAscii(c: char): char
  {
    if 'A' <= c <= 'Z' then (c as int - 'A' as int + 'a' as int) as char else c
  }

  /** ASCII case folding, as the `i` flag of a non-Unicode regular expression does for these patterns. */
  function Lower(s: string): (r: string)
    ensures |r| == |s|
    ensures forall k | 0 <= k < |s| :: r[k] == LowerAscii(s[k])
  {
    if s == [] then [] else [LowerAscii(s[0])] + Lower(s[1..])
  }

  /** `/^\d+$/` */
  predicate IsInteger(s: string)
  {
    |s| > 0 && forall k | 0 <= k < |s| :: '0' <= s[k] <= '9'
  }

  /** `\w`: ASCII letters, digits and `_`; never a separator, `.` or `:`. */
  predicate IsWordChar(c: char)
    ensures IsWordChar(c) ==> !IsSeparator(c) && c != '.' && c != ':'
  {
    'a' <= c <= 'z' || 'A' <= c <= 'Z' || '0' <= c <= '9' || c == '_'
  }
}
