/**
 Strings as sequences of characters: ASCII lower-casing, splitting at a
 separator character (JavaScript's `String.prototype.split` with a one-character
 separator) and joining (`Array.prototype.join`).
 */
module Strings {

  /** Lower-cases an ASCII upper-case letter; every other character is kept. */
  function LowerChar(c: char): char
  {
    if 'A' <= c <= 'Z' then (c as int + 32) as char else c
  }

  /** Lower-cases every character of `s`. */
  function Lower(s: string): (r: string)
    ensures |r| == |s|
    ensures forall i :: 0 <= i < |s| ==> r[i] == LowerChar(s[i])
  {
    seq(|s|, i requires 0 <= i < |s| => LowerChar(s[i]))
  }

  /** A separator that lower-casing neither produces nor destroys. */
  predicate NotALetter(c: char)
  {
    !('A' <= c <= 'Z') && !('a' <= c <= 'z')
  }

  lemma LowerCharKeepsSeparator(c: char, sep: char)
    requires NotALetter(sep)
    ensures LowerChar(c) == sep <==> c == sep
  {
  }

  /** Text without upper-case ASCII letters is its own lower-case form. */
  lemma LowerOfLowerCase(s: string)
    requires forall i :: 0 <= i < |s| ==> !('A' <= s[i] <= 'Z')
    ensures Lower(s) == s
  {
  }

  lemma LowerIdempotent(s: string)
    ensures Lower(Lower(s)) == Lower(s)
  {
  }

  /** The pieces of `s` between occurrences of `sep`, in order. */
  function Split(s: string, sep: char): (parts: seq<string>)
    ensures |parts| >= 1
    ensures forall i :: 0 <= i < |parts| ==> sep !in parts[i]
    ensures sep !in s ==> parts == [s]
    ensures sep in s ==> |parts| >= 2
    decreases |s|
  {
    if |s| == 0 then [""]
    else
      var rest := Split(s[1..], sep);
      if s[0] == sep then [""] + rest
      else
        assert s == [s[0]] + s[1..];
        [[s[0]] + rest[0]] + rest[1..]
  }

  /** The pieces concatenated with `sep` between each two neighbours. */
  function Join(parts: seq<string>, sep: string): string
  {
    if |parts| == 0 then ""
    else if |parts| == 1 then parts[0]
    else parts[0] + sep + Join(parts[1..], sep)
  }

  function Last<T>(xs: seq<T>): T
    requires |xs| > 0
  {
    xs[|xs| - 1]
  }

  /**
   The index just after the last occurrence of `sep` in `s`, or 0 when `sep`
   does not occur: an independent, right-to-left definition of where the last
   piece of `Split(s, sep)` begins.
   */
  function SegmentStart(s: string, sep: char): (k: nat)
    ensures k <= |s|
    ensures sep !in s[k..]
    ensures k == 0 || s[k - 1] == sep
    decreases |s|
  {
    if |s| == 0 then 0
    else if s[|s| - 1] == sep then |s|
    else
      var k := SegmentStart(s[..|s| - 1], sep);
      assert s[k..] == s[..|s| - 1][k..] + [s[|s| - 1]];
      k
  }

  /** `seg` is a suffix of `s` free of `sep` that is all of `s` or follows a `sep`. */
  predicate IsLastSegment(s: string, sep: char, seg: string)
  {
    && |seg| <= |s|
    && seg == s[|s| - |seg|..]
    && sep !in seg
    && (|seg| == |s| || s[|s| - |seg| - 1] == sep)
  }

  lemma LastSegmentUnique(s: string, sep: char, a: string, b: string)
    requires IsLastSegment(s, sep, a) && IsLastSegment(s, sep, b)
    ensures a == b
  {
  }

  /** A last segment of `s[1..]` is one of `s` unless it is all of `s[1..]` and `s[0]` is no separator. */
  lemma ExtendLastSegment(s: string, sep: char, seg: string)
    requires |s| > 0 && IsLastSegment(s[1..], sep, seg)
    requires |seg| < |s| - 1 || s[0] == sep
    ensures IsLastSegment(s, sep, seg)
  {
    var t := s[1..];
    assert s[|s| - |seg|..] == t[|t| - |seg|..];
    assert s[|s| - |seg| - 1] == if |seg| == |t| then s[0] else t[|t| - |seg| - 1];
  }

  lemma {:induction false} SplitLastIsLastSegment(s: string, sep: char)
    ensures IsLastSegment(s, sep, Last(Split(s, sep)))
    decreases |s|
  {
    if |s| > 0 {
      var t := s[1..];
      var rest := Split(t, sep);
      SplitLastIsLastSegment(t, sep);
      var seg := Last(rest);
      if s[0] == sep {
        assert Last(Split(s, sep)) == seg;
        ExtendLastSegment(s, sep, seg);
      } else if |rest| == 1 {
        assert rest == [t];
        assert s == [s[0]] + t;
        assert Last(Split(s, sep)) == s;
      } else {
        assert Last(Split(s, sep)) == seg;
        assert sep in t;
        assert |seg| < |t|;
        ExtendLastSegment(s, sep, seg);
      }
    }
  }

  /** The last piece of a split is exactly the text after the last separator. */
  lemma SplitLastIsAfterLastSeparator(s: string, sep: char)
    ensures Last(Split(s, sep)) == s[SegmentStart(s, sep)..]
  {
    SplitLastIsLastSegment(s, sep);
    LastSegmentUnique(s, sep, Last(Split(s, sep)), s[SegmentStart(s, sep)..]);
  }

  /** Joining the pieces back with the separator gives the original text. */
  lemma {:induction false} SplitJoin(s: string, sep: char)
    ensures Join(Split(s, sep), [sep]) == s
    decreases |s|
  {
    if |s| > 0 {
      var t := s[1..];
      var rest := Split(t, sep);
      SplitJoin(t, sep);
      assert s == [s[0]] + t;
      if s[0] == sep {
        assert Split(s, sep) == [""] + rest;
      } else if |rest| == 1 {
        assert Split(s, sep) == [[s[0]] + rest[0]];
      } else {
        var parts := Split(s, sep);
        assert parts[1..] == rest[1..];
        assert Join(rest, [sep]) == rest[0] + [sep] + Join(rest[1..], [sep]);
      }
    }
  }

  /** Lower-casing does not move the last separator when it is not a letter. */
  lemma {:induction false} LowerKeepsSegmentStart(s: string, sep: char)
    requires NotALetter(sep)
    ensures SegmentStart(Lower(s), sep) == SegmentStart(s, sep)
    decreases |s|
  {
    if |s| > 0 {
      var n := |s| - 1;
      LowerCharKeepsSeparator(s[n], sep);
      assert Lower(s)[..n] == Lower(s[..n]);
      LowerKeepsSegmentStart(s[..n], sep);
    }
  }

  /** The text after the last `sep` of `prefix + [sep] + tail`, when `tail` has no `sep`, is `tail`. */
  lemma {:induction false} SegmentStartAfterSeparator(prefix: string, sep: char, tail: string)
    requires sep !in tail
    ensures SegmentStart(prefix + [sep] + tail, sep) == |prefix| + 1
    decreases |tail|
  {
    var s := prefix + [sep] + tail;
    if |tail| > 0 {
      var n := |tail| - 1;
      assert s[|s| - 1] == tail[n];
      assert s[..|s| - 1] == prefix + [sep] + tail[..n];
      SegmentStartAfterSeparator(prefix, sep, tail[..n]);
    }
  }

  lemma SegmentStartWithoutSeparator(s: string, sep: char)
    requires sep !in s
    ensures SegmentStart(s, sep) == 0
  {
  }

}
