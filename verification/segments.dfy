/** Colon-separated segments, as JavaScript's `s.split(':')` produces them:
    always at least one segment, empty segments kept. */
module Segments {

  const SEP: char := ':'

  /** Number of separators in `s`. */
  function Count(s: string): nat {
    if s == [] then 0 else (if s[0] == SEP then 1 else 0) + Count(s[1..])
  }

  /** `s.split(':')`. */
  function Split(s: string): (parts: seq<string>)
    ensures |parts| == Count(s) + 1
    ensures forall i :: 0 <= i < |parts| ==> SEP !in parts[i]
  {
    if s == [] then [""]
    else
      var rest := Split(s[1..]);
      if s[0] == SEP then [""] + rest
      else [[s[0]] + rest[0]] + rest[1..]
  }

  /** `parts.join(':')`. */
  function Join(parts: seq<string>): string
    requires |parts| >= 1
  {
    if |parts| == 1 then parts[0] else parts[0] + [SEP] + Join(parts[1..])
  }

  lemma {:induction false} CountZero(s: string)
    requires SEP !in s
    ensures Count(s) == 0
  {
    if s != [] {
      assert s[0] in s;
      CountZero(s[1..]);
    }
  }

  /** Splitting a string that starts with a separator-free prefix glues that prefix onto the first segment. */
  lemma {:induction false} SplitPrefix(a: string, t: string)
    requires SEP !in a
    ensures Split(a + t) == [a + Split(t)[0]] + Split(t)[1..]
  {
    if a == [] {
      assert a + t == t;
      assert a + Split(t)[0] == Split(t)[0];
      assert Split(t) == [Split(t)[0]] + Split(t)[1..];
    } else {
      assert a[0] in a;
      assert (a + t)[1..] == a[1..] + t;
      SplitPrefix(a[1..], t);
      assert [a[0]] + (a[1..] + Split(t)[0]) == a + Split(t)[0];
    }
  }

  /** Joining separator-free segments and splitting again gives back the segments. */
  lemma {:induction false} SplitJoin(parts: seq<string>)
    requires |parts| >= 1
    requires forall i :: 0 <= i < |parts| ==> SEP !in parts[i]
    ensures Split(Join(parts)) == parts
  {
    if |parts| == 1 {
      SplitPrefix(parts[0], "");
      assert parts[0] + "" == parts[0];
    } else {
      var rest := Join(parts[1..]);
      SplitJoin(parts[1..]);
      assert parts[0] + [SEP] + rest == parts[0] + ([SEP] + rest);
      SplitPrefix(parts[0], [SEP] + rest);
      assert ([SEP] + rest)[1..] == rest;
      assert parts[0] + "" == parts[0];
    }
  }

  /** Splitting and joining again gives back the string. */
  lemma {:induction false} JoinSplit(s: string)
    ensures Join(Split(s)) == s
  {
    if s != [] {
      var rest := Split(s[1..]);
      JoinSplit(s[1..]);
      if s[0] == SEP {
        assert ([""] + rest)[1..] == rest;
        assert s == [SEP] + s[1..];
      } else if |rest| == 1 {
        assert s == [s[0]] + s[1..];
      } else {
        var parts := Split(s);
        assert parts[1..] == rest[1..];
        assert Join(rest) == rest[0] + [SEP] + Join(rest[1..]);
        assert s == [s[0]] + s[1..];
      }
    }
  }

  /** JavaScript's `s.length`: strings are UTF-16, so a character above U+FFFF takes a
      surrogate pair and counts twice. The count equals the number of characters exactly
      when no character needs a pair. */
  function Utf16Length(s: string): (n: nat)
    ensures |s| <= n <= 2 * |s|
    ensures n == |s| <==> forall i :: 0 <= i < |s| ==> s[i] as int < 0x1_0000
  {
    if s == [] then 0
    else (if s[0] as int >= 0x1_0000 then 2 else 1) + Utf16Length(s[1..])
  }
}
