/**
 * String helpers shared by the extractor's stages: ASCII case folding, substring
 * containment (Python's `in` on strings), splitting on one separator character
 * (Python's `str.split(sep)`), and decimal digit strings.
 */
module Text {

  // ---------------------------------------------------------------- case folding

  /** ASCII lower-casing of one character; every other character is kept. */
  function Lower(c: char): (r: char)
    ensures 'A' <= c <= 'Z' ==> 'a' <= r <= 'z' && r as int - c as int == 32
    ensures !('A' <= c <= 'Z') ==> r == c
  {
    if 'A' <= c <= 'Z' then (c as int + 32) as char else c
  }

  /** `s.lower()`, restricted to ASCII letters. */
  function LowerStr(s: string): (r: string)
    ensures |r| == |s|
    ensures forall i :: 0 <= i < |s| ==> r[i] == Lower(s[i])
  {
    if s == [] then [] else [Lower(s[0])] + LowerStr(s[1..])
  }

  /** A string without upper-case ASCII letters is its own lower-case form. */
  lemma LowerNoUpper(s: string)
    requires forall i :: 0 <= i < |s| ==> !('A' <= s[i] <= 'Z')
    ensures LowerStr(s) == s
  {
  }

  /** Lower-casing keeps a prefix a prefix. */
  lemma {:induction false} LowerPrefix(s: string, t: string)
    requires StartsWith(s, t)
    ensures StartsWith(LowerStr(s), LowerStr(t))
    decreases |t|
  {
    if t != [] {
      assert s[0] == t[0];
      assert StartsWith(s[1..], t[1..]) by {
        assert s[1..][..|t| - 1] == s[..|t|][1..];
      }
      LowerPrefix(s[1..], t[1..]);
      assert LowerStr(s) == [Lower(s[0])] + LowerStr(s[1..]);
      assert LowerStr(t) == [Lower(t[0])] + LowerStr(t[1..]);
    }
  }

  // ---------------------------------------------------------------- containment

  predicate StartsWith(s: string, t: string) {
    |t| <= |s| && s[..|t|] == t
  }

  /** `t in s` on strings: `t` occurs somewhere in `s` as a contiguous piece. */
  predicate Contains(s: string, t: string)
    decreases |s|
  {
    StartsWith(s, t) || (s != [] && Contains(s[1..], t))
  }

  /** `t` occurs in `s` starting at position `i`. */
  predicate OccursAt(s: string, t: string, i: nat) {
    i + |t| <= |s| && s[i..i + |t|] == t
  }

  /** An occurrence at a position is found by `Contains`. */
  lemma {:induction false} ContainsAt(s: string, t: string, i: nat)
    requires OccursAt(s, t, i)
    ensures Contains(s, t)
    decreases i
  {
    if i > 0 {
      assert s[1..][i - 1..i - 1 + |t|] == s[i..i + |t|];
      ContainsAt(s[1..], t, i - 1);
    }
  }

  /** `Contains` is Python's `in`: `t` occurs in `s` exactly when it occurs at some position. */
  lemma {:induction false} ContainsIff(s: string, t: string)
    ensures Contains(s, t) <==> exists i: nat :: OccursAt(s, t, i)
    decreases |s|
  {
    if exists i: nat :: OccursAt(s, t, i) {
      var i: nat :| OccursAt(s, t, i);
      ContainsAt(s, t, i);
    }
    if Contains(s, t) {
      if StartsWith(s, t) {
        assert OccursAt(s, t, 0);
      } else {
        ContainsIff(s[1..], t);
        var i: nat :| OccursAt(s[1..], t, i);
        assert s[1..][i..i + |t|] == s[i + 1..i + 1 + |t|];
        assert OccursAt(s, t, i + 1);
      }
    }
  }

  /** A piece whose first character never occurs in `s` does not occur in `s`. */
  lemma {:induction false} NotContainsFirstChar(s: string, t: string)
    requires t != [] && t[0] !in s
    ensures !Contains(s, t)
    decreases |s|
  {
    if s != [] {
      assert s[0] in s;
      NotContainsFirstChar(s[1..], t);
    }
  }

  /** Case-folding both sides preserves an occurrence. */
  lemma {:induction false} ContainsLower(s: string, t: string)
    requires Contains(s, t)
    ensures Contains(LowerStr(s), LowerStr(t))
    decreases |s|
  {
    if StartsWith(s, t) {
      LowerPrefix(s, t);
    } else {
      ContainsLower(s[1..], t);
      assert LowerStr(s)[1..] == LowerStr(s[1..]);
    }
  }

  // ---------------------------------------------------------------- splitting

  /** Number of occurrences of `c` in `s`. */
  function Count(s: string, c: char): nat {
    if s == [] then 0 else (if s[0] == c then 1 else 0) + Count(s[1..], c)
  }

  /**
   * Python's `s.split(sep)`: the pieces between separators, keeping empty pieces;
   * `""` splits into `[""]`.
   */
  function Split(s: string, sep: char): (parts: seq<string>)
    ensures |parts| == Count(s, sep) + 1
    ensures forall i :: 0 <= i < |parts| ==> sep !in parts[i]
  {
    if s == [] then [""]
    else if s[0] == sep then [""] + Split(s[1..], sep)
    else
      var rest := Split(s[1..], sep);
      [[s[0]] + rest[0]] + rest[1..]
  }

  /** The inverse of `Split`: the pieces glued back together with `sep`. */
  function Join(parts: seq<string>, sep: char): string
    requires |parts| >= 1
  {
    if |parts| == 1 then parts[0] else parts[0] + [sep] + Join(parts[1..], sep)
  }

  /** Putting a character in front of the first piece puts it in front of the joined string. */
  lemma JoinConsHead(c: char, parts: seq<string>, sep: char)
    requires |parts| >= 1
    ensures Join([[c] + parts[0]] + parts[1..], sep) == [c] + Join(parts, sep)
  {
    var parts' := [[c] + parts[0]] + parts[1..];
    assert parts'[0] == [c] + parts[0];
    assert parts'[1..] == parts[1..];
  }

  /** Splitting loses nothing: joining the pieces gives back the input. */
  lemma {:induction false} JoinSplit(s: string, sep: char)
    ensures Join(Split(s, sep), sep) == s
  {
    if s != [] {
      JoinSplit(s[1..], sep);
      var rest := Split(s[1..], sep);
      if s[0] == sep {
        var parts := [""] + rest;
        assert parts[0] == "" && parts[1..] == rest;
        assert Join(parts, sep) == [sep] + Join(rest, sep);
      } else {
        JoinConsHead(s[0], rest, sep);
      }
      assert [s[0]] + s[1..] == s;
    }
  }

  /** A piece free of the separator followed by the separator splits off as one part. */
  lemma {:induction false} SplitCons(a: string, sep: char, rest: string)
    requires sep !in a
    ensures Split(a + [sep] + rest, sep) == [a] + Split(rest, sep)
    decreases |a|
  {
    if a == [] {
      assert a + [sep] + rest == [sep] + rest;
      assert ([sep] + rest)[1..] == rest;
    } else {
      var s := a + [sep] + rest;
      assert s[0] == a[0];
      assert s[1..] == a[1..] + [sep] + rest;
      SplitCons(a[1..], sep, rest);
      assert [a[0]] + a[1..] == a;
    }
  }

  /** A separator-free string is a single part. */
  lemma {:induction false} SplitNone(a: string, sep: char)
    requires sep !in a
    ensures Split(a, sep) == [a]
  {
    if a != [] {
      SplitNone(a[1..], sep);
      assert [a[0]] + a[1..] == a;
    }
  }

  /** Splitting undoes joining separator-free pieces. */
  lemma {:induction false} SplitJoin(parts: seq<string>, sep: char)
    requires |parts| >= 1
    requires forall i :: 0 <= i < |parts| ==> sep !in parts[i]
    ensures Split(Join(parts, sep), sep) == parts
  {
    if |parts| == 1 {
      SplitNone(parts[0], sep);
    } else {
      SplitJoin(parts[1..], sep);
      SplitCons(parts[0], sep, Join(parts[1..], sep));
      assert [parts[0]] + parts[1..] == parts;
    }
  }

  // ---------------------------------------------------------------- digits

  predicate IsDigit(c: char) {
    '0' <= c <= '9'
  }

  /** JavaScript's `/^\d+$/`: one or more ASCII decimal digits and nothing else. */
  predicate IsDigits(s: string) {
    |s| > 0 && forall i :: 0 <= i < |s| ==> IsDigit(s[i])
  }

  function DigitValue(c: char): nat {
    if IsDigit(c) then c as int - '0' as int else 0
  }

  /** The decimal value of a digit string, leading zeros allowed (`parseInt` on it). */
  function DigitsValue(s: string): nat {
    if s == [] then 0 else DigitsValue(s[..|s| - 1]) * 10 + DigitValue(s[|s| - 1])
  }

  /** JavaScript's `\w` without the `u` flag: `[A-Za-z0-9_]`. */
  predicate IsWordChar(c: char) {
    'A' <= c <= 'Z' || 'a' <= c <= 'z' || '0' <= c <= '9' || c == '_'
  }

  predicate AllWord(s: string) {
    forall i :: 0 <= i < |s| ==> IsWordChar(s[i])
  }
}
