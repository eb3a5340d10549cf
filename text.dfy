/**
 * Character-level string helpers: the length in UTF-16 code units, the
 * last-character test, ASCII upper-casing, and joining with a separator
 * (with its inverse, splitting).
 */
module Text {

  /**
   * The length of `s` as JavaScript's `length` counts it: one UTF-16 code
   * unit for a character of the Basic Multilingual Plane, two (a surrogate
   * pair) for any character above U+FFFF.
   */
  function Utf16Length(s: string): (n: nat)
    ensures |s| <= n <= 2 * |s|
  {
    if s == [] then 0 else (if s[0] as int > 0xFFFF then 2 else 1) + Utf16Length(s[1..])
  }

  /** Text made of Basic Multilingual Plane characters only has one code unit per character. */
  lemma {:induction false} Utf16LengthBmp(s: string)
    requires forall i :: 0 <= i < |s| ==> s[i] as int <= 0xFFFF
    ensures Utf16Length(s) == |s|
  {
    if s != [] {
      assert forall i :: 0 <= i < |s| - 1 ==> s[1..][i] == s[i + 1];
      Utf16LengthBmp(s[1..]);
    }
  }

  /** Code units add up over concatenation. */
  lemma {:induction false} Utf16LengthConcat(a: string, b: string)
    ensures Utf16Length(a + b) == Utf16Length(a) + Utf16Length(b)
  {
    if a == [] {
      assert a + b == b;
    } else {
      assert (a + b)[0] == a[0];
      assert (a + b)[1..] == a[1..] + b;
      Utf16LengthConcat(a[1..], b);
    }
  }

  /**
   * True when the last character of `s` is `c`. The empty string ends in no
   * character, as indexing one past its end yields `undefined` in JavaScript.
   */
  predicate EndsWith(s: string, c: char) {
    |s| > 0 && s[|s| - 1] == c
  }

  /** A string ends in `c` exactly when it is some string followed by `c`. */
  lemma EndsWithAppend(s: string, c: char)
    ensures EndsWith(s, c) <==> |s| > 0 && s == s[..|s| - 1] + [c]
    ensures forall d :: EndsWith(s + [c], d) <==> c == d
  {
    assert (s + [c])[|s|] == c;
  }

  /** ASCII upper-casing of one character: a-z map to A-Z, all else is kept. */
  function UpperChar(c: char): (u: char)
    ensures ('a' <= c <= 'z') ==> 'A' <= u <= 'Z' && u as int == c as int - 32
    ensures !('a' <= c <= 'z') ==> u == c
  {
    if 'a' <= c <= 'z' then (c as int - 32) as char else c
  }

  function UpperCase(s: string): (r: string)
    ensures |r| == |s|
    ensures forall i :: 0 <= i < |s| ==> r[i] == UpperChar(s[i])
  {
    if s == [] then [] else [UpperChar(s[0])] + UpperCase(s[1..])
  }

  /** Upper-casing twice is upper-casing once. */
  lemma UpperCaseIdempotent(s: string)
    ensures UpperCase(UpperCase(s)) == UpperCase(s)
  {
    var u := UpperCase(s);
    assert forall i :: 0 <= i < |u| ==> UpperChar(u[i]) == u[i];
  }

  /** Upper-casing neither adds nor removes a final character that is not a letter. */
  lemma UpperCaseEndsWith(s: string, c: char)
    requires !('a' <= c <= 'z') && !('A' <= c <= 'Z')
    ensures EndsWith(UpperCase(s), c) <==> EndsWith(s, c)
  {
    if |s| > 0 {
      assert UpperCase(s)[|s| - 1] == UpperChar(s[|s| - 1]);
    }
  }

  /** The parts in order with one `sep` between each two of them. */
  function Join(parts: seq<string>, sep: char): (s: string)
    ensures |parts| == 0 ==> s == ""
    ensures |parts| == 1 ==> s == parts[0]
    ensures |parts| > 0 ==> |s| >= |parts| - 1
  {
    if |parts| == 0 then ""
    else if |parts| == 1 then parts[0]
    else parts[0] + [sep] + Join(parts[1..], sep)
  }

  /** Whether `c` occurs in one of the parts. */
  predicate InSomePart(parts: seq<string>, c: char) {
    exists i :: 0 <= i < |parts| && c in parts[i]
  }

  /** Every character of a joined text is the separator or comes from one of the parts. */
  lemma {:induction false} JoinChars(parts: seq<string>, sep: char)
    ensures forall j :: 0 <= j < |Join(parts, sep)| ==> Join(parts, sep)[j] == sep || InSomePart(parts, Join(parts, sep)[j])
  {
    if |parts| > 1 {
      var rest := Join(parts[1..], sep);
      JoinChars(parts[1..], sep);
      var s := Join(parts, sep);
      assert s == parts[0] + [sep] + rest;
      forall j | 0 <= j < |s|
        ensures s[j] == sep || InSomePart(parts, s[j])
      {
        if j < |parts[0]| {
          assert s[j] in parts[0];
        } else if j > |parts[0]| {
          var t := j - |parts[0]| - 1;
          assert 0 <= t < |rest| && s[j] == rest[t];
          if rest[t] != sep {
            var i :| 0 <= i < |parts[1..]| && rest[t] in parts[1..][i];
            assert parts[i + 1] == parts[1..][i];
          }
        }
      }
    } else if |parts| == 1 {
      var s := Join(parts, sep);
      assert forall j :: 0 <= j < |s| ==> s[j] in parts[0];
    }
  }

  /** The position of the first `c` in `s`, or `|s|` when there is none. */
  function IndexOf(s: string, c: char): (k: nat)
    ensures k <= |s|
    ensures k < |s| ==> s[k] == c
    ensures forall j :: 0 <= j < k ==> s[j] != c
  {
    if s == [] then 0 else if s[0] == c then 0 else 1 + IndexOf(s[1..], c)
  }

  /** In `a + [c] + b` with no `c` in `a`, the first `c` sits right after `a`. */
  lemma IndexOfSeparator(a: string, c: char, b: string)
    requires c !in a
    ensures IndexOf(a + [c] + b, c) == |a|
    ensures (a + [c] + b)[..|a|] == a && (a + [c] + b)[|a| + 1..] == b
  {
    var s := a + [c] + b;
    assert s[|a|] == c;
    assert forall j :: 0 <= j < |a| ==> s[j] == a[j];
  }

  /** The maximal runs of `s` between occurrences of `sep`. */
  function Split(s: string, sep: char): (parts: seq<string>)
    ensures |parts| > 0
    ensures forall i :: 0 <= i < |parts| ==> sep !in parts[i]
    decreases |s|
  {
    var k := IndexOf(s, sep);
    if k == |s| then [s] else [s[..k]] + Split(s[k + 1..], sep)
  }

  /** Text without the separator splits into itself alone. */
  lemma SplitNoSeparator(s: string, sep: char)
    requires sep !in s
    ensures Split(s, sep) == [s]
  {
    assert IndexOf(s, sep) == |s|;
  }

  /** A separator-free first run is split off, and the rest is split on its own. */
  lemma SplitCons(p: string, sep: char, rest: string)
    requires sep !in p
    ensures Split(p + [sep] + rest, sep) == [p] + Split(rest, sep)
  {
    IndexOfSeparator(p, sep, rest);
  }

  /** Splitting a join on its separator gives the parts back. */
  lemma {:induction false} SplitJoin(parts: seq<string>, sep: char)
    requires |parts| > 0
    requires forall i :: 0 <= i < |parts| ==> sep !in parts[i]
    ensures Split(Join(parts, sep), sep) == parts
  {
    if |parts| == 1 {
      SplitNoSeparator(parts[0], sep);
    } else {
      SplitCons(parts[0], sep, Join(parts[1..], sep));
      SplitJoin(parts[1..], sep);
      assert parts == [parts[0]] + parts[1..];
    }
  }
}
