/**
 * The handful of Python `str` operations the tools rely on: `endswith`,
 * `in`, `find`, `replace`, `repr` and the code-point ordering `sorted`
 * uses.
 */
module Strings {

  predicate EndsWith(s: string, suffix: string) {
    |suffix| <= |s| && s[|s| - |suffix|..] == suffix
  }

  /** `p` occurs in `s` starting at index `i`. */
  predicate OccursAt(s: string, p: string, i: int) {
    0 <= i && i + |p| <= |s| && s[i..i + |p|] == p
  }

  /** Python's `p in s`. */
  predicate Contains(s: string, p: string) {
    exists i | 0 <= i <= |s| :: OccursAt(s, p, i)
  }

  /** The index of the first occurrence of `p` in `s` at or after `from`, or -1. */
  function FindFrom(s: string, p: string, from: nat): (r: int)
    requires from <= |s|
    ensures r == -1 || from <= r <= |s| - |p|
    ensures r == -1 <==> forall i :: from <= i ==> !OccursAt(s, p, i)
    ensures r != -1 ==> OccursAt(s, p, r) && forall i :: from <= i < r ==> !OccursAt(s, p, i)
    decreases |s| - from
  {
    if from + |p| > |s| then
      assert forall i :: from <= i ==> !OccursAt(s, p, i);
      -1
    else if s[from..from + |p|] == p then
      assert OccursAt(s, p, from);
      from
    else FindFrom(s, p, from + 1)
  }

  /** Python's `s.find(p)`: the first index at which `p` occurs, or -1.
      An empty `p` is found at 0. */
  function Find(s: string, p: string): (r: int)
    ensures r == -1 <==> !Contains(s, p)
    ensures r != -1 ==> OccursAt(s, p, r) && forall i :: 0 <= i < r ==> !OccursAt(s, p, i)
  {
    FindFrom(s, p, 0)
  }

  /** Python's `s.replace(p, q)` for a non-empty `p`: left to right,
      non-overlapping. */
  function Replace(s: string, p: string, q: string): (r: string)
    requires p != []
    decreases |s|
  {
    if |s| < |p| then s
    else if s[..|p|] == p then q + Replace(s[|p|..], p, q)
    else [s[0]] + Replace(s[1..], p, q)
  }

  /** Python's `a < b` on strings: lexicographic by code point. */
  predicate Less(a: string, b: string) {
    if a == [] then b != []
    else if b == [] then false
    else if a[0] != b[0] then a[0] < b[0]
    else Less(a[1..], b[1..])
  }

  lemma {:induction false} LessIrreflexive(a: string)
    ensures !Less(a, a)
  {
    if a != [] { LessIrreflexive(a[1..]); }
  }

  lemma {:induction false} LessAsymmetric(a: string, b: string)
    ensures Less(a, b) ==> !Less(b, a)
  {
    if a != [] && b != [] && a[0] == b[0] { LessAsymmetric(a[1..], b[1..]); }
  }

  lemma {:induction false} LessTransitive(a: string, b: string, c: string)
    requires Less(a, b) && Less(b, c)
    ensures Less(a, c)
  {
    if a != [] && a[0] == b[0] && b[0] == c[0] {
      LessTransitive(a[1..], b[1..], c[1..]);
    }
  }

  lemma {:induction false} LessTotal(a: string, b: string)
    requires a != b
    ensures Less(a, b) || Less(b, a)
  {
    if a != [] && b != [] && a[0] == b[0] {
      assert a == [a[0]] + a[1..] && b == [b[0]] + b[1..];
      LessTotal(a[1..], b[1..]);
    }
  }

  /** A lower-case hexadecimal digit. */
  function HexDigit(n: nat): char
    requires n < 16
  {
    if n < 10 then (48 + n) as char else (87 + n) as char
  }

  /** The characters below U+0100 that Python does not print as themselves:
      the C0 and C1 controls, DEL, the no-break space and the soft hyphen. */
  predicate Unprintable(c: char) {
    c < ' ' || ('\U{7f}' <= c <= '\U{a0}') || c == '\U{ad}'
  }

  /** One character of `repr(s)` between the quotes. */
  function ReprChar(c: char, quote: char): string {
    if c == '\\' then "\\\\"
    else if c == quote then ['\\', quote]
    else if c == '\t' then "\\t"
    else if c == '\n' then "\\n"
    else if c == '\r' then "\\r"
    else if Unprintable(c) then "\\x" + [HexDigit(c as int / 16), HexDigit(c as int % 16)]
    else [c]
  }

  function ReprBody(s: string, quote: char): string
    decreases |s|
  {
    if s == [] then [] else ReprChar(s[0], quote) + ReprBody(s[1..], quote)
  }

  /** Python's `repr(s)`: double quotes when `s` holds a `'` and no `"`,
      single quotes otherwise. */
  function PyRepr(s: string): (r: string)
    ensures |r| >= 2 && r[0] == r[|r| - 1]
    ensures r[0] == '"' <==> '\'' in s && '"' !in s
    ensures r[0] == '\'' <==> !('\'' in s && '"' !in s)
  {
    var quote := if '\'' in s && '"' !in s then '"' else '\'';
    [quote] + ReprBody(s, quote) + [quote]
  }

  /** Text that needs no escape is shown as written between single quotes. */
  lemma ReprPlain(s: string)
    requires forall k | 0 <= k < |s| ::
               s[k] != '\'' && s[k] != '\\' && s[k] != '\t' && s[k] != '\n' && s[k] != '\r' && !Unprintable(s[k])
    ensures PyRepr(s) == "'" + s + "'"
  {
    ReprBodyPlain(s, '\'');
  }

  lemma {:induction false} ReprBodyPlain(s: string, quote: char)
    requires forall k | 0 <= k < |s| ::
               s[k] != quote && s[k] != '\\' && s[k] != '\t' && s[k] != '\n' && s[k] != '\r' && !Unprintable(s[k])
    ensures ReprBody(s, quote) == s
    decreases |s|
  {
    if s != [] {
      ReprBodyPlain(s[1..], quote);
      assert s == [s[0]] + s[1..];
    }
  }

  /** A path holding an apostrophe is shown in double quotes, the
      apostrophe as written. */
  lemma ReprApostrophe()
    ensures PyRepr("it's") == "\"it's\""
  {
    var s := "it's";
    assert s[2] == '\'';
    assert '\'' in s && '"' !in s;
    ReprBodyPlain(s, '"');
  }

  /** A backslash is doubled. */
  lemma ReprBackslash()
    ensures PyRepr("a\\b") == "'a\\\\b'"
  {
    var s := "a\\b";
    assert '\'' !in s;
    assert ReprBody(s, '\'') == "a" + "\\\\" + ReprBody("b", '\'') by {
      assert s[1..] == "\\b";
      assert s[1..][1..] == "b";
    }
    assert ReprBody("b", '\'') == "b" by { assert "b"[1..] == []; }
  }
}
