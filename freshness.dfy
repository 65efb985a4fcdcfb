/**
 * The evidence pipeline of tools/freshness/cmd.py that both passes share:
 * snippet normalisation (three deletion passes, in the source's order),
 * hashing of the normalised text, and extraction of a window of lines
 * around the first occurrence of a symbol.
 */
module Freshness {
  import opened Wrappers
  import Strings
  import Files

  // ---------------------------------------------------------------------
  // Characters
  // ---------------------------------------------------------------------

  /** The characters Python's `\s` matches in a `str` pattern
      (those for which `str.isspace()` holds). */
  predicate IsSpace(c: char) {
    || ('\t' <= c <= '\r')
    || ('\U{1c}' <= c <= '\U{1f}')
    || c == ' ' || c == '\U{85}' || c == '\U{a0}' || c == '\U{1680}'
    || ('\U{2000}' <= c <= '\U{200a}')
    || c == '\U{2028}' || c == '\U{2029}' || c == '\U{202f}' || c == '\U{205f}' || c == '\U{3000}'
  }

  /** The characters `str.splitlines()` breaks lines at. */
  predicate IsLineBreak(c: char) {
    || c == '\n' || c == '\r' || c == '\U{0b}' || c == '\U{0c}'
    || c == '\U{1c}' || c == '\U{1d}' || c == '\U{1e}' || c == '\U{85}'
    || c == '\U{2028}' || c == '\U{2029}'
  }

  // ---------------------------------------------------------------------
  // Deletion only: the subsequence relation
  // ---------------------------------------------------------------------

  /** `a` is obtained from `b` by deleting characters. */
  ghost predicate IsSubsequence(a: string, b: string)
    decreases |b|
  {
    a == [] || (b != [] && ((a[0] == b[0] && IsSubsequence(a[1..], b[1..])) || IsSubsequence(a, b[1..])))
  }

  lemma {:induction false} SubsequenceRefl(a: string)
    ensures IsSubsequence(a, a)
  {
    if a != [] { SubsequenceRefl(a[1..]); }
  }

  lemma {:induction false} SubsequenceSkip(a: string, b: string, k: nat)
    requires k <= |b| && IsSubsequence(a, b[k..])
    ensures IsSubsequence(a, b)
    decreases k
  {
    if k > 0 {
      assert b[1..][k - 1..] == b[k..];
      SubsequenceSkip(a, b[1..], k - 1);
    }
  }

  lemma {:induction false} SubsequenceTrans(a: string, b: string, c: string)
    requires IsSubsequence(a, b) && IsSubsequence(b, c)
    ensures IsSubsequence(a, c)
    decreases |c|
  {
    if a != [] {
      if b[0] == c[0] && IsSubsequence(b[1..], c[1..]) {
        if a[0] == b[0] && IsSubsequence(a[1..], b[1..]) {
          SubsequenceTrans(a[1..], b[1..], c[1..]);
        } else {
          SubsequenceTrans(a, b[1..], c[1..]);
        }
      } else {
        SubsequenceTrans(a, b, c[1..]);
      }
    }
  }

  lemma {:induction false} SubsequenceLength(a: string, b: string)
    requires IsSubsequence(a, b)
    ensures |a| <= |b|
    decreases |b|
  {
    if a != [] {
      if a[0] == b[0] && IsSubsequence(a[1..], b[1..]) {
        SubsequenceLength(a[1..], b[1..]);
      } else {
        SubsequenceLength(a, b[1..]);
      }
    }
  }

  /** Keeping `s[0]` in front of a subsequence of `s[1..]`. */
  lemma KeepHead(x: string, s: string)
    requires s != [] && IsSubsequence(x, s[1..])
    ensures IsSubsequence([s[0]] + x, s)
  {
    assert ([s[0]] + x)[1..] == x;
  }

  // ---------------------------------------------------------------------
  // The three passes of normalize_snippet
  // ---------------------------------------------------------------------

  /** The index of the first `'\n'` at or after `from`, or `|s|`. */
  function LineEnd(s: string, from: nat): (r: nat)
    requires from <= |s|
    ensures from <= r <= |s|
    ensures forall k | from <= k < r :: s[k] != '\n'
    ensures r < |s| ==> s[r] == '\n'
    decreases |s| - from
  {
    if from == |s| || s[from] == '\n' then from else LineEnd(s, from + 1)
  }

  /** `re.sub(r'//.*', '', s)`: from each `//` to the end of its line. */
  function StripLineComments(s: string): (r: string)
    decreases |s|
  {
    if |s| < 2 then s
    else if s[0] == '/' && s[1] == '/' then StripLineComments(s[LineEnd(s, 2)..])
    else [s[0]] + StripLineComments(s[1..])
  }

  // Where the block comment opened at the start of `s` ends: the first
  // closing star-slash starting at index 2 or later, or -1 when there is none.
  function BlockClose(s: string): (r: int)
    requires |s| >= 2
    ensures r == -1 || 2 <= r <= |s| - 2
  {
    Strings.FindFrom(s, "*/", 2)
  }

  // The block-comment pass (a non-greedy DOTALL regular expression): each
  // slash-star up to the nearest following star-slash, across lines; an
  // unclosed slash-star stays.
  function StripBlockComments(s: string): (r: string)
    decreases |s|
  {
    if |s| < 2 then s
    else if s[0] == '/' && s[1] == '*' && BlockClose(s) != -1 then StripBlockComments(s[BlockClose(s) + 2..])
    else [s[0]] + StripBlockComments(s[1..])
  }

  /** `re.sub(r'\s+', '', s)`: every whitespace character. */
  function StripWhitespace(s: string): (r: string)
    ensures forall k | 0 <= k < |r| :: !IsSpace(r[k])
    ensures (forall k | 0 <= k < |s| :: !IsSpace(s[k])) ==> r == s
    ensures |s| == 1 && IsSpace(s[0]) ==> r == []
    decreases |s|
  {
    if s == [] then []
    else if IsSpace(s[0]) then StripWhitespace(s[1..])
    else
      var rest := StripWhitespace(s[1..]);
      assert (forall k | 0 <= k < |s| :: !IsSpace(s[k])) ==> (forall k | 0 <= k < |s[1..]| :: !IsSpace(s[1..][k]));
      assert s == [s[0]] + s[1..];
      [s[0]] + rest
  }

  /** Whitespace is stripped character by character: the pass distributes
      over concatenation, so with the one-character cases above it keeps
      exactly the non-whitespace characters, in order. */
  lemma {:induction false} StripWhitespaceAppend(a: string, b: string)
    ensures StripWhitespace(a + b) == StripWhitespace(a) + StripWhitespace(b)
    decreases |a|
  {
    if a != [] {
      assert (a + b)[1..] == a[1..] + b;
      StripWhitespaceAppend(a[1..], b);
    } else {
      assert a + b == b;
    }
  }

  /** normalize_snippet: line comments, then block comments, then whitespace. */
  function Normalize(s: string): string {
    StripWhitespace(StripBlockComments(StripLineComments(s)))
  }

  /** compute_hash: SHA-256 over the normalised text.  The digest function
      (UTF-8 encoding and hex rendering included) is a parameter. */
  function ComputeHash(sha256: string -> string, s: string): string {
    sha256(Normalize(s))
  }

  // ---------------------------------------------------------------------
  // Properties of normalisation
  // ---------------------------------------------------------------------

  lemma {:induction false} LineCommentsOnlyDelete(s: string)
    ensures IsSubsequence(StripLineComments(s), s)
    decreases |s|
  {
    if |s| < 2 {
      SubsequenceRefl(s);
    } else if s[0] == '/' && s[1] == '/' {
      var e := LineEnd(s, 2);
      LineCommentsOnlyDelete(s[e..]);
      SubsequenceSkip(StripLineComments(s[e..]), s, e);
    } else {
      LineCommentsOnlyDelete(s[1..]);
      KeepHead(StripLineComments(s[1..]), s);
    }
  }

  lemma {:induction false} BlockCommentsOnlyDelete(s: string)
    ensures IsSubsequence(StripBlockComments(s), s)
    decreases |s|
  {
    if |s| < 2 {
      SubsequenceRefl(s);
    } else if s[0] == '/' && s[1] == '*' && BlockClose(s) != -1 {
      var e := BlockClose(s) + 2;
      BlockCommentsOnlyDelete(s[e..]);
      SubsequenceSkip(StripBlockComments(s[e..]), s, e);
    } else {
      BlockCommentsOnlyDelete(s[1..]);
      KeepHead(StripBlockComments(s[1..]), s);
    }
  }

  lemma {:induction false} WhitespaceOnlyDelete(s: string)
    ensures IsSubsequence(StripWhitespace(s), s)
    decreases |s|
  {
    if s != [] {
      WhitespaceOnlyDelete(s[1..]);
      if IsSpace(s[0]) {
        SubsequenceSkip(StripWhitespace(s[1..]), s, 1);
      } else {
        KeepHead(StripWhitespace(s[1..]), s);
      }
    }
  }

  /** Every pass only deletes: the normalised text is a subsequence of the
      input, holds no whitespace, and is never longer. */
  lemma NormalizeOnlyDeletes(s: string)
    ensures IsSubsequence(Normalize(s), s)
    ensures |Normalize(s)| <= |s|
    ensures forall k | 0 <= k < |Normalize(s)| :: !IsSpace(Normalize(s)[k])
  {
    var a := StripLineComments(s);
    var b := StripBlockComments(a);
    LineCommentsOnlyDelete(s);
    BlockCommentsOnlyDelete(a);
    WhitespaceOnlyDelete(b);
    SubsequenceTrans(b, a, s);
    SubsequenceTrans(Normalize(s), b, s);
    SubsequenceLength(Normalize(s), s);
  }

  /** `s` holds no `//`. */
  predicate NoLineOpener(s: string) {
    forall k | 0 <= k < |s| - 1 :: !(s[k] == '/' && s[k + 1] == '/')
  }

  // `s` holds no star-slash.
  predicate NoBlockCloser(s: string) {
    forall k | 0 <= k < |s| - 1 :: !(s[k] == '*' && s[k + 1] == '/')
  }

  /** Text without `//` passes the line-comment pass unchanged, whatever
      follows it, as long as no `//` forms where the two meet. */
  lemma {:induction false} LineCommentsKeepPlainPrefix(a: string, t: string)
    requires NoLineOpener(a)
    requires a == [] || t == [] || a[|a| - 1] != '/' || t[0] != '/'
    ensures StripLineComments(a + t) == a + StripLineComments(t)
    decreases |a|
  {
    if a != [] {
      var a' := a[1..];
      assert (a + t)[1..] == a' + t;
      assert a == [a[0]] + a';
      if a' != [] {
        assert !(a[0] == '/' && a[1] == '/');
        assert NoLineOpener(a') by {
          forall k | 0 <= k < |a'| - 1 ensures !(a'[k] == '/' && a'[k + 1] == '/') {
            assert a'[k] == a[k + 1] && a'[k + 1] == a[k + 2];
          }
        }
        LineCommentsKeepPlainPrefix(a', t);
        assert (a + t)[0] == a[0] && (a + t)[1] == a[1];
      } else if t != [] {
        assert (a + t)[0] == a[0] && (a + t)[1] == t[0];
      } else {
        assert a + t == a;
      }
    } else {
      assert a + t == t;
    }
  }

  /** `LineEnd` stops at the first newline. */
  lemma LineEndAt(s: string, from: nat, e: nat)
    requires from <= e < |s| && s[e] == '\n'
    requires forall k | from <= k < e :: s[k] != '\n'
    ensures LineEnd(s, from) == e
  {
  }

  /** A `//` comment with no newline after it runs to the end of the text. */
  lemma LineCommentRunsToEnd(a: string, b: string)
    requires NoLineOpener(a)
    requires a == [] || a[|a| - 1] != '/'
    requires '\n' !in b
    ensures StripLineComments(a + "//" + b) == a
  {
    var t := "//" + b;
    assert a + "//" + b == a + t;
    assert StripLineComments(a + t) == a + StripLineComments(t) by {
      LineCommentsKeepPlainPrefix(a, t);
    }
    LineCommentToEndDropped(b);
    assert a + [] == a;
  }

  /** Text that is one `//` comment without a newline is dropped whole. */
  lemma LineCommentToEndDropped(b: string)
    requires '\n' !in b
    ensures StripLineComments("//" + b) == []
  {
    var t := "//" + b;
    forall k | 2 <= k < |t| ensures t[k] != '\n' {
      assert t[k] == b[k - 2] && b[k - 2] in b;
    }
    assert LineEnd(t, 2) == |t|;
    assert t[|t|..] == [];
  }

  /** A `//` at the start skips to the newline that ends its line. */
  lemma LineCommentSkipsToNewline(b: string, c: string)
    requires '\n' !in b
    ensures StripLineComments("//" + b + "\n" + c) == StripLineComments("\n" + c)
  {
    var t := "//" + b + "\n" + c;
    forall k | 2 <= k < |b| + 2 ensures t[k] != '\n' {
      assert t[k] == b[k - 2] && b[k - 2] in b;
    }
    LineEndAt(t, 2, |b| + 2);
    assert t[|b| + 2..] == "\n" + c;
  }

  /** A newline is kept by the line-comment pass. */
  lemma NewlineKept(c: string)
    ensures StripLineComments("\n" + c) == "\n" + StripLineComments(c)
  {
    if |"\n" + c| >= 2 { assert ("\n" + c)[1..] == c; }
  }

  /** A `//` comment runs only to the end of its line: the newline and the
      text of the following lines survive. */
  lemma LineCommentStopsAtNewline(a: string, b: string, c: string)
    requires NoLineOpener(a)
    requires a == [] || a[|a| - 1] != '/'
    requires '\n' !in b
    ensures StripLineComments(a + "//" + b + "\n" + c) == a + "\n" + StripLineComments(c)
  {
    var t := "//" + b + "\n" + c;
    assert a + "//" + b + "\n" + c == a + t;
    var x := StripLineComments(c);
    assert StripLineComments(t) == "\n" + x by {
      LineCommentSkipsToNewline(b, c);
      NewlineKept(c);
    }
    assert StripLineComments(a + t) == a + ("\n" + x) by {
      LineCommentsKeepPlainPrefix(a, t);
    }
    assert a + ("\n" + x) == a + "\n" + x;
  }

  // Text without a star-slash passes the block-comment pass unchanged: an
  // unclosed opener is kept.
  lemma {:induction false} UnclosedBlockKept(s: string)
    requires NoBlockCloser(s)
    ensures StripBlockComments(s) == s
    decreases |s|
  {
    if |s| >= 2 {
      NoCloserNotFound(s);
      NoCloserInTail(s);
      UnclosedBlockKept(s[1..]);
      assert s == [s[0]] + s[1..];
    }
  }

  /** Without a star-slash, an opener at the start finds no closer. */
  lemma NoCloserNotFound(s: string)
    requires |s| >= 2 && NoBlockCloser(s)
    ensures BlockClose(s) == -1
  {
    forall i | 2 <= i ensures !Strings.OccursAt(s, "*/", i) {
      if i + 2 <= |s| {
        var w := s[i..i + 2];
        assert w[0] == s[i] && w[1] == s[i + 1];
        assert !(s[i] == '*' && s[i + 1] == '/');
        assert w != "*/";
      }
    }
  }

  lemma NoCloserInTail(s: string)
    requires s != [] && NoBlockCloser(s)
    ensures NoBlockCloser(s[1..])
  {
    forall k | 0 <= k < |s[1..]| - 1 ensures !(s[1..][k] == '*' && s[1..][k + 1] == '/') {
      assert s[1..][k] == s[k + 1] && s[1..][k + 1] == s[k + 2];
    }
  }

  // Block comments are matched non-greedily: a comment ends at its first
  // star-slash, even across lines, and the text after it is kept.
  lemma BlockCommentEndsAtFirstClose(x: string, y: string)
    requires NoBlockCloser(x)
    ensures StripBlockComments("/*" + x + "*/" + y) == StripBlockComments(y)
  {
    var s := "/*" + x + "*/" + y;
    assert Strings.OccursAt(s, "*/", |x| + 2) by { assert s[|x| + 2..|x| + 4] == "*/"; }
    forall i | 2 <= i < |x| + 2 ensures !Strings.OccursAt(s, "*/", i) {
      if i < |x| + 1 {
        assert s[i] == x[i - 2] && s[i + 1] == x[i - 1];
      } else {
        assert s[i + 1] == '*';
      }
    }
    assert BlockClose(s) == |x| + 2;
    assert s[|x| + 4..] == y;
  }

  /** Text without `/` passes both comment passes unchanged. */
  lemma {:induction false} NoSlashNoComments(s: string)
    requires '/' !in s
    ensures StripLineComments(s) == s && StripBlockComments(s) == s
    decreases |s|
  {
    if |s| >= 2 {
      assert '/' !in s[1..];
      NoSlashNoComments(s[1..]);
      assert s == [s[0]] + s[1..];
    }
  }

  /** For text without `/`, normalising is deleting whitespace, so two such
      snippets that differ only in whitespace hash alike. */
  lemma NoSlashNormalizeIsStripWhitespace(sha256: string -> string, a: string, b: string)
    requires '/' !in a && '/' !in b
    ensures Normalize(a) == StripWhitespace(a)
    ensures StripWhitespace(a) == StripWhitespace(b) ==> ComputeHash(sha256, a) == ComputeHash(sha256, b)
  {
    NoSlashNoComments(a);
    NoSlashNoComments(b);
  }

  /** The hash sees only the normalised text. */
  lemma HashDependsOnlyOnNormalized(sha256: string -> string, a: string, b: string)
    requires Normalize(a) == Normalize(b)
    ensures ComputeHash(sha256, a) == ComputeHash(sha256, b)
  {
  }

  /** Normalising twice changes nothing when the first result holds no `/`. */
  lemma NormalizeIdempotentWithoutSlash(s: string)
    requires '/' !in Normalize(s)
    ensures Normalize(Normalize(s)) == Normalize(s)
  {
    NoSlashNoComments(Normalize(s));
  }

  /** Normalising is not idempotent in general: deleting whitespace can
      create a `//` that a second run deletes. */
  lemma NormalizeNotIdempotent()
    ensures Normalize("/ /x") == "//x"
    ensures Normalize("//x") == ""
  {
    var s := "/ /x";
    assert s[0] == '/' && s[1] == ' ' && s[2] == '/' && s[3] == 'x';
    LineCommentsKeepPlainPrefix(s, []);
    assert s + [] == s;
    UnclosedBlockKept(s);
    assert StripWhitespace(s) == "//x" by {
      assert s[1..] == " /x" && s[1..][1..] == "/x";
      assert StripWhitespace("/x") == "/x";
    }
    LineCommentRunsToEnd([], "x");
    assert [] + "//" + "x" == "//x";
  }

  /** A short piece of text holding no `//`, `/`-final character or
      star-slash passes both comment passes unchanged. */
  lemma PlainCommentPasses(a: string)
    requires NoLineOpener(a) && NoBlockCloser(a)
    ensures StripLineComments(a) == a && StripBlockComments(a) == a
  {
    LineCommentsKeepPlainPrefix(a, []);
    assert a + [] == a;
    UnclosedBlockKept(a);
  }

  lemma SwallowedCloserLine()
    ensures StripLineComments("/* a // b */ c") == "/* a "
  {
    var a, b := "/* a ", " b */ c";
    assert a[0] == '/' && a[1] == '*' && a[2] == ' ' && a[3] == 'a' && a[4] == ' ';
    assert "/* a // b */ c" == a + "//" + b;
    LineCommentRunsToEnd(a, b);
  }

  lemma UnclosedOpenerLine()
    ensures StripBlockComments("/* a ") == "/* a "
    ensures StripWhitespace("/* a ") == "/*a"
  {
    var a := "/* a ";
    assert a[0] == '/' && a[1] == '*' && a[2] == ' ' && a[3] == 'a' && a[4] == ' ';
    PlainCommentPasses(a);
    OpenerSpaces();
  }

  lemma OpenerSpaces()
    ensures StripWhitespace("/* a ") == "/*a"
  {
    var a := "/* a ";
    assert a[0] == '/' && a[1..] == "* a ";
    assert a[1..][0] == '*' && a[1..][1..] == " a ";
    assert StripWhitespace(" a ") == "a" by {
      assert " a "[1..] == "a " && "a "[1..] == " ";
      assert StripWhitespace(" ") == "";
    }
  }

  // The line-comment pass runs first and can swallow the star-slash of a
  // block comment on the same line.
  lemma LineCommentsFirst()
    ensures Normalize("/* a // b */ c") == "/*a"
  {
    SwallowedCloserLine();
    UnclosedOpenerLine();
  }

  lemma TwoBlockCommentsLine()
    ensures StripLineComments("/*a*/b/*c*/") == "/*a*/b/*c*/"
  {
    var s := "/*a*/b/*c*/";
    assert s[0] == '/' && s[1] == '*' && s[2] == 'a' && s[3] == '*' && s[4] == '/' && s[5] == 'b';
    assert s[6] == '/' && s[7] == '*' && s[8] == 'c' && s[9] == '*' && s[10] == '/';
    assert NoLineOpener(s);
    LineCommentsKeepPlainPrefix(s, []);
    assert s + [] == s;
  }

  lemma TwoBlockCommentsBlock()
    ensures StripBlockComments("/*a*/b/*c*/") == "b"
    ensures StripWhitespace("b") == "b"
  {
    var rest := "b/*c*/";
    assert "/*a*/b/*c*/" == "/*" + "a" + "*/" + rest;
    BlockCommentEndsAtFirstClose("a", rest);
    SecondBlockComment();
  }

  lemma SecondBlockComment()
    ensures StripBlockComments("b/*c*/") == "b"
  {
    var rest := "b/*c*/";
    assert rest[0] == 'b' && rest[1] == '/' && rest[1..] == "/*c*/";
    assert "/*c*/" == "/*" + "c" + "*/" + "";
    BlockCommentEndsAtFirstClose("c", "");
  }

  // A comment between two code tokens is removed and the tokens kept.
  lemma BlockCommentsNonGreedy()
    ensures Normalize("/*a*/b/*c*/") == "b"
  {
    TwoBlockCommentsLine();
    TwoBlockCommentsBlock();
  }

  // ---------------------------------------------------------------------
  // Reading a file and splitting it into lines
  // ---------------------------------------------------------------------

  /** Text-mode reading (`open(..., "r")`): `\r\n` and a lone `\r` both
      become `\n`. */
  function UniversalNewlines(raw: string): (r: string)
    ensures forall k | 0 <= k < |r| :: r[k] != '\r'
    ensures |r| <= |raw|
    decreases |raw|
  {
    if raw == [] then []
    else if raw[0] == '\r' then
      "\n" + UniversalNewlines(if |raw| > 1 && raw[1] == '\n' then raw[2..] else raw[1..])
    else [raw[0]] + UniversalNewlines(raw[1..])
  }

  /** Text without a carriage return is read as written. */
  lemma {:induction false} TextWithoutCrUnchanged(raw: string)
    requires '\r' !in raw
    ensures UniversalNewlines(raw) == raw
    decreases |raw|
  {
    if raw != [] {
      assert raw[0] != '\r' by { assert raw[0] in raw; }
      assert '\r' !in raw[1..] by { assert forall k | 0 <= k < |raw[1..]| :: raw[1..][k] == raw[k + 1]; }
      TextWithoutCrUnchanged(raw[1..]);
      PlainCharKept(raw[0], raw[1..]);
      assert raw == [raw[0]] + raw[1..];
    }
  }

  /** A character other than `\r` is read as itself. */
  lemma PlainCharKept(c: char, rest: string)
    requires c != '\r'
    ensures UniversalNewlines([c] + rest) == [c] + UniversalNewlines(rest)
  {
    assert ([c] + rest)[1..] == rest;
  }

  /** A character other than `\r` in front of text that reads as
      `a + "\n" + …` is read as itself. */
  lemma PlainPrefixKept(c: char, a: string, sep: string, b: string)
    requires c != '\r'
    requires UniversalNewlines(a + sep + b) == a + "\n" + UniversalNewlines(b)
    ensures UniversalNewlines([c] + a + sep + b) == [c] + a + "\n" + UniversalNewlines(b)
  {
    PlainCharKept(c, a + sep + b);
    assert [c] + a + sep + b == [c] + (a + sep + b);
    assert [c] + a + "\n" + UniversalNewlines(b) == [c] + (a + "\n" + UniversalNewlines(b));
  }

  /** A leading `\r\n` is read as one `\n`. */
  lemma CrLfKeptOnce(b: string)
    ensures UniversalNewlines("\r\n" + b) == "\n" + UniversalNewlines(b)
  {
    assert ("\r\n" + b)[2..] == b;
  }

  /** A leading `\r` not followed by `\n` is read as one `\n`. */
  lemma LoneCrKeptOnce(b: string)
    requires b == [] || b[0] != '\n'
    ensures UniversalNewlines("\r" + b) == "\n" + UniversalNewlines(b)
  {
    assert ("\r" + b)[1..] == b;
  }

  /** Text without a carriage return is read as written, up to a `\r\n`,
      which is read as one `\n`. */
  lemma {:induction false} CrLfReadAsLf(a: string, b: string)
    requires '\r' !in a
    ensures UniversalNewlines(a + "\r\n" + b) == a + "\n" + UniversalNewlines(b)
    decreases |a|
  {
    if a == [] {
      assert a + "\r\n" + b == "\r\n" + b;
      CrLfKeptOnce(b);
    } else {
      assert '\r' !in a[1..] by { assert forall k | 0 <= k < |a[1..]| :: a[1..][k] == a[k + 1]; }
      CrLfReadAsLf(a[1..], b);
      assert a[0] != '\r' by { assert a[0] in a; }
      PlainPrefixKept(a[0], a[1..], "\r\n", b);
      assert a == [a[0]] + a[1..];
    }
  }

  /** A carriage return not followed by `\n` is read as one `\n`. */
  lemma {:induction false} LoneCrReadAsLf(a: string, b: string)
    requires '\r' !in a
    requires b == [] || b[0] != '\n'
    ensures UniversalNewlines(a + "\r" + b) == a + "\n" + UniversalNewlines(b)
    decreases |a|
  {
    if a == [] {
      assert a + "\r" + b == "\r" + b;
      LoneCrKeptOnce(b);
    } else {
      assert '\r' !in a[1..] by { assert forall k | 0 <= k < |a[1..]| :: a[1..][k] == a[k + 1]; }
      LoneCrReadAsLf(a[1..], b);
      assert a[0] != '\r' by { assert a[0] in a; }
      PlainPrefixKept(a[0], a[1..], "\r", b);
      assert a == [a[0]] + a[1..];
    }
  }

  /** The first line break at or after `from`, or `|s|`. */
  function BreakAt(s: string, from: nat): (r: nat)
    requires from <= |s|
    ensures from <= r <= |s|
    ensures forall k | from <= k < r :: !IsLineBreak(s[k])
    ensures r < |s| ==> IsLineBreak(s[r])
    decreases |s| - from
  {
    if from == |s| || IsLineBreak(s[from]) then from else BreakAt(s, from + 1)
  }

  /** `str.splitlines()`: no empty last line for a trailing break, and
      `\r\n` counts as one break. */
  function SplitLines(s: string): (r: seq<string>)
    decreases |s|
  {
    if s == [] then []
    else
      var i := BreakAt(s, 0);
      if i == |s| then [s]
      else
        var next := if s[i] == '\r' && i + 1 < |s| && s[i + 1] == '\n' then i + 2 else i + 1;
        [s[..i]] + SplitLines(s[next..])
  }

  /** `"\n".join(lines)`. */
  function JoinLines(lines: seq<string>): string
    decreases |lines|
  {
    if lines == [] then []
    else if |lines| == 1 then lines[0]
    else lines[0] + "\n" + JoinLines(lines[1..])
  }

  /** `s.count('\n')`. */
  function CountNewlines(s: string): nat
    decreases |s|
  {
    if s == [] then 0 else (if s[0] == '\n' then 1 else 0) + CountNewlines(s[1..])
  }

  /** Python's normalisation of a slice bound for a sequence of length `n`. */
  function SliceBound(i: int, n: nat): (r: nat)
    ensures r <= n
  {
    if i < 0 then (if i + n < 0 then 0 else i + n) else if i > n then n else i
  }

  /** Python's `xs[start:end]`, negative bounds included. */
  function PySlice<T>(xs: seq<T>, start: int, end: int): seq<T> {
    var a := SliceBound(start, |xs|);
    var b := SliceBound(end, |xs|);
    if a < b then xs[a..b] else []
  }

  function Max(a: int, b: int): int { if a < b then b else a }

  function Min(a: int, b: int): int { if a < b then a else b }

  /** The lines `extract_snippet_window` keeps around line `lineNum`:
      `lines[max(0, L - h) : min(len(lines), L + h)]` with
      `h = context_lines // 2`. */
  function WindowLines(lines: seq<string>, lineNum: nat, contextLines: int): seq<string> {
    var h := contextLines / 2;
    PySlice(lines, Max(0, lineNum - h), Min(|lines|, lineNum + h))
  }

  // ---------------------------------------------------------------------
  // extract_snippet_window
  // ---------------------------------------------------------------------

  datatype ExtractError =
    | FileNotFound(path: string)
    | IsADirectory(path: string)
    | SymbolNotFound(symbol: string, path: string)

  /** `str(e)` for each failure. Opening a directory raises the POSIX
      `IsADirectoryError`, whose text shows the path through `repr`. */
  function ErrorMessage(e: ExtractError): string {
    match e
    case FileNotFound(p) => "Engine file not found: " + p
    case IsADirectory(p) => "[Errno 21] Is a directory: " + Strings.PyRepr(p)
    case SymbolNotFound(sym, p) => "Symbol '" + sym + "' not found in " + p
  }

  /** A directory whose path needs no escape is named between single
      quotes. */
  lemma DirectoryMessageQuotesPath(p: string)
    requires forall k | 0 <= k < |p| ::
               p[k] != '\'' && p[k] != '\\' && p[k] != '\t' && p[k] != '\n' && p[k] != '\r' && !Strings.Unprintable(p[k])
    ensures ErrorMessage(IsADirectory(p)) == "[Errno 21] Is a directory: '" + p + "'"
  {
    Strings.ReprPlain(p);
  }

  /** How `open(path, "r").read()` sees the tree: the text with newlines
      translated, or the failure. */
  function ReadText(tree: Files.Tree, path: string): (r: Result<string, ExtractError>)
    ensures r == Failure(FileNotFound(path)) <==> !Files.Exists(tree, path)
    ensures r == Failure(IsADirectory(path)) <==> Files.Exists(tree, path) && tree[path].Directory?
    ensures r.Success? <==> Files.Exists(tree, path) && tree[path].File?
    ensures r.Success? ==> r.value == UniversalNewlines(tree[path].text)
  {
    if !Files.Exists(tree, path) then Failure(FileNotFound(path))
    else if tree[path].Directory? then Failure(IsADirectory(path))
    else Success(UniversalNewlines(tree[path].text))
  }

  /** extract_snippet_window(file_path, symbol, context_lines). */
  function ExtractSnippetWindow(tree: Files.Tree, path: string, symbol: string, contextLines: int)
    : (r: Result<string, ExtractError>)
    ensures r == Failure(FileNotFound(path)) <==> !Files.Exists(tree, path)
    ensures r == Failure(IsADirectory(path)) <==> Files.Exists(tree, path) && tree[path].Directory?
    ensures r.Failure? && r.error.SymbolNotFound? <==>
              ReadText(tree, path).Success? && !Strings.Contains(ReadText(tree, path).value, symbol)
    ensures r.Failure? && r.error.SymbolNotFound? ==> r.error == SymbolNotFound(symbol, path)
    ensures r.Success? ==>
              var content := ReadText(tree, path).value;
              var idx := Strings.Find(content, symbol);
              && 0 <= idx && Strings.OccursAt(content, symbol, idx)
              && (forall i | 0 <= i < idx :: !Strings.OccursAt(content, symbol, i))
              && r.value == JoinLines(WindowLines(SplitLines(content), CountNewlines(content[..idx]), contextLines))
  {
    match ReadText(tree, path)
    case Failure(e) => Failure(e)
    case Success(content) =>
      var idx := Strings.Find(content, symbol);
      if idx == -1 then Failure(SymbolNotFound(symbol, path))
      else
        var lineNum := CountNewlines(content[..idx]);
        Success(JoinLines(WindowLines(SplitLines(content), lineNum, contextLines)))
  }

  // ---------------------------------------------------------------------
  // Properties of the window
  // ---------------------------------------------------------------------

  /** For a non-negative context the window is a contiguous run of at most
      `2 * (context_lines // 2)` lines, from `max(0, L - h)` up to but not
      including `min(#lines, L + h)`. */
  lemma WindowIsBoundedSlice(lines: seq<string>, lineNum: nat, contextLines: int)
    requires contextLines >= 0
    ensures var h := contextLines / 2;
            var start := Max(0, lineNum - h);
            var end := Min(|lines|, lineNum + h);
            && |WindowLines(lines, lineNum, contextLines)| <= 2 * h
            && (start < end ==> WindowLines(lines, lineNum, contextLines) == lines[start..end])
            && (end <= start ==> WindowLines(lines, lineNum, contextLines) == [])
  {
  }

  /** A context of fewer than two lines gives an empty window. */
  lemma SmallContextEmptyWindow(lines: seq<string>, lineNum: nat, contextLines: int)
    requires 0 <= contextLines < 2
    ensures WindowLines(lines, lineNum, contextLines) == []
  {
  }

  lemma {:induction false} CountNewlinesAppend(a: string, b: string)
    ensures CountNewlines(a + b) == CountNewlines(a) + CountNewlines(b)
    decreases |a|
  {
    if a != [] {
      assert (a + b)[0] == a[0] && (a + b)[1..] == a[1..] + b;
      CountNewlinesAppend(a[1..], b);
    } else {
      assert a + b == b;
    }
  }

  lemma {:induction false} CountNewlinesPositive(s: string, k: nat)
    requires k < |s| && s[k] == '\n'
    ensures CountNewlines(s) >= 1
    decreases |s|
  {
    if s[0] != '\n' { CountNewlinesPositive(s[1..], k - 1); }
  }

  lemma {:induction false} CountNewlinesNone(s: string)
    requires forall k | 0 <= k < |s| :: s[k] != '\n'
    ensures CountNewlines(s) == 0
    decreases |s|
  {
    if s != [] { CountNewlinesNone(s[1..]); }
  }

  /** Text whose only line break is `\n`. */
  predicate OnlyNewlineBreaks(s: string) {
    forall k | 0 <= k < |s| :: IsLineBreak(s[k]) ==> s[k] == '\n'
  }

  /** In text whose only breaks are `\n`, `splitlines()` yields one line per
      `\n`, plus one for an unterminated last line. */
  lemma {:induction false} LineCountMatchesNewlines(s: string)
    requires OnlyNewlineBreaks(s)
    ensures |SplitLines(s)| == CountNewlines(s) + (if s != [] && s[|s| - 1] != '\n' then 1 else 0)
    decreases |s|
  {
    if s != [] {
      var i := BreakAt(s, 0);
      if i == |s| {
        CountNewlinesNone(s);
      } else {
        var rest := s[i + 1..];
        FirstLineOff(s, i);
        LineCountMatchesNewlines(rest);
        if rest != [] { assert s[|s| - 1] == rest[|rest| - 1]; }
      }
    }
  }

  /** Taking the first line, up to its `\n`, off text whose only breaks
      are `\n`. */
  lemma FirstLineOff(s: string, i: nat)
    requires OnlyNewlineBreaks(s)
    requires s != [] && i == BreakAt(s, 0) && i < |s|
    ensures s[i] == '\n'
    ensures OnlyNewlineBreaks(s[i + 1..])
    ensures |SplitLines(s)| == 1 + |SplitLines(s[i + 1..])|
    ensures CountNewlines(s) == 1 + CountNewlines(s[i + 1..])
  {
    var rest := s[i + 1..];
    forall k | 0 <= k < |rest| ensures IsLineBreak(rest[k]) ==> rest[k] == '\n' {
      assert rest[k] == s[i + 1 + k];
    }
    FirstNewlineCounted(s, i);
  }

  /** The `\n` count of text whose first line break is the `\n` at `i`. */
  lemma FirstNewlineCounted(s: string, i: nat)
    requires i < |s| && s[i] == '\n'
    requires forall k | 0 <= k < i :: s[k] != '\n'
    ensures CountNewlines(s) == 1 + CountNewlines(s[i + 1..])
  {
    var rest := s[i + 1..];
    assert s == s[..i] + ("\n" + rest);
    CountNewlinesAppend(s[..i], "\n" + rest);
    CountNewlinesNone(s[..i]);
    assert ("\n" + rest)[1..] == rest;
  }

  /** In text whose only breaks are `\n`, every offset lies on an existing
      line: the `\n` count before it is a valid line index. */
  lemma LineOfOffsetExists(content: string, idx: nat)
    requires OnlyNewlineBreaks(content) && idx < |content|
    ensures CountNewlines(content[..idx]) < |SplitLines(content)|
  {
    assert content == content[..idx] + content[idx..];
    CountNewlinesAppend(content[..idx], content[idx..]);
    LineCountMatchesNewlines(content);
    if k :| idx <= k < |content| && content[k] == '\n' {
      CountNewlinesPositive(content[idx..], k - idx);
    } else {
      CountNewlinesNone(content[idx..]);
    }
  }

  /** A line that exists lies inside a window of at least two lines. */
  lemma WindowHoldsLine(lines: seq<string>, lineNum: nat, contextLines: int)
    requires lineNum < |lines| && contextLines >= 2
    ensures var start := Max(0, lineNum - contextLines / 2);
            var end := Min(|lines|, lineNum + contextLines / 2);
            && start <= lineNum < end
            && WindowLines(lines, lineNum, contextLines) == lines[start..end]
            && WindowLines(lines, lineNum, contextLines)[lineNum - start] == lines[lineNum]
    ensures WindowShowsLine(lines, lineNum, contextLines)
  {
  }

  /** Line `lineNum` exists and the window around it shows it. */
  predicate WindowShowsLine(lines: seq<string>, lineNum: nat, contextLines: int) {
    var start := Max(0, lineNum - contextLines / 2);
    && lineNum < |lines|
    && start <= lineNum
    && lineNum - start < |WindowLines(lines, lineNum, contextLines)|
    && WindowLines(lines, lineNum, contextLines)[lineNum - start] == lines[lineNum]
  }

  /** When the text's only line breaks are `\n` and the symbol occurs (an
      empty symbol occurs at offset 0 of any non-empty text), the line of
      its first occurrence exists and, for a context of at least
      two lines, lies inside the window. */
  lemma SymbolLineInWindow(content: string, symbol: string, contextLines: int)
    requires OnlyNewlineBreaks(content)
    requires (symbol != [] || content != []) && Strings.Contains(content, symbol)
    requires contextLines >= 2
    ensures var idx := Strings.Find(content, symbol);
            0 <= idx < |content| &&
            WindowShowsLine(SplitLines(content), CountNewlines(content[..idx]), contextLines)
  {
    var idx := Strings.Find(content, symbol);
    FoundInside(content, symbol);
    var lineNum := CountNewlines(content[..idx]);
    var lines := SplitLines(content);
    LineOfOffsetExists(content, idx);
    WindowHoldsLine(lines, lineNum, contextLines);
  }

  /** A symbol that occurs, in text that is not empty or with a symbol
      that is not empty, is found at an offset inside the text. */
  lemma FoundInside(content: string, symbol: string)
    requires (symbol != [] || content != []) && Strings.Contains(content, symbol)
    ensures 0 <= Strings.Find(content, symbol) < |content|
  {
  }

  /** The restriction above is needed: a form feed is a line break to
      `splitlines()` but not to the `\n` count, and moves the window off
      the symbol's line. */
  lemma FormFeedShiftsWindow()
    ensures var content := "a\U{0c}b\nX";
            var lineNum := CountNewlines(content[..4]);
            && Strings.Find(content, "X") == 4
            && SplitLines(content) == ["a", "b", "X"]
            && lineNum == 1
            && WindowLines(SplitLines(content), lineNum, 2) == ["a", "b"]
  {
    FormFeedLineNum();
    FormFeedLines();
  }

  /** The symbol is at offset 4, after one `\n`. */
  lemma FormFeedLineNum()
    ensures var content := "a\U{0c}b\nX";
            Strings.Find(content, "X") == 4 && CountNewlines(content[..4]) == 1
  {
    var content := "a\U{0c}b\nX";
    assert content[0] == 'a' && content[1] == '\U{0c}' && content[2] == 'b' && content[3] == '\n' && content[4] == 'X';
    assert Strings.OccursAt(content, "X", 4);
    forall i | 0 <= i < 4 ensures !Strings.OccursAt(content, "X", i) {
      assert content[i..i + 1][0] == content[i];
    }
    assert Strings.Find(content, "X") == 4;
    assert content[..4] == "a\U{0c}b\n";
    CountNewlinesAppend("a\U{0c}b", "\n");
    CountNewlinesNone("a\U{0c}b");
    assert "a\U{0c}b" + "\n" == "a\U{0c}b\n";
  }

  /** `splitlines()` breaks at the form feed as well as at the `\n`. */
  lemma FormFeedLines()
    ensures SplitLines("a\U{0c}b\nX") == ["a", "b", "X"]
  {
    var content := "a\U{0c}b\nX";
    assert content[0] == 'a' && content[1] == '\U{0c}';
    assert BreakAt(content, 0) == 1;
    assert content[..1] == "a" && content[2..] == "b\nX";
    TailLines();
  }

  lemma TailLines()
    ensures SplitLines("b\nX") == ["b", "X"]
  {
    var tail := "b\nX";
    assert tail[0] == 'b' && tail[1] == '\n';
    assert BreakAt(tail, 0) == 1;
    assert tail[..1] == "b" && tail[2..] == "X";
    assert SplitLines("X") == ["X"];
  }
}
