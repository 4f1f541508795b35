/**
 * The handful of Python string operations the core relies on, written out
 * over `string` (a sequence of Unicode scalar values, i.e. code points):
 * `str.strip()`, `str.split(',')`, `','.join(...)`, the line iteration of a
 * text file, and the code-point ordering that `<` gives on `str`.
 */
module Text {

  /** Python's `str.isspace()` on one character: exactly the characters that
      `str.strip()` with no argument removes. */
  predicate IsSpace(c: char) {
    c == ' ' || ('\t' <= c <= '\r') || ('\U{1c}' <= c <= '\U{1f}')
    || c == '\U{85}' || c == '\U{a0}' || c == '\U{1680}'
    || ('\U{2000}' <= c <= '\U{200a}') || c == '\U{2028}' || c == '\U{2029}'
    || c == '\U{202f}' || c == '\U{205f}' || c == '\U{3000}'
  }

  /** Removes leading whitespace: the result is the suffix of `s` that starts
      at its first non-space character. */
  function StripLeft(s: string): (r: string)
    ensures |r| <= |s| && r == s[|s| - |r|..]
    ensures r == [] || !IsSpace(r[0])
    ensures forall k :: 0 <= k < |s| - |r| ==> IsSpace(s[k])
  {
    if s != [] && IsSpace(s[0]) then StripLeft(s[1..]) else s
  }

  /** Removes trailing whitespace: the result is the prefix of `s` that ends
      at its last non-space character. */
  function StripRight(s: string): (r: string)
    ensures |r| <= |s| && r == s[..|r|]
    ensures r == [] || !IsSpace(r[|r| - 1])
    ensures forall k :: |r| <= k < |s| ==> IsSpace(s[k])
  {
    if s != [] && IsSpace(s[|s| - 1]) then StripRight(s[..|s| - 1]) else s
  }

  /** Whether a string is whitespace only. */
  predicate AllSpace(t: string) {
    forall k :: 0 <= k < |t| ==> IsSpace(t[k])
  }

  /** Python's `s.strip()`: no whitespace at either end; `StripIsTrim`
      states which slice of `s` it is. */
  function Strip(s: string): (r: string)
    ensures r == [] || (!IsSpace(r[0]) && !IsSpace(r[|r| - 1]))
    ensures |r| <= |s|
  {
    StripRight(StripLeft(s))
  }

  /** `strip()` returns the slice of `s` left after removing the whitespace
      at both ends: everything before and after the slice is whitespace. */
  lemma StripIsTrim(s: string)
    ensures exists a, b :: 0 <= a <= b <= |s| && Strip(s) == s[a..b] && AllSpace(s[..a]) && AllSpace(s[b..])
  {
    var l := StripLeft(s);
    TrimmedSlice(s, l, StripRight(l));
  }

  /** A prefix `r` of a suffix `l` of `s`, with only whitespace cut off on
      either side, is a slice of `s` whose outside is all whitespace. */
  lemma TrimmedSlice(s: string, l: string, r: string)
    requires |l| <= |s| && l == s[|s| - |l|..]
    requires forall k :: 0 <= k < |s| - |l| ==> IsSpace(s[k])
    requires |r| <= |l| && r == l[..|r|]
    requires forall k :: |r| <= k < |l| ==> IsSpace(l[k])
    ensures exists a, b :: 0 <= a <= b <= |s| && r == s[a..b] && AllSpace(s[..a]) && AllSpace(s[b..])
  {
    var a := |s| - |l|;
    var b := a + |r|;
    assert r == s[a..b];
    assert AllSpace(s[..a]);
    assert s[b..] == l[|r|..];
  }

  /** A string with no whitespace at either end is left alone by `strip()`,
      and so is any such string followed by whitespace only. */
  lemma StripTrailing(s: string, tail: string)
    requires s == [] || (!IsSpace(s[0]) && !IsSpace(s[|s| - 1]))
    requires forall k :: 0 <= k < |tail| ==> IsSpace(tail[k])
    ensures Strip(s + tail) == s
  {
    var t := s + tail;
    assert forall k :: |s| <= k < |t| ==> IsSpace(t[k]);
    if s == [] {
      assert StripLeft(t) == [];
    } else {
      assert !IsSpace(t[0]) && !IsSpace(t[|s| - 1]);
      assert StripLeft(t) == t;
      assert StripRight(t) == t[..|s|];
    }
  }

  /** Python's `sep.join(parts)` for a one-character separator. */
  function Join(parts: seq<string>, sep: char): string
  {
    if parts == [] then ""
    else if |parts| == 1 then parts[0]
    else parts[0] + [sep] + Join(parts[1..], sep)
  }

  /** Python's `s.split(sep)` for a one-character separator: the pieces
      between separators, always at least one, none containing `sep`, and
      joined back by `sep` they give `s` again. */
  function Split(s: string, sep: char): (parts: seq<string>)
    ensures |parts| >= 1
    ensures forall i :: 0 <= i < |parts| ==> sep !in parts[i]
    ensures Join(parts, sep) == s
  {
    if s == [] then [""]
    else
      var rest := Split(s[1..], sep);
      if s[0] == sep then
        assert Join([""] + rest, sep) == [sep] + Join(rest, sep) by {
          assert ([""] + rest)[1..] == rest;
        }
        [""] + rest
      else
        var parts := [[s[0]] + rest[0]] + rest[1..];
        assert Join(parts, sep) == [s[0]] + Join(rest, sep) by {
          if |rest| > 1 {
            assert parts[1..] == rest[1..];
          }
        }
        parts
  }

  /** A separator-free piece followed by the separator splits off as the
      first piece. */
  lemma {:induction false} SplitAfterPiece(p: string, sep: char, t: string)
    requires sep !in p
    ensures Split(p + [sep] + t, sep) == [p] + Split(t, sep)
  {
    if p == [] {
      assert ([] + [sep] + t)[1..] == t;
    } else {
      assert (p + [sep] + t)[1..] == p[1..] + [sep] + t;
      SplitAfterPiece(p[1..], sep, t);
      assert [p[0]] + p[1..] == p;
    }
  }

  /** A separator-free string splits into itself alone. */
  lemma {:induction false} SplitNoSeparator(p: string, sep: char)
    requires sep !in p
    ensures Split(p, sep) == [p]
  {
    if p != [] {
      SplitNoSeparator(p[1..], sep);
      assert [p[0]] + p[1..] == p;
    }
  }

  /** Splitting undoes joining, provided no piece contains the separator. */
  lemma {:induction false} SplitJoin(parts: seq<string>, sep: char)
    requires |parts| >= 1
    requires forall i :: 0 <= i < |parts| ==> sep !in parts[i]
    ensures Split(Join(parts, sep), sep) == parts
  {
    if |parts| == 1 {
      SplitNoSeparator(parts[0], sep);
    } else {
      SplitJoin(parts[1..], sep);
      SplitAfterPiece(parts[0], sep, Join(parts[1..], sep));
      assert [parts[0]] + parts[1..] == parts;
    }
  }

  /** Concatenation of a list of strings. */
  function Concat(ls: seq<string>): string
  {
    if ls == [] then "" else ls[0] + Concat(ls[1..])
  }

  /** A line as Python's text-file iteration yields it: non-empty, with a
      newline only at its very end. */
  predicate IsLine(l: string) {
    l != [] && forall k :: 0 <= k < |l| - 1 ==> l[k] != '\n'
  }

  /** The lines that `for line in f` yields for a file whose text is `text`
      and which holds no carriage return (so that the universal-newline
      translation of Python's text mode is the identity): each line keeps its
      terminating `'\n'`, the last one may lack it, and together they make up
      the whole text. */
  function Lines(text: string): (ls: seq<string>)
    ensures Concat(ls) == text
    ensures forall i :: 0 <= i < |ls| ==>
              IsLine(ls[i]) && (i < |ls| - 1 ==> ls[i][|ls[i]| - 1] == '\n')
  {
    if text == [] then []
    else if text[0] == '\n' then
      var rest := Lines(text[1..]);
      assert ([['\n']] + rest)[1..] == rest;
      [['\n']] + rest
    else
      var rest := Lines(text[1..]);
      if rest == [] then [[text[0]]]
      else
        var ls := [[text[0]] + rest[0]] + rest[1..];
        assert ls[1..] == rest[1..];
        ls
  }

  /** A newline-terminated line in front of more text is the first line. */
  lemma {:induction false} LinesAfterLine(p: string, t: string)
    requires '\n' !in p
    ensures Lines(p + "\n" + t) == [p + "\n"] + Lines(t)
  {
    if p == [] {
      assert ([] + "\n" + t)[1..] == t;
    } else {
      assert (p + "\n" + t)[1..] == p[1..] + "\n" + t;
      LinesAfterLine(p[1..], t);
      assert [p[0]] + (p[1..] + "\n") == p + "\n";
    }
  }

  /** A line as a writer emits it: a newline at its end and nowhere else. */
  predicate Terminated(l: string) {
    |l| >= 1 && l[|l| - 1] == '\n' && '\n' !in l[..|l| - 1]
  }

  /** Writing newline-terminated lines and iterating the file gives the same
      lines back. */
  lemma {:induction false} LinesOfConcat(ls: seq<string>)
    requires forall i :: 0 <= i < |ls| ==> Terminated(ls[i])
    ensures Lines(Concat(ls)) == ls
  {
    if ls != [] {
      var l := ls[0];
      var p := l[..|l| - 1];
      assert l == p + "\n";
      LinesOfConcat(ls[1..]);
      LinesAfterLine(p, Concat(ls[1..]));
      assert [ls[0]] + ls[1..] == ls;
    }
  }

  /** Python's `a <= b` on `str`: lexicographic by code point, a proper
      prefix coming first. (Dafny's own `<=` on sequences is the prefix
      relation, not this order.) */
  predicate LexLe(a: string, b: string) {
    a == [] || (b != [] && (a[0] < b[0] || (a[0] == b[0] && LexLe(a[1..], b[1..]))))
  }

  lemma {:induction false} LexLeTotal(a: string, b: string)
    ensures LexLe(a, b) || LexLe(b, a)
  {
    if a != [] && b != [] && a[0] == b[0] {
      LexLeTotal(a[1..], b[1..]);
    }
  }

  lemma {:induction false} LexLeTransitive(a: string, b: string, c: string)
    requires LexLe(a, b) && LexLe(b, c)
    ensures LexLe(a, c)
  {
    if a != [] && a[0] == b[0] && b[0] == c[0] {
      LexLeTransitive(a[1..], b[1..], c[1..]);
    }
  }

  lemma {:induction false} LexLeAntisymmetric(a: string, b: string)
    requires LexLe(a, b) && LexLe(b, a)
    ensures a == b
  {
    if a != [] {
      LexLeAntisymmetric(a[1..], b[1..]);
      assert a == [a[0]] + a[1..] && b == [b[0]] + b[1..];
    }
  }
}
