/** The .NET string operations the core relies on: whitespace (both `\s` in
    a pattern and `char.IsWhiteSpace`), `Trim`, ASCII case mapping, the
    `string.Split(char)` / `string.Join` pair and ordinal `Replace`. */
module Text {

  /** ASCII whitespace: space, tab, line feed, vertical tab, form feed and
      carriage return. */
  predicate IsWs(c: char) {
    c == ' ' || c == '\t' || c == '\n' || c == '\U{B}' || c == '\U{C}' || c == '\r'
  }

  /** `string.IsNullOrWhiteSpace` on a non-null string. */
  predicate Blank(s: string) {
    forall i :: 0 <= i < |s| ==> IsWs(s[i])
  }

  /** Neither end of `s` is whitespace. */
  predicate IsTrimmed(s: string) {
    s == [] || (!IsWs(s[0]) && !IsWs(s[|s| - 1]))
  }

  predicate LitAt(s: string, i: nat, lit: string) {
    i + |lit| <= |s| && s[i..i + |lit|] == lit
  }

  predicate Contains(s: string, lit: string) {
    exists i: nat :: i <= |s| && LitAt(s, i, lit)
  }

  predicate HasChar(s: string, c: char) {
    exists i :: 0 <= i < |s| && s[i] == c
  }

  /** The length of the longest all-whitespace prefix of `s`. */
  function LeadingWs(s: string): (n: nat)
    ensures n <= |s| && Blank(s[..n])
    ensures n == |s| || !IsWs(s[n])
  {
    if s == [] || !IsWs(s[0]) then 0
    else
      var m := LeadingWs(s[1..]);
      assert s[..m + 1] == [s[0]] + s[1..][..m];
      m + 1
  }

  /** The length of the longest all-whitespace suffix of `s`. */
  function TrailingWs(s: string): (n: nat)
    ensures n <= |s| && Blank(s[|s| - n..])
    ensures n == |s| || !IsWs(s[|s| - n - 1])
  {
    if s == [] || !IsWs(s[|s| - 1]) then 0
    else
      var m := TrailingWs(s[..|s| - 1]);
      assert s[|s| - (m + 1)..] == s[..|s| - 1][|s| - 1 - m..] + [s[|s| - 1]];
      m + 1
  }

  /** `string.Trim()`: `s` with its leading and trailing whitespace removed. */
  function Trim(s: string): (r: string)
    ensures IsTrimmed(r)
    ensures exists i, j :: 0 <= i <= j <= |s| && r == s[i..j] && Blank(s[..i]) && Blank(s[j..])
    ensures Blank(s) <==> r == []
    ensures Blank(r) <==> r == []
  {
    var i := LeadingWs(s);
    var t := s[i..];
    var n := TrailingWs(t);
    assert s[i..][..|t| - n] == s[i..i + |t| - n];
    assert t[|t| - n..] == s[i + |t| - n..];
    assert t[..|t| - n] == [] ==> Blank(s) by {
      if |t| == n {
        assert s[..i] == s;
      }
    }
    t[..|t| - n]
  }

  /** A text without the first character of a literal does not contain
      the literal. */
  lemma NoCharNoLit(s: string, lit: string)
    requires lit != [] && !HasChar(s, lit[0])
    ensures !Contains(s, lit)
  {
    forall i: nat | i <= |s| ensures !LitAt(s, i, lit) {
      if i + |lit| <= |s| {
        assert s[i..i + |lit|][0] == s[i];
      }
    }
  }

  /** Trimming adds no character. */
  lemma TrimWithout(s: string, c: char)
    requires !HasChar(s, c)
    ensures !HasChar(Trim(s), c)
  {
    var t := Trim(s);
    var a, b :| 0 <= a <= b <= |s| && t == s[a..b];
    forall j | 0 <= j < |t| ensures t[j] != c {
      assert t[j] == s[a + j];
    }
  }

  lemma {:induction false} TrimTrimmed(s: string)
    requires IsTrimmed(s)
    ensures Trim(s) == s
  {
    if s != [] {
      assert LeadingWs(s) == 0;
      assert TrailingWs(s) == 0;
    }
  }

  /** `char.ToUpperInvariant` restricted to ASCII letters. */
  function ToUpper(c: char): (u: char)
    ensures 'a' <= c <= 'z' ==> u as int == c as int - 32
    ensures !('a' <= c <= 'z') ==> u == c
  {
    if 'a' <= c <= 'z' then (c as int - 32) as char else c
  }

  /** `char.ToLowerInvariant` restricted to ASCII letters. */
  function ToLower(c: char): (l: char)
    ensures 'A' <= c <= 'Z' ==> l as int == c as int + 32
    ensures !('A' <= c <= 'Z') ==> l == c
  {
    if 'A' <= c <= 'Z' then (c as int + 32) as char else c
  }

  lemma UpperLowerInverse(c: char)
    requires 'a' <= c <= 'z'
    ensures ToLower(ToUpper(c)) == c
  {
  }

  /** `char.ToUpperInvariant(n[0]) + n.Substring(1)`. */
  function Capitalize(n: string): (r: string)
    requires n != []
    ensures |r| == |n| && r[1..] == n[1..] && r[0] == ToUpper(n[0])
  {
    [ToUpper(n[0])] + n[1..]
  }

  /** `"_" + char.ToLowerInvariant(n[0]) + n.Substring(1)`: the field name
      synthesised from a property name. */
  function FieldNameFor(n: string): (r: string)
    requires n != []
    ensures |r| == |n| + 1 && r[0] == '_' && r[1] == ToLower(n[0]) && r[2..] == n[1..]
  {
    "_" + [ToLower(n[0])] + n[1..]
  }

  /** Synthesising a field from a capitalised name gives back the name the
      capitalisation started from, when that name did not start with an
      upper-case letter. */
  lemma FieldNameForCapitalize(n: string)
    requires n != [] && !('A' <= n[0] <= 'Z')
    ensures FieldNameFor(Capitalize(n)) == "_" + n
  {
    assert ToLower(ToUpper(n[0])) == n[0];
  }

  /** Capitalising the name inside a synthesised field gives back a name
      that did not start with a lower-case letter. */
  lemma CapitalizeFieldNameFor(n: string)
    requires n != [] && !('a' <= n[0] <= 'z')
    ensures Capitalize(FieldNameFor(n)[1..]) == n
  {
    assert ToUpper(ToLower(n[0])) == n[0];
  }

  /** `Environment.NewLine`, which `StringBuilder.AppendLine` writes, taken
      to be the Windows line break. */
  const NewLine: string := "\r\n"

  /** A `StringBuilder` that had `AppendLine` called with each of `lines`. */
  function AppendLines(lines: seq<string>): string
    decreases |lines|
  {
    if lines == [] then "" else lines[0] + NewLine + AppendLines(lines[1..])
  }

  /** One more `AppendLine` extends the buffer by the line and a line
      break. */
  lemma {:induction false} AppendLinesSnoc(lines: seq<string>, line: string)
    ensures AppendLines(lines + [line]) == AppendLines(lines) + line + NewLine
    decreases |lines|
  {
    if lines != [] {
      assert (lines + [line])[1..] == lines[1..] + [line];
      AppendLinesSnoc(lines[1..], line);
    }
  }

  /** Trimming line breaks off a buffer removes exactly the last
      `AppendLine` break when the line before it ends in something else. */
  lemma TrimEndLineBreak(x: string)
    requires x != [] && x[|x| - 1] != '\r' && x[|x| - 1] != '\n'
    ensures TrimEndNewlines(x + NewLine) == x
  {
    var y := x + NewLine;
    assert y[..|y| - 1] == x + "\r";
    assert (x + "\r")[..|x|] == x;
  }

  /** `string.Split(c)`: the pieces between occurrences of `c`, in order. */
  function Split(s: string, c: char): (parts: seq<string>)
    ensures |parts| >= 1
    ensures forall k :: 0 <= k < |parts| ==> !HasChar(parts[k], c)
    decreases |s|
  {
    if s == [] then [""]
    else
      var rest := Split(s[1..], c);
      if s[0] == c then [""] + rest
      else
        var head := [s[0]] + rest[0];
        assert !HasChar(head, c) by {
          forall i | 0 <= i < |head| ensures head[i] != c {
            if i > 0 { assert head[i] == rest[0][i - 1]; }
          }
        }
        [head] + rest[1..]
  }

  /** `string.Join(sep, parts)`. */
  function Join(sep: string, parts: seq<string>): string
    decreases |parts|
  {
    if parts == [] then ""
    else if |parts| == 1 then parts[0]
    else parts[0] + sep + Join(sep, parts[1..])
  }

  /** Joining the pieces of a split with the separator character gives the
      text back. */
  lemma {:induction false} JoinSplit(s: string, c: char)
    ensures Join([c], Split(s, c)) == s
    decreases |s|
  {
    if s != [] {
      var rest := Split(s[1..], c);
      JoinSplit(s[1..], c);
      if s[0] == c {
        assert Join([c], [""] + rest) == "" + [c] + Join([c], rest);
      } else {
        var parts := [[s[0]] + rest[0]] + rest[1..];
        if |rest| == 1 {
          assert Join([c], parts) == [s[0]] + rest[0];
        } else {
          assert parts[1..] == rest[1..];
          assert Join([c], parts) == [s[0]] + rest[0] + [c] + Join([c], rest[1..]);
        }
      }
    }
  }

  /** A piece without `c` followed by `c` is the first piece of a split. */
  lemma {:induction false} SplitAfter(x: string, c: char, rest: string)
    requires !HasChar(x, c)
    ensures Split(x + [c] + rest, c) == [x] + Split(rest, c)
    decreases |x|
  {
    if x == [] {
      assert x + [c] + rest == [c] + rest;
      assert ([c] + rest)[1..] == rest;
    } else {
      var t := x + [c] + rest;
      assert t[0] == x[0] && t[0] != c;
      assert t[1..] == x[1..] + [c] + rest;
      assert !HasChar(x[1..], c) by {
        forall j | 0 <= j < |x[1..]| ensures x[1..][j] != c { assert x[1..][j] == x[j + 1]; }
      }
      SplitAfter(x[1..], c, rest);
      assert [x[0]] + x[1..] == x;
    }
  }

  /** Lines appended with `AppendLine` split at line feeds into those
      lines, each still ending in its carriage return, and an empty last
      piece. */
  lemma {:induction false} SplitAppendLines(lines: seq<string>)
    requires forall k :: 0 <= k < |lines| ==> !HasChar(lines[k], '\n')
    ensures Split(AppendLines(lines), '\n') == seq(|lines|, k requires 0 <= k < |lines| => lines[k] + "\r") + [""]
    decreases |lines|
  {
    if lines != [] {
      var x := lines[0] + "\r";
      assert !HasChar(x, '\n') by {
        forall j | 0 <= j < |x| ensures x[j] != '\n' {
          if j < |lines[0]| { assert x[j] == lines[0][j]; }
        }
      }
      assert AppendLines(lines) == x + ['\n'] + AppendLines(lines[1..]);
      SplitAfter(x, '\n', AppendLines(lines[1..]));
      SplitAppendLines(lines[1..]);
    }
  }

  /** Ordinal `s.Replace("\n", "\n" + indent)`. */
  function IndentAfterNewlines(s: string, indent: string): (r: string)
    ensures indent == [] ==> r == s
    ensures |r| >= |s|
    decreases |s|
  {
    if s == [] then ""
    else if s[0] == '\n' then "\n" + indent + IndentAfterNewlines(s[1..], indent)
    else [s[0]] + IndentAfterNewlines(s[1..], indent)
  }

  /** `s.TrimEnd('\r', '\n')`. */
  function TrimEndNewlines(s: string): (r: string)
    ensures |r| <= |s| && r == s[..|r|]
    ensures r == [] || (r[|r| - 1] != '\r' && r[|r| - 1] != '\n')
    ensures forall k :: |r| <= k < |s| ==> s[k] == '\r' || s[k] == '\n'
  {
    if s == [] || (s[|s| - 1] != '\r' && s[|s| - 1] != '\n') then s
    else TrimEndNewlines(s[..|s| - 1])
  }
}
