/** The property recogniser of SsRefactor/PropertyRegexHelper.cs: comment
    stripping, the splitter that cuts a selection into candidate blocks, the
    ordered pattern rules that classify one block and extract a
    `PropertyInfo`, and the two scanners (initial value, dependent
    properties) the rules use. */
module PropertyRegexHelper {
  import opened Wrappers
  import opened Text
  import opened Tokens
  import opened PropertyPatterns

  // ---------------------------------------------------------------------
  // PropertyInfo

  /** The recogniser's result. `None` stands for a C# `null`. */
  datatype PropertyInfo = PropertyInfo(
    typeName: Option<string>,
    fieldName: Option<string>,
    propertyName: Option<string>,
    kind: Option<string>,
    dependentProperties: seq<string>,
    initialValue: Option<string>,
    noMatchReason: Option<string>)

  const NoMatchMessage: string :=
    "No recognizable property pattern found. Please select a valid property (auto, full, or observable)."

  /** The failure result: only the reason is set. */
  const NoMatch: PropertyInfo :=
    PropertyInfo(None, None, None, None, [], None, Some(NoMatchMessage))

  /** The tags `Kind` takes. */
  const Kinds: seq<string> :=
    ["Observable", "Auto", "FullWithBacking", "PrismFullWithBacking", "NotifyFullWithBacking", "Full"]

  /** A successful result: what every rule fills in. */
  predicate IsSuccess(p: PropertyInfo) {
    && p.noMatchReason.None?
    && p.kind.Some? && p.kind.value in Kinds
    && p.typeName.Some? && p.typeName.value != []
    && (forall j :: 0 <= j < |p.typeName.value| ==> InClass(p.typeName.value[j], TypeName))
    && p.propertyName.Some? && p.propertyName.value != []
  }

  // ---------------------------------------------------------------------
  // RemoveComments

  /** The first index at or after `i` holding `c`, or `|s|`. */
  function IndexOfFrom(s: string, c: char, i: nat): (k: nat)
    requires i <= |s|
    ensures i <= k <= |s| && (k < |s| ==> s[k] == c)
    ensures forall j :: i <= j < k ==> s[j] != c
    decreases |s| - i
  {
    if i == |s| || s[i] == c then i else IndexOfFrom(s, c, i + 1)
  }

  lemma IndexOfFromSlice(s: string, c: char, i: nat)
    requires i <= |s|
    ensures !HasChar(s[i..IndexOfFrom(s, c, i)], c)
  {
    var k := IndexOfFrom(s, c, i);
    forall j | 0 <= j < k - i ensures s[i..k][j] != c {
      assert s[i..k][j] == s[i + j];
    }
  }

  /** `Regex.Replace(text, @"//.*", "")`: every `//` up to, not including,
      the next line feed is removed. */
  function StripLineComments(s: string): (r: string)
    ensures |r| <= |s|
    decreases |s|
  {
    if |s| < 2 then s
    else if LitAt(s, 0, "//") then StripLineComments(s[IndexOfFrom(s, '\n', 2)..])
    else [s[0]] + StripLineComments(s[1..])
  }

  // The first index j >= i where a block comment closes, if any.
  function CloseCommentFrom(s: string, i: nat): (r: Option<nat>)
    requires i <= |s|
    ensures r.Some? ==> i <= r.value && LitAt(s, r.value, "*/")
    ensures r.Some? ==> forall j :: i <= j < r.value ==> !LitAt(s, j, "*/")
    ensures r.None? ==> forall j :: i <= j <= |s| ==> !LitAt(s, j, "*/")
    decreases |s| - i
  {
    if i + 2 > |s| then None
    else if LitAt(s, i, "*/") then Some(i)
    else CloseCommentFrom(s, i + 1)
  }

  // The lazy block-comment replacement, Singleline: every comment opener
  // with a later closer is removed up to and including the first such
  // closer; an unclosed opener stays.
  function StripBlockComments(s: string): (r: string)
    ensures |r| <= |s|
    decreases |s|
  {
    if |s| < 2 then s
    else if LitAt(s, 0, "/*") then
      match CloseCommentFrom(s, 2)
      case Some(j) => StripBlockComments(s[j + 2..])
      case None => [s[0]] + StripBlockComments(s[1..])
    else [s[0]] + StripBlockComments(s[1..])
  }

  /** What `RemoveComments` returns. */
  function CommentsRemoved(text: string): string {
    StripBlockComments(StripLineComments(text))
  }

  // Neither a line comment nor a closed block comment: no `//`, and no
  // closer `*` `/` at or after the end of an opener `/` `*`.
  ghost predicate NoComment(r: string) {
    && !Contains(r, "//")
    && forall i: nat, j: nat :: i + 2 <= j && LitAt(r, i, "/*") ==> !LitAt(r, j, "*/")
  }

  /** RemoveComments: the two replacements, one after the other; no
      comment is left. */
  method RemoveComments(text: string) returns (r: string)
    ensures r == CommentsRemoved(text)
    ensures NoComment(r)
    ensures |r| <= |text|
  {
    r := text;
    r := StripLineComments(r);
    r := StripBlockComments(r);
    NoCommentLeft(text);
  }

  lemma {:induction false} StripLineFirst(s: string)
    requires s != [] && !LitAt(s, 0, "//")
    ensures StripLineComments(s) != [] && StripLineComments(s)[0] == s[0]
  {
  }

  /** No line comment survives the line-comment pass. */
  lemma {:induction false} StripLineNoComment(s: string)
    ensures !Contains(StripLineComments(s), "//")
    decreases |s|
  {
    var r := StripLineComments(s);
    if |s| < 2 {
      assert forall i: nat :: i <= |r| ==> !LitAt(r, i, "//");
    } else if LitAt(s, 0, "//") {
      StripLineNoComment(s[IndexOfFrom(s, '\n', 2)..]);
    } else {
      var t := StripLineComments(s[1..]);
      StripLineNoComment(s[1..]);
      assert r == [s[0]] + t;
      PairAt(s, 0, "//");
      if s[0] == '/' {
        if |s| >= 3 {
          PairAt(s[1..], 0, "//");
        }
        StripLineFirst(s[1..]);
      }
      forall i: nat | i <= |r| ensures !LitAt(r, i, "//") {
        if i + 2 <= |r| {
          PairAt(r, i, "//");
          if 0 < i {
            PairAt(t, i - 1, "//");
          }
        }
      }
    }
  }

  /** Text without `//` passes the line-comment pass unchanged. */
  lemma {:induction false} StripLineIdentity(s: string)
    requires !Contains(s, "//")
    ensures StripLineComments(s) == s
    decreases |s|
  {
    if |s| >= 2 {
      assert !LitAt(s, 0, "//");
      NoPairTail(s, "//");
      StripLineIdentity(s[1..]);
    }
  }

  // Text without a comment opener passes the block-comment pass unchanged.
  lemma {:induction false} StripBlockIdentity(s: string)
    requires !Contains(s, "/*")
    ensures StripBlockComments(s) == s
    decreases |s|
  {
    if |s| >= 2 {
      assert !LitAt(s, 0, "/*");
      NoPairTail(s, "/*");
      StripBlockIdentity(s[1..]);
    }
  }

  /** Comment-free text is matched as it is. */
  lemma CommentFreeUnchanged(s: string)
    requires !Contains(s, "//") && !Contains(s, "/*")
    ensures CommentsRemoved(s) == s
  {
    StripLineIdentity(s);
    StripBlockIdentity(s);
  }

  // A two-character literal absent from `a` is absent from every suffix.
  lemma {:induction false} NoPairDrop(a: string, k: nat, lit: string)
    requires |lit| == 2 && k <= |a| && !Contains(a, lit)
    ensures !Contains(a[k..], lit)
    decreases k
  {
    if k > 0 {
      NoPairTail(a, lit);
      NoPairDrop(a[1..], k - 1, lit);
      assert a[1..][k - 1..] == a[k..];
    }
  }

  // Text without a comment closer passes the block-comment pass unchanged.
  lemma {:induction false} StripBlockNoCloser(s: string)
    requires !Contains(s, "*/")
    ensures StripBlockComments(s) == s
    decreases |s|
  {
    if |s| >= 2 {
      NoPairTail(s, "*/");
      StripBlockNoCloser(s[1..]);
      if LitAt(s, 0, "/*") {
        assert CloseCommentFrom(s, 2).None?;
      }
    }
  }

  // The block pass keeps the first character of a text that does not open
  // a comment there.
  lemma StripBlockFirst(s: string)
    requires s != [] && !LitAt(s, 0, "/*")
    ensures StripBlockComments(s) != [] && StripBlockComments(s)[0] == s[0]
  {
  }

  // No closer from `k` on means no closer in the suffix from `k`.
  lemma CloserFreeSuffix(s: string, k: nat)
    requires k <= |s| && forall j :: k <= j <= |s| ==> !LitAt(s, j, "*/")
    ensures !Contains(s[k..], "*/")
  {
    forall m: nat | m <= |s[k..]| ensures !LitAt(s[k..], m, "*/") {
      if m + 2 <= |s[k..]| {
        assert s[k..][m..m + 2] == s[k + m..k + m + 2];
        assert !LitAt(s, k + m, "*/");
      }
    }
  }

  // An opener without a closer after it: the block pass keeps the text.
  lemma UnclosedKept(s: string)
    requires 2 <= |s| && LitAt(s, 0, "/*") && CloseCommentFrom(s, 2).None?
    ensures StripBlockComments(s) == s
  {
    CloserFreeSuffix(s, 2);
    StripBlockNoCloser(s[2..]);
    var u := s[1..];
    if |u| >= 2 {
      assert !LitAt(u, 0, "/*") by {
        PairAt(s, 0, "/*");
        PairAt(u, 0, "/*");
      }
      assert u[1..] == s[2..];
    }
    assert StripBlockComments(u) == u;
    assert StripBlockComments(s) == [s[0]] + u;
  }

  /** After the line pass no `//` is left, so removing a block comment can
      never join the text around it into a new comment: the block pass
      leaves no comment. */
  lemma {:induction false} BlockPassClean(s: string)
    requires !Contains(s, "//")
    ensures NoComment(StripBlockComments(s))
    decreases |s|
  {
    var r := StripBlockComments(s);
    if |s| < 2 {
      assert r == s;
    } else if LitAt(s, 0, "/*") {
      match CloseCommentFrom(s, 2)
      case Some(j) =>
        NoPairDrop(s, j + 2, "//");
        BlockPassClean(s[j + 2..]);
      case None =>
        UnclosedKept(s);
    } else {
      var t := StripBlockComments(s[1..]);
      NoPairTail(s, "//");
      BlockPassClean(s[1..]);
      assert r == [s[0]] + t;
      PairAt(s, 0, "//");
      PairAt(s, 0, "/*");
      if s[0] == '/' {
        if |s| >= 3 {
          PairAt(s[1..], 0, "/*");
        }
        StripBlockFirst(s[1..]);
      }
      assert !LitAt(r, 0, "/*") by {
        if |r| >= 2 {
          PairAt(r, 0, "/*");
        }
      }
      forall i: nat | i <= |r| ensures !LitAt(r, i, "//") {
        if i + 2 <= |r| {
          PairAt(r, i, "//");
          if 0 < i {
            PairAt(t, i - 1, "//");
          }
        }
      }
      forall i: nat, j: nat | i + 2 <= j && LitAt(r, i, "/*") ensures !LitAt(r, j, "*/") {
        if 0 < i && j + 2 <= |r| {
          PairAt(r, i, "/*");
          PairAt(t, i - 1, "/*");
          PairAt(r, j, "*/");
          PairAt(t, j - 1, "*/");
        }
      }
    }
  }

  /** RemoveComments leaves neither a `//` nor a closed block comment. */
  lemma NoCommentLeft(text: string)
    ensures NoComment(CommentsRemoved(text))
  {
    StripLineNoComment(text);
    BlockPassClean(StripLineComments(text));
  }

  // A two-character literal absent from `a` is absent from its tail.
  lemma NoPairTail(a: string, lit: string)
    requires |lit| == 2 && a != [] && !Contains(a, lit)
    ensures !Contains(a[1..], lit)
  {
    forall i: nat | i <= |a[1..]| ensures !LitAt(a[1..], i, lit) {
      assert !LitAt(a, i + 1, lit);
      assert i + 2 <= |a[1..]| ==> a[1..][i..i + 2] == a[i + 1..i + 3];
    }
  }

  // A two-character literal at `i`, character by character.
  lemma PairAt(s: string, i: nat, lit: string)
    requires |lit| == 2 && i + 2 <= |s|
    ensures LitAt(s, i, lit) <==> s[i] == lit[0] && s[i + 1] == lit[1]
  {
    assert s[i..i + 2] == [s[i], s[i + 1]];
  }

  /** Text before the first `//` is kept by the line-comment pass, and the
      rest is processed on its own. */
  lemma {:induction false} LineKeepsPrefix(a: string, t: string)
    requires !Contains(a, "//")
    requires a == [] || t == [] || a[|a| - 1] != '/' || t[0] != '/'
    ensures StripLineComments(a + t) == a + StripLineComments(t)
    decreases |a|
  {
    if a == [] {
      assert a + t == t;
    } else if |a + t| < 2 {
      assert a + t == a && t == [];
    } else {
      var s := a + t;
      assert s[0] == a[0] && s[1] == (if |a| >= 2 then a[1] else t[0]);
      if |a| >= 2 {
        PairAt(a, 0, "//");
      }
      PairAt(s, 0, "//");
      NoPairTail(a, "//");
      calc {
        StripLineComments(s);
        [s[0]] + StripLineComments(s[1..]);
        { assert s[1..] == a[1..] + t; }
        [a[0]] + StripLineComments(a[1..] + t);
        { LineKeepsPrefix(a[1..], t); }
        [a[0]] + (a[1..] + StripLineComments(t));
        { assert a == [a[0]] + a[1..]; }
        a + StripLineComments(t);
      }
    }
  }

  // A whole line comment at the start goes, its line feed stays.
  lemma LineCommentSkipped(c: string, b: string)
    requires !HasChar(c, '\n')
    ensures StripLineComments("//" + c + "\n" + b) == "\n" + StripLineComments(b)
  {
    var t := "//" + c + "\n" + b;
    PairAt(t, 0, "//");
    forall j | 2 <= j < 2 + |c| ensures t[j] != '\n' {
      assert t[j] == c[j - 2];
    }
    assert t[2 + |c|] == '\n';
    assert IndexOfFrom(t, '\n', 2) == 2 + |c|;
    assert t[2 + |c|..] == "\n" + b;
    LineKeepsPrefix("\n", b);
  }

  /** The line-comment pass removes a `//` comment up to its line feed,
      keeping the text before it and the line feed. */
  lemma LineCommentRemoved(a: string, c: string, b: string)
    requires !Contains(a, "//") && (a == [] || a[|a| - 1] != '/')
    requires !HasChar(c, '\n')
    ensures StripLineComments(a + "//" + c + "\n" + b) == a + "\n" + StripLineComments(b)
  {
    var t := "//" + c + "\n" + b;
    var x := StripLineComments(b);
    calc {
      StripLineComments(a + "//" + c + "\n" + b);
      { assert a + "//" + c + "\n" + b == a + t; }
      StripLineComments(a + t);
      { LineKeepsPrefix(a, t); }
      a + StripLineComments(t);
      { LineCommentSkipped(c, b); }
      a + ("\n" + x);
      a + "\n" + x;
    }
  }

  /** Text without a comment opener is kept by the block-comment pass,
      and the rest is processed on its own. */
  lemma {:induction false} BlockKeepsPrefix(a: string, t: string)
    requires !Contains(a, "/*")
    requires a == [] || t == [] || a[|a| - 1] != '/' || t[0] != '*'
    ensures StripBlockComments(a + t) == a + StripBlockComments(t)
    decreases |a|
  {
    if a == [] {
      assert a + t == t;
    } else if |a + t| < 2 {
      assert a + t == a && t == [];
    } else {
      var s := a + t;
      assert s[0] == a[0] && s[1] == (if |a| >= 2 then a[1] else t[0]);
      if |a| >= 2 {
        PairAt(a, 0, "/*");
      }
      PairAt(s, 0, "/*");
      NoPairTail(a, "/*");
      calc {
        StripBlockComments(s);
        [s[0]] + StripBlockComments(s[1..]);
        { assert s[1..] == a[1..] + t; }
        [a[0]] + StripBlockComments(a[1..] + t);
        { BlockKeepsPrefix(a[1..], t); }
        [a[0]] + (a[1..] + StripBlockComments(t));
        { assert a == [a[0]] + a[1..]; }
        a + StripBlockComments(t);
      }
    }
  }

  // A closed block comment at the start goes whole.
  lemma BlockCommentSkipped(c: string, b: string)
    requires !Contains(c, "*/")
    ensures StripBlockComments("/*" + c + "*/" + b) == StripBlockComments(b)
  {
    var t := "/*" + c + "*/" + b;
    PairAt(t, 0, "/*");
    forall j | 2 <= j < 2 + |c| ensures !LitAt(t, j, "*/") {
      PairAt(t, j, "*/");
      if j + 1 < 2 + |c| {
        PairAt(c, j - 2, "*/");
        assert t[j] == c[j - 2] && t[j + 1] == c[j - 1];
      } else {
        assert t[j + 1] == '*';
      }
    }
    PairAt(t, 2 + |c|, "*/");
    assert t[2 + |c|] == '*' && t[3 + |c|] == '/';
    assert CloseCommentFrom(t, 2) == Some(2 + |c|);
    assert t[2 + |c| + 2..] == b;
  }

  /** The block-comment pass removes a closed block comment whole, up to
      its first closer, keeping the text before it. */
  lemma BlockCommentRemoved(a: string, c: string, b: string)
    requires !Contains(a, "/*") && !Contains(c, "*/")
    ensures StripBlockComments(a + "/*" + c + "*/" + b) == a + StripBlockComments(b)
  {
    var t := "/*" + c + "*/" + b;
    calc {
      StripBlockComments(a + "/*" + c + "*/" + b);
      { assert a + "/*" + c + "*/" + b == a + t; }
      StripBlockComments(a + t);
      { BlockKeepsPrefix(a, t); BlockCommentSkipped(c, b); }
      a + StripBlockComments(b);
    }
  }

  // `*x*/` holds no comment opener when `x` holds no slash.
  lemma StarredNoOpener(x: string)
    requires !HasChar(x, '/')
    ensures !Contains("*" + x + "*/", "/*")
  {
    var rest := "*" + x + "*/";
    forall k: nat | k <= |rest| ensures !LitAt(rest, k, "/*") {
      if k + 2 <= |rest| {
        PairAt(rest, k, "/*");
        if 1 <= k <= |x| {
          assert rest[k] == x[k - 1];
        }
      }
    }
  }

  /** The block pass on its own is a single left-to-right replacement, as
      `Regex.Replace` is: removing one comment can join the text around it
      into a new comment, which stays. Inside RemoveComments this input
      never reaches the block pass, because the line pass removes it from
      its leading `//` on; NoCommentLeft shows that no comment survives
      the two passes together. */
  lemma BlockPassDoesNotRescan(x: string)
    requires !HasChar(x, '/')
    ensures StripBlockComments("/" + "/**/" + "*" + x + "*/") == "/*" + x + "*/"
  {
    var s := "/" + "/**/" + "*" + x + "*/";
    var rest := "*" + x + "*/";
    StarredNoOpener(x);
    PairAt(s, 0, "/*");
    calc {
      StripBlockComments(s);
      [s[0]] + StripBlockComments(s[1..]);
      { assert s[1..] == "/*" + "" + "*/" + rest; }
      "/" + StripBlockComments("/*" + "" + "*/" + rest);
      { BlockCommentSkipped("", rest); }
      "/" + StripBlockComments(rest);
      { StripBlockIdentity(rest); }
      "/" + rest;
    }
  }

  // ---------------------------------------------------------------------
  // ExtractPropertyBlocks

  /** `(\r?\n)+` at `i`, taken greedily: how many newlines, where the run
      ends, and the last newline (the text group 1 keeps). */
  function NewlineRun(s: string, i: nat): (r: (nat, nat, string))
    requires i <= |s|
    ensures i <= r.1 <= |s|
    ensures r.0 == 0 <==> r.1 == i
    ensures r.0 >= 1 ==> r.2 == "\n" || r.2 == "\r\n"
    ensures r.0 >= 2 ==> r.1 >= i + 2
    decreases |s| - i
  {
    if LitAt(s, i, "\r\n") then
      var t := NewlineRun(s, i + 2);
      (t.0 + 1, t.1, if t.0 == 0 then "\r\n" else t.2)
    else if LitAt(s, i, "\n") then
      var t := NewlineRun(s, i + 1);
      (t.0 + 1, t.1, if t.0 == 0 then "\n" else t.2)
    else (0, i, "")
  }

  /** The separator `(\r?\n){2,}` matches at `i`. */
  predicate SeparatorAt(s: string, i: nat)
    requires i <= |s|
  {
    NewlineRun(s, i).0 >= 2
  }

  /** The first separator at or after `i`. */
  function NextSeparator(s: string, i: nat): (k: Option<nat>)
    requires i <= |s|
    ensures k.Some? ==> i <= k.value <= |s| && SeparatorAt(s, k.value)
    ensures forall j :: i <= j <= |s| && (k.None? || j < k.value) ==> !SeparatorAt(s, j)
    decreases |s| - i
  {
    if SeparatorAt(s, i) then Some(i)
    else if i == |s| then None
    else NextSeparator(s, i + 1)
  }

  /** The text between separators, each with the separator text after it
      ("" after the last piece). */
  function Segments(s: string): (r: seq<(string, string)>)
    ensures |r| >= 1
    ensures r[|r| - 1].1 == ""
    decreases |s|
  {
    match NextSeparator(s, 0)
    case None => [(s, "")]
    case Some(k) =>
      var e := NewlineRun(s, k).1;
      [(s[..k], s[k..e])] + Segments(s[e..])
  }

  function Concat(segs: seq<(string, string)>): string {
    if segs == [] then "" else segs[0].0 + segs[0].1 + Concat(segs[1..])
  }

  // Concat of a segment list that starts with `x`.
  lemma ConcatCons(x: (string, string), rest: seq<(string, string)>)
    ensures Concat([x] + rest) == x.0 + x.1 + Concat(rest)
  {
    assert ([x] + rest)[1..] == rest;
  }

  /** The segments put back together give the text. */
  lemma {:induction false} SegmentsCover(s: string)
    ensures Concat(Segments(s)) == s
    decreases |s|
  {
    match NextSeparator(s, 0)
    case None =>
      ConcatCons((s, ""), []);
      assert s + "" == s;
    case Some(k) =>
      var e := NewlineRun(s, k).1;
      SegmentsCover(s[e..]);
      CoverStep(s, k, e, Segments(s[e..]));
  }

  // One piece and its separator in front of segments that cover the rest.
  lemma CoverStep(s: string, k: nat, e: nat, rest: seq<(string, string)>)
    requires k <= e <= |s| && Concat(rest) == s[e..]
    ensures Concat([(s[..k], s[k..e])] + rest) == s
  {
    ConcatCons((s[..k], s[k..e]), rest);
    assert s[..k] + s[k..e] + s[e..] == s;
  }

  /** `Regex.Split(text, "(\r?\n){2,}")`: the pieces, each followed by the
      last newline the separator after it captured. */
  function RegexSplit(s: string): (r: seq<string>)
    ensures |r| >= 1
    decreases |s|
  {
    match NextSeparator(s, 0)
    case None => [s]
    case Some(k) =>
      var e := NewlineRun(s, k).1;
      [s[..k], NewlineRun(s, k).2] + RegexSplit(s[e..])
  }

  /** The captured separators in the split are newlines, so blank. */
  lemma {:induction false} SplitCapturesBlank(s: string, k: nat)
    requires k < |RegexSplit(s)| && k % 2 == 1
    ensures Blank(RegexSplit(s)[k])
    decreases |s|
  {
    match NextSeparator(s, 0)
    case None =>
    case Some(i) =>
      var e := NewlineRun(s, i).1;
      if k > 1 {
        SplitCapturesBlank(s[e..], k - 2);
      }
  }

  /** One candidate's contribution: its trim, unless that is blank. */
  function Kept(c: string): (r: seq<string>)
    ensures |r| <= 1
    ensures r == [] <==> Blank(c)
    ensures r != [] ==> r[0] == Trim(c) && r[0] != [] && IsTrimmed(r[0])
  {
    var t := Trim(c);
    if Blank(t) then [] else [t]
  }

  // Non-empty trimmed blocks, concatenated, stay non-empty and trimmed.
  lemma BlocksConcat(a: seq<string>, b: seq<string>)
    requires forall k :: 0 <= k < |a| ==> a[k] != [] && IsTrimmed(a[k])
    requires forall k :: 0 <= k < |b| ==> b[k] != [] && IsTrimmed(b[k])
    ensures forall k :: 0 <= k < |a + b| ==> (a + b)[k] != [] && IsTrimmed((a + b)[k])
  {
    forall k | 0 <= k < |a + b| ensures (a + b)[k] != [] && IsTrimmed((a + b)[k]) {
      if k >= |a| {
        assert (a + b)[k] == b[k - |a|];
      }
    }
  }

  /** The blocks kept from a list of candidates, in order. */
  function KeepBlocks(cands: seq<string>): (r: seq<string>)
    ensures forall k :: 0 <= k < |r| ==> r[k] != [] && IsTrimmed(r[k])
    ensures |r| <= |cands|
  {
    if cands == [] then []
    else
      var h, t := Kept(cands[0]), KeepBlocks(cands[1..]);
      BlocksConcat(h, t);
      h + t
  }

  lemma {:induction false} KeepBlocksAppend(a: seq<string>, b: seq<string>)
    ensures KeepBlocks(a + b) == KeepBlocks(a) + KeepBlocks(b)
  {
    if a == [] {
      assert a + b == b;
    } else {
      assert (a + b)[0] == a[0];
      assert (a + b)[1..] == a[1..] + b;
      KeepBlocksAppend(a[1..], b);
    }
  }

  lemma {:induction false} KeepBlocksStep(cands: seq<string>, i: nat)
    requires i < |cands|
    ensures KeepBlocks(cands[..i + 1]) == KeepBlocks(cands[..i]) + Kept(cands[i])
  {
    var pre := cands[..i];
    assert cands[..i + 1] == pre + [cands[i]];
    KeepBlocksAppend(pre, [cands[i]]);
    KeepBlocksSingle(cands[i]);
  }

  lemma {:induction false} KeepBlocksSingle(c: string)
    ensures KeepBlocks([c]) == Kept(c)
  {
    assert [c][1..] == [];
  }

  /** What ExtractPropertyBlocks returns. */
  function Blocks(text: string): seq<string> {
    KeepBlocks(RegexSplit(text))
  }

  /** ExtractPropertyBlocks: split, then keep every trimmed non-blank piece. */
  method ExtractPropertyBlocks(text: string) returns (blocks: seq<string>)
    ensures blocks == KeepBlocks(RegexSplit(text))
    ensures forall k :: 0 <= k < |blocks| ==> blocks[k] != [] && IsTrimmed(blocks[k])
  {
    blocks := [];
    var candidates := RegexSplit(text);
    for i := 0 to |candidates|
      invariant blocks == KeepBlocks(candidates[..i])
    {
      var trimmed := Trim(candidates[i]);
      KeepBlocksStep(candidates, i);
      if Blank(trimmed) {
        continue;
      }
      blocks := blocks + [trimmed];
    }
    assert candidates[..|candidates|] == candidates;
  }

  /** Blocks follow the text: they are the trimmed non-blank pieces between
      separators, in order. */
  lemma {:induction false} BlocksInOrder(s: string)
    ensures Blocks(s) == KeepBlocks(SegmentPieces(Segments(s)))
    decreases |s|
  {
    match NextSeparator(s, 0)
    case None =>
      assert RegexSplit(s) == [s];
      assert SegmentPieces(Segments(s)) == [s];
    case Some(k) =>
      var e := NewlineRun(s, k).1;
      BlocksStep(s, k, e);
      PiecesStep(s, k, e);
      BlocksInOrder(s[e..]);
  }

  lemma {:induction false} BlocksStep(s: string, k: nat, e: nat)
    requires NextSeparator(s, 0) == Some(k) && e == NewlineRun(s, k).1
    ensures k <= e <= |s|
    ensures Blocks(s) == Kept(s[..k]) + Blocks(s[e..])
  {
    var cap := NewlineRun(s, k).2;
    assert RegexSplit(s) == [s[..k]] + ([cap] + RegexSplit(s[e..]));
    assert Kept(cap) == [];
    KeepAroundBlank(s[..k], cap, RegexSplit(s[e..]));
  }

  /** A blank piece between two others keeps nothing. */
  lemma KeepAroundBlank(a: string, cap: string, rest: seq<string>)
    requires Kept(cap) == []
    ensures KeepBlocks([a] + ([cap] + rest)) == Kept(a) + KeepBlocks(rest)
  {
    KeepBlocksAppend([a], [cap] + rest);
    KeepBlocksAppend([cap], rest);
    KeepBlocksSingle(a);
    KeepBlocksSingle(cap);
    assert [] + KeepBlocks(rest) == KeepBlocks(rest);
  }

  lemma {:induction false} PiecesStep(s: string, k: nat, e: nat)
    requires NextSeparator(s, 0) == Some(k) && e == NewlineRun(s, k).1
    ensures k <= e <= |s|
    ensures KeepBlocks(SegmentPieces(Segments(s)))
         == Kept(s[..k]) + KeepBlocks(SegmentPieces(Segments(s[e..])))
  {
    var restPieces := SegmentPieces(Segments(s[e..]));
    assert Segments(s) == [(s[..k], s[k..e])] + Segments(s[e..]);
    assert SegmentPieces(Segments(s)) == [s[..k]] + restPieces;
    KeepBlocksAppend([s[..k]], restPieces);
    KeepBlocksSingle(s[..k]);
  }

  function SegmentPieces(segs: seq<(string, string)>): seq<string> {
    if segs == [] then [] else [segs[0].0] + SegmentPieces(segs[1..])
  }

  /** A non-blank text with no blank-line separator is one block, its trim. */
  lemma SingleBlock(s: string)
    requires !Blank(s)
    requires forall i :: 0 <= i <= |s| ==> !SeparatorAt(s, i)
    ensures Blocks(s) == [Trim(s)]
  {
    assert NextSeparator(s, 0).None?;
    assert RegexSplit(s) == [s];
    assert KeepBlocks([s]) == [Trim(s)] + KeepBlocks([]);
  }

  // ---------------------------------------------------------------------
  // GetLeadingWhitespace

  /** GetLeadingWhitespace: `^(\s*)`, the longest all-whitespace prefix. */
  function GetLeadingWhitespace(text: string): (r: string)
    ensures |r| <= |text| && r == text[..|r|] && Blank(r)
    ensures |r| == |text| || !IsWs(text[|r|])
  {
    text[..LeadingWs(text)]
  }

  /** A trimmed block has no indentation. */
  lemma TrimmedHasNoIndent(block: string)
    requires IsTrimmed(block)
    ensures GetLeadingWhitespace(block) == ""
  {
  }

  // ---------------------------------------------------------------------
  // Captures

  /** The text token `k` of the match of `toks` at `a` spans. */
  function Capture(s: string, toks: seq<Tok>, a: nat, ends: seq<nat>, k: nat): (r: string)
    requires a <= |s| && MatchAt(s, toks, a) == Some(ends) && k < |toks|
    ensures toks[k].Run? ==> r != [] && forall j :: 0 <= j < |r| ==> InClass(r[j], toks[k].cls)
  {
    MatchSpan(s, toks, a, ends, k);
    Span(s, a, ends, k)
  }

  /** Where the match of `toks` at `a` ends. */
  function EndOf(s: string, toks: seq<Tok>, a: nat, ends: seq<nat>): (e: nat)
    requires a <= |s| && MatchAt(s, toks, a) == Some(ends) && |toks| > 0
    ensures a <= e <= |s|
  {
    MatchBounds(s, toks, a, ends);
    ends[|ends| - 1]
  }

  // ---------------------------------------------------------------------
  // ExtractInitialValueFromField

  /** `field\s*=\s*(.*?);` at `i`, read declaratively: the field name,
      blanks, `=` at `eq`, blanks up to `v`, then text without `;` up to
      the `;` at `c`. */
  predicate AssignmentAt(s: string, field: string, i: nat, eq: nat, v: nat, c: nat) {
    && LitAt(s, i, field) && i + |field| <= eq < v <= c < |s|
    && Blank(s[i + |field|..eq]) && s[eq] == '='
    && Blank(s[eq + 1..v]) && s[c] == ';' && !HasChar(s[v..c], ';')
  }

  /** `field`, optional spaces, `=`, optional spaces, then everything up to
      the first `;`, at `i`: the trimmed value. */
  function InitialValueAt(s: string, field: string, i: nat): (r: Option<string>)
    requires i <= |s|
    ensures r.Some? ==> IsTrimmed(r.value) && !HasChar(r.value, ';')
    ensures r.Some? ==> LitAt(s, i, field)
    ensures r.Some? ==> exists eq: nat, v: nat, c: nat :: AssignmentAt(s, field, i, eq, v, c) && r.value == Trim(s[v..c])
  {
    if !LitAt(s, i, field) then None
    else
      var eq := WsEnd(s, i + |field|);
      if eq == |s| || s[eq] != '=' then None
      else
        var v := WsEnd(s, eq + 1);
        var c := IndexOfFrom(s, ';', v);
        if c == |s| then None
        else
          IndexOfFromSlice(s, ';', v);
          TrimWithout(s[v..c], ';');
          assert AssignmentAt(s, field, i, eq, v, c);
          Some(Trim(s[v..c]))
  }

  /** The leftmost position at or after `i` where an assignment to `field`
      matches. */
  function FirstAssignment(s: string, field: string, i: nat): (r: Option<nat>)
    requires i <= |s|
    ensures r.Some? ==> i <= r.value <= |s| && InitialValueAt(s, field, r.value).Some?
    ensures forall j :: i <= j <= |s| && (r.None? || j < r.value) ==> InitialValueAt(s, field, j).None?
    decreases |s| - i
  {
    if InitialValueAt(s, field, i).Some? then Some(i)
    else if i == |s| then None
    else FirstAssignment(s, field, i + 1)
  }

  /** ExtractInitialValueFromField: the trimmed value of the first
      assignment to `fieldName` in `text`, or `None`. The field name is
      made of word characters, so escaping it changes nothing. */
  function ExtractInitialValueFromField(text: string, fieldName: string): (r: Option<string>)
    ensures r.Some? ==> IsTrimmed(r.value) && !HasChar(r.value, ';')
    ensures r.Some? ==> Contains(text, fieldName)
    ensures r.None? <==> forall j :: 0 <= j <= |text| ==> InitialValueAt(text, fieldName, j).None?
    ensures r.Some? ==> exists j :: && 0 <= j <= |text| && r == InitialValueAt(text, fieldName, j)
                                    && forall k :: 0 <= k < j ==> InitialValueAt(text, fieldName, k).None?
  {
    match FirstAssignment(text, fieldName, 0)
    case None => None
    case Some(j) => InitialValueAt(text, fieldName, j)
  }

  /** An assignment `field = ...;` anywhere in the text yields a value. */
  lemma InitialValueFound(s: string, field: string, i: nat, eq: nat, c: nat)
    requires LitAt(s, i, field) && i + |field| <= eq < c < |s|
    requires Blank(s[i + |field|..eq]) && s[eq] == '=' && s[c] == ';'
    ensures ExtractInitialValueFromField(s, field).Some?
  {
    WsEndExact(s, i + |field|, eq);
    var v := WsEnd(s, eq + 1);
    assert forall j :: eq + 1 <= j < v ==> s[j] == s[eq + 1..v][j - eq - 1];
    assert InitialValueAt(s, field, i).Some?;
  }

  /** Every declarative match of the assignment pattern at `i` is found by
      the scanner there. */
  lemma AssignmentFound(s: string, field: string, i: nat, eq: nat, v: nat, c: nat)
    requires AssignmentAt(s, field, i, eq, v, c)
    ensures InitialValueAt(s, field, i).Some?
  {
    WsEndExact(s, i + |field|, eq);
    var w := WsEnd(s, eq + 1);
    forall k | eq + 1 <= k < w ensures IsWs(s[k]) {
      assert s[k] == s[eq + 1..w][k - eq - 1];
    }
    assert w <= c;
    assert IndexOfFrom(s, ';', w) <= c;
  }

  // No assignment to `_age` starts before the name in
  // `private int _age = 5;`.
  lemma InitialValueExampleBefore()
    ensures forall j :: 0 <= j < 12 ==> InitialValueAt("private int _age = 5;", "_age", j).None?
  {
    var s := "private int _age = 5;";
    forall j | 0 <= j < 12 ensures InitialValueAt(s, "_age", j).None? {
      assert s[j] != '_';
      assert !LitAt(s, j, "_age") by {
        if j + 4 <= |s| { assert s[j..j + 4][0] == s[j]; }
      }
    }
  }

  // At the name, the assignment's value is `5`.
  lemma InitialValueExampleAt()
    ensures InitialValueAt("private int _age = 5;", "_age", 12) == Some("5")
  {
    var s := "private int _age = 5;";
    assert LitAt(s, 12, "_age");
    assert WsEnd(s, 16) == 17 by { WsEndExact(s, 16, 17); }
    assert WsEnd(s, 18) == 19 by { WsEndExact(s, 18, 19); }
    assert IndexOfFrom(s, ';', 19) == 20;
    assert s[19..20] == "5";
    TrimTrimmed("5");
  }

  /** The field's first initializer in `private int _age = 5;` is `5`. */
  lemma InitialValueExample()
    ensures ExtractInitialValueFromField("private int _age = 5;", "_age") == Some("5")
  {
    InitialValueExampleBefore();
    InitialValueExampleAt();
  }

  /** Without an occurrence of the field name there is no value. */
  lemma NoFieldNoValue(s: string, field: string)
    requires !Contains(s, field)
    ensures ExtractInitialValueFromField(s, field) == None
  {
    forall j | 0 <= j <= |s| ensures InitialValueAt(s, field, j).None? {
      assert !LitAt(s, j, field);
    }
  }

  // ---------------------------------------------------------------------
  // ExtractDependentProperties

  /** The name an `OnPropertyChanged(nameof(X))` or
      `OnPropertyChanged("X")` call at `i` notifies, the `nameof` form
      tried first, and where the call ends. */
  function NotifyCallAt(s: string, i: nat): (r: Option<(string, nat)>)
    requires i <= |s|
    ensures r.Some? ==> i < r.value.1 <= |s|
    ensures r.Some? ==> r.value.0 != [] && forall j :: 0 <= j < |r.value.0| ==> IsWord(r.value.0[j])
  {
    match MatchAt(s, NameofCallPattern, i)
    case Some(ends) =>
      HitAdvances(s, NameofCallPattern, i, ends);
      Some((Capture(s, NameofCallPattern, i, ends, NameofCallName), ends[12]))
    case None =>
      match MatchAt(s, QuotedCallPattern, i)
      case Some(ends) =>
        HitAdvances(s, QuotedCallPattern, i, ends);
        Some((Capture(s, QuotedCallPattern, i, ends, QuotedCallName), ends[8]))
      case None => None
  }

  /** The values of `f` at `0..n-1`. */
  function Table<T>(f: nat -> T, n: nat): (t: seq<T>)
    ensures |t| == n
  {
    if n == 0 then [] else Table(f, n - 1) + [f(n - 1)]
  }

  lemma {:induction false} TableAt<T>(f: nat -> T, n: nat, k: nat)
    requires k < n
    ensures Table(f, n)[k] == f(k)
  {
    if k < n - 1 {
      TableAt(f, n - 1, k);
    }
  }

  // What the call pattern recognises at position `k` of `s`, if `k` is in it.
  function CallOrNone(s: string, k: nat): Option<(string, nat)> {
    if k <= |s| then NotifyCallAt(s, k) else None
  }

  function CallAtFn(s: string): nat -> Option<(string, nat)> {
    (k: nat) => CallOrNone(s, k)
  }

  /** What the call pattern recognises at each position `0..|s|` of `s`. */
  function Calls(s: string): (t: seq<Option<(string, nat)>>)
    ensures |t| == |s| + 1 && ScanTable(t)
  {
    CallsScanTable(s);
    Table(CallAtFn(s), |s| + 1)
  }

  lemma CallsScanTable(s: string)
    ensures ScanTable(Table(CallAtFn(s), |s| + 1))
  {
    CallsAllOk(s);
    TableScan(CallAtFn(s), |s| + 1);
  }

  // Every value of `f` below `n` is a call that `CallOk` accepts.
  predicate FnOk(f: nat -> Option<(string, nat)>, n: nat) {
    forall k: nat :: k < n ==> CallOk(f(k), k, n)
  }

  lemma CallsAllOk(s: string)
    ensures FnOk(CallAtFn(s), |s| + 1)
  {
    forall k: nat | k < |s| + 1 ensures CallOk(CallAtFn(s)(k), k, |s| + 1) {
      CallAtOk(s, k);
    }
  }

  lemma CallAtOk(s: string, k: nat)
    requires k <= |s|
    ensures CallOk(CallAtFn(s)(k), k, |s| + 1)
  {
    assert CallAtFn(s)(k) == NotifyCallAt(s, k);
  }

  lemma TableScan(f: nat -> Option<(string, nat)>, n: nat)
    requires FnOk(f, n)
    ensures ScanTable(Table(f, n))
  {
    forall k: nat | k < n ensures EntryOk(Table(f, n), k) {
      TableAt(f, n, k);
    }
  }

  lemma CallsEntry(s: string, k: nat)
    requires k <= |s|
    ensures Table(CallAtFn(s), |s| + 1)[k] == NotifyCallAt(s, k)
  {
    TableAt(CallAtFn(s), |s| + 1, k);
    assert CallAtFn(s)(k) == CallOrNone(s, k);
  }

  // Entry `k` of the table is what the pattern recognises at `k`.
  lemma CallsAt(s: string, k: nat)
    requires k <= |s|
    ensures Calls(s)[k] == NotifyCallAt(s, k)
  {
    CallsEntry(s, k);
  }

  /** `c` is no call, or a call at `k` naming a non-empty run of word
      characters and ending after `k` and before `n`. */
  predicate CallOk(c: Option<(string, nat)>, k: nat, n: nat) {
    c.Some? ==>
      && k < c.value.1 < n
      && c.value.0 != [] && forall j :: 0 <= j < |c.value.0| ==> IsWord(c.value.0[j])
  }

  predicate EntryOk(t: seq<Option<(string, nat)>>, k: nat)
    requires k < |t|
  {
    CallOk(t[k], k, |t|)
  }

  predicate ScanTable(t: seq<Option<(string, nat)>>) {
    forall k: nat :: k < |t| ==> EntryOk(t, k)
  }

  /** The scan `Regex.Matches` makes from position `i`: where a call is
      recognised its name is listed and the search resumes where the call
      ends, elsewhere it moves one position on. */
  function Scan(t: seq<Option<(string, nat)>>, i: nat): (r: seq<string>)
    requires ScanTable(t) && i < |t|
    ensures forall k :: 0 <= k < |r| ==> r[k] != [] && forall j :: 0 <= j < |r[k]| ==> IsWord(r[k][j])
    ensures |r| < |t| - i
    decreases |t| - i
  {
    assert EntryOk(t, i);
    match t[i]
    case Some(m) =>
      var rest := Scan(t, m.1);
      WordsCons(m.0, rest);
      [m.0] + rest
    case None =>
      if i == |t| - 1 then [] else Scan(t, i + 1)
  }

  /** `Regex.Matches` of the call pattern from `i` on: the notified names
      in order, each search resuming where the previous call ended. */
  function NotifiedNames(s: string, i: nat): (r: seq<string>)
    requires i <= |s|
    ensures forall k :: 0 <= k < |r| ==> r[k] != [] && forall j :: 0 <= j < |r[k]| ==> IsWord(r[k][j])
    ensures |r| <= |s| - i
  {
    Scan(Calls(s), i)
  }

  lemma WordsCons(x: string, rest: seq<string>)
    requires x != [] && forall j :: 0 <= j < |x| ==> IsWord(x[j])
    requires forall k :: 0 <= k < |rest| ==> rest[k] != [] && forall j :: 0 <= j < |rest[k]| ==> IsWord(rest[k][j])
    ensures var r := [x] + rest;
      forall k :: 0 <= k < |r| ==> r[k] != [] && forall j :: 0 <= j < |r[k]| ==> IsWord(r[k][j])
  {
    var r := [x] + rest;
    forall k | 0 < k < |r| ensures r[k] == rest[k - 1] {}
  }

  /** The names the loop keeps: non-empty and not the property itself. */
  function KeepNotified(names: seq<string>, current: string): (r: seq<string>)
    ensures forall k :: 0 <= k < |r| ==> r[k] != [] && r[k] != current
    ensures forall y :: y != [] && y != current ==> multiset(r)[y] == multiset(names)[y]
    ensures forall y :: y in r ==> y in names
  {
    if names == [] then []
    else
      var last := names[|names| - 1];
      var init := names[..|names| - 1];
      assert names == init + [last];
      KeepNotified(init, current) + (if last != [] && last != current then [last] else [])
  }

  /** What ExtractDependentProperties returns. */
  function DependentProperties(setterBody: string, currentProperty: string): seq<string> {
    KeepNotified(NotifiedNames(setterBody, 0), currentProperty)
  }

  /** ExtractDependentProperties: one pass over the call matches, keeping
      each notified name other than the property's own. */
  method ExtractDependentProperties(setterBody: string, currentProperty: string)
    returns (result: seq<string>)
    ensures result == KeepNotified(NotifiedNames(setterBody, 0), currentProperty)
    ensures forall k :: 0 <= k < |result| ==> result[k] != [] && result[k] != currentProperty
  {
    result := [];
    var matches := NotifiedNames(setterBody, 0);
    for i := 0 to |matches|
      invariant result == KeepNotified(matches[..i], currentProperty)
    {
      var name := matches[i];
      assert matches[..i + 1][..i] == matches[..i];
      if name != [] && name != currentProperty {
        result := result + [name];
      }
    }
    assert matches[..|matches|] == matches;
  }

  /** Every name the setter notifies, other than the property's own, is a
      dependent property, as often as it is notified. */
  lemma DependentsKeepDuplicates(setterBody: string, current: string, y: string)
    requires y != current
    ensures multiset(DependentProperties(setterBody, current))[y]
         == multiset(NotifiedNames(setterBody, 0))[y]
  {
    var names := NotifiedNames(setterBody, 0);
    if y == [] {
      assert y !in names;
      assert y !in DependentProperties(setterBody, current);
    }
  }

  /** A setter without a notification call has no dependents. */
  lemma NoCallNoDependents(setterBody: string, current: string)
    requires !Contains(setterBody, "OnPropertyChanged")
    ensures DependentProperties(setterBody, current) == []
  {
    NoCallNoNames(setterBody, 0);
  }

  lemma {:induction false} NoCallNoNames(s: string, i: nat)
    requires i <= |s| && !Contains(s, "OnPropertyChanged")
    ensures NotifiedNames(s, i) == []
    decreases |s| - i
  {
    assert !LitAt(s, i, "OnPropertyChanged");
    NoCallAt(s, i);
    if i < |s| {
      NamesStep(s, i);
      NoCallNoNames(s, i + 1);
    } else {
      NamesAtEnd(s);
    }
  }

  lemma NoCallAt(s: string, i: nat)
    requires i <= |s| && !LitAt(s, i, "OnPropertyChanged")
    ensures NotifyCallAt(s, i).None?
  {
    MatchFirstLit(s, NameofCallPattern, i);
    MatchFirstLit(s, QuotedCallPattern, i);
  }

  /** A call is recognised at `i` exactly when one of the two call patterns
      parses there. */
  lemma NotifyCallIff(s: string, i: nat)
    requires i <= |s|
    ensures NotifyCallAt(s, i).Some?
        <==> (exists ends :: Parse(s, NameofCallPattern, i, ends))
             || (exists ends :: Parse(s, QuotedCallPattern, i, ends))
  {
    NameofCallWellFormed();
    QuotedCallWellFormed();
    if ends :| Parse(s, NameofCallPattern, i, ends) {
      MatchAtComplete(s, NameofCallPattern, i, ends);
    }
    if ends :| Parse(s, QuotedCallPattern, i, ends) {
      MatchAtComplete(s, QuotedCallPattern, i, ends);
    }
  }

  // One scan step: a position without a call is passed over, a call is
  // listed and the scan resumes after it.
  lemma NamesStep(s: string, i: nat)
    requires i < |s|
    ensures NotifyCallAt(s, i).None? ==> NotifiedNames(s, i) == NotifiedNames(s, i + 1)
    ensures NotifyCallAt(s, i).Some? ==>
      NotifiedNames(s, i) == [NotifyCallAt(s, i).value.0] + NotifiedNames(s, NotifyCallAt(s, i).value.1)
  {
    CallsAt(s, i);
  }

  // Entries without a call are passed over by the scan.
  lemma {:induction false} ScanSkip(t: seq<Option<(string, nat)>>, i: nat, j: nat)
    requires ScanTable(t) && i <= j < |t|
    requires forall k :: i <= k < j ==> t[k].None?
    ensures Scan(t, i) == Scan(t, j)
    decreases j - i
  {
    if i < j {
      ScanSkip(t, i + 1, j);
    }
  }

  /** Positions without a call are passed over by the scan. */
  lemma NamesSkip(s: string, i: nat, j: nat)
    requires i <= j <= |s|
    requires forall k :: i <= k < j ==> NotifyCallAt(s, k).None?
    ensures NotifiedNames(s, i) == NotifiedNames(s, j)
  {
    forall k | i <= k < j ensures Calls(s)[k].None? {
      CallsAt(s, k);
    }
    ScanSkip(Calls(s), i, j);
  }

  /** The scan, as `Regex.Matches` runs it: the first name is that of the
      leftmost call at or after `i`, and the scan resumes where that call
      ends. */
  lemma NamesNext(s: string, i: nat, j: nat)
    requires i <= j <= |s| && NotifyCallAt(s, j).Some?
    requires forall k :: i <= k < j ==> NotifyCallAt(s, k).None?
    ensures NotifiedNames(s, i)
         == [NotifyCallAt(s, j).value.0] + NotifiedNames(s, NotifyCallAt(s, j).value.1)
  {
    NamesSkip(s, i, j);
    NamesStep(s, j);
  }

  /** The leftmost position at or after `i` where a call is recognised. */
  function FirstCall(s: string, i: nat): (r: Option<nat>)
    requires i <= |s|
    ensures r.Some? ==> i <= r.value <= |s| && NotifyCallAt(s, r.value).Some?
    ensures forall j :: i <= j <= |s| && (r.None? || j < r.value) ==> NotifyCallAt(s, j).None?
    decreases |s| - i
  {
    if NotifyCallAt(s, i).Some? then Some(i)
    else if i == |s| then None
    else FirstCall(s, i + 1)
  }

  /** The scan, as `Regex.Matches` runs it: no name when no call starts at
      or after `i`; otherwise the name of the leftmost call, then the
      names found from where that call ends. */
  lemma NamesByFirstCall(s: string, i: nat)
    requires i <= |s|
    ensures FirstCall(s, i).None? ==> NotifiedNames(s, i) == []
    ensures FirstCall(s, i).Some? ==>
      var m := NotifyCallAt(s, FirstCall(s, i).value).value;
      NotifiedNames(s, i) == [m.0] + NotifiedNames(s, m.1)
  {
    NamesAtEnd(s);
    match FirstCall(s, i)
    case None =>
      NamesSkip(s, i, |s|);
    case Some(j) =>
      NamesSkip(s, i, j);
      NamesStep(s, j);
  }

  // Nothing is found from the end of the text on.
  lemma NamesAtEnd(s: string)
    ensures NotifyCallAt(s, |s|).None?
    ensures NotifiedNames(s, |s|) == []
  {
    NoCallAt(s, |s|);
    CallsAt(s, |s|);
  }

  /** `OnPropertyChanged()` without an argument is no call of either form. */
  lemma EmptyCallNone(s: string, p: nat)
    requires p + 19 <= |s| && s[p..p + 19] == "OnPropertyChanged()"
    ensures NotifyCallAt(s, p).None?
  {
    var w := "OnPropertyChanged";
    assert s[p..p + 17] == s[p..p + 19][..17];
    assert s[p + 17] == s[p..p + 19][17] && s[p + 18] == s[p..p + 19][18];
    assert NameofCallPattern[..5] == [Lit(w), Space(false), Lit("("), Space(false), Lit("nameof")];
    assert QuotedCallPattern[..5] == [Lit(w), Space(false), Lit("("), Space(false), Lit("\"")];
    forall ends ensures !Parse(s, NameofCallPattern, p, ends) {
      EmptyArgumentNoParse(s, NameofCallPattern, p, w, ends);
    }
    forall ends ensures !Parse(s, QuotedCallPattern, p, ends) {
      EmptyArgumentNoParse(s, QuotedCallPattern, p, w, ends);
    }
    NotifyCallIff(s, p);
  }

  // A call head `w(` followed at once by `)` does not parse as a pattern
  // whose fifth token is a literal not starting with `)`.
  lemma EmptyArgumentNoParse(s: string, P: seq<Tok>, p: nat, w: string, ends: seq<nat>)
    requires |P| >= 5 && P[..5] == [Lit(w), Space(false), Lit("("), Space(false), P[4]]
    requires P[4].Lit? && P[4].text != [] && P[4].text[0] != ')'
    requires p + |w| + 2 <= |s| && s[p..p + |w|] == w && s[p + |w|] == '(' && s[p + |w| + 1] == ')'
    ensures !Parse(s, P, p, ends)
  {
    var a := p + |w|;
    assert P[0] == Lit(w) && P[1] == Space(false) && P[2] == Lit("(") && P[3] == Space(false);
    if |ends| == |P| && Bounded(s, p, ends) {
      if ends[0] != a {
        assert !SpanOk(s, P[0], StartOf(p, ends, 0), ends[0], GroupOf(s, P, p, ends, 0));
      } else if ends[1] != a {
        assert s[a..ends[1]][0] == '(';
        assert !SpanOk(s, P[1], StartOf(p, ends, 1), ends[1], GroupOf(s, P, p, ends, 1));
      } else if ends[2] != a + 1 {
        assert !SpanOk(s, P[2], StartOf(p, ends, 2), ends[2], GroupOf(s, P, p, ends, 2));
      } else if ends[3] != a + 1 {
        assert s[a + 1..ends[3]][0] == ')';
        assert !SpanOk(s, P[3], StartOf(p, ends, 3), ends[3], GroupOf(s, P, p, ends, 3));
      } else {
        assert ends[4] == a + 1 || s[a + 1..ends[4]][0] == ')';
        assert !SpanOk(s, P[4], StartOf(p, ends, 4), ends[4], GroupOf(s, P, p, ends, 4));
      }
    }
  }

  // Where the tokens of `OnPropertyChanged(nameof(X))` end when the call
  // starts at `q` and `X` has `n` characters.
  function NameofCallEnds(q: nat, n: nat): seq<nat> {
    [q + 17, q + 17, q + 18, q + 18, q + 24, q + 24, q + 25, q + 25,
     q + 25 + n, q + 25 + n, q + 26 + n, q + 26 + n, q + 27 + n]
  }

  // `OnPropertyChanged(nameof(d))` written at `q`.
  predicate NameofCallWritten(s: string, q: nat, d: string) {
    && q + 27 + |d| <= |s|
    && s[q..q + 17] == "OnPropertyChanged" && s[q + 17] == '('
    && s[q + 18..q + 24] == "nameof" && s[q + 24] == '('
    && s[q + 25..q + 25 + |d|] == d
    && s[q + 25 + |d|] == ')' && s[q + 26 + |d|] == ')'
  }

  // Token `k` of the `nameof` call pattern spans its place in a call
  // written at `q`.
  lemma NameofCallToken(s: string, q: nat, d: string, k: nat)
    requires NameofCallWritten(s, q, d) && d != [] && forall j :: 0 <= j < |d| ==> IsWord(d[j])
    requires k < 13
    ensures var ends := NameofCallEnds(q, |d|);
      StartOf(q, ends, k) <= ends[k] <= |s|
      && SpanOk(s, NameofCallPattern[k], StartOf(q, ends, k), ends[k], None)
  {
    var ends := NameofCallEnds(q, |d|);
    var n := |d|;
    if k == 2 || k == 6 || k == 10 || k == 12 {
      var a := StartOf(q, ends, k);
      assert ends[k] == a + 1 && NameofCallPattern[k].text == [s[a]];
    } else if k == 8 {
      assert forall j :: q + 25 <= j < q + 25 + n ==> s[j] == d[j - q - 25];
    } else if k != 0 && k != 4 {
      assert StartOf(q, ends, k) == ends[k];
      assert s[ends[k]..ends[k]] == [];
    }
  }

  // A call written at `q` parses as the `nameof` call pattern.
  lemma NameofCallParse(s: string, q: nat, d: string)
    requires NameofCallWritten(s, q, d) && d != [] && forall j :: 0 <= j < |d| ==> IsWord(d[j])
    ensures Parse(s, NameofCallPattern, q, NameofCallEnds(q, |d|))
  {
    var ends := NameofCallEnds(q, |d|);
    forall k | 0 <= k < 13
      ensures StartOf(q, ends, k) <= ends[k] <= |s|
      ensures SpanOk(s, NameofCallPattern[k], StartOf(q, ends, k), ends[k], None)
    {
      NameofCallToken(s, q, d, k);
    }
    forall k | 0 <= k < 13 ensures GroupOf(s, NameofCallPattern, q, ends, k) == None {
    }
  }

  /** `OnPropertyChanged(nameof(d))` at `q` is a call notifying `d` that
      ends after its closing parenthesis. */
  lemma NameofCallHere(s: string, q: nat, d: string)
    requires NameofCallWritten(s, q, d) && d != [] && forall j :: 0 <= j < |d| ==> IsWord(d[j])
    ensures NotifyCallAt(s, q) == Some((d, q + 27 + |d|))
  {
    var ends := NameofCallEnds(q, |d|);
    NameofCallParse(s, q, d);
    NameofCallWellFormed();
    MatchAtComplete(s, NameofCallPattern, q, ends);
    assert Capture(s, NameofCallPattern, q, ends, NameofCallName) == d;
    NameofCallFound(s, q, ends, d);
  }

  // A `nameof` call matched at `q` is the call recognised there.
  lemma NameofCallFound(s: string, q: nat, ends: seq<nat>, x: string)
    requires q <= |s| && MatchAt(s, NameofCallPattern, q) == Some(ends)
    requires Capture(s, NameofCallPattern, q, ends, NameofCallName) == x
    ensures NotifyCallAt(s, q) == Some((x, ends[12]))
  {
    HitAdvances(s, NameofCallPattern, q, ends);
  }

  // No call starts where the text has no `O`.
  lemma NoCallWithoutO(s: string, i: nat, j: nat)
    requires i <= j <= |s| && forall k :: i <= k < j ==> s[k] != 'O'
    ensures forall k :: i <= k < j ==> NotifyCallAt(s, k).None?
  {
    forall k | i <= k < j ensures NotifyCallAt(s, k).None? {
      assert !LitAt(s, k, "OnPropertyChanged") by {
        if k + 17 <= |s| { assert s[k..k + 17][0] == s[k]; }
      }
      NoCallAt(s, k);
    }
  }

  // Where the pieces of a setter with a plain call, then a `nameof` call,
  // lie.
  lemma PlainThenNameofLayout(s: string, pre: string, sep: string, d: string, post: string)
    requires s == pre + "OnPropertyChanged()" + sep + "OnPropertyChanged(nameof(" + d + "))" + post
    requires !HasChar(pre, 'O') && !HasChar(sep, 'O') && !HasChar(post, 'O')
    ensures var p, q := |pre|, |pre| + 19 + |sep|;
      && s[p..p + 19] == "OnPropertyChanged()"
      && NameofCallWritten(s, q, d)
      && (forall k :: 0 <= k < q && k != p ==> s[k] != 'O')
      && |s| == q + 27 + |d| + |post|
      && forall k :: q + 27 + |d| <= k < |s| ==> s[k] != 'O'
  {
    var p, q := |pre|, |pre| + 19 + |sep|;
    var e := q + 27 + |d|;
    var plain, head := "OnPropertyChanged()", "OnPropertyChanged(nameof(";
    assert s[p..p + 19] == plain;
    assert s[q..q + 25] == head;
    assert s[q..q + 17] == head[..17];
    assert s[q + 18..q + 24] == head[18..24];
    assert s[q + 17] == head[17] && s[q + 24] == head[24];
    assert s[q + 25..q + 25 + |d|] == d;
    assert s[e - 2] == ')' && s[e - 1] == ')';
    forall k | 0 <= k < q && k != p ensures s[k] != 'O' {
      if k < p {
        assert s[k] == pre[k];
      } else if k < p + 19 {
        assert s[k] == plain[k - p];
      } else {
        assert s[k] == sep[k - p - 19];
      }
    }
    forall k | e <= k < |s| ensures s[k] != 'O' {
      assert s[k] == post[k - e];
    }
  }

  // Nothing is found where the rest of the text has no `O`.
  lemma NoNamesWithoutO(s: string, e: nat)
    requires e <= |s| && forall k :: e <= k < |s| ==> s[k] != 'O'
    ensures NotifiedNames(s, e) == []
  {
    NoCallWithoutO(s, e, |s|);
    NamesSkip(s, e, |s|);
    NamesAtEnd(s);
  }

  // Before the `nameof` call only the plain call has an `O`, and it is no
  // call the pattern recognises.
  lemma PlainCallsNone(s: string, p: nat, q: nat)
    requires q <= |s| && p + 19 <= q && s[p..p + 19] == "OnPropertyChanged()"
    requires forall k :: 0 <= k < q && k != p ==> s[k] != 'O'
    ensures forall k :: 0 <= k < q ==> NotifyCallAt(s, k).None?
  {
    forall k | 0 <= k < q ensures NotifyCallAt(s, k).None? {
      if k == p {
        EmptyCallNone(s, p);
      } else {
        NoCallWithoutO(s, k, k + 1);
      }
    }
  }

  // The scan passes a plain call and lists the `nameof` call at `q`.
  lemma PlainThenNameofScan(s: string, p: nat, q: nat, d: string)
    requires NameofCallWritten(s, q, d) && d != [] && forall j :: 0 <= j < |d| ==> IsWord(d[j])
    requires p + 19 <= q && s[p..p + 19] == "OnPropertyChanged()"
    requires forall k :: 0 <= k < q && k != p ==> s[k] != 'O'
    ensures NotifiedNames(s, 0) == [d] + NotifiedNames(s, q + 27 + |d|)
  {
    PlainCallsNone(s, p, q);
    NameofCallHere(s, q, d);
    NamesNext(s, 0, q);
  }

  /** A plain `OnPropertyChanged()` notifies no other property; a later
      `OnPropertyChanged(nameof(d))` makes `d` the one dependent property. */
  lemma PlainThenNameofCall(s: string, pre: string, sep: string, d: string, post: string, current: string)
    requires s == pre + "OnPropertyChanged()" + sep + "OnPropertyChanged(nameof(" + d + "))" + post
    requires !HasChar(pre, 'O') && !HasChar(sep, 'O') && !HasChar(post, 'O')
    requires d != [] && (forall j :: 0 <= j < |d| ==> IsWord(d[j])) && d != current
    ensures DependentProperties(s, current) == [d]
  {
    var p, q := |pre|, |pre| + 19 + |sep|;
    PlainThenNameofLayout(s, pre, sep, d, post);
    PlainThenNameofScan(s, p, q, d);
    NoNamesWithoutO(s, q + 27 + |d|);
    assert KeepNotified([d], current) == KeepNotified([], current) + [d];
  }

  /** The DisplayName setter: `Name = value; OnPropertyChanged();
      OnPropertyChanged(nameof(DisplayName));` has the one dependent
      property `DisplayName`. */
  lemma DisplayNameDependent()
    ensures DependentProperties("Name = value; " + "OnPropertyChanged()" + "; "
      + "OnPropertyChanged(nameof(" + "DisplayName" + "))" + ";", "Name") == ["DisplayName"]
  {
    PlainThenNameofCall("Name = value; " + "OnPropertyChanged()" + "; "
      + "OnPropertyChanged(nameof(" + "DisplayName" + "))" + ";", "Name = value; ", "; ", "DisplayName", ";", "Name");
  }

  // ---------------------------------------------------------------------
  // Searches
  //
  // Where a regex leaves a choice the .NET engine backtracks over, the
  // model tries the positions in the engine's order. A greedy `[^}]*`
  // gives back one character at a time, so the position after it is tried
  // from the highest down (LastFrom). A lazy `.*?` and the scan for the
  // leftmost match take one more character at a time, so positions are
  // tried from the lowest up (FirstFrom). Each search is stated once, for
  // any per-position matcher `f`.

  /** The value of `f` at the highest position in `lo..p` where it has one. */
  function LastFrom<T>(f: nat -> Option<T>, lo: nat, p: nat): Option<T>
    requires lo <= p
    decreases p
  {
    if f(p).Some? then f(p) else if p == lo then None else LastFrom(f, lo, p - 1)
  }

  /** LastFrom finds a value exactly when `f` has one in `lo..p`, and it is
      the one at the highest such position `m`. */
  lemma {:induction false} LastFromSpec<T>(f: nat -> Option<T>, lo: nat, p: nat) returns (m: nat)
    requires lo <= p
    ensures (exists k :: lo <= k <= p && f(k).Some?) ==> LastFrom(f, lo, p).Some?
    ensures LastFrom(f, lo, p).Some? ==>
      lo <= m <= p && LastFrom(f, lo, p) == f(m) && forall k :: m < k <= p ==> f(k).None?
    decreases p
  {
    m := p;
    if f(p).None? && p > lo {
      m := LastFromSpec(f, lo, p - 1);
    }
  }

  // The value LastFrom finds is one `f` gives in `lo..p`.
  lemma LastFromIn<T>(f: nat -> Option<T>, lo: nat, p: nat)
    requires lo <= p
    ensures LastFrom(f, lo, p).Some? ==> exists k :: lo <= k <= p && LastFrom(f, lo, p) == f(k)
  {
    var m := LastFromSpec(f, lo, p);
  }

  /** The value of `f` at the lowest position in `c..hi` where it has one. */
  function FirstFrom<T>(f: nat -> Option<T>, c: nat, hi: nat): Option<T>
    requires c <= hi
    decreases hi - c
  {
    if f(c).Some? then f(c) else if c == hi then None else FirstFrom(f, c + 1, hi)
  }

  /** FirstFrom finds a value exactly when `f` has one in `c..hi`, and it is
      the one at the lowest such position `m`. */
  lemma {:induction false} FirstFromSpec<T>(f: nat -> Option<T>, c: nat, hi: nat) returns (m: nat)
    requires c <= hi
    ensures (exists k :: c <= k <= hi && f(k).Some?) ==> FirstFrom(f, c, hi).Some?
    ensures FirstFrom(f, c, hi).Some? ==>
      c <= m <= hi && FirstFrom(f, c, hi) == f(m) && forall k :: c <= k < m ==> f(k).None?
    decreases hi - c
  {
    m := c;
    if f(c).None? && c < hi {
      m := FirstFromSpec(f, c + 1, hi);
    }
  }

  // The value FirstFrom finds is one `f` gives in `c..hi`; none means `f`
  // gives none there.
  lemma FirstFromIn<T>(f: nat -> Option<T>, c: nat, hi: nat)
    requires c <= hi
    ensures FirstFrom(f, c, hi).Some? ==> exists k :: c <= k <= hi && FirstFrom(f, c, hi) == f(k)
    ensures FirstFrom(f, c, hi).None? ==> forall k :: c <= k <= hi ==> f(k).None?
  {
    var m := FirstFromSpec(f, c, hi);
  }

  /** `get` at `g` (where `isGet` holds) and a match of `f` at `p2` at least
      three characters later, both in `lo..q`. */
  predicate GetSetPair<T>(isGet: nat -> bool, f: nat -> Option<T>, lo: nat, q: nat, g: nat, p2: nat) {
    lo <= g && g + 3 <= p2 <= q && isGet(g) && f(p2).Some?
  }

  /** `get` positions tried from `p` down to `lo`; for each, `f` from `q`
      down to three characters after it. */
  function LastPair<T>(isGet: nat -> bool, f: nat -> Option<T>, lo: nat, q: nat, p: nat): Option<T>
    requires lo <= p <= q
    decreases p
  {
    var here := if isGet(p) && p + 3 <= q then LastFrom(f, p + 3, q) else None;
    if here.Some? then here
    else if p == lo then None
    else LastPair(isGet, f, lo, q, p - 1)
  }

  /** LastPair finds a value exactly when such a pair exists with `get` at
      or before `p`, and it is `f` at the highest position `m` that follows
      some such `get`. */
  lemma {:induction false} LastPairSpec<T>(isGet: nat -> bool, f: nat -> Option<T>, lo: nat, q: nat, p: nat)
    returns (m: nat)
    requires lo <= p <= q
    ensures (exists g: nat, p2: nat :: g <= p && GetSetPair(isGet, f, lo, q, g, p2)) ==> LastPair(isGet, f, lo, q, p).Some?
    ensures LastPair(isGet, f, lo, q, p).Some? ==>
      && (exists g: nat :: g <= p && GetSetPair(isGet, f, lo, q, g, m))
      && LastPair(isGet, f, lo, q, p) == f(m)
      && forall g: nat, p3: nat :: g <= p && GetSetPair(isGet, f, lo, q, g, p3) ==> p3 <= m
    decreases p
  {
    if isGet(p) && p + 3 <= q {
      m := LastFromSpec(f, p + 3, q);
      if LastFrom(f, p + 3, q).Some? {
        assert GetSetPair(isGet, f, lo, q, p, m);
        forall g: nat, p3: nat | g <= p && GetSetPair(isGet, f, lo, q, g, p3) ensures p3 <= m {
          assert m < p3 <= q ==> f(p3).None?;
        }
        return;
      }
    }
    if p > lo {
      m := LastPairSpec(isGet, f, lo, q, p - 1);
      forall g: nat, p2: nat | g <= p && GetSetPair(isGet, f, lo, q, g, p2) ensures g <= p - 1 {
        if g == p {
          assert f(p2).Some?;
        }
      }
    } else {
      m := p;
    }
  }

  // The value LastPair finds is one `f` gives at or before `q`.
  lemma LastPairIn<T>(isGet: nat -> bool, f: nat -> Option<T>, lo: nat, q: nat, p: nat)
    requires lo <= p <= q
    ensures LastPair(isGet, f, lo, q, p).Some? ==> exists k :: lo <= k <= q && LastPair(isGet, f, lo, q, p) == f(k)
  {
    var m := LastPairSpec(isGet, f, lo, q, p);
  }

  /** There is no `}` in `s[b..p]` exactly when `p` is at most the first
      `}` at or after `b`. */
  lemma BraceFreeGap(s: string, b: nat, p: nat)
    requires b <= p <= |s|
    ensures !HasChar(s[b..p], '}') <==> p <= IndexOfFrom(s, '}', b)
  {
    var k := IndexOfFrom(s, '}', b);
    if p <= k {
      forall j | 0 <= j < p - b ensures s[b..p][j] != '}' {
        assert s[b..p][j] == s[b + j];
      }
    } else {
      assert s[b..p][k - b] == '}';
    }
  }

  // ---------------------------------------------------------------------
  // The backing-field rule
  //
  // A field declaration (type, name, optionally `= value`, `;`) followed by
  // `public`, the same type text, the property name and a body whose getter
  // returns an identifier and whose setter body runs to the first `}`. The
  // engine tries the optional initializer before its absence, the lazy
  // initializer value shortest first, and the `[^}]*` gaps before `get`
  // and `set` longest first.

  /** A getter `get { return field; }` matches at `q`. */
  predicate ReturnsAt(s: string, q: nat, field: string) {
    && q <= |s|
    && MatchAt(s, GetterReturnPattern, q).Some?
    && Capture(s, GetterReturnPattern, q, MatchAt(s, GetterReturnPattern, q).value, GetterField) == field
  }

  /** The captures of a backing-field match. */
  datatype BackingMatch = BackingMatch(
    ty: string, field: string, name: string, init: Option<string>, setter: string)

  /** The setter `set { body } }` at `p`: its body and where the match ends. */
  function SetterAt(s: string, p: nat): (r: Option<(string, nat)>)
    requires p <= |s|
    ensures r.Some? ==> !HasChar(r.value.0, '}') && p < r.value.1 <= |s|
  {
    var h :- MatchAt(s, SetterOpenPattern, p);
    var e := EndOf(s, SetterOpenPattern, p, h);
    var r := IndexOfFrom(s, '}', e);
    var t :- MatchAt(s, ClosePairPattern, r);
    HitAdvances(s, ClosePairPattern, r, t);
    IndexOfFromSlice(s, '}', e);
    Some((s[e..r], t[2]))
  }

  /** The setter at each position. */
  function SetterFn(s: string): nat -> Option<(string, nat)> {
    (k: nat) => if k <= |s| then SetterAt(s, k) else None
  }

  /** Where the getter `get { return f; }` at `p` ends. */
  function GetterEnd(s: string, p: nat): (g: nat)
    requires p <= |s| && MatchAt(s, GetterReturnPattern, p).Some?
    ensures p <= g <= |s|
  {
    EndOf(s, GetterReturnPattern, p, MatchAt(s, GetterReturnPattern, p).value)
  }

  /** The identifier the getter at `p` returns. */
  function GetterName(s: string, p: nat): string
    requires p <= |s| && MatchAt(s, GetterReturnPattern, p).Some?
  {
    Capture(s, GetterReturnPattern, p, MatchAt(s, GetterReturnPattern, p).value, GetterField)
  }

  /** The getter `get { return f; }` at `p`, then `[^}]*` and the setter:
      the returned identifier, the setter body and the end of the match. */
  function GetterAt(s: string, p: nat): (r: Option<(string, string, nat)>)
    requires p <= |s|
    ensures r.Some? ==> r.value.0 != [] && (forall j :: 0 <= j < |r.value.0| ==> IsWord(r.value.0[j]))
    ensures r.Some? ==> !HasChar(r.value.1, '}') && p < r.value.2 <= |s|
    ensures r.Some? ==> ReturnsAt(s, p, r.value.0)
  {
    var h :- MatchAt(s, GetterReturnPattern, p);
    var field := Capture(s, GetterReturnPattern, p, h, GetterField);
    var g := EndOf(s, GetterReturnPattern, p, h);
    var q := IndexOfFrom(s, '}', g);
    LastFromIn(SetterFn(s), g, q);
    var st :- LastFrom(SetterFn(s), g, q);
    Some((field, st.0, st.1))
  }

  /** The getter at each position. */
  function GetterFn(s: string): nat -> Option<(string, string, nat)> {
    (k: nat) => if k <= |s| then GetterAt(s, k) else None
  }

  /** Where the property head `; public T Name {` at `c` ends. */
  function PropertyOpen(s: string, ty: string, c: nat): (b: nat)
    requires c <= |s| && MatchAt(s, PropertyHeadPattern(ty), c).Some?
    ensures c <= b <= |s|
  {
    EndOf(s, PropertyHeadPattern(ty), c, MatchAt(s, PropertyHeadPattern(ty), c).value)
  }

  /** The property name in the head at `c`. */
  function PropertyName(s: string, ty: string, c: nat): string
    requires c <= |s| && MatchAt(s, PropertyHeadPattern(ty), c).Some?
  {
    Capture(s, PropertyHeadPattern(ty), c, MatchAt(s, PropertyHeadPattern(ty), c).value, PropertyHeadName)
  }

  /** From the `;` ending the field declaration at `c`: the property head
      repeating type `ty`, then `[^}]*`, the getter and the setter. */
  function PropertyAfterField(s: string, ty: string, c: nat): (r: Option<(string, string, string, nat)>)
    requires c <= |s|
    ensures r.Some? ==> r.value.0 != [] && r.value.1 != []
    ensures r.Some? ==> !HasChar(r.value.2, '}') && c < r.value.3 <= |s|
    ensures r.Some? ==> exists q :: c <= q && ReturnsAt(s, q, r.value.1)
  {
    var h :- MatchAt(s, PropertyHeadPattern(ty), c);
    var name := Capture(s, PropertyHeadPattern(ty), c, h, PropertyHeadName);
    var b := EndOf(s, PropertyHeadPattern(ty), c, h);
    var q := IndexOfFrom(s, '}', b);
    LastFromIn(GetterFn(s), b, q);
    var gs :- LastFrom(GetterFn(s), b, q);
    Some((name, gs.0, gs.1, gs.2))
  }

  /** The backing match whose initializer value starts at `v` and whose
      `;` is at `k`. */
  function InitFn(s: string, ty: string, v: nat): nat -> Option<BackingMatch> {
    k =>
      if v <= k <= |s| then
        match PropertyAfterField(s, ty, k)
        case Some(x) => Some(BackingMatch(ty, x.1, x.0, Some(Trim(s[v..k])), x.2))
        case None => None
      else None
  }

  /** The field type captured by the field head at `i`. */
  function FieldType(s: string, i: nat): (ty: string)
    requires i <= |s| && MatchAt(s, FieldHeadPattern, i).Some?
    ensures ty != [] && forall j :: 0 <= j < |ty| ==> InClass(ty[j], TypeName)
  {
    Capture(s, FieldHeadPattern, i, MatchAt(s, FieldHeadPattern, i).value, 0)
  }

  /** Where the field head at `i` (type and name) ends. */
  function NameEnd(s: string, i: nat): (e: nat)
    requires i <= |s| && MatchAt(s, FieldHeadPattern, i).Some?
    ensures i <= e <= |s|
  {
    EndOf(s, FieldHeadPattern, i, MatchAt(s, FieldHeadPattern, i).value)
  }

  /** Where the initializer value starts, when `=` follows the field name. */
  function InitStart(s: string, i: nat): (r: Option<nat>)
    requires i <= |s| && MatchAt(s, FieldHeadPattern, i).Some?
    ensures r.Some? ==> NameEnd(s, i) < r.value <= |s|
  {
    var eq := WsEnd(s, NameEnd(s, i));
    if eq < |s| && s[eq] == '=' then Some(WsEnd(s, eq + 1)) else None
  }

  /** The match with an initializer: the `;` ending it tried from the
      value's start up. */
  function InitSearch(s: string, i: nat): (r: Option<BackingMatch>)
    requires i <= |s| && MatchAt(s, FieldHeadPattern, i).Some?
    ensures r.Some? ==> r.value.ty == FieldType(s, i)
    ensures r.Some? ==> r.value.name != [] && r.value.field != [] && !HasChar(r.value.setter, '}')
    ensures r.Some? ==> r.value.init.Some? && IsTrimmed(r.value.init.value)
    ensures r.Some? ==> exists q :: i <= q && ReturnsAt(s, q, r.value.field)
  {
    match InitStart(s, i)
    case None => None
    case Some(v) =>
      FirstFromIn(InitFn(s, FieldType(s, i), v), v, |s|);
      FirstFrom(InitFn(s, FieldType(s, i), v), v, |s|)
  }

  /** The match without an initializer: `;` right after the name. */
  function PlainMatch(s: string, i: nat): (r: Option<BackingMatch>)
    requires i <= |s| && MatchAt(s, FieldHeadPattern, i).Some?
    ensures r.Some? ==> r.value.ty == FieldType(s, i)
    ensures r.Some? ==> r.value.name != [] && r.value.field != [] && !HasChar(r.value.setter, '}')
    ensures r.Some? ==> r.value.init.None?
    ensures r.Some? ==> exists q :: i <= q && ReturnsAt(s, q, r.value.field)
  {
    var x :- PropertyAfterField(s, FieldType(s, i), NameEnd(s, i));
    Some(BackingMatch(FieldType(s, i), x.1, x.0, None, x.2))
  }

  /** The backing-field pattern at `i`: the engine tries the optional
      initializer before its absence. */
  function BackingAt(s: string, i: nat): (r: Option<BackingMatch>)
    requires i <= |s|
    ensures r.Some? ==> r.value.ty != [] && forall j :: 0 <= j < |r.value.ty| ==> InClass(r.value.ty[j], TypeName)
    ensures r.Some? ==> r.value.name != [] && r.value.field != [] && !HasChar(r.value.setter, '}')
    ensures r.Some? && r.value.init.Some? ==> IsTrimmed(r.value.init.value)
    ensures r.Some? ==> exists q :: i <= q && ReturnsAt(s, q, r.value.field)
  {
    if MatchAt(s, FieldHeadPattern, i).None? then None
    else if InitSearch(s, i).Some? then InitSearch(s, i)
    else PlainMatch(s, i)
  }

  /** The backing-field pattern matches nowhere in `i..j-1`. */
  predicate NoBackingBetween(s: string, i: nat, j: nat) {
    forall k :: i <= k < j && k <= |s| ==> BackingAt(s, k).None?
  }

  // One more position without a match.
  lemma NoBackingBefore(s: string, i: nat, j: nat)
    requires i <= |s| && BackingAt(s, i).None? && NoBackingBetween(s, i + 1, j)
    ensures NoBackingBetween(s, i, j)
  {
  }

  /** The leftmost backing-field match at or after `i`: where it starts, and
      its captures. */
  function FindBacking(s: string, i: nat): (r: Option<(nat, BackingMatch)>)
    requires i <= |s|
    ensures r.Some? ==> i <= r.value.0 <= |s| && BackingAt(s, r.value.0) == Some(r.value.1)
    ensures r.Some? ==> NoBackingBetween(s, i, r.value.0)
    ensures r.None? ==> NoBackingBetween(s, i, |s| + 1)
    decreases |s| - i
  {
    match BackingAt(s, i)
    case Some(m) => Some((i, m))
    case None =>
      if i == |s| then None
      else
        var r := FindBacking(s, i + 1);
        NoBackingBefore(s, i, if r.Some? then r.value.0 else |s| + 1);
        r
  }

  // The backing-field pattern read declaratively. Each layer names the
  // positions the engine chooses between, and a lemma shows which one the
  // matcher above takes.

  /** A setter at `p2`, with no `}` from `g` up to it. */
  predicate SetterText(s: string, g: nat, p2: nat) {
    g <= p2 <= |s| && !HasChar(s[g..p2], '}') && SetterAt(s, p2).Some?
  }

  // SetterText is a match of the setter search bounded by the first `}`.
  lemma SetterTextFrom(s: string, g: nat, p2: nat)
    requires g <= |s|
    ensures SetterText(s, g, p2) <==> g <= p2 <= IndexOfFrom(s, '}', g) && SetterFn(s)(p2).Some?
  {
    if g <= p2 <= |s| {
      BraceFreeGap(s, g, p2);
    }
  }

  /** The getter at `p` matches exactly when its `get { return f; }` does
      and some setter follows it with no `}` in between; the setter taken
      is the last such one. */
  lemma GetterAtSpec(s: string, p: nat) returns (m: nat)
    requires p <= |s|
    ensures GetterAt(s, p).Some? <==>
      MatchAt(s, GetterReturnPattern, p).Some? && exists p2: nat :: SetterText(s, GetterEnd(s, p), p2)
    ensures GetterAt(s, p).Some? ==>
      && SetterText(s, GetterEnd(s, p), m)
      && (forall p3: nat :: SetterText(s, GetterEnd(s, p), p3) ==> p3 <= m)
      && GetterAt(s, p) == Some((GetterName(s, p), SetterAt(s, m).value.0, SetterAt(s, m).value.1))
  {
    m := 0;
    if MatchAt(s, GetterReturnPattern, p).Some? {
      var g := GetterEnd(s, p);
      var q := IndexOfFrom(s, '}', g);
      m := LastFromSpec(SetterFn(s), g, q);
      forall p2: nat ensures SetterText(s, g, p2) <==> g <= p2 <= q && SetterFn(s)(p2).Some? {
        SetterTextFrom(s, g, p2);
      }
    }
  }

  /** The property head repeating type `ty` at `c`; then, with no `}` from
      its `{`, the getter at `p`; then its setter at `p2`. */
  predicate PropertyText(s: string, ty: string, c: nat, p: nat, p2: nat) {
    && c <= |s|
    && MatchAt(s, PropertyHeadPattern(ty), c).Some?
    && PropertyOpen(s, ty, c) <= p <= |s|
    && !HasChar(s[PropertyOpen(s, ty, c)..p], '}')
    && MatchAt(s, GetterReturnPattern, p).Some?
    && SetterText(s, GetterEnd(s, p), p2)
  }

  // PropertyText with the head fixed is a match of the getter search
  // bounded by the first `}`; `p2` is a setter for a getter the search
  // finds.
  lemma PropertyTextFrom(s: string, ty: string, c: nat, p: nat) returns (p2: nat)
    requires c <= |s| && MatchAt(s, PropertyHeadPattern(ty), c).Some?
    ensures forall p3: nat :: PropertyText(s, ty, c, p, p3) ==>
      PropertyOpen(s, ty, c) <= p <= IndexOfFrom(s, '}', PropertyOpen(s, ty, c)) && GetterFn(s)(p).Some?
    ensures PropertyOpen(s, ty, c) <= p <= IndexOfFrom(s, '}', PropertyOpen(s, ty, c)) && GetterFn(s)(p).Some? ==>
      PropertyText(s, ty, c, p, p2)
  {
    p2 := 0;
    var b := PropertyOpen(s, ty, c);
    if b <= p <= |s| {
      BraceFreeGap(s, b, p);
      p2 := GetterAtSpec(s, p);
      assert GetterFn(s)(p) == GetterAt(s, p);
    }
  }

  /** The part of the pattern after the field's `;` matches at `c` exactly
      when PropertyText holds for some getter and setter; it takes the last
      getter, and after it the last setter. */
  lemma PropertyAfterFieldSpec(s: string, ty: string, c: nat) returns (p: nat, p2: nat)
    requires c <= |s|
    ensures PropertyAfterField(s, ty, c).Some? <==> exists p: nat, p2: nat :: PropertyText(s, ty, c, p, p2)
    ensures PropertyAfterField(s, ty, c).Some? ==>
      && PropertyText(s, ty, c, p, p2)
      && (forall p': nat, p3: nat :: PropertyText(s, ty, c, p', p3) ==> p' <= p)
      && (forall p3: nat :: PropertyText(s, ty, c, p, p3) ==> p3 <= p2)
      && PropertyAfterField(s, ty, c) ==
         Some((PropertyName(s, ty, c), GetterName(s, p), SetterAt(s, p2).value.0, SetterAt(s, p2).value.1))
  {
    p, p2 := 0, 0;
    if MatchAt(s, PropertyHeadPattern(ty), c).Some? {
      var b := PropertyOpen(s, ty, c);
      var q := IndexOfFrom(s, '}', b);
      p := LastFromSpec(GetterFn(s), b, q);
      forall p': nat, p3: nat | PropertyText(s, ty, c, p', p3) ensures b <= p' <= q && GetterFn(s)(p').Some? {
        var _ := PropertyTextFrom(s, ty, c, p');
      }
      if PropertyAfterField(s, ty, c).Some? {
        var _ := PropertyTextFrom(s, ty, c, p);
        p2 := GetterAtSpec(s, p);
      }
    }
  }

  /** The field declaration at `i` ends at `c` after an initializer. */
  predicate InitBefore(s: string, i: nat, c: nat)
    requires i <= |s| && MatchAt(s, FieldHeadPattern, i).Some?
  {
    InitStart(s, i).Some? && InitStart(s, i).value <= c
  }

  /** The whole backing-field pattern read declaratively: the field head at
      `i`; its `;` at `c`, right after the name or after `= value`; then
      PropertyText with getter at `p` and setter at `p2`. */
  predicate BackingText(s: string, i: nat, c: nat, p: nat, p2: nat) {
    && i <= |s|
    && MatchAt(s, FieldHeadPattern, i).Some?
    && (c == NameEnd(s, i) || InitBefore(s, i, c))
    && PropertyText(s, FieldType(s, i), c, p, p2)
  }

  /** The captures of the match BackingText describes. */
  function BackingOf(s: string, i: nat, c: nat, p: nat, p2: nat): BackingMatch
    requires BackingText(s, i, c, p, p2)
  {
    BackingMatch(FieldType(s, i), GetterName(s, p), PropertyName(s, FieldType(s, i), c),
      if InitBefore(s, i, c) then Some(Trim(s[InitStart(s, i).value..c])) else None,
      SetterAt(s, p2).value.0)
  }

  /** Among the matches at `i`, the one the engine takes: one with an
      initializer if there is any, ending at the lowest `;`; then the last
      getter, and the last setter after it. */
  ghost predicate BackingPreferred(s: string, i: nat, c: nat, p: nat, p2: nat)
    requires BackingText(s, i, c, p, p2)
  {
    && (forall c': nat, p': nat, p3: nat :: BackingText(s, i, c', p', p3) && InitBefore(s, i, c') ==>
          InitBefore(s, i, c) && c <= c')
    && (forall p': nat, p3: nat :: BackingText(s, i, c, p', p3) ==> p' <= p)
    && (forall p3: nat :: BackingText(s, i, c, p, p3) ==> p3 <= p2)
  }

  // The search over initializer ends finds a match at `k` exactly when the
  // part after the field matches there.
  lemma InitFnAt(s: string, ty: string, v: nat, k: nat)
    ensures InitFn(s, ty, v)(k).Some? <==> v <= k <= |s| && PropertyAfterField(s, ty, k).Some?
    ensures v <= k <= |s| && PropertyAfterField(s, ty, k).Some? ==>
      var x := PropertyAfterField(s, ty, k).value;
      InitFn(s, ty, v)(k) == Some(BackingMatch(ty, x.1, x.0, Some(Trim(s[v..k])), x.2))
  {
  }

  // With the `;` right after the name, BackingText is PropertyText.
  lemma BackingTextPlain(s: string, i: nat, p: nat, p2: nat)
    requires i <= |s| && MatchAt(s, FieldHeadPattern, i).Some?
    ensures BackingText(s, i, NameEnd(s, i), p, p2) <==> PropertyText(s, FieldType(s, i), NameEnd(s, i), p, p2)
    ensures !InitBefore(s, i, NameEnd(s, i))
  {
  }

  // After an initializer, BackingText is PropertyText.
  lemma BackingTextInit(s: string, i: nat, c: nat, p: nat, p2: nat)
    requires i <= |s| && MatchAt(s, FieldHeadPattern, i).Some? && InitBefore(s, i, c)
    ensures BackingText(s, i, c, p, p2) <==> PropertyText(s, FieldType(s, i), c, p, p2)
  {
  }

  /** The initializer search at `i` finds a match exactly when BackingText
      holds with an initializer; it takes the lowest `;`, then the last
      getter and setter. */
  lemma InitSearchSpec(s: string, i: nat) returns (c: nat, p: nat, p2: nat)
    requires i <= |s| && MatchAt(s, FieldHeadPattern, i).Some?
    ensures InitSearch(s, i).Some? <==>
      exists c: nat, p: nat, p2: nat :: BackingText(s, i, c, p, p2) && InitBefore(s, i, c)
    ensures InitSearch(s, i).Some? ==>
      && BackingText(s, i, c, p, p2) && InitBefore(s, i, c)
      && BackingPreferred(s, i, c, p, p2)
      && InitSearch(s, i) == Some(BackingOf(s, i, c, p, p2))
  {
    c, p, p2 := 0, 0, 0;
    if InitStart(s, i).Some? {
      var ty := FieldType(s, i);
      var v := InitStart(s, i).value;
      var f := InitFn(s, ty, v);
      forall c': nat, p': nat, p3: nat | BackingText(s, i, c', p', p3) && InitBefore(s, i, c')
        ensures v <= c' <= |s| && f(c').Some?
      {
        BackingTextInit(s, i, c', p', p3);
        var _, _ := PropertyAfterFieldSpec(s, ty, c');
        InitFnAt(s, ty, v, c');
      }
      var k := FirstFromSpec(f, v, |s|);
      assert InitSearch(s, i) == FirstFrom(f, v, |s|);
      if FirstFrom(f, v, |s|).Some? {
        InitFnAt(s, ty, v, k);
        c := k;
        p, p2 := PropertyAfterFieldSpec(s, ty, k);
        forall p': nat, p3: nat ensures BackingText(s, i, c, p', p3) <==> PropertyText(s, ty, c, p', p3) {
          BackingTextInit(s, i, c, p', p3);
        }
        assert BackingText(s, i, c, p, p2);
        assert FirstFrom(f, v, |s|) == f(k);
        assert BackingOf(s, i, c, p, p2) ==
          BackingMatch(ty, GetterName(s, p), PropertyName(s, ty, k), Some(Trim(s[v..k])), SetterAt(s, p2).value.0);
      }
    }
  }

  /** The match without an initializer is found exactly when BackingText
      holds with the `;` right after the name; it takes the last getter
      and setter. */
  lemma PlainMatchSpec(s: string, i: nat) returns (p: nat, p2: nat)
    requires i <= |s| && MatchAt(s, FieldHeadPattern, i).Some?
    ensures PlainMatch(s, i).Some? <==> exists p: nat, p2: nat :: BackingText(s, i, NameEnd(s, i), p, p2)
    ensures PlainMatch(s, i).Some? ==>
      && BackingText(s, i, NameEnd(s, i), p, p2)
      && !InitBefore(s, i, NameEnd(s, i))
      && (forall p': nat, p3: nat :: BackingText(s, i, NameEnd(s, i), p', p3) ==> p' <= p)
      && (forall p3: nat :: BackingText(s, i, NameEnd(s, i), p, p3) ==> p3 <= p2)
      && PlainMatch(s, i) == Some(BackingOf(s, i, NameEnd(s, i), p, p2))
  {
    var ty, ne := FieldType(s, i), NameEnd(s, i);
    p, p2 := PropertyAfterFieldSpec(s, ty, ne);
    forall p': nat, p3: nat ensures BackingText(s, i, ne, p', p3) <==> PropertyText(s, ty, ne, p', p3) {
      BackingTextPlain(s, i, p', p3);
    }
  }

  /** The backing-field pattern matches at `i` exactly when BackingText
      holds for some `;`, getter and setter, and it reports the preferred
      one. */
  lemma BackingAtSpec(s: string, i: nat) returns (c: nat, p: nat, p2: nat)
    requires i <= |s|
    ensures BackingAt(s, i).Some? <==> exists c: nat, p: nat, p2: nat :: BackingText(s, i, c, p, p2)
    ensures BackingAt(s, i).Some? ==>
      && BackingText(s, i, c, p, p2)
      && BackingPreferred(s, i, c, p, p2)
      && BackingAt(s, i) == Some(BackingOf(s, i, c, p, p2))
  {
    c, p, p2 := 0, 0, 0;
    if MatchAt(s, FieldHeadPattern, i).Some? {
      c, p, p2 := InitSearchSpec(s, i);
      if InitSearch(s, i).None? {
        assert forall c': nat, p': nat, p3: nat :: BackingText(s, i, c', p', p3) ==> !InitBefore(s, i, c');
        c := NameEnd(s, i);
        p, p2 := PlainMatchSpec(s, i);
      }
    }
  }

  /** No BackingText starts at a position where the pattern fails. */
  lemma BackingAtNoText(s: string, i: nat)
    requires i <= |s| && BackingAt(s, i).None?
    ensures forall c: nat, p: nat, p2: nat :: !BackingText(s, i, c, p, p2)
  {
    var _, _, _ := BackingAtSpec(s, i);
  }

  /** Positions the leftmost scan skips hold no BackingText. */
  lemma NoBackingTextBetween(s: string, i: nat, j: nat)
    requires NoBackingBetween(s, i, j)
    ensures forall k: nat, c: nat, p: nat, p2: nat :: i <= k < j && k <= |s| ==> !BackingText(s, k, c, p, p2)
  {
    forall k: nat, c: nat, p: nat, p2: nat | i <= k < j && k <= |s| ensures !BackingText(s, k, c, p, p2) {
      BackingAtNoText(s, k);
    }
  }

  // A scan that finds nothing passed no BackingText.
  lemma FindBackingNone(nc: string)
    requires FindBacking(nc, 0).None?
    ensures forall i: nat, c: nat, p: nat, p2: nat :: !BackingText(nc, i, c, p, p2)
  {
    NoBackingTextBetween(nc, 0, |nc| + 1);
    forall i: nat, c: nat, p: nat, p2: nat | BackingText(nc, i, c, p, p2) ensures i <= |nc| {
    }
  }

  // A scan that stops at `j` reports the preferred match there, and no
  // BackingText starts before `j`.
  lemma FindBackingSome(nc: string) returns (c: nat, p: nat, p2: nat)
    requires FindBacking(nc, 0).Some?
    ensures var j := FindBacking(nc, 0).value.0;
      && BackingText(nc, j, c, p, p2)
      && BackingPreferred(nc, j, c, p, p2)
      && (forall i: nat, c': nat, p': nat, p3: nat :: BackingText(nc, i, c', p', p3) ==> j <= i)
      && FindBacking(nc, 0).value.1 == BackingOf(nc, j, c, p, p2)
  {
    var j := FindBacking(nc, 0).value.0;
    NoBackingTextBetween(nc, 0, j);
    c, p, p2 := BackingAtSpec(nc, j);
  }

  /** The leftmost scan finds a match exactly when BackingText holds
      somewhere; it stops at the leftmost such position `j` and reports the
      preferred match there. */
  lemma FindBackingSpec(nc: string) returns (j: nat, c: nat, p: nat, p2: nat)
    ensures FindBacking(nc, 0).Some? <==> exists i: nat, c: nat, p: nat, p2: nat :: BackingText(nc, i, c, p, p2)
    ensures FindBacking(nc, 0).Some? ==>
      && FindBacking(nc, 0).value.0 == j
      && BackingText(nc, j, c, p, p2)
      && BackingPreferred(nc, j, c, p, p2)
      && (forall i: nat, c': nat, p': nat, p3: nat :: BackingText(nc, i, c', p', p3) ==> j <= i)
      && FindBacking(nc, 0).value.1 == BackingOf(nc, j, c, p, p2)
  {
    j, c, p, p2 := 0, 0, 0, 0;
    if FindBacking(nc, 0).None? {
      FindBackingNone(nc);
    } else {
      j := FindBacking(nc, 0).value.0;
      c, p, p2 := FindBackingSome(nc);
    }
  }

  /** The backing-field rule matches exactly when BackingText holds
      somewhere. It then reports the preferred match at the leftmost such
      position: its type, field, property name and initializer, and as
      dependents the names notified in its setter's body. */
  lemma BackingRuleSpec(nc: string) returns (j: nat, c: nat, p: nat, p2: nat)
    ensures BackingRule(nc).Some? <==> exists i: nat, c: nat, p: nat, p2: nat :: BackingText(nc, i, c, p, p2)
    ensures BackingRule(nc).Some? ==>
      && BackingText(nc, j, c, p, p2)
      && BackingPreferred(nc, j, c, p, p2)
      && (forall i: nat, c': nat, p': nat, p3: nat :: BackingText(nc, i, c', p', p3) ==> j <= i)
      && var m := BackingOf(nc, j, c, p, p2);
      && BackingRule(nc).value.typeName == Some(m.ty)
      && BackingRule(nc).value.fieldName == Some(m.field)
      && BackingRule(nc).value.propertyName == Some(m.name)
      && BackingRule(nc).value.initialValue == m.init
      && BackingRule(nc).value.dependentProperties == DependentProperties(m.setter, m.name)
  {
    j, c, p, p2 := FindBackingSpec(nc);
  }

  // ---------------------------------------------------------------------
  // The general full rule
  //
  // Modifier, type, name and `{`; then, with no `}` in between, `get` and
  // later `set {`; the setter body up to the first `}`; then anything but
  // `}` and a closing `}`. The `[^}]*` gaps before `get` and `set` are
  // tried longest first.

  /** The captures of a general full-property match. */
  datatype FullMatch = FullMatch(ty: string, name: string, setter: string)

  /** `set { body }`, anything but `}`, then `}`, at `p`: the body and the end. */
  function FullSetterAt(s: string, p: nat): (r: Option<(string, nat)>)
    requires p <= |s|
    ensures r.Some? ==> !HasChar(r.value.0, '}') && p < r.value.1 <= |s|
  {
    var h :- MatchAt(s, SetterOpenPattern, p);
    var e := EndOf(s, SetterOpenPattern, p, h);
    HitAdvances(s, SetterOpenPattern, p, h);
    var r := IndexOfFrom(s, '}', e);
    if r == |s| then None
    else
      var r2 := IndexOfFrom(s, '}', r + 1);
      if r2 == |s| then None
      else
        IndexOfFromSlice(s, '}', e);
        Some((s[e..r], r2 + 1))
  }

  /** The general-full setter at each position. */
  function FullSetterFn(s: string): nat -> Option<(string, nat)> {
    (k: nat) => if k <= |s| then FullSetterAt(s, k) else None
  }

  /** Whether `get` occurs at each position. */
  function GetFn(s: string): nat -> bool {
    (k: nat) => LitAt(s, k, "get")
  }

  /** The general full pattern at `i`. */
  function FullAt(s: string, i: nat): (r: Option<FullMatch>)
    requires i <= |s|
    ensures r.Some? ==> r.value.ty != [] && forall j :: 0 <= j < |r.value.ty| ==> InClass(r.value.ty[j], TypeName)
    ensures r.Some? ==> r.value.name != [] && !HasChar(r.value.setter, '}')
  {
    var h :- MatchAt(s, FullHeadPattern, i);
    var ty := Capture(s, FullHeadPattern, i, h, FullHeadType);
    var name := Capture(s, FullHeadPattern, i, h, FullHeadName);
    var b := EndOf(s, FullHeadPattern, i, h);
    var q := IndexOfFrom(s, '}', b);
    LastPairIn(GetFn(s), FullSetterFn(s), b, q, q);
    var st :- LastPair(GetFn(s), FullSetterFn(s), b, q, q);
    Some(FullMatch(ty, name, st.0))
  }

  /** The general full pattern matches nowhere in `i..j-1`. */
  predicate NoFullBetween(s: string, i: nat, j: nat) {
    forall k :: i <= k < j && k <= |s| ==> FullAt(s, k).None?
  }

  // One more position without a match.
  lemma NoFullBefore(s: string, i: nat, j: nat)
    requires i <= |s| && FullAt(s, i).None? && NoFullBetween(s, i + 1, j)
    ensures NoFullBetween(s, i, j)
  {
  }

  /** The leftmost general full match at or after `i`: where it starts, and
      its captures. */
  function FindFull(s: string, i: nat): (r: Option<(nat, FullMatch)>)
    requires i <= |s|
    ensures r.Some? ==> i <= r.value.0 <= |s| && FullAt(s, r.value.0) == Some(r.value.1)
    ensures r.Some? ==> NoFullBetween(s, i, r.value.0)
    ensures r.None? ==> NoFullBetween(s, i, |s| + 1)
    decreases |s| - i
  {
    match FullAt(s, i)
    case Some(m) => Some((i, m))
    case None =>
      if i == |s| then None
      else
        var r := FindFull(s, i + 1);
        NoFullBefore(s, i, if r.Some? then r.value.0 else |s| + 1);
        r
  }

  /** Where the head `vis T Name {` of the general full pattern at `i` ends. */
  function FullOpen(s: string, i: nat): (b: nat)
    requires i <= |s| && MatchAt(s, FullHeadPattern, i).Some?
    ensures i <= b <= |s|
  {
    EndOf(s, FullHeadPattern, i, MatchAt(s, FullHeadPattern, i).value)
  }

  /** The general full pattern read declaratively, with `get` at `p` and
      `set` at `p2`: the head at `i`; then, with no `}` from the head's `{`
      up to `set`, `get` and after it `set`; then the setter
      `set { body }`, anything but `}`, and `}`. */
  predicate FullText(s: string, i: nat, p: nat, p2: nat) {
    && i <= |s|
    && MatchAt(s, FullHeadPattern, i).Some?
    && FullOpen(s, i) <= p && p + 3 <= p2 <= |s|
    && LitAt(s, p, "get")
    && !HasChar(s[FullOpen(s, i)..p2], '}')
    && FullSetterAt(s, p2).Some?
  }

  /** The captures of the match FullText describes with `set` at `p2`. */
  function FullOf(s: string, i: nat, p2: nat): FullMatch
    requires i <= |s| && MatchAt(s, FullHeadPattern, i).Some?
    requires p2 <= |s| && FullSetterAt(s, p2).Some?
  {
    var h := MatchAt(s, FullHeadPattern, i).value;
    FullMatch(Capture(s, FullHeadPattern, i, h, FullHeadType), Capture(s, FullHeadPattern, i, h, FullHeadName),
      FullSetterAt(s, p2).value.0)
  }

  // FullText is a get/set pair of the search, with `q` the first `}`.
  lemma FullTextPair(s: string, i: nat, p: nat, p2: nat)
    requires i <= |s| && MatchAt(s, FullHeadPattern, i).Some?
    ensures FullText(s, i, p, p2) <==>
      GetSetPair(GetFn(s), FullSetterFn(s), FullOpen(s, i), IndexOfFrom(s, '}', FullOpen(s, i)), p, p2)
  {
    var b := FullOpen(s, i);
    if b <= p2 <= |s| {
      BraceFreeGap(s, b, p2);
      assert FullSetterFn(s)(p2) == FullSetterAt(s, p2);
    }
    assert GetFn(s)(p) == LitAt(s, p, "get");
  }

  /** The general full pattern matches at `i` exactly when FullText holds
      for some `get` and `set`; the setter it captures is the last `set`
      that follows some `get`, as the greedy gaps make it. */
  lemma FullAtSpec(s: string, i: nat) returns (m: nat)
    requires i <= |s|
    ensures FullAt(s, i).Some? <==> exists p: nat, p2: nat :: FullText(s, i, p, p2)
    ensures FullAt(s, i).Some? ==>
      && (exists p: nat :: FullText(s, i, p, m))
      && (forall p: nat, p3: nat :: FullText(s, i, p, p3) ==> p3 <= m)
      && FullAt(s, i) == Some(FullOf(s, i, m))
  {
    m := 0;
    if MatchAt(s, FullHeadPattern, i).Some? {
      var b := FullOpen(s, i);
      var q := IndexOfFrom(s, '}', b);
      m := LastPairSpec(GetFn(s), FullSetterFn(s), b, q, q);
      forall p: nat, p2: nat ensures FullText(s, i, p, p2) <==> GetSetPair(GetFn(s), FullSetterFn(s), b, q, p, p2) {
        FullTextPair(s, i, p, p2);
      }
      if FullAt(s, i).Some? {
        assert FullSetterFn(s)(m) == FullSetterAt(s, m);
      }
    }
  }

  // ---------------------------------------------------------------------
  // The rules, MatchFullPropertyBlock and MatchProperty

  const FullKinds: seq<string> :=
    ["FullWithBacking", "PrismFullWithBacking", "NotifyFullWithBacking", "Full"]

  /** Rule 1, `[ObservableProperty] private T _name;`. */
  function ObservableRule(nc: string): (r: Option<PropertyInfo>)
    ensures r.Some? ==> IsSuccess(r.value) && r.value.kind == Some("Observable")
    ensures r.Some? ==> r.value.dependentProperties == [] && r.value.initialValue.None?
    ensures r.Some? ==>
              && r.value.fieldName.Some? && |r.value.fieldName.value| >= 2
              && r.value.fieldName.value[0] == '_'
              && r.value.propertyName == Some(Capitalize(r.value.fieldName.value[1..]))
    ensures r.Some? <==> Occurs(nc, ObservablePattern)
  {
    ObservableFound(nc);
    match Find(nc, ObservablePattern, 0)
    case None => None
    case Some(h) =>
      var ty := Capture(nc, ObservablePattern, h.start, h.ends, ObservableType);
      var name := Capture(nc, ObservablePattern, h.start, h.ends, ObservableName);
      assert ("_" + name)[1..] == name;
      Some(PropertyInfo(Some(ty), Some("_" + name), Some(Capitalize(name)), Some("Observable"), [], None, None))
  }

  /** Rule 2, `vis T Name { get; set; }`. */
  function AutoRule(nc: string): (r: Option<PropertyInfo>)
    ensures r.Some? ==> IsSuccess(r.value) && r.value.kind == Some("Auto")
    ensures r.Some? ==>
              && r.value.fieldName.None? && r.value.dependentProperties == []
              && r.value.initialValue.None?
    ensures r.Some? ==> forall j :: 0 <= j < |r.value.propertyName.value| ==> IsWord(r.value.propertyName.value[j])
    ensures r.Some? <==> Occurs(nc, AutoPattern)
  {
    AutoFound(nc);
    AutoShape();
    match Find(nc, AutoPattern, 0)
    case None => None
    case Some(h) =>
      var ty := Capture(nc, AutoPattern, h.start, h.ends, AutoType);
      var name := Capture(nc, AutoPattern, h.start, h.ends, AutoName);
      Some(PropertyInfo(Some(ty), None, Some(name), Some("Auto"), [], None, None))
  }

  /** Full rule 1: a field declaration followed by its property. The field
      name is the identifier the getter returns. */
  function BackingRule(nc: string): (r: Option<PropertyInfo>)
    ensures r.Some? ==> IsSuccess(r.value) && r.value.kind == Some("FullWithBacking")
    ensures r.Some? ==> r.value.fieldName.Some? && exists q :: ReturnsAt(nc, q, r.value.fieldName.value)
    ensures r.Some? && r.value.initialValue.Some? ==> IsTrimmed(r.value.initialValue.value)
    ensures r.Some? ==> forall k :: 0 <= k < |r.value.dependentProperties| ==>
      r.value.dependentProperties[k] != r.value.propertyName.value
  {
    match FindBacking(nc, 0)
    case None => None
    case Some((_, m)) =>
      Some(PropertyInfo(Some(m.ty), Some(m.field), Some(m.name), Some("FullWithBacking"),
        DependentProperties(m.setter, m.name), m.init, None))
  }

  /** Full rule 2: `get => f; set => SetProperty(ref g, value);`. The field
      is the getter's `f`; its initial value is looked up in the original
      text. */
  function ExpressionRule(nc: string, originalText: string): (r: Option<PropertyInfo>)
    ensures r.Some? ==> IsSuccess(r.value) && r.value.kind == Some("FullWithBacking")
    ensures r.Some? ==> r.value.dependentProperties == [] && r.value.fieldName.Some?
    ensures r.Some? ==> r.value.initialValue == ExtractInitialValueFromField(originalText, r.value.fieldName.value)
    ensures r.Some? <==> Occurs(nc, ExpressionBodiedPattern)
  {
    ExpressionBodiedFound(nc);
    ExpressionBodiedShape();
    match Find(nc, ExpressionBodiedPattern, 0)
    case None => None
    case Some(h) =>
      var ty := Capture(nc, ExpressionBodiedPattern, h.start, h.ends, ExpressionType);
      var name := Capture(nc, ExpressionBodiedPattern, h.start, h.ends, ExpressionName);
      var field := Capture(nc, ExpressionBodiedPattern, h.start, h.ends, ExpressionField);
      Some(PropertyInfo(Some(ty), Some(field), Some(name), Some("FullWithBacking"), [],
        ExtractInitialValueFromField(originalText, field), None))
  }

  /** A notifier-style property calling `call` matches at `j`, its getter
      returning `field` and its setter assigning the same `field`. */
  predicate NotifierAt(s: string, call: string, j: nat, field: string) {
    && j <= |s|
    && MatchAt(s, NotifierPattern(call), j).Some?
    && Capture(s, NotifierPattern(call), j, MatchAt(s, NotifierPattern(call), j).value, NotifierField) == field
    && Capture(s, NotifierPattern(call), j, MatchAt(s, NotifierPattern(call), j).value, NotifierAssigned) == field
  }

  /** Full rules 3 and 4: Prism (`RaisePropertyChanged`) and
      `OnPropertyChanged` properties, tagged `kind`. */
  function NotifierRule(nc: string, originalText: string, call: string, kind: string): (r: Option<PropertyInfo>)
    requires call == "RaisePropertyChanged" || call == "OnPropertyChanged"
    requires kind in FullKinds
    ensures r.Some? ==> IsSuccess(r.value) && r.value.kind == Some(kind)
    ensures r.Some? ==> r.value.dependentProperties == [] && r.value.fieldName.Some?
    ensures r.Some? ==> exists j :: NotifierAt(nc, call, j, r.value.fieldName.value)
    ensures r.Some? ==> r.value.initialValue == ExtractInitialValueFromField(originalText, r.value.fieldName.value)
    ensures r.Some? <==> Occurs(nc, NotifierPattern(call))
  {
    NotifierFound(nc, call);
    NotifierShape(call);
    var P := NotifierPattern(call);
    match Find(nc, P, 0)
    case None => None
    case Some(h) =>
      var ty := Capture(nc, P, h.start, h.ends, NotifierType);
      var name := Capture(nc, P, h.start, h.ends, NotifierName);
      var field := Capture(nc, P, h.start, h.ends, NotifierField);
      MatchSpan(nc, P, h.start, h.ends, NotifierAssigned);
      assert NotifierAt(nc, call, h.start, field);
      Some(PropertyInfo(Some(ty), Some(field), Some(name), Some(kind), [],
        ExtractInitialValueFromField(originalText, field), None))
  }

  /** Full rule 5, the general full property; it records no field. */
  function FullRule(nc: string): (r: Option<PropertyInfo>)
    ensures r.Some? ==> IsSuccess(r.value) && r.value.kind == Some("Full")
    ensures r.Some? ==> r.value.fieldName.None? && r.value.initialValue.None?
    ensures r.Some? ==> forall k :: 0 <= k < |r.value.dependentProperties| ==>
      r.value.dependentProperties[k] != r.value.propertyName.value
  {
    match FindFull(nc, 0)
    case None => None
    case Some((_, m)) =>
      Some(PropertyInfo(Some(m.ty), None, Some(m.name), Some("Full"),
        DependentProperties(m.setter, m.name), None, None))
  }

  /** No FullText starts at a position where the matcher fails. */
  lemma FullAtNoText(s: string, i: nat)
    requires i <= |s| && FullAt(s, i).None?
    ensures forall p: nat, p2: nat :: !FullText(s, i, p, p2)
  {
    var _ := FullAtSpec(s, i);
  }

  /** Positions the leftmost scan skips hold no FullText. */
  lemma NoFullTextBetween(s: string, i: nat, j: nat)
    requires NoFullBetween(s, i, j)
    ensures forall k: nat, p: nat, p2: nat :: i <= k < j && k <= |s| ==> !FullText(s, k, p, p2)
  {
    forall k: nat, p: nat, p2: nat | i <= k < j && k <= |s| ensures !FullText(s, k, p, p2) {
      FullAtNoText(s, k);
    }
  }

  /** The leftmost scan finds a match exactly when FullText holds somewhere;
      it stops at the leftmost such position `j`, with the last `set` there
      (`m`). */
  lemma FindFullSpec(nc: string) returns (j: nat, m: nat)
    ensures FindFull(nc, 0).Some? <==> exists i: nat, p: nat, p2: nat :: FullText(nc, i, p, p2)
    ensures FindFull(nc, 0).Some? ==>
      && FindFull(nc, 0).value.0 == j
      && (exists p: nat :: FullText(nc, j, p, m))
      && (forall i: nat, p: nat, p2: nat :: FullText(nc, i, p, p2) ==> j <= i)
      && (forall p: nat, p3: nat :: FullText(nc, j, p, p3) ==> p3 <= m)
      && FindFull(nc, 0).value.1 == FullOf(nc, j, m)
  {
    j, m := 0, 0;
    var r := FindFull(nc, 0);
    if r.None? {
      NoFullTextBetween(nc, 0, |nc| + 1);
      forall i: nat, p: nat, p2: nat | FullText(nc, i, p, p2) ensures i <= |nc| {
      }
    } else {
      j := r.value.0;
      m := FullAtSpec(nc, j);
      NoFullTextBetween(nc, 0, j);
    }
  }

  /** The general full rule matches exactly when FullText holds somewhere.
      It then reports the match at the leftmost such position `j`, with the
      last `set` there (`m`): the type and name of that head, no field, and
      as dependents the names notified in that setter's body. */
  lemma FullRuleSpec(nc: string) returns (j: nat, m: nat)
    ensures FullRule(nc).Some? <==> exists i: nat, p: nat, p2: nat :: FullText(nc, i, p, p2)
    ensures FullRule(nc).Some? ==>
      && (exists p: nat :: FullText(nc, j, p, m))
      && (forall i: nat, p: nat, p2: nat :: FullText(nc, i, p, p2) ==> j <= i)
      && (forall p: nat, p3: nat :: FullText(nc, j, p, p3) ==> p3 <= m)
      && FullRule(nc).value.typeName == Some(FullOf(nc, j, m).ty)
      && FullRule(nc).value.propertyName == Some(FullOf(nc, j, m).name)
      && FullRule(nc).value.dependentProperties
         == DependentProperties(FullOf(nc, j, m).setter, FullOf(nc, j, m).name)
  {
    j, m := FindFullSpec(nc);
  }

  /** MatchFullPropertyBlock: the five full rules in order, the first that
      matches deciding; `None` when none does. */
  function MatchFullPropertyBlock(text: string, originalText: string): (r: Option<PropertyInfo>)
    ensures r.Some? ==> IsSuccess(r.value) && r.value.kind.value in FullKinds
    ensures r.None? <==>
      && BackingRule(text).None? && !Occurs(text, ExpressionBodiedPattern)
      && !Occurs(text, PrismPattern) && !Occurs(text, NotifyPattern) && FullRule(text).None?
    // The first rule that matches decides, in this order.
    ensures BackingRule(text).Some? ==> r == BackingRule(text)
    ensures BackingRule(text).None? && Occurs(text, ExpressionBodiedPattern)
      ==> r == ExpressionRule(text, originalText)
    ensures BackingRule(text).None? && !Occurs(text, ExpressionBodiedPattern) && Occurs(text, PrismPattern)
      ==> r == NotifierRule(text, originalText, "RaisePropertyChanged", "PrismFullWithBacking")
    ensures BackingRule(text).None? && !Occurs(text, ExpressionBodiedPattern) && !Occurs(text, PrismPattern)
      && Occurs(text, NotifyPattern)
      ==> r == NotifierRule(text, originalText, "OnPropertyChanged", "NotifyFullWithBacking")
    ensures BackingRule(text).None? && !Occurs(text, ExpressionBodiedPattern) && !Occurs(text, PrismPattern)
      && !Occurs(text, NotifyPattern)
      ==> r == FullRule(text)
  {
    var backing := BackingRule(text);
    if backing.Some? then backing
    else
      var expr := ExpressionRule(text, originalText);
      if expr.Some? then expr
      else
        var prism := NotifierRule(text, originalText, "RaisePropertyChanged", "PrismFullWithBacking");
        if prism.Some? then prism
        else
          var notify := NotifierRule(text, originalText, "OnPropertyChanged", "NotifyFullWithBacking");
          if notify.Some? then notify
          else FullRule(text)
  }

  /** MatchProperty: strip comments, then the Observable rule, the Auto
      rule and, for text with a line break, the full rules. The result is a
      successful record or the fixed failure record, never null. */
  function MatchProperty(text: string): (r: PropertyInfo)
    ensures IsSuccess(r) || r == NoMatch
  {
    var nc := CommentsRemoved(text);
    var obs := ObservableRule(nc);
    if obs.Some? then obs.value
    else
      var auto := AutoRule(nc);
      if auto.Some? then auto.value
      else if HasChar(nc, '\n') || HasChar(nc, '\r') then
        var full := MatchFullPropertyBlock(nc, text);
        if full.Some? then full.value else NoMatch
      else NoMatch
  }


  // ---------------------------------------------------------------------
  // The rule order MatchProperty follows

  /** A block is classified Observable exactly when, comments removed, it
      holds an `[ObservableProperty]` field. */
  lemma ObservableIff(text: string)
    ensures MatchProperty(text).kind == Some("Observable")
        <==> Occurs(CommentsRemoved(text), ObservablePattern)
  {
  }

  /** A block is classified Auto exactly when it is not Observable and,
      comments removed, holds `vis T Name { get; set; }`. */
  lemma AutoIff(text: string)
    ensures MatchProperty(text).kind == Some("Auto")
        <==> !Occurs(CommentsRemoved(text), ObservablePattern) && Occurs(CommentsRemoved(text), AutoPattern)
  {
  }

  /** A full kind is only reported for a block with a line break, and only
      when neither single-line rule applies. */
  lemma FullNeedsLineBreak(text: string)
    requires MatchProperty(text).kind.Some? && MatchProperty(text).kind.value in FullKinds
    ensures HasChar(CommentsRemoved(text), '\n') || HasChar(CommentsRemoved(text), '\r')
    ensures !Occurs(CommentsRemoved(text), ObservablePattern) && !Occurs(CommentsRemoved(text), AutoPattern)
    ensures MatchProperty(text) == MatchFullPropertyBlock(CommentsRemoved(text), text).value
  {
  }

  /** The failure record comes back exactly when no rule applies. */
  lemma NoMatchIff(text: string)
    ensures MatchProperty(text) == NoMatch
        <==> && !Occurs(CommentsRemoved(text), ObservablePattern)
             && !Occurs(CommentsRemoved(text), AutoPattern)
             && (!(HasChar(CommentsRemoved(text), '\n') || HasChar(CommentsRemoved(text), '\r'))
                 || MatchFullPropertyBlock(CommentsRemoved(text), text).None?)
  {
  }

  // The notifier rules read the original text only for the initial value.
  lemma NotifierIgnoresOriginal(t: string, o1: string, o2: string, call: string, kind: string)
    requires call == "RaisePropertyChanged" || call == "OnPropertyChanged"
    requires kind in FullKinds
    ensures NotifierRule(t, o1, call, kind).Some? == NotifierRule(t, o2, call, kind).Some?
    ensures NotifierRule(t, o1, call, kind).Some? ==>
      NotifierRule(t, o1, call, kind).value.(initialValue := None)
        == NotifierRule(t, o2, call, kind).value.(initialValue := None)
  {
  }

  // So do the full rules together.
  lemma FullBlockIgnoresOriginal(t: string, o1: string, o2: string)
    ensures MatchFullPropertyBlock(t, o1).Some? == MatchFullPropertyBlock(t, o2).Some?
    ensures MatchFullPropertyBlock(t, o1).Some? ==>
      MatchFullPropertyBlock(t, o1).value.(initialValue := None)
        == MatchFullPropertyBlock(t, o2).value.(initialValue := None)
  {
    var r1 := MatchFullPropertyBlock(t, o1);
    var r2 := MatchFullPropertyBlock(t, o2);
    if BackingRule(t).Some? {
      assert r1 == BackingRule(t) == r2;
    } else if ExpressionRule(t, o1).Some? {
      assert ExpressionRule(t, o2).Some?;
      assert r1 == ExpressionRule(t, o1) && r2 == ExpressionRule(t, o2);
    } else {
      assert ExpressionRule(t, o2).None?;
      NotifierIgnoresOriginal(t, o1, o2, "RaisePropertyChanged", "PrismFullWithBacking");
      if NotifierRule(t, o1, "RaisePropertyChanged", "PrismFullWithBacking").Some? {
        assert r1 == NotifierRule(t, o1, "RaisePropertyChanged", "PrismFullWithBacking");
        assert r2 == NotifierRule(t, o2, "RaisePropertyChanged", "PrismFullWithBacking");
      } else {
        NotifierIgnoresOriginal(t, o1, o2, "OnPropertyChanged", "NotifyFullWithBacking");
        if NotifierRule(t, o1, "OnPropertyChanged", "NotifyFullWithBacking").Some? {
          assert r1 == NotifierRule(t, o1, "OnPropertyChanged", "NotifyFullWithBacking");
          assert r2 == NotifierRule(t, o2, "OnPropertyChanged", "NotifyFullWithBacking");
        } else {
          assert r1 == FullRule(t) == r2;
        }
      }
    }
  }

  /** Classification reads the text only through its comment-free form,
      except the initial value, which is looked up in the original text. */
  lemma SameCodeSameClass(x: string, y: string)
    requires CommentsRemoved(x) == CommentsRemoved(y)
    ensures MatchProperty(x).kind == MatchProperty(y).kind
    ensures MatchProperty(x).(initialValue := None) == MatchProperty(y).(initialValue := None)
  {
    var nc := CommentsRemoved(x);
    if ObservableRule(nc).Some? {
      assert MatchProperty(x) == ObservableRule(nc).value == MatchProperty(y);
    } else if AutoRule(nc).Some? {
      assert MatchProperty(x) == AutoRule(nc).value == MatchProperty(y);
    } else if HasChar(nc, '\n') || HasChar(nc, '\r') {
      FullBlockIgnoresOriginal(nc, x, y);
      if MatchFullPropertyBlock(nc, x).Some? {
        assert MatchProperty(x) == MatchFullPropertyBlock(nc, x).value;
        assert MatchProperty(y) == MatchFullPropertyBlock(nc, y).value;
      } else {
        assert MatchProperty(x) == NoMatch == MatchProperty(y);
      }
    } else {
      assert MatchProperty(x) == NoMatch == MatchProperty(y);
    }
  }

  /** Comment insensitivity: a `//` comment at the end of a line, such as
      one after `get;`, changes neither the kind nor any captured name. */
  lemma LineCommentInsensitive(a: string, c: string, b: string)
    requires !Contains(a, "//") && (a == [] || a[|a| - 1] != '/')
    requires !HasChar(c, '\n')
    ensures CommentsRemoved(a + "//" + c + "\n" + b) == CommentsRemoved(a + "\n" + b)
    ensures MatchProperty(a + "//" + c + "\n" + b).kind == MatchProperty(a + "\n" + b).kind
    ensures MatchProperty(a + "//" + c + "\n" + b).(initialValue := None)
         == MatchProperty(a + "\n" + b).(initialValue := None)
  {
    var x := StripLineComments(b);
    calc {
      StripLineComments(a + "\n" + b);
      { assert a + "\n" + b == a + ("\n" + b); LineKeepsPrefix(a, "\n" + b); }
      a + StripLineComments("\n" + b);
      { LineKeepsPrefix("\n", b); }
      a + ("\n" + x);
      a + "\n" + x;
      { LineCommentRemoved(a, c, b); }
      StripLineComments(a + "//" + c + "\n" + b);
    }
    SameCodeSameClass(a + "//" + c + "\n" + b, a + "\n" + b);
  }

  /** Among the full rules, a notifier kind is reported only when the
      backing-field rule and the rules before it found nothing. A Notify
      property whose field declaration is part of the block is therefore
      reported as FullWithBacking whenever the backing-field rule matches
      it; AgeExample.AgeFullBlock shows one such block. */
  lemma NotifyNeedsNoBacking(text: string, originalText: string)
    requires MatchFullPropertyBlock(text, originalText).Some?
    requires MatchFullPropertyBlock(text, originalText).value.kind == Some("NotifyFullWithBacking")
    ensures BackingRule(text).None? && !Occurs(text, ExpressionBodiedPattern) && !Occurs(text, PrismPattern)
    ensures Occurs(text, NotifyPattern)
  {
  }
}
