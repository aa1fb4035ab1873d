module ConvertToRelayCommandSample {
  import opened Wrappers
  import opened Text
  import opened Tokens
  import opened ConvertToRelayCommandCommand

  /** A command already created with a lambda. */
  const LambdaSample: string := "new RelayCommand(() => Save(item))"

  /** What the passes as written make of it: the call inside the lambda
      taken for a method group. */
  const LambdaSampleBroken: string := "new RelayCommand" + "(() => Save" + "(() => " + "item" + "())" + ")"

  /** `new` occurs only at the start. */
  predicate OnlyNewAtStart(s: string) {
    forall k :: 0 < k < |s| ==> !LitAt(s, k, "new")
  }

  /** When the only `new` is at the start and the pass does not match
      there, it leaves the text unchanged. */
  lemma ReplaceNone(p: Pass, s: string)
    requires OnlyNewAtStart(s) && RewriteAt(p, s, 0).None?
    ensures Replace(p, s) == s
  {
    var hits := Hits(p, s);
    HitsAdvance(p, s);
    forall k | 0 <= k < |s| ensures hits[k].None? {
      assert k == 0 || !LitAt(s, k, "new");
    }
    ReplaceUntouched(s, hits, 0);
  }

  /** When the only `new` is at the start and the pass matches there, the
      match is the only text it replaces. */
  lemma ReplaceAtStart(p: Pass, s: string, r: Rewrite)
    requires OnlyNewAtStart(s) && RewriteAt(p, s, 0) == Some(r)
    ensures Replace(p, s) == r.text + s[r.end..]
  {
    var hits := Hits(p, s);
    HitsAdvance(p, s);
    forall k | r.end <= k < |s| ensures hits[k].None? {
      assert !LitAt(s, k, "new");
    }
    ReplaceLeftmost(s, hits, 0, 0);
    ReplaceUntouched(s, hits, r.end);
  }

  /** A text starting `new R` creates no `Command` and no
      `AsyncRelayCommand`. */
  lemma OtherPassesSkip(s: string)
    requires |s| >= 16 && s[..16] == "new RelayCommand"
    ensures LitAt(s, 0, "new") && WsEnd(s, 3) == 4
    ensures !NewThen(s, 0, "Command") && !NewThen(s, 0, "AsyncRelayCommand")
    ensures CommandRewrite(s, 0).None? && AsyncArrowRewrite(s, 0).None? && AsyncParamsRewrite(s, 0).None?
  {
    var h := s[..16];
    assert s[0..3] == h[..3] == "new";
    assert s[3] == h[3] && s[4] == h[4];
    assert WsEnd(s, 4) == 4;
    assert WsEnd(s, 3) == 4;
    NotLitAt(s, 4, "Command");
    NotLitAt(s, 4, "AsyncRelayCommand");
  }

  // A literal does not start where its first character is missing.
  lemma NotLitAt(s: string, i: nat, lit: string)
    requires 0 < |lit| && i < |s| && s[i] != lit[0]
    ensures !LitAt(s, i, lit)
  {
    if i + |lit| <= |s| {
      assert s[i..i + |lit|][0] == s[i];
    }
  }

  lemma LambdaSampleOneNew()
    ensures OnlyNewAtStart(LambdaSample)
  {
    forall k | 0 < k < |LambdaSample| ensures !LitAt(LambdaSample, k, "new") {
      if k + 3 <= |LambdaSample| {
        assert LambdaSample[k..k + 3][0] == LambdaSample[k] && LambdaSample[k..k + 3][1] == LambdaSample[k + 1];
        assert LambdaSample[k] != 'n' || LambdaSample[k + 1] != 'e';
      }
    }
  }

  lemma BrokenOneNew()
    ensures OnlyNewAtStart(LambdaSampleBroken) && LambdaSampleBroken[..16] == "new RelayCommand"
  {
    assert LambdaSampleBroken[..16] == "new RelayCommand";
    forall k | 0 < k < |LambdaSampleBroken| ensures !LitAt(LambdaSampleBroken, k, "new") {
      if k + 3 <= |LambdaSampleBroken| {
        assert LambdaSampleBroken[k..k + 3][0] == LambdaSampleBroken[k];
        assert LambdaSampleBroken[k..k + 3][1] == LambdaSampleBroken[k + 1];
        assert LambdaSampleBroken[k] != 'n' || LambdaSampleBroken[k + 1] != 'e';
      }
    }
  }

  /** The sample in three pieces: the command, the lambda up to the call's
      `(`, and the call's argument with the closing parentheses. */
  predicate Pieces(s: string) {
    |s| == 34 && s[..16] == "new RelayCommand" && s[16..27] == "(() => Save" && s[27..] == "(item))"
  }

  lemma LambdaSamplePieces()
    ensures Pieces(LambdaSample)
  {
  }

  /** `new RelayCommand` at the start. */
  lemma PiecesName(s: string)
    requires Pieces(s)
    ensures RelayName(s, 0) == Some((false, 16))
  {
    OtherPassesSkip(s);
    assert s[4..16] == s[..16][4..];
  }

  /** `(item)` is a method group tail. */
  lemma PiecesTail(s: string)
    requires Pieces(s)
    ensures MethodGroupText(s, 27, 28, 32, 33)
  {
    var t := s[27..];
    assert t == "(item))";
    assert s[27] == t[0] && s[28] == t[1] && s[32] == t[5] && s[33] == t[6];
    forall k | 28 < k < 32 ensures IsWord(s[k]) {
      assert s[k] == t[k - 27];
    }
    assert s[28..28] == [] && s[32..32] == [];
    NoArrowAfterIff(s, 33);
    assert WsEnd(s, 33) == 33;
  }

  /** A `(` followed by a character that neither continues the blank run
      nor starts a name opens no method-group tail. */
  lemma OpenNoName(s: string, p: nat)
    requires p + 1 < |s| && !IsWs(s[p + 1]) && !IsIdentStart(s[p + 1])
    ensures MethodGroupAt(s, p).None?
  {
    assert WsEnd(s, p + 1) == p + 1;
  }

  /** Between the command's name and `(item)`, the text is on one line and
      no method group tail starts. */
  lemma PiecesLambda(s: string)
    requires Pieces(s)
    ensures OnLine(s, 16, 27) && forall k :: 16 <= k < 27 ==> MethodGroupAt(s, k).None?
  {
    var mid := s[16..27];
    assert mid == "(() => Save";
    forall k | 16 <= k < 27 ensures s[k] != '\n' && MethodGroupAt(s, k).None? {
      assert s[k] == mid[k - 16];
      if k == 16 || k == 17 {
        assert s[k + 1] == mid[k - 15];
        OpenNoName(s, k);
      }
    }
  }

  /** As written, the method group pass rewrites the lambda's body. */
  lemma PiecesRewritten(s: string)
    requires Pieces(s) && OnlyNewAtStart(s)
    ensures Replace(MethodGroupLambda, s) == LambdaSampleBroken
  {
    PiecesName(s);
    PiecesTail(s);
    PiecesLambda(s);
    MethodGroupLazyRewrite(s, 0, 27, 28, 32, 33);
    ReplaceAtStart(MethodGroupLambda, s, Rewrite(33, Lambda(false, s[16..27], s[28..32])));
    var t := s[27..];
    assert s[28..32] == t[1..5] && s[33..] == t[6..];
    BrokenText(s[16..27], s[28..32], s[33..]);
  }

  // The broken text, assembled.
  lemma BrokenText(body: string, name: string, rest: string)
    requires body == "(() => Save" && name == "item" && rest == ")"
    ensures Lambda(false, body, name) + rest == LambdaSampleBroken
  {
  }

  /** As fixed, the method group pass finds no generic text and no tail
      right after the command's name. */
  lemma PiecesKept(s: string)
    requires Pieces(s)
    ensures MethodGroupRewrite(s, 0, true).None?
  {
    PiecesName(s);
    PiecesLambda(s);
    TailsFacts(s, MethodGroup);
    TailsAt(s, MethodGroup, 16);
    assert s[16] == s[16..27][0];
  }

  /** As written, `TryConvertToRelayCommand` turns a command already
      created with a lambda into one whose lambda passes a lambda. */
  lemma PiecesConverted(s: string)
    requires Pieces(s) && OnlyNewAtStart(s)
    ensures Converted(s) == LambdaSampleBroken
  {
    OtherPassesSkip(s);
    ReplaceNone(CommandToRelay, s);
    PiecesRewritten(s);
    BrokenOneNew();
    LaterPassesKeep(Replace(MethodGroupLambda, s));
  }

  // The passes after the method group pass leave a `RelayCommand` with
  // no further `new` alone.
  lemma LaterPassesKeep(b: string)
    requires |b| >= 16 && b[..16] == "new RelayCommand" && OnlyNewAtStart(b)
    ensures Replace(AsyncParamsSpacing, Replace(AsyncArrowParens, b)) == b
  {
    OtherPassesSkip(b);
    ReplaceNone(AsyncArrowParens, b);
    ReplaceNone(AsyncParamsSpacing, b);
  }

  /** With `(<.*?>)?` as the generic text, none of the passes changes it. */
  lemma PiecesUnchanged(s: string)
    requires Pieces(s) && OnlyNewAtStart(s)
    ensures ConvertedFixed(s) == s
  {
    OtherPassesSkip(s);
    PiecesKept(s);
    ReplaceNone(CommandToRelay, s);
    ReplaceNone(MethodGroupFixed, s);
    ReplaceNone(AsyncArrowParens, s);
    ReplaceNone(AsyncParamsSpacing, s);
  }
}
