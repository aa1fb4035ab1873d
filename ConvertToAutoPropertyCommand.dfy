/** SsRefactor/ConvertToAutoPropertyCommand.cs: a recognised property is
    re-emitted as a one-line public auto-property. */
module ConvertToAutoPropertyCommand {
  import opened Wrappers
  import opened Text
  import opened Tokens
  import opened PropertyPatterns
  import opened PropertyRegexHelper

  /** String interpolation of a possibly null string: null gives "". */
  function OrEmpty(o: Option<string>): (r: string)
    ensures o.Some? ==> r == o.value
    ensures o.None? ==> r == []
  {
    if o.Some? then o.value else ""
  }

  /** The auto-property template filled from a recognised property. */
  function AutoPropertyText(info: PropertyInfo): string {
    "public " + OrEmpty(info.typeName) + " " + OrEmpty(info.propertyName) + " { get; set; }"
  }

  /** `ConvertToAutoProperty`. The result is never null: the recogniser
      always returns a record. It is always public, whatever the selected
      property's modifier, and on a failed match both holes are empty. */
  function ConvertToAutoProperty(selectedText: string): (r: string)
    ensures LitAt(r, 0, "public ")
    ensures
      var info := MatchProperty(selectedText);
      IsSuccess(info) ==> r == "public " + info.typeName.value + " " + info.propertyName.value + " { get; set; }"
    ensures MatchProperty(selectedText).noMatchReason.Some? ==> r == "public   { get; set; }"
  {
    var info := MatchProperty(selectedText);
    AutoTextFacts(info);
    AutoPropertyText(info)
  }

  // The template on the two records the recogniser returns.
  lemma AutoTextFacts(info: PropertyInfo)
    requires IsSuccess(info) || info == NoMatch
    ensures LitAt(AutoPropertyText(info), 0, "public ")
    ensures IsSuccess(info) ==>
      AutoPropertyText(info) == "public " + info.typeName.value + " " + info.propertyName.value + " { get; set; }"
    ensures info.noMatchReason.Some? ==> AutoPropertyText(info) == "public   { get; set; }"
  {
    assert AutoPropertyText(info)[..7] == "public ";
  }

  /** Only the type and the property name reach the output: the field
      name, the dependent properties, the initial value, the kind and the
      reason do not. */
  lemma AutoTextIgnoresRest(a: PropertyInfo, b: PropertyInfo)
    requires a.typeName == b.typeName && a.propertyName == b.propertyName
    ensures AutoPropertyText(a) == AutoPropertyText(b)
  {
  }

  // ---------------------------------------------------------------------
  // Round trip

  /** The canonical auto-property with type `ty` and name `n`. */
  function CanonicalAuto(ty: string, n: string): string {
    "public " + ty + " " + n + " { get; set; }"
  }

  predicate IsTypeText(ty: string) {
    ty != [] && forall j :: 0 <= j < |ty| ==> InClass(ty[j], TypeName)
  }

  predicate IsName(n: string) {
    n != [] && forall j :: 0 <= j < |n| ==> IsWord(n[j])
  }

  /** Where each part of the canonical text sits. */
  lemma CanonicalLayout(ty: string, n: string)
    ensures
      var s := CanonicalAuto(ty, n);
      var o := 8 + |ty| + |n|;
      && |s| == o + 14
      && s[..7] == "public " && s[7..7 + |ty|] == ty && s[7 + |ty|] == ' '
      && s[8 + |ty|..o] == n && s[o..] == " { get; set; }"
  {
  }

  /** Where the tokens of the Auto pattern end in the canonical text. */
  function CanonicalEnds(ty: string, n: string): seq<nat> {
    var o := 8 + |ty| + |n|;
    [6, 7, 7 + |ty|, 8 + |ty|, o, o + 1, o + 2, o + 3, o + 7, o + 8, o + 12, o + 13, o + 14]
  }

  lemma CanonicalEndsTail(ty: string, n: string)
    ensures
      var o, ends := 8 + |ty| + |n|, CanonicalEnds(ty, n);
      |ends| == 13 && ends[4] == o && ends[5..] == [o + 1, o + 2, o + 3, o + 7, o + 8, o + 12, o + 13, o + 14]
  {
  }

  lemma AutoHasNoBackReference()
    ensures forall k :: 0 <= k < |AutoPattern| ==> !AutoPattern[k].Same?
  {
  }

  // Tokens 0 to 4 of the Auto pattern: the modifier, the type and the name.
  lemma CanonicalHeadTok(ty: string, n: string, k: nat)
    requires IsTypeText(ty) && IsName(n) && k < 5
    ensures Bounded(CanonicalAuto(ty, n), 0, CanonicalEnds(ty, n))
    ensures SpanOk(CanonicalAuto(ty, n), AutoPattern[k], StartOf(0, CanonicalEnds(ty, n), k),
                   CanonicalEnds(ty, n)[k], None)
  {
    var s := CanonicalAuto(ty, n);
    var o := 8 + |ty| + |n|;
    var ends := CanonicalEnds(ty, n);
    CanonicalLayout(ty, n);
    assert Bounded(s, 0, ends);
    if k == 0 {
      assert AutoPattern[k] == OneOf(Visibilities);
      assert s[0..6] == "public";
    } else if k == 1 {
      assert AutoPattern[k] == Space(true);
      assert s[6..7] == " ";
    } else if k == 2 {
      assert AutoPattern[k] == Run(TypeName);
    } else if k == 3 {
      assert AutoPattern[k] == Space(true);
      assert s[7 + |ty|..8 + |ty|] == [s[7 + |ty|]];
    } else {
      assert AutoPattern[k] == Run(Word);
    }
  }

  // Tokens 5 to 12: ` { get; set; }`, which starts at `o`.
  lemma CanonicalTailTok(s: string, o: nat, ends: seq<nat>, k: nat)
    requires |s| == o + 14 && s[o..] == " { get; set; }" && 5 <= k < 13
    requires |ends| == 13 && o <= ends[4] == o
    requires ends[5..] == [o + 1, o + 2, o + 3, o + 7, o + 8, o + 12, o + 13, o + 14]
    ensures StartOf(0, ends, k) <= ends[k] <= |s|
    ensures SpanOk(s, AutoPattern[k], StartOf(0, ends, k), ends[k], None)
  {
    var tail := s[o..];
    assert ends[k] == ends[5..][k - 5];
    if k == 5 {
      assert s[o..o + 1] == tail[0..1] == " ";
    } else if k == 6 {
      assert s[o + 1..o + 2] == tail[1..2] == "{";
    } else if k == 7 {
      assert s[o + 2..o + 3] == tail[2..3] == " ";
    } else if k == 8 {
      assert s[o + 3..o + 7] == tail[3..7] == "get;";
    } else if k == 9 {
      assert s[o + 7..o + 8] == tail[7..8] == " ";
    } else if k == 10 {
      assert s[o + 8..o + 12] == tail[8..12] == "set;";
    } else if k == 11 {
      assert s[o + 12..o + 13] == tail[12..13] == " ";
    } else {
      assert s[o + 13..o + 14] == tail[13..14] == "}";
    }
  }

  /** The canonical text is the Auto pattern, every token where the
      layout puts it. */
  lemma CanonicalParse(ty: string, n: string)
    requires IsTypeText(ty) && IsName(n)
    ensures Parse(CanonicalAuto(ty, n), AutoPattern, 0, CanonicalEnds(ty, n))
  {
    var s, ends := CanonicalAuto(ty, n), CanonicalEnds(ty, n);
    CanonicalHeadTok(ty, n, 0);
    forall k | 0 <= k < 13 ensures SpanOk(s, AutoPattern[k], StartOf(0, ends, k), ends[k], None) {
      if k < 5 {
        CanonicalHeadTok(ty, n, k);
      } else {
        CanonicalTailAt(ty, n, k);
      }
    }
    AutoHasNoBackReference();
    forall k | 0 <= k < 13 ensures GroupOf(s, AutoPattern, 0, ends, k) == None {
    }
  }

  // Tokens 5 to 12 of the Auto pattern span their places in the canonical
  // text.
  lemma CanonicalTailAt(ty: string, n: string, k: nat)
    requires 5 <= k < 13
    ensures
      var s, ends := CanonicalAuto(ty, n), CanonicalEnds(ty, n);
      StartOf(0, ends, k) <= ends[k] <= |s| && SpanOk(s, AutoPattern[k], StartOf(0, ends, k), ends[k], None)
  {
    CanonicalLayout(ty, n);
    CanonicalEndsTail(ty, n);
    CanonicalTailTok(CanonicalAuto(ty, n), 8 + |ty| + |n|, CanonicalEnds(ty, n), k);
  }

  // A parse of the Observable pattern puts `_`, a word run and `;` in a row.
  lemma ObservableParseFacts(s: string, j: nat, ends: seq<nat>)
    requires Parse(s, ObservablePattern, j, ends)
    ensures ends[5] < ends[7] < |s| && s[ends[5]] == '_' && s[ends[7]] == ';'
    ensures forall w :: ends[5] < w < ends[7] ==> IsWord(s[w])
  {
    assert ObservablePattern[6] == Lit("_") && ObservablePattern[7] == Run(Word);
    assert ObservablePattern[8] == Lit(";");
    assert SpanOk(s, ObservablePattern[6], StartOf(j, ends, 6), ends[6], GroupOf(s, ObservablePattern, j, ends, 6));
    assert SpanOk(s, ObservablePattern[7], StartOf(j, ends, 7), ends[7], GroupOf(s, ObservablePattern, j, ends, 7));
    assert SpanOk(s, ObservablePattern[8], StartOf(j, ends, 8), ends[8], GroupOf(s, ObservablePattern, j, ends, 8));
    assert s[ends[5]] == s[ends[5]..ends[6]][0];
    assert s[ends[7]] == s[ends[7]..ends[8]][0];
  }

  // The canonical text has no `/`, and its only semicolons end `get;`
  // and `set;`.
  lemma CanonicalChars(ty: string, n: string)
    requires IsTypeText(ty) && IsName(n)
    ensures !HasChar(CanonicalAuto(ty, n), '/')
    ensures forall v :: 0 <= v < |CanonicalAuto(ty, n)| && CanonicalAuto(ty, n)[v] == ';' ==>
      v == 8 + |ty| + |n| + 6 || v == 8 + |ty| + |n| + 11
  {
    var s := CanonicalAuto(ty, n);
    var o := 8 + |ty| + |n|;
    CanonicalLayout(ty, n);
    forall v | 0 <= v < |s|
      ensures s[v] != '/'
      ensures v != o + 6 && v != o + 11 ==> s[v] != ';'
    {
      if v < 7 {
        assert s[v] == s[..7][v];
      } else if v < 7 + |ty| {
        assert s[v] == ty[v - 7];
        ClassesExcludeWs(ty[v - 7], TypeName);
      } else if 7 + |ty| < v < o {
        assert s[v] == n[v - 8 - |ty|];
      } else if o <= v {
        assert s[v] == s[o..][v - o];
      }
    }
  }

  /** The canonical auto-property holds no `[ObservableProperty]` field:
      its only semicolons follow `get` and `set`, not `_` and a name. */
  lemma CanonicalNotObservable(ty: string, n: string)
    requires IsTypeText(ty) && IsName(n)
    ensures !Occurs(CanonicalAuto(ty, n), ObservablePattern)
  {
    var s := CanonicalAuto(ty, n);
    var o := 8 + |ty| + |n|;
    CanonicalLayout(ty, n);
    var tail := s[o..];
    assert s[o + 2] == tail[2] == ' ' && s[o + 7] == tail[7] == ' ';
    assert s[o + 3] == 'g' && s[o + 4] == 'e' && s[o + 5] == 't';
    assert s[o + 8] == 's' && s[o + 9] == 'e' && s[o + 10] == 't';
    CanonicalChars(ty, n);
    forall j: nat, ends | j <= |s| && Parse(s, ObservablePattern, j, ends) ensures false {
      ObservableParseFacts(s, j, ends);
    }
  }

  /** The Auto rule reads the type and the name back from the canonical
      text. */
  lemma CanonicalAutoRule(ty: string, n: string)
    requires IsTypeText(ty) && IsName(n)
    ensures AutoRule(CanonicalAuto(ty, n)) == Some(PropertyInfo(Some(ty), None, Some(n), Some("Auto"), [], None, None))
  {
    var s := CanonicalAuto(ty, n);
    var ends := CanonicalEnds(ty, n);
    CanonicalParse(ty, n);
    AutoWellFormed();
    MatchAtComplete(s, AutoPattern, 0, ends);
    assert Find(s, AutoPattern, 0) == Some(Hit(0, ends));
    CanonicalLayout(ty, n);
    assert Capture(s, AutoPattern, 0, ends, AutoType) == ty;
    assert Capture(s, AutoPattern, 0, ends, AutoName) == n;
  }

  /** Round trip: the recogniser classifies the canonical auto-property
      as Auto with its own type and name, so converting it to an
      auto-property gives it back unchanged. */
  lemma AutoRoundTrip(ty: string, n: string)
    requires IsTypeText(ty) && IsName(n)
    ensures MatchProperty(CanonicalAuto(ty, n)) == PropertyInfo(Some(ty), None, Some(n), Some("Auto"), [], None, None)
    ensures ConvertToAutoProperty(CanonicalAuto(ty, n)) == CanonicalAuto(ty, n)
  {
    var s := CanonicalAuto(ty, n);
    CanonicalChars(ty, n);
    NoCharNoLit(s, "//");
    NoCharNoLit(s, "/*");
    CommentFreeUnchanged(s);
    CanonicalNotObservable(ty, n);
    CanonicalAutoRule(ty, n);
  }
}
