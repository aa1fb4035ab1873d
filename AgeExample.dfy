/** A worked example of the backing-field rule: a field `_age`, then the
    property `Age` whose setter notifies with a plain
    `OnPropertyChanged()`. */
module AgeExample {
  import opened Wrappers
  import opened Text
  import opened Tokens
  import opened PropertyPatterns
  import opened PropertyRegexHelper

  // The block, piece by piece.
  const AgeDecl: string := "private int _age"
  const AgeHead: string := "\npublic int Age\n{"
  const Indent: string := "\n    "
  const AgeGet: string := "get { return _age; "
  const AgeSetOpen: string := "set {"
  const AgeBody: string := " _age = value; OnPropertyChanged(); "
  const AgeClose: string := "}\n}"

  /** private int _age;
      public int Age
      {
          get { return _age; }
          set { _age = value; OnPropertyChanged(); }
      } */
  const AgeText: string :=
    AgeDecl + ";" + AgeHead + Indent + AgeGet + "}" + Indent + AgeSetOpen + AgeBody + AgeClose

  /** Where each piece of the block lies. */
  predicate AgeLayout(s: string) {
    && |s| == 108
    && s[0..16] == AgeDecl && s[16] == ';' && s[17..34] == AgeHead && s[34..39] == Indent
    && s[39..58] == AgeGet && s[58] == '}' && s[59..64] == Indent && s[64..69] == AgeSetOpen
    && s[69..105] == AgeBody && s[105..108] == AgeClose
  }

  lemma AgeTextLayout()
    ensures AgeLayout(AgeText)
  {
  }

  // A slice of a piece is the same slice of the text.
  lemma Sub(s: string, a: nat, t: string, i: nat, j: nat)
    requires a + |t| <= |s| && s[a..a + |t|] == t && i <= j <= |t|
    ensures s[a + i..a + j] == t[i..j]
  {
    Chars(s, a, t);
    forall m | 0 <= m < j - i ensures s[a + i..a + j][m] == t[i..j][m] {
      assert s[a + i..a + j][m] == s[a + i + m];
    }
  }

  // Each character of a piece is the same character of the text.
  lemma Chars(s: string, a: nat, t: string)
    requires a + |t| <= |s| && s[a..a + |t|] == t
    ensures forall k :: a <= k < a + |t| ==> s[k] == t[k - a]
  {
    forall k | a <= k < a + |t| ensures s[k] == t[k - a] {
      assert s[k] == s[a..a + |t|][k - a];
    }
  }

  // A one-character piece that is whitespace.
  lemma Blank1(s: string, a: nat, t: string, i: nat)
    requires a + |t| <= |s| && s[a..a + |t|] == t && i < |t| && IsWs(t[i])
    ensures Blank(s[a + i..a + i + 1]) && a + i < a + i + 1
  {
    Chars(s, a, t);
    assert s[a + i..a + i + 1] == [s[a + i]];
  }

  /** Every character of `t` is of class `k`. */
  predicate AllIn(t: string, k: CharClass) {
    forall j :: 0 <= j < |t| ==> InClass(t[j], k)
  }

  // A slice whose characters are all of class `k`.
  lemma SliceIn(s: string, a: nat, b: nat, k: CharClass)
    requires a <= b <= |s| && AllIn(s[a..b], k)
    ensures forall j :: a <= j < b ==> InClass(s[j], k)
  {
    forall j | a <= j < b ensures InClass(s[j], k) {
      assert s[j] == s[a..b][j - a];
    }
  }

  // ---------------------------------------------------------------------
  // The field head

  // The matcher's steps on the field head: the type run, the blank and
  // the name run.
  lemma FieldHeadStep0(s: string, a: nat, b: nat)
    requires a <= |s| && MatchTok(s, Run(TypeName), a, None) == Some(b)
    ensures PrefixOk(s, FieldHeadPattern, a, [b])
    ensures MatchFrom(s, FieldHeadPattern, a, []) == MatchFrom(s, FieldHeadPattern, a, [b])
  {
    assert PrefixOk(s, FieldHeadPattern, a, []);
    assert [] + [b] == [b];
    MatchFromStep(s, FieldHeadPattern, a, [], b);
  }

  lemma FieldHeadStep1(s: string, a: nat, b: nat, c: nat)
    requires PrefixOk(s, FieldHeadPattern, a, [b]) && b <= |s| && MatchTok(s, Space(true), b, None) == Some(c)
    ensures PrefixOk(s, FieldHeadPattern, a, [b, c])
    ensures MatchFrom(s, FieldHeadPattern, a, [b]) == MatchFrom(s, FieldHeadPattern, a, [b, c])
  {
    assert [b] + [c] == [b, c];
    MatchFromStep(s, FieldHeadPattern, a, [b], c);
  }

  lemma FieldHeadStep2(s: string, a: nat, b: nat, c: nat, e: nat)
    requires PrefixOk(s, FieldHeadPattern, a, [b, c]) && c <= |s| && MatchTok(s, Run(Word), c, None) == Some(e)
    ensures MatchFrom(s, FieldHeadPattern, a, [b, c]) == Some([b, c, e])
  {
    assert [b, c] + [e] == [b, c, e];
    MatchFromStep(s, FieldHeadPattern, a, [b, c], e);
  }

  // The three tokens of a field head, one by one.
  lemma FieldHeadToks(s: string, a: nat, b: nat, e: nat)
    requires a < b && b + 1 < e < |s| && s[b] == ' ' && !IsWord(s[e])
    requires forall j :: a <= j < b ==> InClass(s[j], TypeName)
    requires forall j :: b + 1 <= j < e ==> IsWord(s[j])
    ensures MatchTok(s, Run(TypeName), a, None) == Some(b)
    ensures MatchTok(s, Space(true), b, None) == Some(b + 1)
    ensures MatchTok(s, Run(Word), b + 1, None) == Some(e)
  {
    ClassEndExact(s, a, b, TypeName);
    assert !IsWs(s[b + 1]);
    WsEndExact(s, b, b + 1);
    ClassEndExact(s, b + 1, e, Word);
  }

  /** Three tokens matched one after the other make a field head. */
  lemma FieldHeadMatch(s: string, a: nat, b: nat, c: nat, e: nat)
    requires a <= b <= c <= |s|
    requires MatchTok(s, Run(TypeName), a, None) == Some(b)
    requires MatchTok(s, Space(true), b, None) == Some(c)
    requires MatchTok(s, Run(Word), c, None) == Some(e)
    ensures MatchAt(s, FieldHeadPattern, a) == Some([b, c, e])
  {
    FieldHeadStep0(s, a, b);
    FieldHeadStep1(s, a, b, c);
    FieldHeadStep2(s, a, b, c, e);
  }

  // The field head of the block matches at 8.
  lemma AgeFieldHeadMatch(s: string)
    requires AgeLayout(s)
    ensures MatchAt(s, FieldHeadPattern, 8) == Some([11, 12, 16])
  {
    Chars(s, 0, AgeDecl);
    FieldHeadToks(s, 8, 11, 16);
    FieldHeadMatch(s, 8, 11, 12, 16);
  }

  /** The field head of the block: type `int`, name `_age`, ending at the
      `;`. */
  lemma AgeFieldHead(s: string)
    requires AgeLayout(s)
    ensures MatchAt(s, FieldHeadPattern, 8) == Some([11, 12, 16])
    ensures FieldType(s, 8) == "int" && NameEnd(s, 8) == 16
  {
    AgeFieldHeadMatch(s);
    Sub(s, 0, AgeDecl, 8, 11);
  }

  // ---------------------------------------------------------------------
  // The property head, the getter and the setter

  // Token `k` of the property head `; public int Age {` spans its place.
  lemma AgeHeadTokA(s: string, k: nat)
    requires |s| == 108 && s[16] == ';' && s[17..34] == AgeHead && k < 3
    ensures var ends: seq<nat> := [17, 18, 24, 25, 28, 29, 32, 33, 34];
      StartOf(16, ends, k) <= ends[k] <= |s|
      && SpanOk(s, PropertyHeadPattern("int")[k], StartOf(16, ends, k), ends[k], None)
  {
    if k == 0 {
      assert s[16..17] == [s[16]];
    } else if k == 1 {
      Blank1(s, 17, AgeHead, 0);
    } else {
      Sub(s, 17, AgeHead, 1, 7);
      assert AgeHead[1..7] == "public";
    }
  }

  lemma AgeHeadTokB(s: string, k: nat)
    requires |s| == 108 && s[16] == ';' && s[17..34] == AgeHead && 3 <= k < 6
    ensures var ends: seq<nat> := [17, 18, 24, 25, 28, 29, 32, 33, 34];
      StartOf(16, ends, k) <= ends[k] <= |s|
      && SpanOk(s, PropertyHeadPattern("int")[k], StartOf(16, ends, k), ends[k], None)
  {
    if k == 3 {
      Blank1(s, 17, AgeHead, 7);
    } else if k == 4 {
      Sub(s, 17, AgeHead, 8, 11);
      assert AgeHead[8..11] == "int";
    } else {
      Blank1(s, 17, AgeHead, 11);
    }
  }

  lemma AgeHeadTokC(s: string, k: nat)
    requires |s| == 108 && s[16] == ';' && s[17..34] == AgeHead && 6 <= k < 9
    ensures var ends: seq<nat> := [17, 18, 24, 25, 28, 29, 32, 33, 34];
      StartOf(16, ends, k) <= ends[k] <= |s|
      && SpanOk(s, PropertyHeadPattern("int")[k], StartOf(16, ends, k), ends[k], None)
  {
    if k == 6 {
      Sub(s, 17, AgeHead, 12, 15);
      assert AgeHead[12..15] == "Age" && AllIn("Age", Word);
      SliceIn(s, 29, 32, Word);
    } else if k == 7 {
      Blank1(s, 17, AgeHead, 15);
    } else {
      Sub(s, 17, AgeHead, 16, 17);
      assert AgeHead[16..17] == "{";
    }
  }

  // The property head parses at 16.
  lemma AgePropertyHeadParse(s: string)
    requires AgeLayout(s)
    ensures Parse(s, PropertyHeadPattern("int"), 16, [17, 18, 24, 25, 28, 29, 32, 33, 34])
  {
    var ends: seq<nat> := [17, 18, 24, 25, 28, 29, 32, 33, 34];
    forall k | 0 <= k < 9
      ensures StartOf(16, ends, k) <= ends[k] <= |s|
      ensures SpanOk(s, PropertyHeadPattern("int")[k], StartOf(16, ends, k), ends[k], None)
    {
      if k < 3 { AgeHeadTokA(s, k); } else if k < 6 { AgeHeadTokB(s, k); } else { AgeHeadTokC(s, k); }
    }
    forall k | 0 <= k < 9 ensures GroupOf(s, PropertyHeadPattern("int"), 16, ends, k) == None {
    }
  }

  /** `; public int Age {` follows the field name. */
  lemma AgePropertyHead(s: string)
    requires AgeLayout(s)
    ensures MatchAt(s, PropertyHeadPattern("int"), 16) == Some([17, 18, 24, 25, 28, 29, 32, 33, 34])
    ensures PropertyOpen(s, "int", 16) == 34 && PropertyName(s, "int", 16) == "Age"
  {
    AgePropertyHeadParse(s);
    PropertyHeadWellFormed("int");
    MatchAtComplete(s, PropertyHeadPattern("int"), 16, [17, 18, 24, 25, 28, 29, 32, 33, 34]);
    Sub(s, 17, AgeHead, 12, 15);
      assert AgeHead[12..15] == "Age" && AllIn("Age", Word);
  }

  // Token `k` of the getter `get { return _age; }` spans its place.
  lemma AgeGetterTokA(s: string, k: nat)
    requires |s| == 108 && s[39..58] == AgeGet && s[58] == '}' && k < 3
    ensures var ends: seq<nat> := [42, 43, 44, 45, 51, 52, 56, 57, 58, 59];
      StartOf(39, ends, k) <= ends[k] <= |s|
      && SpanOk(s, GetterReturnPattern[k], StartOf(39, ends, k), ends[k], None)
  {
    if k == 0 {
      Sub(s, 39, AgeGet, 0, 3);
      assert AgeGet[0..3] == "get";
    } else if k == 1 {
      Blank1(s, 39, AgeGet, 3);
    } else {
      Sub(s, 39, AgeGet, 4, 5);
      assert AgeGet[4..5] == "{";
    }
  }

  lemma AgeGetterTokB(s: string, k: nat)
    requires |s| == 108 && s[39..58] == AgeGet && s[58] == '}' && 3 <= k < 6
    ensures var ends: seq<nat> := [42, 43, 44, 45, 51, 52, 56, 57, 58, 59];
      StartOf(39, ends, k) <= ends[k] <= |s|
      && SpanOk(s, GetterReturnPattern[k], StartOf(39, ends, k), ends[k], None)
  {
    if k == 3 {
      Blank1(s, 39, AgeGet, 5);
    } else if k == 4 {
      Sub(s, 39, AgeGet, 6, 12);
      assert AgeGet[6..12] == "return";
    } else {
      Blank1(s, 39, AgeGet, 12);
    }
  }

  lemma AgeGetterTokC(s: string, k: nat)
    requires |s| == 108 && s[39..58] == AgeGet && s[58] == '}' && 6 <= k < 10
    ensures var ends: seq<nat> := [42, 43, 44, 45, 51, 52, 56, 57, 58, 59];
      StartOf(39, ends, k) <= ends[k] <= |s|
      && SpanOk(s, GetterReturnPattern[k], StartOf(39, ends, k), ends[k], None)
  {
    if k == 6 {
      Sub(s, 39, AgeGet, 13, 17);
      assert AgeGet[13..17] == "_age" && AllIn("_age", Word);
      SliceIn(s, 52, 56, Word);
    } else if k == 7 {
      Sub(s, 39, AgeGet, 17, 18);
      assert AgeGet[17..18] == ";";
    } else if k == 8 {
      Blank1(s, 39, AgeGet, 18);
    } else {
      assert s[58..59] == [s[58]];
    }
  }

  // The getter parses at 39.
  lemma AgeGetterParse(s: string)
    requires AgeLayout(s)
    ensures Parse(s, GetterReturnPattern, 39, [42, 43, 44, 45, 51, 52, 56, 57, 58, 59])
  {
    var ends: seq<nat> := [42, 43, 44, 45, 51, 52, 56, 57, 58, 59];
    forall k | 0 <= k < 10
      ensures StartOf(39, ends, k) <= ends[k] <= |s|
      ensures SpanOk(s, GetterReturnPattern[k], StartOf(39, ends, k), ends[k], None)
    {
      if k < 3 { AgeGetterTokA(s, k); } else if k < 6 { AgeGetterTokB(s, k); } else { AgeGetterTokC(s, k); }
    }
    forall k | 0 <= k < 10 ensures GroupOf(s, GetterReturnPattern, 39, ends, k) == None {
    }
  }

  /** `get { return _age; }` at 39 returns `_age` and ends at 59. */
  lemma AgeGetter(s: string)
    requires AgeLayout(s)
    ensures MatchAt(s, GetterReturnPattern, 39) == Some([42, 43, 44, 45, 51, 52, 56, 57, 58, 59])
    ensures GetterEnd(s, 39) == 59 && GetterName(s, 39) == "_age"
  {
    AgeGetterParse(s);
    GetterReturnWellFormed();
    MatchAtComplete(s, GetterReturnPattern, 39, [42, 43, 44, 45, 51, 52, 56, 57, 58, 59]);
    Sub(s, 39, AgeGet, 13, 17);
  }

  // `set {` at 64.
  lemma AgeSetterOpen(s: string)
    requires AgeLayout(s)
    ensures MatchAt(s, SetterOpenPattern, 64) == Some([67, 68, 69])
  {
    Sub(s, 64, AgeSetOpen, 0, 3);
    Sub(s, 64, AgeSetOpen, 3, 4);
    Sub(s, 64, AgeSetOpen, 4, 5);
    assert Parse(s, SetterOpenPattern, 64, [67, 68, 69]);
    SetterOpenWellFormed();
    MatchAtComplete(s, SetterOpenPattern, 64, [67, 68, 69]);
  }

  // `}` `}` with a line break between, at 105.
  lemma AgeClosePair(s: string)
    requires AgeLayout(s)
    ensures MatchAt(s, ClosePairPattern, 105) == Some([106, 107, 108])
  {
    Sub(s, 105, AgeClose, 0, 1);
    Sub(s, 105, AgeClose, 1, 2);
    Sub(s, 105, AgeClose, 2, 3);
    assert Parse(s, ClosePairPattern, 105, [106, 107, 108]);
    ClosePairWellFormed();
    MatchAtComplete(s, ClosePairPattern, 105, [106, 107, 108]);
  }

  // The first `}` from `a` on is at `b`.
  lemma FirstBrace(s: string, a: nat, b: nat)
    requires a <= b < |s| && s[b] == '}' && forall j :: a <= j < b ==> s[j] != '}'
    ensures IndexOfFrom(s, '}', a) == b
  {
  }

  // The setter body holds no `}`.
  lemma AgeBodyBraceFree(s: string)
    requires AgeLayout(s)
    ensures forall j :: 69 <= j < 105 ==> s[j] != '}'
  {
    assert !HasChar(AgeBody, '}');
    Chars(s, 69, AgeBody);
  }

  /** `set {` at 64 and `} }` at 105: the setter body is the text between. */
  lemma AgeSetter(s: string)
    requires AgeLayout(s)
    ensures SetterAt(s, 64) == Some((AgeBody, 108))
  {
    AgeSetterOpen(s);
    AgeClosePair(s);
    AgeBodyBraceFree(s);
    FirstBrace(s, 69, 105);
  }

  // ---------------------------------------------------------------------
  // The searches

  /** The highest position in `lo..p` where `f` has a value is `m`, so
      LastFrom finds the value at `m`. */
  lemma LastFromAt<T>(f: nat -> Option<T>, lo: nat, m: nat, p: nat)
    requires lo <= m <= p && f(m).Some? && forall k :: m < k <= p ==> f(k).None?
    ensures LastFrom(f, lo, p) == f(m)
  {
    var n := LastFromSpec(f, lo, p);
  }

  // No other getter starts before the `}` that closes the first one.
  lemma AgeOneGetter(s: string)
    requires AgeLayout(s)
    ensures forall k :: 39 < k <= 58 ==> GetterFn(s)(k).None?
  {
    Chars(s, 39, AgeGet);
    forall k | 39 < k <= 58 ensures GetterFn(s)(k).None? {
      assert !LitAt(s, k, "get") by {
        if k + 3 <= |s| {
          assert s[k..k + 3][0] == s[k] && s[k..k + 3][2] == s[k + 2];
        }
      }
      MatchFirstLit(s, GetterReturnPattern, k);
    }
  }

  // No other setter starts before the `}` that closes the first one.
  lemma AgeOneSetter(s: string)
    requires AgeLayout(s)
    ensures forall k :: 64 < k <= 105 ==> SetterFn(s)(k).None?
  {
    Chars(s, 64, AgeSetOpen);
    Chars(s, 69, AgeBody);
    Chars(s, 105, AgeClose);
    assert !HasChar(AgeBody, 's');
    forall k | 64 < k <= 105 ensures SetterFn(s)(k).None? {
      assert !LitAt(s, k, "set") by {
        if k + 3 <= |s| {
          assert s[k..k + 3][0] == s[k];
        }
      }
      MatchFirstLit(s, SetterOpenPattern, k);
    }
  }

  // The first `}` after the property head closes the getter.
  lemma AgeGetterGap(s: string)
    requires AgeLayout(s)
    ensures IndexOfFrom(s, '}', 34) == 58
  {
    Chars(s, 34, Indent);
    Chars(s, 39, AgeGet);
    FirstBrace(s, 34, 58);
  }

  // The first `}` after the getter closes the setter.
  lemma AgeSetterGap(s: string)
    requires AgeLayout(s)
    ensures IndexOfFrom(s, '}', 59) == 105
  {
    Chars(s, 59, Indent);
    Chars(s, 64, AgeSetOpen);
    AgeBodyBraceFree(s);
    FirstBrace(s, 59, 105);
  }

  /** The getter at 39, then the setter at 64: the field `_age` and the
      setter body. */
  lemma AgeGetterAt(s: string)
    requires AgeLayout(s)
    ensures GetterAt(s, 39) == Some(("_age", AgeBody, 108))
  {
    AgeGetter(s);
    AgeSetter(s);
    AgeSetterGap(s);
    AgeOneSetter(s);
    LastFromAt(SetterFn(s), 59, 64, 105);
  }

  /** After the field: the property `Age`, the field `_age` its getter
      returns, and the setter body. */
  lemma AgePropertyAfterField(s: string)
    requires AgeLayout(s)
    ensures PropertyAfterField(s, "int", 16) == Some(("Age", "_age", AgeBody, 108))
  {
    AgePropertyHead(s);
    AgeGetterGap(s);
    AgeOneGetter(s);
    AgeGetterAt(s);
    LastFromAt(GetterFn(s), 34, 39, 58);
  }

  // ---------------------------------------------------------------------
  // The backing-field rule on the block

  /** At 8 the field `int _age` and its property match, without an
      initializer. */
  lemma AgeBackingAt(s: string)
    requires AgeLayout(s)
    ensures BackingAt(s, 8) == Some(BackingMatch("int", "_age", "Age", None, AgeBody))
  {
    AgeFieldHead(s);
    WsEndExact(s, 16, 16);
    assert InitStart(s, 8).None?;
    AgePropertyAfterField(s);
  }

  // No field head starts at the blank before the type.
  lemma AgeNoHeadAt7(s: string)
    requires AgeLayout(s)
    ensures MatchAt(s, FieldHeadPattern, 7).None?
  {
    Chars(s, 0, AgeDecl);
    ClassEndExact(s, 7, 7, TypeName);
    assert PrefixOk(s, FieldHeadPattern, 7, []);
  }

  // From inside `private` the field head is `private int` (or a suffix of
  // it) and ends at the blank before `_age`.
  lemma AgeHeadInsideModifier(s: string, i: nat)
    requires AgeLayout(s) && i < 7
    ensures MatchAt(s, FieldHeadPattern, i) == Some([7, 8, 11])
  {
    Chars(s, 0, AgeDecl);
    FieldHeadToks(s, i, 7, 11);
    FieldHeadMatch(s, i, 7, 8, 11);
  }

  // A property head needs the `;` that ends the field declaration.
  lemma NoPropertyWithoutSemicolon(s: string, ty: string, c: nat)
    requires c < |s| && s[c] != ';'
    ensures PropertyAfterField(s, ty, c).None?
  {
    MatchFirstLit(s, PropertyHeadPattern(ty), c);
    assert !LitAt(s, c, ";") by {
      if c + 1 <= |s| { assert s[c..c + 1][0] == s[c]; }
    }
  }

  // From inside `private`, the name `int` is followed by a blank and `_`:
  // neither `=` nor `;`.
  lemma AgeInsideModifierNoInit(s: string, i: nat)
    requires AgeLayout(s) && i < 7
    ensures MatchAt(s, FieldHeadPattern, i).Some? && NameEnd(s, i) == 11
    ensures InitSearch(s, i).None?
  {
    AgeHeadInsideModifier(s, i);
    assert NameEnd(s, i) == 11;
    assert s[11] == ' ' && s[12] == '_' by {
      Sub(s, 0, AgeDecl, 11, 13);
      assert AgeDecl[11..13] == " _";
    }
    WsEndExact(s, 11, 12);
    assert InitStart(s, i).None?;
  }

  // ... and is followed neither by `=` nor by `;`.
  lemma AgeNoBackingInsideModifier(s: string, i: nat)
    requires AgeLayout(s) && i < 7
    ensures BackingAt(s, i).None?
  {
    AgeInsideModifierNoInit(s, i);
    Chars(s, 0, AgeDecl);
    NoPropertyWithoutSemicolon(s, FieldType(s, i), 11);
    assert PlainMatch(s, i).None?;
  }

  /** The backing-field pattern matches nowhere before 8. */
  lemma AgeFirstBacking(s: string)
    requires AgeLayout(s)
    ensures forall i :: 0 <= i < 8 ==> BackingAt(s, i).None?
  {
    forall i | 0 <= i < 8 ensures BackingAt(s, i).None? {
      if i < 7 {
        AgeNoBackingInsideModifier(s, i);
      } else {
        AgeNoHeadAt7(s);
      }
    }
  }

  /** The leftmost search from `i` finds the match at `j` when nothing
      matches before it. */
  lemma FindBackingReaches(s: string, i: nat, j: nat, m: BackingMatch)
    requires i <= j <= |s| && BackingAt(s, j) == Some(m)
    requires forall k :: i <= k < j ==> BackingAt(s, k).None?
    ensures FindBacking(s, i) == Some((j, m))
  {
    var r := FindBacking(s, i);
    assert r.Some?;
    assert r.value.0 == j;
  }

  // Where a setter body with one plain call has its `O`s.
  lemma PlainCallLayout(s: string, pre: string, post: string)
    requires s == pre + "OnPropertyChanged()" + post && !HasChar(pre, 'O') && !HasChar(post, 'O')
    ensures s[|pre|..|pre| + 19] == "OnPropertyChanged()"
    ensures forall k :: 0 <= k < |s| && k != |pre| ==> s[k] != 'O'
  {
    var call := "OnPropertyChanged()";
    assert !HasChar(call[1..], 'O');
    forall k | 0 <= k < |s| && k != |pre| ensures s[k] != 'O' {
      if k < |pre| {
        assert s[k] == pre[k];
      } else if k < |pre| + 19 {
        assert s[k] == call[1..][k - |pre| - 1];
      } else {
        assert s[k] == post[k - |pre| - 19];
      }
    }
  }

  /** A setter body whose one call is a plain `OnPropertyChanged()` holds
      no call either notifying form recognises. */
  lemma PlainCallOnly(s: string, pre: string, post: string)
    requires s == pre + "OnPropertyChanged()" + post && !HasChar(pre, 'O') && !HasChar(post, 'O')
    ensures forall k :: 0 <= k < |s| ==> NotifyCallAt(s, k).None?
  {
    PlainCallLayout(s, pre, post);
    PlainCallsNone(s, |pre|, |s|);
  }

  // No call either notifying form recognises starts in the setter body.
  lemma AgeBodyCalls()
    ensures |AgeBody| == 36 && forall k :: 0 <= k < 36 ==> NotifyCallAt(AgeBody, k).None?
  {
    PlainCallOnly(AgeBody, " _age = value; ", "; ");
  }

  /** The setter's plain `OnPropertyChanged()` names no dependent
      property. */
  lemma AgeNoDependents()
    ensures DependentProperties(AgeBody, "Age") == []
  {
    AgeBodyCalls();
    NamesSkip(AgeBody, 0, 36);
    NamesAtEnd(AgeBody);
  }

  /** The backing-field rule reports the block as a full property with a
      backing field: type `int`, field `_age`, property `Age`, no
      dependent property and no initial value. */
  lemma AgeBackingRule()
    ensures BackingRule(AgeText)
      == Some(PropertyInfo(Some("int"), Some("_age"), Some("Age"), Some("FullWithBacking"), [], None, None))
  {
    AgeTextLayout();
    AgeBackingAt(AgeText);
    AgeFirstBacking(AgeText);
    FindBackingReaches(AgeText, 0, 8, BackingMatch("int", "_age", "Age", None, AgeBody));
    AgeNoDependents();
  }

  /** Although the setter calls `OnPropertyChanged()`, the block is
      reported as `FullWithBacking`: the backing-field rule is tried first
      and matches. */
  lemma AgeFullBlock()
    ensures MatchFullPropertyBlock(AgeText, AgeText)
      == Some(PropertyInfo(Some("int"), Some("_age"), Some("Age"), Some("FullWithBacking"), [], None, None))
  {
    AgeBackingRule();
  }
}
