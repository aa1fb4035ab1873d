/** The patterns of SsRefactor/PropertyRegexHelper.cs written as token
    lists (see module Tokens), with the proof that each is well formed, so
    the token matcher finds exactly the match and the captures the .NET
    engine does. `\w` and `[a-zA-Z0-9_]` are the class `Word`; the type
    class `[\w<>,\[\]\.\?]` is `TypeName`. */
module PropertyPatterns {
  import opened Text
  import opened Tokens

  /** The alternation of access modifiers the Auto and full rules start with. */
  const Visibilities: seq<string> := ["public", "private", "protected", "internal"]

  /** `[ObservableProperty]`, `private`, a type and an underscore-prefixed
      field name, then `;`. */
  const ObservablePattern: seq<Tok> :=
    [Lit("[ObservableProperty]"), Space(false), Lit("private"), Space(true), Run(TypeName),
     Space(true), Lit("_"), Run(Word), Lit(";")]
  const ObservableType := 4
  const ObservableName := 7

  /** An access modifier, a type, a name and `{ get; set; }`. */
  const AutoPattern: seq<Tok> :=
    [OneOf(Visibilities), Space(true), Run(TypeName), Space(true), Run(Word), Space(false),
     Lit("{"), Space(false), Lit("get;"), Space(false), Lit("set;"), Space(false), Lit("}")]
  const AutoType := 2
  const AutoName := 4

  /** A property whose getter is `get => f;` and whose setter is
      `set => SetProperty(ref g, value);` (g is not tied to f). */
  const ExpressionBodiedPattern: seq<Tok> :=
    [OneOf(Visibilities), Space(true), Run(TypeName), Space(true), Run(Word), Space(false),
     Lit("{"), Space(false), Lit("get"), Space(false), Lit("=>"), Space(false), Run(Word),
     Lit(";"), Space(false), Lit("set"), Space(false), Lit("=>"), Space(false),
     Lit("SetProperty(ref"), Space(true), Run(Word), Lit(","), Space(false), Lit("value);"),
     Space(false), Lit("}")]
  const ExpressionType := 2
  const ExpressionName := 4
  const ExpressionField := 12

  /** A property whose getter returns a field f and whose setter assigns
      `f = value;` and then calls `call()`, the `;` after the call being
      optional. Token 23 repeats the field the getter returned. */
  function NotifierPattern(call: string): seq<Tok> {
    [OneOf(Visibilities), Space(true), Run(TypeName), Space(true), Run(Word), Space(false),
     Lit("{"), Space(false), Lit("get"), Space(false), Lit("{"), Space(false), Lit("return"),
     Space(true), Run(Word), Lit(";"), Space(false), Lit("}"), Space(false), Lit("set"),
     Space(false), Lit("{"), Space(false), Same(14), Space(false), Lit("="), Space(false),
     Lit("value;"), Space(false), Lit(call), Space(false), Lit("("), Space(false), Lit(")"),
     SemiGap, Lit("}"), Space(false), Lit("}")]
  }
  const PrismPattern: seq<Tok> := NotifierPattern("RaisePropertyChanged")
  const NotifyPattern: seq<Tok> := NotifierPattern("OnPropertyChanged")
  const NotifierType := 2
  const NotifierName := 4
  const NotifierField := 14
  const NotifierAssigned := 23

  /** `OnPropertyChanged(nameof(X))`, spaces allowed around each token. */
  const NameofCallPattern: seq<Tok> :=
    [Lit("OnPropertyChanged"), Space(false), Lit("("), Space(false), Lit("nameof"),
     Space(false), Lit("("), Space(false), Run(Word), Space(false), Lit(")"), Space(false),
     Lit(")")]
  const NameofCallName := 8

  /** `OnPropertyChanged("X")`, the same call with a string literal. */
  const QuotedCallPattern: seq<Tok> :=
    [Lit("OnPropertyChanged"), Space(false), Lit("("), Space(false), Lit("\""), Run(Word),
     Lit("\""), Space(false), Lit(")")]
  const QuotedCallName := 5

  /** The start of the general full rule: modifier, type, name and `{`. */
  const FullHeadPattern: seq<Tok> :=
    [OneOf(Visibilities), Space(true), Run(TypeName), Space(true), Run(Word), Space(false),
     Lit("{")]
  const FullHeadType := 2
  const FullHeadName := 4

  /** The start of the backing-field rule: a field type and a field name.
      The regex continues with `\s*=` or `;`, neither a word character, so
      the name run cannot give anything back. */
  const FieldHeadPattern: seq<Tok> := [Run(TypeName), Space(true), Run(Word)]

  /** After the field declaration: `;`, then `public`, the field's own type
      text and the property name, then `{`. */
  function PropertyHeadPattern(ty: string): seq<Tok> {
    [Lit(";"), Space(false), Lit("public"), Space(true), Lit(ty), Space(true), Run(Word),
     Space(false), Lit("{")]
  }
  const PropertyHeadName := 6

  /** `get { return f; }` */
  const GetterReturnPattern: seq<Tok> :=
    [Lit("get"), Space(false), Lit("{"), Space(false), Lit("return"), Space(true), Run(Word),
     Lit(";"), Space(false), Lit("}")]
  const GetterField := 6

  /** `set {` */
  const SetterOpenPattern: seq<Tok> := [Lit("set"), Space(false), Lit("{")]

  /** `} }`, the setter's and the property's closing braces. */
  const ClosePairPattern: seq<Tok> := [Lit("}"), Space(false), Lit("}")]

  // ---------------------------------------------------------------------
  // Well-formedness

  lemma VisibilitiesPrefixFree()
    ensures PrefixFree(Visibilities)
  {
    forall w1, w2 | w1 in Visibilities && w2 in Visibilities && |w1| < |w2|
      ensures w1 != w2[..|w1|]
    {
      assert w1[0] != w2[0] || w1[1] != w2[1] || w1[2] != w2[2];
    }
  }

  /** No character can both extend `t`, a whitespace run, a class run or a
      semicolon gap, and start `u`: a literal must start with a character
      that stops `t`, and a class run never meets whitespace or `;`. */
  predicate Separated(t: Tok, u: Tok) {
    match u
    case Lit(x) => |x| > 0 && Stops(t, x[0])
    case Space(_) => t.Run?
    case Run(_) => t.Space? || t.SemiGap?
    case Same(_) => t.Space? || t.SemiGap?
    case SemiGap => t.Run?
    case OneOf(_) => false
  }

  lemma SeparatedSound(t: Tok, u: Tok, g: CharClass, h: CharClass, c: char)
    requires t.Space? || t.Run? || t.SemiGap?
    requires Separated(t, u) && FirstOk(t, g, c)
    ensures !FirstOk(u, h, c)
  {
    match u
    case Lit(x) =>
    case Space(_) => ClassesExcludeWs(c, t.cls);
    case SemiGap => ClassesExcludeWs(c, t.cls);
    case Run(cl) => if InClass(c, cl) { ClassesExcludeWs(c, cl); }
    case Same(_) => if InClass(c, h) { ClassesExcludeWs(c, h); }
  }

  /** Token `k` of `P` is well formed: what it can consume cannot start the
      rest of the pattern. */
  lemma TokWfAt(P: seq<Tok>, k: nat)
    requires k < |P|
    requires P[k].OneOf? ==> P[k].words == Visibilities
    requires P[k].Space? || P[k].Run? || P[k].SemiGap? ==>
      k + 1 < |P| && Separated(P[k], P[k + 1]) &&
      (Nullable(P[k + 1]) ==> k + 2 < |P| && !Nullable(P[k + 2]) && Separated(P[k], P[k + 2]))
    requires P[k].Lit? ==> |P[k].text| > 0
    requires P[k].Same? ==> P[k].group < k && P[P[k].group].Run?
    ensures TokWf(P, k)
  {
    if P[k].OneOf? {
      VisibilitiesPrefixFree();
    } else if P[k].Space? || P[k].Run? || P[k].SemiGap? {
      if Nullable(P[k + 1]) {
        StartNullable(P, k + 1);
      } else {
        StartNonNullable(P, k + 1);
      }
      forall c | FirstOk(P[k], GroupClass(P, k), c) ensures !CanStart(P, k + 1, c) {
        SeparatedSound(P[k], P[k + 1], GroupClass(P, k), GroupClass(P, k + 1), c);
        if Nullable(P[k + 1]) {
          SeparatedSound(P[k], P[k + 2], GroupClass(P, k), GroupClass(P, k + 2), c);
        }
      }
      match P[k]
      case Space(_) =>
        assert forall c :: IsWs(c) ==> FirstOk(P[k], GroupClass(P, k), c);
      case Run(cl) =>
        assert forall c :: InClass(c, cl) ==> FirstOk(P[k], GroupClass(P, k), c);
      case SemiGap =>
        assert forall c :: IsWs(c) || c == ';' ==> FirstOk(P[k], GroupClass(P, k), c);
    }
  }

  lemma ObservableWellFormed()
    ensures WellFormed(ObservablePattern)
  {
    forall k | 0 <= k < |ObservablePattern| ensures TokWf(ObservablePattern, k) {
      TokWfAt(ObservablePattern, k);
    }
  }

  lemma AutoWellFormed()
    ensures WellFormed(AutoPattern)
  {
    forall k | 0 <= k < |AutoPattern| ensures TokWf(AutoPattern, k) {
      TokWfAt(AutoPattern, k);
    }
  }

  lemma ExpressionBodiedWellFormed()
    ensures WellFormed(ExpressionBodiedPattern)
  {
    ExpressionBodiedFixedWf();
    ExpressionBodiedRunsWf();
    ExpressionBodiedSpacesWf();
  }

  // The literals and the modifier.
  lemma ExpressionBodiedFixedWf()
    ensures var P := ExpressionBodiedPattern;
      forall k :: 0 <= k < |P| && !(P[k].Space? || P[k].Run?) ==> TokWf(P, k)
  {
    var P := ExpressionBodiedPattern;
    forall k | 0 <= k < |P| && !(P[k].Space? || P[k].Run?) ensures TokWf(P, k) {
      TokWfAt(P, k);
    }
  }

  // The required whitespace and the type and name runs.
  lemma ExpressionBodiedRunsWf()
    ensures var P := ExpressionBodiedPattern;
      forall k :: 0 <= k < |P| && (P[k] == Space(true) || P[k].Run?) ==> TokWf(P, k)
  {
    var P := ExpressionBodiedPattern;
    forall k | 0 <= k < |P| && (P[k] == Space(true) || P[k].Run?) ensures TokWf(P, k) {
      TokWfAt(P, k);
    }
  }

  // The optional whitespace between the tokens.
  lemma ExpressionBodiedSpacesWf()
    ensures var P := ExpressionBodiedPattern;
      forall k :: 0 <= k < |P| && P[k] == Space(false) ==> TokWf(P, k)
  {
    var P := ExpressionBodiedPattern;
    forall k | 0 <= k < |P| && P[k] == Space(false) ensures TokWf(P, k) {
      TokWfAt(P, k);
    }
  }

  lemma NotifierWellFormed(call: string)
    requires call != [] && !IsWs(call[0])
    ensures WellFormed(NotifierPattern(call))
  {
    var P := NotifierPattern(call);
    NotifierFixedWf(call);
    NotifierOptionalSpacesWf(call);
    NotifierSpacesWf(call);
    NotifierRunsWf(call);
    assert forall k :: 0 <= k < |P| ==> TokWf(P, k);
  }

  // The literals, the modifier and the back-reference.
  lemma NotifierFixedWf(call: string)
    requires call != [] && !IsWs(call[0])
    ensures var P := NotifierPattern(call);
      forall k :: 0 <= k < 38 && !(P[k].Space? || P[k].Run? || P[k].SemiGap?) ==> TokWf(P, k)
  {
    var P := NotifierPattern(call);
    forall k | 0 <= k < 38 && !(P[k].Space? || P[k].Run? || P[k].SemiGap?) ensures TokWf(P, k) {
      TokWfAt(P, k);
    }
  }

  // The optional whitespace between the tokens.
  lemma NotifierOptionalSpacesWf(call: string)
    requires call != [] && !IsWs(call[0])
    ensures var P := NotifierPattern(call);
      forall k :: 0 <= k < 38 && P[k] == Space(false) ==> TokWf(P, k)
  {
    var P := NotifierPattern(call);
    forall k | 0 <= k < 38 && P[k] == Space(false) ensures TokWf(P, k) {
      TokWfAt(P, k);
    }
  }

  // The required whitespace.
  lemma NotifierSpacesWf(call: string)
    requires call != [] && !IsWs(call[0])
    ensures var P := NotifierPattern(call);
      forall k :: 0 <= k < 38 && P[k] == Space(true) ==> TokWf(P, k)
  {
    var P := NotifierPattern(call);
    forall k | 0 <= k < 38 && P[k] == Space(true) ensures TokWf(P, k) {
      TokWfAt(P, k);
    }
  }

  // The type and name runs and the gap before `}`.
  lemma NotifierRunsWf(call: string)
    requires call != [] && !IsWs(call[0])
    ensures var P := NotifierPattern(call);
      forall k :: 0 <= k < 38 && (P[k].Run? || P[k].SemiGap?) ==> TokWf(P, k)
  {
    var P := NotifierPattern(call);
    forall k | 0 <= k < 38 && (P[k].Run? || P[k].SemiGap?) ensures TokWf(P, k) {
      TokWfAt(P, k);
    }
  }

  lemma PrismWellFormed()
    ensures WellFormed(PrismPattern)
  {
    NotifierWellFormed("RaisePropertyChanged");
  }

  lemma NotifyWellFormed()
    ensures WellFormed(NotifyPattern)
  {
    NotifierWellFormed("OnPropertyChanged");
  }

  lemma NameofCallWellFormed()
    ensures WellFormed(NameofCallPattern)
  {
    forall k | 0 <= k < |NameofCallPattern| ensures TokWf(NameofCallPattern, k) {
      TokWfAt(NameofCallPattern, k);
    }
  }

  lemma QuotedCallWellFormed()
    ensures WellFormed(QuotedCallPattern)
  {
    forall k | 0 <= k < |QuotedCallPattern| ensures TokWf(QuotedCallPattern, k) {
      TokWfAt(QuotedCallPattern, k);
    }
  }

  lemma FullHeadWellFormed()
    ensures WellFormed(FullHeadPattern)
  {
    forall k | 0 <= k < |FullHeadPattern| ensures TokWf(FullHeadPattern, k) {
      TokWfAt(FullHeadPattern, k);
    }
  }

  lemma GetterReturnWellFormed()
    ensures WellFormed(GetterReturnPattern)
  {
    forall k | 0 <= k < |GetterReturnPattern| ensures TokWf(GetterReturnPattern, k) {
      TokWfAt(GetterReturnPattern, k);
    }
  }

  lemma SetterOpenWellFormed()
    ensures WellFormed(SetterOpenPattern)
  {
    forall k | 0 <= k < |SetterOpenPattern| ensures TokWf(SetterOpenPattern, k) {
      TokWfAt(SetterOpenPattern, k);
    }
  }

  lemma ClosePairWellFormed()
    ensures WellFormed(ClosePairPattern)
  {
    forall k | 0 <= k < |ClosePairPattern| ensures TokWf(ClosePairPattern, k) {
      TokWfAt(ClosePairPattern, k);
    }
  }

  lemma PropertyHeadWellFormed(ty: string)
    requires ty != [] && !IsWs(ty[0])
    ensures WellFormed(PropertyHeadPattern(ty))
  {
    forall k | 0 <= k < |PropertyHeadPattern(ty)| ensures TokWf(PropertyHeadPattern(ty), k) {
      TokWfAt(PropertyHeadPattern(ty), k);
    }
  }

  lemma ObservableFound(s: string)
    ensures Find(s, ObservablePattern, 0).Some? <==> Occurs(s, ObservablePattern)
  {
    ObservableWellFormed();
    FindIffOccurs(s, ObservablePattern);
  }

  lemma AutoFound(s: string)
    ensures Find(s, AutoPattern, 0).Some? <==> Occurs(s, AutoPattern)
  {
    AutoWellFormed();
    FindIffOccurs(s, AutoPattern);
  }

  lemma AutoShape()
    ensures |AutoPattern| > AutoName
    ensures AutoPattern[AutoType] == Run(TypeName) && AutoPattern[AutoName] == Run(Word)
  {
  }

  lemma NotifierShape(call: string)
    ensures |NotifierPattern(call)| > NotifierAssigned
    ensures NotifierPattern(call)[NotifierType] == Run(TypeName)
    ensures NotifierPattern(call)[NotifierName] == Run(Word)
    ensures NotifierPattern(call)[NotifierField] == Run(Word)
    ensures NotifierPattern(call)[NotifierAssigned] == Same(NotifierField)
  {
  }

  lemma ExpressionBodiedShape()
    ensures |ExpressionBodiedPattern| > ExpressionField
    ensures ExpressionBodiedPattern[ExpressionType] == Run(TypeName)
    ensures ExpressionBodiedPattern[ExpressionName] == Run(Word)
    ensures ExpressionBodiedPattern[ExpressionField] == Run(Word)
  {
  }

  lemma ExpressionBodiedFound(s: string)
    ensures Find(s, ExpressionBodiedPattern, 0).Some? <==> Occurs(s, ExpressionBodiedPattern)
  {
    ExpressionBodiedWellFormed();
    FindIffOccurs(s, ExpressionBodiedPattern);
  }

  lemma NotifierFound(s: string, call: string)
    requires call == "RaisePropertyChanged" || call == "OnPropertyChanged"
    ensures Find(s, NotifierPattern(call), 0).Some? <==> Occurs(s, NotifierPattern(call))
  {
    NotifierWellFormed(call);
    FindIffOccurs(s, NotifierPattern(call));
  }
}
