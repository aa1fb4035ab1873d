/** The deterministic fragment of .NET regular expressions that the
    recognisers are written in: a pattern is a sequence of tokens (a literal,
    an alternation of literals, `\s*` / `\s+`, a character-class run `[...]+`,
    a back-reference `\N` to an earlier run, and `\s*;?\s*`).

    `Parse` says declaratively which texts a pattern matches at a position
    and where each token ends; `MatchAt` is the matcher. `MatchAt` is sound
    for every pattern, and for a well-formed pattern (no run can give back a
    character the next token could use) it is also complete and the parse is
    unique, so the .NET engine's backtracking can produce no other match and
    no other captures. `Find` is the leftmost match, as `Regex.Match` returns. */
module Tokens {
  import opened Wrappers
  import opened Text

  /** `\w` restricted to ASCII, which is also `[a-zA-Z0-9_]`. */
  predicate IsWord(c: char) {
    ('a' <= c <= 'z') || ('A' <= c <= 'Z') || ('0' <= c <= '9') || c == '_'
  }

  datatype CharClass =
    | Word      // [\w_] and [a-zA-Z0-9_]
    | TypeName  // [\w<>,\[\]\.\?] and [a-zA-Z0-9_<>,\[\]\.\?]
    | CmdType   // [\w<>\[\]\.]

  predicate InClass(c: char, k: CharClass) {
    match k
    case Word => IsWord(c)
    case TypeName => IsWord(c) || c in "<>,[].?"
    case CmdType => IsWord(c) || c in "<>[]."
  }

  lemma ClassesExcludeWs(c: char, k: CharClass)
    requires InClass(c, k)
    ensures !IsWs(c) && c != ';' && c != '{' && c != '}' && c != '(' && c != ')' && c != '='
  {
  }

  datatype Tok =
    | Lit(text: string)          // the literal text
    | OneOf(words: seq<string>)  // (w1|w2|...)
    | Space(atLeastOne: bool)    // \s+ when atLeastOne, else \s*
    | Run(cls: CharClass)        // [cls]+, a capturing group
    | Same(group: nat)           // \N: the text the run at token N captured
    | SemiGap                    // \s*;?\s*

  /** The end of the longest whitespace run starting at `i`. */
  function WsEnd(s: string, i: nat): (e: nat)
    requires i <= |s|
    ensures i <= e <= |s| && Blank(s[i..e])
    ensures e == |s| || !IsWs(s[e])
    decreases |s| - i
  {
    if i == |s| || !IsWs(s[i]) then i
    else
      var e := WsEnd(s, i + 1);
      assert s[i..e] == [s[i]] + s[i + 1..e];
      e
  }

  /** The end of the longest run of `k` characters starting at `i`. */
  function ClassEnd(s: string, i: nat, k: CharClass): (e: nat)
    requires i <= |s|
    ensures i <= e <= |s| && (forall j :: i <= j < e ==> InClass(s[j], k))
    ensures e == |s| || !InClass(s[e], k)
    decreases |s| - i
  {
    if i == |s| || !InClass(s[i], k) then i else ClassEnd(s, i + 1, k)
  }

  lemma {:induction false} WsEndExact(s: string, a: nat, b: nat)
    requires a <= b <= |s| && Blank(s[a..b])
    requires b == |s| || !IsWs(s[b])
    ensures WsEnd(s, a) == b
    decreases b - a
  {
    if a < b {
      assert IsWs(s[a..b][0]);
      assert s[a + 1..b] == s[a..b][1..];
      WsEndExact(s, a + 1, b);
    }
  }

  lemma {:induction false} ClassEndExact(s: string, a: nat, b: nat, k: CharClass)
    requires a <= b <= |s| && (forall j :: a <= j < b ==> InClass(s[j], k))
    requires b == |s| || !InClass(s[b], k)
    ensures ClassEnd(s, a, k) == b
    decreases b - a
  {
    if a < b {
      ClassEndExact(s, a + 1, b, k);
    }
  }

  /** `\s*;?\s*` as a set of texts: whitespace and at most one semicolon. */
  predicate WsSemi(t: string) {
    && (forall j :: 0 <= j < |t| ==> IsWs(t[j]) || t[j] == ';')
    && (forall j, m :: 0 <= j < m < |t| && t[j] == ';' ==> t[m] != ';')
  }

  /** Whether `s[a..b]` is an instance of token `t`; `group` is the text of
      the group a back-reference names. */
  predicate SpanOk(s: string, t: Tok, a: nat, b: nat, group: Option<string>)
    requires a <= b <= |s|
  {
    match t
    case Lit(x) => s[a..b] == x
    case OneOf(ws) => s[a..b] in ws
    case Space(one) => Blank(s[a..b]) && (one ==> a < b)
    case Run(k) => a < b && forall j :: a <= j < b ==> InClass(s[j], k)
    case Same(_) => group.Some? && s[a..b] == group.value
    case SemiGap => WsSemi(s[a..b])
  }

  /** The first alternative, in order, that occurs at `a`. */
  function FirstWord(s: string, a: nat, ws: seq<string>): (r: Option<nat>)
    requires a <= |s|
    ensures r.Some? ==> a <= r.value <= |s| && s[a..r.value] in ws
    ensures r.None? ==> forall w :: w in ws ==> !LitAt(s, a, w)
  {
    if ws == [] then None
    else if LitAt(s, a, ws[0]) then Some(a + |ws[0]|)
    else FirstWord(s, a, ws[1..])
  }

  /** Matches one token at `a` and returns where it ends. */
  function MatchTok(s: string, t: Tok, a: nat, group: Option<string>): (r: Option<nat>)
    requires a <= |s|
    ensures r.Some? ==> a <= r.value <= |s| && SpanOk(s, t, a, r.value, group)
  {
    match t
    case Lit(x) => if LitAt(s, a, x) then Some(a + |x|) else None
    case OneOf(ws) => FirstWord(s, a, ws)
    case Space(one) =>
      var e := WsEnd(s, a);
      if one && e == a then None else Some(e)
    case Run(k) =>
      var e := ClassEnd(s, a, k);
      if e == a then None else Some(e)
    case Same(_) =>
      if group.Some? && LitAt(s, a, group.value) then Some(a + |group.value|) else None
    case SemiGap =>
      var e := WsEnd(s, a);
      if e < |s| && s[e] == ';' then
        var f := WsEnd(s, e + 1);
        SemiGapJoin(s, a, e, f);
        Some(f)
      else
        Some(e)
  }

  // Blanks around one semicolon make a semicolon gap.
  lemma SemiGapJoin(s: string, a: nat, e: nat, f: nat)
    requires a <= e < f <= |s| && s[e] == ';' && Blank(s[a..e]) && Blank(s[e + 1..f])
    ensures WsSemi(s[a..f])
  {
    var t := s[a..f];
    assert t[e - a] == ';';
    forall j | 0 <= j < |t| && j != e - a ensures IsWs(t[j]) {
      if a + j < e { assert t[j] == s[a..e][j]; }
      else { assert t[j] == s[e + 1..f][a + j - e - 1]; }
    }
  }

  /** Where token `k` starts: the match start, or the end of token `k - 1`. */
  function StartOf(a0: nat, ends: seq<nat>, k: nat): nat
    requires k <= |ends|
  {
    if k == 0 then a0 else ends[k - 1]
  }

  /** The token ends are in order and inside `s`. */
  predicate Bounded(s: string, a0: nat, ends: seq<nat>) {
    a0 <= |s| && forall k :: 0 <= k < |ends| ==> StartOf(a0, ends, k) <= ends[k] <= |s|
  }

  /** The text token `j` spans. */
  function Span(s: string, a0: nat, ends: seq<nat>, j: nat): string
    requires Bounded(s, a0, ends) && j < |ends|
  {
    s[StartOf(a0, ends, j)..ends[j]]
  }

  /** The text a back-reference at token `k` must repeat, once the group it
      names has been matched. */
  function GroupOf(s: string, toks: seq<Tok>, a0: nat, ends: seq<nat>, k: nat): Option<string>
    requires Bounded(s, a0, ends) && k < |toks|
  {
    if toks[k].Same? && toks[k].group < k && toks[k].group < |ends|
    then Some(Span(s, a0, ends, toks[k].group))
    else None
  }

  /** The first `|ends|` tokens of `toks` match at `a0` ending at `ends`. */
  predicate PrefixOk(s: string, toks: seq<Tok>, a0: nat, ends: seq<nat>) {
    && |ends| <= |toks|
    && Bounded(s, a0, ends)
    && forall k :: 0 <= k < |ends| ==>
         SpanOk(s, toks[k], StartOf(a0, ends, k), ends[k], GroupOf(s, toks, a0, ends, k))
  }

  /** The whole pattern matches at `a0`, token `k` spanning
      `s[StartOf(a0, ends, k)..ends[k]]`. */
  predicate Parse(s: string, toks: seq<Tok>, a0: nat, ends: seq<nat>) {
    |ends| == |toks| && PrefixOk(s, toks, a0, ends)
  }

  lemma PrefixOkExtend(s: string, toks: seq<Tok>, a0: nat, ends: seq<nat>, e: nat)
    requires PrefixOk(s, toks, a0, ends) && |ends| < |toks|
    requires StartOf(a0, ends, |ends|) <= e <= |s|
    requires SpanOk(s, toks[|ends|], StartOf(a0, ends, |ends|), e, GroupOf(s, toks, a0, ends, |ends|))
    ensures PrefixOk(s, toks, a0, ends + [e])
  {
    var ends' := ends + [e];
    ExtendBounded(s, a0, ends, e);
    forall k | 0 <= k < |ends'|
      ensures SpanOk(s, toks[k], StartOf(a0, ends', k), ends'[k], GroupOf(s, toks, a0, ends', k))
    {
      ExtendTok(s, toks, a0, ends, e, k);
    }
  }

  // One token of the extended prefix still spans what it did.
  lemma ExtendTok(s: string, toks: seq<Tok>, a0: nat, ends: seq<nat>, e: nat, k: nat)
    requires PrefixOk(s, toks, a0, ends) && |ends| < |toks| && Bounded(s, a0, ends + [e]) && k <= |ends|
    requires StartOf(a0, ends, |ends|) <= e <= |s|
    requires SpanOk(s, toks[|ends|], StartOf(a0, ends, |ends|), e, GroupOf(s, toks, a0, ends, |ends|))
    ensures SpanOk(s, toks[k], StartOf(a0, ends + [e], k), (ends + [e])[k], GroupOf(s, toks, a0, ends + [e], k))
  {
    ExtendStart(a0, ends, e, k);
    ExtendGroup(s, toks, a0, ends, e, k);
  }

  // Appending an end no smaller than the last keeps the ends in order.
  lemma ExtendBounded(s: string, a0: nat, ends: seq<nat>, e: nat)
    requires Bounded(s, a0, ends) && StartOf(a0, ends, |ends|) <= e <= |s|
    ensures Bounded(s, a0, ends + [e])
  {
    forall k | 0 <= k <= |ends|
      ensures StartOf(a0, ends + [e], k) <= (ends + [e])[k] <= |s|
    {
      ExtendStart(a0, ends, e, k);
    }
  }

  // Appending an end leaves the earlier token starts and ends alone.
  lemma ExtendStart(a0: nat, ends: seq<nat>, e: nat, k: nat)
    requires k <= |ends|
    ensures StartOf(a0, ends + [e], k) == StartOf(a0, ends, k)
    ensures k < |ends| ==> (ends + [e])[k] == ends[k]
    ensures (ends + [e])[|ends|] == e
  {
  }

  // Appending an end leaves the text every back-reference repeats alone.
  lemma ExtendGroup(s: string, toks: seq<Tok>, a0: nat, ends: seq<nat>, e: nat, k: nat)
    requires Bounded(s, a0, ends) && Bounded(s, a0, ends + [e]) && k <= |ends| && k < |toks|
    ensures GroupOf(s, toks, a0, ends + [e], k) == GroupOf(s, toks, a0, ends, k)
  {
    if toks[k].Same? && toks[k].group < k {
      var g := toks[k].group;
      ExtendStart(a0, ends, e, g);
      assert Span(s, a0, ends + [e], g) == Span(s, a0, ends, g);
    }
  }

  /** Matches the remaining tokens after the ones `ends` already matched. */
  function MatchFrom(s: string, toks: seq<Tok>, a0: nat, ends: seq<nat>): (r: Option<seq<nat>>)
    requires PrefixOk(s, toks, a0, ends)
    ensures r.Some? ==> Parse(s, toks, a0, r.value) && r.value[..|ends|] == ends
    decreases |toks| - |ends|
  {
    if |ends| == |toks| then Some(ends)
    else
      var k := |ends|;
      var e :- MatchTok(s, toks[k], StartOf(a0, ends, k), GroupOf(s, toks, a0, ends, k));
      PrefixOkExtend(s, toks, a0, ends, e);
      var r := MatchFrom(s, toks, a0, ends + [e]);
      assert r.Some? ==> r.value[..|ends|] == (ends + [e])[..|ends|];
      r
  }

  /** The pattern matched at position `a`, with the end of every token. */
  function MatchAt(s: string, toks: seq<Tok>, a: nat): (r: Option<seq<nat>>)
    requires a <= |s|
    ensures r.Some? ==> Parse(s, toks, a, r.value)
  {
    MatchFrom(s, toks, a, [])
  }

  // ---------------------------------------------------------------------
  // Well-formed patterns: completeness and uniqueness

  /** The class of the run a back-reference at token `k` repeats. */
  function GroupClass(toks: seq<Tok>, k: nat): CharClass
    requires k < |toks|
  {
    if toks[k].Same? && toks[k].group < |toks| && toks[k].group < k && toks[toks[k].group].Run?
    then toks[toks[k].group].cls
    else Word
  }

  /** Token `t` can match the empty text. */
  predicate Nullable(t: Tok) {
    t == Space(false) || t == SemiGap
  }

  /** Whether a non-empty text matched by `t` can begin with `c`; `gcls` is
      the class of the run a back-reference repeats. */
  ghost predicate FirstOk(t: Tok, gcls: CharClass, c: char) {
    match t
    case Lit(x) => |x| > 0 && c == x[0]
    case OneOf(ws) => exists w :: w in ws && |w| > 0 && w[0] == c
    case Space(_) => IsWs(c)
    case Run(cl) => InClass(c, cl)
    case Same(_) => InClass(c, gcls)
    case SemiGap => IsWs(c) || c == ';'
  }

  /** Whether a text matched by `toks[k..]` can begin with `c`. */
  ghost predicate CanStart(toks: seq<Tok>, k: nat, c: char)
    decreases |toks| - k
  {
    k < |toks| &&
    (FirstOk(toks[k], GroupClass(toks, k), c) || (Nullable(toks[k]) && CanStart(toks, k + 1, c)))
  }

  /** Token `k` cannot be extended into what the rest of the pattern needs. */
  ghost predicate TokWf(toks: seq<Tok>, k: nat)
    requires k < |toks|
  {
    match toks[k]
    case Lit(x) => |x| > 0
    case OneOf(ws) => PrefixFree(ws)
    case Space(_) => forall c :: IsWs(c) ==> !CanStart(toks, k + 1, c)
    case Run(cl) => forall c :: InClass(c, cl) ==> !CanStart(toks, k + 1, c)
    case Same(j) => j < k && toks[j].Run?
    case SemiGap => forall c :: IsWs(c) || c == ';' ==> !CanStart(toks, k + 1, c)
  }

  ghost predicate WellFormed(toks: seq<Tok>) {
    && |toks| > 0
    && toks[|toks| - 1].Lit?
    && forall k :: 0 <= k < |toks| ==> TokWf(toks, k)
  }

  /** What a pattern's tail can start with, when its first token cannot
      match the empty text. */
  lemma StartNonNullable(toks: seq<Tok>, j: nat)
    requires j < |toks| && !Nullable(toks[j])
    ensures forall c :: CanStart(toks, j, c) <==> FirstOk(toks[j], GroupClass(toks, j), c)
  {
  }

  /** What a pattern's tail can start with, when only its first token can
      match the empty text. */
  lemma StartNullable(toks: seq<Tok>, j: nat)
    requires j + 1 < |toks| && Nullable(toks[j]) && !Nullable(toks[j + 1])
    ensures forall c :: CanStart(toks, j, c) <==>
      FirstOk(toks[j], GroupClass(toks, j), c) || FirstOk(toks[j + 1], GroupClass(toks, j + 1), c)
  {
    StartNonNullable(toks, j + 1);
  }

  /** What one token's span says about its first character. */
  lemma TokFirst(s: string, t: Tok, a: nat, b: nat, g: Option<string>, gcls: CharClass)
    requires a <= b <= |s| && SpanOk(s, t, a, b, g)
    requires t.Lit? ==> |t.text| > 0
    requires t.OneOf? ==> forall w :: w in t.words ==> |w| > 0
    requires t.Same? ==> g.Some? && |g.value| > 0 && InClass(g.value[0], gcls)
    ensures a == b ==> Nullable(t)
    ensures a < b ==> FirstOk(t, gcls, s[a])
  {
    if a < b {
      assert s[a..b][0] == s[a];
    }
  }

  /** Facts about token `k` of a parse, gathered for `TokFirst`. */
  lemma ParseTok(s: string, toks: seq<Tok>, a0: nat, ends: seq<nat>, k: nat)
    requires WellFormed(toks) && Parse(s, toks, a0, ends) && k < |toks|
    ensures TokWf(toks, k)
    ensures SpanOk(s, toks[k], StartOf(a0, ends, k), ends[k], GroupOf(s, toks, a0, ends, k))
    ensures toks[k].Same? ==>
      var g := GroupOf(s, toks, a0, ends, k);
      g.Some? && |g.value| > 0 && InClass(g.value[0], GroupClass(toks, k))
  {
    assert TokWf(toks, k);
    if toks[k].Same? {
      var j := toks[k].group;
      assert TokWf(toks, j);
      assert SpanOk(s, toks[j], StartOf(a0, ends, j), ends[j], GroupOf(s, toks, a0, ends, j));
      assert Span(s, a0, ends, j)[0] == s[StartOf(a0, ends, j)];
    }
  }

  /** A match of a well-formed pattern that has not reached its end is
      followed by a character the next tokens can start with. */
  lemma {:induction false} ParseNext(s: string, toks: seq<Tok>, a0: nat, ends: seq<nat>, k: nat)
    requires WellFormed(toks) && Parse(s, toks, a0, ends) && k < |toks|
    ensures StartOf(a0, ends, k) < |s| && CanStart(toks, k, s[StartOf(a0, ends, k)])
    decreases |toks| - k
  {
    var a, b := StartOf(a0, ends, k), ends[k];
    TokStart(s, toks, a0, ends, k);
    if a == b {
      ParseNext(s, toks, a0, ends, k + 1);
      StartAfterNullable(toks, k, s[a]);
    }
  }

  // Token `k` of a parse is empty only when it can be, and otherwise its
  // first character is one the tail from `k` can start with.
  lemma TokStart(s: string, toks: seq<Tok>, a0: nat, ends: seq<nat>, k: nat)
    requires WellFormed(toks) && Parse(s, toks, a0, ends) && k < |toks|
    ensures StartOf(a0, ends, k) <= ends[k] <= |s|
    ensures StartOf(a0, ends, k) == ends[k] ==> Nullable(toks[k]) && k + 1 < |toks|
    ensures StartOf(a0, ends, k) < ends[k] ==> CanStart(toks, k, s[StartOf(a0, ends, k)])
    ensures k + 1 < |toks| ==> StartOf(a0, ends, k + 1) == ends[k]
  {
    var a, b := StartOf(a0, ends, k), ends[k];
    ParseTok(s, toks, a0, ends, k);
    TokFirst(s, toks[k], a, b, GroupOf(s, toks, a0, ends, k), GroupClass(toks, k));
    if a < b {
      StartHere(toks, k, s[a]);
    } else {
      assert TokWf(toks, |toks| - 1);
    }
  }

  // A text the token after a nullable token can start with, the nullable
  // token's tail can start with too.
  lemma StartAfterNullable(toks: seq<Tok>, k: nat, c: char)
    requires k + 1 < |toks| && Nullable(toks[k]) && CanStart(toks, k + 1, c)
    ensures CanStart(toks, k, c)
  {
  }

  // A character token `k` can start with, its tail can start with.
  lemma StartHere(toks: seq<Tok>, k: nat, c: char)
    requires k < |toks| && FirstOk(toks[k], GroupClass(toks, k), c)
    ensures CanStart(toks, k, c)
  {
  }

  /** No alternative is empty or a proper prefix of another. */
  predicate PrefixFree(ws: seq<string>) {
    && (forall w :: w in ws ==> |w| > 0)
    && (forall w1, w2 :: w1 in ws && w2 in ws && |w1| < |w2| ==> w1 != w2[..|w1|])
  }

  lemma PrefixFreeTail(ws: seq<string>)
    requires PrefixFree(ws) && ws != []
    ensures PrefixFree(ws[1..])
  {
    assert forall w :: w in ws[1..] ==> w in ws;
  }

  // Two alternatives of which one starts the other are the same.
  lemma PrefixFreeSame(ws: seq<string>, w: string, x: string)
    requires PrefixFree(ws) && w in ws && x in ws
    requires |w| <= |x| ==> w == x[..|w|]
    requires |x| <= |w| ==> x == w[..|x|]
    ensures w == x
  {
  }

  lemma OneOfUnique(s: string, ws: seq<string>, a: nat, b: nat)
    requires a <= b <= |s| && s[a..b] in ws
    requires PrefixFree(ws)
    ensures FirstWord(s, a, ws) == Some(b)
  {
    var x, w := s[a..b], ws[0];
    if LitAt(s, a, w) {
      assert w == s[a..a + |w|];
      PrefixFreeSame(ws, w, x);
    } else {
      assert x != w;
      assert x in ws[1..];
      PrefixFreeTail(ws);
      OneOfUnique(s, ws[1..], a, b);
    }
  }

  lemma SemiGapExact(s: string, a: nat, b: nat)
    requires a <= b <= |s| && WsSemi(s[a..b])
    requires b == |s| || (!IsWs(s[b]) && s[b] != ';')
    ensures MatchTok(s, SemiGap, a, None) == Some(b)
  {
    if exists m :: a <= m < b && s[m] == ';' {
      var m :| a <= m < b && s[m] == ';';
      SemiGapBlanks(s, a, m, b);
      WsEndExact(s, a, m);
      WsEndExact(s, m + 1, b);
    } else {
      SemiGapBlank(s, a, b);
      WsEndExact(s, a, b);
    }
  }

  // Around its semicolon a semicolon gap is blank.
  lemma SemiGapBlanks(s: string, a: nat, m: nat, b: nat)
    requires a <= m < b <= |s| && WsSemi(s[a..b]) && s[m] == ';'
    ensures Blank(s[a..m]) && Blank(s[m + 1..b])
  {
    var t, u, v := s[a..b], s[a..m], s[m + 1..b];
    assert t[m - a] == ';';
    forall j | 0 <= j < |u| ensures IsWs(u[j]) {
      assert t[j] == u[j];
    }
    forall j | 0 <= j < |v| ensures IsWs(v[j]) {
      assert t[m + 1 - a + j] == v[j];
    }
  }

  // A semicolon gap without a semicolon is blank.
  lemma SemiGapBlank(s: string, a: nat, b: nat)
    requires a <= b <= |s| && WsSemi(s[a..b]) && forall m :: a <= m < b ==> s[m] != ';'
    ensures Blank(s[a..b])
  {
    var t := s[a..b];
    forall j | 0 <= j < |t| ensures IsWs(t[j]) {
      assert t[j] == s[a + j];
    }
  }

  /** The character `c` cannot extend token `t`. */
  predicate Stops(t: Tok, c: char) {
    match t
    case Space(_) => !IsWs(c)
    case Run(cl) => !InClass(c, cl)
    case SemiGap => !IsWs(c) && c != ';'
    case _ => true
  }

  /** A span of a token that cannot be extended is what its matcher finds. */
  lemma TokExact(s: string, t: Tok, a: nat, b: nat, g: Option<string>)
    requires a <= b <= |s| && SpanOk(s, t, a, b, g)
    requires t.OneOf? ==>
      && (forall w :: w in t.words ==> |w| > 0)
      && (forall w1, w2 :: w1 in t.words && w2 in t.words && |w1| < |w2| ==> w1 != w2[..|w1|])
    requires b == |s| || Stops(t, s[b])
    ensures MatchTok(s, t, a, g) == Some(b)
  {
    match t
    case Lit(x) =>
    case OneOf(ws) =>
      OneOfUnique(s, ws, a, b);
    case Space(one) =>
      WsEndExact(s, a, b);
    case Run(cl) =>
      ClassEndExact(s, a, b, cl);
    case Same(j) =>
    case SemiGap =>
      SemiGapExact(s, a, b);
  }

  /** On a well-formed pattern, each token's matcher stops exactly where the
      parse says the token ends. */
  lemma TokComplete(s: string, toks: seq<Tok>, a0: nat, ends: seq<nat>, k: nat)
    requires WellFormed(toks) && Parse(s, toks, a0, ends) && k < |toks|
    ensures MatchTok(s, toks[k], StartOf(a0, ends, k), GroupOf(s, toks, a0, ends, k)) == Some(ends[k])
  {
    var t, a, b, g := toks[k], StartOf(a0, ends, k), ends[k], GroupOf(s, toks, a0, ends, k);
    ParseTok(s, toks, a0, ends, k);
    assert SpanOk(s, t, a, b, g);
    if k < |toks| - 1 {
      assert StartOf(a0, ends, k + 1) == b;
      ParseNext(s, toks, a0, ends, k + 1);
      StopsBefore(toks, k, s[b]);
    }
    TokExact(s, t, a, b, g);
  }

  // A token of a well-formed pattern cannot extend into what follows it.
  lemma StopsBefore(toks: seq<Tok>, k: nat, c: char)
    requires k + 1 < |toks| && TokWf(toks, k) && CanStart(toks, k + 1, c)
    ensures Stops(toks[k], c)
  {
  }

  lemma PrefixOfParse(s: string, toks: seq<Tok>, a0: nat, ends: seq<nat>, n: nat)
    requires Parse(s, toks, a0, ends) && n <= |toks|
    ensures PrefixOk(s, toks, a0, ends[..n])
    ensures n < |toks| ==> StartOf(a0, ends[..n], n) == StartOf(a0, ends, n)
    ensures n < |toks| ==> GroupOf(s, toks, a0, ends[..n], n) == GroupOf(s, toks, a0, ends, n)
  {
    var pre := ends[..n];
    assert forall k :: 0 <= k < n ==> StartOf(a0, pre, k) == StartOf(a0, ends, k) && pre[k] == ends[k];
    assert Bounded(s, a0, pre);
    forall k | 0 <= k < |toks| && (k < n || k == n < |toks|)
      ensures GroupOf(s, toks, a0, pre, k) == GroupOf(s, toks, a0, ends, k)
    {
      if toks[k].Same? && toks[k].group < k && toks[k].group < n {
        assert Span(s, a0, pre, toks[k].group) == Span(s, a0, ends, toks[k].group);
      }
    }
  }

  lemma {:induction false} MatchFromComplete(s: string, toks: seq<Tok>, a0: nat, ends: seq<nat>, n: nat)
    requires WellFormed(toks) && Parse(s, toks, a0, ends) && n <= |toks|
    ensures PrefixOk(s, toks, a0, ends[..n])
    ensures MatchFrom(s, toks, a0, ends[..n]) == Some(ends)
    decreases |toks| - n
  {
    var pre := ends[..n];
    PrefixOfParse(s, toks, a0, ends, n);
    if n == |toks| {
      assert pre == ends;
    } else {
      TokComplete(s, toks, a0, ends, n);
      MatchFromStep(s, toks, a0, pre, ends[n]);
      TakeOneMore(ends, n);
      MatchFromComplete(s, toks, a0, ends, n + 1);
    }
  }

  lemma TakeOneMore(xs: seq<nat>, n: nat)
    requires n < |xs|
    ensures xs[..n] + [xs[n]] == xs[..n + 1]
  {
  }

  // One token more: the matcher goes on from where token `|ends|` ends.
  lemma MatchFromStep(s: string, toks: seq<Tok>, a0: nat, ends: seq<nat>, e: nat)
    requires PrefixOk(s, toks, a0, ends) && |ends| < |toks|
    requires MatchTok(s, toks[|ends|], StartOf(a0, ends, |ends|), GroupOf(s, toks, a0, ends, |ends|)) == Some(e)
    ensures PrefixOk(s, toks, a0, ends + [e])
    ensures MatchFrom(s, toks, a0, ends) == MatchFrom(s, toks, a0, ends + [e])
  {
    PrefixOkExtend(s, toks, a0, ends, e);
  }

  // A literal that is not there stops the matcher.
  lemma MatchFromLitFails(s: string, toks: seq<Tok>, a0: nat, ends: seq<nat>)
    requires PrefixOk(s, toks, a0, ends) && |ends| < |toks| && toks[|ends|].Lit?
    requires !LitAt(s, StartOf(a0, ends, |ends|), toks[|ends|].text)
    ensures MatchFrom(s, toks, a0, ends).None?
  {
  }

  /** Completeness and uniqueness: every parse of a well-formed pattern is
      the one the matcher finds. */
  lemma MatchAtComplete(s: string, toks: seq<Tok>, a0: nat, ends: seq<nat>)
    requires WellFormed(toks) && Parse(s, toks, a0, ends)
    ensures MatchAt(s, toks, a0) == Some(ends)
  {
    MatchFromComplete(s, toks, a0, ends, 0);
    assert ends[..0] == [];
  }

  // ---------------------------------------------------------------------
  // Leftmost match

  datatype Hit = Hit(start: nat, ends: seq<nat>)

  /** `Regex.Match` from position `i`: the first position at which the
      pattern matches. */
  function Find(s: string, toks: seq<Tok>, i: nat): (r: Option<Hit>)
    requires i <= |s|
    ensures r.Some? ==> i <= r.value.start <= |s| && MatchAt(s, toks, r.value.start) == Some(r.value.ends)
    ensures r.Some? ==> forall j :: i <= j < r.value.start ==> MatchAt(s, toks, j).None?
    ensures r.None? ==> forall j :: i <= j <= |s| ==> MatchAt(s, toks, j).None?
    decreases |s| - i
  {
    var m := MatchAt(s, toks, i);
    if m.Some? then Some(Hit(i, m.value))
    else if i == |s| then None
    else Find(s, toks, i + 1)
  }

  /** A parse anywhere means `Find` succeeds no later than it; at the same
      start it reports the same tokens. */
  lemma FindLeftmost(s: string, toks: seq<Tok>, j: nat, ends: seq<nat>)
    requires WellFormed(toks) && j <= |s| && Parse(s, toks, j, ends)
    ensures Find(s, toks, 0).Some?
    ensures Find(s, toks, 0).value.start <= j
    ensures Find(s, toks, 0).value.start == j ==> Find(s, toks, 0).value.ends == ends
  {
    MatchAtComplete(s, toks, j, ends);
  }

  /** The text captured by token `k` of a hit. */
  function Group(s: string, h: Hit, k: nat): string
    requires Bounded(s, h.start, h.ends) && k < |h.ends|
  {
    Span(s, h.start, h.ends, k)
  }

  /** Where a hit ends. */
  function HitEnd(h: Hit): nat {
    if h.ends == [] then h.start else h.ends[|h.ends| - 1]
  }

  lemma {:induction false} StartOfMono(s: string, a0: nat, ends: seq<nat>, k: nat)
    requires Bounded(s, a0, ends) && k <= |ends|
    ensures a0 <= StartOf(a0, ends, k) <= |s|
    decreases k
  {
    if k > 0 {
      StartOfMono(s, a0, ends, k - 1);
    }
  }

  /** A pattern ending in a non-empty literal consumes at least one
      character, so a scan over successive matches makes progress. */
  lemma HitAdvances(s: string, toks: seq<Tok>, a0: nat, ends: seq<nat>)
    requires Parse(s, toks, a0, ends) && |toks| > 0
    requires toks[|toks| - 1].Lit? && |toks[|toks| - 1].text| > 0
    ensures a0 < ends[|ends| - 1] <= |s|
  {
    var n := |toks| - 1;
    StartOfMono(s, a0, ends, n);
    assert SpanOk(s, toks[n], StartOf(a0, ends, n), ends[n], GroupOf(s, toks, a0, ends, n));
  }

  /** The ends of a match lie between its start and the end of the text. */
  lemma MatchBounds(s: string, toks: seq<Tok>, a: nat, ends: seq<nat>)
    requires a <= |s| && MatchAt(s, toks, a) == Some(ends)
    ensures |ends| == |toks| && Bounded(s, a, ends)
    ensures forall k :: 0 <= k < |ends| ==> a <= StartOf(a, ends, k) <= ends[k] <= |s|
  {
    forall k | 0 <= k < |ends| ensures a <= StartOf(a, ends, k) {
      StartOfMono(s, a, ends, k);
    }
  }

  /** What a token of a match spans satisfies the token. */
  lemma MatchSpan(s: string, toks: seq<Tok>, a: nat, ends: seq<nat>, k: nat)
    requires a <= |s| && MatchAt(s, toks, a) == Some(ends) && k < |toks|
    ensures Bounded(s, a, ends) && k < |ends|
    ensures toks[k].Lit? ==> Span(s, a, ends, k) == toks[k].text && LitAt(s, StartOf(a, ends, k), toks[k].text)
    ensures toks[k].Run? ==>
              && Span(s, a, ends, k) != []
              && forall j :: 0 <= j < |Span(s, a, ends, k)| ==> InClass(Span(s, a, ends, k)[j], toks[k].cls)
    ensures toks[k].Same? && toks[k].group < k ==> Span(s, a, ends, k) == Span(s, a, ends, toks[k].group)
  {
    MatchBounds(s, toks, a, ends);
    var b, e := StartOf(a, ends, k), ends[k];
    assert SpanOk(s, toks[k], b, e, GroupOf(s, toks, a, ends, k));
    if toks[k].Run? {
      RunSpan(s, b, e, toks[k].cls);
    }
  }

  // The characters of a run are in its class.
  lemma RunSpan(s: string, b: nat, e: nat, cl: CharClass)
    requires b < e <= |s| && forall j :: b <= j < e ==> InClass(s[j], cl)
    ensures forall j :: 0 <= j < |s[b..e]| ==> InClass(s[b..e][j], cl)
  {
    forall j | 0 <= j < |s[b..e]| ensures InClass(s[b..e][j], cl) {
      assert s[b..e][j] == s[b + j];
    }
  }

  /** A match of a pattern that starts with a literal starts with that
      literal. */
  lemma MatchFirstLit(s: string, toks: seq<Tok>, a: nat)
    requires a <= |s| && |toks| > 0 && toks[0].Lit?
    ensures MatchAt(s, toks, a).Some? ==> LitAt(s, a, toks[0].text)
  {
    if MatchAt(s, toks, a).Some? {
      MatchSpan(s, toks, a, MatchAt(s, toks, a).value, 0);
    }
  }

  /** Some parse of `toks` exists somewhere in `s`. */
  ghost predicate Occurs(s: string, toks: seq<Tok>) {
    exists j: nat, ends :: j <= |s| && Parse(s, toks, j, ends)
  }

  /** For a well-formed pattern, the search finds a match exactly when the
      pattern occurs. */
  lemma FindIffOccurs(s: string, toks: seq<Tok>)
    requires WellFormed(toks)
    ensures Find(s, toks, 0).Some? <==> Occurs(s, toks)
  {
    if Occurs(s, toks) {
      var j: nat, ends :| j <= |s| && Parse(s, toks, j, ends);
      FindLeftmost(s, toks, j, ends);
    }
    if Find(s, toks, 0).Some? {
      var h := Find(s, toks, 0).value;
      assert Parse(s, toks, h.start, h.ends);
    }
  }
}
