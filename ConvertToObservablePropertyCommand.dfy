/** SsRefactor/ConvertToObservablePropertyCommand.cs: every auto property
    and every full property found in the selection becomes an
    `[ObservableProperty]` field. The command finds properties with two
    regular expressions of its own (run with `RegexOptions.Singleline`),
    both starting with the same head:

      auto:  head `\s*get;.*set;.*\}`
      full:  head `[^}]*get[^}]*;?[^}]*set[^}]*;?[^}]*\}`

    where the head is `(public|private|protected|internal)\s+` then the
    type `[\w<>\[\]\.]+`, `\s+`, the name `[\w_]+`, `\s*\{`. */
module ConvertToObservablePropertyCommand {
  import opened Wrappers
  import opened Text
  import opened Tokens
  import opened PropertyPatterns
  import opened PropertyRegexHelper

  // ---------------------------------------------------------------------
  // The head

  /** The head both patterns share, as a token list: modifier, type, name
      and `{`. */
  const HeadPattern: seq<Tok> :=
    [OneOf(Visibilities), Space(true), Run(CmdType), Space(true), Run(Word), Space(false), Lit("{")]
  const HeadType := 2
  const HeadName := 4
  const HeadEnd := 6

  lemma HeadWellFormed()
    ensures WellFormed(HeadPattern)
  {
    forall k | 0 <= k < |HeadPattern| ensures TokWf(HeadPattern, k) {
      TokWfAt(HeadPattern, k);
    }
  }

  lemma HeadShape()
    ensures |HeadPattern| == 7 && HeadPattern[HeadEnd] == Lit("{")
    ensures HeadPattern[HeadType] == Run(CmdType) && HeadPattern[HeadName] == Run(Word)
  {
  }

  // ---------------------------------------------------------------------
  // The tails

  /** The last index holding `c`, if any. */
  function LastIndexOf(s: string, c: char): (r: Option<nat>)
    ensures r.Some? ==> r.value < |s| && s[r.value] == c
    ensures r.Some? ==> forall j :: r.value < j < |s| ==> s[j] != c
    ensures r.None? ==> forall j :: 0 <= j < |s| ==> s[j] != c
    decreases |s|
  {
    if s == [] then None
    else if s[|s| - 1] == c then Some(|s| - 1)
    else
      var r := LastIndexOf(s[..|s| - 1], c);
      assert forall j :: 0 <= j < |s| - 1 ==> s[..|s| - 1][j] == s[j];
      r
  }

  /** The first `j >= i` at which `lit` occurs ending by `limit`. */
  function FindLit(s: string, lit: string, i: nat, limit: nat): (r: Option<nat>)
    requires i <= limit <= |s|
    ensures r.Some? ==> i <= r.value && r.value + |lit| <= limit && LitAt(s, r.value, lit)
    ensures r.Some? ==> forall j :: i <= j < r.value ==> !LitAt(s, j, lit)
    ensures r.None? ==> forall j :: i <= j && j + |lit| <= limit ==> !LitAt(s, j, lit)
    decreases limit - i
  {
    if i + |lit| > limit then None
    else if LitAt(s, i, lit) then Some(i)
    else FindLit(s, lit, i + 1, limit)
  }

  /** `\s*get;.*set;.*\}` matches `s[h..e]`: blanks, `get;`, anything,
      `set;`, anything, and a closing brace at `e - 1` (with
      `RegexOptions.Singleline`, `.` is any character). */
  predicate AutoTail(s: string, h: nat, e: nat) {
    && h < e <= |s| && s[e - 1] == '}'
    && exists w: nat, p: nat ::
         h <= w <= |s| && Blank(s[h..w]) && LitAt(s, w, "get;") && w + 4 <= p && p + 4 <= e - 1 && LitAt(s, p, "set;")
  }

  /** The end the engine gives the auto tail. Both `.*` are greedy, so the
      first choice that succeeds takes the last `set;` that still has a
      closing brace after it and then the last closing brace of the text. */
  function AutoTailEnd(s: string, h: nat): (r: Option<nat>)
    requires h <= |s|
    ensures r.Some? ==> h < r.value <= |s|
  {
    var w := WsEnd(s, h);
    if !LitAt(s, w, "get;") then None
    else match LastIndexOf(s, '}')
      case None => None
      case Some(q) =>
        if q < w + 4 then None
        else if FindLit(s, "set;", w + 4, q).Some? then Some(q + 1)
        else None
  }

  /** `[^}]*get[^}]*;?[^}]*set[^}]*;?[^}]*\}` matches `s[h..e]`: the text
      up to the first closing brace holds `get` and, after it, `set`. */
  predicate FullTail(s: string, h: nat, e: nat) {
    && h < e <= |s| && s[e - 1] == '}'
    && (forall j :: h <= j < e - 1 ==> s[j] != '}')
    && exists g: nat, t: nat :: h <= g && g + 3 <= t && t + 3 <= e - 1 && LitAt(s, g, "get") && LitAt(s, t, "set")
  }

  /** The end of the full tail: just after the first closing brace. */
  function FullTailEnd(s: string, h: nat): (r: Option<nat>)
    requires h <= |s|
    ensures r.Some? ==> h < r.value <= |s|
  {
    var b := IndexOfFrom(s, '}', h);
    if b == |s| then None
    else match FindLit(s, "get", h, b)
      case None => None
      case Some(g) => if FindLit(s, "set", g + 3, b).Some? then Some(b + 1) else None
  }

  // A blank run followed by `get;` is the whole blank run.
  lemma GetAfterBlanks(s: string, h: nat, w: nat)
    requires h <= w <= |s| && Blank(s[h..w]) && LitAt(s, w, "get;")
    ensures w == WsEnd(s, h)
  {
    assert s[w] == s[w..w + 4][0] == 'g';
    WsEndExact(s, h, w);
  }

  /** The auto tail's end is a match of the tail, the longest one, and
      there is none when the matcher finds none. */
  lemma AutoTailEndSpec(s: string, h: nat)
    requires h <= |s|
    ensures AutoTailEnd(s, h).Some? ==> AutoTail(s, h, AutoTailEnd(s, h).value)
    ensures AutoTailEnd(s, h).Some? ==> forall e: nat :: AutoTail(s, h, e) ==> e <= AutoTailEnd(s, h).value
    ensures AutoTailEnd(s, h).None? ==> forall e: nat :: !AutoTail(s, h, e)
  {
    var w := WsEnd(s, h);
    var last := LastIndexOf(s, '}');
    forall e: nat | AutoTail(s, h, e)
      ensures LitAt(s, w, "get;") && last.Some? && e - 1 <= last.value
      ensures exists p: nat :: w + 4 <= p && p + 4 <= last.value && LitAt(s, p, "set;")
    {
      var w': nat, p: nat :| h <= w' <= |s| && Blank(s[h..w']) && LitAt(s, w', "get;")
        && w' + 4 <= p && p + 4 <= e - 1 && LitAt(s, p, "set;");
      GetAfterBlanks(s, h, w');
    }
    if AutoTailEnd(s, h).Some? {
      var p := FindLit(s, "set;", w + 4, last.value).value;
      assert Blank(s[h..w]) && LitAt(s, w, "get;") && LitAt(s, p, "set;");
    }
  }

  /** The full tail's end is the one match of the tail, and there is none
      when the matcher finds none. */
  lemma FullTailEndSpec(s: string, h: nat)
    requires h <= |s|
    ensures FullTailEnd(s, h).Some? ==> FullTail(s, h, FullTailEnd(s, h).value)
    ensures forall e: nat :: FullTail(s, h, e) ==> FullTailEnd(s, h) == Some(e)
  {
    var b := IndexOfFrom(s, '}', h);
    forall e: nat | FullTail(s, h, e) ensures FullTailEnd(s, h) == Some(e) {
      FullTailEndComplete(s, h, e);
    }
    if FullTailEnd(s, h).Some? {
      var g := FindLit(s, "get", h, b).value;
      var t := FindLit(s, "set", g + 3, b).value;
      assert LitAt(s, g, "get") && LitAt(s, t, "set");
    }
  }

  // A full tail ending at `e` is the one the matcher finds.
  lemma FullTailEndComplete(s: string, h: nat, e: nat)
    requires h <= |s| && FullTail(s, h, e)
    ensures FullTailEnd(s, h) == Some(e)
  {
    var b := IndexOfFrom(s, '}', h);
    FirstBrace(s, h, e);
    var g: nat, t: nat :| h <= g && g + 3 <= t && t + 3 <= e - 1 && LitAt(s, g, "get") && LitAt(s, t, "set");
    GetSetFound(s, h, b, g, t);
    FullTailEndAt(s, h, b);
  }

  // Both searches succeeding before the first closing brace `b` ends the tail after `b`.
  lemma FullTailEndAt(s: string, h: nat, b: nat)
    requires h <= b < |s| && b == IndexOfFrom(s, '}', h)
    requires FindLit(s, "get", h, b).Some?
    requires FindLit(s, "set", FindLit(s, "get", h, b).value + 3, b).Some?
    ensures FullTailEnd(s, h) == Some(b + 1)
  {
  }

  // The tail's closing brace is the first one after `h`.
  lemma FirstBrace(s: string, h: nat, e: nat)
    requires h <= |s| && FullTail(s, h, e)
    ensures IndexOfFrom(s, '}', h) == e - 1
  {
  }

  // A `get` followed by a `set` before `b` is found by the two searches.
  lemma GetSetFound(s: string, h: nat, b: nat, g: nat, t: nat)
    requires h <= g && g + 3 <= t && t + 3 <= b <= |s| && LitAt(s, g, "get") && LitAt(s, t, "set")
    ensures FindLit(s, "get", h, b).Some?
    ensures FindLit(s, "set", FindLit(s, "get", h, b).value + 3, b).Some?
  {
  }

  // ---------------------------------------------------------------------
  // One match

  /** Which of the two patterns. */
  datatype PatternKind = AutoProperty | FullProperty

  /** A match: where it starts and ends, and the texts of group 2 (the
      type) and group 3 (the name). */
  datatype PropertyMatch = PropertyMatch(start: nat, end: nat, typeName: string, name: string)

  /** The tail of `kind` matches `s[h..e]`. */
  predicate Tail(s: string, kind: PatternKind, h: nat, e: nat) {
    if kind == AutoProperty then AutoTail(s, h, e) else FullTail(s, h, e)
  }

  function TailEnd(s: string, kind: PatternKind, h: nat): (r: Option<nat>)
    requires h <= |s|
    ensures r.Some? ==> h < r.value <= |s|
  {
    if kind == AutoProperty then AutoTailEnd(s, h) else FullTailEnd(s, h)
  }

  /** The match of `kind` starting at `i`, if any. The head has one parse
      at most; the tail decides whether and where the match ends. */
  function MatchAtPos(s: string, kind: PatternKind, i: nat): (r: Option<PropertyMatch>)
    requires i <= |s|
    ensures r.Some? ==> r.value.start == i && i < r.value.end <= |s|
  {
    match MatchAt(s, HeadPattern, i)
    case None => None
    case Some(ends) =>
      HeadFacts(s, i, ends);
      var h := ends[HeadEnd];
      match TailEnd(s, kind, h)
      case None => None
      case Some(e) =>
        Some(PropertyMatch(i, e, Span(s, i, ends, HeadType), Span(s, i, ends, HeadName)))
  }

  /** What a parse of the head gives: the type and name groups are
      non-empty runs of their classes, and the `{` ends the head. */
  lemma HeadFacts(s: string, i: nat, ends: seq<nat>)
    requires i <= |s| && MatchAt(s, HeadPattern, i) == Some(ends)
    ensures |ends| == 7 && Bounded(s, i, ends) && i <= ends[HeadEnd] <= |s|
    ensures var t := Span(s, i, ends, HeadType);
      t != [] && forall j :: 0 <= j < |t| ==> InClass(t[j], CmdType)
    ensures var n := Span(s, i, ends, HeadName);
      n != [] && forall j :: 0 <= j < |n| ==> IsWord(n[j])
  {
    HeadShape();
    MatchBounds(s, HeadPattern, i, ends);
    MatchSpan(s, HeadPattern, i, ends, HeadType);
    MatchSpan(s, HeadPattern, i, ends, HeadName);
  }

  /** A match's type is a non-empty run of `[\w<>\[\]\.]`, its name a
      non-empty run of word characters, and the match ends with a closing
      brace. */
  lemma MatchFacts(s: string, kind: PatternKind, i: nat)
    requires i <= |s| && MatchAtPos(s, kind, i).Some?
    ensures var m := MatchAtPos(s, kind, i).value;
      && m.typeName != [] && (forall j :: 0 <= j < |m.typeName| ==> InClass(m.typeName[j], CmdType))
      && m.name != [] && (forall j :: 0 <= j < |m.name| ==> IsWord(m.name[j]))
      && s[m.end - 1] == '}'
  {
    var ends := MatchAt(s, HeadPattern, i).value;
    HeadFacts(s, i, ends);
    var h := ends[HeadEnd];
    TailEndsWithBrace(s, kind, h);
    var e := TailEnd(s, kind, h).value;
    assert MatchAtPos(s, kind, i).value == PropertyMatch(i, e, Span(s, i, ends, HeadType), Span(s, i, ends, HeadName));
  }

  // Both tails end with a closing brace.
  lemma TailEndsWithBrace(s: string, kind: PatternKind, h: nat)
    requires h <= |s|
    ensures TailEnd(s, kind, h).Some? ==> s[TailEnd(s, kind, h).value - 1] == '}'
  {
    if kind == AutoProperty {
      AutoTailEndSpec(s, h);
    } else {
      FullTailEndSpec(s, h);
    }
  }

  /** The pattern of `kind` matches at `i` and ends at `e`, its head tokens
      ending at `ends`. */
  predicate PatternAt(s: string, kind: PatternKind, i: nat, ends: seq<nat>, e: nat) {
    Parse(s, HeadPattern, i, ends) && |ends| == 7 && Tail(s, kind, ends[HeadEnd], e)
  }

  /** The pattern of `kind` matches somewhere in `s`. */
  ghost predicate PatternOccurs(s: string, kind: PatternKind) {
    exists i: nat, ends, e: nat :: PatternAt(s, kind, i, ends, e)
  }

  /** Soundness: a match found at `i` is a match of the pattern, and its
      groups are the texts the head's type and name tokens span. */
  lemma MatchAtPosSound(s: string, kind: PatternKind, i: nat)
    requires i <= |s| && MatchAtPos(s, kind, i).Some?
    ensures MatchAt(s, HeadPattern, i).Some?
    ensures var m := MatchAtPos(s, kind, i).value;
      var ends := MatchAt(s, HeadPattern, i).value;
      && PatternAt(s, kind, i, ends, m.end)
      && m.typeName == Span(s, i, ends, HeadType) && m.name == Span(s, i, ends, HeadName)
  {
    var ends := MatchAt(s, HeadPattern, i).value;
    HeadFacts(s, i, ends);
    var h := ends[HeadEnd];
    if kind == AutoProperty {
      AutoTailEndSpec(s, h);
    } else {
      FullTailEndSpec(s, h);
    }
  }

  /** Completeness: wherever the pattern matches, the matcher finds a match
      with the same groups; for the full pattern with the same end, for the
      greedy auto pattern with the longest end. */
  lemma MatchAtPosComplete(s: string, kind: PatternKind, i: nat, ends: seq<nat>, e: nat)
    requires PatternAt(s, kind, i, ends, e)
    ensures i <= |s| && MatchAtPos(s, kind, i).Some?
    ensures var m := MatchAtPos(s, kind, i).value;
      && m.typeName == Span(s, i, ends, HeadType) && m.name == Span(s, i, ends, HeadName)
      && (kind == FullProperty ==> m.end == e)
      && (kind == AutoProperty ==> e <= m.end)
  {
    HeadWellFormed();
    MatchAtComplete(s, HeadPattern, i, ends);
    HeadFacts(s, i, ends);
    var h := ends[HeadEnd];
    if kind == AutoProperty {
      AutoTailEndSpec(s, h);
    } else {
      FullTailEndSpec(s, h);
    }
    assert MatchAtPos(s, kind, i).value == PropertyMatch(i, TailEnd(s, kind, h).value, Span(s, i, ends, HeadType), Span(s, i, ends, HeadName));
  }

  // ---------------------------------------------------------------------
  // All matches

  /** What the matcher finds at each position of `s`, from 0 to `|s|`. */
  function Found(s: string, kind: PatternKind): (r: seq<Option<PropertyMatch>>)
    ensures |r| == |s| + 1
  {
    seq(|s| + 1, j requires 0 <= j <= |s| => MatchAtPos(s, kind, j))
  }

  /** Each entry of `found` is a match that starts at its own position and
      ends after it, within the positions. */
  predicate Consistent(found: seq<Option<PropertyMatch>>) {
    forall j :: 0 <= j < |found| && found[j].Some? ==>
      found[j].value.start == j && j < found[j].value.end < |found|
  }

  lemma FoundConsistent(s: string, kind: PatternKind)
    ensures Consistent(Found(s, kind))
  {
  }

  /** `Regex.Match` from `from`: the first position at or after `from`
      holding a match. */
  function NextIn(found: seq<Option<PropertyMatch>>, from: nat): Option<PropertyMatch>
    requires from <= |found|
    decreases |found| - from
  {
    if from == |found| then None
    else if found[from].Some? then found[from]
    else NextIn(found, from + 1)
  }

  /** The leftmost match at or after `from`: no position before it holds
      one, and there is none only when no position does. */
  lemma {:induction false} NextInLeftmost(found: seq<Option<PropertyMatch>>, from: nat)
    requires Consistent(found) && from <= |found|
    ensures var r := NextIn(found, from);
      && (r.Some? ==> from <= r.value.start < |found| && found[r.value.start] == r)
      && (r.Some? ==> forall j :: from <= j < r.value.start ==> found[j].None?)
      && (r.None? ==> forall j :: from <= j < |found| ==> found[j].None?)
    decreases |found| - from
  {
    if from < |found| && found[from].None? {
      NextInLeftmost(found, from + 1);
    }
  }

  /** `Regex.Matches` from `from`: the leftmost match, then the matches
      after it, each search resuming where the previous match ended. */
  function AllIn(found: seq<Option<PropertyMatch>>, from: nat): (r: seq<PropertyMatch>)
    requires Consistent(found) && from <= |found|
    decreases |found| - from
  {
    NextInLeftmost(found, from);
    match NextIn(found, from)
    case None => []
    case Some(m) => [m] + AllIn(found, m.end)
  }

  /** The matches are matches the positions hold, in order and without
      overlap; there are none exactly when no position holds one. */
  lemma {:induction false} AllInSpec(found: seq<Option<PropertyMatch>>, from: nat)
    requires Consistent(found) && from <= |found|
    ensures var r := AllIn(found, from);
      && (forall k :: 0 <= k < |r| ==> from <= r[k].start < |found| && found[r[k].start] == Some(r[k]))
      && (forall a, b :: 0 <= a < b < |r| ==> r[a].end <= r[b].start)
      && (r == [] <==> forall j :: from <= j < |found| ==> found[j].None?)
    decreases |found| - from
  {
    NextInLeftmost(found, from);
    var n := NextIn(found, from);
    if n.Some? {
      var m := n.value;
      AllInSpec(found, m.end);
      var rest := AllIn(found, m.end);
      assert AllIn(found, from) == [m] + rest;
    }
  }

  /** When no match starts before the end of any other, the scan finds at
      most one. */
  lemma AllInAtMostOne(found: seq<Option<PropertyMatch>>)
    requires Consistent(found)
    requires forall j, k :: 0 <= j < |found| && 0 <= k < |found| && found[j].Some? && found[k].Some? ==>
      k < found[j].value.end
    ensures |AllIn(found, 0)| <= 1
  {
    NextInLeftmost(found, 0);
    var n := NextIn(found, 0);
    if n.Some? {
      var m := n.value;
      NextInLeftmost(found, m.end);
      assert AllIn(found, m.end) == [];
    }
  }

  /** All matches of the pattern of `kind` in `s`. */
  function Matches(s: string, kind: PatternKind): seq<PropertyMatch> {
    FoundConsistent(s, kind);
    AllIn(Found(s, kind), 0)
  }

  /** Some match is found exactly when the pattern matches somewhere. */
  lemma MatchesIffOccurs(s: string, kind: PatternKind)
    ensures Matches(s, kind) != [] <==> PatternOccurs(s, kind)
  {
    if Matches(s, kind) != [] {
      FirstMatchOccurs(s, kind);
    }
    if PatternOccurs(s, kind) {
      var i: nat, ends, e: nat :| PatternAt(s, kind, i, ends, e);
      OccurrenceFound(s, kind, i, ends, e);
    }
  }

  // A place where the pattern matches leaves the scan something to find.
  lemma OccurrenceFound(s: string, kind: PatternKind, i: nat, ends: seq<nat>, e: nat)
    requires PatternAt(s, kind, i, ends, e)
    ensures Matches(s, kind) != []
  {
    var found := Found(s, kind);
    FoundConsistent(s, kind);
    AllInSpec(found, 0);
    MatchAtPosComplete(s, kind, i, ends, e);
    assert found[i] == MatchAtPos(s, kind, i);
  }

  // The first match found is a match of the pattern.
  lemma FirstMatchOccurs(s: string, kind: PatternKind)
    requires Matches(s, kind) != []
    ensures PatternOccurs(s, kind)
  {
    var found := Found(s, kind);
    FoundConsistent(s, kind);
    AllInSpec(found, 0);
    var m := Matches(s, kind)[0];
    assert found[m.start] == MatchAtPos(s, kind, m.start);
    MatchAtPosSound(s, kind, m.start);
  }

  /** The auto pattern's match runs to the last closing brace of the text,
      so the text holds at most one auto match. */
  lemma AutoAtMostOne(s: string)
    ensures |Matches(s, AutoProperty)| <= 1
  {
    var found := Found(s, AutoProperty);
    FoundConsistent(s, AutoProperty);
    forall j, k | 0 <= j < |found| && 0 <= k < |found| && found[j].Some? && found[k].Some?
      ensures k < found[j].value.end
    {
      AutoEndsAtLastBrace(s, j);
      MatchFacts(s, AutoProperty, k);
    }
    AllInAtMostOne(found);
  }

  // No closing brace follows an auto match.
  lemma AutoEndsAtLastBrace(s: string, i: nat)
    requires i <= |s| && MatchAtPos(s, AutoProperty, i).Some?
    ensures forall j :: MatchAtPos(s, AutoProperty, i).value.end <= j < |s| ==> s[j] != '}'
  {
    var ends := MatchAt(s, HeadPattern, i).value;
    HeadFacts(s, i, ends);
  }

  /** The matches the command collects: every auto match, then every full
      match. */
  function PropertyMatches(s: string): seq<PropertyMatch> {
    Matches(s, AutoProperty) + Matches(s, FullProperty)
  }

  /** Each match has a non-empty type of `[\w<>\[\]\.]` characters and a
      non-empty word-character name. */
  lemma PropertyMatchesFacts(s: string)
    ensures var r := PropertyMatches(s); forall k :: 0 <= k < |r| ==>
      && r[k].typeName != [] && (forall j :: 0 <= j < |r[k].typeName| ==> InClass(r[k].typeName[j], CmdType))
      && r[k].name != [] && (forall j :: 0 <= j < |r[k].name| ==> IsWord(r[k].name[j]))
  {
    MatchesFacts(s, AutoProperty);
    MatchesFacts(s, FullProperty);
  }

  lemma MatchesFacts(s: string, kind: PatternKind)
    ensures var r := Matches(s, kind); forall k :: 0 <= k < |r| ==>
      && r[k].typeName != [] && (forall j :: 0 <= j < |r[k].typeName| ==> InClass(r[k].typeName[j], CmdType))
      && r[k].name != [] && (forall j :: 0 <= j < |r[k].name| ==> IsWord(r[k].name[j]))
  {
    var found := Found(s, kind);
    FoundConsistent(s, kind);
    AllInSpec(found, 0);
    var r := Matches(s, kind);
    forall k | 0 <= k < |r|
      ensures r[k].typeName != [] && (forall j :: 0 <= j < |r[k].typeName| ==> InClass(r[k].typeName[j], CmdType))
      ensures r[k].name != [] && (forall j :: 0 <= j < |r[k].name| ==> IsWord(r[k].name[j]))
    {
      assert found[r[k].start] == MatchAtPos(s, kind, r[k].start);
      MatchFacts(s, kind, r[k].start);
    }
  }

  // Adding the next match of `ms` extends the copied prefix by one.
  lemma MatchAdded(ms: seq<PropertyMatch>, k: nat)
    requires k < |ms|
    ensures ms[..k] + [ms[k]] == ms[..k + 1]
  {
  }

  /** `GetPropertyMatches`: the auto matches, then the full matches. */
  method GetPropertyMatches(selectedText: string) returns (matches: seq<PropertyMatch>)
    ensures matches == PropertyMatches(selectedText)
  {
    matches := [];
    var autoProps := Matches(selectedText, AutoProperty);
    for k := 0 to |autoProps|
      invariant matches == autoProps[..k]
    {
      MatchAdded(autoProps, k);
      matches := matches + [autoProps[k]];
    }
    var fullProps := Matches(selectedText, FullProperty);
    for k := 0 to |fullProps|
      invariant matches == autoProps + fullProps[..k]
    {
      MatchAdded(fullProps, k);
      assert autoProps + fullProps[..k] + [fullProps[k]] == autoProps + (fullProps[..k] + [fullProps[k]]);
      matches := matches + [fullProps[k]];
    }
    assert autoProps[..|autoProps|] == autoProps && fullProps[..|fullProps|] == fullProps;
  }

  /** `HasAnyProperty`: whether the selection holds an auto or a full
      property. */
  method HasAnyProperty(selectedText: string) returns (found: bool)
    ensures found <==> PatternOccurs(selectedText, AutoProperty) || PatternOccurs(selectedText, FullProperty)
  {
    var matches := GetPropertyMatches(selectedText);
    MatchesIffOccurs(selectedText, AutoProperty);
    MatchesIffOccurs(selectedText, FullProperty);
    found := |matches| > 0;
  }

  // ---------------------------------------------------------------------
  // The fields

  /** The field a match becomes: the attribute line, then `private`, the
      type and the name with an underscore and its first letter in lower
      case. */
  function ObservableField(m: PropertyMatch): string
    requires m.name != []
  {
    "[ObservableProperty]" + NewLine + "private " + m.typeName + " " + FieldNameFor(m.name) + ";"
  }

  /** The separator between fields: a blank line. */
  const FieldSeparator: string := NewLine + NewLine

  /** The fields of the matches, one per match, in order. */
  function Fields(ms: seq<PropertyMatch>): (r: seq<string>)
    requires forall k :: 0 <= k < |ms| ==> ms[k].name != []
    ensures |r| == |ms| && forall k :: 0 <= k < |r| ==> r[k] == ObservableField(ms[k])
  {
    seq(|ms|, k requires 0 <= k < |ms| => ObservableField(ms[k]))
  }

  /** The text `ConvertAllPropertiesToObservableFields` returns. */
  function ObservableOutput(s: string): string {
    PropertyMatchesFacts(s);
    Join(FieldSeparator, Fields(PropertyMatches(s)))
  }

  /** `ConvertAllPropertiesToObservableFields`: one field per match, in the
      order of the matches, joined by a blank line. */
  method ConvertAllPropertiesToObservableFields(selectedText: string) returns (r: string)
    ensures r == ObservableOutput(selectedText)
  {
    var matches := GetPropertyMatches(selectedText);
    PropertyMatchesFacts(selectedText);
    var fields: seq<string> := [];
    for k := 0 to |matches|
      invariant |fields| == k && forall j :: 0 <= j < k ==> fields[j] == ObservableField(matches[j])
    {
      var m := matches[k];
      var ty := m.typeName;
      var name := m.name;
      var field := "_" + [ToLower(name[0])] + name[1..];
      var line := "[ObservableProperty]" + NewLine + "private " + ty + " " + field + ";";
      FieldAppended(fields, matches, k, line);
      fields := fields + [line];
    }
    assert fields == Fields(matches);
    r := Join(FieldSeparator, fields);
  }

  // The field built in the loop is the match's field, and the earlier ones stay.
  lemma FieldAppended(fields: seq<string>, ms: seq<PropertyMatch>, k: nat, line: string)
    requires k < |ms| && ms[k].name != [] && |fields| == k
    requires forall j :: 0 <= j < k ==> ms[j].name != [] && fields[j] == ObservableField(ms[j])
    requires line == "[ObservableProperty]" + NewLine + "private " + ms[k].typeName + " "
      + ("_" + [ToLower(ms[k].name[0])] + ms[k].name[1..]) + ";"
    ensures var f := fields + [line];
      forall j :: 0 <= j <= k ==> f[j] == ObservableField(ms[j])
  {
  }

  /** `Execute`: the trimmed selection is converted, and the result is
      inserted when it is not blank. */
  method ConvertSelection(selectedText: string) returns (output: string, replace: bool)
    ensures output == ObservableOutput(Trim(selectedText))
    ensures replace <==> !Blank(output)
  {
    var selected := Trim(selectedText);
    output := ConvertAllPropertiesToObservableFields(selected);
    replace := !Blank(output);
  }

  /** The joined fields are empty exactly when there is no match, and
      not blank exactly when there is one. */
  lemma JoinedFieldsEmptyIff(ms: seq<PropertyMatch>)
    requires forall k :: 0 <= k < |ms| ==> ms[k].name != []
    ensures Join(FieldSeparator, Fields(ms)) == [] <==> ms == []
    ensures !Blank(Join(FieldSeparator, Fields(ms))) <==> ms != []
  {
    var fs := Fields(ms);
    if fs != [] {
      assert fs[0][0] == '[';
      JoinFirst(FieldSeparator, fs);
    }
  }

  /** The output is empty exactly when neither pattern matches, and it is
      inserted (it is not blank) exactly when one does. */
  lemma OutputEmptyIff(s: string)
    ensures ObservableOutput(s) == [] <==> !PatternOccurs(s, AutoProperty) && !PatternOccurs(s, FullProperty)
    ensures !Blank(ObservableOutput(s)) <==> PatternOccurs(s, AutoProperty) || PatternOccurs(s, FullProperty)
  {
    MatchesIffOccurs(s, AutoProperty);
    MatchesIffOccurs(s, FullProperty);
    PropertyMatchesFacts(s);
    JoinedFieldsEmptyIff(PropertyMatches(s));
  }

  // A join starts with its first part when that part is non-empty.
  lemma JoinFirst(sep: string, parts: seq<string>)
    requires parts != [] && parts[0] != []
    ensures Join(sep, parts) != [] && Join(sep, parts)[0] == parts[0][0]
  {
  }

  // ---------------------------------------------------------------------
  // Properties matched twice

  /** An auto property on its own. */
  const AutoSample: string := "public int X { get; set; }"

  /** The field it should become. */
  const AutoSampleField: string := "[ObservableProperty]" + NewLine + "private int _x;"

  // The head of the sample: `public`, ` `, `int`, ` `, `X`, ` `, `{`.
  lemma AutoSampleHead()
    ensures Parse(AutoSample, HeadPattern, 0, [6, 7, 10, 11, 12, 13, 14])
  {
    var s, ends := AutoSample, [6, 7, 10, 11, 12, 13, 14];
    AutoSampleGroups(ends);
    forall k | 0 <= k < 7
      ensures SpanOk(s, HeadPattern[k], StartOf(0, ends, k), ends[k], GroupOf(s, HeadPattern, 0, ends, k))
    {
      if k < 3 { AutoSampleHeadTokA(ends, k); } else { AutoSampleHeadTokB(ends, k); }
    }
  }

  // Token `k` of the head spans its part of the sample: the modifier and
  // the type.
  lemma AutoSampleHeadTokA(ends: seq<nat>, k: nat)
    requires ends == [6, 7, 10, 11, 12, 13, 14] && k < 3
    ensures Bounded(AutoSample, 0, ends)
    ensures SpanOk(AutoSample, HeadPattern[k], StartOf(0, ends, k), ends[k], None)
  {
    var s := AutoSample;
    AutoSampleGroups(ends);
    if k == 0 {
      assert s[0..6] == "public" && s[0..6] in Visibilities;
    } else if k == 1 {
      assert s[6..7] == " " && Blank(s[6..7]);
    } else {
      assert s[7..10] == "int";
    }
  }

  // ... and the name and the opening brace.
  lemma AutoSampleHeadTokB(ends: seq<nat>, k: nat)
    requires ends == [6, 7, 10, 11, 12, 13, 14] && 3 <= k < 7
    ensures Bounded(AutoSample, 0, ends)
    ensures SpanOk(AutoSample, HeadPattern[k], StartOf(0, ends, k), ends[k], None)
  {
    var s := AutoSample;
    AutoSampleGroups(ends);
    if k == 3 {
      assert s[10] == ' ' && s[10..11] == [s[10]];
    } else if k == 4 {
      assert s[11] == 'X' && s[11..12] == [s[11]];
    } else if k == 5 {
      assert s[12] == ' ' && s[12..13] == [s[12]];
    } else {
      assert s[13] == '{' && s[13..14] == [s[13]];
    }
  }

  // A match at 0 that runs to the end of the text is the only match.
  lemma SingleMatch(s: string, kind: PatternKind, m: PropertyMatch)
    requires MatchAtPos(s, kind, 0) == Some(m) && m.end == |s|
    ensures Matches(s, kind) == [m]
  {
    var found := Found(s, kind);
    FoundConsistent(s, kind);
    assert found[0] == Some(m);
    NextInLeftmost(found, |s|);
    assert AllIn(found, |s|) == [];
  }

  // After the head, the sample is ` get; set; }`, a tail of both kinds.
  lemma AutoSampleTail(kind: PatternKind)
    ensures Tail(AutoSample, kind, 14, 26)
  {
    var s := AutoSample;
    assert s[14..15] == " " && Blank(s[14..15]);
    assert LitAt(s, 15, "get;") && LitAt(s, 20, "set;") && s[25] == '}';
    assert LitAt(s, 15, "get") && LitAt(s, 20, "set");
  }

  // Both patterns match the whole sample at 0, with groups `int` and `X`.
  lemma AutoSampleMatch(kind: PatternKind)
    ensures MatchAtPos(AutoSample, kind, 0) == Some(PropertyMatch(0, 26, "int", "X"))
  {
    var ends := [6, 7, 10, 11, 12, 13, 14];
    AutoSampleHead();
    AutoSampleTail(kind);
    AutoSampleGroups(ends);
    MatchAtPosComplete(AutoSample, kind, 0, ends, 26);
    var m := MatchAtPos(AutoSample, kind, 0).value;
    assert m.start == 0 && m.end == 26 && m.typeName == "int" && m.name == "X";
  }

  // The sample's type group is `int` and its name group `X`.
  lemma AutoSampleGroups(ends: seq<nat>)
    requires ends == [6, 7, 10, 11, 12, 13, 14]
    ensures Bounded(AutoSample, 0, ends)
    ensures Span(AutoSample, 0, ends, HeadType) == "int" && Span(AutoSample, 0, ends, HeadName) == "X"
  {
    assert AutoSample[7..10] == "int" && AutoSample[11..12] == "X";
  }

  /** Each pattern finds the sample once, as a whole. */
  lemma AutoSampleMatches(kind: PatternKind)
    ensures Matches(AutoSample, kind) == [PropertyMatch(0, 26, "int", "X")]
  {
    AutoSampleMatch(kind);
    SingleMatch(AutoSample, kind, PropertyMatch(0, 26, "int", "X"));
  }

  // The field written for the sample's match.
  lemma AutoSampleFieldFor(m: PropertyMatch)
    requires m == PropertyMatch(0, 26, "int", "X")
    ensures ObservableField(m) == AutoSampleField
  {
    assert FieldNameFor("X") == "_x";
  }

  /** As written, both patterns match the sample at the same place with
      the same groups, so the command emits its field twice: a duplicate
      member declaration. */
  lemma AutoSampleConvertedTwice()
    ensures PropertyMatches(AutoSample) == [PropertyMatch(0, 26, "int", "X"), PropertyMatch(0, 26, "int", "X")]
    ensures ObservableOutput(AutoSample) == AutoSampleField + FieldSeparator + AutoSampleField
  {
    var m := PropertyMatch(0, 26, "int", "X");
    AutoSampleMatches(AutoProperty);
    AutoSampleMatches(FullProperty);
    OutputOfTwo(AutoSample, m);
    AutoSampleFieldFor(m);
  }

  // Two matches give their two fields with a blank line between them.
  lemma OutputOfTwo(s: string, m: PropertyMatch)
    requires Matches(s, AutoProperty) == [m] && Matches(s, FullProperty) == [m] && m.name != []
    ensures PropertyMatches(s) == [m, m]
    ensures ObservableOutput(s) == ObservableField(m) + FieldSeparator + ObservableField(m)
  {
    assert PropertyMatches(s) == [m, m];
    FieldsOfTwo(m);
  }

  lemma FieldsOfTwo(m: PropertyMatch)
    requires m.name != []
    ensures Join(FieldSeparator, Fields([m, m])) == ObservableField(m) + FieldSeparator + ObservableField(m)
  {
    var f := ObservableField(m);
    assert Fields([m, m]) == [f, f];
    assert [f, f][1..] == [f];
  }

  /** The matches start at increasing positions. */
  predicate Increasing(ms: seq<PropertyMatch>) {
    forall a, b :: 0 <= a < b < |ms| ==> ms[a].start < ms[b].start
  }

  lemma MatchesIncreasing(s: string, kind: PatternKind)
    ensures Increasing(Matches(s, kind))
  {
    var found := Found(s, kind);
    FoundConsistent(s, kind);
    AllInSpec(found, 0);
  }

  /** The starts of a list of matches. */
  function StartsOf(ms: seq<PropertyMatch>): set<nat> {
    set m | m in ms :: m.start
  }

  /** The matches of `ms` that do not start at one of `starts`, in order. */
  function Unclaimed(ms: seq<PropertyMatch>, starts: set<nat>): seq<PropertyMatch> {
    if ms == [] then []
    else (if ms[0].start in starts then [] else [ms[0]]) + Unclaimed(ms[1..], starts)
  }

  /** The kept matches are exactly those not starting at one of `starts`,
      still in increasing order. */
  lemma UnclaimedSpec(ms: seq<PropertyMatch>, starts: set<nat>)
    ensures forall m :: m in Unclaimed(ms, starts) <==> m in ms && m.start !in starts
    ensures Increasing(ms) ==> Increasing(Unclaimed(ms, starts))
  {
    UnclaimedMembers(ms, starts);
    if Increasing(ms) {
      UnclaimedIncreasing(ms, starts);
    }
  }

  lemma {:induction false} UnclaimedMembers(ms: seq<PropertyMatch>, starts: set<nat>)
    ensures forall m :: m in Unclaimed(ms, starts) <==> m in ms && m.start !in starts
  {
    if ms != [] {
      UnclaimedMembers(ms[1..], starts);
      assert ms == [ms[0]] + ms[1..];
    }
  }

  lemma {:induction false} UnclaimedIncreasing(ms: seq<PropertyMatch>, starts: set<nat>)
    requires Increasing(ms)
    ensures Increasing(Unclaimed(ms, starts))
  {
    if ms != [] {
      var rest := Unclaimed(ms[1..], starts);
      assert Increasing(ms[1..]) by {
        forall a, b | 0 <= a < b < |ms[1..]| ensures ms[1..][a].start < ms[1..][b].start {
          assert ms[1..][a] == ms[a + 1] && ms[1..][b] == ms[b + 1];
        }
      }
      UnclaimedIncreasing(ms[1..], starts);
      UnclaimedMembers(ms[1..], starts);
      forall m | m in rest ensures ms[0].start < m.start {
        var k :| 0 <= k < |ms[1..]| && ms[1..][k] == m;
        assert ms[k + 1] == m;
      }
    }
  }

  /** One match per property: the auto matches, then the full matches that
      do not start where an auto match does. */
  function DistinctPropertyMatches(s: string): seq<PropertyMatch> {
    var autos := Matches(s, AutoProperty);
    autos + Unclaimed(Matches(s, FullProperty), StartsOf(autos))
  }

  /** No two of the kept matches start at the same place, and every place
      at which a property was found keeps a match. */
  lemma DistinctPropertyMatchesSpec(s: string)
    ensures var r := DistinctPropertyMatches(s);
      forall a, b :: 0 <= a < b < |r| ==> r[a].start != r[b].start
    ensures StartsOf(DistinctPropertyMatches(s)) == StartsOf(PropertyMatches(s))
  {
    var autos := Matches(s, AutoProperty);
    var fulls := Matches(s, FullProperty);
    var u := Unclaimed(fulls, StartsOf(autos));
    var r := autos + u;
    UnclaimedSpec(fulls, StartsOf(autos));
    MatchesIncreasing(s, AutoProperty);
    MatchesIncreasing(s, FullProperty);
    forall a, b | 0 <= a < b < |r| ensures r[a].start != r[b].start {
      if b < |autos| {
      } else if a >= |autos| {
        assert r[a] == u[a - |autos|] && r[b] == u[b - |autos|];
      } else {
        assert r[a] in autos && r[b] in u;
      }
    }
    forall x: nat ensures x in StartsOf(r) <==> x in StartsOf(autos + fulls) {
      if x in StartsOf(autos + fulls) {
        var m: PropertyMatch :| m in autos + fulls && m.start == x;
        if m !in autos && x !in StartsOf(autos) {
          assert m in u;
        }
      }
    }
  }

  // Keeping some of the full matches keeps every name non-empty.
  lemma NamesKept(autos: seq<PropertyMatch>, fulls: seq<PropertyMatch>, starts: set<nat>)
    requires forall k :: 0 <= k < |autos| ==> autos[k].name != []
    requires forall k :: 0 <= k < |fulls| ==> fulls[k].name != []
    ensures var r := autos + Unclaimed(fulls, starts); forall k :: 0 <= k < |r| ==> r[k].name != []
  {
    var u := Unclaimed(fulls, starts);
    UnclaimedSpec(fulls, starts);
    forall k | 0 <= k < |autos + u| ensures (autos + u)[k].name != [] {
      if k >= |autos| {
        assert (autos + u)[k] in u;
      }
    }
  }

  lemma DistinctNamesNonEmpty(s: string)
    ensures var r := DistinctPropertyMatches(s); forall k :: 0 <= k < |r| ==> r[k].name != []
  {
    MatchesFacts(s, AutoProperty);
    MatchesFacts(s, FullProperty);
    var autos := Matches(s, AutoProperty);
    NamesKept(autos, Matches(s, FullProperty), StartsOf(autos));
    assert DistinctPropertyMatches(s) == autos + Unclaimed(Matches(s, FullProperty), StartsOf(autos));
  }

  /** The text the command evidently means to produce: one field per
      property. */
  function DistinctObservableOutput(s: string): string {
    DistinctNamesNonEmpty(s);
    Join(FieldSeparator, Fields(DistinctPropertyMatches(s)))
  }

  /** When both patterns find the same single match, one match is kept. */
  lemma DistinctOfSame(s: string, m: PropertyMatch)
    requires Matches(s, AutoProperty) == [m] && Matches(s, FullProperty) == [m]
    ensures DistinctPropertyMatches(s) == [m]
  {
    assert StartsOf([m]) == {m.start};
    assert Unclaimed([m], {m.start}) == [];
  }

  /** Keeping one match per start leaves the sample with one match. */
  lemma AutoSampleDistinct()
    ensures DistinctPropertyMatches(AutoSample) == [PropertyMatch(0, 26, "int", "X")]
  {
    AutoSampleMatches(AutoProperty);
    AutoSampleMatches(FullProperty);
    DistinctOfSame(AutoSample, PropertyMatch(0, 26, "int", "X"));
  }

  /** With one match per property, the sample's field is declared once. */
  lemma AutoSampleConvertedOnce()
    ensures DistinctObservableOutput(AutoSample) == AutoSampleField
  {
    var m := PropertyMatch(0, 26, "int", "X");
    AutoSampleDistinct();
    AutoSampleFieldFor(m);
    assert Fields([m]) == [AutoSampleField];
  }
}
