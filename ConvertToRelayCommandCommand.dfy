/** SsRefactor/ConvertToRelayCommandCommand.cs: the selected code's command
    constructions are rewritten for the MVVM toolkit's `RelayCommand` by
    four successive `Regex.Replace` passes, and the menu entry is shown
    when the selection constructs a command.

    The passes are written without `RegexOptions.Singleline`, so `.` is any
    character but a line feed; the recogniser is written with it. Each
    pattern is modelled as the .NET engine runs it: the match at a
    position is the first alternative in the engine's priority order
    (greedy runs longest first, lazy `.*?` shortest first), and
    `Regex.Replace` takes the leftmost match, substitutes it and goes on
    from its end. */
module ConvertToRelayCommandCommand {
  import opened Wrappers
  import opened Text
  import opened Tokens

  /** No line feed in `s[a..b]`: `.` without `RegexOptions.Singleline`. */
  predicate OnLine(s: string, a: nat, b: nat)
    requires a <= b <= |s|
  {
    forall k :: a <= k < b ==> s[k] != '\n'
  }

  /** `[A-Za-z_]`, the first character of a method name. */
  predicate IsIdentStart(c: char) {
    ('a' <= c <= 'z') || ('A' <= c <= 'Z') || c == '_'
  }

  /** `new\s+` and then `name` at `i`. Every name the patterns expect
      starts with a letter, so the whitespace run is the longest one. */
  predicate NewThen(s: string, i: nat, name: string) {
    LitAt(s, i, "new") && i + 3 < WsEnd(s, i + 3) && LitAt(s, WsEnd(s, i + 3), name)
  }

  /** Where the command name after `new` ends. */
  function NameEnd(s: string, i: nat, name: string): (g: nat)
    requires NewThen(s, i, name)
    ensures i + 3 < g - |name| && g <= |s| && LitAt(s, g - |name|, name)
  {
    WsEnd(s, i + 3) + |name|
  }

  /** `(?!\s*=>)` at `e`: no arrow after optional whitespace. */
  predicate NoArrowAfter(s: string, e: nat)
    requires e <= |s|
  {
    forall q :: e <= q <= |s| && Blank(s[e..q]) ==> !LitAt(s, q, "=>")
  }

  /** The lookahead only needs to look past the longest whitespace run. */
  lemma NoArrowAfterIff(s: string, e: nat)
    requires e <= |s|
    ensures NoArrowAfter(s, e) <==> !LitAt(s, WsEnd(s, e), "=>")
  {
    if !NoArrowAfter(s, e) {
      var q :| e <= q <= |s| && Blank(s[e..q]) && LitAt(s, q, "=>");
      WsEndExact(s, e, q);
    }
  }

  // ---------------------------------------------------------------------
  // What follows the command name and its generic text

  /** The rest of a rewrite pattern after the command name and the text
      captured as its generic arguments. */
  datatype Tail =
    | Nothing      // the pattern ends there (the first pass)
    | MethodGroup  // `\((\s*)([A-Za-z_][A-Za-z0-9_]*)\s*\)(?!\s*=>)`
    | AsyncArrow   // `\(\s*async\s*=>`
    | AsyncParams  // `\(\s*async\s*\((.*?)\)\s*=>`

  /** A tail's match: its capture (the method name, or the lambda's
      parameters) is `[groupStart, groupEnd)` and it ends at `end`. */
  datatype TailMatch = TailMatch(groupStart: nat, groupEnd: nat, end: nat)

  /** `\)\s*=>` at `k`. */
  predicate Closes(s: string, k: nat)
    requires k < |s|
  {
    s[k] == ')' && LitAt(s, WsEnd(s, k + 1), "=>")
  }

  /** `(.*?)\)\s*=>` from `q`: the first `)` on the line that an arrow
      follows. */
  function ParamsClose(s: string, q: nat): (r: Option<nat>)
    requires q <= |s|
    ensures r.Some? ==> q <= r.value < |s| && Closes(s, r.value)
    decreases |s| - q
  {
    if q == |s| then None
    else if Closes(s, q) then Some(q)
    else if s[q] == '\n' then None
    else ParamsClose(s, q + 1)
  }

  /** `\(\s*async\s*` at `p`: where the whitespace after `async` ends. */
  function AsyncOpen(s: string, p: nat): (r: Option<nat>)
    requires p <= |s|
    ensures r.Some? ==> p < r.value <= |s|
  {
    if p < |s| && s[p] == '(' && LitAt(s, WsEnd(s, p + 1), "async") then Some(WsEnd(s, WsEnd(s, p + 1) + 5))
    else None
  }

  /** `\((\s*)([A-Za-z_][A-Za-z0-9_]*)\s*\)(?!\s*=>)` at `p`. Every run is
      followed by a character it cannot contain, so only the longest run
      can succeed and the engine's backtracking finds nothing else. */
  function MethodGroupAt(s: string, p: nat): (r: Option<TailMatch>)
    requires p <= |s|
    ensures r.Some? ==> p < r.value.groupStart <= r.value.groupEnd < r.value.end <= |s| && s[p] == '('
  {
    if p < |s| && s[p] == '(' then NameAt(s, WsEnd(s, p + 1)) else None
  }

  /** `([A-Za-z_][A-Za-z0-9_]*)\s*\)(?!\s*=>)` at `a`. */
  function NameAt(s: string, a: nat): (r: Option<TailMatch>)
    requires a <= |s|
    ensures r.Some? ==> a == r.value.groupStart < r.value.groupEnd < r.value.end <= |s|
  {
    if a < |s| && IsIdentStart(s[a]) then CloseAt(s, a, ClassEnd(s, a + 1, Word)) else None
  }

  /** `\s*\)(?!\s*=>)` at `b`, after the name `s[a..b]`. */
  function CloseAt(s: string, a: nat, b: nat): (r: Option<TailMatch>)
    requires a < b <= |s|
    ensures r.Some? ==> a == r.value.groupStart && b == r.value.groupEnd < r.value.end <= |s|
  {
    var c := WsEnd(s, b);
    if c < |s| && s[c] == ')' && !LitAt(s, WsEnd(s, c + 1), "=>") then Some(TailMatch(a, b, c + 1)) else None
  }

  /** `\(\s*async\s*=>` at `p`. */
  function AsyncArrowAt(s: string, p: nat): (r: Option<TailMatch>)
    requires p <= |s|
    ensures r.Some? ==> p < r.value.groupStart <= r.value.groupEnd <= r.value.end <= |s| && s[p] == '('
  {
    match AsyncOpen(s, p)
    case Some(b) => ArrowFrom(s, b)
    case None => None
  }

  /** `=>` at `b`. */
  function ArrowFrom(s: string, b: nat): (r: Option<TailMatch>)
    requires b <= |s|
    ensures r.Some? ==> b < r.value.groupStart <= r.value.groupEnd <= r.value.end <= |s|
  {
    if LitAt(s, b, "=>") then Some(TailMatch(b + 2, b + 2, b + 2)) else None
  }

  /** `\(\s*async\s*\((.*?)\)\s*=>` at `p`: the lazy parameter text takes
      the first `)` that an arrow follows. */
  function AsyncParamsAt(s: string, p: nat): (r: Option<TailMatch>)
    requires p <= |s|
    ensures r.Some? ==> p < r.value.groupStart <= r.value.groupEnd < r.value.end <= |s| && s[p] == '('
  {
    match AsyncOpen(s, p)
    case Some(b) => ParamsFrom(s, b)
    case None => None
  }

  /** `\((.*?)\)\s*=>` at `b`. */
  function ParamsFrom(s: string, b: nat): (r: Option<TailMatch>)
    requires b <= |s|
    ensures r.Some? ==> b < r.value.groupStart <= r.value.groupEnd < r.value.end <= |s|
  {
    if b < |s| && s[b] == '(' then
      (match ParamsClose(s, b + 1)
       case Some(q) => Some(TailMatch(b + 1, q, WsEnd(s, q + 1) + 2))
       case None => None)
    else None
  }

  /** The tail at `p`. */
  function TailAt(s: string, p: nat, tail: Tail): (r: Option<TailMatch>)
    requires p <= |s|
    ensures r.Some? ==> p <= r.value.groupStart <= r.value.groupEnd <= r.value.end <= |s|
    ensures r.Some? && tail != Nothing ==> p < r.value.end && s[p] == '('
  {
    match tail
    case Nothing => Some(TailMatch(p, p, p))
    case MethodGroup => MethodGroupAt(s, p)
    case AsyncArrow => AsyncArrowAt(s, p)
    case AsyncParams => AsyncParamsAt(s, p)
  }

  // ---------------------------------------------------------------------
  // Lazy text before the tail

  /** The tail's match at every position of `s`, the end included. The
      sequence is built recursively so that its entries are related to
      `TailAt` only where `TailsAt` is called. */
  function Tails(s: string, tail: Tail): seq<Option<TailMatch>> {
    TailsFrom(s, tail, 0)
  }

  function TailsFrom(s: string, tail: Tail, p: nat): seq<Option<TailMatch>>
    requires p <= |s| + 1
    decreases |s| + 1 - p
  {
    if p == |s| + 1 then [] else [TailAt(s, p, tail)] + TailsFrom(s, tail, p + 1)
  }

  lemma {:induction false} TailsFromAt(s: string, tail: Tail, p: nat)
    requires p <= |s| + 1
    ensures |TailsFrom(s, tail, p)| == |s| + 1 - p
    ensures forall k :: p <= k <= |s| ==> TailsFrom(s, tail, p)[k - p] == TailAt(s, k, tail)
    decreases |s| + 1 - p
  {
    if p <= |s| {
      TailsFromAt(s, tail, p + 1);
      var r := TailsFrom(s, tail, p + 1);
      assert TailsFrom(s, tail, p) == [TailAt(s, p, tail)] + r;
      forall k | p < k <= |s| ensures TailsFrom(s, tail, p)[k - p] == TailAt(s, k, tail) {
        assert TailsFrom(s, tail, p)[k - p] == r[k - (p + 1)];
      }
    }
  }

  lemma TailsAt(s: string, tail: Tail, p: nat)
    requires p <= |s|
    ensures |Tails(s, tail)| == |s| + 1 && Tails(s, tail)[p] == TailAt(s, p, tail)
  {
    TailsFromAt(s, tail, 0);
  }

  /** Every tail match lies within the text after its start. */
  predicate Within(s: string, ts: seq<Option<TailMatch>>) {
    |ts| == |s| + 1
    && forall p :: 0 <= p <= |s| && ts[p].Some? ==>
      p <= ts[p].value.groupStart <= ts[p].value.groupEnd <= ts[p].value.end <= |s|
  }

  /** Every tail match starts with `(`. */
  predicate Opening(s: string, ts: seq<Option<TailMatch>>)
    requires |ts| == |s| + 1
  {
    forall p :: 0 <= p <= |s| && ts[p].Some? ==> p < |s| && s[p] == '('
  }

  lemma TailsFacts(s: string, tail: Tail)
    ensures Within(s, Tails(s, tail))
    ensures tail != Nothing ==> Opening(s, Tails(s, tail))
  {
    TailsFromAt(s, tail, 0);
    forall p | 0 <= p <= |s| ensures Tails(s, tail)[p] == TailAt(s, p, tail) {
      TailsAt(s, tail, p);
    }
  }

  /** The tail after lazy text ending at `j`: directly after it, or after a
      closing `>` when the text is the inside of `<.*?>`. */
  function After(s: string, ts: seq<Option<TailMatch>>, j: nat, closed: bool): Option<TailMatch>
    requires Within(s, ts) && j <= |s|
  {
    if !closed then ts[j]
    else if j < |s| && s[j] == '>' then ts[j + 1]
    else None
  }

  /** `.*?` from `k` and then the tail: the first end `j` on the line after
      which the tail matches. */
  function Lazy(s: string, ts: seq<Option<TailMatch>>, k: nat, closed: bool): (r: Option<(nat, TailMatch)>)
    requires Within(s, ts) && k <= |s|
    ensures r.Some? ==> k <= r.value.0 <= |s| && After(s, ts, r.value.0, closed) == Some(r.value.1)
    decreases |s| - k
  {
    match After(s, ts, k, closed)
    case Some(t) => Some((k, t))
    case None => if k == |s| || s[k] == '\n' then None else Lazy(s, ts, k + 1, closed)
  }

  /** `(<.*?>)?` at `g`: empty, or `<`, text on one line, `>`. */
  predicate GenericText(s: string, g: nat, e: nat)
    requires g <= e <= |s|
  {
    e == g || (g + 2 <= e && s[g] == '<' && s[e - 1] == '>' && OnLine(s, g + 1, e - 1))
  }

  /** `(<.*?>)?` at `g` and then the tail: the end of the generic text and
      the tail's match. The group is tried first, with its text as short
      as the tail allows; only when no `>` on the line works is it left
      out. */
  function OptGeneric(s: string, ts: seq<Option<TailMatch>>, g: nat): (r: Option<(nat, TailMatch)>)
    requires Within(s, ts) && g <= |s|
    ensures r.Some? ==> g <= r.value.0 <= |s| && ts[r.value.0] == Some(r.value.1)
  {
    var group := if g < |s| && s[g] == '<' then Lazy(s, ts, g + 1, true) else None;
    match group
    case Some((j, t)) => Some((j + 1, t))
    case None =>
      match ts[g]
      case Some(t) => Some((g, t))
      case None => None
  }

  // ---------------------------------------------------------------------
  // The four passes

  /** The passes of `TryConvertToRelayCommand`, in order, and the method
      group pass as evidently intended (see `MethodGroupFixed`). */
  datatype Pass =
    | CommandToRelay     // `new\s+Command(<.*?>)?` to `new RelayCommand$1`
    | MethodGroupLambda  // a lone method name to a lambda calling it
    | AsyncArrowParens   // `async =>` to `async () =>`
    | AsyncParamsSpacing // `async (p) =>`, rewritten with single spaces
    | MethodGroupFixed   // the method group pass with `(<.*?>)?` as its generic text

  /** A rewrite: the match ends at `end` and is replaced by `text`. */
  datatype Rewrite = Rewrite(end: nat, text: string)

  /** The match of a pass at `i` and its replacement, or None when the
      pattern does not match there. */
  function RewriteAt(p: Pass, s: string, i: nat): (r: Option<Rewrite>)
    ensures r.Some? ==> LitAt(s, i, "new") && i + 3 < r.value.end <= |s|
  {
    match p
    case CommandToRelay => CommandRewrite(s, i)
    case MethodGroupLambda => MethodGroupRewrite(s, i, false)
    case MethodGroupFixed => MethodGroupRewrite(s, i, true)
    case AsyncArrowParens => AsyncArrowRewrite(s, i)
    case AsyncParamsSpacing => AsyncParamsRewrite(s, i)
  }

  /** `new\s+Command(<.*?>)?` at `i`. */
  function CommandRewrite(s: string, i: nat): (r: Option<Rewrite>)
    ensures r.Some? ==> LitAt(s, i, "new") && i + 3 < r.value.end <= |s|
  {
    if NewThen(s, i, "Command") then
      var g := NameEnd(s, i, "Command");
      TailsFacts(s, Nothing);
      match OptGeneric(s, Tails(s, Nothing), g)
      case Some((e, _)) => Some(Rewrite(e, "new RelayCommand" + s[g..e]))
      case None => None
    else None
  }

  /** `new\s+(Async)?RelayCommand` at `i`: whether it is the async command,
      and where its name ends. */
  function RelayName(s: string, i: nat): (r: Option<(bool, nat)>)
    ensures r.Some? ==> LitAt(s, i, "new") && i + 3 < r.value.1 <= |s|
    ensures r.Some? ==> NewThen(s, i, if r.value.0 then "AsyncRelayCommand" else "RelayCommand")
  {
    if NewThen(s, i, "AsyncRelayCommand") then Some((true, NameEnd(s, i, "AsyncRelayCommand")))
    else if NewThen(s, i, "RelayCommand") then Some((false, NameEnd(s, i, "RelayCommand")))
    else None
  }

  /** The method group pass at `i`: `.*?` as the generic text as written,
      `(<.*?>)?` when `fixed`. */
  function MethodGroupRewrite(s: string, i: nat, fixed: bool): (r: Option<Rewrite>)
    ensures r.Some? ==> LitAt(s, i, "new") && i + 3 < r.value.end <= |s|
  {
    match RelayName(s, i)
    case Some((isAsync, g)) =>
      TailsFacts(s, MethodGroup);
      var ts := Tails(s, MethodGroup);
      var m := if fixed then OptGeneric(s, ts, g) else Lazy(s, ts, g, false);
      (match m
       case Some((j, t)) => Some(Rewrite(t.end, Lambda(isAsync, s[g..j], s[t.groupStart..t.groupEnd])))
       case None => None)
    case None => None
  }

  /** `new\s+AsyncRelayCommand(<.*?>)?\(\s*async\s*=>` at `i`. */
  function AsyncArrowRewrite(s: string, i: nat): (r: Option<Rewrite>)
    ensures r.Some? ==> LitAt(s, i, "new") && i + 3 < r.value.end <= |s|
  {
    if NewThen(s, i, "AsyncRelayCommand") then
      var g := NameEnd(s, i, "AsyncRelayCommand");
      TailsFacts(s, AsyncArrow);
      match OptGeneric(s, Tails(s, AsyncArrow), g)
      case Some((e, t)) => Some(Rewrite(t.end, "new AsyncRelayCommand" + s[g..e] + "(async () =>"))
      case None => None
    else None
  }

  /** `new\s+AsyncRelayCommand(<.*?>)?\(\s*async\s*\((.*?)\)\s*=>` at `i`. */
  function AsyncParamsRewrite(s: string, i: nat): (r: Option<Rewrite>)
    ensures r.Some? ==> LitAt(s, i, "new") && i + 3 < r.value.end <= |s|
  {
    if NewThen(s, i, "AsyncRelayCommand") then
      var g := NameEnd(s, i, "AsyncRelayCommand");
      TailsFacts(s, AsyncParams);
      match OptGeneric(s, Tails(s, AsyncParams), g)
      case Some((e, t)) =>
        Some(Rewrite(t.end, "new AsyncRelayCommand" + s[g..e] + "(async (" + s[t.groupStart..t.groupEnd] + ") =>"))
      case None => None
    else None
  }

  /** The method group pass's replacement: a lambda that calls the method,
      awaited for an `AsyncRelayCommand`. */
  function Lambda(isAsync: bool, generic: string, methodName: string): string {
    if isAsync then "new AsyncRelayCommand" + generic + "(async () => await " + methodName + "())"
    else "new RelayCommand" + generic + "(() => " + methodName + "())"
  }

  /** The rewrite a pass finds at each position of `s`. */
  function Hits(p: Pass, s: string): (hits: seq<Option<Rewrite>>)
    ensures |hits| == |s| && forall k :: 0 <= k < |s| ==> hits[k] == RewriteAt(p, s, k)
  {
    seq(|s|, k requires 0 <= k < |s| => RewriteAt(p, s, k))
  }

  /** Every rewrite found ends after its start and within the text. */
  predicate Advancing(s: string, hits: seq<Option<Rewrite>>) {
    |hits| == |s| && forall k :: 0 <= k < |s| && hits[k].Some? ==> k < hits[k].value.end <= |s|
  }

  lemma HitsAdvance(p: Pass, s: string)
    ensures Advancing(s, Hits(p, s))
  {
  }

  /** `Regex.Replace` from `i`: each leftmost match is replaced and the
      search goes on from its end. */
  function ReplaceFrom(s: string, hits: seq<Option<Rewrite>>, i: nat): string
    requires Advancing(s, hits) && i <= |s|
    decreases |s| - i
  {
    if i == |s| then []
    else
      match hits[i]
      case Some(h) => h.text + ReplaceFrom(s, hits, h.end)
      case None => [s[i]] + ReplaceFrom(s, hits, i + 1)
  }

  function Replace(p: Pass, s: string): string {
    HitsAdvance(p, s);
    ReplaceFrom(s, Hits(p, s), 0)
  }

  /** The four passes in order. */
  function Converted(s: string): string {
    Replace(AsyncParamsSpacing, Replace(AsyncArrowParens, Replace(MethodGroupLambda, Replace(CommandToRelay, s))))
  }

  /** The four passes with the method group pass as evidently intended. */
  function ConvertedFixed(s: string): string {
    Replace(AsyncParamsSpacing, Replace(AsyncArrowParens, Replace(MethodGroupFixed, Replace(CommandToRelay, s))))
  }

  /** `TryConvertToRelayCommand`: the rewritten text, or None (null) when
      the passes leave it unchanged. */
  method TryConvertToRelayCommand(selectedText: string) returns (r: Option<string>)
    ensures r.None? <==> Converted(selectedText) == selectedText
    ensures r.Some? ==> r.value == Converted(selectedText)
  {
    var result := selectedText;
    result := Replace(CommandToRelay, result);
    result := Replace(MethodGroupLambda, result);
    result := Replace(AsyncArrowParens, result);
    result := Replace(AsyncParamsSpacing, result);
    r := if result != selectedText then Some(result) else None;
  }

  // ---------------------------------------------------------------------
  // The lazy searches

  /** The lazy text stays on one line and stops at the first end after
      which the tail matches; when there is none on the line, the search
      fails. */
  lemma {:induction false} LazySpec(s: string, ts: seq<Option<TailMatch>>, k: nat, closed: bool)
    requires Within(s, ts) && k <= |s|
    ensures var r := Lazy(s, ts, k, closed);
      r.Some? ==> OnLine(s, k, r.value.0) && forall j :: k <= j < r.value.0 ==> After(s, ts, j, closed).None?
    ensures var r := Lazy(s, ts, k, closed);
      r.None? ==> forall j :: k <= j <= |s| && OnLine(s, k, j) ==> After(s, ts, j, closed).None?
    decreases |s| - k
  {
    if After(s, ts, k, closed).None? && k < |s| && s[k] != '\n' {
      LazySpec(s, ts, k + 1, closed);
      forall j | k < j <= |s| && OnLine(s, k, j) ensures OnLine(s, k + 1, j) {
      }
    }
  }

  /** Conversely, the first end on the line after which the tail matches
      is the one the search finds. */
  lemma LazyFirst(s: string, ts: seq<Option<TailMatch>>, k: nat, j: nat, closed: bool, t: TailMatch)
    requires Within(s, ts) && k <= j <= |s| && OnLine(s, k, j) && After(s, ts, j, closed) == Some(t)
    requires forall j' :: k <= j' < j ==> After(s, ts, j', closed).None?
    ensures Lazy(s, ts, k, closed) == Some((j, t))
  {
    LazySpec(s, ts, k, closed);
  }

  /** The parameter text stays on one line and ends at the first `)` that
      an arrow follows. */
  lemma {:induction false} ParamsCloseSpec(s: string, q: nat)
    requires q <= |s|
    ensures var r := ParamsClose(s, q);
      r.Some? ==> OnLine(s, q, r.value) && forall k :: q <= k < r.value ==> !Closes(s, k)
    ensures ParamsClose(s, q).None? ==> forall k :: q <= k < |s| && OnLine(s, q, k) ==> !Closes(s, k)
    decreases |s| - q
  {
    if q < |s| && !Closes(s, q) && s[q] != '\n' {
      ParamsCloseSpec(s, q + 1);
      forall k | q < k < |s| && OnLine(s, q, k) ensures OnLine(s, q + 1, k) {
      }
    }
  }

  // ---------------------------------------------------------------------
  // Regex.Replace

  /** Where no pass matches, the text is copied unchanged. */
  lemma {:induction false} ReplaceUntouched(s: string, hits: seq<Option<Rewrite>>, i: nat)
    requires Advancing(s, hits) && i <= |s|
    requires forall j :: i <= j < |s| ==> hits[j].None?
    ensures ReplaceFrom(s, hits, i) == s[i..]
    decreases |s| - i
  {
    if i < |s| {
      ReplaceUntouched(s, hits, i + 1);
      assert s[i..] == [s[i]] + s[i + 1..];
    }
  }

  /** The text before the leftmost match is kept, the match is replaced,
      and the search goes on after it. */
  lemma {:induction false} ReplaceLeftmost(s: string, hits: seq<Option<Rewrite>>, i: nat, j: nat)
    requires Advancing(s, hits) && i <= j < |s| && hits[j].Some?
    requires forall k :: i <= k < j ==> hits[k].None?
    ensures ReplaceFrom(s, hits, i) == s[i..j] + hits[j].value.text + ReplaceFrom(s, hits, hits[j].value.end)
    decreases j - i
  {
    var rest := hits[j].value.text + ReplaceFrom(s, hits, hits[j].value.end);
    if i == j {
      assert s[i..j] == [];
    } else {
      ReplaceLeftmost(s, hits, i + 1, j);
      assert ReplaceFrom(s, hits, i) == [s[i]] + (s[i + 1..j] + rest);
      assert s[i..j] == [s[i]] + s[i + 1..j];
    }
  }

  /** Every pattern starts with `new`, so a text without it is unchanged. */
  lemma NoNewUnchanged(p: Pass, s: string)
    requires !Contains(s, "new")
    ensures Replace(p, s) == s
  {
    var hits := Hits(p, s);
    HitsAdvance(p, s);
    forall j | 0 <= j < |s| ensures hits[j].None? {
      assert !LitAt(s, j, "new");
    }
    ReplaceUntouched(s, hits, 0);
  }

  /** `TryConvertToRelayCommand` returns null for a text without `new`. */
  lemma NoNewNotConverted(s: string)
    requires !Contains(s, "new")
    ensures Converted(s) == s
  {
    NoNewUnchanged(CommandToRelay, s);
    NoNewUnchanged(MethodGroupLambda, s);
    NoNewUnchanged(AsyncArrowParens, s);
    NoNewUnchanged(AsyncParamsSpacing, s);
  }

  // ---------------------------------------------------------------------
  // The tails, declaratively

  /** `\((\s*)([A-Za-z_][A-Za-z0-9_]*)\s*\)(?!\s*=>)` matches `s[p..e]`
      with the method name `s[a..b]`. */
  predicate MethodGroupText(s: string, p: nat, a: nat, b: nat, e: nat) {
    p < a < b < e <= |s| && s[p] == '(' && Blank(s[p + 1..a]) && IsIdentStart(s[a])
    && (forall k :: a < k < b ==> IsWord(s[k])) && Blank(s[b..e - 1]) && s[e - 1] == ')' && NoArrowAfter(s, e)
  }

  /** The method group tail finds exactly the lone method name in
      parentheses that no arrow follows: a parenthesised name followed by
      `=>` is a lambda's parameter and is not rewritten. */
  lemma MethodGroupIff(s: string, p: nat, a: nat, b: nat, e: nat)
    requires p <= |s|
    ensures MethodGroupAt(s, p) == Some(TailMatch(a, b, e)) <==> MethodGroupText(s, p, a, b, e)
  {
    if MethodGroupAt(s, p) == Some(TailMatch(a, b, e)) {
      MethodGroupSound(s, p);
    }
    if MethodGroupText(s, p, a, b, e) {
      MethodGroupComplete(s, p, a, b, e);
    }
  }

  lemma MethodGroupSound(s: string, p: nat)
    requires p <= |s|
    ensures var t := MethodGroupAt(s, p); t.Some? ==> MethodGroupText(s, p, t.value.groupStart, t.value.groupEnd, t.value.end)
  {
    var t := MethodGroupAt(s, p);
    if t.Some? {
      NoArrowAfterIff(s, t.value.end);
    }
  }

  lemma MethodGroupComplete(s: string, p: nat, a: nat, b: nat, e: nat)
    requires p <= |s| && MethodGroupText(s, p, a, b, e)
    ensures MethodGroupAt(s, p) == Some(TailMatch(a, b, e))
  {
    WsEndExact(s, b, e - 1);
    NoArrowAfterIff(s, e);
    assert CloseAt(s, a, b) == Some(TailMatch(a, b, e));
    if b < e - 1 {
      assert s[b..e - 1][0] == s[b];
    }
    ClassEndExact(s, a + 1, b, Word);
    assert NameAt(s, a) == Some(TailMatch(a, b, e));
    WsEndExact(s, p + 1, a);
  }

  /** `\(\s*async\s*=>` matches `s[p..y + 2]`, `async` starting at `x`. */
  predicate AsyncArrowText(s: string, p: nat, x: nat, y: nat) {
    p < x && x + 5 <= y && y + 2 <= |s| && s[p] == '(' && Blank(s[p + 1..x]) && LitAt(s, x, "async")
    && Blank(s[x + 5..y]) && LitAt(s, y, "=>")
  }

  lemma AsyncArrowIff(s: string, p: nat, x: nat, y: nat)
    requires p <= |s|
    ensures var t := AsyncArrowAt(s, p); t.Some? ==> AsyncArrowText(s, p, WsEnd(s, p + 1), t.value.end - 2)
    ensures AsyncArrowText(s, p, x, y) ==> AsyncArrowAt(s, p) == Some(TailMatch(y + 2, y + 2, y + 2))
  {
    AsyncArrowSound(s, p);
    if AsyncArrowText(s, p, x, y) {
      AsyncArrowComplete(s, p, x, y);
    }
  }

  lemma AsyncArrowSound(s: string, p: nat)
    requires p <= |s|
    ensures var t := AsyncArrowAt(s, p); t.Some? ==> AsyncArrowText(s, p, WsEnd(s, p + 1), t.value.end - 2)
  {
  }

  lemma AsyncArrowTextOf(s: string, p: nat, t: TailMatch)
    requires p <= |s| && AsyncArrowAt(s, p) == Some(t)
    ensures p < |s| && AsyncArrowText(s, p, WsEnd(s, p + 1), t.end - 2)
  {
    AsyncArrowSound(s, p);
  }

  lemma AsyncArrowComplete(s: string, p: nat, x: nat, y: nat)
    requires p <= |s| && AsyncArrowText(s, p, x, y)
    ensures AsyncArrowAt(s, p) == Some(TailMatch(y + 2, y + 2, y + 2))
  {
    WsEndExact(s, p + 1, x);
    WsEndExact(s, x + 5, y);
  }

  /** `\(\s*async\s*\((.*?)\)\s*=>` matches `s[p..z + 2]`, `async`
      starting at `x`, the parameters being `s[a..q]`: the lazy text ends
      at the first `)` on the line that an arrow follows. */
  predicate AsyncParamsText(s: string, p: nat, x: nat, a: nat, q: nat, z: nat) {
    p < x && x + 5 < a <= q < z && z + 2 <= |s| && s[p] == '(' && Blank(s[p + 1..x]) && LitAt(s, x, "async")
    && Blank(s[x + 5..a - 1]) && s[a - 1] == '(' && OnLine(s, a, q) && (forall k :: a <= k < q ==> !Closes(s, k))
    && s[q] == ')' && Blank(s[q + 1..z]) && LitAt(s, z, "=>")
  }

  lemma AsyncParamsSound(s: string, p: nat)
    requires p <= |s|
    ensures var t := AsyncParamsAt(s, p); t.Some? ==>
      AsyncParamsText(s, p, WsEnd(s, p + 1), t.value.groupStart, t.value.groupEnd, t.value.end - 2)
  {
    var t := AsyncParamsAt(s, p);
    if t.Some? {
      var y := AsyncOpen(s, p).value;
      AsyncOpenFacts(s, p);
      ParamsFromFacts(s, y);
      AsyncParamsJoin(s, p, WsEnd(s, p + 1), y, t.value);
    }
  }

  // The two parts of the tail make up the whole text.
  lemma AsyncParamsJoin(s: string, p: nat, x: nat, y: nat, t: TailMatch)
    requires p < x && x + 5 <= y < |s| && s[p] == '(' && Blank(s[p + 1..x]) && LitAt(s, x, "async")
    requires Blank(s[x + 5..y])
    requires s[y] == '(' && t.groupStart == y + 1 <= t.groupEnd < t.end - 2 && t.end <= |s|
    requires OnLine(s, y + 1, t.groupEnd) && (forall k :: y + 1 <= k < t.groupEnd ==> !Closes(s, k))
    requires s[t.groupEnd] == ')' && Blank(s[t.groupEnd + 1..t.end - 2]) && LitAt(s, t.end - 2, "=>")
    ensures AsyncParamsText(s, p, x, t.groupStart, t.groupEnd, t.end - 2)
  {
  }

  // What `\(\s*async\s*` found at `p`.
  lemma AsyncOpenFacts(s: string, p: nat)
    requires p <= |s| && AsyncOpen(s, p).Some?
    ensures var x, y := WsEnd(s, p + 1), AsyncOpen(s, p).value;
      && p < x && x + 5 <= y && p < |s| && s[p] == '(' && Blank(s[p + 1..x]) && LitAt(s, x, "async")
      && Blank(s[x + 5..y])
  {
  }

  // What `\((.*?)\)\s*=>` found at `y`.
  lemma ParamsFromFacts(s: string, y: nat)
    requires y <= |s| && ParamsFrom(s, y).Some?
    ensures var t := ParamsFrom(s, y).value;
      && y < |s| && s[y] == '(' && t.groupStart == y + 1 && t.groupEnd < t.end - 2 && t.end <= |s|
      && OnLine(s, y + 1, t.groupEnd) && (forall k :: y + 1 <= k < t.groupEnd ==> !Closes(s, k))
      && s[t.groupEnd] == ')' && Blank(s[t.groupEnd + 1..t.end - 2]) && LitAt(s, t.end - 2, "=>")
  {
    ParamsCloseSpec(s, y + 1);
  }

  lemma AsyncParamsTextOf(s: string, p: nat, t: TailMatch)
    requires p <= |s| && AsyncParamsAt(s, p) == Some(t)
    ensures p < |s| && AsyncParamsText(s, p, WsEnd(s, p + 1), t.groupStart, t.groupEnd, t.end - 2)
  {
    AsyncParamsSound(s, p);
  }

  lemma AsyncParamsComplete(s: string, p: nat, x: nat, a: nat, q: nat, z: nat)
    requires p <= |s| && AsyncParamsText(s, p, x, a, q, z)
    ensures AsyncParamsAt(s, p) == Some(TailMatch(a, q, z + 2))
  {
    AsyncOpenAt(s, p, x, a - 1);
    ParamsFromAt(s, a - 1, q, z);
  }

  // `\((.*?)\)\s*=>` at `y`, the first `)` on the line that an arrow
  // follows closing the parameters.
  lemma ParamsFromAt(s: string, y: nat, q: nat, z: nat)
    requires y < q < z && z + 2 <= |s| && s[y] == '(' && OnLine(s, y + 1, q)
    requires (forall k :: y < k < q ==> !Closes(s, k)) && s[q] == ')' && Blank(s[q + 1..z]) && LitAt(s, z, "=>")
    ensures ParamsFrom(s, y) == Some(TailMatch(y + 1, q, z + 2))
  {
    WsEndExact(s, q + 1, z);
    ParamsCloseFirst(s, y + 1, q);
  }

  // `\(\s*async\s*` at `p`, up to a character that is not whitespace.
  lemma AsyncOpenAt(s: string, p: nat, x: nat, y: nat)
    requires p < x && x + 5 <= y < |s| && s[p] == '(' && Blank(s[p + 1..x]) && LitAt(s, x, "async")
    requires Blank(s[x + 5..y]) && !IsWs(s[y])
    ensures AsyncOpen(s, p) == Some(y)
  {
    WsEndExact(s, p + 1, x);
    WsEndExact(s, x + 5, y);
  }

  // The first `)` on the line that an arrow follows is the one found.
  lemma ParamsCloseFirst(s: string, from: nat, q: nat)
    requires from <= q < |s| && OnLine(s, from, q) && Closes(s, q)
    requires forall k :: from <= k < q ==> !Closes(s, k)
    ensures ParamsClose(s, from) == Some(q)
  {
    ParamsCloseSpec(s, from);
  }

  // ---------------------------------------------------------------------
  // The optional generic text

  /** The generic text taken is empty or a `<...>` on one line. */
  lemma OptGenericSpec(s: string, ts: seq<Option<TailMatch>>, g: nat)
    requires Within(s, ts) && g <= |s|
    ensures var r := OptGeneric(s, ts, g); r.Some? ==> GenericText(s, g, r.value.0)
  {
    if g < |s| && s[g] == '<' {
      LazySpec(s, ts, g + 1, true);
    }
  }

  /** When the tail, which starts with `(`, follows a generic text in none
      of whose inner `>` a `(` follows, that generic text is the one
      taken. */
  lemma OptGenericAt(s: string, ts: seq<Option<TailMatch>>, g: nat, e: nat, t: TailMatch)
    requires Within(s, ts) && Opening(s, ts) && g <= e <= |s| && GenericText(s, g, e) && ts[e] == Some(t)
    requires forall k :: g < k < e - 1 ==> !(s[k] == '>' && s[k + 1] == '(')
    ensures OptGeneric(s, ts, g) == Some((e, t))
  {
    if e > g {
      forall j | g + 1 <= j < e - 1 ensures After(s, ts, j, true).None? {
        if s[j] == '>' {
          assert s[j + 1] != '(';
        }
      }
      LazyFirst(s, ts, g + 1, e - 1, true, t);
    }
  }

  /** `(<.*?>)?` ending a pattern: the shortest `<...>` on the line when
      there is one, otherwise nothing. */
  predicate FirstAngle(s: string, g: nat, e: nat)
    requires g <= e <= |s|
  {
    if g < |s| && s[g] == '<' && exists k :: g < k < |s| && s[k] == '>' && OnLine(s, g + 1, k)
    then g + 2 <= e && s[e - 1] == '>' && OnLine(s, g + 1, e - 1) && forall k :: g < k < e - 1 ==> s[k] != '>'
    else e == g
  }

  /** The first pass rewrites `new`, whitespace and `Command` into
      `new RelayCommand`, keeping the generic arguments that follow. */
  lemma CommandToRelaySpec(s: string, i: nat)
    ensures !NewThen(s, i, "Command") ==> CommandRewrite(s, i).None?
    ensures NewThen(s, i, "Command") ==>
      var g, r := NameEnd(s, i, "Command"), CommandRewrite(s, i);
      r.Some? && g <= r.value.end && FirstAngle(s, g, r.value.end) && r.value.text == "new RelayCommand" + s[g..r.value.end]
  {
    if NewThen(s, i, "Command") {
      FirstAngleTaken(s, NameEnd(s, i, "Command"));
    }
  }

  // With nothing after it, `(<.*?>)?` takes the first `<...>` on the line.
  lemma FirstAngleTaken(s: string, g: nat)
    requires g <= |s|
    ensures (TailsFacts(s, Nothing); var r := OptGeneric(s, Tails(s, Nothing), g);
      r.Some? && g <= r.value.0 && FirstAngle(s, g, r.value.0))
  {
    var ts := Tails(s, Nothing);
    TailsFacts(s, Nothing);
    TailsAt(s, Nothing, g);
    if g < |s| && s[g] == '<' {
      LazySpec(s, ts, g + 1, true);
      var l := Lazy(s, ts, g + 1, true);
      if l.Some? {
        forall k | g < k < l.value.0 ensures s[k] != '>' {
          assert After(s, ts, k, true).None?;
          TailsAt(s, Nothing, k + 1);
        }
      } else {
        forall k | g < k < |s| && OnLine(s, g + 1, k) ensures s[k] != '>' {
          assert After(s, ts, k, true).None?;
          TailsAt(s, Nothing, k + 1);
        }
      }
    }
  }

  // ---------------------------------------------------------------------
  // What each pass rewrites

  /** The method group pass as written: when the text from the command's
      name to a lone method name in parentheses is on one line, and no
      earlier position of it starts such a tail, the match ends after the
      parentheses and becomes a lambda calling the method, that text kept
      as the generic text. */
  lemma MethodGroupLazyRewrite(s: string, i: nat, j: nat, a: nat, b: nat, e: nat)
    requires RelayName(s, i).Some? && RelayName(s, i).value.1 <= j
    requires MethodGroupText(s, j, a, b, e) && OnLine(s, RelayName(s, i).value.1, j)
    requires forall k :: RelayName(s, i).value.1 <= k < j ==> MethodGroupAt(s, k).None?
    ensures var (isAsync, g) := RelayName(s, i).value;
      MethodGroupRewrite(s, i, false) == Some(Rewrite(e, Lambda(isAsync, s[g..j], s[a..b])))
  {
    MethodGroupComplete(s, j, a, b, e);
    FirstMethodGroup(s, RelayName(s, i).value.1, j, TailMatch(a, b, e));
    MethodGroupRewriteOf(s, i, false, j, TailMatch(a, b, e));
  }

  // The lazy text ends at the first position on the line where the method
  // group tail matches.
  lemma FirstMethodGroup(s: string, g: nat, j: nat, t: TailMatch)
    requires g <= j <= |s| && OnLine(s, g, j) && MethodGroupAt(s, j) == Some(t)
    requires forall k :: g <= k < j ==> MethodGroupAt(s, k).None?
    ensures (TailsFacts(s, MethodGroup); Lazy(s, Tails(s, MethodGroup), g, false) == Some((j, t)))
  {
    TailsFacts(s, MethodGroup);
    forall k | g <= k < j ensures After(s, Tails(s, MethodGroup), k, false).None? {
      TailsAt(s, MethodGroup, k);
    }
    TailsAt(s, MethodGroup, j);
    LazyFirst(s, Tails(s, MethodGroup), g, j, false, t);
  }

  /** The method group pass with `(<.*?>)?` as its generic text: a generic
      text in none of whose inner `>` a `(` follows, and then a lone method
      name in parentheses. */
  lemma MethodGroupFixedRewrite(s: string, i: nat, j: nat, a: nat, b: nat, e: nat)
    requires RelayName(s, i).Some? && RelayName(s, i).value.1 <= j <= |s|
    requires GenericText(s, RelayName(s, i).value.1, j) && MethodGroupText(s, j, a, b, e)
    requires forall k :: RelayName(s, i).value.1 < k < j - 1 ==> !(s[k] == '>' && s[k + 1] == '(')
    ensures var (isAsync, g) := RelayName(s, i).value;
      MethodGroupRewrite(s, i, true) == Some(Rewrite(e, Lambda(isAsync, s[g..j], s[a..b])))
  {
    MethodGroupComplete(s, j, a, b, e);
    GenericBefore(s, MethodGroup, RelayName(s, i).value.1, j, TailMatch(a, b, e));
    MethodGroupRewriteOf(s, i, true, j, TailMatch(a, b, e));
  }

  /** Every rewrite of the method group pass is a lone method name in
      parentheses that no arrow follows, turned into a lambda calling it.
      As written, the text kept before it is any text on the line up to
      the first such tail; with the fix it is empty or `<...>`. */
  lemma MethodGroupRewriteSound(s: string, i: nat, fixed: bool) returns (j: nat, a: nat, b: nat)
    requires MethodGroupRewrite(s, i, fixed).Some?
    ensures RelayName(s, i).Some?
    ensures var (isAsync, g) := RelayName(s, i).value; var r := MethodGroupRewrite(s, i, fixed).value;
      g <= j && MethodGroupText(s, j, a, b, r.end) && r.text == Lambda(isAsync, s[g..j], s[a..b])
      && (fixed ==> GenericText(s, g, j))
      && (!fixed ==> OnLine(s, g, j) && forall k :: g <= k < j ==> MethodGroupAt(s, k).None?)
  {
    var g := RelayName(s, i).value.1;
    var ts := Tails(s, MethodGroup);
    TailsFacts(s, MethodGroup);
    var m := if fixed then OptGeneric(s, ts, g) else Lazy(s, ts, g, false);
    var t: TailMatch;
    j, t := m.value.0, m.value.1;
    MethodGroupRewriteOf(s, i, fixed, j, t);
    if fixed {
      OptGenericSpec(s, ts, g);
    } else {
      LazySpec(s, ts, g, false);
      forall k | g <= k < j ensures MethodGroupAt(s, k).None? {
        assert After(s, ts, k, false).None?;
        TailsAt(s, MethodGroup, k);
      }
    }
    TailsAt(s, MethodGroup, j);
    MethodGroupSound(s, j);
    a, b := t.groupStart, t.groupEnd;
  }

  // The method group pass's rewrite, given where its generic text ends and
  // its tail.
  lemma MethodGroupRewriteOf(s: string, i: nat, fixed: bool, j: nat, t: TailMatch)
    requires RelayName(s, i).Some?
    requires (TailsFacts(s, MethodGroup); var ts, g := Tails(s, MethodGroup), RelayName(s, i).value.1;
      (if fixed then OptGeneric(s, ts, g) else Lazy(s, ts, g, false)) == Some((j, t)))
    ensures RelayName(s, i).value.1 <= j <= t.groupStart <= t.groupEnd <= |s|
    ensures var (isAsync, g) := RelayName(s, i).value;
      MethodGroupRewrite(s, i, fixed) == Some(Rewrite(t.end, Lambda(isAsync, s[g..j], s[t.groupStart..t.groupEnd])))
  {
    TailsFacts(s, MethodGroup);
  }

  /** The generic text before a tail that starts with `(`: when none of
      its inner `>` is followed by `(`, it is the text taken. */
  lemma GenericBefore(s: string, tail: Tail, g: nat, e: nat, t: TailMatch)
    requires tail != Nothing && g <= e <= |s| && GenericText(s, g, e) && TailAt(s, e, tail) == Some(t)
    requires forall k :: g < k < e - 1 ==> !(s[k] == '>' && s[k + 1] == '(')
    ensures (TailsFacts(s, tail); OptGeneric(s, Tails(s, tail), g) == Some((e, t)))
  {
    TailsFacts(s, tail);
    TailsAt(s, tail, e);
    OptGenericAt(s, Tails(s, tail), g, e, t);
  }

  /** `async =>` after an `AsyncRelayCommand` and its generic text becomes
      `async () =>`, the generic text kept. */
  lemma AsyncArrowRewritten(s: string, i: nat, e: nat, x: nat, y: nat)
    requires NewThen(s, i, "AsyncRelayCommand") && NameEnd(s, i, "AsyncRelayCommand") <= e <= |s|
    requires GenericText(s, NameEnd(s, i, "AsyncRelayCommand"), e) && AsyncArrowText(s, e, x, y)
    requires forall k :: NameEnd(s, i, "AsyncRelayCommand") < k < e - 1 ==> !(s[k] == '>' && s[k + 1] == '(')
    ensures var g := NameEnd(s, i, "AsyncRelayCommand");
      AsyncArrowRewrite(s, i) == Some(Rewrite(y + 2, "new AsyncRelayCommand" + s[g..e] + "(async () =>"))
  {
    AsyncArrowComplete(s, e, x, y);
    AsyncArrowRewrittenAt(s, i, e, TailMatch(y + 2, y + 2, y + 2));
  }

  lemma AsyncArrowRewrittenAt(s: string, i: nat, e: nat, t: TailMatch)
    requires NewThen(s, i, "AsyncRelayCommand") && NameEnd(s, i, "AsyncRelayCommand") <= e <= |s|
    requires GenericText(s, NameEnd(s, i, "AsyncRelayCommand"), e) && AsyncArrowAt(s, e) == Some(t)
    requires forall k :: NameEnd(s, i, "AsyncRelayCommand") < k < e - 1 ==> !(s[k] == '>' && s[k + 1] == '(')
    ensures var g := NameEnd(s, i, "AsyncRelayCommand");
      AsyncArrowRewrite(s, i) == Some(Rewrite(t.end, "new AsyncRelayCommand" + s[g..e] + "(async () =>"))
  {
    GenericBefore(s, AsyncArrow, NameEnd(s, i, "AsyncRelayCommand"), e, t);
    AsyncArrowRewriteOf(s, i, e, t);
  }

  /** Every rewrite of the `async =>` pass is such a text. */
  lemma AsyncArrowRewriteSound(s: string, i: nat) returns (e: nat, y: nat)
    requires AsyncArrowRewrite(s, i).Some?
    ensures NewThen(s, i, "AsyncRelayCommand")
    ensures var g, r := NameEnd(s, i, "AsyncRelayCommand"), AsyncArrowRewrite(s, i).value;
      g <= e < |s| && GenericText(s, g, e) && AsyncArrowText(s, e, WsEnd(s, e + 1), y)
      && r.end == y + 2 && r.text == "new AsyncRelayCommand" + s[g..e] + "(async () =>"
  {
    var g := NameEnd(s, i, "AsyncRelayCommand");
    var ts := Tails(s, AsyncArrow);
    TailsFacts(s, AsyncArrow);
    OptGenericSpec(s, ts, g);
    var t: TailMatch;
    e, t := OptGeneric(s, ts, g).value.0, OptGeneric(s, ts, g).value.1;
    AsyncArrowRewriteOf(s, i, e, t);
    TailsAt(s, AsyncArrow, e);
    AsyncArrowTextOf(s, e, t);
    y := t.end - 2;
  }

  // The `async =>` pass's rewrite, given where its generic text ends and
  // its tail.
  lemma AsyncArrowRewriteOf(s: string, i: nat, e: nat, t: TailMatch)
    requires NewThen(s, i, "AsyncRelayCommand")
    requires (TailsFacts(s, AsyncArrow); OptGeneric(s, Tails(s, AsyncArrow), NameEnd(s, i, "AsyncRelayCommand")) == Some((e, t)))
    ensures NameEnd(s, i, "AsyncRelayCommand") <= e
    ensures AsyncArrowRewrite(s, i) == Some(Rewrite(t.end, "new AsyncRelayCommand" + s[NameEnd(s, i, "AsyncRelayCommand")..e] + "(async () =>"))
  {
    TailsFacts(s, AsyncArrow);
  }

  /** `async (parameters) =>` after an `AsyncRelayCommand` and its generic
      text is rewritten with single spaces, the parameters and the generic
      text kept. */
  lemma AsyncParamsRewritten(s: string, i: nat, e: nat, x: nat, a: nat, q: nat, z: nat)
    requires NewThen(s, i, "AsyncRelayCommand") && NameEnd(s, i, "AsyncRelayCommand") <= e <= |s|
    requires GenericText(s, NameEnd(s, i, "AsyncRelayCommand"), e) && AsyncParamsText(s, e, x, a, q, z)
    requires forall k :: NameEnd(s, i, "AsyncRelayCommand") < k < e - 1 ==> !(s[k] == '>' && s[k + 1] == '(')
    ensures var g := NameEnd(s, i, "AsyncRelayCommand");
      AsyncParamsRewrite(s, i) == Some(Rewrite(z + 2, "new AsyncRelayCommand" + s[g..e] + "(async (" + s[a..q] + ") =>"))
  {
    AsyncParamsComplete(s, e, x, a, q, z);
    AsyncParamsRewrittenAt(s, i, e, TailMatch(a, q, z + 2));
  }

  lemma AsyncParamsRewrittenAt(s: string, i: nat, e: nat, t: TailMatch)
    requires NewThen(s, i, "AsyncRelayCommand") && NameEnd(s, i, "AsyncRelayCommand") <= e <= |s|
    requires GenericText(s, NameEnd(s, i, "AsyncRelayCommand"), e) && AsyncParamsAt(s, e) == Some(t)
    requires forall k :: NameEnd(s, i, "AsyncRelayCommand") < k < e - 1 ==> !(s[k] == '>' && s[k + 1] == '(')
    ensures t.groupStart <= t.groupEnd <= |s|
    ensures var g := NameEnd(s, i, "AsyncRelayCommand");
      AsyncParamsRewrite(s, i) == Some(Rewrite(t.end, "new AsyncRelayCommand" + s[g..e] + "(async (" + s[t.groupStart..t.groupEnd] + ") =>"))
  {
    GenericBefore(s, AsyncParams, NameEnd(s, i, "AsyncRelayCommand"), e, t);
    AsyncParamsRewriteOf(s, i, e, t);
  }

  /** Every rewrite of the `async (parameters) =>` pass is such a text. */
  lemma AsyncParamsRewriteSound(s: string, i: nat) returns (e: nat, a: nat, q: nat, z: nat)
    requires AsyncParamsRewrite(s, i).Some?
    ensures NewThen(s, i, "AsyncRelayCommand")
    ensures var g, r := NameEnd(s, i, "AsyncRelayCommand"), AsyncParamsRewrite(s, i).value;
      g <= e < |s| && GenericText(s, g, e) && AsyncParamsText(s, e, WsEnd(s, e + 1), a, q, z)
      && r.end == z + 2 && r.text == "new AsyncRelayCommand" + s[g..e] + "(async (" + s[a..q] + ") =>"
  {
    var g := NameEnd(s, i, "AsyncRelayCommand");
    var ts := Tails(s, AsyncParams);
    TailsFacts(s, AsyncParams);
    OptGenericSpec(s, ts, g);
    var t: TailMatch;
    e, t := OptGeneric(s, ts, g).value.0, OptGeneric(s, ts, g).value.1;
    AsyncParamsRewriteOf(s, i, e, t);
    TailsAt(s, AsyncParams, e);
    AsyncParamsTextOf(s, e, t);
    a, q, z := t.groupStart, t.groupEnd, t.end - 2;
  }

  // The `async (parameters) =>` pass's rewrite, given where its generic
  // text ends and its tail.
  lemma AsyncParamsRewriteOf(s: string, i: nat, e: nat, t: TailMatch)
    requires NewThen(s, i, "AsyncRelayCommand")
    requires (TailsFacts(s, AsyncParams); OptGeneric(s, Tails(s, AsyncParams), NameEnd(s, i, "AsyncRelayCommand")) == Some((e, t)))
    ensures NameEnd(s, i, "AsyncRelayCommand") <= e <= t.groupStart <= t.groupEnd <= |s|
    ensures AsyncParamsRewrite(s, i) == Some(Rewrite(t.end,
      "new AsyncRelayCommand" + s[NameEnd(s, i, "AsyncRelayCommand")..e] + "(async (" + s[t.groupStart..t.groupEnd] + ") =>"))
  {
    TailsFacts(s, AsyncParams);
  }

  // ---------------------------------------------------------------------
  // IsRelayCommandCandidate

  /** The command names `new\s+(Async)?RelayCommand` accepts. */
  const RelayNames: seq<string> := ["AsyncRelayCommand", "RelayCommand"]

  /** The command name `new\s+Command` accepts. */
  const CommandNames: seq<string> := ["Command"]

  /** `IsRelayCommandCandidate`: either pattern matches somewhere in the
      text. Both are matched with `RegexOptions.Singleline`, so the
      generic text may span lines. */
  function IsRelayCommandCandidate(selectedText: string): bool {
    CreatedFrom(selectedText, RelayNames, 0) || CreatedFrom(selectedText, CommandNames, 0)
  }

  /** The pattern for `names` matches at some position from `i` on. */
  function CreatedFrom(s: string, names: seq<string>, i: nat): bool
    requires i <= |s|
    decreases |s| - i
  {
    i < |s| && (CreatedAt(s, i, names) || CreatedFrom(s, names, i + 1))
  }

  /** `new\s+` and one of `names`, in order, at `i`, then the arguments. */
  function CreatedAt(s: string, i: nat, names: seq<string>): bool
    decreases |names|
  {
    |names| > 0 && (NameOpens(s, i, names[0]) || CreatedAt(s, i, names[1..]))
  }

  predicate NameOpens(s: string, i: nat, name: string) {
    NewThen(s, i, name) && OpensAfter(s, NameEnd(s, i, name))
  }

  /** `(\s*<.*?>)?\s*\(` at `g`: the group is tried first, then left out. */
  predicate OpensAfter(s: string, g: nat)
    requires g <= |s|
  {
    var w := WsEnd(s, g);
    w < |s| && ((s[w] == '<' && CloseThenOpen(s, w + 1)) || s[w] == '(')
  }

  /** `.*?>\s*\(` from `k`, `.` matching every character. */
  predicate CloseThenOpen(s: string, k: nat)
    requires k <= |s|
    decreases |s| - k
  {
    k < |s| && ((s[k] == '>' && ParenAt(s, k + 1)) || CloseThenOpen(s, k + 1))
  }

  /** `\s*\(` at `b`. */
  predicate ParenAt(s: string, b: nat)
    requires b <= |s|
  {
    WsEnd(s, b) < |s| && s[WsEnd(s, b)] == '('
  }

  /** After `g`: whitespace and `(`, or whitespace, `<`, any text, `>`,
      whitespace and `(`. */
  ghost predicate ArgumentsOpen(s: string, g: nat) {
    exists c :: g <= c < |s| && s[c] == '(' && (Blank(s[g..c]) || GenericThenOpen(s, g, c))
  }

  ghost predicate GenericThenOpen(s: string, g: nat, c: nat)
    requires g <= c < |s|
  {
    exists a: nat, b: nat :: g <= a && a + 2 <= b <= c && Blank(s[g..a]) && s[a] == '<' && s[b - 1] == '>' && Blank(s[b..c])
  }

  /** Some position holds `new`, whitespace, one of `names` and then the
      arguments. */
  ghost predicate CommandCreated(s: string, names: seq<string>) {
    exists i: nat, n :: 0 <= n < |names| && NewThen(s, i, names[n]) && ArgumentsOpen(s, NameEnd(s, i, names[n]))
  }

  /** The menu item is shown exactly when the text creates an
      `AsyncRelayCommand`, a `RelayCommand` or a `Command` and opens its
      argument list, with or without generic arguments between. */
  lemma CandidateIff(s: string)
    ensures IsRelayCommandCandidate(s) <==> CommandCreated(s, RelayNames) || CommandCreated(s, CommandNames)
  {
    CreatedIff(s, RelayNames);
    CreatedIff(s, CommandNames);
  }

  lemma CreatedIff(s: string, names: seq<string>)
    ensures CreatedFrom(s, names, 0) <==> CommandCreated(s, names)
  {
    CreatedFromIff(s, names, 0);
    if CreatedFrom(s, names, 0) {
      var i: nat, n :| i < |s| && 0 <= n < |names| && NameOpens(s, i, names[n]);
      OpensAfterIff(s, NameEnd(s, i, names[n]));
    }
    if CommandCreated(s, names) {
      var i: nat, n :| 0 <= n < |names| && NewThen(s, i, names[n]) && ArgumentsOpen(s, NameEnd(s, i, names[n]));
      OpensAfterIff(s, NameEnd(s, i, names[n]));
      CreatedAtIff(s, i, names);
      CreatedFromAt(s, names, 0, i);
    }
  }

  lemma {:induction false} CreatedAtIff(s: string, i: nat, names: seq<string>)
    ensures CreatedAt(s, i, names) <==> exists n :: 0 <= n < |names| && NameOpens(s, i, names[n])
    decreases |names|
  {
    if |names| > 0 {
      CreatedAtIff(s, i, names[1..]);
      if exists n :: 0 <= n < |names| && NameOpens(s, i, names[n]) {
        var n :| 0 <= n < |names| && NameOpens(s, i, names[n]);
        if n > 0 {
          assert names[1..][n - 1] == names[n];
        }
      }
      if CreatedAt(s, i, names[1..]) {
        var n :| 0 <= n < |names[1..]| && NameOpens(s, i, names[1..][n]);
        assert names[n + 1] == names[1..][n];
      }
    }
  }

  lemma {:induction false} CreatedFromIff(s: string, names: seq<string>, i: nat)
    requires i <= |s|
    ensures CreatedFrom(s, names, i) ==> exists j: nat, n :: i <= j < |s| && 0 <= n < |names| && NameOpens(s, j, names[n])
    decreases |s| - i
  {
    if i < |s| {
      CreatedAtIff(s, i, names);
      CreatedFromIff(s, names, i + 1);
    }
  }

  lemma {:induction false} CreatedFromAt(s: string, names: seq<string>, i: nat, j: nat)
    requires i <= j < |s| && CreatedAt(s, j, names)
    ensures CreatedFrom(s, names, i)
    decreases j - i
  {
    if i < j {
      CreatedFromAt(s, names, i + 1, j);
    }
  }

  /** The arguments' opening, as matched, is the opening described. */
  lemma OpensAfterIff(s: string, g: nat)
    requires g <= |s|
    ensures OpensAfter(s, g) <==> ArgumentsOpen(s, g)
  {
    if OpensAfter(s, g) {
      OpensAfterSound(s, g);
    }
    if ArgumentsOpen(s, g) {
      var c :| g <= c < |s| && s[c] == '(' && (Blank(s[g..c]) || GenericThenOpen(s, g, c));
      if Blank(s[g..c]) {
        PlainOpens(s, g, c);
      } else {
        GenericThenOpens(s, g, c);
      }
    }
  }

  lemma PlainOpens(s: string, g: nat, c: nat)
    requires g <= c < |s| && s[c] == '(' && Blank(s[g..c])
    ensures OpensAfter(s, g)
  {
    WsEndExact(s, g, c);
  }

  lemma GenericThenOpens(s: string, g: nat, c: nat)
    requires g <= c < |s| && s[c] == '(' && GenericThenOpen(s, g, c)
    ensures OpensAfter(s, g)
  {
    var a: nat, b: nat :| g <= a && a + 2 <= b <= c && Blank(s[g..a]) && s[a] == '<' && s[b - 1] == '>' && Blank(s[b..c]);
    GenericOpens(s, g, a, b, c);
  }

  lemma OpensAfterSound(s: string, g: nat)
    requires g <= |s| && OpensAfter(s, g)
    ensures ArgumentsOpen(s, g)
  {
    var w := WsEnd(s, g);
    if s[w] == '(' {
      assert g <= w < |s| && s[w] == '(' && Blank(s[g..w]);
    } else {
      var k := CloseThenOpenAt(s, w + 1);
      var c := WsEnd(s, k + 1);
      assert GenericThenOpen(s, g, c) by {
        assert g <= w && w + 2 <= k + 1 <= c && Blank(s[g..w]) && s[w] == '<' && s[k] == '>' && Blank(s[k + 1..c]);
      }
    }
  }

  lemma GenericOpens(s: string, g: nat, a: nat, b: nat, c: nat)
    requires g <= a && a + 2 <= b <= c < |s| && Blank(s[g..a]) && s[a] == '<' && s[b - 1] == '>' && Blank(s[b..c]) && s[c] == '('
    ensures OpensAfter(s, g)
  {
    WsEndExact(s, g, a);
    WsEndExact(s, b, c);
    CloseThenOpenFrom(s, a + 1, b - 1);
  }

  // Where `.*?>` ends when `.*?>\s*\(` matches from `k`.
  lemma {:induction false} CloseThenOpenAt(s: string, k: nat) returns (j: nat)
    requires k <= |s| && CloseThenOpen(s, k)
    ensures k <= j < |s| && s[j] == '>' && ParenAt(s, j + 1)
    decreases |s| - k
  {
    if s[k] == '>' && ParenAt(s, k + 1) {
      j := k;
    } else {
      j := CloseThenOpenAt(s, k + 1);
    }
  }

  lemma {:induction false} CloseThenOpenFrom(s: string, k: nat, j: nat)
    requires k <= j < |s| && s[j] == '>' && ParenAt(s, j + 1)
    ensures CloseThenOpen(s, k)
    decreases j - k
  {
    if k < j {
      CloseThenOpenFrom(s, k + 1, j);
    }
  }
}
