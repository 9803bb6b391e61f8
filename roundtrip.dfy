/** Tokenizing and printing again: for input within the limits of `Safe` whose hooks keep
    their name tags, printing the tokens gives back the HTML-escaped input, except that a
    macro whose code runs out before its `)` gains the `)` its printed form always ends
    with; when every macro is closed, it is exactly the escaped input. */
module RoundTrip {
  import opened Base
  import opened Escaping
  import opened Scanners
  import opened Nodes
  import opened Tokenizer
  import opened Lossless
  import opened RoundTripParts

  /** Such a result is a handler result over the opener and that text. */
  lemma HandlerFromTail(m: string, t: string, h: Result<Handled>, exact: bool)
    requires NoSpecial(m) && HookPrints(h, m, t, exact)
    ensures HandlerPrints(h, m + t, exact)
  {
    if h.Ok? {
      HandlerGlue(m, t, h.value.rest);
    }
  }

  // ---------------------------------------------------------------------------------------
  // The round trip, handler by handler

  /** Tokenizing `s` after tokens that print as `a`: the tokens print as `a` followed by the
      escaped text consumed before the stop token. */
  lemma {:induction false} TokenizeRoundTrip(acc: seq<Node>, s: string, stop: Stop, a: string, exact: bool)
    requires Safe(s) && RunKeeps(s, stop, exact) && PrintsAs(acc, a, exact)
    ensures RunPrints(TokenizeFrom(acc, s, stop), s, a, exact)
    decreases |s|, 0, 4
  {
    if s == [] {
      assert EscapeHtml([]) == [];
      assert a + [] == a;
    } else {
      match FindTrigger(s, stop)
      case None =>
        PrintsAsMerged(acc, a, s, exact);
        assert Consumed(s, []) == s;
      case Some(p) =>
        TokenizeAtRoundTrip(acc, s, p, stop, a, exact);
    }
  }

  lemma {:induction false} TokenizeAtRoundTrip(acc: seq<Node>, s: string, p: nat, stop: Stop, a: string, exact: bool)
    requires p < |s| && IsTrigger(s[p], stop) && Safe(s) && AtKeeps(s, p, stop, exact) && PrintsAs(acc, a, exact)
    ensures RunPrints(TokenizeAt(acc, s, p, stop), s, a, exact)
    decreases |s|, 0, 3
  {
    if TriggerAt(s, p, stop).StopAt? {
      StopRoundTrip(acc, s, p, stop, a, exact);
    } else {
      StartAtRoundTrip(acc, s, p, stop, a, exact);
    }
  }

  /** A stop token at `p` ends the run after the text before it. */
  lemma StopRoundTrip(acc: seq<Node>, s: string, p: nat, stop: Stop, a: string, exact: bool)
    requires p < |s| && IsTrigger(s[p], stop) && TriggerAt(s, p, stop).StopAt? && PrintsAs(acc, a, exact)
    ensures RunPrints(TokenizeAt(acc, s, p, stop), s, a, exact)
  {
    var acc1 := if p > 0 then Merged(acc, Text(s[..p])) else acc;
    var trig := TriggerAt(s, p, stop);
    var after := s[p + |trig.token|..];
    PrefixPrints(acc, a, s, p, exact);
    StopPrints(acc1, s, p, stop, a, trig, after, exact);
    StopStep(acc, s, p, stop, acc1, trig, after);
  }

  /** The run that ends at the stop token found at `p` prints as the text before `p`. */
  lemma StopPrints(acc1: seq<Node>, s: string, p: nat, stop: Stop, a: string, trig: Trigger, after: string,
                   exact: bool)
    requires p < |s| && IsTrigger(s[p], stop) && trig == TriggerAt(s, p, stop) && trig.StopAt?
    requires p + |trig.token| <= |s| && after == s[p + |trig.token|..]
    requires PrintsAs(acc1, a + EscapeHtml(s[..p]), exact)
    ensures RunPrints(Ok(Tokenized(acc1, Some(trig.token), after)), s, a, exact)
  {
    TriggerAtMatches(s, p, stop);
    TokenStep(s, p, trig.token);
  }

  /** A start token at `p`: the text before it, its handler and the rest of the run. */
  lemma {:induction false} StartAtRoundTrip(acc: seq<Node>, s: string, p: nat, stop: Stop, a: string, exact: bool)
    requires p < |s| && IsTrigger(s[p], stop) && TriggerAt(s, p, stop).Start? && Safe(s)
    requires AtKeeps(s, p, stop, exact) && PrintsAs(acc, a, exact)
    ensures RunPrints(TokenizeAt(acc, s, p, stop), s, a, exact)
    decreases |s|, 0, 2, 1
  {
    var acc1 := if p > 0 then Merged(acc, Text(s[..p])) else acc;
    var trig := TriggerAt(s, p, stop);
    var after := s[p + |trig.token|..];
    StartFacts(acc, s, p, stop, a, acc1, trig, exact);
    StartRoundTrip(acc1, s, p, trig, after, stop, a, exact);
    StartStep(acc, s, p, stop, acc1, trig, after);
    StartFromDispatch(acc1, trig.kind, trig.token, after, stop, |s|);
  }

  /** What the text before a start token and the token itself tell the round trip. */
  lemma StartFacts(acc: seq<Node>, s: string, p: nat, stop: Stop, a: string, acc1: seq<Node>, trig: Trigger,
                   exact: bool)
    requires p < |s| && IsTrigger(s[p], stop) && trig == TriggerAt(s, p, stop) && trig.Start? && Safe(s)
    requires PrintsAs(acc, a, exact)
    requires acc1 == if p > 0 then Merged(acc, Text(s[..p])) else acc
    ensures p + |trig.token| <= |s| && s[..p + |trig.token|] == s[..p] + trig.token
    ensures |trig.token| >= 1 && (trig.kind == LinkStart ==> trig.token == "[[")
    ensures trig.kind == BracketRunStart ==> forall i :: 0 <= i < |trig.token| ==> trig.token[i] == '['
    ensures trig.kind == HookStart ==> trig.token == "["
    ensures trig.kind == BarStart ==> trig.token == "|"
    ensures trig.kind == MacroStart ==> trig.token == "("
    ensures trig.kind == SigilStart ==> trig.token == "$"
    ensures trig.kind != VerbatimStart && PrintsAs(acc1, a + EscapeHtml(s[..p]), exact)
  {
    PrefixPrints(acc, a, s, p, exact);
    NoBacktick(s, p);
    TriggerAtMatches(s, p, stop);
  }

  /** A start token `tok` at `p`: its handler, then the rest of the run. */
  lemma {:induction false} StartRoundTrip(acc1: seq<Node>, s: string, p: nat, trig: Trigger, after: string, stop: Stop,
                                          a: string, exact: bool)
    requires trig.Start? && p + |trig.token| <= |s| && s[..p + |trig.token|] == s[..p] + trig.token
    requires after == s[p + |trig.token|..]
    requires |trig.token| >= 1 && (trig.kind == LinkStart ==> trig.token == "[[")
    requires trig.kind == BracketRunStart ==> forall i :: 0 <= i < |trig.token| ==> trig.token[i] == '['
    requires trig.kind == HookStart ==> trig.token == "["
    requires trig.kind == BarStart ==> trig.token == "|"
    requires trig.kind == MacroStart ==> trig.token == "("
    requires trig.kind == SigilStart ==> trig.token == "$"
    requires trig.kind != VerbatimStart && Safe(s) && PrintsAs(acc1, a + EscapeHtml(s[..p]), exact)
    requires StartKeeps(trig.kind, trig.token, after, stop, |s|, exact)
    ensures RunPrints(Resume(acc1, Dispatch(trig.kind, trig.token, after), stop, |s|), s, a, exact)
    decreases |s|, 0, 1
  {
    TokenStep(s, p, trig.token);
    SafeRest(s, trig.token + after);
    DispatchRoundTrip(trig.kind, trig.token, after, exact);
    ResumeRoundTrip(acc1, s, trig.token + after, Dispatch(trig.kind, trig.token, after), stop, a, exact);
  }

  /** After the handler of a start token returned `h` for the suffix `u` of `s` starting at
      that token, the rest of the run. */
  lemma {:induction false} ResumeRoundTrip(acc1: seq<Node>, s: string, u: string, h: Result<Handled>, stop: Stop,
                                           a: string, exact: bool)
    requires Safe(s) && IsSuffix(u, s) && PrintsAs(acc1, a + EscapeHtml(Consumed(s, u)), exact)
    requires HandlerPrints(h, u, exact) && (h.Ok? ==> |h.value.rest| < |s| && RunKeeps(h.value.rest, stop, exact))
    ensures RunPrints(Resume(acc1, h, stop, |s|), s, a, exact)
    decreases |s|, 0, 0
  {
    if h.Ok? {
      var r1 := h.value.rest;
      var a1 := a + EscapeHtml(Consumed(s, u));
      var e1 := EscapeHtml(Consumed(u, r1));
      PrintsAsMergedAll(acc1, a1, h.value.nodes, e1, exact);
      SuffixTransitive(r1, u, s);
      SafeRest(s, r1);
      TokenizeRoundTrip(MergedAll(acc1, h.value.nodes), r1, stop, a1 + e1, exact);
      RunGlue(TokenizeFrom(MergedAll(acc1, h.value.nodes), r1, stop), s, u, r1, a, exact);
    }
  }

  /** A run over the rest `r1` a handler left of `u`, a suffix of `s`, is a run over `s`. */
  lemma RunGlue(r: Result<Tokenized>, s: string, u: string, r1: string, a: string, exact: bool)
    requires IsSuffix(u, s) && IsSuffix(r1, u)
    requires RunPrints(r, r1, a + EscapeHtml(Consumed(s, u)) + EscapeHtml(Consumed(u, r1)), exact)
    ensures RunPrints(r, s, a, exact)
  {
    if r.Ok? {
      ResumeGlue(s, u, r1, StopText(r.value.stop) + r.value.rest, a);
    }
  }

  /** Tokenizing without a stop pattern consumes the whole input. */
  lemma WholeRoundTrip(s: string, exact: bool)
    requires Safe(s) && RunKeeps(s, NoStop, exact)
    ensures var r := TokenizeFrom([], s, NoStop);
      r.Ok? ==> r.value.rest == [] && PrintsAs(r.value.tokens, EscapeHtml(s), exact) && (s != [] ==> r.value.tokens != [])
    decreases |s|, 1, 0
  {
    PrintsAsEmpty(exact);
    TokenizeRoundTrip([], s, NoStop, [], exact);
    assert Consumed(s, []) == s && [] + EscapeHtml(s) == EscapeHtml(s);
  }

  /** The handler a start token selects consumes the token and what follows it, and its
      tokens print as that text escaped. */
  lemma {:induction false} DispatchRoundTrip(kind: StartKind, tok: string, t: string, exact: bool)
    requires |tok| >= 1 && (kind == LinkStart ==> tok == "[[")
    requires kind == BracketRunStart ==> forall i :: 0 <= i < |tok| ==> tok[i] == '['
    requires kind == HookStart ==> tok == "["
    requires kind == BarStart ==> tok == "|"
    requires kind == MacroStart ==> tok == "("
    requires kind == SigilStart ==> tok == "$"
    requires kind != VerbatimStart && Safe(tok + t) && HandlerKeeps(kind, tok, t, exact)
    ensures HandlerPrints(Dispatch(kind, tok, t), tok + t, exact)
    decreases |tok| + |t| - 1, 3, 0
  {
    match kind
    case LinkStart => ParseLinkRoundTrip(t, exact);
    case HookStart => BracketHandlerRoundTrip(t, exact);
    case BarStart => BarHandlerRoundTrip(t, exact);
    case MacroStart => ParseMacroRoundTrip(t, exact);
    case SigilStart => VariableRoundTrip(t, exact);
    case BracketRunStart =>
      SafeTail(tok, t);
      PrintsAsEmpty(exact);
      NestedRoundTrip(|tok|, [], t, tok, [], exact);
      var r := NestedBrackets(|tok|, [], t);
      if r.Ok? {
        HandlerGlue(tok, t, r.value.rest);
        assert tok + [] == tok;
      }
  }

  /** `[` and what follows: a hook, or the `[` as text. */
  lemma {:induction false} BracketHandlerRoundTrip(t: string, exact: bool)
    requires Safe("[" + t) && HookKeeps("[", t, exact)
    ensures HandlerPrints(ParseHook("[", t), "[" + t, exact)
    decreases |t|, 1, 1
  {
    SafeTail("[", t);
    BracketHookRoundTrip(t, exact);
    HandlerFromTail("[", t, ParseHook("[", t), exact);
  }

  /** `|` and what follows: a hook with a left name tag, or the `|` as text. */
  lemma {:induction false} BarHandlerRoundTrip(t: string, exact: bool)
    requires Safe("|" + t) && HookKeeps("|", t, exact)
    ensures HandlerPrints(ParseHook("|", t), "|" + t, exact)
    decreases |t|, 1, 1
  {
    SafeTail("|", t);
    LeftHookRoundTrip(t, exact);
    HandlerFromTail("|", t, ParseHook("|", t), exact);
  }

  /** `[`: the hook body runs to `]` or `]<`, and a right name tag may follow. */
  lemma {:induction false} BracketHookRoundTrip(t: string, exact: bool)
    requires Safe(t) && HookKeeps("[", t, exact)
    ensures HookPrints(ParseHook("[", t), "[", t, exact)
    decreases |t|, 1, 0
  {
    var inner := TokenizeFrom([], t, HookStop);
    if inner.Fail? {
      HookBodyFails("[", None, t, t);
    } else if inner.value.stop.None? {
      HookBodyText("[", None, t, t);
      OpenerText("[", t, exact);
    } else {
      BracketHookStopped(t, exact);
    }
  }

  /** `[` whose body reaches a stop token: a hook, named on the right after `]<tag|`. */
  lemma {:induction false} BracketHookStopped(t: string, exact: bool)
    requires Safe(t) && HookKeeps("[", t, exact)
    requires var inner := TokenizeFrom([], t, HookStop); inner.Ok? && inner.value.stop.Some?
    ensures HookPrints(ParseHook("[", t), "[", t, exact)
    decreases |t|, 0, 5
  {
    var inner := TokenizeFrom([], t, HookStop);
    var tok := inner.value.stop.value;
    var ir := inner.value.rest;
    assert RunKeeps(t, HookStop, exact) && TagsKept(None, tok, ir);
    PrintsAsEmpty(exact);
    TokenizeRoundTrip([], t, HookStop, [], exact);
    var c := Consumed(t, tok + ir);
    assert [] + EscapeHtml(c) == EscapeHtml(c);
    var tokens := inner.value.tokens;
    if tok == "]<" {
      match MatchRightTag(ir)
      case Some(n) =>
        HookBodyTagged("[", None, t, t, n);
        HookTaggedPrints(t, tokens, ir, c, n, exact);
      case None =>
        HookBodyUntagged("[", None, t, t);
        HookUntaggedPrints(t, tokens, ir, c, exact);
    } else {
      HookBodyClosed("[", None, t, t);
      HookClosedPrints(t, tokens, ir, c, exact);
    }
  }

  /** `|tag>[`, or `|` as text. */
  lemma {:induction false} LeftHookRoundTrip(t: string, exact: bool)
    requires Safe("|" + t) && Safe(t) && HookKeeps("|", t, exact)
    ensures HookPrints(ParseHook("|", t), "|", t, exact)
    decreases |t|, 1, 0
  {
    match MatchLeftTag(t)
    case None =>
      OpenerText("|", t, exact);
      assert ParseHook("|", t) == Ok(Handled([Text("|")], t));
    case Some(n) =>
      LeftHookSome(t, n, exact);
  }

  /** `|tag>[` with its tag found: a hook if the body reaches a stop token, else `|` as text. */
  lemma {:induction false} LeftHookSome(t: string, n: nat, exact: bool)
    requires Safe(t) && MatchLeftTag(t) == Some(n) && HookKeeps("|", t, exact)
    ensures HookPrints(ParseHook("|", t), "|", t, exact)
    decreases |t|, 0, 5
  {
    LeftTagFits(t, n);
    var inner := TokenizeFrom([], t[n + 2..], HookStop);
    if inner.Fail? || inner.value.stop.None? {
      LeftHookOpen(t, n, exact);
    } else {
      LeftHookStopped(t, n, exact);
    }
  }

  /** `|tag>[` whose body fails or runs out: an error, or `|` as plain text. */
  lemma LeftHookOpen(t: string, n: nat, exact: bool)
    requires MatchLeftTag(t) == Some(n)
    requires n + 2 <= |t| && var inner := TokenizeFrom([], t[n + 2..], HookStop); inner.Fail? || inner.value.stop.None?
    ensures HookPrints(ParseHook("|", t), "|", t, exact)
  {
    ParseHookLeft(t, n);
    var inner := TokenizeFrom([], t[n + 2..], HookStop);
    if inner.Fail? {
      HookBodyFails("|", Some(t[..n]), t[n + 2..], t);
    } else {
      HookBodyText("|", Some(t[..n]), t[n + 2..], t);
      OpenerText("|", t, exact);
    }
  }

  /** `|tag>[` whose body reaches a stop token: a hook named on the left, which keeps a `<`
      after `]` that no right tag follows. */
  lemma {:induction false} LeftHookStopped(t: string, n: nat, exact: bool)
    requires Safe(t) && MatchLeftTag(t) == Some(n) && n + 2 <= |t|
    requires BodyKeeps(Some(t[..n]), t[n + 2..], exact)
    requires var inner := TokenizeFrom([], t[n + 2..], HookStop); inner.Ok? && inner.value.stop.Some?
    ensures HookPrints(ParseHook("|", t), "|", t, exact)
    decreases |t|, 0, 4
  {
    var body := t[n + 2..];
    var inner := TokenizeFrom([], body, HookStop);
    assert RunKeeps(body, HookStop, exact) && TagsKept(Some(t[..n]), inner.value.stop.value, inner.value.rest);
    SafeSuffix(t, n + 2);
    PrintsAsEmpty(exact);
    TokenizeRoundTrip([], body, HookStop, [], exact);
    var tok, ir := inner.value.stop.value, inner.value.rest;
    var c := Consumed(body, tok + ir);
    assert [] + EscapeHtml(c) == EscapeHtml(c);
    LeftHookClose(t, n, body, inner.value.tokens, tok, ir, exact);
  }

  /** The same, once the body's run is known to print as the text it consumed. */
  lemma LeftHookClose(t: string, n: nat, body: string, tokens: seq<Node>, tok: string, ir: string, exact: bool)
    requires MatchLeftTag(t) == Some(n) && n + 2 <= |t| && body == t[n + 2..]
    requires TokenizeFrom([], body, HookStop) == Ok(Tokenized(tokens, Some(tok), ir))
    requires TagsKept(Some(t[..n]), tok, ir)
    requires IsSuffix(tok + ir, body) && PrintsAs(tokens, EscapeHtml(Consumed(body, tok + ir)), exact)
    ensures HookPrints(ParseHook("|", t), "|", t, exact)
  {
    ParseHookLeft(t, n);
    LeftTagOpener(t, n);
    assert t[..n] != [];
    if tok == "]<" {
      StopSplit(ir);
      LeftHookUntagged(t, n, body, tokens, ir, "<" + ir, exact);
    } else {
      LeftHookClosed(t, n, body, tokens, ir, exact);
    }
  }

  /** A hook named on the left whose body ended with `]<` and no right tag. */
  lemma LeftHookUntagged(t: string, n: nat, body: string, tokens: seq<Node>, ir: string, left: string, exact: bool)
    requires n > 0 && n + 2 <= |t| && t[n..n + 2] == ">[" && body == t[n + 2..] && left == "<" + ir
    requires ParseHook("|", t) == HookBody("|", Some(t[..n]), body, t)
    requires TokenizeFrom([], body, HookStop) == Ok(Tokenized(tokens, Some("]<"), ir)) && MatchRightTag(ir).None?
    requires IsSuffix("]" + left, body) && PrintsAs(tokens, EscapeHtml(Consumed(body, "]" + left)), exact)
    ensures HookPrints(ParseHook("|", t), "|", t, exact)
  {
    HookBodyUntagged("|", Some(t[..n]), body, t);
    LeftHookBodyPrints(t, n, body, tokens, left, exact);
  }

  /** A hook named on the left whose body ended with `]`. */
  lemma LeftHookClosed(t: string, n: nat, body: string, tokens: seq<Node>, ir: string, exact: bool)
    requires n > 0 && n + 2 <= |t| && t[n..n + 2] == ">[" && body == t[n + 2..]
    requires ParseHook("|", t) == HookBody("|", Some(t[..n]), body, t)
    requires TokenizeFrom([], body, HookStop) == Ok(Tokenized(tokens, Some("]"), ir))
    requires IsSuffix("]" + ir, body) && PrintsAs(tokens, EscapeHtml(Consumed(body, "]" + ir)), exact)
    ensures HookPrints(ParseHook("|", t), "|", t, exact)
  {
    HookBodyClosed("|", Some(t[..n]), body, t);
    LeftHookBodyPrints(t, n, body, tokens, ir, exact);
  }

  /** A hook named on the left whose body printing as `tokens` ended with `]`, leaving `ir`. */
  lemma LeftHookBodyPrints(t: string, n: nat, body: string, tokens: seq<Node>, ir: string, exact: bool)
    requires n > 0 && n + 2 <= |t| && t[n..n + 2] == ">[" && body == t[n + 2..]
    requires ParseHook("|", t) == Ok(Handled([Hook(tokens, Some(t[..n]), false)], ir))
    requires IsSuffix("]" + ir, body) && PrintsAs(tokens, EscapeHtml(Consumed(body, "]" + ir)), exact)
    ensures HookPrints(ParseHook("|", t), "|", t, exact)
  {
    HookLeftCase(t, n, tokens, ir, Consumed(body, "]" + ir), exact);
  }

  /** A link, or (without `]]`) a hook starting with `[`. */
  lemma {:induction false} ParseLinkRoundTrip(t: string, exact: bool)
    requires Safe("[[" + t) && LinkKeeps(t, exact)
    ensures HandlerPrints(ParseLink(t), "[[" + t, exact)
    decreases |t| + 1, 2, 1
  {
    match MatchLink(t)
    case None =>
      assert "[" + ("[" + t) == "[[" + t;
      BracketHandlerRoundTrip("[" + t, exact);
    case Some((shape, len)) =>
      if shape.Plain? {
        LinkPlainRoundTrip(t, shape, len, exact);
      } else {
        LinkArrowRoundTrip(t, shape, len, exact);
      }
  }

  /** `[[source]]` without an arrow. */
  lemma {:induction false} LinkPlainRoundTrip(t: string, shape: LinkShape, len: nat, exact: bool)
    requires Safe("[[" + t) && MatchLink(t) == Some((shape, len)) && shape.Plain? && LinkKeeps(t, exact)
    ensures HandlerPrints(ParseLink(t), "[[" + t, exact)
    decreases |t| + 1, 2, 0
  {
    var src := LinkSource(shape);
    LinkGlue(t, src, len);
    PrintsAsEmpty(exact);
    if shape.contents != [] {
      WholeRoundTrip(src, exact);
      var inner := TokenizeFrom([], src, NoStop);
      if inner.Ok? {
        LinkPlainPrints(inner.value.tokens, EscapeHtml(src), NoName, true, exact);
      }
    } else {
      assert src == [] && EscapeHtml(src) == [];
      assert TokenizeFrom([], [], NoStop) == Ok(Tokenized([], None, []));
      LinkPlainPrints([], [], Name([]), false, exact);
    }
  }

  /** `[[text->passage]]` and `[[passage<-text]]`. */
  lemma {:induction false} LinkArrowRoundTrip(t: string, shape: LinkShape, len: nat, exact: bool)
    requires Safe("[[" + t) && MatchLink(t) == Some((shape, len)) && !shape.Plain? && LinkKeeps(t, exact)
    ensures HandlerPrints(ParseLink(t), "[[" + t, exact)
    decreases |t| + 1, 2, 0
  {
    var src := LinkSource(shape);
    LinkGlue(t, src, len);
    var onRight := shape.ArrowRight?;
    var x, y := shape.text, shape.passage;
    if onRight {
      SafeArrow(x, "->", y);
    } else {
      SafeArrow(y, "<-", x);
    }
    WholeRoundTrip(x, exact);
    WholeRoundTrip(y, exact);
    var d := TokenizeFrom([], x, NoStop);
    var p := TokenizeFrom([], y, NoStop);
    if d.Ok? && p.Ok? {
      LinkArrowCase(x, y, onRight, d.value.tokens, p.value.tokens, exact);
    }
  }

  /** `[[text->passage]]` and `[[passage<-text]]`. */
  lemma LinkArrowCase(x: string, y: string, onRight: bool, text: seq<Node>, passage: seq<Node>, exact: bool)
    requires PrintsAs(text, EscapeHtml(x), exact) && PrintsAs(passage, EscapeHtml(y), exact) && passage != []
    ensures PrintsAs([Link(text, Name(passage), onRight)],
                     "[[" + EscapeHtml(if onRight then x + "->" + y else y + "<-" + x) + "]]", exact)
  {
    var ex, ey := EscapeHtml(x), EscapeHtml(y);
    LinkNamedPrints(text, ex, passage, ey, onRight, exact);
    EscArrow(x, onRight, y);
  }

  /** A macro, a macro followed by its hook, or `(` as text. */
  lemma {:induction false} ParseMacroRoundTrip(t: string, exact: bool)
    requires Safe("(" + t) && MacroKeeps(t, exact)
    ensures HandlerPrints(ParseMacro(t), "(" + t, exact)
    decreases |t|, 1, 0
  {
    OpenerGlue("(", t, exact);
    match MatchMacroName(t)
    case None =>
      assert ParseMacro(t) == Ok(Handled([Text("(")], t));
    case Some((token, len)) =>
      MacroNamePlain(t);
      MacroNamedRoundTrip(t, token.text, len, exact);
  }

  /** `(name:` and what follows: the macro's code, then the hook that may follow its `)`. */
  lemma {:induction false} MacroNamedRoundTrip(t: string, name: string, len: nat, exact: bool)
    requires Safe("(" + t) && MacroKeeps(t, exact)
    requires MatchMacroName(t) == Some((PlainName(name), len)) && len <= |t| && t[..len] == name + ":"
    ensures HandlerPrints(ParseMacro(t), "(" + t, exact)
    decreases |t|, 0, 6
  {
    MacroBodyCase(t, name, len, exact);
    var inner := TokenizeFrom([], t[len..], MacroStop);
    if inner.Fail? {
      assert ParseMacro(t).Fail?;
    } else {
      var macro := NewMacro(Named(name), inner.value.tokens);
      var s1 := inner.value.rest;
      if s1 != [] && s1[0] == '[' {
        MacroHookCase("(" + t, s1, macro, exact);
        var h := ParseHook("[", s1[1..]);
        if h.Fail? {
          assert ParseMacro(t).Fail?;
        } else if h.value.nodes[0].Hook? {
          assert ParseMacro(t) == Ok(Handled([macro] + h.value.nodes, h.value.rest));
        } else {
          assert ParseMacro(t) == Ok(Handled([macro], s1));
        }
      } else {
        assert ParseMacro(t) == Ok(Handled([macro], s1));
      }
    }
  }

  /** The macro `name:` opens: its code runs to `)` or to the end of the input. */
  lemma {:induction false} MacroBodyCase(t: string, name: string, len: nat, exact: bool)
    requires Safe("(" + t) && len <= |t| && t[..len] == name + ":"
    requires var inner := TokenizeFrom([], t[len..], MacroStop);
      inner.Ok? ==> RunKeeps(t[len..], MacroStop, exact) && (exact ==> inner.value.stop.Some?)
    ensures var inner := TokenizeFrom([], t[len..], MacroStop);
      inner.Ok? ==>
        IsSuffix(inner.value.rest, "(" + t) &&
        PrintsAs([NewMacro(Named(name), inner.value.tokens)], EscapeHtml(Consumed("(" + t, inner.value.rest)), exact)
    decreases |t|, 0, 3
  {
    SafeTail("(", t);
    var t1 := t[len..];
    SafeSuffix(t, len);
    var inner := TokenizeFrom([], t1, MacroStop);
    if inner.Ok? {
      PrintsAsEmpty(exact);
      TokenizeRoundTrip([], t1, MacroStop, [], exact);
      var closed := inner.value.stop.Some?;
      var s1 := inner.value.rest;
      var q := if closed then ")" else "";
      assert StopText(inner.value.stop) + s1 == q + s1;
      var c := Consumed(t1, q + s1);
      assert [] + EscapeHtml(c) == EscapeHtml(c);
      MacroPrints(name, Named(CanonicalName(name)), inner.value.tokens, EscapeHtml(c), closed, exact);
      MacroGlue(t, name, len, c, closed, s1);
    }
  }

  /** A hook directly after a macro's `)` joins the macro. */
  lemma {:induction false} MacroHookCase(u: string, s1: string, macro: Node, exact: bool)
    requires Safe(u) && IsSuffix(s1, u) && s1 != [] && s1[0] == '[' && HookKeeps("[", s1[1..], exact)
    requires PrintsAs([macro], EscapeHtml(Consumed(u, s1)), exact)
    ensures var h := ParseHook("[", s1[1..]);
      h.Ok? ==> IsSuffix(h.value.rest, u) && PrintsAs([macro] + h.value.nodes, EscapeHtml(Consumed(u, h.value.rest)), exact)
    decreases |s1|, 1, 2
  {
    SafeRest(u, s1);
    assert "[" + s1[1..] == s1;
    BracketHandlerRoundTrip(s1[1..], exact);
    var h := ParseHook("[", s1[1..]);
    if h.Ok? {
      ConsumedChain(u, s1, h.value.rest);
      EscapeHtmlConcat(Consumed(u, s1), Consumed(s1, h.value.rest));
      PrintsAsConcat([macro], EscapeHtml(Consumed(u, s1)), h.value.nodes, EscapeHtml(Consumed(s1, h.value.rest)), exact);
    }
  }

  /** A run of `n` brackets left: the tokens print as the brackets, what the hooks parsed so
      far print as, and the escaped text the remaining hooks consume. */
  lemma {:induction false} NestedRoundTrip(n: nat, nested: seq<Node>, t: string, run: string, x: string, exact: bool)
    requires |run| == n && (forall i :: 0 <= i < |run| ==> run[i] == '[')
    requires Safe(t) && NestedKeeps(n, t, exact) && PrintsAs(nested, x, exact)
    ensures var r := NestedBrackets(n, nested, t);
      r.Ok? ==> IsSuffix(r.value.rest, t) && PrintsAs(r.value.nodes, run + x + EscapeHtml(Consumed(t, r.value.rest)), exact)
    decreases |t|, 2, n, 1
  {
    if n == 0 {
      assert run == [] && Consumed(t, t) == [] && EscapeHtml([]) == [];
      assert run + x + [] == x;
    } else {
      var ok, nested', r1 := NestedStep(n, nested, t, x, exact);
      if ok {
        var x' := "[" + x + EscapeHtml(Consumed(t, r1));
        NestedRoundTrip(n - 1, nested', r1, run[..n - 1], x', exact);
        var r := NestedBrackets(n - 1, nested', r1);
        if r.Ok? {
          NestedTailPrints(t, r1, r.value.rest, r.value.nodes, run, x, exact);
        }
      }
    }
  }

  /** The first bracket of a run of `n`: either the run fails there, or its hook wraps
      `nested` into `nested'` and the rest of the run goes on from `r1`. */
  lemma {:induction false} NestedStep(n: nat, nested: seq<Node>, t: string, x: string, exact: bool)
      returns (ok: bool, nested': seq<Node>, r1: string)
    requires n > 0 && Safe(t) && NestedKeeps(n, t, exact) && PrintsAs(nested, x, exact)
    ensures !ok ==> NestedBrackets(n, nested, t).Fail?
    ensures ok ==> NestedBrackets(n, nested, t) == NestedBrackets(n - 1, nested', r1)
    ensures ok ==> IsSuffix(r1, t) && Safe(r1) && NestedKeeps(n - 1, r1, exact)
    ensures ok ==> PrintsAs(nested', "[" + x + EscapeHtml(Consumed(t, r1)), exact)
    decreases |t|, 2, n, 0
  {
    NestedHookStep(nested, x, t, exact);
    var h := ParseHook("[", t);
    ok := h.Ok? && h.value.nodes[0].Hook?;
    if ok {
      var hook := h.value.nodes[0];
      r1 := h.value.rest;
      nested' := [Hook(nested + hook.contents, hook.nametag, hook.tagOnRight)];
      SafeRest(t, r1);
    } else {
      nested', r1 := [], [];
    }
  }

  /** One hook of a bracket run wraps the hooks parsed for the brackets after it. */
  lemma {:induction false} NestedHookStep(nested: seq<Node>, x: string, t: string, exact: bool)
    requires Safe(t) && HookKeeps("[", t, exact) && PrintsAs(nested, x, exact)
    ensures var h := ParseHook("[", t);
      h.Ok? && h.value.nodes[0].Hook? ==>
        var hook := h.value.nodes[0];
        IsSuffix(h.value.rest, t) &&
        PrintsAs([Hook(nested + hook.contents, hook.nametag, hook.tagOnRight)], "[" + x + EscapeHtml(Consumed(t, h.value.rest)), exact)
    decreases |t|, 1, 1
  {
    BracketHookRoundTrip(t, exact);
    var h := ParseHook("[", t);
    if h.Ok? && h.value.nodes[0].Hook? {
      var hook := h.value.nodes[0];
      assert h.value.nodes == [hook];
      HookWrapPrints(nested, x, hook.contents, hook.nametag, hook.tagOnRight, EscapeHtml(Consumed(t, h.value.rest)), exact);
    }
  }

  lemma WordCharPlain(c: char)
    requires IsWordChar(c)
    ensures !IsHtmlSpecial(c)
  {
  }

  /** A variable prints as the sigil and its name; a lone `$` stays text. */
  lemma VariableRoundTrip(t: string, exact: bool)
    ensures HandlerPrints(Ok(ParseVariable(t)), "$" + t, exact)
  {
    var r := ParseVariable(t);
    if r.nodes[0].Variable? {
      var v := r.nodes[0].name;
      assert r.nodes == [Variable(v)];
      assert "$" + t == ("$" + v) + r.rest;
      VariablePrints(v, r.rest, exact);
    } else {
      OpenerGlue("$", t, exact);
    }
  }

  /** A variable token consumed its sigil and name, which need no escaping. */
  lemma VariablePrints(v: string, rest: string, exact: bool)
    requires forall i :: 0 <= i < |v| ==> IsWordChar(v[i])
    ensures HandlerPrints(Ok(Handled([Variable(v)], rest)), ("$" + v) + rest, exact)
  {
    var u := "$" + v;
    PrintSingle(Variable(v));
    InsRefl(u);
    ConsumedFront(u, rest);
    forall i | 0 <= i < |u| ensures !IsHtmlSpecial(u[i]) {
      if i > 0 {
        assert u[i] == v[i - 1];
        WordCharPlain(v[i - 1]);
      }
    }
    EscPlain(u);
  }

  // ---------------------------------------------------------------------------------------
  // The theorem

  /** Tokenizing a passage whose hooks keep their name tags and printing its tokens gives
      back its HTML-escaped text, with a `)` added for each macro the text leaves open; when
      every macro is closed, or the printed text holds no `)` of its own, the printed text
      is exactly the escaped text. */
  lemma TokenizeThenPrint(s: string)
    requires Safe(s) && KeepsTags(s)
    ensures var r := TokenizeFrom([], s, NoStop);
      r.Ok? ==> Print(r.value.tokens).Some? && Ins(EscapeHtml(s), Print(r.value.tokens).value)
    ensures var r := TokenizeFrom([], s, NoStop);
      r.Ok? && KeepsAll(s) ==> Print(r.value.tokens) == Some(EscapeHtml(s))
    ensures var r := TokenizeFrom([], s, NoStop);
      r.Ok? && Print(r.value.tokens).Some? && ')' !in Print(r.value.tokens).value ==>
        Print(r.value.tokens).value == EscapeHtml(s)
  {
    WholeRoundTrip(s, false);
    if KeepsAll(s) {
      WholeRoundTrip(s, true);
    }
    var r := TokenizeFrom([], s, NoStop);
    if r.Ok? {
      InsNoParen(EscapeHtml(s), Print(r.value.tokens).value);
    }
  }

  /** Without a `)` nothing was inserted. */
  lemma {:induction false} InsNoParen(x: string, y: string)
    requires Ins(x, y)
    ensures ')' !in y ==> x == y
    decreases |y|
  {
    if y != [] && ')' !in y {
      assert ')' !in y[1..];
      InsNoParen(x[1..], y[1..]);
      assert x == [x[0]] + x[1..] && y == [y[0]] + y[1..];
    }
  }
}
