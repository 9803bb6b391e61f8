/** The tokenizer (harlowe.py:455-668). The handlers for variables, hooks, links, macros
    and bracket runs, and tokenize itself, are mutually recursive functions; tokenize's loop
    and the bracket-run loop are methods proved equal to them. */
module Tokenizer {
  import opened Base
  import opened Scanners
  import opened Nodes

  /** What tokenize returns: the tokens, the stop token that ended the run (None when the
      input ran out), and the input after the stop token ("" where harlowe.py returns None). */
  datatype Tokenized = Tokenized(tokens: seq<Node>, stop: Option<string>, rest: string)

  /** What a handler returns: the tokens it produced and the input it left. */
  datatype Handled = Handled(nodes: seq<Node>, rest: string)

  /** The two exceptions tokenizing can actually raise; the two RuntimeErrors of
      harlowe.py:512-531 and 581-583 are never raised (see the `Fail?` postconditions). */
  predicate Raisable(e: ParseError) { e == NestedHookNotParsed || e == VerbatimAtEnd }

  /** _parse_variable: after a `$`, a property name becomes a variable; otherwise the `$`
      is plain text and nothing is consumed. */
  function ParseVariable(t: string): (r: Handled)
    ensures |r.nodes| == 1 && |r.rest| <= |t|
    ensures r.nodes[0].Variable? ==> r.nodes[0].name != [] && t == r.nodes[0].name + r.rest
    ensures r.nodes[0].Variable? ==> forall i :: 0 <= i < |r.nodes[0].name| ==> IsWordChar(r.nodes[0].name[i])
    ensures !r.nodes[0].Variable? ==> r == Handled([Text("$")], t)
    ensures PropertyNameLength(t).Some? <==> r.nodes[0].Variable?
    ensures r.nodes[0].Variable? ==>
      r.nodes[0].name == t[..PropertyNameLength(t).value] && (r.rest == [] || !IsWordChar(r.rest[0]))
  {
    match PropertyNameLength(t)
    case Some(n) =>
      RunLengthAll(t, IsWordChar);
      assert t == t[..n] + t[n..];
      Handled([Variable(t[..n])], t[n..])
    case None => Handled([Text("$")], t)
  }

  /** tokenize, continuing from the tokens `acc` already collected. */
  function TokenizeFrom(acc: seq<Node>, s: string, stop: Stop): (r: Result<Tokenized>)
    ensures r.Ok? ==> |r.value.rest| <= |s| && |acc| <= |r.value.tokens|
    ensures r.Ok? && r.value.stop.None? ==> r.value.rest == []
    ensures r.Ok? && r.value.stop.Some? ==>
      IsStopToken(stop, r.value.stop.value) && |r.value.stop.value| + |r.value.rest| <= |s|
    ensures r.Ok? && s != [] && stop == NoStop ==> r.value.tokens != []
    ensures r.Fail? ==> Raisable(r.error)
    decreases |s|, 0, 3
  {
    if s == [] then Ok(Tokenized(acc, None, []))
    else
      match FindTrigger(s, stop)
      case None => Ok(Tokenized(Merged(acc, Text(s)), None, []))
      case Some(p) => TokenizeAt(acc, s, p, stop)
  }

  /** tokenize once the next token is found at index `p`: the text before it is appended,
      then a stop token ends the run and a start token is handed to its handler. */
  function TokenizeAt(acc: seq<Node>, s: string, p: nat, stop: Stop): (r: Result<Tokenized>)
    requires p < |s| && IsTrigger(s[p], stop)
    ensures r.Ok? ==> |r.value.rest| < |s| && |acc| <= |r.value.tokens|
    ensures r.Ok? && r.value.stop.None? ==> r.value.rest == []
    ensures r.Ok? && r.value.stop.Some? ==>
      IsStopToken(stop, r.value.stop.value) && |r.value.stop.value| + |r.value.rest| <= |s|
    ensures r.Ok? && stop == NoStop ==> r.value.tokens != []
    ensures r.Fail? ==> Raisable(r.error)
    decreases |s|, 0, 2
  {
    var acc1 := if p > 0 then Merged(acc, Text(s[..p])) else acc;
    match TriggerAt(s, p, stop)
    case StopAt(tok) => Ok(Tokenized(acc1, Some(tok), s[p + |tok|..]))
    case Start(kind, tok) => StartFrom(acc1, kind, tok, s[p + |tok|..], stop, |s|)
  }

  /** tokenize after the start token `tok`, with `after` the input that follows it: its
      handler runs, then the run resumes. */
  function StartFrom(acc: seq<Node>, kind: StartKind, tok: string, after: string, stop: Stop, bound: nat)
    : (r: Result<Tokenized>)
    requires |tok| >= 1 && (kind == LinkStart ==> tok == "[[")
    requires kind == BracketRunStart ==> forall i :: 0 <= i < |tok| ==> tok[i] == '['
    requires |tok| + |after| <= bound
    ensures r.Ok? ==> |r.value.rest| < bound && |acc| <= |r.value.tokens|
    ensures r.Ok? && r.value.stop.None? ==> r.value.rest == []
    ensures r.Ok? && r.value.stop.Some? ==>
      IsStopToken(stop, r.value.stop.value) && |r.value.stop.value| + |r.value.rest| < bound
    ensures r.Ok? && stop == NoStop ==> r.value.tokens != []
    ensures r.Fail? ==> Raisable(r.error)
    decreases bound, 0, 1
  {
    Resume(acc, Dispatch(kind, tok, after), stop, bound)
  }

  /** tokenize after a handler returned `h`. */
  function Resume(acc: seq<Node>, h: Result<Handled>, stop: Stop, bound: nat): (r: Result<Tokenized>)
    requires h.Ok? ==> |h.value.rest| < bound
    ensures r.Ok? ==> |r.value.rest| < bound && |acc| <= |r.value.tokens|
    ensures r.Ok? && r.value.stop.None? ==> r.value.rest == []
    ensures r.Ok? && r.value.stop.Some? ==>
      IsStopToken(stop, r.value.stop.value) && |r.value.stop.value| + |r.value.rest| < bound
    ensures r.Ok? && h.Ok? && h.value.nodes != [] && stop == NoStop ==> r.value.tokens != []
    ensures r.Fail? && (h.Ok? || Raisable(h.error)) ==> Raisable(r.error)
    decreases bound, 0, 0
  {
    if h.Fail? then Fail(h.error)
    else TokenizeFrom(MergedAll(acc, h.value.nodes), h.value.rest, stop)
  }

  /** The handler a start token selects (the _START_TOKENS table, then verbatim text and
      bracket runs), applied to the input after the token. */
  function Dispatch(kind: StartKind, tok: string, t: string): (r: Result<Handled>)
    requires |tok| >= 1 && (kind == LinkStart ==> tok == "[[")
    requires kind == BracketRunStart ==> forall i :: 0 <= i < |tok| ==> tok[i] == '['
    ensures r.Ok? ==> r.value.nodes != [] && |r.value.rest| < |tok| + |t|
    ensures r.Fail? ==> Raisable(r.error)
    decreases |tok| + |t| - 1, 3, 0
  {
    match kind
    case LinkStart => ParseLink(t)
    case HookStart => ParseHook("[", t)
    case BarStart => ParseHook("|", t)
    case MacroStart => ParseMacro(t)
    case SigilStart => Ok(ParseVariable(t))
    case VerbatimStart => Verbatim(t)
    case BracketRunStart => NestedBrackets(|tok|, [], t)
  }

  /** _parse_hook, after `[` or `|`: an optional left name tag `tag>[`, then the hook body;
      a `|` not followed by a tag and `>[` is plain text. */
  function ParseHook(m: string, t: string): (r: Result<Handled>)
    requires m == "[" || m == "|"
    ensures r.Ok? ==> |r.value.nodes| == 1 && |r.value.rest| <= |t|
    ensures r.Ok? && !r.value.nodes[0].Hook? ==> r.value == Handled([Text(m)], t)
    ensures r.Ok? && m == "[" && r.value.nodes[0].Hook? ==> r.value.nodes[0].tagOnRight || r.value.nodes[0].nametag.None?
    ensures r.Fail? ==> Raisable(r.error)
    decreases |t|, 1, 0
  {
    if m == "|" then
      match MatchLeftTag(t)
      case None => Ok(Handled([Text(m)], t))
      case Some(n) => HookBody(m, Some(t[..n]), t[n + 2..], t)
    else HookBody(m, None, t, t)
  }

  /** The hook body `body` (a suffix of the handler's input `t`) up to `]` or `]<`, and
      after `]<` an optional right name tag `tag|`, which replaces the left one; when there
      is no closing bracket the opener `m` is plain text and nothing is consumed. */
  function HookBody(m: string, nametag: Option<string>, body: string, t: string): (r: Result<Handled>)
    requires |body| <= |t|
    ensures r.Ok? ==> |r.value.nodes| == 1 && |r.value.rest| <= |t|
    ensures r.Ok? && !r.value.nodes[0].Hook? ==> r.value == Handled([Text(m)], t)
    ensures r.Ok? && r.value.nodes[0].Hook? ==> r.value.nodes[0].tagOnRight || r.value.nodes[0].nametag == nametag
    ensures r.Fail? ==> Raisable(r.error)
    decreases |body|, 0, 4
  {
    var inner :- TokenizeFrom([], body, HookStop);
    if inner.stop.None? then Ok(Handled([Text(m)], t))
    else if inner.stop.value == "]<" then
      match MatchRightTag(inner.rest)
      case Some(n) => Ok(Handled([Hook(inner.tokens, Some(inner.rest[..n]), true)], inner.rest[n + 1..]))
      case None => Ok(Handled([Hook(inner.tokens, nametag, false)], "<" + inner.rest))
    else Ok(Handled([Hook(inner.tokens, nametag, false)], inner.rest))
  }

  /** _parse_link, after `[[`: `[[text->passage]]`, `[[passage<-text]]` or `[[passage]]`;
      `[[]]` becomes a link with empty text and passage. Without a closing `]]` the input
      is read as a hook that starts with `[`. */
  function ParseLink(t: string): (r: Result<Handled>)
    ensures r.Ok? ==> |r.value.nodes| == 1 && |r.value.rest| <= |t| + 1
    ensures r.Ok? && MatchLink(t).Some? ==> r.value.rest == t[MatchLink(t).value.1..]
    ensures r.Fail? ==> Raisable(r.error)
    decreases |t| + 1, 2, 0
  {
    match MatchLink(t)
    case None => ParseHook("[", "[" + t)
    case Some((shape, len)) =>
      var rest := t[len..];
      if shape.Plain? && shape.contents != [] then
        var inner :- TokenizeFrom([], shape.contents, NoStop);
        if inner.rest != [] then Fail(LinkLeftover)
        else Ok(Handled([Link(inner.tokens, NoName, true)], rest))
      else
        var (text, passage, onRight) :=
          match shape
          case ArrowRight(x, y) => (x, y, true)
          case ArrowLeft(y, x) => (x, y, false)
          case Plain(_) => ([], [], false);
        var d :- TokenizeFrom([], text, NoStop);
        if d.rest != [] then Fail(LinkLeftover)
        else
          var p :- TokenizeFrom([], passage, NoStop);
          if p.rest != [] then Fail(LinkLeftover)
          else Ok(Handled([Link(d.tokens, Name(p.tokens), onRight)], rest))
  }

  /** _parse_macro, after `(`: a name and a colon, the code up to `)` (or to the end of the
      input), and a hook that directly follows the `)`. Without a name the `(` is text. */
  function ParseMacro(t: string): (r: Result<Handled>)
    ensures r.Ok? ==> 1 <= |r.value.nodes| <= 2 && |r.value.rest| <= |t|
    ensures r.Fail? ==> Raisable(r.error)
    decreases |t|, 1, 0
  {
    match MatchMacroName(t)
    case None => Ok(Handled([Text("(")], t))
    case Some((token, len)) =>
      var name: Option<MacroName> :=
        match token
        case PlainName(n) => Some(Named(n))
        case VariableName(v) =>
          var pv := ParseVariable(v);
          if pv.rest != [] then None
          else
            match pv.nodes[0]
            case Variable(x) => Some(Var(x))
            case _ => assert false; None;
      if name.None? then Ok(Handled([Text("(")], t))
      else MacroCall(name.value, t[len..])
  }

  /** The rest of _parse_macro once the name is known: the code runs to `)`, and a hook
      right after the `)` is attached to the macro. */
  function MacroCall(name: MacroName, code: string): (r: Result<Handled>)
    ensures r.Ok? ==> 1 <= |r.value.nodes| <= 2 && |r.value.rest| <= |code|
    ensures r.Fail? ==> Raisable(r.error)
    decreases |code|, 1, 0
  {
    var inner :- TokenizeFrom([], code, MacroStop);
    var macro := NewMacro(name, inner.tokens);
    var s1 := inner.rest;
    if s1 != [] && s1[0] == '[' then
      var h :- ParseHook("[", s1[1..]);
      if h.nodes[0].Hook? then Ok(Handled([macro] + h.nodes, h.rest))
      else Ok(Handled([macro], s1))
    else Ok(Handled([macro], s1))
  }

  /** _parse_nested_brackets, with `n` brackets of the run left to handle: each is a hook
      whose contents start with the hook parsed for the bracket after it. */
  function NestedBrackets(n: nat, nested: seq<Node>, t: string): (r: Result<Handled>)
    ensures r.Ok? ==> |r.value.nodes| == 1 && |r.value.rest| <= |t|
    ensures r.Fail? && (n > 0 || |nested| == 1) ==> Raisable(r.error)
    decreases |t|, 2, n
  {
    if n == 0 then
      if |nested| != 1 then Fail(MultipleNestedTokens) else Ok(Handled(nested, t))
    else
      var h :- ParseHook("[", t);
      match h.nodes[0]
      case Hook(contents, tag, onRight) =>
        NestedBrackets(n - 1, [Hook(nested + contents, tag, onRight)], h.rest)
      case _ => Fail(NestedHookNotParsed)
  }

  /** Verbatim text after a backtick: the text up to the next backtick on the same line.
      As written, harlowe.py:652 then keeps only the single character after that backtick
      as the input to go on with, and raises when there is none. */
  function Verbatim(t: string): (r: Result<Handled>)
    ensures r.Ok? ==> |r.value.nodes| == 1 && |r.value.rest| <= |t|
    ensures r.Fail? ==> r.error == VerbatimAtEnd
  {
    match VerbatimEnd(t)
    case None => Ok(Handled([Text("`")], t))
    case Some(j) =>
      if j + 1 < |t| then Ok(Handled([Text(t[..j])], [t[j + 1]])) else Fail(VerbatimAtEnd)
  }

  // ---------------------------------------------------------------------------------------
  // The loops

  /** tokenize (harlowe.py:601-668): finds the next token, appends the text before it, and
      hands the rest to the token's handler, until the input or the stop token is reached. */
  method Tokenize(input: string, stop: Stop) returns (r: Result<Tokenized>)
    ensures r == TokenizeFrom([], input, stop)
    ensures r.Ok? ==> IsSuffix(r.value.rest, input) && (r.value.stop.Some? ==> |r.value.rest| < |input|)
  {
    TokenizeFromSuffix([], input, stop);
    var tokens: seq<Node> := [];
    var s := input;
    while true
      invariant TokenizeFrom(tokens, s, stop) == TokenizeFrom([], input, stop)
      decreases |s|
    {
      if s == [] {
        return Ok(Tokenized(tokens, None, []));
      }
      var found := FindTrigger(s, stop);
      if found.None? {
        tokens := Merged(tokens, Text(s));
        return Ok(Tokenized(tokens, None, []));
      }
      var done, res, next, rest := TokenizeToken(tokens, s, found.value, stop);
      if done {
        return res;
      }
      tokens, s := next, rest;
    }
  }

  /** The part of tokenize's loop that handles the token found at `p`: either the run ends
      (a stop token or an exception) with `res`, or it goes on with `next` and `rest`. */
  method TokenizeToken(acc: seq<Node>, s: string, p: nat, stop: Stop)
    returns (done: bool, res: Result<Tokenized>, next: seq<Node>, rest: string)
    requires p < |s| && IsTrigger(s[p], stop)
    ensures done ==> res == TokenizeAt(acc, s, p, stop)
    ensures !done ==> |rest| < |s| && TokenizeFrom(next, rest, stop) == TokenizeAt(acc, s, p, stop)
  {
    next := acc;
    if p > 0 {
      next := Merged(next, Text(s[..p]));
    }
    var trigger := TriggerAt(s, p, stop);
    var after := s[p + |trigger.token|..];
    if trigger.StopAt? {
      StopStep(acc, s, p, stop, next, trigger, after);
      return true, Ok(Tokenized(next, Some(trigger.token), after)), next, [];
    }
    var h := HandleStart(trigger.kind, trigger.token, after);
    StartStep(acc, s, p, stop, next, trigger, after);
    StartFromDispatch(next, trigger.kind, trigger.token, after, stop, |s|);
    if h.Fail? {
      return true, Fail(h.error), next, [];
    }
    ghost var acc1 := next;
    next := AppendAll(next, h.value.nodes);
    ResumeOk(acc1, h, next, stop, |s|);
    return false, Ok(Tokenized(next, None, [])), next, h.value.rest;
  }

  /** The stop-token branch of TokenizeToken, in the method's own terms. */
  lemma StopStep(acc: seq<Node>, s: string, p: nat, stop: Stop, next: seq<Node>, trigger: Trigger, after: string)
    requires p < |s| && IsTrigger(s[p], stop) && trigger == TriggerAt(s, p, stop) && trigger.StopAt?
    requires p + |trigger.token| <= |s| && after == s[p + |trigger.token|..]
    requires next == if p > 0 then Merged(acc, Text(s[..p])) else acc
    ensures Ok(Tokenized(next, Some(trigger.token), after)) == TokenizeAt(acc, s, p, stop)
  {
  }

  /** The start-token branch of TokenizeToken, in the method's own terms: the run from `p`
      resumes after the handler the token selects. */
  lemma StartStep(acc: seq<Node>, s: string, p: nat, stop: Stop, acc1: seq<Node>, trigger: Trigger, after: string)
    requires p < |s| && IsTrigger(s[p], stop) && trigger == TriggerAt(s, p, stop) && trigger.Start?
    requires p + |trigger.token| <= |s| && after == s[p + |trigger.token|..]
    requires acc1 == if p > 0 then Merged(acc, Text(s[..p])) else acc
    ensures TokenizeAt(acc, s, p, stop) == StartFrom(acc1, trigger.kind, trigger.token, after, stop, |s|)
  {
  }

  /** A start token's run is its handler's result, resumed. */
  lemma StartFromDispatch(acc: seq<Node>, kind: StartKind, tok: string, after: string, stop: Stop, bound: nat)
    requires |tok| >= 1 && (kind == LinkStart ==> tok == "[[")
    requires kind == BracketRunStart ==> forall i :: 0 <= i < |tok| ==> tok[i] == '['
    requires |tok| + |after| <= bound
    ensures StartFrom(acc, kind, tok, after, stop, bound) == Resume(acc, Dispatch(kind, tok, after), stop, bound)
  {
  }

  /** When a handler returns, tokenize goes on over the rest it left, after its tokens. */
  lemma ResumeOk(acc1: seq<Node>, h: Result<Handled>, next: seq<Node>, stop: Stop, bound: nat)
    requires h.Ok? && |h.value.rest| < bound && next == MergedAll(acc1, h.value.nodes)
    ensures Resume(acc1, h, stop, bound) == TokenizeFrom(next, h.value.rest, stop)
  {
  }

  /** `|` followed by a left name tag and `>[`: the hook body after `>[`. */
  lemma ParseHookLeft(t: string, n: nat)
    requires MatchLeftTag(t) == Some(n)
    ensures n + 2 <= |t| && ParseHook("|", t) == HookBody("|", Some(t[..n]), t[n + 2..], t)
  {
    LeftTagFits(t, n);
    var tag, body := t[..n], t[n + 2..];
    assert ParseHook("|", t) == HookBody("|", Some(tag), body, t);
  }

  /** A left name tag is followed by the two characters `>[`. */
  lemma LeftTagFits(t: string, n: nat)
    requires MatchLeftTag(t) == Some(n)
    ensures n + 2 <= |t|
  {
  }

  /** A hook body that raises: so does the hook. */
  lemma HookBodyFails(m: string, nametag: Option<string>, body: string, t: string)
    requires |body| <= |t| && TokenizeFrom([], body, HookStop).Fail?
    ensures HookBody(m, nametag, body, t) == Fail(TokenizeFrom([], body, HookStop).error)
  {
  }

  /** A hook body that never closes: the opener is text. */
  lemma HookBodyText(m: string, nametag: Option<string>, body: string, t: string)
    requires |body| <= |t|
    requires var inner := TokenizeFrom([], body, HookStop); inner.Ok? && inner.value.stop.None?
    ensures HookBody(m, nametag, body, t) == Ok(Handled([Text(m)], t))
  {
  }

  /** A hook body that closes with `]`: a hook with the left name tag, if any. */
  lemma HookBodyClosed(m: string, nametag: Option<string>, body: string, t: string)
    requires |body| <= |t|
    requires var inner := TokenizeFrom([], body, HookStop); inner.Ok? && inner.value.stop == Some("]")
    ensures var inner := TokenizeFrom([], body, HookStop);
      HookBody(m, nametag, body, t) == Ok(Handled([Hook(inner.value.tokens, nametag, false)], inner.value.rest))
  {
  }

  /** A hook body that closes with `]<` followed by `tag|`: a hook named on the right. */
  lemma HookBodyTagged(m: string, nametag: Option<string>, body: string, t: string, n: nat)
    requires |body| <= |t|
    requires var inner := TokenizeFrom([], body, HookStop); inner.Ok? && inner.value.stop == Some("]<")
    requires MatchRightTag(TokenizeFrom([], body, HookStop).value.rest) == Some(n)
    ensures var inner := TokenizeFrom([], body, HookStop);
      var ir := inner.value.rest;
      HookBody(m, nametag, body, t) == Ok(Handled([Hook(inner.value.tokens, Some(ir[..n]), true)], ir[n + 1..]))
  {
  }

  /** A hook body that closes with `]<` and no right tag: the `<` is left over. */
  lemma HookBodyUntagged(m: string, nametag: Option<string>, body: string, t: string)
    requires |body| <= |t|
    requires var inner := TokenizeFrom([], body, HookStop); inner.Ok? && inner.value.stop == Some("]<")
    requires MatchRightTag(TokenizeFrom([], body, HookStop).value.rest).None?
    ensures var inner := TokenizeFrom([], body, HookStop);
      HookBody(m, nametag, body, t) == Ok(Handled([Hook(inner.value.tokens, nametag, false)], "<" + inner.value.rest))
  {
  }

  /** The handler call of tokenize's loop; bracket runs go through their own loop. */
  method HandleStart(kind: StartKind, tok: string, t: string) returns (h: Result<Handled>)
    requires |tok| >= 1 && (kind == LinkStart ==> tok == "[[")
    requires kind == BracketRunStart ==> forall i :: 0 <= i < |tok| ==> tok[i] == '['
    ensures h == Dispatch(kind, tok, t)
  {
    if kind == BracketRunStart {
      h := ParseNestedBrackets(tok, t);
    } else {
      h := Dispatch(kind, tok, t);
    }
  }

  /** The inner loop of tokenize: appends each item a handler returned. */
  method AppendAll(l: seq<Node>, items: seq<Node>) returns (r: seq<Node>)
    ensures r == MergedAll(l, items)
  {
    r := l;
    var i := 0;
    while i < |items|
      invariant 0 <= i <= |items|
      invariant r == MergedAll(l, items[..i])
    {
      r := Merged(r, items[i]);
      assert items[..i + 1][..i] == items[..i];
      i := i + 1;
    }
    assert items[..|items|] == items;
  }

  /** _parse_nested_brackets (harlowe.py:569-585): one hook per bracket of the run, from the
      last bracket to the first, each wrapped around the previous one. */
  method ParseNestedBrackets(run: string, t: string) returns (r: Result<Handled>)
    requires forall i :: 0 <= i < |run| ==> run[i] == '['
    ensures r == NestedBrackets(|run|, [], t)
  {
    var nested: seq<Node> := [];
    var s := t;
    var m := run;
    while m != []
      invariant NestedBrackets(|m|, nested, s) == NestedBrackets(|run|, [], t)
      decreases |m|
    {
      var h := ParseHook("[", s);
      if h.Fail? {
        return Fail(h.error);
      }
      var hook := h.value.nodes[0];
      if !hook.Hook? {
        return Fail(NestedHookNotParsed);
      }
      nested := [Hook(nested + hook.contents, hook.nametag, hook.tagOnRight)];
      s := h.value.rest;
      m := m[..|m| - 1];
    }
    if |nested| != 1 {
      return Fail(MultipleNestedTokens);
    }
    return Ok(Handled(nested, s));
  }

  // ---------------------------------------------------------------------------------------
  // The token list of a run never holds two strings side by side (harlowe.py:628-660)

  /** Every token list tokenize hands back keeps its strings apart, because each string is
      added through _append_with_string_merge. */
  lemma {:induction false} TokenizeFromFlat(acc: seq<Node>, s: string, stop: Stop)
    requires NoAdjacentText(acc)
    ensures var r := TokenizeFrom(acc, s, stop); r.Ok? ==> NoAdjacentText(r.value.tokens)
    decreases |s|, 0, 3
  {
    if s != [] {
      match FindTrigger(s, stop)
      case None =>
        MergedNoAdjacentText(acc, Text(s));
      case Some(p) =>
        TokenizeAtFlat(acc, s, p, stop);
    }
  }

  lemma {:induction false} TokenizeAtFlat(acc: seq<Node>, s: string, p: nat, stop: Stop)
    requires p < |s| && IsTrigger(s[p], stop) && NoAdjacentText(acc)
    ensures var r := TokenizeAt(acc, s, p, stop); r.Ok? ==> NoAdjacentText(r.value.tokens)
    decreases |s|, 0, 2
  {
    var acc1 := if p > 0 then Merged(acc, Text(s[..p])) else acc;
    if p > 0 {
      MergedNoAdjacentText(acc, Text(s[..p]));
    }
    var trig := TriggerAt(s, p, stop);
    var after := s[p + |trig.token|..];
    if trig.StopAt? {
      StopStep(acc, s, p, stop, acc1, trig, after);
    } else {
      StartStep(acc, s, p, stop, acc1, trig, after);
      StartFromDispatch(acc1, trig.kind, trig.token, after, stop, |s|);
      ResumeFlat(acc1, Dispatch(trig.kind, trig.token, after), stop, |s|);
    }
  }

  lemma {:induction false} ResumeFlat(acc: seq<Node>, h: Result<Handled>, stop: Stop, bound: nat)
    requires (h.Ok? ==> |h.value.rest| < bound) && NoAdjacentText(acc)
    ensures var r := Resume(acc, h, stop, bound); r.Ok? ==> NoAdjacentText(r.value.tokens)
    decreases bound, 0, 0
  {
    if h.Ok? {
      MergedAllNoAdjacentText(acc, h.value.nodes);
      TokenizeFromFlat(MergedAll(acc, h.value.nodes), h.value.rest, stop);
    }
  }

  // ---------------------------------------------------------------------------------------
  // Nor does any token list below it: every nested list is itself the result of a run of
  // tokenize (harlowe.py:475-566), and a nested-bracket hook puts a hook in front of one
  // (harlowe.py:569-585)

  /** Every list in the tree tokenize hands back keeps its strings apart. */
  lemma {:induction false} TokenizeFromDeep(acc: seq<Node>, s: string, stop: Stop)
    requires DeepFlat(acc)
    ensures var r := TokenizeFrom(acc, s, stop); r.Ok? ==> DeepFlat(r.value.tokens)
    decreases |s|, 0, 3
  {
    if s != [] {
      match FindTrigger(s, stop)
      case None =>
        MergedDeepFlat(acc, Text(s));
      case Some(p) =>
        TokenizeAtDeep(acc, s, p, stop);
    }
  }

  lemma {:induction false} TokenizeAtDeep(acc: seq<Node>, s: string, p: nat, stop: Stop)
    requires p < |s| && IsTrigger(s[p], stop) && DeepFlat(acc)
    ensures var r := TokenizeAt(acc, s, p, stop); r.Ok? ==> DeepFlat(r.value.tokens)
    decreases |s|, 0, 2
  {
    var acc1 := if p > 0 then Merged(acc, Text(s[..p])) else acc;
    if p > 0 {
      MergedDeepFlat(acc, Text(s[..p]));
    }
    var trig := TriggerAt(s, p, stop);
    var after := s[p + |trig.token|..];
    if trig.StopAt? {
      StopStep(acc, s, p, stop, acc1, trig, after);
    } else {
      StartStep(acc, s, p, stop, acc1, trig, after);
      StartFromDispatch(acc1, trig.kind, trig.token, after, stop, |s|);
      DispatchDeep(trig.kind, trig.token, after);
      ResumeDeep(acc1, Dispatch(trig.kind, trig.token, after), stop, |s|);
    }
  }

  lemma {:induction false} ResumeDeep(acc: seq<Node>, h: Result<Handled>, stop: Stop, bound: nat)
    requires h.Ok? ==> |h.value.rest| < bound && AllFlat(h.value.nodes)
    requires DeepFlat(acc)
    ensures var r := Resume(acc, h, stop, bound); r.Ok? ==> DeepFlat(r.value.tokens)
    decreases bound, 0, 0
  {
    if h.Ok? {
      MergedAllDeepFlat(acc, h.value.nodes);
      TokenizeFromDeep(MergedAll(acc, h.value.nodes), h.value.rest, stop);
    }
  }

  /** Every item a handler returns is flat all the way down. */
  lemma {:induction false} DispatchDeep(kind: StartKind, tok: string, t: string)
    requires |tok| >= 1 && (kind == LinkStart ==> tok == "[[")
    requires kind == BracketRunStart ==> forall i :: 0 <= i < |tok| ==> tok[i] == '['
    ensures var r := Dispatch(kind, tok, t); r.Ok? ==> AllFlat(r.value.nodes)
    decreases |tok| + |t| - 1, 3, 0
  {
    match kind
    case LinkStart => ParseLinkDeep(t);
    case HookStart => ParseHookDeep("[", t);
    case BarStart => ParseHookDeep("|", t);
    case MacroStart => ParseMacroDeep(t);
    case SigilStart =>
    case VerbatimStart =>
    case BracketRunStart => NestedBracketsDeep(|tok|, [], t);
  }

  lemma {:induction false} ParseHookDeep(m: string, t: string)
    requires m == "[" || m == "|"
    ensures var r := ParseHook(m, t); r.Ok? ==> AllFlat(r.value.nodes)
    decreases |t|, 1, 0
  {
    if m == "|" {
      match MatchLeftTag(t)
      case None =>
      case Some(n) =>
        LeftTagFits(t, n);
        HookBodyDeep(m, Some(t[..n]), t[n + 2..], t);
    } else {
      HookBodyDeep(m, None, t, t);
    }
  }

  lemma {:induction false} HookBodyDeep(m: string, nametag: Option<string>, body: string, t: string)
    requires |body| <= |t|
    ensures var r := HookBody(m, nametag, body, t); r.Ok? ==> AllFlat(r.value.nodes)
    decreases |body|, 0, 4
  {
    TokenizeFromDeep([], body, HookStop);
  }

  lemma {:induction false} ParseLinkDeep(t: string)
    ensures var r := ParseLink(t); r.Ok? ==> AllFlat(r.value.nodes)
    decreases |t| + 1, 2, 0
  {
    match MatchLink(t)
    case None => ParseHookDeep("[", "[" + t);
    case Some((shape, len)) => LinkShapeDeep(t, shape, len);
  }

  /** A link of the shape matched: its text and passage tokens are flat all the way down. */
  lemma {:induction false} LinkShapeDeep(t: string, shape: LinkShape, len: nat)
    requires MatchLink(t) == Some((shape, len))
    ensures var r := ParseLink(t); r.Ok? ==> AllFlat(r.value.nodes)
    decreases |t| + 1, 1, 0
  {
    if shape.Plain? && shape.contents != [] {
      TokenizeFromDeep([], shape.contents, NoStop);
    } else {
      var (text, passage, onRight) :=
        match shape
        case ArrowRight(x, y) => (x, y, true)
        case ArrowLeft(y, x) => (x, y, false)
        case Plain(_) => ([], [], false);
      TokenizeFromDeep([], text, NoStop);
      TokenizeFromDeep([], passage, NoStop);
    }
  }

  lemma {:induction false} ParseMacroDeep(t: string)
    ensures var r := ParseMacro(t); r.Ok? ==> AllFlat(r.value.nodes)
    decreases |t|, 1, 0
  {
    match MatchMacroName(t)
    case None =>
    case Some((token, len)) =>
      forall name: MacroName ensures var r := MacroCall(name, t[len..]); r.Ok? ==> AllFlat(r.value.nodes) {
        MacroCallDeep(name, t[len..]);
      }
  }

  lemma {:induction false} MacroCallDeep(name: MacroName, code: string)
    ensures var r := MacroCall(name, code); r.Ok? ==> AllFlat(r.value.nodes)
    decreases |code|, 1, 0
  {
    TokenizeFromDeep([], code, MacroStop);
    var inner := TokenizeFrom([], code, MacroStop);
    if inner.Ok? {
      var s1 := inner.value.rest;
      if s1 != [] && s1[0] == '[' {
        ParseHookDeep("[", s1[1..]);
      }
    }
  }

  lemma {:induction false} NestedBracketsDeep(n: nat, nested: seq<Node>, t: string)
    requires nested == [] || (|nested| == 1 && nested[0].Hook? && FlatNode(nested[0]))
    ensures var r := NestedBrackets(n, nested, t); r.Ok? ==> AllFlat(r.value.nodes)
    decreases |t|, 2, n
  {
    if n > 0 {
      ParseHookDeep("[", t);
      var h := ParseHook("[", t);
      if h.Ok? && h.value.nodes[0].Hook? {
        var c := h.value.nodes[0].contents;
        assert FlatNode(h.value.nodes[0]);
        if nested != [] {
          ConsDeepFlat(nested[0], c);
          assert nested + c == [nested[0]] + c;
        } else {
          assert nested + c == c;
        }
        var hook := Hook(nested + c, h.value.nodes[0].nametag, h.value.nodes[0].tagOnRight);
        assert FlatNode(hook);
        NestedBracketsDeep(n - 1, [hook], h.value.rest);
      }
    }
  }

  // ---------------------------------------------------------------------------------------
  // What tokenize leaves over is always a suffix of its input (harlowe.py:601-668): every
  // handler hands back a suffix of the text after its start token, except the verbatim
  // handler, whose single character (harlowe.py:652) the run that follows always uses up

  /** The remainder of a run is a suffix of its input `s`; after `]<`, so is the remainder
      with the `<` in front, which is what lets the hook handler push the `<` back. */
  predicate SuffixRest(x: Tokenized, s: string) {
    IsSuffix(x.rest, s) && (x.stop == Some("]<") ==> IsSuffix("<" + x.rest, s))
  }

  /** tokenize hands back a suffix of its input: with a stop token, the input after that
      token; without one, nothing. */
  lemma {:induction false} TokenizeFromSuffix(acc: seq<Node>, s: string, stop: Stop)
    ensures var r := TokenizeFrom(acc, s, stop); r.Ok? ==> SuffixRest(r.value, s)
    decreases |s|, 0, 3
  {
    if s != [] {
      match FindTrigger(s, stop)
      case None =>
      case Some(p) =>
        TokenizeAtSuffix(acc, s, p, stop);
    }
  }

  lemma {:induction false} TokenizeAtSuffix(acc: seq<Node>, s: string, p: nat, stop: Stop)
    requires p < |s| && IsTrigger(s[p], stop)
    ensures var r := TokenizeAt(acc, s, p, stop); r.Ok? ==> SuffixRest(r.value, s)
    decreases |s|, 0, 2
  {
    var acc1 := if p > 0 then Merged(acc, Text(s[..p])) else acc;
    var trig := TriggerAt(s, p, stop);
    var after := s[p + |trig.token|..];
    TriggerSuffix(s, p, stop, trig, after);
    if trig.StopAt? {
      StopStep(acc, s, p, stop, acc1, trig, after);
    } else {
      StartStep(acc, s, p, stop, acc1, trig, after);
      StartFromSuffix(acc1, trig.kind, trig.token, after, stop, |s|, s);
    }
  }

  /** After a start token, the run hands back a suffix of any `s` that ends with the
      token and the input after it. */
  lemma {:induction false} StartFromSuffix(acc: seq<Node>, kind: StartKind, tok: string, after: string, stop: Stop, bound: nat, s: string)
    requires |tok| >= 1 && (kind == LinkStart ==> tok == "[[")
    requires kind == BracketRunStart ==> forall i :: 0 <= i < |tok| ==> tok[i] == '['
    requires |tok| + |after| <= bound && IsSuffix(tok + after, s)
    ensures var r := StartFrom(acc, kind, tok, after, stop, bound); r.Ok? ==> SuffixRest(r.value, s)
    decreases bound, 0, 1
  {
    StartFromDispatch(acc, kind, tok, after, stop, bound);
    DispatchSuffix(kind, tok, after);
    var h := Dispatch(kind, tok, after);
    if h.Ok? && IsSuffix(h.value.rest, tok + after) {
      SuffixTransitive(h.value.rest, tok + after, s);
    }
    ResumeSuffix(acc, h, stop, bound, s);
  }

  /** The token found at `p` and the input after it make up a suffix of `s`. */
  lemma TriggerSuffix(s: string, p: nat, stop: Stop, trig: Trigger, after: string)
    requires p < |s| && IsTrigger(s[p], stop) && trig == TriggerAt(s, p, stop)
    requires p + |trig.token| <= |s| && after == s[p + |trig.token|..]
    ensures IsSuffix(trig.token + after, s) && IsSuffix(after, s)
    ensures trig.token == "]<" ==> IsSuffix("<" + after, s)
  {
    TriggerAtMatches(s, p, stop);
    TokenThenSuffix(s, p, trig.token, after);
  }

  /** The token at `p` and the input after it make up a suffix of `s`, and so does the
      input after it; after `]<`, so does the input after the `]`. */
  lemma TokenThenSuffix(s: string, p: nat, tok: string, after: string)
    requires p + |tok| <= |s| && s[..p + |tok|] == s[..p] + tok && after == s[p + |tok|..]
    ensures IsSuffix(tok + after, s) && IsSuffix(after, s)
    ensures tok == "]<" ==> IsSuffix("<" + after, s)
  {
    SuffixDrop(s, p + |tok|);
    TokenThenRest(s, s[..p], tok, after);
    if tok == "]<" {
      TokenThenRest(s, s[..p] + "]", "<", after);
    }
  }

  /** `s` starts with `a + tok` and goes on with `after`: `tok + after` is a suffix. */
  lemma TokenThenRest(s: string, a: string, tok: string, after: string)
    requires |a| + |tok| <= |s| && s[..|a| + |tok|] == a + tok && after == s[|a| + |tok|..]
    ensures IsSuffix(tok + after, s)
  {
    calc {
      s;
      s[..|a| + |tok|] + s[|a| + |tok|..];
      (a + tok) + after;
      a + (tok + after);
    }
    assert s[..|a|] == a;
  }

  /** A run resumed after a handler whose remainder is a suffix of `s`, or is at most one
      character long, hands back a suffix of `s`. */
  lemma {:induction false} ResumeSuffix(acc: seq<Node>, h: Result<Handled>, stop: Stop, bound: nat, s: string)
    requires h.Ok? ==> |h.value.rest| < bound && (IsSuffix(h.value.rest, s) || |h.value.rest| <= 1)
    ensures var r := Resume(acc, h, stop, bound); r.Ok? ==> SuffixRest(r.value, s)
    decreases bound, 0, 0
  {
    if h.Ok? {
      var u := h.value.rest;
      TokenizeFromSuffix(MergedAll(acc, h.value.nodes), u, stop);
      var r := TokenizeFrom(MergedAll(acc, h.value.nodes), u, stop);
      if r.Ok? {
        RestWithin(r.value, u, s, stop);
      }
    }
  }

  /** A run's suffix of `u` is a suffix of `s` when `u` is one, and also when `u` is at
      most one character long, since the run then leaves nothing. */
  lemma RestWithin(x: Tokenized, u: string, s: string, stop: Stop)
    requires SuffixRest(x, u) && (IsSuffix(u, s) || |u| <= 1)
    requires x.stop.None? ==> x.rest == []
    requires x.stop.Some? ==> IsStopToken(stop, x.stop.value) && |x.stop.value| + |x.rest| <= |u|
    ensures SuffixRest(x, s)
  {
    if IsSuffix(u, s) {
      SuffixTransitive(x.rest, u, s);
      if x.stop == Some("]<") {
        SuffixTransitive("<" + x.rest, u, s);
      }
    } else {
      assert x.rest == [] && x.stop != Some("]<");
      assert s[..|s|] + [] == s;
    }
  }

  /** A handler leaves a suffix of its start token and the input after it; only the
      verbatim handler may instead leave a single character from inside it. */
  lemma {:induction false} DispatchSuffix(kind: StartKind, tok: string, t: string)
    requires |tok| >= 1 && (kind == LinkStart ==> tok == "[[")
    requires kind == BracketRunStart ==> forall i :: 0 <= i < |tok| ==> tok[i] == '['
    ensures var r := Dispatch(kind, tok, t);
      r.Ok? ==> IsSuffix(r.value.rest, tok + t) || (kind == VerbatimStart && |r.value.rest| <= 1)
    decreases |tok| + |t| - 1, 3, 0
  {
    match kind
    case LinkStart =>
      ParseLinkSuffix(t);
      assert "[" + ("[" + t) == tok + t;
      RestAfter(ParseLink(t), "[" + t, "[");
    case HookStart =>
      ParseHookSuffix("[", t);
      RestAfter(ParseHook("[", t), t, tok);
    case BarStart =>
      ParseHookSuffix("|", t);
      RestAfter(ParseHook("|", t), t, tok);
    case MacroStart =>
      ParseMacroSuffix(t);
      RestAfter(ParseMacro(t), t, tok);
    case SigilStart =>
      VariableSuffix(t);
      RestAfter(Ok(ParseVariable(t)), t, tok);
    case VerbatimStart =>
      VerbatimSuffix(t, tok);
    case BracketRunStart =>
      NestedBracketsSuffix(|tok|, [], t);
      RestAfter(NestedBrackets(|tok|, [], t), t, tok);
  }

  /** A handler's suffix of `t` is a suffix of `u + t`. */
  lemma RestAfter(h: Result<Handled>, t: string, u: string)
    requires h.Ok? ==> IsSuffix(h.value.rest, t)
    ensures h.Ok? ==> IsSuffix(h.value.rest, u + t)
  {
    if h.Ok? {
      SuffixCons(h.value.rest, t, u);
    }
  }

  /** _parse_variable leaves a suffix of its input. */
  lemma VariableSuffix(t: string)
    ensures IsSuffix(ParseVariable(t).rest, t)
  {
    var v := ParseVariable(t);
    if v.nodes[0].Variable? {
      SuffixDrop(t, |v.nodes[0].name|);
      assert t[|v.nodes[0].name|..] == v.rest;
    } else {
      SuffixDrop(t, 0);
    }
  }

  /** The verbatim handler leaves its input when there is no closing backtick, and
      otherwise at most one character. */
  lemma VerbatimSuffix(t: string, tok: string)
    ensures var r := Verbatim(t); r.Ok? ==> IsSuffix(r.value.rest, tok + t) || |r.value.rest| <= 1
  {
    var r := Verbatim(t);
    if r.Ok? && VerbatimEnd(t).None? {
      SuffixDrop(t, 0);
      SuffixCons(r.value.rest, t, tok);
    }
  }

  /** _parse_hook leaves a suffix of its input. */
  lemma {:induction false} ParseHookSuffix(m: string, t: string)
    requires m == "[" || m == "|"
    ensures var r := ParseHook(m, t); r.Ok? ==> IsSuffix(r.value.rest, t)
    decreases |t|, 1, 0
  {
    if m == "|" {
      match MatchLeftTag(t)
      case None =>
        SuffixDrop(t, 0);
      case Some(n) =>
        LeftTagFits(t, n);
        SuffixDrop(t, n + 2);
        HookBodySuffix(m, Some(t[..n]), t[n + 2..], t);
    } else {
      SuffixDrop(t, 0);
      HookBodySuffix(m, None, t, t);
    }
  }

  /** The hook body leaves a suffix of the handler's input: the opener's input when the
      body does not close, and otherwise what follows the `]`, the `<` or the right tag. */
  lemma {:induction false} HookBodySuffix(m: string, nametag: Option<string>, body: string, t: string)
    requires IsSuffix(body, t)
    ensures var r := HookBody(m, nametag, body, t); r.Ok? ==> IsSuffix(r.value.rest, t)
    decreases |body|, 0, 4
  {
    TokenizeFromSuffix([], body, HookStop);
    var inner := TokenizeFrom([], body, HookStop);
    if inner.Ok? {
      var ir := inner.value.rest;
      if inner.value.stop.None? {
        HookBodyText(m, nametag, body, t);
        SuffixDrop(t, 0);
      } else if inner.value.stop.value == "]<" {
        match MatchRightTag(ir)
        case Some(n) =>
          HookBodyTagged(m, nametag, body, t, n);
          SuffixDrop(ir, n + 1);
          SuffixTransitive(ir[n + 1..], ir, body);
          SuffixTransitive(ir[n + 1..], body, t);
        case None =>
          HookBodyUntagged(m, nametag, body, t);
          SuffixTransitive("<" + ir, body, t);
      } else {
        HookBodyClosed(m, nametag, body, t);
        SuffixTransitive(ir, body, t);
      }
    }
  }

  /** _parse_link leaves the input after `]]`, or, when it falls back to a hook, a suffix
      of the input that starts with the second `[`. */
  lemma {:induction false} ParseLinkSuffix(t: string)
    ensures var r := ParseLink(t); r.Ok? ==> IsSuffix(r.value.rest, "[" + t)
    decreases |t| + 1, 2, 0
  {
    match MatchLink(t)
    case None =>
      ParseHookSuffix("[", "[" + t);
    case Some((shape, len)) =>
      SuffixDrop(t, len);
      SuffixCons(t[len..], t, "[");
  }

  /** _parse_macro leaves a suffix of its input. */
  lemma {:induction false} ParseMacroSuffix(t: string)
    ensures var r := ParseMacro(t); r.Ok? ==> IsSuffix(r.value.rest, t)
    decreases |t|, 1, 1
  {
    var m := MatchMacroName(t);
    if m.None? {
      SuffixDrop(t, 0);
    } else {
      NamedMacroSuffix(t, m.value.0, m.value.1);
    }
  }

  lemma {:induction false} NamedMacroSuffix(t: string, token: NameToken, len: nat)
    requires MatchMacroName(t) == Some((token, len))
    ensures var r := ParseMacro(t); r.Ok? ==> IsSuffix(r.value.rest, t)
    decreases |t|, 1, 0
  {
    var name := ParseMacroAt(t, token, len);
    if name.None? {
      SuffixDrop(t, 0);
    } else {
      SuffixDrop(t, len);
      MacroCallSuffix(name.value, t[len..]);
      var r := MacroCall(name.value, t[len..]);
      if r.Ok? { SuffixTransitive(r.value.rest, t[len..], t); }
    }
  }

  /** A macro name and colon of length `len`: the macro is either the `(` as text or the
      call with the code after the colon. */
  lemma ParseMacroAt(t: string, token: NameToken, len: nat) returns (name: Option<MacroName>)
    requires MatchMacroName(t) == Some((token, len))
    ensures len <= |t|
    ensures ParseMacro(t) == if name.None? then Ok(Handled([Text("(")], t)) else MacroCall(name.value, t[len..])
  {
    name :=
      match token
      case PlainName(n) => Some(Named(n))
      case VariableName(v) =>
        var pv := ParseVariable(v);
        if pv.rest != [] then None
        else
          match pv.nodes[0]
          case Variable(x) => Some(Var(x))
          case _ => None;
  }

  /** The macro code and a hook bound to it leave a suffix of the code's input. */
  lemma {:induction false} MacroCallSuffix(name: MacroName, code: string)
    ensures var r := MacroCall(name, code); r.Ok? ==> IsSuffix(r.value.rest, code)
    decreases |code|, 1, 0
  {
    TokenizeFromSuffix([], code, MacroStop);
    var inner := TokenizeFrom([], code, MacroStop);
    if inner.Ok? {
      var s1 := inner.value.rest;
      if s1 != [] && s1[0] == '[' {
        ParseHookSuffix("[", s1[1..]);
        SuffixDrop(s1, 1);
        var h := ParseHook("[", s1[1..]);
        if h.Ok? {
          SuffixTransitive(h.value.rest, s1[1..], s1);
          SuffixTransitive(h.value.rest, s1, code);
        }
      }
    }
  }

  /** _parse_nested_brackets leaves a suffix of its input. */
  lemma {:induction false} NestedBracketsSuffix(n: nat, nested: seq<Node>, t: string)
    ensures var r := NestedBrackets(n, nested, t); r.Ok? ==> IsSuffix(r.value.rest, t)
    decreases |t|, 2, n, 1
  {
    if n == 0 {
      SuffixDrop(t, 0);
    } else {
      var ok, nested', r1 := NestedSuffixStep(n, nested, t);
      if ok {
        NestedBracketsSuffix(n - 1, nested', r1);
        RestThrough(NestedBrackets(n - 1, nested', r1), r1, t);
      }
    }
  }

  /** The first bracket of a run of `n`: either the run fails there, or the rest of the
      run goes on from a suffix `r1` of the input. */
  lemma {:induction false} NestedSuffixStep(n: nat, nested: seq<Node>, t: string)
      returns (ok: bool, nested': seq<Node>, r1: string)
    requires n > 0
    ensures !ok ==> NestedBrackets(n, nested, t).Fail?
    ensures ok ==> NestedBrackets(n, nested, t) == NestedBrackets(n - 1, nested', r1) && IsSuffix(r1, t)
    decreases |t|, 2, n, 0
  {
    ParseHookSuffix("[", t);
    var h := ParseHook("[", t);
    ok := h.Ok? && h.value.nodes[0].Hook?;
    if ok {
      var hook := h.value.nodes[0];
      r1 := h.value.rest;
      nested' := [Hook(nested + hook.contents, hook.nametag, hook.tagOnRight)];
    } else {
      nested', r1 := [], [];
    }
  }

  /** A handler's suffix of a suffix of `t` is a suffix of `t`. */
  lemma RestThrough(h: Result<Handled>, u: string, t: string)
    requires (h.Ok? ==> IsSuffix(h.value.rest, u)) && IsSuffix(u, t)
    ensures h.Ok? ==> IsSuffix(h.value.rest, t)
  {
    if h.Ok? {
      SuffixTransitive(h.value.rest, u, t);
    }
  }
}
