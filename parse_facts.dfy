module ParseFacts {
  import opened Base
  import opened Scanners
  import opened Nodes
  import opened Tokenizer

  /** No character of `x` starts a token or matches the stop pattern. */
  predicate Untriggered(x: string, stop: Stop) {
    forall i :: 0 <= i < |x| ==> !IsTrigger(x[i], stop)
  }

  /** The scan stops at the first trigger character, or finds none. */
  lemma {:induction false} FindTriggerFirst(s: string, k: nat, stop: Stop)
    requires k <= |s| && Untriggered(s[..k], stop) && (k == |s| || IsTrigger(s[k], stop))
    ensures FindTrigger(s, stop) == if k < |s| then Some(k) else None
  {
    if k > 0 {
      assert !IsTrigger(s[0], stop) by { assert s[..k][0] == s[0]; }
      assert s[1..][..k - 1] == s[..k][1..];
      FindTriggerFirst(s[1..], k - 1, stop);
    } else if k < |s| {
    }
  }

  /** Text that holds no token is one string. */
  lemma PlainText(acc: seq<Node>, x: string, stop: Stop)
    requires x != [] && Untriggered(x, stop)
    ensures TokenizeFrom(acc, x, stop) == Ok(Tokenized(Merged(acc, Text(x)), None, []))
  {
    assert x[..|x|] == x;
    FindTriggerFirst(x, |x|, stop);
  }

  /** Text that holds no token, then the stop token. */
  lemma TextThenStop(acc: seq<Node>, x: string, tok: string, rest: string, stop: Stop)
    requires Untriggered(x, stop)
    requires (stop == MacroStop && tok == ")") || (stop == HookStop && tok == "]<")
      || (stop == HookStop && tok == "]" && (rest == [] || rest[0] != '<'))
    ensures TokenizeFrom(acc, x + tok + rest, stop)
      == Ok(Tokenized(if x == [] then acc else Merged(acc, Text(x)), Some(tok), rest))
  {
    var s := x + tok + rest;
    var p := |x|;
    assert s[..p] == x && s[p] == tok[0];
    FindTriggerFirst(s, p, stop);
    var trig := TriggerAt(s, p, stop);
    assert trig == StopAt(tok);
    var after := s[p + |tok|..];
    assert after == rest;
    var acc1 := if p > 0 then Merged(acc, Text(s[..p])) else acc;
    StopStep(acc, s, p, stop, acc1, trig, after);
  }

  /** A start token at the head of the input whose handler reads everything after it. */
  lemma StartsWhole(tok: string, after: string, kind: StartKind, nodes: seq<Node>)
    requires tok != [] && IsTrigger(tok[0], NoStop) && TriggerAt(tok + after, 0, NoStop) == Start(kind, tok)
    requires Dispatch(kind, tok, after) == Ok(Handled(nodes, []))
    ensures TokenizeFrom([], tok + after, NoStop) == Ok(Tokenized(MergedAll([], nodes), None, []))
  {
    var s := tok + after;
    assert s[..0] == [] && s[0] == tok[0];
    FindTriggerFirst(s, 0, NoStop);
    assert s[|tok|..] == after;
    StartStep([], s, 0, NoStop, [], Start(kind, tok), after);
    StartFromDispatch([], kind, tok, after, NoStop, |s|);
    ResumeOk([], Ok(Handled(nodes, [])), MergedAll([], nodes), NoStop, |s|);
  }

  /** A property name after `$` is read whole. */
  lemma ParseVariableWhole(v: string)
    requires (forall i :: 0 <= i < |v| ==> IsWordChar(v[i])) && HasLetter(v)
    ensures ParseVariable(v) == Handled([Variable(v)], [])
  {
    RunLengthExact(v, |v|, IsWordChar);
    assert v[..|v|] == v;
  }

  /** A sigil, an opening parenthesis or a bar at the start of the text is a start token of
      one character. */
  lemma CharTrigger(c: char, kind: StartKind, after: string)
    requires (c == '$' && kind == SigilStart) || (c == '(' && kind == MacroStart) || (c == '|' && kind == BarStart)
    ensures TriggerAt([c] + after, 0, NoStop) == Start(kind, [c])
  {
    assert ([c] + after)[0] == c;
  }

  /** A one-character start token whose handler reads the rest of the text as one node gives
      that node alone. */
  lemma CharWhole(c: char, kind: StartKind, after: string, m: Node)
    requires (c == '$' && kind == SigilStart) || (c == '(' && kind == MacroStart) || (c == '|' && kind == BarStart)
    requires Dispatch(kind, [c], after) == Ok(Handled([m], []))
    ensures TokenizeFrom([], [c] + after, NoStop) == Ok(Tokenized([m], None, []))
  {
    CharTrigger(c, kind, after);
    StartsWhole([c], after, kind, [m]);
    assert MergedAll([], [m]) == [m];
  }

  /** `$` whose handler reads the rest of the text as one node gives that node alone. */
  lemma SigilWhole(after: string, m: Node)
    requires ParseVariable(after) == Handled([m], [])
    ensures TokenizeFrom([], "$" + after, NoStop) == Ok(Tokenized([m], None, []))
  {
    assert Dispatch(SigilStart, "$", after) == Ok(ParseVariable(after));
    CharWhole('$', SigilStart, after, m);
  }

  /** `(` whose handler reads the rest of the text as one node gives that node alone. */
  lemma MacroWhole(after: string, m: Node)
    requires ParseMacro(after) == Ok(Handled([m], []))
    ensures TokenizeFrom([], "(" + after, NoStop) == Ok(Tokenized([m], None, []))
  {
    assert Dispatch(MacroStart, "(", after) == ParseMacro(after);
    CharWhole('(', MacroStart, after, m);
  }

  /** `$name`, for a name of word characters with a letter among them (underscores
      included), is one variable. */
  lemma VariableAlone(v: string)
    requires (forall i :: 0 <= i < |v| ==> IsWordChar(v[i])) && HasLetter(v)
    ensures TokenizeFrom([], "$" + v, NoStop) == Ok(Tokenized([Variable(v)], None, []))
  {
    ParseVariableWhole(v);
    SigilWhole(v, Variable(v));
  }

  /** `(name:)` is a macro with that name as written, its canonical form, and no code. */
  lemma MacroAlone(n: string)
    requires n != [] && IsMacroNameStart(n[0]) && forall i :: 1 <= i < |n| ==> IsTagChar(n[i])
    ensures TokenizeFrom([], "(" + (n + ":)"), NoStop)
      == Ok(Tokenized([Macro(Named(n), Named(CanonicalName(n)), [])], None, []))
  {
    ParseMacroAlone(n, n + ":)");
    MacroWhole(n + ":)", NewMacro(Named(n), []));
  }

  lemma ParseMacroAlone(n: string, t: string)
    requires n != [] && IsMacroNameStart(n[0]) && forall i :: 1 <= i < |n| ==> IsTagChar(n[i])
    requires t == n + ":)"
    ensures ParseMacro(t) == Ok(Handled([NewMacro(Named(n), [])], []))
  {
    MatchPlainName(n, ":)");
    assert t[|n| + 1..] == ")" by { assert ":)"[1..] == ")"; }
    assert TokenizeFrom([], ")", MacroStop) == Ok(Tokenized([], Some(")"), [])) by {
      TextThenStop([], [], ")", [], MacroStop);
      assert [] + ")" + [] == ")";
    }
    ParsePlainMacro(t, n, |n| + 1, ")", []);
  }

  /** A macro name followed by `rest`, which starts with a colon. */
  lemma MatchPlainName(n: string, rest: string)
    requires n != [] && IsMacroNameStart(n[0]) && forall i :: 1 <= i < |n| ==> IsTagChar(n[i])
    requires rest != [] && rest[0] == ':'
    ensures MatchMacroName(n + rest) == Some((PlainName(n), |n| + 1))
    ensures (n + rest)[|n| + 1..] == rest[1..]
  {
    var t := n + rest;
    PlainNameOf(n, rest);
    assert t[..|n|] == n;
  }

  /** A macro with a plain name whose code runs to a `)` that ends the input. */
  lemma ParsePlainMacro(t: string, n: string, len: nat, code: string, tokens: seq<Node>)
    requires MatchMacroName(t) == Some((PlainName(n), len)) && code == t[len..]
    requires TokenizeFrom([], code, MacroStop) == Ok(Tokenized(tokens, Some(")"), []))
    ensures ParseMacro(t) == Ok(Handled([NewMacro(Named(n), tokens)], []))
  {
  }

  /** A macro name followed by a colon. */
  lemma PlainNameOf(n: string, rest: string)
    requires n != [] && IsMacroNameStart(n[0]) && forall i :: 1 <= i < |n| ==> IsTagChar(n[i])
    requires rest != [] && rest[0] == ':'
    ensures PlainNameLength(n + rest) == Some(|n|)
  {
    var t := n + rest;
    var u := t[1..];
    assert forall i :: 0 <= i < |n| - 1 ==> u[i] == n[i + 1];
    assert u[|n| - 1] == ':';
    RunLengthExact(u, |n| - 1, IsTagChar);
  }

  /** `(` not followed by a macro name and a colon is plain text, and nothing after it is
      consumed. */
  lemma MacroWithoutName(t: string)
    requires MatchMacroName(t).None?
    ensures ParseMacro(t) == Ok(Handled([Text("(")], t))
  {
  }

  /** `[[` whose contents are not closed by `]]` is read again as a hook opened by its
      second bracket. */
  lemma LinkFallsBackToHook(t: string)
    requires MatchLink(t).None?
    ensures ParseLink(t) == ParseHook("[", "[" + t)
  {
  }

  /** `[[]]` is a link with empty text and an empty passage name, passage on the left. */
  lemma EmptyLink(rest: string)
    ensures ParseLink("]]" + rest) == Ok(Handled([Link([], Name([]), false)], rest))
  {
    var t := "]]" + rest;
    assert t[0] == ']' && t[1] == ']';
    RunLengthExact(t, 0, IsNotCloseBracket);
    assert t[..0] == [];
    assert SplitLink([]) == Plain([]);
    assert MatchLink(t) == Some((Plain([]), 2));
    assert t[2..] == rest;
  }

  /** `[` before a character other than `[` opens a hook. */
  lemma HookOpener(u: string, stop: Stop)
    requires u != [] && u[0] != '['
    ensures TriggerAt("[" + u, 0, stop) == Start(HookStart, "[")
  {
    var s := "[" + u;
    assert s[0] == '[' && s[1] == u[0];
    assert OpenBracketsFrom(s, 1) == 0;
  }

  /** `[[` before a character other than `[` opens a link, wherever the run is. */
  lemma LinkOpener(u: string, stop: Stop)
    requires u != [] && u[0] != '['
    ensures TriggerAt("[[" + u, 0, stop) == Start(LinkStart, "[[")
  {
    var s := "[[" + u;
    assert s[0] == '[' && s[1] == '[' && s[2] == u[0];
    assert OpenBracketsFrom(s, 2) == 0;
    assert OpenBracketsFrom(s, 1) == 1;
    assert BracketTrigger(s, 0) == Start(LinkStart, "[[");
  }

  /** A start token at the head of the input: the run goes on after its handler. */
  lemma StartsThen(tok: string, after: string, kind: StartKind, nodes: seq<Node>, rest: string, stop: Stop)
    requires tok != [] && IsTrigger(tok[0], stop) && TriggerAt(tok + after, 0, stop) == Start(kind, tok)
    requires Dispatch(kind, tok, after) == Ok(Handled(nodes, rest))
    ensures TokenizeFrom([], tok + after, stop) == TokenizeFrom(MergedAll([], nodes), rest, stop)
  {
    StartsThenAfter([], tok, after, kind, nodes, rest, stop);
  }

  /** The same, after the tokens `acc`: the handler's nodes are appended to them. */
  lemma StartsThenAfter(acc: seq<Node>, tok: string, after: string, kind: StartKind, nodes: seq<Node>,
                        rest: string, stop: Stop)
    requires tok != [] && IsTrigger(tok[0], stop) && TriggerAt(tok + after, 0, stop) == Start(kind, tok)
    requires Dispatch(kind, tok, after) == Ok(Handled(nodes, rest))
    ensures TokenizeFrom(acc, tok + after, stop) == TokenizeFrom(MergedAll(acc, nodes), rest, stop)
  {
    var s := tok + after;
    assert s[..0] == [] && s[0] == tok[0];
    FindTriggerFirst(s, 0, stop);
    assert s[|tok|..] == after;
    StartStep(acc, s, 0, stop, acc, Start(kind, tok), after);
    StartFromDispatch(acc, kind, tok, after, stop, |s|);
    ResumeOk(acc, Ok(Handled(nodes, rest)), MergedAll(acc, nodes), stop, |s|);
  }

  // ---------------------------------------------------------------------------------------
  // A start token its handler declines (harlowe.py:455-461, 464-482, 537-543, 636-641)

  /** Appending one item is a merge. */
  lemma MergedAllOne(acc: seq<Node>, item: Node)
    ensures MergedAll(acc, [item]) == Merged(acc, item)
  {
    assert [item][..0] == [];
  }

  /** A start character whose handler gives it back as text: the character is appended as
      text, and the scan resumes right after it. */
  lemma DeclinedChar(acc: seq<Node>, c: char, kind: StartKind, t: string, stop: Stop)
    requires (c == '$' && kind == SigilStart) || (c == '(' && kind == MacroStart) || (c == '|' && kind == BarStart)
    requires Dispatch(kind, [c], t) == Ok(Handled([Text([c])], t))
    ensures TokenizeFrom(acc, [c] + t, stop) == TokenizeFrom(Merged(acc, Text([c])), t, stop)
  {
    assert ([c] + t)[0] == c;
    StartsThenAfter(acc, [c], t, kind, [Text([c])], t, stop);
    MergedAllOne(acc, Text([c]));
  }

  /** `$` not followed by a property name is text, and the scan goes on after the `$`. */
  lemma SigilDeclined(acc: seq<Node>, t: string, stop: Stop)
    requires PropertyNameLength(t).None?
    ensures TokenizeFrom(acc, "$" + t, stop) == TokenizeFrom(Merged(acc, Text("$")), t, stop)
  {
    DeclinedChar(acc, '$', SigilStart, t, stop);
  }

  /** `(` not followed by a macro name and a colon is text, and the scan goes on after the
      `(`. */
  lemma MacroDeclined(acc: seq<Node>, t: string, stop: Stop)
    requires MatchMacroName(t).None?
    ensures TokenizeFrom(acc, "(" + t, stop) == TokenizeFrom(Merged(acc, Text("(")), t, stop)
  {
    MacroWithoutName(t);
    DeclinedChar(acc, '(', MacroStart, t, stop);
  }

  /** A bar not followed by a tag and `>[` is text, and the scan goes on after the bar. */
  lemma BarDeclined(acc: seq<Node>, t: string, stop: Stop)
    requires MatchLeftTag(t).None?
    ensures TokenizeFrom(acc, "|" + t, stop) == TokenizeFrom(Merged(acc, Text("|")), t, stop)
  {
    DeclinedChar(acc, '|', BarStart, t, stop);
  }

  /** `[` whose body never reaches a `]` is text, and the scan goes on after the `[`. */
  lemma HookUnclosed(acc: seq<Node>, t: string, stop: Stop)
    requires t == [] || t[0] != '['
    requires var inner := TokenizeFrom([], t, HookStop); inner.Ok? && inner.value.stop.None?
    ensures TokenizeFrom(acc, "[" + t, stop) == TokenizeFrom(Merged(acc, Text("[")), t, stop)
  {
    var s := "[" + t;
    assert s[0] == '[' && (t != [] ==> s[1] == t[0]);
    assert OpenBracketsFrom(s, 1) == 0;
    assert TriggerAt(s, 0, stop) == Start(HookStart, "[");
    HookBodyText("[", None, t, t);
    StartsThenAfter(acc, "[", t, HookStart, [Text("[")], t, stop);
    MergedAllOne(acc, Text("["));
  }

  /** A hook body closed by `]` alone gives an unnamed hook. */
  lemma ClosedHook(body: string, tokens: seq<Node>, tail: string)
    requires TokenizeFrom([], body, HookStop) == Ok(Tokenized(tokens, Some("]"), tail))
    ensures ParseHook("[", body) == Ok(Handled([Hook(tokens, None, false)], tail))
  {
    HookBodyClosed("[", None, body, body);
  }

  /** `[x]` with plain `x`, before anything but `<`, is a hook holding `x`. */
  lemma PlainHook(x: string, tail: string)
    requires x != [] && Untriggered(x, HookStop) && (tail == [] || tail[0] != '<')
    ensures ParseHook("[", x + "]" + tail) == Ok(Handled([Hook([Text(x)], None, false)], tail))
  {
    TextThenStop([], x, "]", tail, HookStop);
    assert Merged([], Text(x)) == [Text(x)];
    ClosedHook(x + "]" + tail, [Text(x)], tail);
  }

  /** The body of the outer hook in `[[x]y]`: the inner hook, then `y`, then `]`. */
  lemma NestedBody(x: string, y: string)
    requires x != [] && y != [] && Untriggered(x, HookStop) && Untriggered(y, HookStop) && y[0] != '<'
    ensures TokenizeFrom([], "[" + (x + "]" + (y + "]")), HookStop)
      == Ok(Tokenized([Hook([Text(x)], None, false), Text(y)], Some("]"), []))
  {
    var inner := Hook([Text(x)], None, false);
    var t := x + "]" + (y + "]");
    assert x[0] != '[' by { assert !IsTrigger(x[0], HookStop); }
    assert t[0] == x[0];
    HookOpener(t, HookStop);
    PlainHook(x, y + "]");
    StartsThen("[", t, HookStart, [inner], y + "]", HookStop);
    assert MergedAll([], [inner]) == [inner];
    TextThenStop([inner], y, "]", [], HookStop);
    assert y + "]" + [] == y + "]";
    assert Merged([inner], Text(y)) == [inner, Text(y)];
  }

  /** `x]y]` with plain `x` and `y` is not the contents of a link: a single `]` ends `x`. */
  lemma NestedNotLink(x: string, y: string)
    requires Untriggered(x, HookStop) && y != [] && Untriggered(y, HookStop)
    ensures MatchLink(x + "]" + (y + "]")).None?
  {
    var t := x + "]" + (y + "]");
    assert forall i :: 0 <= i < |x| ==> t[i] == x[i] && !IsTrigger(x[i], HookStop);
    assert t[|x|] == ']' && t[|x| + 1] == y[0];
    assert !IsTrigger(y[0], HookStop);
    RunLengthExact(t, |x|, IsNotCloseBracket);
  }

  /** `[[x]y]`, with `x` and `y` free of tokens and `y` not starting with `<`, is no link:
      it is a hook whose contents are the hook `[x]` and the text `y`. */
  lemma NestedFallback(x: string, y: string)
    requires x != [] && y != [] && Untriggered(x, HookStop) && Untriggered(y, HookStop) && y[0] != '<'
    ensures TokenizeFrom([], "[[" + (x + "]" + (y + "]")), NoStop)
      == Ok(Tokenized([Hook([Hook([Text(x)], None, false), Text(y)], None, false)], None, []))
  {
    var t := x + "]" + (y + "]");
    var outer := Hook([Hook([Text(x)], None, false), Text(y)], None, false);
    assert ParseLink(t) == Ok(Handled([outer], [])) by {
      NestedNotLink(x, y);
      LinkFallsBackToHook(t);
      NestedBody(x, y);
      ClosedHook("[" + t, [Hook([Text(x)], None, false), Text(y)], []);
    }
    assert x[0] != '[' by { assert !IsTrigger(x[0], HookStop); }
    assert t[0] == x[0];
    LinkOpener(t, NoStop);
    StartsWhole("[[", t, LinkStart, [outer]);
    assert MergedAll([], [outer]) == [outer];
  }

  /** `[` whose handler reads the rest of the text as one node gives that node alone. */
  lemma HookWhole(after: string, m: Node)
    requires after != [] && after[0] != '['
    requires ParseHook("[", after) == Ok(Handled([m], []))
    ensures TokenizeFrom([], "[" + after, NoStop) == Ok(Tokenized([m], None, []))
  {
    HookOpener(after, NoStop);
    StartsWhole("[", after, HookStart, [m]);
    assert MergedAll([], [m]) == [m];
  }

  /** `|` whose handler reads the rest of the text as one node gives that node alone. */
  lemma BarWhole(after: string, m: Node)
    requires ParseHook("|", after) == Ok(Handled([m], []))
    ensures TokenizeFrom([], "|" + after, NoStop) == Ok(Tokenized([m], None, []))
  {
    assert Dispatch(BarStart, "|", after) == ParseHook("|", after);
    CharWhole('|', BarStart, after, m);
  }

  /** `[x]`, with `x` free of tokens, is an anonymous hook holding `x`. */
  lemma AnonymousHook(x: string)
    requires x != [] && Untriggered(x, HookStop)
    ensures TokenizeFrom([], "[" + (x + "]"), NoStop) == Ok(Tokenized([Hook([Text(x)], None, false)], None, []))
  {
    PlainHook(x, []);
    assert x + "]" + [] == x + "]";
    assert x[0] != '[' by { assert !IsTrigger(x[0], HookStop); }
    assert (x + "]")[0] == x[0];
    HookWhole(x + "]", Hook([Text(x)], None, false));
  }

  /** A run of tag characters ends at the first character that is not one. */
  lemma TagRun(tag: string, rest: string)
    requires (forall i :: 0 <= i < |tag| ==> IsTagChar(tag[i])) && rest != [] && !IsTagChar(rest[0])
    ensures RunLength(tag + rest, IsTagChar) == |tag|
  {
    var t := tag + rest;
    assert forall i :: 0 <= i < |tag| ==> t[i] == tag[i];
    assert t[|tag|] == rest[0];
    RunLengthExact(t, |tag|, IsTagChar);
  }

  /** `[x]<tag|` is a hook holding `x`, named `tag` on the right. */
  lemma RightTagHook(x: string, tag: string)
    requires x != [] && Untriggered(x, HookStop) && forall i :: 0 <= i < |tag| ==> IsTagChar(tag[i])
    ensures TokenizeFrom([], "[" + (x + "]<" + (tag + "|")), NoStop)
      == Ok(Tokenized([Hook([Text(x)], Some(tag), true)], None, []))
  {
    var tail := tag + "|";
    var body := x + "]<" + tail;
    TextThenStop([], x, "]<", tail, HookStop);
    assert Merged([], Text(x)) == [Text(x)];
    TagRun(tag, "|");
    assert tail[|tag|] == '|';
    HookBodyTagged("[", None, body, body, |tag|);
    assert tail[..|tag|] == tag && tail[|tag| + 1..] == [];
    assert x[0] != '[' by { assert !IsTrigger(x[0], HookStop); }
    assert body[0] == x[0];
    HookWhole(body, Hook([Text(x)], Some(tag), true));
  }

  /** `|tag>[x]` is a hook holding `x`, named `tag` on the left. */
  lemma LeftTagHook(tag: string, x: string)
    requires x != [] && Untriggered(x, HookStop) && forall i :: 0 <= i < |tag| ==> IsTagChar(tag[i])
    ensures TokenizeFrom([], "|" + (tag + ">[" + (x + "]")), NoStop)
      == Ok(Tokenized([Hook([Text(x)], Some(tag), false)], None, []))
  {
    var t := tag + ">[" + (x + "]");
    TagRun(tag, ">[" + (x + "]"));
    assert t == tag + (">[" + (x + "]"));
    assert t[|tag|] == '>' && t[|tag| + 1] == '[';
    ParseHookLeft(t, |tag|);
    assert t[..|tag|] == tag && t[|tag| + 2..] == x + "]";
    TextThenStop([], x, "]", [], HookStop);
    assert x + "]" + [] == x + "]";
    assert Merged([], Text(x)) == [Text(x)];
    HookBodyClosed("|", Some(tag), x + "]", t);
    BarWhole(t, Hook([Text(x)], Some(tag), false));
  }

  /** `$v:` at the start of macro code, for a property name `v`, is a variable macro name. */
  lemma MatchVariableName(v: string)
    requires (forall i :: 0 <= i < |v| ==> IsWordChar(v[i])) && HasLetter(v)
    ensures MatchMacroName("$" + (v + ":)")) == Some((VariableName(v), |v| + 2))
    ensures ("$" + (v + ":)"))[|v| + 2..] == ")"
  {
    var t := "$" + (v + ":)");
    var u := v + ":)";
    assert t[0] == '$' && !IsMacroNameStart('$');
    assert t[1..] == u;
    assert forall i :: 0 <= i < |v| ==> u[i] == v[i];
    assert u[|v|] == ':' && !IsWordChar(':');
    RunLengthExact(u, |v|, IsWordChar);
    assert u[..|v|] == v;
    assert t[1 + |v|] == ':';
    assert t[1..1 + |v|] == v;
  }

  /** A macro named by a variable whose code runs to a `)` that ends the input. */
  lemma ParseVariableMacro(t: string, v: string, len: nat, code: string, tokens: seq<Node>)
    requires MatchMacroName(t) == Some((VariableName(v), len)) && code == t[len..]
    requires ParseVariable(v) == Handled([Variable(v)], [])
    requires TokenizeFrom([], code, MacroStop) == Ok(Tokenized(tokens, Some(")"), []))
    ensures ParseMacro(t) == Ok(Handled([NewMacro(Var(v), tokens)], []))
  {
  }

  /** `($v:)` is a macro whose name, as written and canonical, is the variable `v`. */
  lemma VariableMacroAlone(v: string)
    requires (forall i :: 0 <= i < |v| ==> IsWordChar(v[i])) && HasLetter(v)
    ensures TokenizeFrom([], "(" + ("$" + (v + ":)")), NoStop)
      == Ok(Tokenized([Macro(Var(v), Var(v), [])], None, []))
  {
    ParseVariableMacroAlone(v, "$" + (v + ":)"));
    MacroWhole("$" + (v + ":)"), NewMacro(Var(v), []));
  }

  /** The handler's view of `($v:)`: after `(`, the whole text is one macro. */
  lemma ParseVariableMacroAlone(v: string, t: string)
    requires (forall i :: 0 <= i < |v| ==> IsWordChar(v[i])) && HasLetter(v)
    requires t == "$" + (v + ":)")
    ensures ParseMacro(t) == Ok(Handled([NewMacro(Var(v), [])], []))
  {
    MatchVariableName(v);
    ParseVariableWhole(v);
    assert TokenizeFrom([], ")", MacroStop) == Ok(Tokenized([], Some(")"), [])) by {
      TextThenStop([], [], ")", [], MacroStop);
      assert [] + ")" + [] == ")";
    }
    ParseVariableMacro(t, v, |v| + 2, ")", []);
  }
}
