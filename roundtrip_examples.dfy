/** The passages of the round-trip tests of test_harlowe.py:251-320: text followed by a
    link, a macro or a hook. For each shape, the tokens tokenize builds and the proof that
    they print back exactly as the escaped contents, so that str(passage) is unchanged by
    parse_contents (harlowe.py:201-220). Each test's words are parameters fixed by the
    precondition. */
module RoundTripExamples {
  import opened Base
  import opened Escaping
  import opened Scanners
  import opened Nodes
  import opened Tokenizer
  import opened ParseFacts
  import opened Shapes
  import opened RoundTripParts
  import opened PrintExamples
  import opened Passages

  // ---------------------------------------------------------------------------------------
  // Pieces

  lemma UntriggeredJoin(a: string, b: string, stop: Stop)
    requires Untriggered(a, stop) && Untriggered(b, stop)
    ensures Untriggered(a + b, stop)
  {
    var s := a + b;
    forall i | 0 <= i < |s| ensures !IsTrigger(s[i], stop) {
      if i < |a| { assert s[i] == a[i]; } else { assert s[i] == b[i - |a|]; }
    }
  }

  /** The end of the text: the run returns what it built. */
  lemma RunEnds(acc: seq<Node>, stop: Stop)
    ensures TokenizeFrom(acc, [], stop) == Ok(Tokenized(acc, None, []))
  {
  }

  /** Tokens that print as the escaped contents leave str(passage) as it was. */
  lemma ParsedStrSame(pid: string, name: string, contents: string, tags: string, position: string, tokens: seq<Node>)
    requires tokens != [] && Print(tokens) == Some(EscapeHtml(contents))
    ensures PassageStr(pid, name, contents, tags, position, Some(tokens))
      == PassageStr(pid, name, contents, tags, position, None)
  {
  }

  /** Escaping text followed by markup with plain delimiters around its contents. */
  lemma EscapeWrapped(x: string, open: string, c: string, close: string)
    requires forall i :: 0 <= i < |open| ==> !IsHtmlSpecial(open[i])
    requires forall i :: 0 <= i < |close| ==> !IsHtmlSpecial(close[i])
    ensures EscapeHtml(x + (open + (c + close))) == EscapeHtml(x) + (open + (EscapeHtml(c) + close))
  {
    EscPlain(open);
    EscPlain(close);
    EscapeHtmlConcat(x, open + (c + close));
    EscapeHtmlConcat(open, c + close);
    EscapeHtmlConcat(c, close);
  }

  /** Text, then one construct opened by a start token that reads to the end of the input:
      the text and that construct's node. */
  lemma TextThenNode(x: string, u: string, kind: StartKind, tok: string, after: string, node: Node)
    requires x != [] && Untriggered(x, NoStop)
    requires u == tok + after && tok != [] && IsTrigger(tok[0], NoStop) && TriggerAt(u, 0, NoStop) == Start(kind, tok)
    requires (kind == LinkStart ==> tok == "[[") && kind != BracketRunStart
    requires Dispatch(kind, tok, after) == Ok(Handled([node], [])) && !node.Text?
    ensures TokenizeFrom([], x + u, NoStop) == Ok(Tokenized([Text(x), node], None, []))
  {
    TextThenStart([], x, u, NoStop, kind, tok, after, [node], []);
    assert MergedAll(Merged([], Text(x)), [node]) == [Text(x), node] by {
      assert Merged([], Text(x)) == [Text(x)];
      assert [node][..0] == [];
    }
  }

  /** Text, then a node printed as its escaped source: the two print as the escaped whole. */
  lemma TextThenNodePrints(x: string, node: Node, open: string, c: string, close: string)
    requires forall i :: 0 <= i < |open| ==> !IsHtmlSpecial(open[i])
    requires forall i :: 0 <= i < |close| ==> !IsHtmlSpecial(close[i])
    requires PrintNode(node) == Some(open + (EscapeHtml(c) + close))
    ensures Print([Text(x), node]) == Some(EscapeHtml(x + (open + (c + close))))
  {
    PrintCons(Text(x), [node]);
    PrintSingle(node);
    assert [Text(x)] + [node] == [Text(x), node];
    EscapeWrapped(x, open, c, close);
  }

  // ---------------------------------------------------------------------------------------
  // Text, then a link with an arrow (test_harlowe.py:251-272)

  /** The link contents `t->p` or `p<-t`. */
  function Arrowed(t: string, p: string, onRight: bool): (c: string)
    ensures |c| == |t| + |p| + 2
  {
    if onRight then t + "->" + p else p + "<-" + t
  }

  /** The arrow link's contents and `]]` parse as one link. */
  lemma ArrowLinkParse(t: string, p: string, onRight: bool)
    requires t != [] && p != [] && Untriggered(t, HookStop) && Untriggered(p, HookStop)
    requires onRight ==> NoPair(p, '-', '>')
    requires !onRight ==> t[0] != '>' && NoPair(p, '<', '-') && NoPair(p, '-', '>') && NoPair(t, '-', '>')
    ensures Arrowed(t, p, onRight)[0] != '['
    ensures ParseLink(Arrowed(t, p, onRight) + "]]") == Ok(Handled([Link([Text(t)], Name([Text(p)]), onRight)], []))
  {
    var c := Arrowed(t, p, onRight);
    if onRight {
      assert Untriggered(c, HookStop) by {
        forall i | 0 <= i < |c| ensures !IsTrigger(c[i], HookStop) {
          if i < |t| { assert c[i] == t[i]; } else if i >= |t| + 2 { assert c[i] == p[i - |t| - 2]; }
        }
      }
      SplitRight(t, p);
      assert c[0] == t[0] && !IsTrigger(t[0], HookStop);
    } else {
      assert Untriggered(c, HookStop) by {
        forall i | 0 <= i < |c| ensures !IsTrigger(c[i], HookStop) {
          if i < |p| { assert c[i] == p[i]; } else if i >= |p| + 2 { assert c[i] == t[i - |p| - 2]; }
        }
      }
      SplitLeft(p, t);
      assert c[0] == p[0] && !IsTrigger(p[0], HookStop);
    }
    ParseArrowLink(c, [], t, p, onRight);
    assert c + "]]" + [] == c + "]]";
  }

  /** An arrow link prints as its escaped contents between `[[` and `]]`. */
  lemma ArrowLinkPrints(t: string, p: string, onRight: bool)
    ensures PrintNode(Link([Text(t)], Name([Text(p)]), onRight)) == Some("[[" + (EscapeHtml(Arrowed(t, p, onRight)) + "]]"))
  {
    LinkOfText(t, p, onRight);
    EscArrow(t, onRight, p);
    var et, ep := EscapeHtml(t), EscapeHtml(p);
    if onRight {
      Assoc("[[", et + "-&gt;" + ep, "]]");
      Assoc4("[[", et, "-&gt;", ep);
    } else {
      Assoc("[[", ep + "&lt;-" + et, "]]");
      Assoc4("[[", ep, "&lt;-", et);
    }
  }

  /** Text, then an arrow link: the two tokens, printed back as the escaped text. */
  lemma TextThenArrowLink(x: string, t: string, p: string, onRight: bool)
    requires x != [] && Untriggered(x, NoStop)
    requires t != [] && p != [] && Untriggered(t, HookStop) && Untriggered(p, HookStop)
    requires onRight ==> NoPair(p, '-', '>')
    requires !onRight ==> t[0] != '>' && NoPair(p, '<', '-') && NoPair(p, '-', '>') && NoPair(t, '-', '>')
    ensures var s := x + ("[[" + (Arrowed(t, p, onRight) + "]]"));
      var tokens := [Text(x), Link([Text(t)], Name([Text(p)]), onRight)];
      TokenizeFrom([], s, NoStop) == Ok(Tokenized(tokens, None, [])) && Print(tokens) == Some(EscapeHtml(s))
  {
    var c := Arrowed(t, p, onRight);
    var link := Link([Text(t)], Name([Text(p)]), onRight);
    assert TokenizeFrom([], x + ("[[" + (c + "]]")), NoStop) == Ok(Tokenized([Text(x), link], None, [])) by {
      ArrowLinkParse(t, p, onRight);
      assert (c + "]]")[0] == c[0];
      LinkOpener(c + "]]", NoStop);
      TextThenNode(x, "[[" + (c + "]]"), LinkStart, "[[", c + "]]", link);
    }
    assert Print([Text(x), link]) == Some(EscapeHtml(x + ("[[" + (c + "]]")))) by {
      ArrowLinkPrints(t, p, onRight);
      TextThenNodePrints(x, link, "[[", c, "]]");
    }
  }

  /** `This has a link: [[link text->this's the passage name]]`. */
  /** The words of the right-arrow test are plain text, and the passage name has no `->`. */
  lemma RightArrowWords(x: string, t: string, a: string, b: string)
    requires x == "This has a link: " && t == "link text" && a == "this" && b == "s the passage name"
    ensures Untriggered(x, NoStop) && Untriggered(t, HookStop)
    ensures Untriggered(a + "'" + b, HookStop) && NoPair(a + "'" + b, '-', '>')
  {
  }

  lemma RightArrowPassage(pid: string, name: string, tags: string, position: string,
                          x: string, t: string, a: string, b: string)
    requires x == "This has a link: " && t == "link text" && a == "this" && b == "s the passage name"
    ensures var contents := x + ("[[" + (t + "->" + (a + "'" + b) + "]]"));
      var tokens := [Text(x), Link([Text(t)], Name([Text(a + "'" + b)]), true)];
      && TokenizeFrom([], contents, NoStop) == Ok(Tokenized(tokens, None, []))
      && PassageStr(pid, name, contents, tags, position, Some(tokens)) == PassageStr(pid, name, contents, tags, position, None)
  {
    var p := a + "'" + b;
    RightArrowWords(x, t, a, b);
    TextThenArrowLink(x, t, p, true);
    ParsedStrSame(pid, name, x + ("[[" + (Arrowed(t, p, true) + "]]")), tags, position,
                  [Text(x), Link([Text(t)], Name([Text(p)]), true)]);
  }

  /** The link's source with its arrow and apostrophe escaped. */
  lemma RightArrowSourceEscaped(t: string, a: string, b: string)
    requires t == "link text" && a == "this" && b == "s the passage name"
    ensures EscapeHtml(t + "->" + (a + "'" + b)) == t + "-&gt;" + (a + "&#39;" + b)
  {
    EscArrow(t, true, a + "'" + b);
    EscPlain(t);
    EscapeApostrophe(a, b);
  }

  /** The same contents as the passage stores them: the arrow and the apostrophe escaped. */
  lemma RightArrowEscaped(x: string, t: string, a: string, b: string)
    requires x == "This has a link: " && t == "link text" && a == "this" && b == "s the passage name"
    ensures EscapeHtml(x + ("[[" + (t + "->" + (a + "'" + b) + "]]"))) == x + ("[[" + (t + "-&gt;" + (a + "&#39;" + b) + "]]"))
  {
    var c := t + "->" + (a + "'" + b);
    assert EscapeHtml(x) == x by { EscPlain(x); }
    assert EscapeHtml(x + ("[[" + (c + "]]"))) == EscapeHtml(x) + ("[[" + (EscapeHtml(c) + "]]")) by {
      EscapeWrapped(x, "[[", c, "]]");
    }
    RightArrowSourceEscaped(t, a, b);
  }

  /** `This has a link: [[passage name<-link text]]`. */
  /** The words of the left-arrow test are plain text without `<-` or `->`. */
  lemma LeftArrowWords(x: string, p: string, t: string)
    requires x == "This has a link: " && p == "passage name" && t == "link text"
    ensures Untriggered(x, NoStop) && Untriggered(t, HookStop) && Untriggered(p, HookStop)
    ensures NoPair(p, '<', '-') && NoPair(p, '-', '>') && NoPair(t, '-', '>')
  {
  }

  lemma LeftArrowPassage(pid: string, name: string, tags: string, position: string,
                         x: string, p: string, t: string)
    requires x == "This has a link: " && p == "passage name" && t == "link text"
    ensures var contents := x + ("[[" + (p + "<-" + t + "]]"));
      var tokens := [Text(x), Link([Text(t)], Name([Text(p)]), false)];
      && TokenizeFrom([], contents, NoStop) == Ok(Tokenized(tokens, None, []))
      && PassageStr(pid, name, contents, tags, position, Some(tokens)) == PassageStr(pid, name, contents, tags, position, None)
  {
    LeftArrowWords(x, p, t);
    TextThenArrowLink(x, t, p, false);
    ParsedStrSame(pid, name, x + ("[[" + (Arrowed(t, p, false) + "]]")), tags, position,
                  [Text(x), Link([Text(t)], Name([Text(p)]), false)]);
  }

  lemma LeftArrowEscaped(x: string, p: string, t: string)
    requires x == "This has a link: " && p == "passage name" && t == "link text"
    ensures EscapeHtml(x + ("[[" + (p + "<-" + t + "]]"))) == x + ("[[" + (p + "&lt;-" + t + "]]"))
  {
    assert EscapeHtml(p + "<-" + t) == p + "&lt;-" + t by {
      EscArrow(t, false, p);
      EscPlain(t);
      EscPlain(p);
    }
    var c := p + "<-" + t;
    assert EscapeHtml(x) == x by { EscPlain(x); }
    assert EscapeHtml(x + ("[[" + (c + "]]"))) == EscapeHtml(x) + ("[[" + (EscapeHtml(c) + "]]")) by {
      EscapeWrapped(x, "[[", c, "]]");
    }
  }

  // ---------------------------------------------------------------------------------------
  // Text, then a macro (test_harlowe.py:275-284)

  /** A plain macro name, a colon, plain code and `)` parse as one macro holding the code. */
  lemma MacroParse(n: string, code: string)
    requires n != [] && IsMacroNameStart(n[0]) && forall i :: 1 <= i < |n| ==> IsTagChar(n[i])
    requires code != [] && Untriggered(code, MacroStop)
    ensures ParseMacro(n + ":" + code + ")") == Ok(Handled([NewMacro(Named(n), [Text(code)])], []))
  {
    var t := n + ":" + code + ")";
    MacroNameThenCode(n, code);
    CodeToClose(code);
    ParsePlainMacro(t, n, |n| + 1, code + ")", [Text(code)]);
  }

  /** A plain macro name and a colon are matched, and the code and `)` follow them. */
  lemma MacroNameThenCode(n: string, code: string)
    requires n != [] && IsMacroNameStart(n[0]) && forall i :: 1 <= i < |n| ==> IsTagChar(n[i])
    ensures var t := n + ":" + code + ")";
      MatchMacroName(t) == Some((PlainName(n), |n| + 1)) && t[|n| + 1..] == code + ")"
  {
    var t := n + ":" + code + ")";
    var r := ":" + code + ")";
    assert t == n + r;
    MatchPlainName(n, r);
    assert r[1..] == code + ")";
  }

  /** Plain code and `)` tokenize as one text, stopped by the `)`. */
  lemma CodeToClose(code: string)
    requires code != [] && Untriggered(code, MacroStop)
    ensures TokenizeFrom([], code + ")", MacroStop) == Ok(Tokenized([Text(code)], Some(")"), []))
  {
    TextThenStop([], code, ")", [], MacroStop);
    assert code + ")" + [] == code + ")";
    assert Merged([], Text(code)) == [Text(code)];
  }

  /** A macro holding one text prints as its escaped source. */
  lemma MacroTextPrints(n: string, code: string)
    ensures PrintNode(NewMacro(Named(n), [Text(code)])) == Some("(" + (EscapeHtml(n + ":" + code) + ")"))
  {
    MacroOfText(n, code);
    EscapeHtmlConcat(n + ":", code);
    EscapeHtmlConcat(n, ":");
    EscChar(':');
    Assoc("(", EscapeHtml(n) + ":" + EscapeHtml(code), ")");
    Assoc4("(", EscapeHtml(n), ":", EscapeHtml(code));
  }

  /** Text, then a closed macro: the two tokens, printed back as the escaped text. */
  lemma TextThenMacro(x: string, n: string, code: string)
    requires x != [] && Untriggered(x, NoStop)
    requires n != [] && IsMacroNameStart(n[0]) && forall i :: 1 <= i < |n| ==> IsTagChar(n[i])
    requires code != [] && Untriggered(code, MacroStop)
    ensures var s := x + ("(" + (n + ":" + code + ")"));
      var tokens := [Text(x), NewMacro(Named(n), [Text(code)])];
      TokenizeFrom([], s, NoStop) == Ok(Tokenized(tokens, None, [])) && Print(tokens) == Some(EscapeHtml(s))
  {
    var t := n + ":" + code + ")";
    var macro := NewMacro(Named(n), [Text(code)]);
    MacroParse(n, code);
    CharTrigger('(', MacroStart, t);
    assert "(" + t == ['('] + t;
    TextThenNode(x, "(" + t, MacroStart, "(", t, macro);
    MacroTextPrints(n, code);
    TextThenNodePrints(x, macro, "(", n + ":" + code, ")");
  }

  /** `This has a macro with a dash: (go-to: "new passage")`: the macro is closed, so the
      element prints back exactly; its canonical name drops the dash. */
  /** The words of the macro test: plain text, a hyphenated name and quoted code. */
  lemma MacroWords(x: string, n: string, q: string)
    requires x == "This has a macro with a dash: " && n == "go-to" && q == "new passage"
    ensures Untriggered(x, NoStop) && Untriggered(" \"" + q + "\"", MacroStop)
    ensures n != [] && IsMacroNameStart(n[0]) && forall i :: 1 <= i < |n| ==> IsTagChar(n[i])
  {
    assert IsMacroNameStart(n[0]) && forall i :: 1 <= i < |n| ==> IsTagChar(n[i]);
  }

  lemma MacroPassage(pid: string, name: string, tags: string, position: string,
                     x: string, n: string, q: string)
    requires x == "This has a macro with a dash: " && n == "go-to" && q == "new passage"
    ensures var contents := x + ("(" + (n + ":" + (" \"" + q + "\"") + ")"));
      var tokens := [Text(x), NewMacro(Named(n), [Text(" \"" + q + "\"")])];
      && TokenizeFrom([], contents, NoStop) == Ok(Tokenized(tokens, None, []))
      && PassageStr(pid, name, contents, tags, position, Some(tokens)) == PassageStr(pid, name, contents, tags, position, None)
  {
    var code := " \"" + q + "\"";
    MacroWords(x, n, q);
    TextThenMacro(x, n, code);
    ParsedStrSame(pid, name, x + ("(" + (n + ":" + code + ")")), tags, position,
                  [Text(x), NewMacro(Named(n), [Text(code)])]);
  }

  /** The macro's source with its quote marks escaped. */
  lemma MacroSourceEscaped(n: string, q: string)
    requires n == "go-to" && q == "new passage"
    ensures EscapeHtml(n + ":" + (" \"" + q + "\"")) == n + ":" + (" &quot;" + q + "&quot;")
  {
    EscapeHtmlConcat(n + ":", " \"" + q + "\"");
    EscapeHtmlConcat(n, ":");
    EscChar(':');
    EscPlain(n);
    EscapeSpacedQuote(q);
  }

  /** The same contents as the passage stores them: `(go-to: &quot;new passage&quot;)`. */
  lemma MacroEscaped(x: string, n: string, q: string)
    requires x == "This has a macro with a dash: " && n == "go-to" && q == "new passage"
    ensures EscapeHtml(x + ("(" + (n + ":" + (" \"" + q + "\"") + ")"))) == x + ("(" + (n + ":" + (" &quot;" + q + "&quot;") + ")"))
  {
    var c := n + ":" + (" \"" + q + "\"");
    assert EscapeHtml(x) == x by { EscPlain(x); }
    assert EscapeHtml(x + ("(" + (c + ")"))) == EscapeHtml(x) + ("(" + (EscapeHtml(c) + ")")) by {
      EscapeWrapped(x, "(", c, ")");
    }
    MacroSourceEscaped(n, q);
  }

  // ---------------------------------------------------------------------------------------
  // Text, then a hook (test_harlowe.py:287-320)

  /** Text and an untagged hook holding text print as the escaped text they came from. */
  lemma TextHookPrints(x: string, h: string)
    ensures Print([Text(x), Hook([Text(h)], None, false)]) == Some(EscapeHtml(x + ("[" + (h + "]"))))
  {
    HookOfText(h, [], false);
    Assoc("[", EscapeHtml(h), "]");
    TextThenNodePrints(x, Hook([Text(h)], None, false), "[", h, "]");
  }

  /** Text `y`, then a hook holding text that ends the input: the text and the hook are
      appended after `acc`. */
  lemma TextThenHookAfter(acc: seq<Node>, y: string, h: string)
    requires y != [] && Untriggered(y, NoStop) && h != [] && Untriggered(h, HookStop)
    ensures TokenizeFrom(acc, y + ("[" + (h + "]")), NoStop)
      == TokenizeFrom(MergedAll(Merged(acc, Text(y)), [Hook([Text(h)], None, false)]), [], NoStop)
  {
    var hook := Hook([Text(h)], None, false);
    assert ParseHook("[", h + "]") == Ok(Handled([hook], [])) by {
      PlainHook(h, []);
      assert h + "]" + [] == h + "]";
    }
    assert (h + "]")[0] == h[0] && h[0] != '[' by { assert !IsTrigger(h[0], HookStop); }
    HookOpener(h + "]", NoStop);
    TextThenStart(acc, y, "[" + (h + "]"), NoStop, HookStart, "[", h + "]", [hook], []);
  }

  /** Text, then an untagged hook holding text: the two tokens, printed back as the escaped
      text. */
  lemma TextThenHook(x: string, h: string)
    requires x != [] && Untriggered(x, NoStop) && h != [] && Untriggered(h, HookStop)
    ensures var s := x + ("[" + (h + "]"));
      var tokens := [Text(x), Hook([Text(h)], None, false)];
      TokenizeFrom([], s, NoStop) == Ok(Tokenized(tokens, None, [])) && Print(tokens) == Some(EscapeHtml(s))
  {
    var hook := Hook([Text(h)], None, false);
    PlainHook(h, []);
    assert h + "]" + [] == h + "]";
    assert (h + "]")[0] == h[0] && h[0] != '[' by { assert !IsTrigger(h[0], HookStop); }
    HookOpener(h + "]", NoStop);
    TextThenNode(x, "[" + (h + "]"), HookStart, "[", h + "]", hook);
    TextHookPrints(x, h);
  }

  /** `Anonymous hook [ that only contains text ]`. */
  /** The words of the anonymous-hook test are plain text. */
  lemma AnonymousHookWords(x: string, h: string)
    requires x == "Anonymous hook " && h == " that only contains text "
    ensures Untriggered(x, NoStop) && Untriggered(h, HookStop)
  {
  }

  lemma AnonymousHookPassage(pid: string, name: string, tags: string, position: string, x: string, h: string)
    requires x == "Anonymous hook " && h == " that only contains text "
    ensures var contents := x + ("[" + (h + "]"));
      var tokens := [Text(x), Hook([Text(h)], None, false)];
      && TokenizeFrom([], contents, NoStop) == Ok(Tokenized(tokens, None, []))
      && PassageStr(pid, name, contents, tags, position, Some(tokens)) == PassageStr(pid, name, contents, tags, position, None)
  {
    AnonymousHookWords(x, h);
    TextThenHook(x, h);
    ParsedStrSame(pid, name, x + ("[" + (h + "]")), tags, position, [Text(x), Hook([Text(h)], None, false)]);
  }

  // ---------------------------------------------------------------------------------------
  // Name tags with a space are not tags (test_harlowe.py:299-320)

  /** The first `k` characters of `w` are tag characters and the next one is neither a tag
      character nor `c`, the character a tag would end with. */
  predicate EndsTagRun(w: string, k: nat, c: char) {
    k < |w| && (forall i :: 0 <= i < k ==> IsTagChar(w[i])) && !IsTagChar(w[k]) && w[k] != c
  }

  /** Words whose run of tag characters ends before a `|` cannot be a right tag. */
  lemma NotRightTag(w: string, k: nat)
    requires EndsTagRun(w, k, '|')
    ensures MatchRightTag(w + "|").None?
  {
    var tail := w + "|";
    assert tail == w[..k] + tail[k..];
    TagRun(w[..k], tail[k..]);
  }

  /** The same words before `>[`: no left tag. */
  lemma NotLeftTag(w: string, k: nat, rest: string)
    requires EndsTagRun(w, k, '>')
    ensures MatchLeftTag(w + rest).None?
  {
    var t := w + rest;
    assert t == w[..k] + t[k..];
    TagRun(w[..k], t[k..]);
  }

  /** A hook closed by `]<` before words that are not a tag: unnamed, with `<` left over. */
  lemma HookThenNotTag(h: string, w: string, k: nat)
    requires h != [] && Untriggered(h, HookStop)
    requires EndsTagRun(w, k, '|')
    ensures ParseHook("[", h + "]<" + (w + "|")) == Ok(Handled([Hook([Text(h)], None, false)], "<" + (w + "|")))
  {
    var after := h + "]<" + (w + "|");
    TextThenStop([], h, "]<", w + "|", HookStop);
    assert Merged([], Text(h)) == [Text(h)];
    NotRightTag(w, k);
    HookBodyUntagged("[", None, after, after);
  }

  /** A `|` that ends the input after text is text. */
  lemma TextThenBar(acc: seq<Node>, y: string)
    requires acc != [] && !acc[|acc| - 1].Text? && y != [] && Untriggered(y, NoStop)
    ensures TokenizeFrom(acc, y + "|", NoStop) == Ok(Tokenized(acc + [Text(y + "|")], None, []))
  {
    assert ParseHook("|", []) == Ok(Handled([Text("|")], [])) by { assert MatchLeftTag([]).None?; }
    assert TokenizeFrom(acc, y + "|", NoStop) == TokenizeFrom(MergedAll(Merged(acc, Text(y)), [Text("|")]), [], NoStop) by {
      CharTrigger('|', BarStart, []);
      assert ['|'] + [] == "|";
      TextThenStart(acc, y, "|", NoStop, BarStart, "|", [], [Text("|")], []);
    }
    assert MergedAll(Merged(acc, Text(y)), [Text("|")]) == acc + [Text(y + "|")] by {
      var l := Merged(acc, Text(y));
      assert l == acc + [Text(y)];
      assert [Text("|")][..0] == [];
      assert l[..|l| - 1] == acc;
    }
  }

  /** Text, then a hook closed by `]<` before words that are not a tag: the text and the
      unnamed hook, with `<` and the words still to read. */
  lemma TextThenHookNotTag(x: string, h: string, w: string, k: nat)
    requires x != [] && Untriggered(x, NoStop) && h != [] && Untriggered(h, HookStop)
    requires EndsTagRun(w, k, '|')
    ensures TokenizeFrom([], x + ("[" + (h + "]<" + (w + "|"))), NoStop)
      == TokenizeFrom([Text(x), Hook([Text(h)], None, false)], ("<" + w) + "|", NoStop)
  {
    var hook := Hook([Text(h)], None, false);
    var after := h + "]<" + (w + "|");
    var rest := "<" + (w + "|");
    HookThenNotTag(h, w, k);
    assert after[0] == h[0] && h[0] != '[' by { assert !IsTrigger(h[0], HookStop); }
    HookOpener(after, NoStop);
    TextThenStart([], x, "[" + after, NoStop, HookStart, "[", after, [hook], rest);
    assert MergedAll(Merged([], Text(x)), [hook]) == [Text(x), hook] by {
      assert Merged([], Text(x)) == [Text(x)];
      assert [hook][..0] == [];
    }
    assert rest == ("<" + w) + "|";
  }

  /** Text, then a hook whose `]<` is followed by words that are not a tag, then `|`: the
      hook is unnamed and `<`, the words and `|` stay text. */
  lemma TextHookNotTag(x: string, h: string, w: string, k: nat)
    requires x != [] && Untriggered(x, NoStop) && h != [] && Untriggered(h, HookStop)
    requires EndsTagRun(w, k, '|') && Untriggered(w, NoStop)
    ensures TokenizeFrom([], x + ("[" + (h + "]<" + (w + "|"))), NoStop)
      == Ok(Tokenized([Text(x), Hook([Text(h)], None, false), Text("<" + w + "|")], None, []))
  {
    var hook := Hook([Text(h)], None, false);
    TextThenHookNotTag(x, h, w, k);
    assert Untriggered("<" + w, NoStop) by { UntriggeredJoin("<", w, NoStop); }
    TextThenBar([Text(x), hook], "<" + w);
    assert [Text(x), hook] + [Text("<" + w + "|")] == [Text(x), hook, Text("<" + w + "|")];
  }

  lemma TextHookNotTagPrints(x: string, h: string, w: string)
    ensures Print([Text(x), Hook([Text(h)], None, false), Text("<" + w + "|")])
      == Some(EscapeHtml(x + ("[" + (h + "]<" + (w + "|")))))
  {
    var hook := Hook([Text(h)], None, false);
    var z := "<" + w + "|";
    var a := x + ("[" + (h + "]"));
    PrintThird(Text(x), hook, Text(z));
    TextHookPrints(x, h);
    EscapeAfterHook(x, h, w);
  }

  /** The escaped text of a hook and a bar-ended word run splits after the `]`. */
  lemma EscapeAfterHook(x: string, h: string, w: string)
    ensures EscapeHtml(x + ("[" + (h + "]<" + (w + "|"))))
      == EscapeHtml(x + ("[" + (h + "]"))) + EscapeHtml("<" + w + "|")
  {
    var a := x + ("[" + (h + "]"));
    var z := "<" + w + "|";
    assert a + z == x + ("[" + (h + "]<" + (w + "|")));
    EscapeHtmlConcat(a, z);
  }

  /** Three items print as the first two followed by the third. */
  lemma PrintThird(a: Node, b: Node, c: Node)
    ensures Print([a, b, c]) == Join(Print([a, b]), PrintNode(c))
  {
    assert [a, b, c] == [a, b] + [c];
    PrintSnoc([a, b], c);
  }

  /** Text, then `|` before words that are not a left tag: the bar joins the text. */
  lemma TextBarNotTag(x: string, w: string, k: nat, rest: string)
    requires x != [] && Untriggered(x, NoStop)
    requires EndsTagRun(w, k, '>')
    ensures TokenizeFrom([], x + ("|" + (w + rest)), NoStop) == TokenizeFrom([Text(x + "|")], w + rest, NoStop)
  {
    var after := w + rest;
    NotLeftTag(w, k, rest);
    assert ParseHook("|", after) == Ok(Handled([Text("|")], after));
    CharTrigger('|', BarStart, after);
    assert "|" + after == ['|'] + after;
    TextThenStart([], x, "|" + after, NoStop, BarStart, "|", after, [Text("|")], after);
    assert MergedAll(Merged([], Text(x)), [Text("|")]) == [Text(x + "|")] by {
      assert Merged([], Text(x)) == [Text(x)];
      assert [Text("|")][..0] == [];
    }
  }

  /** After a text token, more text, `>` and then a hook holding text: the texts join. */
  lemma TextAfterTextThenHook(z: string, w: string, h: string)
    requires Untriggered(w, NoStop) && h != [] && Untriggered(h, HookStop)
    ensures TokenizeFrom([Text(z)], w + (">[" + (h + "]")), NoStop)
      == Ok(Tokenized([Text(z + w + ">"), Hook([Text(h)], None, false)], None, []))
  {
    var hook := Hook([Text(h)], None, false);
    var y := w + ">";
    UntriggeredJoin(w, ">", NoStop);
    assert w + (">[" + (h + "]")) == y + ("[" + (h + "]"));
    TextThenHookAfter([Text(z)], y, h);
    TextsThenNode(z, y, hook);
    assert z + y == z + w + ">";
    RunEnds([Text(z + y), hook], NoStop);
  }

  /** Two texts merge into one, and a node that is not text follows them. */
  lemma TextsThenNode(z: string, y: string, node: Node)
    requires !node.Text?
    ensures MergedAll(Merged([Text(z)], Text(y)), [node]) == [Text(z + y), node]
  {
    assert Merged([Text(z)], Text(y)) == [Text(z + y)];
    assert [node][..0] == [];
  }

  /** Text, then `|` and words that are not a tag before `>[`, then a hook: the bar, the
      words and `>` join the text, and the hook is unnamed. */
  lemma TextBarNotTagHook(x: string, w: string, k: nat, h: string)
    requires x != [] && Untriggered(x, NoStop) && h != [] && Untriggered(h, HookStop)
    requires EndsTagRun(w, k, '>') && Untriggered(w, NoStop)
    ensures TokenizeFrom([], x + ("|" + (w + (">[" + (h + "]")))), NoStop)
      == Ok(Tokenized([Text(x + "|" + w + ">"), Hook([Text(h)], None, false)], None, []))
  {
    TextBarNotTag(x, w, k, ">[" + (h + "]"));
    TextAfterTextThenHook(x + "|", w, h);
  }

  lemma TextBarNotTagHookPrints(x: string, w: string, h: string)
    ensures Print([Text(x + "|" + w + ">"), Hook([Text(h)], None, false)])
      == Some(EscapeHtml(x + ("|" + (w + (">[" + (h + "]"))))))
  {
    TextHookPrints(x + "|" + w + ">", h);
    assert x + "|" + w + ">" + ("[" + (h + "]")) == x + ("|" + (w + (">[" + (h + "]"))));
  }

  /** The words of the right-tag test: plain text, and `right tag` is not a tag. */
  lemma RightTagWords(x: string, h: string, a: string, b: string)
    requires x == "Named hook " && h == " that only contains text " && a == "right" && b == "tag"
    ensures x != [] && Untriggered(x, NoStop) && h != [] && Untriggered(h, HookStop)
    ensures Untriggered(a + " " + b, NoStop) && EndsTagRun(a + " " + b, |a|, '|')
  {
    var w := a + " " + b;
    assert forall i :: 0 <= i < |a| ==> IsTagChar(w[i]);
    assert w[|a|] == ' ' && !IsTagChar(' ');
  }

  /** The words of the left-tag test: plain text, and `left tag` is not a tag. */
  lemma LeftTagWords(x: string, a: string, b: string, h: string)
    requires x == "Named hook " && a == "left" && b == "tag" && h == " that only contains text "
    ensures x != [] && Untriggered(x, NoStop) && h != [] && Untriggered(h, HookStop)
    ensures Untriggered(a + " " + b, NoStop) && EndsTagRun(a + " " + b, |a|, '>')
  {
    var w := a + " " + b;
    assert forall i :: 0 <= i < |a| ==> IsTagChar(w[i]);
    assert w[|a|] == ' ' && !IsTagChar(' ');
  }

  /** `Named hook [ that only contains text ]<right tag|`: with a space the right tag is
      not a name, and `<right tag|` stays text that prints back as it was. */
  lemma RightTagPassage(pid: string, name: string, tags: string, position: string,
                        x: string, h: string, a: string, b: string)
    requires x == "Named hook " && h == " that only contains text " && a == "right" && b == "tag"
    ensures var contents := x + ("[" + (h + "]<" + ((a + " " + b) + "|")));
      var tokens := [Text(x), Hook([Text(h)], None, false), Text("<" + (a + " " + b) + "|")];
      && TokenizeFrom([], contents, NoStop) == Ok(Tokenized(tokens, None, []))
      && PassageStr(pid, name, contents, tags, position, Some(tokens)) == PassageStr(pid, name, contents, tags, position, None)
  {
    var w := a + " " + b;
    RightTagWords(x, h, a, b);
    RightTagShape(pid, name, tags, position, x, h, w, |a|);
  }

  /** Text, a hook holding text and words that are not a right tag before `|`: the words stay
      text, and the passage prints the same with or without its tokens. */
  lemma RightTagShape(pid: string, name: string, tags: string, position: string,
                      x: string, h: string, w: string, k: nat)
    requires x != [] && Untriggered(x, NoStop) && h != [] && Untriggered(h, HookStop)
    requires EndsTagRun(w, k, '|') && Untriggered(w, NoStop)
    ensures var contents := x + ("[" + (h + "]<" + (w + "|")));
      var tokens := [Text(x), Hook([Text(h)], None, false), Text("<" + w + "|")];
      && TokenizeFrom([], contents, NoStop) == Ok(Tokenized(tokens, None, []))
      && PassageStr(pid, name, contents, tags, position, Some(tokens)) == PassageStr(pid, name, contents, tags, position, None)
  {
    TextHookNotTag(x, h, w, k);
    TextHookNotTagPrints(x, h, w);
    ParsedStrSame(pid, name, x + ("[" + (h + "]<" + (w + "|"))), tags, position,
                  [Text(x), Hook([Text(h)], None, false), Text("<" + w + "|")]);
  }

  /** `Named hook |left tag>[ that only contains text ]`: with a space the left tag is not a
      name, and `|left tag>` joins the text before the hook. */
  lemma LeftTagPassage(pid: string, name: string, tags: string, position: string,
                       x: string, a: string, b: string, h: string)
    requires x == "Named hook " && a == "left" && b == "tag" && h == " that only contains text "
    ensures var contents := x + ("|" + ((a + " " + b) + (">[" + (h + "]"))));
      var tokens := [Text(x + "|" + (a + " " + b) + ">"), Hook([Text(h)], None, false)];
      && TokenizeFrom([], contents, NoStop) == Ok(Tokenized(tokens, None, []))
      && PassageStr(pid, name, contents, tags, position, Some(tokens)) == PassageStr(pid, name, contents, tags, position, None)
  {
    var w := a + " " + b;
    LeftTagWords(x, a, b, h);
    LeftTagShape(pid, name, tags, position, x, w, |a|, h);
  }

  /** Text, `|` and words that are not a left tag before `>`, then a hook holding text: the
      words join the text, and the passage prints the same with or without its tokens. */
  lemma LeftTagShape(pid: string, name: string, tags: string, position: string,
                     x: string, w: string, k: nat, h: string)
    requires x != [] && Untriggered(x, NoStop) && h != [] && Untriggered(h, HookStop)
    requires EndsTagRun(w, k, '>') && Untriggered(w, NoStop)
    ensures var contents := x + ("|" + (w + (">[" + (h + "]"))));
      var tokens := [Text(x + "|" + w + ">"), Hook([Text(h)], None, false)];
      && TokenizeFrom([], contents, NoStop) == Ok(Tokenized(tokens, None, []))
      && PassageStr(pid, name, contents, tags, position, Some(tokens)) == PassageStr(pid, name, contents, tags, position, None)
  {
    TextBarNotTagHook(x, w, k, h);
    TextBarNotTagHookPrints(x, w, h);
    ParsedStrSame(pid, name, x + ("|" + (w + (">[" + (h + "]")))), tags, position,
                  [Text(x + "|" + w + ">"), Hook([Text(h)], None, false)]);
  }
}
