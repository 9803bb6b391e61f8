/** The nodes the string tests of test_harlowe.py:157-210 build by hand and the text each
    prints as (TwineLink, TwineMacro and TwineHook __str__, harlowe.py:298-307, 343-360,
    406-410). Each test's words are parameters fixed by the precondition; quote marks and
    apostrophes split them into plain pieces. */
module PrintExamples {
  import opened Base
  import opened Escaping
  import opened Nodes
  import opened RoundTripParts

  /** Text without characters HTML escapes prints as itself. */
  predicate Plain(s: string) {
    forall i :: 0 <= i < |s| ==> !IsHtmlSpecial(s[i])
  }

  /** `a'b"c"` escapes its apostrophe and its two quote marks and nothing else. */
  lemma EscapeQuoted(a: string, b: string, c: string)
    requires Plain(a) && Plain(b) && Plain(c)
    ensures EscapeHtml(a + "'" + b + "\"" + c + "\"") == a + "&#39;" + b + "&quot;" + c + "&quot;"
  {
    EscapeHtmlConcat(a + "'" + b + "\"" + c, "\"");
    EscapeHtmlConcat(a + "'" + b + "\"", c);
    EscapeHtmlConcat(a + "'" + b, "\"");
    EscapeHtmlConcat(a + "'", b);
    EscapeHtmlConcat(a, "'");
    EscChar('\'');
    EscChar('"');
    EscPlain(a);
    EscPlain(b);
    EscPlain(c);
  }

  /** `a'b` escapes its apostrophe. */
  lemma EscapeApostrophe(a: string, b: string)
    requires Plain(a) && Plain(b)
    ensures EscapeHtml(a + "'" + b) == a + "&#39;" + b
  {
    EscapeHtmlConcat(a + "'", b);
    EscapeHtmlConcat(a, "'");
    EscChar('\'');
    EscPlain(a);
    EscPlain(b);
  }

  /** A space, then `"q"`: the code of the macros in the tests. */
  lemma EscapeSpacedQuote(q: string)
    requires Plain(q)
    ensures EscapeHtml(" \"" + q + "\"") == " &quot;" + q + "&quot;"
  {
    EscapeHtmlConcat(" \"" + q, "\"");
    EscapeHtmlConcat(" \"", q);
    EscapeHtmlConcat(" ", "\"");
    EscChar(' ');
    EscChar('"');
    EscPlain(q);
  }

  /** A node holding one string prints that string escaped, in the node's own markup. */
  lemma LinkOfText(t: string, p: string, onRight: bool)
    ensures PrintNode(Link([Text(t)], NoName, onRight)) == Some("[[" + EscapeHtml(t) + "]]")
    ensures PrintNode(Link([Text(t)], Name([Text(p)]), onRight))
      == Some(if onRight then "[[" + EscapeHtml(t) + "-&gt;" + EscapeHtml(p) + "]]"
              else "[[" + EscapeHtml(p) + "&lt;-" + EscapeHtml(t) + "]]")
  {
    PrintSingle(Text(t));
    PrintSingle(Text(p));
  }

  lemma HookOfText(x: string, tag: string, onRight: bool)
    ensures PrintNode(Hook([Text(x)], None, onRight)) == Some("[" + EscapeHtml(x) + "]")
    ensures tag != [] ==>
      PrintNode(Hook([Text(x)], Some(tag), onRight))
        == Some(if onRight then "[" + EscapeHtml(x) + "]" + "&lt;" + EscapeHtml(tag) + "|"
                else "|" + EscapeHtml(tag) + "&gt;" + ("[" + EscapeHtml(x) + "]"))
  {
    PrintSingle(Text(x));
  }

  lemma MacroOfText(n: string, x: string)
    ensures PrintNode(NewMacro(Named(n), [Text(x)])) == Some("(" + EscapeHtml(n) + ":" + EscapeHtml(x) + ")")
  {
    PrintSingle(Text(x));
  }

  /** TwineLink(['passage name']): a link without a passage prints its text in brackets. */
  lemma SimpleLinkPrints(p: string)
    requires p == "passage name"
    ensures PrintNode(Link([Text(p)], NoName, true)) == Some("[[" + p + "]]")
  {
    LinkOfText(p, p, true);
    EscPlain(p);
  }

  /** TwineLink(['link text'], ["this room's got \"quote marks\""]): the passage follows an
      escaped `->`, and its quote marks are escaped. */
  lemma RightArrowLinkPrints(t: string, a: string, b: string, c: string)
    requires t == "link text" && a == "this room" && b == "s got " && c == "quote marks"
    ensures PrintNode(Link([Text(t)], Name([Text(a + "'" + b + "\"" + c + "\"")]), true))
      == Some("[[" + t + "-&gt;" + (a + "&#39;" + b + "&quot;" + c + "&quot;") + "]]")
  {
    var p := a + "'" + b + "\"" + c + "\"";
    assert EscapeHtml(p) == a + "&#39;" + b + "&quot;" + c + "&quot;" by { EscapeQuoted(a, b, c); }
    assert EscapeHtml(t) == t by { EscPlain(t); }
    LinkOfText(t, p, true);
  }

  /** The same link with passage_on_right=False: the passage comes first, before an escaped
      `<-`. */
  lemma LeftArrowLinkPrints(t: string, a: string, b: string, c: string)
    requires t == "link text" && a == "this room" && b == "s got " && c == "quote marks"
    ensures PrintNode(Link([Text(t)], Name([Text(a + "'" + b + "\"" + c + "\"")]), false))
      == Some("[[" + (a + "&#39;" + b + "&quot;" + c + "&quot;") + "&lt;-" + t + "]]")
  {
    var p := a + "'" + b + "\"" + c + "\"";
    assert EscapeHtml(p) == a + "&#39;" + b + "&quot;" + c + "&quot;" by { EscapeQuoted(a, b, c); }
    assert EscapeHtml(t) == t by { EscPlain(t); }
    LinkOfText(t, p, false);
  }

  /** TwineMacro(n, [' "passage link"']): the name as written, a colon, then the escaped
      code, in parentheses; a hyphen in the name stays. */
  lemma MacroPrints(n: string, q: string)
    requires (n == "goto" || n == "go-to") && q == "passage link"
    ensures PrintNode(NewMacro(Named(n), [Text(" \"" + q + "\"")])) == Some("(" + n + ":" + (" &quot;" + q + "&quot;") + ")")
  {
    assert EscapeHtml(" \"" + q + "\"") == " &quot;" + q + "&quot;" by { EscapeSpacedQuote(q); }
    assert EscapeHtml(n) == n by { EscPlain(n); }
    MacroOfText(n, " \"" + q + "\"");
  }

  /** TwineHook(["simple text 'mkay?"]): an untagged hook prints its escaped contents in
      brackets. */
  lemma HookPrints(a: string, b: string)
    requires a == "simple text " && b == "mkay?"
    ensures PrintNode(Hook([Text(a + "'" + b)], None, false)) == Some("[" + (a + "&#39;" + b) + "]")
  {
    assert EscapeHtml(a + "'" + b) == a + "&#39;" + b by { EscapeApostrophe(a, b); }
    HookOfText(a + "'" + b, [], false);
  }

  /** The same hook with the tag on the right: an escaped `<`, the tag, `|`. */
  lemma RightTagHookPrints(a: string, b: string, tag: string)
    requires a == "simple text " && b == "mkay?" && tag == "right-tag"
    ensures PrintNode(Hook([Text(a + "'" + b)], Some(tag), true)) == Some("[" + (a + "&#39;" + b) + "]" + "&lt;" + tag + "|")
  {
    assert EscapeHtml(a + "'" + b) == a + "&#39;" + b by { EscapeApostrophe(a, b); }
    assert EscapeHtml(tag) == tag by { EscPlain(tag); }
    HookOfText(a + "'" + b, tag, true);
  }

  /** The same hook with the tag on the left: `|`, the tag, an escaped `>`. */
  lemma LeftTagHookPrints(a: string, b: string, tag: string)
    requires a == "simple text " && b == "mkay?" && tag == "left-tag"
    ensures PrintNode(Hook([Text(a + "'" + b)], Some(tag), false)) == Some("|" + tag + "&gt;" + ("[" + (a + "&#39;" + b) + "]"))
  {
    assert EscapeHtml(a + "'" + b) == a + "&#39;" + b by { EscapeApostrophe(a, b); }
    assert EscapeHtml(tag) == tag by { EscPlain(tag); }
    HookOfText(a + "'" + b, tag, false);
  }
}
