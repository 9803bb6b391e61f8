/** The pieces the round-trip proof is built from: text with `)` inserted, what the input
    may not contain, what a handler consumed, how each kind of node prints, and how the
    escaped pieces of the input fit together. Each statement about printing carries a flag
    `exact`: when it holds, the printed text is exactly the escaped text, with nothing
    inserted. */
module RoundTripParts {
  import opened Base
  import opened Escaping
  import opened Scanners
  import opened Nodes
  import opened Tokenizer

  // ---------------------------------------------------------------------------------------
  // Text with closing parentheses inserted

  /** `y` is `x` with some `)` characters inserted. */
  predicate Ins(x: string, y: string)
    decreases |y|
  {
    if y == [] then x == []
    else (y[0] == ')' && Ins(x, y[1..])) || (x != [] && x[0] == y[0] && Ins(x[1..], y[1..]))
  }

  lemma {:induction false} InsRefl(x: string)
    ensures Ins(x, x)
    decreases |x|
  {
    if x != [] {
      InsRefl(x[1..]);
    }
  }

  /** Insertions in two parts are insertions in the whole. */
  lemma {:induction false} InsConcat(a: string, b: string, c: string, d: string)
    requires Ins(a, b) && Ins(c, d)
    ensures Ins(a + c, b + d)
    decreases |b|
  {
    if b == [] {
      assert a == [];
      assert a + c == c && b + d == d;
    } else {
      assert (b + d)[0] == b[0] && (b + d)[1..] == b[1..] + d;
      if b[0] == ')' && Ins(a, b[1..]) {
        InsConcat(a, b[1..], c, d);
      } else {
        InsConcat(a[1..], b[1..], c, d);
        assert (a + c)[0] == a[0] && (a + c)[1..] == a[1..] + c;
      }
    }
  }

  /** A common first character other than `)` can be dropped. */
  lemma InsUncons(ch: char, x: string, y: string)
    requires ch != ')' && Ins([ch] + x, [ch] + y)
    ensures Ins(x, y)
  {
    assert ([ch] + y)[1..] == y && ([ch] + x)[1..] == x;
  }

  /** Inserting only lengthens, and an insertion that does not lengthen inserts nothing. */
  lemma {:induction false} InsLength(x: string, y: string)
    requires Ins(x, y)
    ensures |x| <= |y|
    ensures |x| == |y| ==> x == y
    decreases |y|
  {
    if y != [] {
      if y[0] == ')' && Ins(x, y[1..]) {
        InsLength(x, y[1..]);
        if |x| == |y| {
          assert false;
        }
      } else {
        InsLength(x[1..], y[1..]);
        assert x == [x[0]] + x[1..] && y == [y[0]] + y[1..];
      }
    }
  }

  /** The tokens print as `x` with some `)` inserted, and as `x` itself when `exact`. */
  predicate PrintsAs(l: seq<Node>, x: string, exact: bool) {
    Print(l).Some? && Ins(x, Print(l).value) && (exact ==> Print(l).value == x)
  }

  /** Tokens produced after an opener `m` from the text `t`, leaving `rest`, print as `m`
      and the escaped text they consumed. */
  predicate OpenedPrints(nodes: seq<Node>, rest: string, m: string, t: string, exact: bool) {
    IsSuffix(rest, t) && PrintsAs(nodes, m + EscapeHtml(Consumed(t, rest)), exact)
  }

  lemma PrintsAsEmpty(exact: bool)
    ensures PrintsAs([], [], exact)
  {
    InsRefl([]);
  }

  lemma PrintsAsConcat(l1: seq<Node>, x1: string, l2: seq<Node>, x2: string, exact: bool)
    requires PrintsAs(l1, x1, exact) && PrintsAs(l2, x2, exact)
    ensures PrintsAs(l1 + l2, x1 + x2, exact)
  {
    PrintConcat(l1, l2);
    InsConcat(x1, Print(l1).value, x2, Print(l2).value);
  }

  lemma PrintsAsMergedAll(l1: seq<Node>, x1: string, l2: seq<Node>, x2: string, exact: bool)
    requires PrintsAs(l1, x1, exact) && PrintsAs(l2, x2, exact)
    ensures PrintsAs(MergedAll(l1, l2), x1 + x2, exact)
  {
    MergedAllPrintsSame(l1, l2);
    PrintsAsConcat(l1, x1, l2, x2, exact);
  }

  lemma PrintsAsText(s: string, exact: bool)
    ensures PrintsAs([Text(s)], EscapeHtml(s), exact)
  {
    PrintSingle(Text(s));
    InsRefl(EscapeHtml(s));
  }

  lemma PrintsAsMerged(l: seq<Node>, x: string, s: string, exact: bool)
    requires PrintsAs(l, x, exact)
    ensures PrintsAs(Merged(l, Text(s)), x + EscapeHtml(s), exact)
  {
    MergedPrintsSame(l, Text(s));
    PrintsAsText(s, exact);
    PrintsAsConcat(l, x, [Text(s)], EscapeHtml(s), exact);
  }

  // ---------------------------------------------------------------------------------------
  // Escaping the pieces of the input

  lemma {:induction false} EscPlain(s: string)
    requires forall i :: 0 <= i < |s| ==> !IsHtmlSpecial(s[i])
    ensures EscapeHtml(s) == s
  {
    if s != [] {
      assert s == [s[0]] + s[1..];
      EscapeHtmlConcat([s[0]], s[1..]);
      EscPlain(s[1..]);
    }
  }

  lemma EscChar(c: char)
    ensures EscapeHtml([c]) == EscapeHtmlChar(c)
  {
    assert [c][0] == c && [c][1..] == [];
    assert EscapeHtml([c]) == EscapeHtmlChar(c) + EscapeHtml([]);
  }

  // ---------------------------------------------------------------------------------------
  // What the input may not contain

  /** No backtick (verbatim text keeps only one character after it, harlowe.py:652) and no
      macro named by a variable (it cannot be printed, harlowe.py:406-410). */
  predicate Safe(s: string) {
    Avoids(s, "`") && Avoids(s, "($")
  }

  lemma SafeSlice(s: string, a: nat, b: nat)
    requires a <= b <= |s| && Safe(s)
    ensures Safe(s[a..b])
  {
    AvoidsSlice(s, "`", a, b);
    AvoidsSlice(s, "($", a, b);
  }

  lemma SafeSuffix(s: string, a: nat)
    requires a <= |s| && Safe(s)
    ensures Safe(s[a..])
  {
    SafeSlice(s, a, |s|);
    assert s[a..|s|] == s[a..];
  }

  /** What follows a prefix of safe text is safe. */
  lemma SafeTail(m: string, t: string)
    requires Safe(m + t)
    ensures Safe(t)
  {
    SafeSlice(m + t, |m|, |m + t|);
    assert (m + t)[|m|..|m + t|] == t;
  }

  /** The part of `u` before its suffix `rest`. */
  function Consumed(u: string, rest: string): string
    requires |rest| <= |u|
  {
    u[..|u| - |rest|]
  }

  /** A string followed by a rest consumed exactly that string. */
  lemma ConsumedFront(c: string, rest: string)
    ensures IsSuffix(rest, c + rest) && Consumed(c + rest, rest) == c
  {
    assert (c + rest)[..|c|] == c;
  }

  /** What the input consumed splits at any point before the rest. */
  lemma ConsumedSplit(u: string, k: nat, rest: string)
    requires k <= |u| && IsSuffix(rest, u[k..])
    ensures IsSuffix(rest, u)
    ensures Consumed(u, rest) == u[..k] + Consumed(u[k..], rest)
  {
    assert u[|u| - |rest|..] == u[k..][|u| - k - |rest|..];
    assert u[..|u| - |rest|] == u[..k] + u[k..][..|u| - k - |rest|];
  }

  /** The text a stop token matched, or nothing. */
  function StopText(o: Option<string>): string {
    if o.Some? then o.value else []
  }


  // ---------------------------------------------------------------------------------------
  // Regrouping concatenations, stated over variables so that literals are not unfolded

  lemma Assoc(a: string, b: string, c: string)
    ensures a + (b + c) == a + b + c
  {
  }

  lemma Assoc4(a: string, b: string, c: string, d: string)
    ensures a + (b + c + d) == a + b + c + d
  {
  }

  lemma Assoc5(a: string, b: string, c: string, d: string, e: string)
    ensures a + (b + c + d + e) == a + b + c + d + e
  {
  }

  lemma Assoc6(a: string, b: string, c: string, d: string, e: string, f: string)
    ensures a + b + (c + d + e + f) == a + b + c + d + e + f
  {
  }

  // ---------------------------------------------------------------------------------------
  // How the nodes print

  /** Insertions survive a common prefix and suffix. */
  lemma InsWrap(p: string, x: string, y: string, q: string)
    requires Ins(x, y)
    ensures Ins(p + x + q, p + y + q)
  {
    InsRefl(p);
    InsRefl(q);
    InsConcat(p, p, x, y);
    InsConcat(p + x, p + y, q, q);
  }

  lemma InsCons(ch: char, x: string, y: string)
    requires Ins(x, y)
    ensures Ins([ch] + x, [ch] + y)
  {
    assert ([ch] + y)[1..] == y && ([ch] + x)[1..] == x;
  }

  /** A hook without a name tag prints its contents between brackets. */
  lemma HookPlainPrints(c: seq<Node>, x: string, exact: bool)
    requires PrintsAs(c, x, exact)
    ensures PrintsAs([Hook(c, None, false)], "[" + x + "]", exact)
  {
    PrintSingle(Hook(c, None, false));
    InsWrap("[", x, Print(c).value, "]");
  }

  /** A hook with a right name tag prints its contents between brackets, then the tag. */
  lemma HookRightPrints(c: seq<Node>, x: string, tag: string, exact: bool)
    requires PrintsAs(c, x, exact) && tag != []
    ensures PrintsAs([Hook(c, Some(tag), true)], "[" + x + "]" + "&lt;" + EscapeHtml(tag) + "|", exact)
  {
    PrintSingle(Hook(c, Some(tag), true));
    var e := EscapeHtml(tag);
    var inner := Print(c).value;
    InsWrap("[", x, inner, "]" + "&lt;" + e + "|");
    Assoc6("[", x, "]", "&lt;", e, "|");
    Assoc6("[", inner, "]", "&lt;", e, "|");
  }

  /** A hook with a left name tag prints the tag, then its contents between brackets. */
  lemma HookLeftPrints(c: seq<Node>, x: string, tag: string, exact: bool)
    requires PrintsAs(c, x, exact) && tag != []
    ensures PrintsAs([Hook(c, Some(tag), false)], "|" + EscapeHtml(tag) + "&gt;" + "[" + x + "]", exact)
  {
    var h := "|" + EscapeHtml(tag) + "&gt;" + "[";
    var inner := Print(c).value;
    assert Print([Hook(c, Some(tag), false)]) == Some(h + inner + "]") by {
      PrintSingle(Hook(c, Some(tag), false));
      Assoc4("|" + EscapeHtml(tag) + "&gt;", "[", inner, "]");
    }
    InsWrap(h, x, inner, "]");
  }

  /** Hooks opened by `[` carry no left name tag; such a hook printed as `[` followed by `y`
      keeps doing so once the tokens `nested` are put before its contents
      (_parse_nested_brackets). */
  lemma HookWrapPrints(nested: seq<Node>, x: string, c: seq<Node>, tag: Option<string>, onRight: bool, y: string,
                        exact: bool)
    requires PrintsAs(nested, x, exact) && PrintsAs([Hook(c, tag, onRight)], "[" + y, exact)
    requires onRight || tag.None?
    ensures PrintsAs([Hook(nested + c, tag, onRight)], "[" + x + y, exact)
  {
    PrintSingle(Hook(c, tag, onRight));
    PrintSingle(Hook(nested + c, tag, onRight));
    PrintConcat(nested, c);
    var pn, pc := Print(nested).value, Print(c).value;
    var e := if tag.Some? && tag.value != [] then "&lt;" + EscapeHtml(tag.value) + "|" else [];
    assert Print([Hook(c, tag, onRight)]).value == "[" + pc + "]" + e;
    assert Print([Hook(nested + c, tag, onRight)]).value == "[" + (pn + pc) + "]" + e;
    WrapStrings(x, y, pn, pc, e, exact);
  }

  /** The strings of HookWrapPrints: `pn` put after the `[` of `[pc]e`. */
  lemma WrapStrings(x: string, y: string, pn: string, pc: string, e: string, exact: bool)
    requires Ins(x, pn) && Ins("[" + y, "[" + pc + "]" + e)
    requires exact ==> pn == x && "[" + pc + "]" + e == "[" + y
    ensures Ins("[" + x + y, "[" + (pn + pc) + "]" + e)
    ensures exact ==> "[" + (pn + pc) + "]" + e == "[" + x + y
  {
    Assoc4("[", pc, "]", e);
    InsUncons('[', y, pc + "]" + e);
    InsConcat(x, pn, y, pc + "]" + e);
    InsCons('[', x + y, pn + (pc + "]" + e));
    Assoc("[", x, y);
    Assoc4(pn, pc, "]", e);
    Assoc("[", pn, pc + "]" + e);
    Assoc4("[", pn + pc, "]", e);
    Assoc("[", pn, pc);
  }

  /** A macro with a plain name prints `(name:code)`, closed whether or not its input was. */
  lemma MacroPrints(name: string, canonical: MacroName, code: seq<Node>, x: string, closed: bool, exact: bool)
    requires PrintsAs(code, x, exact) && (exact ==> closed)
    ensures PrintsAs([Macro(Named(name), canonical, code)],
                     "(" + EscapeHtml(name) + ":" + x + (if closed then ")" else ""), exact)
  {
    PrintSingle(Macro(Named(name), canonical, code));
    var h := "(" + EscapeHtml(name) + ":";
    var inner := Print(code).value;
    var tail := if closed then ")" else "";
    InsRefl(h);
    InsConcat(h, h, x, inner);
    if closed {
      InsRefl(")");
    } else {
      assert Ins([], ")") by {
        assert ")"[1..] == [];
      }
    }
    InsConcat(h + x, h + inner, tail, ")");
  }

  /** A link prints its text between double brackets when it names no passage. */
  lemma LinkPlainPrints(text: seq<Node>, x: string, passage: PassageName, onRight: bool, exact: bool)
    requires PrintsAs(text, x, exact)
    requires passage.NoName? || passage == Name([])
    ensures PrintsAs([Link(text, passage, onRight)], "[[" + x + "]]", exact)
  {
    PrintSingle(Link(text, passage, onRight));
    InsWrap("[[", x, Print(text).value, "]]");
  }

  /** A link naming its passage prints the passage name on the side of the arrow's head. */
  lemma LinkNamedPrints(text: seq<Node>, x: string, passage: seq<Node>, y: string, onRight: bool, exact: bool)
    requires PrintsAs(text, x, exact) && PrintsAs(passage, y, exact) && passage != []
    ensures PrintsAs([Link(text, Name(passage), onRight)],
                     "[[" + (if onRight then x + "-&gt;" + y else y + "&lt;-" + x) + "]]", exact)
  {
    PrintSingle(Link(text, Name(passage), onRight));
    var px, py := Print(text).value, Print(passage).value;
    var arrow := if onRight then "-&gt;" else "&lt;-";
    InsRefl(arrow);
    if onRight {
      InsConcat(x, px, arrow, arrow);
      InsConcat(x + arrow, px + arrow, y, py);
      InsWrap("[[", x + arrow + y, px + arrow + py, "]]");
      Assoc4("[[", px, arrow, py);
    } else {
      InsConcat(y, py, arrow, arrow);
      InsConcat(y + arrow, py + arrow, x, px);
      InsWrap("[[", y + arrow + x, py + arrow + px, "]]");
      Assoc4("[[", py, arrow, px);
    }
  }

  // ---------------------------------------------------------------------------------------
  // Gluing the consumed parts together

  /** No character of `s` is changed by escaping. */
  predicate NoSpecial(s: string) {
    forall i :: 0 <= i < |s| ==> !IsHtmlSpecial(s[i])
  }

  lemma AvoidsCons(c: char, x: string, pat: string)
    requires |pat| > 0 && pat[0] != c && Avoids(x, pat)
    ensures Avoids([c] + x, pat)
  {
    forall i: nat | i <= |[c] + x|
      ensures !OccursAt([c] + x, pat, i)
    {
      if i > 0 && OccursAt([c] + x, pat, i) {
        assert ([c] + x)[i..i + |pat|] == x[i - 1..i - 1 + |pat|];
        assert OccursAt(x, pat, i - 1);
      }
    }
  }

  /** No forbidden pattern starts with `[`, so a bracket in front keeps the text safe. */
  lemma SafeBracket(x: string)
    requires Safe(x)
    ensures Safe("[" + x)
  {
    AvoidsCons('[', x, "`");
    AvoidsCons('[', x, "($");
  }

  lemma ConsumedChain(u: string, r1: string, r2: string)
    requires IsSuffix(r1, u) && IsSuffix(r2, r1)
    ensures IsSuffix(r2, u)
    ensures Consumed(u, r2) == Consumed(u, r1) + Consumed(r1, r2)
  {
    SuffixTransitive(r2, r1, u);
    assert r1[..|r1| - |r2|] == u[|u| - |r1|..|u| - |r2|];
    assert u[..|u| - |r2|] == u[..|u| - |r1|] + u[|u| - |r1|..|u| - |r2|];
  }

  /** A token followed by the rest: what was consumed up to the rest ends with the token. */
  lemma StopGlue(u: string, tok: string, rest: string)
    requires IsSuffix(tok + rest, u)
    ensures IsSuffix(rest, u)
    ensures Consumed(u, rest) == Consumed(u, tok + rest) + tok
  {
    assert (tok + rest)[|tok|..] == rest;
    assert IsSuffix(rest, tok + rest);
    ConsumedChain(u, tok + rest, rest);
    assert Consumed(tok + rest, rest) == tok;
  }

  lemma HandlerGlue(m: string, t: string, rest: string)
    requires NoSpecial(m) && IsSuffix(rest, t)
    ensures IsSuffix(rest, m + t)
    ensures EscapeHtml(Consumed(m + t, rest)) == m + EscapeHtml(Consumed(t, rest))
  {
    assert (m + t)[|m|..] == t && (m + t)[..|m|] == m;
    ConsumedSplit(m + t, |m|, rest);
    EscapeHtmlConcat(m, Consumed(t, rest));
    EscPlain(m);
  }

  /** An opener that stays plain text consumes only itself. */
  lemma OpenerText(m: string, t: string, exact: bool)
    requires NoSpecial(m)
    ensures OpenedPrints([Text(m)], t, m, t, exact)
  {
    assert Consumed(t, t) == [];
    assert EscapeHtml([]) == [];
    assert m + EscapeHtml(Consumed(t, t)) == m;
    EscPlain(m);
    PrintsAsText(m, exact);
  }

  lemma OpenerGlue(m: string, t: string, exact: bool)
    requires NoSpecial(m)
    ensures IsSuffix(t, m + t) && PrintsAs([Text(m)], EscapeHtml(Consumed(m + t, t)), exact)
  {
    OpenerText(m, t, exact);
    HandlerGlue(m, t, t);
  }

  lemma EscSnoc(s: string, c: char)
    ensures EscapeHtml(s + [c]) == EscapeHtml(s) + EscapeHtmlChar(c)
  {
    EscapeHtmlConcat(s, [c]);
    EscChar(c);
  }

  lemma EscTwo(a: char, b: char)
    ensures EscapeHtml([a, b]) == EscapeHtmlChar(a) + EscapeHtmlChar(b)
  {
    assert [a, b][1..] == [b];
    assert [b][1..] == [];
    assert EscapeHtml([b]) == EscapeHtmlChar(b) + EscapeHtml([]);
  }

  /** The hook body, `]` and the rest. */
  lemma PlainHookGlue(t: string, c: string, ir: string)
    requires IsSuffix("]" + ir, t) && c == Consumed(t, "]" + ir)
    ensures IsSuffix(ir, t)
    ensures "[" + EscapeHtml(Consumed(t, ir)) == "[" + EscapeHtml(c) + "]"
  {
    StopGlue(t, "]", ir);
    EscSnoc(c, ']');
    Assoc("[", EscapeHtml(c), "]");
  }

  /** The hook body and `]<` without a right name tag: the `<` is given back. */
  lemma NoRightTagGlue(t: string, c: string, ir: string)
    requires IsSuffix("]<" + ir, t) && c == Consumed(t, "]<" + ir)
    ensures IsSuffix("<" + ir, t)
    ensures "[" + EscapeHtml(Consumed(t, "<" + ir)) == "[" + EscapeHtml(c) + "]"
  {
    assert "]<" + ir == "]" + ("<" + ir);
    PlainHookGlue(t, c, "<" + ir);
  }

  /** The hook body, `]<`, the right name tag of `n` characters and `|`. */
  lemma RightTagGlue(t: string, c: string, ir: string, n: nat)
    requires IsSuffix("]<" + ir, t) && c == Consumed(t, "]<" + ir)
    requires n < |ir| && ir[n] == '|'
    ensures IsSuffix(ir[n + 1..], t)
    ensures "[" + EscapeHtml(Consumed(t, ir[n + 1..])) == "[" + EscapeHtml(c) + "]" + "&lt;" + EscapeHtml(ir[..n]) + "|"
  {
    var tag, rest := ir[..n], ir[n + 1..];
    var tok := "]<" + tag + "|";
    assert tok + rest == "]<" + ir by {
      assert ir == tag + "|" + rest;
    }
    StopGlue(t, tok, rest);
    EscapeHtmlConcat(c, tok);
    EscRightTag(tag);
    FlattenRight("[", EscapeHtml(c), "]", "&lt;", EscapeHtml(tag), "|");
  }

  /** Escaping `]<tag|`. */
  lemma EscRightTag(tag: string)
    ensures EscapeHtml("]<" + tag + "|") == "]" + "&lt;" + EscapeHtml(tag) + "|"
  {
    EscSnoc("]<" + tag, '|');
    EscapeHtmlConcat("]<", tag);
    EscTwo(']', '<');
  }

  lemma FlattenRight(a: string, b: string, c: string, d: string, e: string, f: string)
    ensures a + (b + (c + d + e + f)) == a + b + c + d + e + f
  {
  }

  lemma FlattenLeft(a: string, b: string, c: string, d: string, e: string, f: string)
    ensures a + (b + (c + d) + (e + f)) == a + b + c + d + e + f
  {
  }

  /** The stop token `]<` is a `]` that leaves the `<` unconsumed. */
  lemma StopSplit(ir: string)
    ensures "]<" + ir == "]" + ("<" + ir)
  {
    assert ("]<" + ir)[1..] == "<" + ir;
  }

  /** A left name tag found at `n` is followed by `>[`. */
  lemma LeftTagOpener(t: string, n: nat)
    requires MatchLeftTag(t) == Some(n)
    ensures n + 2 <= |t| && t[n..n + 2] == ">["
  {
    assert t[n..n + 2] == [t[n], t[n + 1]];
  }

  /** `tag>[`, the hook body, `]` and the rest. */
  lemma LeftTagGlue(t: string, n: nat, c: string, ir: string)
    requires n + 2 <= |t| && t[n..n + 2] == ">["
    requires IsSuffix("]" + ir, t[n + 2..]) && c == Consumed(t[n + 2..], "]" + ir)
    ensures IsSuffix(ir, t)
    ensures "|" + EscapeHtml(Consumed(t, ir)) == "|" + EscapeHtml(t[..n]) + "&gt;" + "[" + EscapeHtml(c) + "]"
  {
    var body := t[n + 2..];
    var tag := t[..n];
    StopGlue(body, "]", ir);
    ConsumedSplit(t, n + 2, ir);
    assert t[..n + 2] == tag + ">[";
    var ec, et := EscapeHtml(c), EscapeHtml(tag);
    EscapeHtmlConcat(tag + ">[", c + "]");
    EscapeHtmlConcat(tag, ">[");
    EscTwo('>', '[');
    EscSnoc(c, ']');
    assert EscapeHtml(Consumed(t, ir)) == et + ("&gt;" + "[") + (ec + "]");
    FlattenLeft("|", et, "&gt;", "[", ec, "]");
  }

  /** `name:`, the macro code, `)` if the input has one, and the rest. */
  lemma MacroGlue(t: string, name: string, len: nat, c: string, closed: bool, s1: string)
    requires len <= |t| && t[..len] == name + ":"
    requires var q := if closed then ")" else ""; IsSuffix(q + s1, t[len..]) && c == Consumed(t[len..], q + s1)
    ensures IsSuffix(s1, "(" + t)
    ensures EscapeHtml(Consumed("(" + t, s1)) == "(" + EscapeHtml(name) + ":" + EscapeHtml(c) + (if closed then ")" else "")
  {
    var q := if closed then ")" else "";
    StopGlue(t[len..], q, s1);
    ConsumedSplit(t, len, s1);
    HandlerGlue("(", t, s1);
    assert Consumed(t, s1) == name + ":" + c + q;
    MacroEsc(name, c, q);
    Assoc5("(", EscapeHtml(name), ":", EscapeHtml(c), q);
  }

  /** Escaping `name:`, the code and the closing parenthesis, if any, piece by piece. */
  lemma MacroEsc(name: string, c: string, q: string)
    requires q == ")" || q == ""
    ensures EscapeHtml(name + ":" + c + q) == EscapeHtml(name) + ":" + EscapeHtml(c) + q
  {
    EscapeHtmlConcat(name + ":" + c, q);
    EscapeHtmlConcat(name + ":", c);
    EscSnoc(name, ':');
    EscPlain(q);
  }

  /** The link source and `]]`. */
  lemma LinkGlue(t: string, src: string, len: nat)
    requires len <= |t| && t[..len] == src + "]]" && Safe("[[" + t)
    ensures IsSuffix(t[len..], "[[" + t) && Safe(src)
    ensures EscapeHtml(Consumed("[[" + t, t[len..])) == "[[" + EscapeHtml(src) + "]]"
  {
    HandlerGlue("[[", t, t[len..]);
    assert Consumed(t, t[len..]) == src + "]]";
    EscapeHtmlConcat(src, "]]");
    EscPlain("]]");
    Assoc("[[", EscapeHtml(src), "]]");
    assert ("[[" + t)[2..2 + |src|] == src;
    SafeSlice("[[" + t, 2, 2 + |src|);
  }

  lemma SafeArrow(x: string, arrow: string, y: string)
    requires |arrow| == 2 && Safe(x + arrow + y)
    ensures Safe(x) && Safe(y)
  {
    var w := x + arrow + y;
    assert w[..|x|] == x && w[|x| + 2..] == y;
    SafeSlice(w, 0, |x|);
    SafeSuffix(w, |x| + 2);
  }

  /** The escaped link arrows. */
  lemma EscArrow(x: string, onRight: bool, y: string)
    ensures onRight ==> EscapeHtml(x + "->" + y) == EscapeHtml(x) + "-&gt;" + EscapeHtml(y)
    ensures !onRight ==> EscapeHtml(y + "<-" + x) == EscapeHtml(y) + "&lt;-" + EscapeHtml(x)
  {
    if onRight {
      EscapeHtmlConcat(x + "->", y);
      EscapeHtmlConcat(x, "->");
      EscTwo('-', '>');
    } else {
      EscapeHtmlConcat(y + "<-", x);
      EscapeHtmlConcat(y, "<-");
      EscTwo('<', '-');
    }
  }

  lemma NestedGlue(run: string, x: string, e1: string, e2: string)
    requires |run| >= 1 && run[|run| - 1] == '['
    ensures run[..|run| - 1] + ("[" + x + e1) + e2 == run + x + (e1 + e2)
  {
    assert run == run[..|run| - 1] + "[";
  }

  /** The last bracket of a run, the hooks parsed so far and the rest of the run's hooks. */
  lemma NestedTailGlue(t: string, r1: string, r2: string, run: string, x: string)
    requires IsSuffix(r1, t) && IsSuffix(r2, r1) && |run| >= 1 && run[|run| - 1] == '['
    ensures IsSuffix(r2, t)
    ensures run[..|run| - 1] + ("[" + x + EscapeHtml(Consumed(t, r1))) + EscapeHtml(Consumed(r1, r2))
      == run + x + EscapeHtml(Consumed(t, r2))
  {
    ConsumedChain(t, r1, r2);
    EscapeHtmlConcat(Consumed(t, r1), Consumed(r1, r2));
    NestedGlue(run, x, EscapeHtml(Consumed(t, r1)), EscapeHtml(Consumed(r1, r2)));
  }

  /** The hooks after the first bracket of a run print inside the first one's brackets. */
  lemma NestedTailPrints(t: string, r1: string, r2: string, nodes: seq<Node>, run: string, x: string, exact: bool)
    requires IsSuffix(r1, t) && IsSuffix(r2, r1) && |run| >= 1 && run[|run| - 1] == '['
    requires PrintsAs(nodes, run[..|run| - 1] + ("[" + x + EscapeHtml(Consumed(t, r1))) + EscapeHtml(Consumed(r1, r2)), exact)
    ensures IsSuffix(r2, t) && PrintsAs(nodes, run + x + EscapeHtml(Consumed(t, r2)), exact)
  {
    NestedTailGlue(t, r1, r2, run, x);
  }

  // ---------------------------------------------------------------------------------------
  // The hook cases of _parse_hook, stated without the tokenizer

  /** A hook opened by `[` whose body (consumed as `c`, printing as `tokens`) ended with `]`
      prints as `[` and the text it consumed. */
  lemma HookClosedPrints(t: string, tokens: seq<Node>, ir: string, c: string, exact: bool)
    requires IsSuffix("]" + ir, t) && c == Consumed(t, "]" + ir) && PrintsAs(tokens, EscapeHtml(c), exact)
    ensures OpenedPrints([Hook(tokens, None, false)], ir, "[", t, exact)
  {
    PlainHookGlue(t, c, ir);
    HookPlainPrints(tokens, EscapeHtml(c), exact);
  }

  /** The same for a body ending with `]<` and no right name tag: the `<` is not consumed. */
  lemma HookUntaggedPrints(t: string, tokens: seq<Node>, ir: string, c: string, exact: bool)
    requires IsSuffix("]<" + ir, t) && c == Consumed(t, "]<" + ir) && PrintsAs(tokens, EscapeHtml(c), exact)
    ensures OpenedPrints([Hook(tokens, None, false)], "<" + ir, "[", t, exact)
  {
    NoRightTagGlue(t, c, ir);
    HookPlainPrints(tokens, EscapeHtml(c), exact);
  }

  /** The same for a body ending with `]<` followed by a right name tag `tag|` that is not
      empty. */
  lemma HookTaggedPrints(t: string, tokens: seq<Node>, ir: string, c: string, n: nat, exact: bool)
    requires IsSuffix("]<" + ir, t) && c == Consumed(t, "]<" + ir) && PrintsAs(tokens, EscapeHtml(c), exact)
    requires MatchRightTag(ir) == Some(n) && n > 0
    ensures OpenedPrints([Hook(tokens, Some(ir[..n]), true)], ir[n + 1..], "[", t, exact)
  {
    RightTagGlue(t, c, ir, n);
    HookRightPrints(tokens, EscapeHtml(c), ir[..n], exact);
  }

  /** `|tag>[` with a tag that is not empty, the hook body (consumed as `c`, printing as
      `tokens`) and `]`. */
  lemma HookLeftCase(t: string, n: nat, tokens: seq<Node>, ir: string, c: string, exact: bool)
    requires n > 0 && n + 2 <= |t| && t[n..n + 2] == ">["
    requires IsSuffix("]" + ir, t[n + 2..]) && c == Consumed(t[n + 2..], "]" + ir)
    requires PrintsAs(tokens, EscapeHtml(c), exact)
    ensures OpenedPrints([Hook(tokens, Some(t[..n]), false)], ir, "|", t, exact)
  {
    LeftTagGlue(t, n, c, ir);
    HookLeftPrints(tokens, EscapeHtml(c), t[..n], exact);
  }

  // ---------------------------------------------------------------------------------------
  // One step of tokenize, stated without the tokenizer

  /** The text before the token found at `p` is appended as a Text node (when not empty). */
  lemma PrefixPrints(acc: seq<Node>, a: string, s: string, p: nat, exact: bool)
    requires p <= |s| && PrintsAs(acc, a, exact)
    ensures PrintsAs(if p > 0 then Merged(acc, Text(s[..p])) else acc, a + EscapeHtml(s[..p]), exact)
  {
    if p > 0 {
      PrintsAsMerged(acc, a, s[..p], exact);
    } else {
      assert EscapeHtml(s[..p]) == [];
      assert a + EscapeHtml(s[..p]) == a;
    }
  }

  /** A token at `p`: the token and what follows it are a suffix of the text, and what comes
      before the token is the text before `p`. */
  lemma TokenStep(s: string, p: nat, tok: string)
    requires p + |tok| <= |s| && s[..p + |tok|] == s[..p] + tok
    ensures IsSuffix(tok + s[p + |tok|..], s) && Consumed(s, tok + s[p + |tok|..]) == s[..p]
  {
    assert s == s[..p + |tok|] + s[p + |tok|..];
  }

  /** Safe text holds no backtick. */
  lemma NoBacktick(s: string, p: nat)
    requires p < |s| && Safe(s)
    ensures s[p] != '`'
  {
    assert !OccursAt(s, "`", p);
    assert s[p..p + 1] == [s[p]];
  }

  /** The text consumed up to `tail` is the text before the handler's input `u`, then what
      the handler consumed from `u` up to `r1`, then what the rest of the run consumed. */
  lemma ResumeGlue(s: string, u: string, r1: string, tail: string, a: string)
    requires IsSuffix(u, s) && IsSuffix(r1, u) && IsSuffix(tail, r1)
    ensures IsSuffix(tail, s)
    ensures a + EscapeHtml(Consumed(s, tail))
      == a + EscapeHtml(Consumed(s, u)) + EscapeHtml(Consumed(u, r1)) + EscapeHtml(Consumed(r1, tail))
  {
    ConsumedChain(s, u, r1);
    ConsumedChain(s, r1, tail);
    EscapeHtmlConcat(Consumed(s, r1), Consumed(r1, tail));
    EscapeHtmlConcat(Consumed(s, u), Consumed(u, r1));
    Assoc4(a, EscapeHtml(Consumed(s, u)), EscapeHtml(Consumed(u, r1)), EscapeHtml(Consumed(r1, tail)));
  }

  /** In safe text, the name after `(` is never a variable (`($`). */
  lemma MacroNamePlain(t: string)
    requires Safe("(" + t) && MatchMacroName(t).Some?
    ensures MatchMacroName(t).value.0.PlainName?
  {
    var u := "(" + t;
    assert !OccursAt(u, "($", 0);
    assert u[..2] == "(" + [t[0]];
  }

  /** A suffix of safe text is safe. */
  lemma SafeRest(u: string, s1: string)
    requires Safe(u) && IsSuffix(s1, u)
    ensures Safe(s1)
  {
    SafeTail(u[..|u| - |s1|], s1);
  }

  // ---------------------------------------------------------------------------------------
  // What a run and a handler print

  /** A tokenize run over `s`, after tokens that print as `a`, consumed `s` up to its stop
      token and rest, and its tokens print as `a` followed by the escaped consumed text. */
  predicate RunPrints(r: Result<Tokenized>, s: string, a: string, exact: bool)
  {
    match r
    case Fail(_) => true
    case Ok(v) =>
      var tail := StopText(v.stop) + v.rest;
      IsSuffix(tail, s) && PrintsAs(v.tokens, a + EscapeHtml(Consumed(s, tail)), exact)
  }

  /** A handler over `u` (its start token and the text after it) consumed `u` up to its
      rest, and its tokens print as the escaped consumed text. */
  predicate HandlerPrints(h: Result<Handled>, u: string, exact: bool)
  {
    h.Ok? ==> IsSuffix(h.value.rest, u) && PrintsAs(h.value.nodes, EscapeHtml(Consumed(u, h.value.rest)), exact)
  }

  /** A handler result over the text `t` after an opener `m` consumed `t` up to its rest,
      and its tokens print as `m` and the escaped text they consumed. */
  predicate HookPrints(h: Result<Handled>, m: string, t: string, exact: bool)
  {
    h.Ok? ==> OpenedPrints(h.value.nodes, h.value.rest, m, t, exact)
  }
}
