/** The modify_text visitor of the node classes: a text-modifying function is applied to
    the prose of a token tree and to the decoded contents of the string literals inside
    macro code, and to nothing else. */
module TextRewrite {
  import opened Base
  import opened Escaping
  import opened Nodes

  // ---------------------------------------------------------------------------------------
  // String literals in macro code (harlowe.py:425-446)

  predicate IsQuote(c: char) { c == '"' || c == '\'' }

  predicate NoBackslash(s: string) { '\\' !in s }

  predicate NoQuote(s: string) { '"' !in s && '\'' !in s }

  /** Index of the quote mark `q` that closes the shortest literal whose contents start at
      index `i` of `t`: units are a backslash with the character after it, or any one
      character; no unit holds a newline. The backslash test sits in a lookahead, which the
      regular expression engine never re-enters, so a backslash before a newline ends the
      attempt. None when the literal is not closed. */
  function LiteralEnd(t: string, i: nat, q: char): (r: Option<nat>)
    requires i <= |t|
    ensures r.Some? ==> i <= r.value < |t| && t[r.value] == q
    decreases |t| - i
  {
    if i == |t| || t[i] == '\n' then None
    else if t[i] == q then Some(i)
    else if t[i] == '\\' then
      if i + 1 < |t| && t[i + 1] != '\n' then LiteralEnd(t, i + 2, q) else None
    else LiteralEnd(t, i + 1, q)
  }

  /** The contents of a closed literal hold no newline, and each quote mark `q` in them
      follows a backslash. */
  lemma {:induction false} LiteralContents(t: string, i: nat, q: char)
    requires i <= |t| && LiteralEnd(t, i, q).Some?
    ensures forall j :: i <= j < LiteralEnd(t, i, q).value ==> t[j] != '\n'
    ensures forall j :: i <= j < LiteralEnd(t, i, q).value && t[j] == q ==> i < j && t[j - 1] == '\\'
    decreases |t| - i
  {
    if t[i] != q {
      var k := if t[i] == '\\' then 2 else 1;
      LiteralContents(t, i + k, q);
    }
  }

  /** string_re.sub over one string of macro code: each literal is replaced by the same
      quote mark around the escaped transformation of its decoded contents; an opening quote
      that is never closed is kept, and scanning resumes after it. */
  function RewriteLiterals(s: string, f: string -> string, decode: string -> string): string
    decreases |s|, 0
  {
    if s == [] then [] else RewriteFrom(s[0], s[1..], f, decode)
  }

  /** The rewrite of `[ch] + t`: a literal when `ch` opens one that `t` closes, otherwise
      `ch` kept as it is. */
  function RewriteFrom(ch: char, t: string, f: string -> string, decode: string -> string): string
    decreases |t|, 1
  {
    if IsQuote(ch) then
      match LiteralEnd(t, 0, ch)
      case Some(n) =>
        [ch] + EscapeString(f(UnescapeString(t[..n], decode)), ch) + [ch]
        + RewriteLiterals(t[n + 1..], f, decode)
      case None => [ch] + RewriteLiterals(t, f, decode)
    else [ch] + RewriteLiterals(t, f, decode)
  }

  /** Text without quote marks is left as it is. */
  lemma {:induction false} RewriteNoQuotes(s: string, f: string -> string, decode: string -> string)
    requires NoQuote(s)
    ensures RewriteLiterals(s, f, decode) == s
    decreases |s|
  {
    if s != [] {
      RewriteNoQuotes(s[1..], f, decode);
      assert RewriteFrom(s[0], s[1..], f, decode) == [s[0]] + RewriteLiterals(s[1..], f, decode);
      assert s == [s[0]] + s[1..];
    }
  }

  /** An occurrence of `a + b` is an occurrence of `a` followed by one of `b`. */
  lemma OccursAtSplit(t: string, a: string, b: string, i: nat)
    requires OccursAt(t, a + b, i)
    ensures OccursAt(t, a, i) && OccursAt(t, b, i + |a|)
  {
    SliceOfSlice(t, i, i + |a + b|, 0, |a|);
    SliceOfSlice(t, i, i + |a + b|, |a|, |a + b|);
  }

  /** The scan steps over one escaped character that is not a newline. */
  lemma LiteralSkip(t: string, i: nat, c: char, q: char)
    requires IsQuote(q) && c != '\n' && OccursAt(t, EscapeStringChar(c, q), i)
    ensures LiteralEnd(t, i, q) == LiteralEnd(t, i + |EscapeStringChar(c, q)|, q)
  {
    var e := EscapeStringChar(c, q);
    assert t[i] == t[i..i + |e|][0];
    if c == '\\' || c == q {
      assert t[i] == '\\';
      assert t[i + 1] == t[i..i + |e|][1];
    }
  }

  /** A literal written by the rewrite is read back whole by the next scan: its escaped
      contents never close it early. */
  lemma {:induction false} EscapedLiteralCloses(y: string, q: char, t: string, i: nat)
    requires IsQuote(q) && NoNewline(y) && OccursAt(t, EscapeString(y, q) + [q], i)
    ensures LiteralEnd(t, i, q) == Some(i + |EscapeString(y, q)|)
    decreases |y|
  {
    if y == [] {
      assert EscapeString(y, q) + [q] == [q];
      assert t[i..i + 1][0] == t[i];
    } else {
      var e := EscapeStringChar(y[0], q);
      var w := EscapeString(y[1..], q) + [q];
      assert EscapeString(y, q) == e + EscapeString(y[1..], q);
      assert EscapeString(y, q) + [q] == e + w;
      OccursAtSplit(t, e, w, i);
      LiteralSkip(t, i, y[0], q);
      EscapedLiteralCloses(y[1..], q, t, i + |e|);
    }
  }

  /** One step of the rewrite at a closed literal with contents `c`. */
  lemma RewriteAtLiteral(q: char, c: string, rest: string, f: string -> string, decode: string -> string)
    requires IsQuote(q) && LiteralEnd(c + [q] + rest, 0, q) == Some(|c|)
    ensures RewriteLiterals([q] + c + [q] + rest, f, decode)
      == [q] + EscapeString(f(UnescapeString(c, decode)), q) + [q] + RewriteLiterals(rest, f, decode)
  {
    var t := c + [q] + rest;
    assert ([q] + t)[1..] == t;
    assert t[..|c|] == c;
    assert t[|c| + 1..] == rest;
    assert [q] + c + [q] + rest == [q] + t;
  }

  /** One step of the rewrite at a character that does not open a closed literal. */
  lemma RewriteAtChar(ch: char, t: string, f: string -> string, decode: string -> string)
    requires !IsQuote(ch) || LiteralEnd(t, 0, ch).None?
    ensures RewriteLiterals([ch] + t, f, decode) == [ch] + RewriteLiterals(t, f, decode)
  {
    assert ([ch] + t)[1..] == t;
  }

  /** Rewriting a literal the rewrite produced transforms the very contents it was given:
      the escape and the decode cancel, whatever the decoder of other escapes. */
  lemma RewriteRewritten(y: string, q: char, rest: string, g: string -> string, decode: string -> string)
    requires IsQuote(q) && NoNewline(y)
    ensures RewriteLiterals([q] + EscapeString(y, q) + [q] + rest, g, decode)
      == [q] + EscapeString(g(y), q) + [q] + RewriteLiterals(rest, g, decode)
  {
    var e := EscapeString(y, q);
    var t := e + [q] + rest;
    assert t[0..|e + [q]|] == e + [q];
    EscapedLiteralCloses(y, q, t, 0);
    RewriteAtLiteral(q, e, rest, g, decode);
    UnescapeEscapeString(y, q, decode);
  }

  /** Text without backslashes keeps its literals when the transformation is the identity:
      their contents decode and encode to themselves. */
  lemma {:induction false} RewriteIdentity(s: string, f: string -> string, decode: string -> string)
    requires NoBackslash(s) && forall x :: f(x) == x
    ensures RewriteLiterals(s, f, decode) == s
    decreases |s|, 0
  {
    if s != [] {
      RewriteFromIdentity(s[0], s[1..], f, decode);
      assert s == [s[0]] + s[1..];
    }
  }

  lemma {:induction false} RewriteFromIdentity(ch: char, t: string, f: string -> string, decode: string -> string)
    requires ch != '\\' && NoBackslash(t) && forall x :: f(x) == x
    ensures RewriteFrom(ch, t, f, decode) == [ch] + t
    decreases |t|, 1
  {
    if IsQuote(ch) && LiteralEnd(t, 0, ch).Some? {
      var n := LiteralEnd(t, 0, ch).value;
      var c, rest := t[..n], t[n + 1..];
      PlainLiteral(t, 0, ch);
      assert c == t[0..n];
      PlainUnescape(c, decode);
      PlainEscape(c, ch);
      assert t == c + [ch] + rest;
      RewriteIdentity(rest, f, decode);
      IdentityAtLiteral(ch, c, rest, f, decode);
    } else {
      RewriteIdentity(t, f, decode);
    }
  }

  /** The identity step at a literal whose contents decode and encode to themselves. */
  lemma IdentityAtLiteral(q: char, c: string, rest: string, f: string -> string, decode: string -> string)
    requires IsQuote(q) && LiteralEnd(c + [q] + rest, 0, q) == Some(|c|) && forall x :: f(x) == x
    requires EscapeString(UnescapeString(c, decode), q) == c && RewriteLiterals(rest, f, decode) == rest
    ensures RewriteFrom(q, c + [q] + rest, f, decode) == [q] + (c + [q] + rest)
  {
    var t := c + [q] + rest;
    assert t[..|c|] == c;
    assert t[|c| + 1..] == rest;
  }

  /** Without backslashes a literal's contents hold neither a backslash nor its quote mark. */
  lemma {:induction false} PlainLiteral(t: string, i: nat, q: char)
    requires i <= |t| && NoBackslash(t) && LiteralEnd(t, i, q).Some?
    ensures var c := t[i..LiteralEnd(t, i, q).value]; NoBackslash(c) && q !in c
    decreases |t| - i
  {
    var n := LiteralEnd(t, i, q).value;
    if n > i {
      PlainLiteral(t, i + 1, q);
      assert t[i..n] == [t[i]] + t[i + 1..n];
    }
  }

  /** Decoding leaves text without backslashes alone. */
  lemma {:induction false} PlainUnescape(c: string, decode: string -> string)
    requires NoBackslash(c)
    ensures UnescapeString(c, decode) == c
    decreases |c|
  {
    if c != [] {
      PlainUnescape(c[1..], decode);
      assert c == [c[0]] + c[1..];
    }
  }

  /** Escaping leaves text without backslashes and the quote mark alone. */
  lemma {:induction false} PlainEscape(c: string, q: char)
    requires NoBackslash(c) && q !in c
    ensures EscapeString(c, q) == c
    decreases |c|
  {
    if c != [] {
      PlainEscape(c[1..], q);
      assert EscapeString(c, q) == EscapeStringChar(c[0], q) + EscapeString(c[1..], q);
      assert c == [c[0]] + c[1..];
    }
  }

  // ---------------------------------------------------------------------------------------
  // The tree with its prose erased

  /** A node with the text of every string in it emptied: what modify_text must not change. */
  function Shape(n: Node): (r: Node)
    decreases n
  {
    match n
    case Text(_) => Text([])
    case Variable(_) => n
    case Hook(c, tag, onRight) => Hook(ShapeList(c), tag, onRight)
    case Link(t, p, onRight) => Link(ShapeList(t), p, onRight)
    case Macro(name, canonical, code) => Macro(name, canonical, ShapeList(code))
  }

  function ShapeList(l: seq<Node>): (r: seq<Node>)
    decreases l
  {
    if l == [] then [] else [Shape(l[0])] + ShapeList(l[1..])
  }

  // ---------------------------------------------------------------------------------------
  // modify_text (harlowe.py:261-272, 309-318, 362-376, 412-452)

  /** A node after modify_text(f). Variables are returned as they are; a hook rewrites its
      contents and keeps its nametag; a link rewrites its text only when it has a passage
      name (an empty name list counts as none) and never touches the name; a macro rewrites
      its code and keeps both names. */
  function ModifyNode(n: Node, f: string -> string, decode: string -> string): (r: Node)
    ensures n.Text? ==> r == Text(f(n.text))
    ensures n.Variable? ==> r == n
    ensures n.Link? && !(n.passageName.Name? && n.passageName.nodes != []) ==> r == n
    decreases n
  {
    match n
    case Text(t) => Text(f(t))
    case Variable(_) => n
    case Hook(c, tag, onRight) => Hook(ModifyList(c, f, decode), tag, onRight)
    case Link(t, p, onRight) =>
      if p.Name? && p.nodes != [] then Link(ModifyList(t, f, decode), p, onRight) else n
    case Macro(name, canonical, code) => Macro(name, canonical, ModifyCode(code, f, decode))
  }

  /** The list comprehension of the hook, link and passage versions: strings become f of
      themselves, every other item modifies itself. */
  function ModifyList(l: seq<Node>, f: string -> string, decode: string -> string): (r: seq<Node>)
    ensures |r| == |l|
    ensures forall i :: 0 <= i < |l| ==> r[i] == ModifyNode(l[i], f, decode)
    ensures forall i :: 0 <= i < |l| && l[i].Text? ==> r[i] == Text(f(l[i].text))
    decreases l
  {
    if l == [] then [] else [ModifyNode(l[0], f, decode)] + ModifyList(l[1..], f, decode)
  }

  /** A macro's new code: strings have their literals rewritten, other items modify
      themselves. */
  function ModifyCode(l: seq<Node>, f: string -> string, decode: string -> string): (r: seq<Node>)
    ensures |r| == |l|
    ensures forall i :: 0 <= i < |l| ==>
      r[i] == (if l[i].Text? then Text(RewriteLiterals(l[i].text, f, decode)) else ModifyNode(l[i], f, decode))
    decreases l
  {
    if l == [] then []
    else
      var head := if l[0].Text? then Text(RewriteLiterals(l[0].text, f, decode)) else ModifyNode(l[0], f, decode);
      [head] + ModifyCode(l[1..], f, decode)
  }

  /** modify_text changes no variable, nametag, passage name or macro name, and no part of
      the tree's structure: only the text of strings. */
  lemma {:induction false} ModifyKeepsShape(n: Node, f: string -> string, decode: string -> string)
    ensures Shape(ModifyNode(n, f, decode)) == Shape(n)
    decreases n
  {
    match n
    case Text(_) =>
    case Variable(_) =>
    case Hook(c, _, _) => ModifyListKeepsShape(c, f, decode);
    case Link(t, p, _) =>
      if p.Name? && p.nodes != [] {
        ModifyListKeepsShape(t, f, decode);
      }
    case Macro(_, _, code) => ModifyCodeKeepsShape(code, f, decode);
  }

  lemma {:induction false} ModifyListKeepsShape(l: seq<Node>, f: string -> string, decode: string -> string)
    ensures ShapeList(ModifyList(l, f, decode)) == ShapeList(l)
    decreases l
  {
    if l != [] {
      ModifyKeepsShape(l[0], f, decode);
      ModifyListKeepsShape(l[1..], f, decode);
      var m := ModifyList(l, f, decode);
      assert m[1..] == ModifyList(l[1..], f, decode);
    }
  }

  lemma {:induction false} ModifyCodeKeepsShape(l: seq<Node>, f: string -> string, decode: string -> string)
    ensures ShapeList(ModifyCode(l, f, decode)) == ShapeList(l)
    decreases l
  {
    if l != [] {
      if !l[0].Text? {
        ModifyKeepsShape(l[0], f, decode);
      }
      ModifyCodeKeepsShape(l[1..], f, decode);
      var m := ModifyCode(l, f, decode);
      assert m[1..] == ModifyCode(l[1..], f, decode);
    }
  }

  /** A list modify_text rebuilt has its strings where the old one had them, so no two
      strings become neighbours. */
  lemma ModifyListNoAdjacentText(l: seq<Node>, f: string -> string, decode: string -> string)
    requires NoAdjacentText(l)
    ensures NoAdjacentText(ModifyList(l, f, decode))
  {
    var r := ModifyList(l, f, decode);
    forall i | 0 <= i < |l|
      ensures r[i].Text? == l[i].Text?
    {
      ModifyKeepsShape(l[i], f, decode);
    }
  }

  /** modify_text keeps every list of the tree flat: strings stay strings and nothing else
      becomes one, at every depth. */
  lemma {:induction false} ModifyDeepFlat(n: Node, f: string -> string, decode: string -> string)
    requires FlatNode(n)
    ensures FlatNode(ModifyNode(n, f, decode))
    decreases n
  {
    match n
    case Text(_) =>
    case Variable(_) =>
    case Hook(c, _, _) => ModifyListDeepFlat(c, f, decode);
    case Link(t, p, _) =>
      if p.Name? && p.nodes != [] {
        ModifyListDeepFlat(t, f, decode);
      }
    case Macro(_, _, code) => ModifyCodeDeepFlat(code, f, decode);
  }

  lemma {:induction false} ModifyListDeepFlat(l: seq<Node>, f: string -> string, decode: string -> string)
    requires DeepFlat(l)
    ensures DeepFlat(ModifyList(l, f, decode))
    decreases l
  {
    ModifyListNoAdjacentText(l, f, decode);
    var r := ModifyList(l, f, decode);
    forall i | 0 <= i < |l|
      ensures FlatNode(r[i])
    {
      ModifyDeepFlat(l[i], f, decode);
    }
  }

  lemma {:induction false} ModifyCodeDeepFlat(l: seq<Node>, f: string -> string, decode: string -> string)
    requires DeepFlat(l)
    ensures DeepFlat(ModifyCode(l, f, decode))
    decreases l
  {
    var r := ModifyCode(l, f, decode);
    forall i | 0 <= i < |l|
      ensures r[i].Text? == l[i].Text? && FlatNode(r[i])
    {
      if !l[i].Text? {
        ModifyKeepsShape(l[i], f, decode);
        ModifyDeepFlat(l[i], f, decode);
      }
    }
  }

  /** HarloweMacro.modify_text's loop: new_code is built item by item. */
  method ModifyMacroCode(code: seq<Node>, f: string -> string, decode: string -> string)
    returns (newCode: seq<Node>)
    ensures newCode == ModifyCode(code, f, decode)
  {
    newCode := [];
    ghost var spec := ModifyCode(code, f, decode);
    for i := 0 to |code|
      invariant newCode == spec[..i]
    {
      var item := code[i];
      if item.Text? {
        newCode := newCode + [Text(RewriteLiterals(item.text, f, decode))];
      } else {
        newCode := newCode + [ModifyNode(item, f, decode)];
      }
      assert spec[..i + 1] == spec[..i] + [spec[i]];
    }
    assert spec[..|code|] == spec;
  }

  // ---------------------------------------------------------------------------------------
  // The visitor as a whole

  /** Every string that sits directly in some macro's code, anywhere in the tree, meets `p`. */
  predicate CodeTexts(n: Node, p: string -> bool)
    decreases n
  {
    match n
    case Text(_) => true
    case Variable(_) => true
    case Hook(c, _, _) => CodeTextsList(c, p)
    case Link(t, q, _) => CodeTextsList(t, p)
    case Macro(_, _, code) => CodeTextsCode(code, p)
  }

  predicate CodeTextsList(l: seq<Node>, p: string -> bool)
    decreases l
  {
    l != [] ==> CodeTexts(l[0], p) && CodeTextsList(l[1..], p)
  }

  predicate CodeTextsCode(l: seq<Node>, p: string -> bool)
    decreases l
  {
    l != [] ==> (if l[0].Text? then p(l[0].text) else CodeTexts(l[0], p)) && CodeTextsCode(l[1..], p)
  }

  /** modify_text with a function that returns its argument changes nothing, provided macro code holds no
      backslash (an escape such as \n would be rewritten to the character it stands for). */
  lemma {:induction false} ModifyIdentity(n: Node, f: string -> string, decode: string -> string)
    requires CodeTexts(n, NoBackslash) && forall x :: f(x) == x
    ensures ModifyNode(n, f, decode) == n
    decreases n
  {
    match n
    case Text(_) =>
    case Variable(_) =>
    case Hook(c, _, _) => ModifyListIdentity(c, f, decode);
    case Link(t, _, _) => ModifyListIdentity(t, f, decode);
    case Macro(_, _, code) => ModifyCodeIdentity(code, f, decode);
  }

  lemma {:induction false} ModifyListIdentity(l: seq<Node>, f: string -> string, decode: string -> string)
    requires CodeTextsList(l, NoBackslash) && forall x :: f(x) == x
    ensures ModifyList(l, f, decode) == l
    decreases l
  {
    if l != [] {
      ModifyIdentity(l[0], f, decode);
      ModifyListIdentity(l[1..], f, decode);
      assert l == [l[0]] + l[1..];
    }
  }

  lemma {:induction false} ModifyCodeIdentity(l: seq<Node>, f: string -> string, decode: string -> string)
    requires CodeTextsCode(l, NoBackslash) && forall x :: f(x) == x
    ensures ModifyCode(l, f, decode) == l
    decreases l
  {
    if l != [] {
      if l[0].Text? {
        RewriteIdentity(l[0].text, f, decode);
      } else {
        ModifyIdentity(l[0], f, decode);
      }
      ModifyCodeIdentity(l[1..], f, decode);
      assert l == [l[0]] + l[1..];
    }
  }

  /** Two passes of modify_text, with f and then g, are one pass with h, their composition,
      provided macro code
      holds no quote mark (so no literal is rewritten). */
  lemma {:induction false} ModifyCompose(n: Node, f: string -> string, g: string -> string, h: string -> string, decode: string -> string)
    requires CodeTexts(n, NoQuote) && forall x :: h(x) == g(f(x))
    ensures ModifyNode(ModifyNode(n, f, decode), g, decode) == ModifyNode(n, h, decode)
    decreases n
  {
    match n
    case Text(_) =>
    case Variable(_) =>
    case Hook(c, _, _) => ModifyListCompose(c, f, g, h, decode);
    case Link(t, p, _) =>
      if p.Name? && p.nodes != [] {
        ModifyListCompose(t, f, g, h, decode);
      }
    case Macro(_, _, code) => ModifyCodeCompose(code, f, g, h, decode);
  }

  lemma {:induction false} ModifyListCompose(l: seq<Node>, f: string -> string, g: string -> string, h: string -> string, decode: string -> string)
    requires CodeTextsList(l, NoQuote) && forall x :: h(x) == g(f(x))
    ensures ModifyList(ModifyList(l, f, decode), g, decode) == ModifyList(l, h, decode)
    decreases l
  {
    if l != [] {
      ModifyCompose(l[0], f, g, h, decode);
      ModifyListCompose(l[1..], f, g, h, decode);
      var m := ModifyList(l, f, decode);
      assert m == [m[0]] + m[1..];
    }
  }

  lemma {:induction false} ModifyCodeCompose(l: seq<Node>, f: string -> string, g: string -> string, h: string -> string, decode: string -> string)
    requires CodeTextsCode(l, NoQuote) && forall x :: h(x) == g(f(x))
    ensures ModifyCode(ModifyCode(l, f, decode), g, decode) == ModifyCode(l, h, decode)
    decreases l
  {
    if l != [] {
      if l[0].Text? {
        RewriteNoQuotes(l[0].text, f, decode);
        RewriteNoQuotes(l[0].text, g, decode);
        RewriteNoQuotes(l[0].text, h, decode);
      } else {
        ModifyCompose(l[0], f, g, h, decode);
      }
      ModifyCodeCompose(l[1..], f, g, h, decode);
      var m := ModifyCode(l, f, decode);
      assert m == [m[0]] + m[1..];
    }
  }
}
