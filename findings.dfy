/** Two places where harlowe.py does not do what it evidently means to: a hook named on both
    sides loses its left name, and verbatim text drops the input after its closing backtick.
    Each is shown as written, on an input that exhibits it, and next to the behaviour the
    code evidently intends. */
module Findings {
  import opened Base
  import opened Escaping
  import opened Scanners
  import opened Nodes
  import opened Tokenizer
  import opened ParseFacts
  import opened Lossless
  import opened RoundTripParts
  import opened PrintExamples
  import opened Shapes

  // ---------------------------------------------------------------------------------------
  // A hook named on both sides (harlowe.py:471-494, 298-307)

  /** The body `x]<b|` of a hook closes with a right name tag `b`, whatever the left one. */
  lemma RightTagBody(nametag: Option<string>, x: string, b: string, t: string)
    requires x != [] && Untriggered(x, HookStop)
    requires forall i :: 0 <= i < |b| ==> IsTagChar(b[i])
    requires |x + ("]<" + (b + "|"))| <= |t|
    ensures TokenizeFrom([], x + ("]<" + (b + "|")), HookStop) == Ok(Tokenized([Text(x)], Some("]<"), b + "|"))
    ensures MatchRightTag(b + "|") == Some(|b|)
    ensures HookBody("|", nametag, x + ("]<" + (b + "|")), t) == Ok(Handled([Hook([Text(x)], Some(b), true)], []))
  {
    var tail := b + "|";
    TextThenStop([], x, "]<", tail, HookStop);
    assert x + "]<" + tail == x + ("]<" + tail);
    assert Merged([], Text(x)) == [Text(x)];
    TagRun(b, "|");
    assert tail[|b|] == '|';
    HookBodyTagged("|", nametag, x + ("]<" + tail), t, |b|);
    assert tail[..|b|] == b && tail[|b| + 1..] == [];
  }

  /** After `|`, the left tag `a` and `>[` lead to the body. */
  lemma LeftTagOpens(a: string, body: string)
    requires forall i :: 0 <= i < |a| ==> IsTagChar(a[i])
    ensures MatchLeftTag(a + (">[" + body)) == Some(|a|)
    ensures (a + (">[" + body))[..|a|] == a && (a + (">[" + body))[|a| + 2..] == body
  {
    var t := a + (">[" + body);
    TagRun(a, ">[" + body);
    assert t[|a|] == '>' && t[|a| + 1] == '[';
  }

  /** `|a>[x]<b|`: the right name replaces the left one, which is gone from the token. */
  lemma BothTagsHook(a: string, x: string, b: string)
    requires x != [] && Untriggered(x, HookStop)
    requires forall i :: 0 <= i < |a| ==> IsTagChar(a[i])
    requires forall i :: 0 <= i < |b| ==> IsTagChar(b[i])
    ensures TokenizeFrom([], "|" + (a + (">[" + (x + ("]<" + (b + "|"))))), NoStop)
      == Ok(Tokenized([Hook([Text(x)], Some(b), true)], None, []))
  {
    var body := x + ("]<" + (b + "|"));
    var t := a + (">[" + body);
    LeftTagOpens(a, body);
    ParseHookLeft(t, |a|);
    RightTagBody(Some(a), x, b, t);
    BarWhole(t, Hook([Text(x)], Some(b), true));
  }

  /** The same input breaks the condition the round trip needs: its hook drops a tag. */
  lemma BothTagsNotKept(a: string, x: string, b: string)
    requires x != [] && Untriggered(x, HookStop)
    requires forall i :: 0 <= i < |a| ==> IsTagChar(a[i])
    requires forall i :: 0 <= i < |b| ==> IsTagChar(b[i])
    ensures !KeepsTags("|" + (a + (">[" + (x + ("]<" + (b + "|"))))))
  {
    var body := x + ("]<" + (b + "|"));
    var t := a + (">[" + body);
    var s := "|" + t;
    assert !HookKeeps("|", t, false) by {
      LeftTagOpens(a, body);
      RightTagBody(Some(a), x, b, t);
      assert !BodyKeeps(Some(a), body, false);
    }
    assert !StartKeeps(BarStart, "|", t, NoStop, |s|, false) by {
      assert !HandlerKeeps(BarStart, "|", t, false);
    }
    CharTrigger('|', BarStart, t);
    assert TriggerAt(s, 0, NoStop) == Start(BarStart, "|");
    assert s[..0] == [] && s[0] == '|';
    FindTriggerFirst(s, 0, NoStop);
    assert s[0 + |"|"|..] == t;
    assert !AtKeeps(s, 0, NoStop, false);
  }

  /** And its token prints without the left name. */
  lemma BothTagsPrint(x: string, b: string)
    requires NoSpecial(x) && b != []
    requires forall i :: 0 <= i < |b| ==> IsTagChar(b[i])
    ensures Print([Hook([Text(x)], Some(b), true)]) == Some("[" + x + "]" + "&lt;" + b + "|")
  {
    PrintSingle(Hook([Text(x)], Some(b), true));
    HookOfText(x, b, true);
    EscPlain(x);
    EscPlain(b);
  }

  /** So printing does not give the escaped input back: the output starts with the hook's
      `[` where the escaped input starts with `|`. */
  lemma BothTagsLosesLeft(a: string, x: string, b: string)
    requires NoSpecial(x) && b != []
    requires forall i :: 0 <= i < |b| ==> IsTagChar(b[i])
    ensures Print([Hook([Text(x)], Some(b), true)])
      != Some(EscapeHtml("|" + (a + (">[" + (x + ("]<" + (b + "|")))))))
  {
    BothTagsPrint(x, b);
    EscapedBarFirst(a + (">[" + (x + ("]<" + (b + "|")))));
    assert ("[" + x + "]" + "&lt;" + b + "|")[0] == '[';
  }

  /** The escaped text of an input that starts with `|` starts with `|`. */
  lemma EscapedBarFirst(t: string)
    ensures EscapeHtml("|" + t) != [] && EscapeHtml("|" + t)[0] == '|'
  {
    EscapeHtmlConcat("|", t);
    assert EscapeHtml("|") == "|";
  }

  /** The input `|a>[x]<b|` itself. */
  lemma BothTagsExample(a: string, x: string, b: string)
    requires a == "a" && x == "x" && b == "b"
    ensures TokenizeFrom([], "|" + (a + (">[" + (x + ("]<" + (b + "|"))))), NoStop)
      == Ok(Tokenized([Hook([Text(x)], Some(b), true)], None, []))
    ensures !KeepsTags("|" + (a + (">[" + (x + ("]<" + (b + "|"))))))
    ensures Print([Hook([Text(x)], Some(b), true)]) == Some("[x]&lt;b|")
    ensures Some("[x]&lt;b|") != Some(EscapeHtml("|" + (a + (">[" + (x + ("]<" + (b + "|")))))))
  {
    assert !IsTrigger(x[0], HookStop);
    assert "[" + x + "]" + "&lt;" + b + "|" == "[x]&lt;b|";
    BothTagsHook(a, x, b);
    BothTagsNotKept(a, x, b);
    BothTagsPrint(x, b);
    BothTagsLosesLeft(a, x, b);
  }

  /** The hook body as the code evidently intends: a right name tag is taken only when the
      hook has no left one. After a left tag, the `<` that follows `]` stays in the input, as
      it already does after a `]<` that no tag follows. */
  function HookBodyIntended(m: string, nametag: Option<string>, body: string, t: string): (r: Result<Handled>)
    requires |body| <= |t|
    ensures r.Ok? ==> |r.value.nodes| == 1 && |r.value.rest| <= |t|
    ensures nametag.None? ==> r == HookBody(m, nametag, body, t)
    ensures r.Ok? && nametag.Some? && r.value.nodes[0].Hook? ==>
      r.value.nodes[0].nametag == nametag && !r.value.nodes[0].tagOnRight
  {
    var inner :- TokenizeFrom([], body, HookStop);
    if inner.stop.None? then Ok(Handled([Text(m)], t))
    else if inner.stop.value == "]<" then
      if nametag.Some? then Ok(Handled([Hook(inner.tokens, nametag, false)], "<" + inner.rest))
      else
        match MatchRightTag(inner.rest)
        case Some(n) => Ok(Handled([Hook(inner.tokens, Some(inner.rest[..n]), true)], inner.rest[n + 1..]))
        case None => Ok(Handled([Hook(inner.tokens, nametag, false)], "<" + inner.rest))
    else Ok(Handled([Hook(inner.tokens, nametag, false)], inner.rest))
  }

  /** _parse_hook with the corrected body: a hook opened by `[` is handled as before, and a
      hook opened by a bar keeps the left tag it was written with. */
  function ParseHookIntended(m: string, t: string): (r: Result<Handled>)
    requires m == "[" || m == "|"
    ensures r.Ok? ==> |r.value.nodes| == 1 && |r.value.rest| <= |t|
    ensures m == "[" ==> r == ParseHook(m, t)
    ensures r.Ok? && m == "|" && r.value.nodes[0].Hook? ==>
      MatchLeftTag(t).Some? && r.value.nodes[0].nametag == Some(t[..MatchLeftTag(t).value])
      && !r.value.nodes[0].tagOnRight
  {
    if m == "|" then
      match MatchLeftTag(t)
      case None => Ok(Handled([Text(m)], t))
      case Some(n) => HookBodyIntended(m, Some(t[..n]), t[n + 2..], t)
    else HookBodyIntended(m, None, t, t)
  }

  /** With a left tag, the body `x]<w` closes at `]` and leaves `<w` in the input. */
  lemma IntendedLeftBody(a: string, x: string, w: string, t: string)
    requires x != [] && Untriggered(x, HookStop)
    requires |x + ("]<" + w)| <= |t|
    ensures HookBodyIntended("|", Some(a), x + ("]<" + w), t) == Ok(Handled([Hook([Text(x)], Some(a), false)], "<" + w))
  {
    TextThenStop([], x, "]<", w, HookStop);
    assert x + "]<" + w == x + ("]<" + w);
    assert Merged([], Text(x)) == [Text(x)];
  }

  /** After the bar of `|a>[x]<b|`, the corrected handler gives the hook with its left tag and
      leaves `<b|`. */
  lemma BothTagsIntendedParse(a: string, x: string, b: string)
    requires x != [] && Untriggered(x, HookStop)
    requires forall i :: 0 <= i < |a| ==> IsTagChar(a[i])
    ensures ParseHookIntended("|", a + (">[" + (x + ("]<" + (b + "|")))))
      == Ok(Handled([Hook([Text(x)], Some(a), false)], "<" + (b + "|")))
  {
    var body := x + ("]<" + (b + "|"));
    var t := a + (">[" + body);
    LeftTagOpens(a, body);
    IntendedLeftBody(a, x, b + "|", t);
  }

  /** Tag characters are plain: they start no token and need no escaping. */
  lemma TagCharsPlain(b: string)
    requires forall i :: 0 <= i < |b| ==> IsTagChar(b[i])
    ensures NoSpecial(b) && Untriggered(b, NoStop)
  {
  }

  /** `<` before a tag starts no token. */
  lemma LessThenTagUntriggered(b: string)
    requires forall i :: 0 <= i < |b| ==> IsTagChar(b[i])
    ensures Untriggered("<" + b, NoStop)
  {
    var y := "<" + b;
    TagCharsPlain(b);
    forall i | 0 <= i < |y| ensures !IsTrigger(y[i], NoStop) {
      if i > 0 { assert y[i] == b[i - 1]; }
    }
  }

  /** A bar that ends the input is text. */
  lemma LoneBar()
    ensures TriggerAt("|", 0, NoStop) == Start(BarStart, "|")
    ensures Dispatch(BarStart, "|", "") == Ok(Handled([Text("|")], ""))
  {
    assert MatchLeftTag("").None?;
    CharTrigger('|', BarStart, "");
    assert ['|'] + "" == "|";
  }

  /** After a node that is not text, two texts are merged. */
  lemma NodeThenTexts(node: Node, y: string, z: string)
    requires !node.Text?
    ensures MergedAll(Merged([node], Text(y)), [Text(z)]) == [node, Text(y + z)]
  {
    assert Merged([node], Text(y)) == [node, Text(y)];
    MergedAllOne([node, Text(y)], Text(z));
  }

  /** After a node that is not text, `<b|` with a tag `b` is one text: the bar has no tag
      after it, so it is text too. */
  lemma RestAfterHook(node: Node, b: string)
    requires !node.Text?
    requires forall i :: 0 <= i < |b| ==> IsTagChar(b[i])
    ensures TokenizeFrom([node], "<" + (b + "|"), NoStop) == Ok(Tokenized([node, Text("<" + b + "|")], None, []))
  {
    var y := "<" + b;
    LessThenTagUntriggered(b);
    LoneBar();
    assert "<" + (b + "|") == y + "|";
    TextThenStart([node], y, "|", NoStop, BarStart, "|", "", [Text("|")], "");
    NodeThenTexts(node, y, "|");
    RunEndsHere([node, Text(y + "|")]);
  }

  /** Tokenize at the end of the input returns what it has. */
  lemma RunEndsHere(acc: seq<Node>)
    ensures TokenizeFrom(acc, [], NoStop) == Ok(Tokenized(acc, None, []))
  {
  }

  /** The escaped text of `|a>[x]<b|`, for plain `a`, `x` and `b`. */
  lemma EscapeBothTagsInput(a: string, x: string, b: string)
    requires NoSpecial(a) && NoSpecial(x) && NoSpecial(b)
    ensures EscapeHtml("|" + (a + (">[" + (x + ("]<" + (b + "|"))))))
      == "|" + a + "&gt;" + ("[" + x + "]") + ("&lt;" + b + "|")
  {
    var l := "|" + a;
    var m := "[" + x + "]";
    var r := "<" + (b + "|");
    var er := "&lt;" + b + "|";
    assert "|" + (a + (">[" + (x + ("]<" + (b + "|"))))) == l + (">" + (m + r));
    EscapePlainBetween("|", a, "");
    assert l + "" == l;
    EscapePlainBetween("[", x, "]");
    EscapeTagClose(b);
    EscChar('>');
    assert ">" == ['>'];
    EscapeHtmlConcat(m, r);
    assert EscapeHtml(m + r) == m + er;
    EscapeHtmlConcat(">", m + r);
    assert EscapeHtml(">" + (m + r)) == "&gt;" + (m + er);
    EscapeHtmlConcat(l, ">" + (m + r));
    assert EscapeHtml(l + (">" + (m + r))) == l + ("&gt;" + (m + er));
    Assoc("&gt;", m, er);
    Assoc(l, "&gt;" + m, er);
    Assoc(l, "&gt;", m);
  }

  /** A plain text between plain delimiters escapes to itself. */
  lemma EscapePlainBetween(open: string, x: string, close: string)
    requires NoSpecial(open) && NoSpecial(x) && NoSpecial(close)
    ensures EscapeHtml(open + x + close) == open + x + close
  {
    EscapeHtmlConcat(open + x, close);
    EscapeHtmlConcat(open, x);
    EscPlain(open);
    EscPlain(x);
    EscPlain(close);
  }

  /** `<b|` escapes to `&lt;b|` for a plain `b`. */
  lemma EscapeTagClose(b: string)
    requires NoSpecial(b)
    ensures EscapeHtml("<" + (b + "|")) == "&lt;" + b + "|"
    ensures EscapeHtml("<" + b + "|") == "&lt;" + b + "|"
  {
    assert "<" + b + "|" == "<" + (b + "|");
    EscapeHtmlConcat("<", b + "|");
    EscChar('<');
    assert "<" == ['<'];
    EscPlain(b + "|");
  }

  /** A hook holding plain text with a plain left tag prints as it is written, `>` escaped. */
  lemma LeftTagHookPrint(a: string, x: string)
    requires a != [] && NoSpecial(a) && NoSpecial(x)
    ensures PrintNode(Hook([Text(x)], Some(a), false)) == Some("|" + a + "&gt;" + ("[" + x + "]"))
  {
    HookOfText(x, a, false);
    EscPlain(x);
    EscPlain(a);
  }

  /** A node and a text print one after the other. */
  lemma NodeThenTextPrints(node: Node, z: string)
    ensures Print([node, Text(z)]) == Join(PrintNode(node), Some(EscapeHtml(z)))
  {
    assert [node, Text(z)] == [node] + [Text(z)];
    PrintSnoc([node], Text(z));
    PrintSingle(node);
  }

  /** The two tokens print back as the escaped input. */
  lemma BothTagsIntendedPrints(a: string, x: string, b: string)
    requires a != [] && NoSpecial(a) && NoSpecial(x) && NoSpecial(b)
    ensures Print([Hook([Text(x)], Some(a), false), Text("<" + b + "|")])
      == Some(EscapeHtml("|" + (a + (">[" + (x + ("]<" + (b + "|")))))))
  {
    NodeThenTextPrints(Hook([Text(x)], Some(a), false), "<" + b + "|");
    LeftTagHookPrint(a, x);
    EscapeTagClose(b);
    EscapeBothTagsInput(a, x, b);
  }

  /** Under the corrected handler, `|a>[x]<b|` round-trips: after the bar the handler keeps
      the left tag, tokenize resumes on what it leaves (as Resume does), and the tokens print
      back as the escaped input. */
  lemma BothTagsIntendedRoundTrip(a: string, x: string, b: string)
    requires a != [] && x != [] && Untriggered(x, HookStop) && NoSpecial(x)
    requires forall i :: 0 <= i < |a| ==> IsTagChar(a[i])
    requires forall i :: 0 <= i < |b| ==> IsTagChar(b[i])
    ensures var t := a + (">[" + (x + ("]<" + (b + "|"))));
      var tokens := [Hook([Text(x)], Some(a), false), Text("<" + b + "|")];
      && Resume([], ParseHookIntended("|", t), NoStop, |t| + 1) == Ok(Tokenized(tokens, None, []))
      && Print(tokens) == Some(EscapeHtml("|" + t))
  {
    var hook := Hook([Text(x)], Some(a), false);
    BothTagsIntendedParse(a, x, b);
    MergedAllOne([], hook);
    assert Merged([], hook) == [hook];
    RestAfterHook(hook, b);
    TagCharsPlain(a);
    TagCharsPlain(b);
    BothTagsIntendedPrints(a, x, b);
  }

  // ---------------------------------------------------------------------------------------
  // Verbatim text (harlowe.py:645-655)

  /** The scan from `j` finds the backtick at `k` when none comes before it on the line. */
  lemma {:induction false} VerbatimClosesAt(t: string, j: nat, k: nat)
    requires 1 <= j <= k < |t| && t[k] == '`' && NoNewline(t[..j])
    requires forall i :: j <= i < k ==> t[i] != '`' && t[i] != '\n'
    ensures VerbatimCloseFrom(t, j) == Some(k)
    decreases k - j
  {
    if j < k {
      assert t[..j + 1] == t[..j] + [t[j]];
      VerbatimClosesAt(t, j + 1, k);
    }
  }

  /** Text `x` on one line, without a backtick, closed by a backtick. */
  lemma VerbatimCloses(x: string, rest: string)
    requires x != [] && NoNewline(x) && '`' !in x
    ensures VerbatimEnd(x + "`" + rest) == Some(|x|)
  {
    var t := x + "`" + rest;
    assert t[0] == x[0] && t[..1] == x[..1];
    assert forall i :: 0 <= i < |x| ==> t[i] == x[i];
    VerbatimClosesAt(t, 1, |x|);
  }

  /** As written, a closing backtick that ends the input raises IndexError: `s[end]` indexes
      past the end. */
  lemma VerbatimAtEndFails(x: string)
    requires x != [] && NoNewline(x) && '`' !in x
    ensures Verbatim(x + "`") == Fail(VerbatimAtEnd)
  {
    VerbatimCloses(x, []);
    assert x + "`" + [] == x + "`";
  }

  /** As written, whatever follows the closing backtick is cut to its first character. */
  lemma VerbatimDropsRest(x: string, c: char, rest: string)
    requires x != [] && NoNewline(x) && '`' !in x
    ensures Verbatim(x + "`" + ([c] + rest)) == Ok(Handled([Text(x)], [c]))
  {
    var t := x + "`" + ([c] + rest);
    VerbatimCloses(x, [c] + rest);
    assert t[..|x|] == x && t[|x| + 1] == c;
  }

  /** The whole input `` `x` `` raises. */
  lemma VerbatimAtEndInput(x: string)
    requires x != [] && NoNewline(x) && '`' !in x
    ensures TokenizeFrom([], "`" + (x + "`"), NoStop) == Fail(VerbatimAtEnd)
  {
    var s := "`" + (x + "`");
    assert s[..0] == [] && s[0] == '`';
    FindTriggerFirst(s, 0, NoStop);
    assert s[1..] == x + "`";
    StartStep([], s, 0, NoStop, [], Start(VerbatimStart, "`"), x + "`");
    StartFromDispatch([], VerbatimStart, "`", x + "`", NoStop, |s|);
    VerbatimAtEndFails(x);
  }

  /** `` `verbatim` text ``: the text after the backtick is lost, all but its first
      character. */
  lemma VerbatimExample(x: string, y: string)
    requires x == "verbatim" && y == " text"
    ensures Verbatim(x + "`" + y) == Ok(Handled([Text(x)], " "))
    ensures Verbatim(x + "`") == Fail(VerbatimAtEnd)
  {
    assert y == [' '] + "text";
    VerbatimDropsRest(x, ' ', "text");
    VerbatimAtEndFails(x);
  }

  /** Verbatim text as evidently intended: the input goes on from the end of the match,
      after the closing backtick. */
  function VerbatimIntended(t: string): (r: Handled)
    ensures |r.nodes| == 1 && r.nodes[0].Text? && IsSuffix(r.rest, t)
  {
    match VerbatimEnd(t)
    case None => Handled([Text("`")], t)
    case Some(j) =>
      assert t[..|t| - |t[j + 1..]|] + t[j + 1..] == t;
      Handled([Text(t[..j])], t[j + 1..])
  }

  /** Nothing is lost: the verbatim text, its closing backtick and the rest make up the
      input, and the text is one line with no backtick after its first character; without
      a closing backtick the opener is plain text and nothing is consumed. */
  lemma VerbatimIntendedRestores(t: string)
    ensures var r := VerbatimIntended(t);
      VerbatimEnd(t).Some? ==>
        var v := r.nodes[0].text;
        && t == v + "`" + r.rest && v != [] && NoNewline(v)
        && forall k :: 1 <= k < |v| ==> v[k] != '`'
    ensures VerbatimEnd(t).None? ==> VerbatimIntended(t) == Handled([Text("`")], t)
  {
    match VerbatimEnd(t)
    case None =>
    case Some(j) =>
      var v := t[..j];
      assert t == v + "`" + t[j + 1..];
  }

  /** The intended reading keeps the input the written one drops. */
  lemma VerbatimIntendedKeepsRest(x: string, c: char, rest: string)
    requires x != [] && NoNewline(x) && '`' !in x
    ensures VerbatimIntended(x + "`") == Handled([Text(x)], [])
    ensures VerbatimIntended(x + "`" + ([c] + rest)) == Handled([Text(x)], [c] + rest)
  {
    VerbatimCloses(x, []);
    assert x + "`" + [] == x + "`";
    assert (x + "`")[..|x|] == x;
    VerbatimCloses(x, [c] + rest);
    var t := x + "`" + ([c] + rest);
    assert t[..|x|] == x && t[|x| + 1..] == [c] + rest;
  }
}
