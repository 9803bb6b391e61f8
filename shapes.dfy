/** The token lists tokenize builds for the input shapes the test suite of harlowe.py
    checks (test_harlowe.py:10-150), stated for any plain text in place of the words the
    tests use, and then for the tests' own inputs. */
module Shapes {
  import opened Base
  import opened Scanners
  import opened Nodes
  import opened Tokenizer
  import opened ParseFacts

  // ---------------------------------------------------------------------------------------
  // Text before a token

  /** Counting brackets looks only forward, so text before them does not matter. */
  lemma {:induction false} BracketsShift(x: string, u: string, k: nat)
    requires k <= |u|
    ensures OpenBracketsFrom(x + u, |x| + k) == OpenBracketsFrom(u, k)
    decreases |u| - k
  {
    if k < |u| {
      assert (x + u)[|x| + k] == u[k];
      BracketsShift(x, u, k + 1);
    }
  }

  /** The token at the start of `u` is the same token after text `x`. */
  lemma TriggerShift(x: string, u: string, stop: Stop)
    requires u != [] && IsTrigger(u[0], stop)
    ensures TriggerAt(x + u, |x|, stop) == TriggerAt(u, 0, stop)
  {
    assert (x + u)[|x|] == u[0];
    if |u| > 1 {
      assert (x + u)[|x| + 1] == u[1];
    }
    BracketsShift(x, u, 0);
  }

  /** Plain text `x`, then a start token whose handler returns `nodes` and leaves `rest`:
      the text is one string, the nodes follow it, and the run goes on over `rest`. */
  lemma TextThenStart(acc: seq<Node>, x: string, u: string, stop: Stop, kind: StartKind, tok: string,
                      after: string, nodes: seq<Node>, rest: string)
    requires x != [] && Untriggered(x, stop)
    requires u == tok + after && tok != [] && IsTrigger(tok[0], stop) && TriggerAt(u, 0, stop) == Start(kind, tok)
    requires Dispatch(kind, tok, after) == Ok(Handled(nodes, rest))
    ensures TokenizeFrom(acc, x + u, stop) == TokenizeFrom(MergedAll(Merged(acc, Text(x)), nodes), rest, stop)
  {
    var s := x + u;
    var p := |x|;
    assert s[..p] == x && s[p] == u[0] == tok[0];
    FindTriggerFirst(s, p, stop);
    TriggerShift(x, u, stop);
    assert s[p + |tok|..] == after;
    var acc1 := Merged(acc, Text(x));
    StartStep(acc, s, p, stop, acc1, Start(kind, tok), after);
    StartFromDispatch(acc1, kind, tok, after, stop, |s|);
    ResumeOk(acc1, Ok(Handled(nodes, rest)), MergedAll(acc1, nodes), stop, |s|);
  }

  // ---------------------------------------------------------------------------------------
  // Links (test_harlowe.py:10-52)

  /** No character of `s` is `a` followed by `b`. */
  predicate NoPair(s: string, a: char, b: char) {
    forall k :: 0 <= k < |s| - 1 ==> !(s[k] == a && s[k + 1] == b)
  }

  /** Link contents without `]`, then `]]`. */
  lemma LinkMatch(c: string, rest: string)
    requires Untriggered(c, HookStop)
    ensures MatchLink(c + "]]" + rest) == Some((SplitLink(c), |c| + 2))
    ensures (c + "]]" + rest)[|c| + 2..] == rest
  {
    var t := c + "]]" + rest;
    assert forall i :: 0 <= i < |c| ==> t[i] == c[i] && IsNotCloseBracket(c[i]) by {
      forall i | 0 <= i < |c| ensures t[i] == c[i] && IsNotCloseBracket(c[i]) {
        assert !IsTrigger(c[i], HookStop);
      }
    }
    assert t[|c|] == ']' && t[|c| + 1] == ']';
    RunLengthExact(t, |c|, IsNotCloseBracket);
    assert t[..|c|] == c;
  }

  /** Contents with no arrow are a link to the passage they name. */
  lemma SplitPlain(c: string)
    requires NoPair(c, '-', '>') && NoPair(c, '<', '-')
    ensures SplitLink(c) == Plain(c)
  {
    assert forall j :: !SplitsAt(c, j, '-', '>');
    assert forall j :: !SplitsAt(c, j, '<', '-');
  }

  /** `x->y` with no arrow in `y`: the last arrow separates the text from the passage. */
  lemma SplitRight(x: string, y: string)
    requires x != [] && y != [] && NoPair(y, '-', '>')
    ensures SplitLink(x + "->" + y) == ArrowRight(x, y)
  {
    var c := x + "->" + y;
    assert SplitsAt(c, |x|, '-', '>');
    assert forall j :: |x| < j ==> !SplitsAt(c, j, '-', '>') by {
      forall j | |x| < j ensures !SplitsAt(c, j, '-', '>') {
        if |x| + 1 < j < |c| - 1 {
          assert c[j] == y[j - |x| - 2] && c[j + 1] == y[j - |x| - 1];
        }
      }
    }
    var i := LastSplit(c, '-', '>', |c|).value;
    assert i == |x|;
    assert c[..|x|] == x && c[|x| + 2..] == y;
  }

  /** `y<-x` with no `->` anywhere and no other `<-` in `y`: the first `<-` separates the
      passage from the text. */
  lemma SplitLeft(y: string, x: string)
    requires x != [] && y != [] && x[0] != '>'
    requires NoPair(y, '<', '-') && NoPair(y, '-', '>') && NoPair(x, '-', '>')
    ensures SplitLink(y + "<-" + x) == ArrowLeft(y, x)
  {
    var c := y + "<-" + x;
    assert forall j :: !SplitsAt(c, j, '-', '>') by {
      forall j ensures !SplitsAt(c, j, '-', '>') {
        if 0 <= j < |y| - 1 {
          assert c[j] == y[j] && c[j + 1] == y[j + 1];
        } else if |y| + 2 <= j < |c| - 1 {
          assert c[j] == x[j - |y| - 2] && c[j + 1] == x[j - |y| - 1];
        }
      }
    }
    assert SplitsAt(c, |y|, '<', '-');
    assert forall j :: 0 <= j < |y| ==> !SplitsAt(c, j, '<', '-') by {
      forall j | 0 <= j < |y| ensures !SplitsAt(c, j, '<', '-') {
        if j < |y| - 1 {
          assert c[j] == y[j] && c[j + 1] == y[j + 1];
        }
      }
    }
    var i := FirstSplit(c, '<', '-', 0).value;
    assert i == |y|;
    assert c[..|y|] == y && c[|y| + 2..] == x;
  }

  /** Plain text is one string. */
  lemma PlainRun(x: string)
    requires x != [] && Untriggered(x, HookStop)
    ensures TokenizeFrom([], x, NoStop) == Ok(Tokenized([Text(x)], None, []))
  {
    assert Untriggered(x, NoStop) by {
      forall i | 0 <= i < |x| ensures !IsTrigger(x[i], NoStop) {
        assert !IsTrigger(x[i], HookStop);
      }
    }
    PlainText([], x, NoStop);
    assert Merged([], Text(x)) == [Text(x)];
  }

  /** The link handler on `c]]rest`, where `c` splits as `shape`. */
  lemma ParseArrowLink(c: string, rest: string, x: string, y: string, onRight: bool)
    requires Untriggered(c, HookStop) && x != [] && y != [] && Untriggered(x, HookStop) && Untriggered(y, HookStop)
    requires SplitLink(c) == (if onRight then ArrowRight(x, y) else ArrowLeft(y, x))
    ensures ParseLink(c + "]]" + rest) == Ok(Handled([Link([Text(x)], Name([Text(y)]), onRight)], rest))
  {
    LinkMatch(c, rest);
    PlainRun(x);
    PlainRun(y);
  }

  /** A link whose whole input is `[[c]]`, for contents `c` that do not start with `[`. */
  lemma LinkWhole(c: string, m: Node)
    requires c != [] && c[0] != '['
    requires ParseLink(c + "]]") == Ok(Handled([m], []))
    ensures TokenizeFrom([], "[[" + (c + "]]"), NoStop) == Ok(Tokenized([m], None, []))
  {
    assert (c + "]]")[0] == c[0];
    LinkOpener(c + "]]", NoStop);
    StartsWhole("[[", c + "]]", LinkStart, [m]);
    assert MergedAll([], [m]) == [m];
  }

  /** `[[c]]` with plain `c` and no arrow is a link whose text is `c` and which names no
      passage of its own. */
  lemma SimpleLink(c: string)
    requires c != [] && Untriggered(c, HookStop) && NoPair(c, '-', '>') && NoPair(c, '<', '-')
    ensures TokenizeFrom([], "[[" + (c + "]]"), NoStop) == Ok(Tokenized([Link([Text(c)], NoName, true)], None, []))
  {
    LinkMatch(c, []);
    SplitPlain(c);
    PlainRun(c);
    assert c + "]]" + [] == c + "]]";
    assert !IsTrigger(c[0], HookStop);
    LinkWhole(c, Link([Text(c)], NoName, true));
  }

  /** `[[x->y]]` with plain `x` and `y` and no arrow in `y`: the text is `x` (arrows and
      all) and the passage `y`, on the right. */
  lemma RightArrowLink(x: string, y: string)
    requires x != [] && y != [] && Untriggered(x, HookStop) && Untriggered(y, HookStop) && NoPair(y, '-', '>')
    ensures TokenizeFrom([], "[[" + (x + "->" + y + "]]"), NoStop)
      == Ok(Tokenized([Link([Text(x)], Name([Text(y)]), true)], None, []))
  {
    var c := x + "->" + y;
    assert Untriggered(c, HookStop) by {
      forall i | 0 <= i < |c| ensures !IsTrigger(c[i], HookStop) {
        if i < |x| { assert c[i] == x[i]; } else if i >= |x| + 2 { assert c[i] == y[i - |x| - 2]; }
      }
    }
    SplitRight(x, y);
    ParseArrowLink(c, [], x, y, true);
    assert c + "]]" + [] == c + "]]";
    assert c[0] == x[0] && !IsTrigger(x[0], HookStop);
    LinkWhole(c, Link([Text(x)], Name([Text(y)]), true));
  }

  /** `[[y<-x]]` with plain `x` and `y`, no `->` and no other `<-` in `y`: the passage is
      `y`, on the left, and the text is `x` (arrows and all). */
  lemma LeftArrowLink(y: string, x: string)
    requires x != [] && y != [] && Untriggered(x, HookStop) && Untriggered(y, HookStop) && x[0] != '>'
    requires NoPair(y, '<', '-') && NoPair(y, '-', '>') && NoPair(x, '-', '>')
    ensures TokenizeFrom([], "[[" + (y + "<-" + x + "]]"), NoStop)
      == Ok(Tokenized([Link([Text(x)], Name([Text(y)]), false)], None, []))
  {
    var c := y + "<-" + x;
    assert Untriggered(c, HookStop) by {
      forall i | 0 <= i < |c| ensures !IsTrigger(c[i], HookStop) {
        if i < |y| { assert c[i] == y[i]; } else if i >= |y| + 2 { assert c[i] == x[i - |y| - 2]; }
      }
    }
    SplitLeft(y, x);
    ParseArrowLink(c, [], x, y, false);
    assert c + "]]" + [] == c + "]]";
    assert c[0] == y[0] && !IsTrigger(y[0], HookStop);
    LinkWhole(c, Link([Text(x)], Name([Text(y)]), false));
  }

  // ---------------------------------------------------------------------------------------
  // Macros (test_harlowe.py:72-102)

  /** `[x]]` in a hook body: one inner hook, then the `]` that closes the outer hook. */
  lemma InnerHookOnly(x: string)
    requires x != [] && Untriggered(x, HookStop)
    ensures TokenizeFrom([], "[" + (x + "]" + "]"), HookStop)
      == Ok(Tokenized([Hook([Text(x)], None, false)], Some("]"), []))
  {
    var inner := Hook([Text(x)], None, false);
    var t := x + "]" + "]";
    assert x[0] != '[' by { assert !IsTrigger(x[0], HookStop); }
    assert t[0] == x[0];
    HookOpener(t, HookStop);
    PlainHook(x, "]");
    StartsThen("[", t, HookStart, [inner], "]", HookStop);
    assert MergedAll([], [inner]) == [inner];
    TextThenStop([inner], [], "]", [], HookStop);
    assert [] + "]" + [] == "]";
  }

  /** The macro handler on `n:)[[x]]`: the macro, then the hook bound to it, which holds the
      inner hook `[x]`. */
  lemma ParseMacroThenHook(n: string, x: string, t: string)
    requires n != [] && IsMacroNameStart(n[0]) && forall i :: 1 <= i < |n| ==> IsTagChar(n[i])
    requires x != [] && Untriggered(x, HookStop)
    requires t == n + ":)" + ("[[" + (x + "]]"))
    ensures ParseMacro(t) == Ok(Handled([NewMacro(Named(n), []), Hook([Hook([Text(x)], None, false)], None, false)], []))
  {
    var s1 := "[[" + (x + "]]");
    var code := ")" + s1;
    var len := |n| + 1;
    assert MatchMacroName(t) == Some((PlainName(n), len)) && t[len..] == code by {
      assert t == n + (":" + code);
      MatchPlainName(n, ":" + code);
      assert (":" + code)[1..] == code;
    }
    CodeThenHook(x, s1, code);
    MacroHookBound(t, n, len);
    var m := NewMacro(Named(n), []);
    var h := Hook([Hook([Text(x)], None, false)], None, false);
    assert [m] + [h] == [m, h];
  }

  /** `)[[x]]` after a macro name: no code, then a hook holding the hook `[x]`. */
  lemma CodeThenHook(x: string, s1: string, code: string)
    requires x != [] && Untriggered(x, HookStop)
    requires s1 == "[[" + (x + "]]") && code == ")" + s1
    ensures TokenizeFrom([], code, MacroStop) == Ok(Tokenized([], Some(")"), s1))
    ensures s1 != [] && s1[0] == '['
    ensures ParseHook("[", s1[1..]) == Ok(Handled([Hook([Hook([Text(x)], None, false)], None, false)], []))
  {
    TextThenStop([], [], ")", s1, MacroStop);
    assert [] + ")" + s1 == code;
    assert s1[1..] == "[" + (x + "]" + "]");
    InnerHookOnly(x);
    ClosedHook(s1[1..], [Hook([Text(x)], None, false)], []);
  }

  /** A named macro whose `)` is followed by a hook: the handler returns both. */
  lemma MacroHookBound(t: string, n: string, len: nat)
    requires MatchMacroName(t) == Some((PlainName(n), len))
    ensures var inner := TokenizeFrom([], t[len..], MacroStop);
      inner.Ok? && inner.value.rest != [] && inner.value.rest[0] == '[' ==>
      var h := ParseHook("[", inner.value.rest[1..]);
      h.Ok? && h.value.nodes[0].Hook? ==>
      ParseMacro(t) == Ok(Handled([NewMacro(Named(n), inner.value.tokens)] + h.value.nodes, h.value.rest))
  {
  }

  /** `(n:)[[x]]`: the hook after a macro is bound to it, even when it starts with `[[`, so
      the result is the macro and then a hook holding the hook `[x]`. */
  lemma MacroBindsHook(n: string, x: string)
    requires n != [] && IsMacroNameStart(n[0]) && forall i :: 1 <= i < |n| ==> IsTagChar(n[i])
    requires x != [] && Untriggered(x, HookStop)
    ensures TokenizeFrom([], "(" + (n + ":)" + ("[[" + (x + "]]"))), NoStop)
      == Ok(Tokenized([Macro(Named(n), Named(CanonicalName(n)), []), Hook([Hook([Text(x)], None, false)], None, false)], None, []))
  {
    var after := n + ":)" + ("[[" + (x + "]]"));
    var nodes := [NewMacro(Named(n), []), Hook([Hook([Text(x)], None, false)], None, false)];
    ParseMacroThenHook(n, x, after);
    CharTrigger('(', MacroStart, after);
    StartsWhole("(", after, MacroStart, nodes);
    assert MergedAll([], nodes) == nodes by {
      assert MergedAll([], nodes[..1]) == [nodes[0]] by { assert nodes[..1][..0] == []; }
    }
  }

  /** A name without separators, in lower case, is its own canonical name's source: the
      canonical name is the lower-case name. */
  lemma CanonicalPlain(a: string)
    requires forall i :: 0 <= i < |a| ==> a[i] != '-' && a[i] != '_'
    ensures CanonicalName(a) == Lower(a)
  {
    StripSeparatorsFree(Lower(a));
  }

  /** `(a-b:)`: the name keeps its hyphen and case as written, and the canonical name is
      `a` and `b` run together in lower case. */
  lemma HyphenatedMacro(a: string, b: string)
    requires a != [] && IsMacroNameStart(a[0]) && a[0] != '-' && a[0] != '_'
    requires forall i :: 1 <= i < |a| ==> IsTagChar(a[i]) && a[i] != '-' && a[i] != '_'
    requires forall i :: 0 <= i < |b| ==> IsTagChar(b[i]) && b[i] != '-' && b[i] != '_'
    ensures TokenizeFrom([], "(" + (a + "-" + b + ":)"), NoStop)
      == Ok(Tokenized([Macro(Named(a + "-" + b), Named(Lower(a) + Lower(b)), [])], None, []))
  {
    var n := a + "-" + b;
    assert forall i :: 1 <= i < |n| ==> IsTagChar(n[i]) by {
      forall i | 1 <= i < |n| ensures IsTagChar(n[i]) {
        if i < |a| { assert n[i] == a[i]; } else if i > |a| { assert n[i] == b[i - |a| - 1]; }
      }
    }
    assert n[0] == a[0];
    MacroAlone(n);
    CanonicalNameIgnoresSeparator(a, b, '-');
    assert a + ['-'] + b == n;
    CanonicalNameConcat(a, b);
    CanonicalPlain(a);
    CanonicalPlain(b);
  }

  // ---------------------------------------------------------------------------------------
  // A link inside a hook (test_harlowe.py:143-150)

  /** The link handler on `c]]rest` for plain contents `c` without an arrow. */
  lemma ParsePlainLink(c: string, rest: string)
    requires c != [] && Untriggered(c, HookStop) && NoPair(c, '-', '>') && NoPair(c, '<', '-')
    ensures ParseLink(c + "]]" + rest) == Ok(Handled([Link([Text(c)], NoName, true)], rest))
  {
    LinkMatch(c, rest);
    SplitPlain(c);
    PlainRun(c);
  }

  /** The body `x[[c]]y]` of such a hook: text, the link, text, then the closing `]`. */
  lemma LinkInHookBody(x: string, c: string, y: string, u: string)
    requires x != [] && Untriggered(x, HookStop) && y != [] && Untriggered(y, HookStop) && y[0] != '<'
    requires c != [] && Untriggered(c, HookStop) && NoPair(c, '-', '>') && NoPair(c, '<', '-')
    requires u == "[[" + (c + "]]" + (y + "]"))
    ensures TokenizeFrom([], x + u, HookStop)
      == Ok(Tokenized([Text(x), Link([Text(c)], NoName, true), Text(y)], Some("]"), []))
  {
    var link := Link([Text(c)], NoName, true);
    var after := c + "]]" + (y + "]");
    assert TokenizeFrom([], x + u, HookStop) == TokenizeFrom([Text(x), link], y + "]", HookStop) by {
      assert after[0] == c[0] && c[0] != '[' by { assert !IsTrigger(c[0], HookStop); }
      LinkOpener(after, HookStop);
      ParsePlainLink(c, y + "]");
      TextThenStart([], x, u, HookStop, LinkStart, "[[", after, [link], y + "]");
      assert Merged([], Text(x)) == [Text(x)];
      assert MergedAll([Text(x)], [link]) == [Text(x), link] by {
        assert [link][..0] == [];
      }
    }
    TextThenStop([Text(x), link], y, "]", [], HookStop);
    assert y + "]" + [] == y + "]";
    assert Merged([Text(x), link], Text(y)) == [Text(x), link, Text(y)];
  }

  /** `[x[[c]]y]` with plain `x`, `c` and `y`: one hook whose contents are the text `x`, the
      link `[[c]]` and the text `y`. */
  lemma HookHoldsLink(x: string, c: string, y: string)
    requires x != [] && Untriggered(x, HookStop) && y != [] && Untriggered(y, HookStop) && y[0] != '<'
    requires c != [] && Untriggered(c, HookStop) && NoPair(c, '-', '>') && NoPair(c, '<', '-')
    ensures TokenizeFrom([], "[" + (x + ("[[" + (c + "]]" + (y + "]")))), NoStop)
      == Ok(Tokenized([Hook([Text(x), Link([Text(c)], NoName, true), Text(y)], None, false)], None, []))
  {
    var u := "[[" + (c + "]]" + (y + "]"));
    var tokens := [Text(x), Link([Text(c)], NoName, true), Text(y)];
    LinkInHookBody(x, c, y, u);
    ClosedHook(x + u, tokens, []);
    assert (x + u)[0] == x[0] && x[0] != '[' by { assert !IsTrigger(x[0], HookStop); }
    HookWhole(x + u, Hook(tokens, None, false));
  }
}
