/** The inputs of the tokenizer tests in test_harlowe.py:10-150 and the token lists they
    expect. Each input is written as the shape it has, with the test's own words for the
    pieces, fixed by the precondition. */
module ShapeExamples {
  import opened Base
  import opened Scanners
  import opened Nodes
  import opened Tokenizer
  import opened ParseFacts
  import opened Shapes

  lemma SimpleLinkExample(c: string)
    requires c == "a simple link"
    ensures TokenizeFrom([], "[[" + (c + "]]"), NoStop) == Ok(Tokenized([Link([Text(c)], NoName, true)], None, []))
  {
    SimpleLink(c);
  }

  lemma RightArrowExample(x: string, y: string)
    requires x == "the stars my" && y == "destination"
    ensures TokenizeFrom([], "[[" + (x + "->" + y + "]]"), NoStop)
      == Ok(Tokenized([Link([Text(x)], Name([Text(y)]), true)], None, []))
  {
    RightArrowLink(x, y);
  }

  lemma LeftArrowExample(y: string, x: string)
    requires y == "destination" && x == "the stars my"
    ensures TokenizeFrom([], "[[" + (y + "<-" + x + "]]"), NoStop)
      == Ok(Tokenized([Link([Text(x)], Name([Text(y)]), false)], None, []))
  {
    LeftArrowLink(y, x);
  }

  /** `[[a->b->c->d]]`: the last `->` splits, and the earlier arrows stay in the text. */
  lemma RightArrowsExample(a: string, b: string, c: string, d: string)
    requires a == "a" && b == "b" && c == "c" && d == "d"
    ensures TokenizeFrom([], "[[" + (a + "->" + b + "->" + c + "->" + d + "]]"), NoStop)
      == Ok(Tokenized([Link([Text(a + "->" + b + "->" + c)], Name([Text(d)]), true)], None, []))
  {
    RightArrowLink(a + "->" + b + "->" + c, d);
  }

  /** `[[d<-c<-b<-a]]`: the first `<-` splits, and the later arrows stay in the text. */
  lemma LeftArrowsExample(d: string, c: string, b: string, a: string)
    requires d == "d" && c == "c" && b == "b" && a == "a"
    ensures TokenizeFrom([], "[[" + (d + "<-" + (c + "<-" + b + "<-" + a) + "]]"), NoStop)
      == Ok(Tokenized([Link([Text(c + "<-" + b + "<-" + a)], Name([Text(d)]), false)], None, []))
  {
    LeftArrowLink(d, c + "<-" + b + "<-" + a);
  }

  lemma VariableExample(v: string)
    requires v == "var_name"
    ensures TokenizeFrom([], "$" + v, NoStop) == Ok(Tokenized([Variable(v)], None, []))
  {
    assert IsLetter(v[0]);
    VariableAlone(v);
  }

  lemma AnonymousHookExample(x: string)
    requires x == "this is a simple anonymous hook"
    ensures TokenizeFrom([], "[" + (x + "]"), NoStop) == Ok(Tokenized([Hook([Text(x)], None, false)], None, []))
  {
    AnonymousHook(x);
  }

  /** `(macro:)[[Nested hook]]`: the hook after a macro belongs to it, so `[[` there does
      not open a link. */
  lemma MacroBindsHookExample(n: string, x: string)
    requires n == "macro" && x == "Nested hook"
    ensures TokenizeFrom([], "(" + (n + ":)" + ("[[" + (x + "]]"))), NoStop)
      == Ok(Tokenized([Macro(Named(n), Named(n), []), Hook([Hook([Text(x)], None, false)], None, false)], None, []))
  {
    MacroNameCanonical(n);
    assert n != [] && IsMacroNameStart(n[0]) && forall i :: 1 <= i < |n| ==> IsTagChar(n[i]);
    assert x != [] && Untriggered(x, HookStop);
    MacroBindsHook(n, x);
  }

  /** A name of lower-case ASCII letters, such as `macro`, is already in canonical form. */
  lemma MacroNameCanonical(n: string)
    requires forall i :: 0 <= i < |n| ==> 'a' <= n[i] <= 'z'
    ensures CanonicalName(n) == n
  {
    CanonicalPlain(n);
    LowerFree(n);
  }

  /** `[[Nested hook] ]`: `[[` followed by a single `]` is a hook holding a hook. */
  lemma NestedHookExample(x: string, y: string)
    requires x == "Nested hook" && y == " "
    ensures TokenizeFrom([], "[[" + (x + "]" + (y + "]")), NoStop)
      == Ok(Tokenized([Hook([Hook([Text(x)], None, false), Text(y)], None, false)], None, []))
  {
    NestedFallback(x, y);
  }

  /** `(tExt-style:)`: the name is kept as written; the canonical name loses its hyphen and
      its capital. */
  lemma HyphenatedMacroExample(a: string, b: string)
    requires a == "tExt" && b == "style"
    ensures TokenizeFrom([], "(" + (a + "-" + b + ":)"), NoStop)
      == Ok(Tokenized([Macro(Named(a + "-" + b), Named("textstyle"), [])], None, []))
  {
    HyphenatedMacro(a, b);
    assert Lower(a) + Lower(b) == "textstyle" by {
      assert Lower(a) == "text";
      LowerFree(b);
    }
  }

  lemma VariableMacroExample(v: string)
    requires v == "var_name"
    ensures TokenizeFrom([], "(" + ("$" + (v + ":)")), NoStop) == Ok(Tokenized([Macro(Var(v), Var(v), [])], None, []))
  {
    assert IsLetter(v[0]);
    VariableMacroAlone(v);
  }

  lemma LeftTagExample(tag: string, x: string)
    requires tag == "tag" && x == "hook"
    ensures TokenizeFrom([], "|" + (tag + ">[" + (x + "]")), NoStop)
      == Ok(Tokenized([Hook([Text(x)], Some(tag), false)], None, []))
  {
    LeftTagHook(tag, x);
  }

  lemma RightTagExample(x: string, tag: string)
    requires x == "hook" && tag == "tag"
    ensures TokenizeFrom([], "[" + (x + "]<" + (tag + "|")), NoStop)
      == Ok(Tokenized([Hook([Text(x)], Some(tag), true)], None, []))
  {
    RightTagHook(x, tag);
  }

  /** `[hook]<ca-age|`: hook names may contain hyphens. */
  lemma HyphenatedTagExample(x: string, t1: string, t2: string)
    requires x == "hook" && t1 == "ca" && t2 == "age"
    ensures TokenizeFrom([], "[" + (x + "]<" + (t1 + "-" + t2 + "|")), NoStop)
      == Ok(Tokenized([Hook([Text(x)], Some(t1 + "-" + t2), true)], None, []))
  {
    RightTagHook(x, t1 + "-" + t2);
  }

  /** `[ [[link text]] ]`: the link is the second item of the hook. */
  lemma HookHoldsLinkExample(x: string, c: string)
    requires x == " " && c == "link text"
    ensures TokenizeFrom([], "[" + (x + ("[[" + (c + "]]" + (x + "]")))), NoStop)
      == Ok(Tokenized([Hook([Text(x), Link([Text(c)], NoName, true), Text(x)], None, false)], None, []))
  {
    HookHoldsLink(x, c, x);
  }
}
