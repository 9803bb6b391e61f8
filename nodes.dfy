/** The token objects of harlowe.py (variables, hooks, links and macros), the list helper
    that merges adjacent strings, and the text each token prints. */
module Nodes {
  import opened Base
  import opened Escaping

  /** A macro's name: a plain name, or a variable holding the macro. */
  datatype MacroName = Named(name: string) | Var(variable: string)

  /** One token. Plain text is a Python str in harlowe.py; the other four are its classes. */
  datatype Node =
    | Text(text: string)
    | Variable(name: string)                                                       // HarloweVariable
    | Hook(contents: seq<Node>, nametag: Option<string>, tagOnRight: bool)         // HarloweHook
    | Link(linkText: seq<Node>, passageName: PassageName, passageOnRight: bool)   // HarloweLink
    | Macro(nameInSource: MacroName, canonicalName: MacroName, code: seq<Node>)   // HarloweMacro

  /** A link's parsed passage name, or None (no name was given). */
  datatype PassageName = NoName | Name(nodes: seq<Node>)

  // ---------------------------------------------------------------------------------------
  // Canonical macro names (harlowe.py:390-404)

  /** The upper-case letters among the characters a macro name can hold. */
  predicate IsUpper(c: char) {
    ('A' <= c <= 'Z') || ('\U{C0}' <= c <= '\U{DE}' && c != '\U{D7}') || c == '\U{150}' || c == '\U{170}'
  }

  /** str.lower on the characters of a macro name. */
  function LowerChar(c: char): (d: char)
    ensures !IsUpper(d)
    ensures !IsUpper(c) ==> d == c
    ensures (d == '-' || d == '_') <==> (c == '-' || c == '_')
  {
    if ('A' <= c <= 'Z') || ('\U{C0}' <= c <= '\U{DE}' && c != '\U{D7}') then (c as int + 32) as char
    else if c == '\U{150}' || c == '\U{170}' then (c as int + 1) as char
    else c
  }

  function Lower(s: string): (r: string)
    ensures |r| == |s| && forall i :: 0 <= i < |s| ==> r[i] == LowerChar(s[i])
  {
    if s == [] then [] else [LowerChar(s[0])] + Lower(s[1..])
  }

  /** `s` without its hyphens and underscores. */
  function StripSeparators(s: string): (r: string)
    ensures forall i :: 0 <= i < |r| ==> r[i] != '-' && r[i] != '_' && r[i] in s
  {
    if s == [] then []
    else if s[0] == '-' || s[0] == '_' then StripSeparators(s[1..])
    else [s[0]] + StripSeparators(s[1..])
  }

  /** The canonical name: lower case, hyphens and underscores removed. */
  function CanonicalName(name: string): (r: string)
    ensures forall i :: 0 <= i < |r| ==> r[i] != '-' && r[i] != '_' && !IsUpper(r[i])
  {
    StripSeparators(Lower(name))
  }

  /** The constructor of HarloweMacro: only a plain name is canonicalised. */
  function NewMacro(name: MacroName, code: seq<Node>): (m: Node)
    ensures m.Macro? && m.nameInSource == name && m.code == code
    ensures m.canonicalName.Named? <==> name.Named?
    ensures name.Named? ==> m.canonicalName.name == CanonicalName(name.name)
    ensures name.Var? ==> m.canonicalName == name
  {
    match name
    case Named(n) => Macro(name, Named(CanonicalName(n)), code)
    case Var(_) => Macro(name, name, code)
  }

  lemma {:induction false} LowerConcat(a: string, b: string)
    ensures Lower(a + b) == Lower(a) + Lower(b)
  {
  }

  lemma {:induction false} StripConcat(a: string, b: string)
    ensures StripSeparators(a + b) == StripSeparators(a) + StripSeparators(b)
  {
    if a == [] {
      assert a + b == b;
    } else {
      assert (a + b)[0] == a[0];
      assert (a + b)[1..] == a[1..] + b;
      StripConcat(a[1..], b);
    }
  }

  lemma {:induction false} StripSeparatorsFree(s: string)
    requires forall i :: 0 <= i < |s| ==> s[i] != '-' && s[i] != '_'
    ensures StripSeparators(s) == s
  {
    if s != [] {
      StripSeparatorsFree(s[1..]);
    }
  }

  lemma {:induction false} LowerFree(s: string)
    requires forall i :: 0 <= i < |s| ==> !IsUpper(s[i])
    ensures Lower(s) == s
  {
  }

  /** A canonical name is its own canonical name. */
  lemma CanonicalNameIdempotent(name: string)
    ensures CanonicalName(CanonicalName(name)) == CanonicalName(name)
  {
    var c := CanonicalName(name);
    LowerFree(c);
    StripSeparatorsFree(c);
  }

  /** Case does not matter: a name and its lower-case form have the same canonical name. */
  lemma CanonicalNameIgnoresCase(name: string)
    ensures CanonicalName(Lower(name)) == CanonicalName(name)
  {
    LowerFree(Lower(name));
  }

  lemma CanonicalNameConcat(a: string, b: string)
    ensures CanonicalName(a + b) == CanonicalName(a) + CanonicalName(b)
  {
    LowerConcat(a, b);
    StripConcat(Lower(a), Lower(b));
  }

  /** A hyphen or an underscore anywhere in a name does not matter. */
  lemma CanonicalNameIgnoresSeparator(a: string, b: string, sep: char)
    requires sep == '-' || sep == '_'
    ensures CanonicalName(a + [sep] + b) == CanonicalName(a + b)
  {
    CanonicalNameConcat(a + [sep], b);
    CanonicalNameConcat(a, [sep]);
    CanonicalNameConcat(a, b);
    SeparatorVanishes(sep);
    assert CanonicalName(a) + [] == CanonicalName(a);
  }

  lemma SeparatorVanishes(sep: char)
    requires sep == '-' || sep == '_'
    ensures CanonicalName([sep]) == []
  {
    assert Lower([sep]) == [sep];
    assert [sep][1..] == [];
    assert StripSeparators([sep]) == StripSeparators([]);
  }

  // ---------------------------------------------------------------------------------------
  // Adding to a token list (harlowe.py:40-53)

  /** No two strings are next to each other. */
  predicate NoAdjacentText(l: seq<Node>) {
    forall i, j | 0 <= i < |l| && 0 <= j < |l| && j == i + 1 :: !(l[i].Text? && l[j].Text?)
  }

  /** _append_with_string_merge: the list after appending `item`, where a string following
      a string is joined to it. */
  function Merged(l: seq<Node>, item: Node): (r: seq<Node>)
    ensures r != [] && |l| <= |r| <= |l| + 1
    ensures item.Text? <==> r[|r| - 1].Text?
  {
    if l != [] && item.Text? && l[|l| - 1].Text? then
      l[..|l| - 1] + [Text(l[|l| - 1].text + item.text)]
    else
      l + [item]
  }

  /** The list after appending each of `items` in turn. */
  function MergedAll(l: seq<Node>, items: seq<Node>): (r: seq<Node>)
    ensures |l| <= |r|
    ensures items != [] ==> r != []
  {
    if items == [] then l else Merged(MergedAll(l, items[..|items| - 1]), items[|items| - 1])
  }

  /** Merging changes nothing before the last item of the new list. */
  lemma MergedKeepsFront(l: seq<Node>, item: Node)
    ensures var r := Merged(l, item); forall i :: 0 <= i < |r| - 1 ==> r[i] == l[i]
  {
  }

  /** Merging never leaves two strings side by side. */
  lemma MergedNoAdjacentText(l: seq<Node>, item: Node)
    requires NoAdjacentText(l)
    ensures NoAdjacentText(Merged(l, item))
  {
    var r := Merged(l, item);
    MergedKeepsFront(l, item);
    forall i, j | 0 <= i < |r| && 0 <= j < |r| && j == i + 1
      ensures !(r[i].Text? && r[j].Text?)
    {
      if j < |r| - 1 {
        assert r[i] == l[i] && r[j] == l[j];
      }
    }
  }

  /** Appending any items one by one keeps the strings apart. */
  lemma {:induction false} MergedAllNoAdjacentText(l: seq<Node>, items: seq<Node>)
    requires NoAdjacentText(l)
    ensures NoAdjacentText(MergedAll(l, items))
    decreases |items|
  {
    if items != [] {
      MergedAllNoAdjacentText(l, items[..|items| - 1]);
      MergedNoAdjacentText(MergedAll(l, items[..|items| - 1]), items[|items| - 1]);
    }
  }

  /** No token list anywhere in the tree holds two strings side by side: neither the list
      itself nor any hook's contents, link text, passage name or macro code below it. */
  predicate DeepFlat(l: seq<Node>)
    decreases l, 1
  {
    NoAdjacentText(l) && AllFlat(l)
  }

  predicate AllFlat(l: seq<Node>)
    decreases l, 0
  {
    forall i :: 0 <= i < |l| ==> FlatNode(l[i])
  }

  predicate FlatNode(n: Node)
    decreases n
  {
    match n
    case Hook(c, _, _) => DeepFlat(c)
    case Link(t, p, _) => DeepFlat(t) && (p.Name? ==> DeepFlat(p.nodes))
    case Macro(_, _, code) => DeepFlat(code)
    case _ => true
  }

  /** Merging keeps every list of the tree flat. */
  lemma MergedDeepFlat(l: seq<Node>, item: Node)
    requires DeepFlat(l) && FlatNode(item)
    ensures DeepFlat(Merged(l, item))
  {
    MergedNoAdjacentText(l, item);
    MergedKeepsFront(l, item);
    var r := Merged(l, item);
    forall i | 0 <= i < |r|
      ensures FlatNode(r[i])
    {
      if i < |r| - 1 {
        assert r[i] == l[i];
      } else if !item.Text? {
        assert r == l + [item];
      }
    }
  }

  lemma {:induction false} MergedAllDeepFlat(l: seq<Node>, items: seq<Node>)
    requires DeepFlat(l) && AllFlat(items)
    ensures DeepFlat(MergedAll(l, items))
    decreases |items|
  {
    if items != [] {
      var front := items[..|items| - 1];
      assert AllFlat(front) by {
        forall i | 0 <= i < |front| ensures FlatNode(front[i]) { assert front[i] == items[i]; }
      }
      MergedAllDeepFlat(l, front);
      MergedDeepFlat(MergedAll(l, front), items[|items| - 1]);
    }
  }

  /** A node that is not a string, put before a flat list, leaves it flat. */
  lemma ConsDeepFlat(x: Node, l: seq<Node>)
    requires !x.Text? && FlatNode(x) && DeepFlat(l)
    ensures DeepFlat([x] + l)
  {
    var r := [x] + l;
    forall i | 0 <= i < |r|
      ensures FlatNode(r[i])
    {
      if i > 0 {
        assert r[i] == l[i - 1];
      }
    }
    forall i, j | 0 <= i < |r| && 0 <= j < |r| && j == i + 1
      ensures !(r[i].Text? && r[j].Text?)
    {
      if i > 0 {
        assert r[i] == l[i - 1] && r[j] == l[j - 1];
      }
    }
  }

  // ---------------------------------------------------------------------------------------
  // Printing (escape_list and the __str__ methods: harlowe.py:127-135, 258-259, 298-307,
  // 343-360, 406-410)

  /** Joins two printed parts; None when either failed. */
  function Join(a: Option<string>, b: Option<string>): Option<string> {
    if a.Some? && b.Some? then Some(a.value + b.value) else None
  }

  /** The items of escape_list, joined: strings are HTML-escaped and nodes print themselves.
      None stands for the exception a macro named by a variable raises when printed. */
  function Print(l: seq<Node>): Option<string>
    decreases l
  {
    if l == [] then Some([]) else Join(Print(l[..|l| - 1]), PrintNode(l[|l| - 1]))
  }

  function PrintNode(n: Node): Option<string>
    decreases n
  {
    match n
    case Text(s) => Some(EscapeHtml(s))
    case Variable(v) => Some("$" + v)
    case Hook(c, tag, onRight) =>
      var inner :- Print(c);
      var body := "[" + inner + "]";
      if tag.Some? && tag.value != [] then
        if onRight then Some(body + "&lt;" + EscapeHtml(tag.value) + "|")
        else Some("|" + EscapeHtml(tag.value) + "&gt;" + body)
      else Some(body)
    case Link(t, Name(p), onRight) =>
      var text :- Print(t);
      if p != [] then
        var dest :- Print(p);
        if onRight then Some("[[" + text + "-&gt;" + dest + "]]")
        else Some("[[" + dest + "&lt;-" + text + "]]")
      else Some("[[" + text + "]]")
    case Link(t, NoName, _) =>
      var text :- Print(t);
      Some("[[" + text + "]]")
    case Macro(name, _, code) =>
      if name.Var? then None
      else
        var inner :- Print(code);
        Some("(" + EscapeHtml(name.name) + ":" + inner + ")")
  }

  lemma PrintSnoc(l: seq<Node>, n: Node)
    ensures Print(l + [n]) == Join(Print(l), PrintNode(n))
  {
    assert (l + [n])[..|l|] == l;
  }

  lemma JoinAssociative(x: Option<string>, y: Option<string>, z: Option<string>)
    ensures Join(x, Join(y, z)) == Join(Join(x, y), z)
  {
    if x.Some? && y.Some? && z.Some? {
      assert x.value + (y.value + z.value) == (x.value + y.value) + z.value;
    }
  }

  /** Printing a list is printing its parts one after the other. */
  lemma {:induction false} PrintConcat(a: seq<Node>, b: seq<Node>)
    ensures Print(a + b) == Join(Print(a), Print(b))
  {
    if b == [] {
      assert a + b == a;
      if Print(a).Some? {
        assert Print(a).value + [] == Print(a).value;
      }
    } else {
      var init, last := b[..|b| - 1], b[|b| - 1];
      assert a + b == (a + init) + [last];
      assert b == init + [last];
      PrintSnoc(a + init, last);
      PrintSnoc(init, last);
      PrintConcat(a, init);
      JoinAssociative(Print(a), Print(init), PrintNode(last));
    }
  }

  lemma PrintSingle(n: Node)
    ensures Print([n]) == PrintNode(n)
  {
    PrintSnoc([], n);
    assert [] + [n] == [n];
    if PrintNode(n).Some? {
      assert [] + PrintNode(n).value == PrintNode(n).value;
    }
  }

  lemma PrintCons(n: Node, l: seq<Node>)
    ensures Print([n] + l) == Join(PrintNode(n), Print(l))
  {
    PrintConcat([n], l);
    PrintSingle(n);
  }

  /** Merging adjacent strings never changes what a token list prints. */
  lemma MergedPrintsSame(l: seq<Node>, item: Node)
    ensures Print(Merged(l, item)) == Print(l + [item])
  {
    if l != [] && item.Text? && l[|l| - 1].Text? {
      var init := l[..|l| - 1];
      var last := l[|l| - 1];
      assert l + [item] == init + ([last] + [item]);
      PrintConcat(init, [Text(last.text + item.text)]);
      PrintConcat(init, [last] + [item]);
      PrintConcat([last], [item]);
      EscapeHtmlConcat(last.text, item.text);
      PrintSingle(last);
      PrintSingle(item);
      PrintSingle(Text(last.text + item.text));
    }
  }

  /** Appending several items prints like appending them without merging. */
  lemma {:induction false} MergedAllPrintsSame(l: seq<Node>, items: seq<Node>)
    ensures Print(MergedAll(l, items)) == Print(l + items)
  {
    if items == [] {
      assert l + items == l;
    } else {
      var init, last := items[..|items| - 1], items[|items| - 1];
      var m := MergedAll(l, init);
      assert MergedAll(l, items) == Merged(m, last);
      assert l + items == (l + init) + [last];
      MergedPrintsSame(m, last);
      PrintConcat(m, [last]);
      MergedAllPrintsSame(l, init);
      PrintConcat(l + init, [last]);
    }
  }
}
