/** HarlowePassage: one <tw-passagedata> element of a story, with its raw contents, the
    token list parse_contents builds from them, and the element it serialises to. */
module Passages {
  import opened Base
  import opened Escaping
  import opened Scanners
  import opened Nodes
  import opened Tokenizer
  import opened TextRewrite
  import opened RoundTripParts
  import opened RoundTrip
  import opened Lossless

  // ---------------------------------------------------------------------------------------
  // Serialisation (harlowe.py:201-214)

  /** The opening tag: name and tags are HTML-escaped, pid and position written as given. */
  function Header(pid: string, name: string, tags: string, position: string): string {
    "<tw-passagedata pid=\"" + pid + "\" name=\"" + EscapeHtml(name) + "\" tags=\""
    + EscapeHtml(tags) + "\" position=\"" + position + "\">"
  }

  const Footer := "</tw-passagedata>"

  /** The body __str__ writes: the printed token list when it is present and not empty,
      otherwise the escaped raw contents. None when a token cannot be printed. */
  function Body(contents: string, parsed: Option<seq<Node>>): Option<string> {
    if parsed.Some? && parsed.value != [] then Print(parsed.value) else Some(EscapeHtml(contents))
  }

  /** HarlowePassage.__str__ on a passage with these fields. */
  function PassageStr(pid: string, name: string, contents: string, tags: string, position: string,
                      parsed: Option<seq<Node>>): Option<string>
  {
    var body :- Body(contents, parsed);
    Some(Header(pid, name, tags, position) + body + Footer)
  }

  /** The escaped name and tags hold no double quote, so neither can end its attribute
      early, and decoding the five entities gives each back. */
  lemma HeaderAttributes(name: string, tags: string)
    ensures '"' !in EscapeHtml(name) && '"' !in EscapeHtml(tags)
    ensures UnescapeHtml(EscapeHtml(name)) == name && UnescapeHtml(EscapeHtml(tags)) == tags
  {
    EscapeHtmlWellEscaped(name);
    EscapeHtmlWellEscaped(tags);
    UnescapeEscapeHtml(name);
    UnescapeEscapeHtml(tags);
  }

  /** Once a non-empty token list is present, the raw contents no longer show in the
      element: editing them changes nothing printed. */
  lemma StrIgnoresContents(pid: string, name: string, c1: string, c2: string, tags: string,
                           position: string, parsed: seq<Node>)
    requires parsed != []
    ensures PassageStr(pid, name, c1, tags, position, Some(parsed))
      == PassageStr(pid, name, c2, tags, position, Some(parsed))
  {
  }

  /** After parse_contents, the element prints as it did before, the HTML-escaped contents
      between the same tags, except for the `)` a macro left open gains; when every macro is
      closed, or there is no `)` in the printed tokens, it is exactly the element printed
      from the raw contents. */
  lemma ParsedStrRoundTrip(pid: string, name: string, contents: string, tags: string, position: string)
    requires Safe(contents) && KeepsTags(contents) && TokenizeFrom([], contents, NoStop).Ok?
    ensures var parsed := Some(TokenizeFrom([], contents, NoStop).value.tokens);
      var b := Body(contents, parsed);
      b.Some? && Ins(EscapeHtml(contents), b.value)
      && PassageStr(pid, name, contents, tags, position, parsed)
         == Some(Header(pid, name, tags, position) + b.value + Footer)
    ensures var parsed := Some(TokenizeFrom([], contents, NoStop).value.tokens);
      var b := Body(contents, parsed);
      b.Some? && ')' !in b.value ==>
        PassageStr(pid, name, contents, tags, position, parsed)
        == PassageStr(pid, name, contents, tags, position, None)
    ensures KeepsAll(contents) ==>
      PassageStr(pid, name, contents, tags, position, Some(TokenizeFrom([], contents, NoStop).value.tokens))
      == PassageStr(pid, name, contents, tags, position, None)
  {
    TokenizeThenPrint(contents);
    var tokens := TokenizeFrom([], contents, NoStop).value.tokens;
    if tokens == [] {
      InsRefl(EscapeHtml(contents));
    }
  }

  // ---------------------------------------------------------------------------------------
  // The passage object (harlowe.py:138-171, 216-239)

  class Passage {
    var pid: string
    var name: string
    var contents: string
    var tags: string
    var position: string
    /** None until parse_contents runs (the class attribute default). */
    var parsedContents: Option<seq<Node>>

    /** Every token list the passage holds, at every depth, keeps its strings apart. */
    predicate Valid()
      reads this
    {
      parsedContents.Some? ==> DeepFlat(parsedContents.value)
    }

    constructor(pid: string, name: string, contents: string, tags: string, position: string)
      ensures this.pid == pid && this.name == name && this.contents == contents
      ensures this.tags == tags && this.position == position
      ensures parsedContents == None && Valid()
    {
      this.pid := pid;
      this.name := name;
      this.contents := contents;
      this.tags := tags;
      this.position := position;
      parsedContents := None;
    }

    /** str(passage). */
    function Str(): Option<string>
      reads this
    {
      PassageStr(pid, name, contents, tags, position, parsedContents)
    }

    /** parse_contents: the token list of the whole contents replaces parsed_contents. When
        tokenize raises, the exception is returned and nothing changes. */
    method ParseContents() returns (err: Option<ParseError>)
      requires Valid()
      modifies this
      ensures Valid()
      ensures pid == old(pid) && name == old(name) && contents == old(contents)
      ensures tags == old(tags) && position == old(position)
      ensures var r := TokenizeFrom([], contents, NoStop);
        if r.Ok? then err == None && parsedContents == Some(r.value.tokens)
        else err == Some(r.error) && parsedContents == old(parsedContents)
    {
      var r := Tokenize(contents, NoStop);
      if r.Fail? {
        return Some(r.error);
      }
      TokenizeFromDeep([], contents, NoStop);
      parsedContents := Some(r.value.tokens);
      err := None;
    }

    /** modify_text: parses first when there is no token list or it is empty, then applies
        `f` to every string of the list and every other item's modify_text. */
    method ModifyText(f: string -> string, decode: string -> string) returns (err: Option<ParseError>)
      requires Valid()
      modifies this
      ensures Valid()
      ensures pid == old(pid) && name == old(name) && contents == old(contents)
      ensures tags == old(tags) && position == old(position)
      ensures var r := TokenizeFrom([], contents, NoStop);
        if old(parsedContents).Some? && old(parsedContents).value != [] then
          err == None && parsedContents == Some(ModifyList(old(parsedContents).value, f, decode))
        else if r.Ok? then
          err == None && parsedContents == Some(ModifyList(r.value.tokens, f, decode))
        else
          err == Some(r.error) && parsedContents == old(parsedContents)
    {
      if parsedContents.None? || parsedContents.value == [] {
        err := ParseContents();
        if err.Some? {
          return;
        }
      }
      var items := parsedContents.value;
      ModifyListDeepFlat(items, f, decode);
      parsedContents := Some(ModifyList(items, f, decode));
      err := None;
    }
  }
}
