/** The character classes of harlowe.py:17-34 and the scanners that stand in for its
    regular expressions: each returns the length of what the expression matches at the
    start of a string, or None. */
module Scanners {
  import opened Base

  // ---------------------------------------------------------------------------------------
  // Character classes

  /** The Latin letters Harlowe spells out (harlowe.py:20). */
  predicate IsExtraLetter(c: char) {
    ('\U{C0}' <= c <= '\U{FF}') || c == '\U{150}' || c == '\U{151}' || c == '\U{170}' || c == '\U{171}'
  }

  predicate IsAsciiLetter(c: char) { ('a' <= c <= 'z') || ('A' <= c <= 'Z') }

  /** The letter class of a property name (harlowe.py:22). */
  predicate IsLetter(c: char) { IsAsciiLetter(c) || IsExtraLetter(c) }

  /** The word class `[\w...]`, with `\w` taken as ASCII letters, digits and underscore. */
  predicate IsWordChar(c: char) { IsLetter(c) || ('0' <= c <= '9') || c == '_' }

  /** Characters of hook names and of macro names after the first (harlowe.py:31, 33). */
  predicate IsTagChar(c: char) { IsWordChar(c) || c == '-' }

  /** The first character of a macro name (harlowe.py:31). */
  predicate IsMacroNameStart(c: char) { IsTagChar(c) || c == '\\' || c == '/' }

  // ---------------------------------------------------------------------------------------
  // Names

  predicate HasLetter(s: string) { exists i :: 0 <= i < |s| && IsLetter(s[i]) }

  /** The property-name pattern (harlowe.py:22) at the start of `s`: it matches the maximal
      run of word characters exactly when that run contains a letter. */
  function PropertyNameLength(s: string): (r: Option<nat>)
    ensures r.Some? <==> HasLetter(s[..RunLength(s, IsWordChar)])
    ensures r.Some? ==> r.value == RunLength(s, IsWordChar) && r.value > 0
  {
    var n := RunLength(s, IsWordChar);
    if HasLetter(s[..n]) then Some(n) else None
  }

  /** What the macro-name pattern captured: a plain name, or a variable name (without `$`). */
  datatype NameToken = PlainName(text: string) | VariableName(text: string)

  function NameSource(n: NameToken): string {
    match n
    case PlainName(t) => t
    case VariableName(t) => "$" + t
  }

  /** The plain-name branch of the macro-name pattern (harlowe.py:31): a first character,
      the maximal run of tag characters after it, and a colon right after that run. */
  function PlainNameLength(s: string): (r: Option<nat>)
    ensures r.Some? ==> 1 <= r.value < |s| && s[r.value] == ':' && IsMacroNameStart(s[0])
    ensures r.Some? ==> forall i :: 1 <= i < r.value ==> IsTagChar(s[i])
  {
    if |s| > 0 && IsMacroNameStart(s[0]) then
      var n := 1 + RunLength(s[1..], IsTagChar);
      RunLengthAll(s[1..], IsTagChar);
      assert forall i :: 1 <= i < n ==> s[i] == s[1..][i - 1];
      if n < |s| && s[n] == ':' then Some(n) else None
    else None
  }

  /** The macro-name pattern (harlowe.py:31) at the start of `s`, with the colon after it:
      the plain branch first, then `$` and a property name. */
  function MatchMacroName(s: string): (r: Option<(NameToken, nat)>)
    ensures r.Some? ==> 2 <= r.value.1 <= |s| && s[..r.value.1] == NameSource(r.value.0) + ":"
    ensures r.Some? && r.value.0.PlainName? ==> PlainNameLength(s) == Some(r.value.1 - 1)
    ensures r.Some? && r.value.0.VariableName? ==>
      s[0] == '$' && PropertyNameLength(s[1..]) == Some(|r.value.0.text|)
    ensures PlainNameLength(s).Some? ==> r.Some? && r.value.0.PlainName?
  {
    match PlainNameLength(s)
    case Some(n) =>
      assert s[..n + 1] == s[..n] + ":";
      var len: nat := n + 1;
      Some((PlainName(s[..n]), len))
    case None =>
      if |s| > 0 && s[0] == '$' then
        match PropertyNameLength(s[1..])
        case Some(k) =>
          if 1 + k < |s| && s[1 + k] == ':' then
            assert s[..k + 2] == "$" + s[1..1 + k] + ":";
            var len: nat := k + 2;
            Some((VariableName(s[1..1 + k]), len))
          else None
        case None => None
      else None
  }

  // ---------------------------------------------------------------------------------------
  // Hook name tags (harlowe.py:33, 472, 486)

  /** `|tag>[`: the length of the tag when a run of tag characters is followed by `>[`. */
  function MatchLeftTag(s: string): (r: Option<nat>)
    ensures r.Some? <==>
      RunLength(s, IsTagChar) + 2 <= |s| && s[RunLength(s, IsTagChar)] == '>' && s[RunLength(s, IsTagChar) + 1] == '['
    ensures r.Some? ==> r.value == RunLength(s, IsTagChar)
  {
    var n := RunLength(s, IsTagChar);
    if n + 2 <= |s| && s[n] == '>' && s[n + 1] == '[' then Some(n) else None
  }

  /** `]<tag|`: the length of the tag when a run of tag characters is followed by `|`. */
  function MatchRightTag(s: string): (r: Option<nat>)
    ensures r.Some? <==> RunLength(s, IsTagChar) < |s| && s[RunLength(s, IsTagChar)] == '|'
    ensures r.Some? ==> r.value == RunLength(s, IsTagChar)
  {
    var n := RunLength(s, IsTagChar);
    if n < |s| && s[n] == '|' then Some(n) else None
  }

  // ---------------------------------------------------------------------------------------
  // Links (harlowe.py:34, 499)

  /** The separator `ab` sits at index `i` of the link contents `c` with text on both sides. */
  predicate SplitsAt(c: string, i: int, a: char, b: char) {
    1 <= i && i + 2 < |c| && c[i] == a && c[i + 1] == b
  }

  /** The largest separator index below `k`. */
  function LastSplit(c: string, a: char, b: char, k: nat): (r: Option<nat>)
    requires k <= |c|
    ensures r.Some? ==> r.value < k && SplitsAt(c, r.value, a, b)
    ensures r.Some? ==> forall j :: r.value < j < k ==> !SplitsAt(c, j, a, b)
    ensures r.None? ==> forall j :: 0 <= j < k ==> !SplitsAt(c, j, a, b)
  {
    if k == 0 then None
    else if SplitsAt(c, k - 1, a, b) then Some(k - 1)
    else LastSplit(c, a, b, k - 1)
  }

  /** The smallest separator index at or above `k`. */
  function FirstSplit(c: string, a: char, b: char, k: nat): (r: Option<nat>)
    requires k <= |c|
    ensures r.Some? ==> k <= r.value < |c| && SplitsAt(c, r.value, a, b)
    ensures r.Some? ==> forall j :: k <= j < r.value ==> !SplitsAt(c, j, a, b)
    ensures r.None? ==> forall j :: k <= j < |c| ==> !SplitsAt(c, j, a, b)
    decreases |c| - k
  {
    if k == |c| then None
    else if SplitsAt(c, k, a, b) then Some(k)
    else FirstSplit(c, a, b, k + 1)
  }

  /** The three forms of link contents. */
  datatype LinkShape =
    | ArrowRight(text: string, passage: string)   // text->passage
    | ArrowLeft(passage: string, text: string)    // passage<-text
    | Plain(contents: string)                     // contents

  function LinkSource(l: LinkShape): string {
    match l
    case ArrowRight(t, p) => t + "->" + p
    case ArrowLeft(p, t) => p + "<-" + t
    case Plain(c) => c
  }

  /** The alternation of harlowe.py:34 applied to bracket-free contents: the last `->`,
      else the first `<-`, each with text on both sides, else the whole contents. */
  function SplitLink(c: string): (r: LinkShape)
    ensures LinkSource(r) == c
    ensures r.ArrowRight? ==>
      r.text != [] && r.passage != [] && forall j :: |r.text| < j ==> !SplitsAt(c, j, '-', '>')
    ensures r.ArrowLeft? ==>
      && r.passage != [] && r.text != []
      && (forall j :: !SplitsAt(c, j, '-', '>'))
      && forall j :: j < |r.passage| ==> !SplitsAt(c, j, '<', '-')
    ensures r.Plain? ==> forall j :: !SplitsAt(c, j, '-', '>') && !SplitsAt(c, j, '<', '-')
  {
    match LastSplit(c, '-', '>', |c|)
    case Some(i) => ArrowRight(c[..i], c[i + 2..])
    case None =>
      match FirstSplit(c, '<', '-', 0)
      case Some(i) => ArrowLeft(c[..i], c[i + 2..])
      case None => Plain(c)
  }

  predicate IsNotCloseBracket(c: char) { c != ']' }

  /** The link pattern (harlowe.py:499): bracket-free contents followed by `]]`. */
  function MatchLink(s: string): (r: Option<(LinkShape, nat)>)
    ensures r.Some? ==> r.value.1 <= |s| && s[..r.value.1] == LinkSource(r.value.0) + "]]"
    ensures r.Some? ==> ']' !in LinkSource(r.value.0)
    ensures r.Some? ==> r.value.0 == SplitLink(LinkSource(r.value.0))
  {
    var n := RunLength(s, IsNotCloseBracket);
    RunLengthAll(s, IsNotCloseBracket);
    if n + 2 <= |s| && s[n + 1] == ']' then
      assert s[..n + 2] == s[..n] + "]]";
      Some((SplitLink(s[..n]), n + 2))
    else None
  }

  // ---------------------------------------------------------------------------------------
  // Verbatim text (harlowe.py:648-652)

  function VerbatimCloseFrom(t: string, j: nat): (r: Option<nat>)
    requires 1 <= j <= |t| && NoNewline(t[..j])
    ensures r.Some? ==>
      && j <= r.value < |t| && t[r.value] == '`' && NoNewline(t[..r.value])
      && forall k :: j <= k < r.value ==> t[k] != '`'
    decreases |t| - j
  {
    if j == |t| then None
    else if t[j] == '`' then Some(j)
    else if t[j] == '\n' then None
    else
      assert t[..j + 1] == t[..j] + [t[j]];
      VerbatimCloseFrom(t, j + 1)
  }

  /** `.+?` followed by a backtick: the index of the first backtick after at least one
      character, with no line break before it. */
  function VerbatimEnd(t: string): (r: Option<nat>)
    ensures r.Some? ==>
      && 1 <= r.value < |t| && t[r.value] == '`' && NoNewline(t[..r.value])
      && forall k :: 1 <= k < r.value ==> t[k] != '`'
  {
    if |t| == 0 || t[0] == '\n' then None else VerbatimCloseFrom(t, 1)
  }

  // ---------------------------------------------------------------------------------------
  // The tokenizer's search (harlowe.py:588-598, 608-611)

  /** Which closing pattern, if any, the tokenizer stops at. */
  datatype Stop = NoStop | HookStop | MacroStop

  /** The tokens the stop pattern matches: `\]<?` for hooks, `\)` for macros. */
  predicate IsStopToken(stop: Stop, tok: string) {
    match stop
    case NoStop => false
    case HookStop => tok == "]" || tok == "]<"
    case MacroStop => tok == ")"
  }

  predicate IsStartChar(c: char) { c == '[' || c == '|' || c == '(' || c == '$' || c == '`' }

  predicate IsStopChar(c: char, stop: Stop) {
    (stop == HookStop && c == ']') || (stop == MacroStop && c == ')')
  }

  /** A character at which the tokenizer's pattern matches. */
  predicate IsTrigger(c: char, stop: Stop) { IsStartChar(c) || IsStopChar(c, stop) }

  /** The leftmost position at which a start token or the stop token matches. */
  function FindTrigger(s: string, stop: Stop): (r: Option<nat>)
    ensures r.Some? ==> r.value < |s| && IsTrigger(s[r.value], stop)
  {
    if s == [] then None
    else if IsTrigger(s[0], stop) then Some(0)
    else
      match FindTrigger(s[1..], stop)
      case Some(p) => Some(p + 1)
      case None => None
  }

  /** Which handler a start token selects. */
  datatype StartKind = LinkStart | HookStart | BarStart | MacroStart | SigilStart | VerbatimStart | BracketRunStart

  datatype Trigger = Start(kind: StartKind, token: string) | StopAt(token: string)

  /** `n` opening brackets. */
  function Brackets(n: nat): (r: string)
    ensures |r| == n && forall i :: 0 <= i < n ==> r[i] == '['
  {
    seq(n, _ => '[')
  }

  /** The number of opening brackets in a row from index `i`. */
  function OpenBracketsFrom(s: string, i: nat): (n: nat)
    requires i <= |s|
    ensures i + n <= |s|
    decreases |s| - i
  {
    if i < |s| && s[i] == '[' then 1 + OpenBracketsFrom(s, i + 1) else 0
  }

  /** The run counted by OpenBracketsFrom is all brackets and ends before a non-bracket. */
  lemma {:induction false} OpenBracketsFromAll(s: string, i: nat)
    requires i <= |s|
    ensures forall k :: i <= k < i + OpenBracketsFrom(s, i) ==> s[k] == '['
    ensures i + OpenBracketsFrom(s, i) == |s| || s[i + OpenBracketsFrom(s, i)] != '['
    decreases |s| - i
  {
    if i < |s| && s[i] == '[' {
      OpenBracketsFromAll(s, i + 1);
    }
  }

  /** The token matched at a `[`: `[[` not followed by `[` opens a link, `[` not followed
      by `[` a hook, and a run of three or more brackets nested hooks. */
  function BracketTrigger(s: string, p: nat): (t: Trigger)
    requires p < |s| && s[p] == '['
    ensures t.Start? && 1 <= |t.token| && p + |t.token| <= |s|
    ensures t.kind == LinkStart || t.kind == HookStart || t.kind == BracketRunStart
    ensures t.kind == LinkStart ==> t.token == "[["
    ensures t.kind == HookStart ==> t.token == "["
    ensures t.kind == BracketRunStart ==> |t.token| >= 3 && forall i :: 0 <= i < |t.token| ==> t.token[i] == '['
  {
    var n := OpenBracketsFrom(s, p);
    if n == 1 then Start(HookStart, "[")
    else if n == 2 then Start(LinkStart, "[[")
    else Start(BracketRunStart, Brackets(n))
  }

  /** The bracket token is the text at `p`, and it takes the whole run of brackets there. */
  lemma BracketTriggerMatches(s: string, p: nat)
    requires p < |s| && s[p] == '['
    ensures var t := BracketTrigger(s, p);
      && s[..p + |t.token|] == s[..p] + t.token
      && (t.kind == LinkStart ==> p + 2 == |s| || s[p + 2] != '[')
      && (t.kind == HookStart ==> p + 1 == |s| || s[p + 1] != '[')
      && (t.kind == BracketRunStart ==> p + |t.token| == |s| || s[p + |t.token|] != '[')
  {
    var n := OpenBracketsFrom(s, p);
    OpenBracketsFromAll(s, p);
    assert s[..p + n] == s[..p] + Brackets(n);
  }

  /** The token matched at a trigger position: a bracket as above, any other start
      character on its own, and for the stop pattern `]<` in preference to `]`. */
  function TriggerAt(s: string, p: nat, stop: Stop): (t: Trigger)
    requires p < |s| && IsTrigger(s[p], stop)
    ensures 1 <= |t.token| && p + |t.token| <= |s|
    ensures t.StopAt? <==> IsStopChar(s[p], stop)
    ensures t.StopAt? ==> IsStopToken(stop, t.token)
    ensures t.Start? && t.kind == LinkStart ==> t.token == "[["
    ensures t.Start? && t.kind == BracketRunStart ==> forall i :: 0 <= i < |t.token| ==> t.token[i] == '['
  {
    var c := s[p];
    if c == '[' then BracketTrigger(s, p)
    else if c == '|' then Start(BarStart, "|")
    else if c == '(' then Start(MacroStart, "(")
    else if c == '$' then Start(SigilStart, "$")
    else if c == '`' then Start(VerbatimStart, "`")
    else if c == ']' then
      if p + 1 < |s| && s[p + 1] == '<' then StopAt("]<") else StopAt("]")
    else StopAt(")")
  }

  /** The token matched at a trigger position is the text there, and the tokens are the
      longest the patterns allow. */
  lemma TriggerAtMatches(s: string, p: nat, stop: Stop)
    requires p < |s| && IsTrigger(s[p], stop)
    ensures var t := TriggerAt(s, p, stop);
      && s[..p + |t.token|] == s[..p] + t.token
      && (t == StopAt("]") ==> p + 1 == |s| || s[p + 1] != '<')
      && (t.Start? && t.kind == LinkStart ==> p + 2 == |s| || s[p + 2] != '[')
      && (t.Start? && t.kind == HookStart ==> t.token == "[" && (p + 1 == |s| || s[p + 1] != '['))
      && (t.Start? && t.kind == BracketRunStart ==> |t.token| >= 3 && (p + |t.token| == |s| || s[p + |t.token|] != '['))
      && (t.Start? && t.kind == BarStart ==> t.token == "|")
      && (t.Start? && t.kind == MacroStart ==> t.token == "(")
      && (t.Start? && t.kind == SigilStart ==> t.token == "$")
      && (t.Start? && t.kind == VerbatimStart ==> t.token == "`")
  {
    var c := s[p];
    if c == '[' {
      BracketTriggerMatches(s, p);
    } else {
      assert s[..p + 1] == s[..p] + [c];
      if c == ']' && p + 1 < |s| && s[p + 1] == '<' {
        assert s[..p + 2] == s[..p] + "]<";
      }
    }
  }
}
