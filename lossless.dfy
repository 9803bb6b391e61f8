/** When printing the tokens gives the input back: the tokenizer loses text only where a hook
    drops a name tag (both tags on one hook, or an empty tag) and adds a `)` only where a
    macro's code runs out before its `)`. These predicates follow the tokenizer's own
    recursion and say that neither happens in the runs it makes over a text. */
module Lossless {
  import opened Base
  import opened Scanners
  import opened Nodes
  import opened Tokenizer

  /** A hook whose body stopped at `tok` with `rest` after it, opened with the left name tag
      `nametag`, prints both of its tags: a right tag is not empty and is the only tag, and
      a left tag that stays is not empty. */
  predicate TagsKept(nametag: Option<string>, tok: string, rest: string) {
    if tok == "]<" && MatchRightTag(rest).Some? then nametag.None? && MatchRightTag(rest).value > 0
    else nametag.None? || nametag.value != []
  }

  /** The run of tokenize over `s` with the stop pattern `stop` keeps every name tag, and
      when `closed` holds every macro it opens reaches its `)`. */
  predicate RunKeeps(s: string, stop: Stop, closed: bool)
    decreases |s|, 0, 3
  {
    s == [] ||
    match FindTrigger(s, stop)
    case None => true
    case Some(p) => AtKeeps(s, p, stop, closed)
  }

  /** The same from the token found at `p`. */
  predicate AtKeeps(s: string, p: nat, stop: Stop, closed: bool)
    requires p < |s| && IsTrigger(s[p], stop)
    decreases |s|, 0, 2
  {
    match TriggerAt(s, p, stop)
    case StopAt(_) => true
    case Start(kind, tok) => StartKeeps(kind, tok, s[p + |tok|..], stop, |s|, closed)
  }

  /** The same from the start token `tok`: its handler, then the rest of the run. */
  predicate StartKeeps(kind: StartKind, tok: string, after: string, stop: Stop, bound: nat, closed: bool)
    requires |tok| >= 1 && (kind == LinkStart ==> tok == "[[")
    requires kind == BracketRunStart ==> forall i :: 0 <= i < |tok| ==> tok[i] == '['
    requires |tok| + |after| <= bound
    decreases bound, 0, 1
  {
    && HandlerKeeps(kind, tok, after, closed)
    && match Dispatch(kind, tok, after)
       case Fail(_) => true
       case Ok(h) => RunKeeps(h.rest, stop, closed)
  }

  /** The handler the start token `tok` selects, over the text `t` after it. */
  predicate HandlerKeeps(kind: StartKind, tok: string, t: string, closed: bool)
    requires |tok| >= 1 && (kind == LinkStart ==> tok == "[[")
    decreases |tok| + |t| - 1, 3, 0
  {
    match kind
    case LinkStart => LinkKeeps(t, closed)
    case HookStart => HookKeeps("[", t, closed)
    case BarStart => HookKeeps("|", t, closed)
    case MacroStart => MacroKeeps(t, closed)
    case SigilStart => true
    case VerbatimStart => true
    case BracketRunStart => NestedKeeps(|tok|, t, closed)
  }

  /** _parse_hook after `m`: a hook that closes keeps its tags, and so do the runs in its body. */
  predicate HookKeeps(m: string, t: string, closed: bool)
    decreases |t|, 1, 0
  {
    if m == "|" then
      match MatchLeftTag(t)
      case None => true
      case Some(n) => n + 2 <= |t| && BodyKeeps(Some(t[..n]), t[n + 2..], closed)
    else BodyKeeps(None, t, closed)
  }

  /** The hook body `body` after the left name tag `nametag`, if any. */
  predicate BodyKeeps(nametag: Option<string>, body: string, closed: bool)
    decreases |body|, 0, 4
  {
    match TokenizeFrom([], body, HookStop)
    case Fail(_) => true
    case Ok(inner) =>
      inner.stop.None? || (RunKeeps(body, HookStop, closed) && TagsKept(nametag, inner.stop.value, inner.rest))
  }

  /** _parse_link: the runs over the link's text and passage name, or the hook it falls
      back to. */
  predicate LinkKeeps(t: string, closed: bool)
    decreases |t| + 1, 2, 0
  {
    match MatchLink(t)
    case None => HookKeeps("[", "[" + t, closed)
    case Some((shape, _)) =>
      match shape
      case Plain(c) => RunKeeps(c, NoStop, closed)
      case ArrowRight(x, y) => RunKeeps(x, NoStop, closed) && RunKeeps(y, NoStop, closed)
      case ArrowLeft(y, x) => RunKeeps(x, NoStop, closed) && RunKeeps(y, NoStop, closed)
  }

  /** _parse_macro: the run over the macro's code, which reaches `)` when `closed`, and the
      hook that may follow. */
  predicate MacroKeeps(t: string, closed: bool)
    decreases |t|, 1, 0
  {
    match MatchMacroName(t)
    case None => true
    case Some((_, len)) =>
      match TokenizeFrom([], t[len..], MacroStop)
      case Fail(_) => true
      case Ok(inner) =>
        && RunKeeps(t[len..], MacroStop, closed)
        && (closed ==> inner.stop.Some?)
        && (inner.rest != [] && inner.rest[0] == '[' ==> HookKeeps("[", inner.rest[1..], closed))
  }

  /** _parse_nested_brackets with `n` brackets left: each hook of the run. */
  predicate NestedKeeps(n: nat, t: string, closed: bool)
    decreases |t|, 2, n
  {
    n == 0 ||
    (&& HookKeeps("[", t, closed)
     && match ParseHook("[", t)
        case Fail(_) => true
        case Ok(h) => h.nodes[0].Hook? ==> NestedKeeps(n - 1, h.rest, closed))
  }

  /** Every hook tokenize builds from the passage text `s` keeps its name tags. */
  predicate KeepsTags(s: string) {
    RunKeeps(s, NoStop, false)
  }

  /** Every hook tokenize builds from `s` keeps its name tags and every macro it opens is
      closed by a `)`. */
  predicate KeepsAll(s: string) {
    RunKeeps(s, NoStop, true)
  }
}
