/** The three string codecs of harlowe.py: Harlowe's HTML escaping, backslash escaping of
    string literals for a chosen quote mark, and the decoding of backslash escapes. */
module Escaping {
  import opened Base

  /** `s` with every occurrence of the character `c` replaced by `rep` (Python's str.replace
      with a one-character pattern). */
  function ReplaceAll(s: string, c: char, rep: string): (r: string)
    ensures c !in rep ==> c !in r
  {
    if s == [] then []
    else (if s[0] == c then rep else [s[0]]) + ReplaceAll(s[1..], c, rep)
  }

  lemma {:induction false} ReplaceAllConcat(a: string, b: string, c: char, rep: string)
    ensures ReplaceAll(a + b, c, rep) == ReplaceAll(a, c, rep) + ReplaceAll(b, c, rep)
  {
    if a == [] {
      assert a + b == b;
    } else {
      assert (a + b)[0] == a[0];
      assert (a + b)[1..] == a[1..] + b;
      ReplaceAllConcat(a[1..], b, c, rep);
    }
  }

  /** Replacing a character that does not occur changes nothing. */
  lemma {:induction false} ReplaceAllAbsent(s: string, c: char, rep: string)
    requires c !in s
    ensures ReplaceAll(s, c, rep) == s
  {
    if s != [] {
      assert s[0] != c;
      assert c !in s[1..];
      ReplaceAllAbsent(s[1..], c, rep);
      assert s == [s[0]] + s[1..];
    }
  }

  lemma ReplaceAllSingle(x: char, c: char, rep: string)
    ensures ReplaceAll([x], c, rep) == if x == c then rep else [x]
  {
    assert [x][1..] == [];
  }

  // ---------------------------------------------------------------------------------------
  // HTML escaping (harlowe.py:97-124)

  /** The entity Harlowe writes for one character, or the character itself. */
  function EscapeHtmlChar(c: char): string {
    if c == '&' then "&amp;"
    else if c == '<' then "&lt;"
    else if c == '>' then "&gt;"
    else if c == '"' then "&quot;"
    else if c == '\'' then "&#39;"
    else [c]
  }

  /** _escape_harlowe_html as the character-by-character escaping that its chain of five
      replacements amounts to (EscapeHtmlStepsIsEscape); nodes print their text with it. */
  function EscapeHtml(s: string): string {
    if s == [] then [] else EscapeHtmlChar(s[0]) + EscapeHtml(s[1..])
  }

  lemma {:induction false} EscapeHtmlConcat(a: string, b: string)
    ensures EscapeHtml(a + b) == EscapeHtml(a) + EscapeHtml(b)
  {
    if a == [] {
      assert a + b == b;
    } else {
      assert (a + b)[0] == a[0];
      assert (a + b)[1..] == a[1..] + b;
      EscapeHtmlConcat(a[1..], b);
    }
  }

  /** The five replacements, in the order harlowe.py:119-123 applies them (ampersand first). */
  function EscapeHtmlSteps(s: string): string {
    var s1 := ReplaceAll(s, '&', "&amp;");
    var s2 := ReplaceAll(s1, '<', "&lt;");
    var s3 := ReplaceAll(s2, '>', "&gt;");
    var s4 := ReplaceAll(s3, '"', "&quot;");
    ReplaceAll(s4, '\'', "&#39;")
  }

  lemma EscapeHtmlStepsConcat(a: string, b: string)
    ensures EscapeHtmlSteps(a + b) == EscapeHtmlSteps(a) + EscapeHtmlSteps(b)
  {
    ReplaceAllConcat(a, b, '&', "&amp;");
    var a1, b1 := ReplaceAll(a, '&', "&amp;"), ReplaceAll(b, '&', "&amp;");
    ReplaceAllConcat(a1, b1, '<', "&lt;");
    var a2, b2 := ReplaceAll(a1, '<', "&lt;"), ReplaceAll(b1, '<', "&lt;");
    ReplaceAllConcat(a2, b2, '>', "&gt;");
    var a3, b3 := ReplaceAll(a2, '>', "&gt;"), ReplaceAll(b2, '>', "&gt;");
    ReplaceAllConcat(a3, b3, '"', "&quot;");
    var a4, b4 := ReplaceAll(a3, '"', "&quot;"), ReplaceAll(b3, '"', "&quot;");
    ReplaceAllConcat(a4, b4, '\'', "&#39;");
  }

  /** An entity the ampersand replacement writes is left alone by the four later ones. */
  lemma EscapeHtmlStepsKeep(e: string)
    requires e == "&amp;" || e == "&lt;" || e == "&gt;" || e == "&quot;" || e == "&#39;"
    ensures ReplaceAll(e, '<', "&lt;") == e && ReplaceAll(e, '>', "&gt;") == e
    ensures ReplaceAll(e, '"', "&quot;") == e && ReplaceAll(e, '\'', "&#39;") == e
  {
    assert '<' !in e && '>' !in e && '"' !in e && '\'' !in e;
    ReplaceAllAbsent(e, '<', "&lt;");
    ReplaceAllAbsent(e, '>', "&gt;");
    ReplaceAllAbsent(e, '"', "&quot;");
    ReplaceAllAbsent(e, '\'', "&#39;");
  }

  /** On one character the five replacements produce exactly that character's entity: an
      entity written by an earlier replacement is never rewritten by a later one. */
  lemma EscapeHtmlStepsChar(c: char)
    ensures EscapeHtmlSteps([c]) == EscapeHtmlChar(c)
  {
    ReplaceAllSingle(c, '&', "&amp;");
    ReplaceAllSingle(c, '<', "&lt;");
    ReplaceAllSingle(c, '>', "&gt;");
    ReplaceAllSingle(c, '"', "&quot;");
    ReplaceAllSingle(c, '\'', "&#39;");
    if IsHtmlSpecial(c) {
      EscapeHtmlStepsKeep(EscapeHtmlChar(c));
    }
  }

  lemma {:induction false} EscapeHtmlStepsIsEscape(s: string)
    ensures EscapeHtmlSteps(s) == EscapeHtml(s)
  {
    if s != [] {
      assert s == [s[0]] + s[1..];
      EscapeHtmlStepsConcat([s[0]], s[1..]);
      EscapeHtmlStepsChar(s[0]);
      EscapeHtmlStepsIsEscape(s[1..]);
    }
  }

  /** The five entities EscapeHtml produces. */
  predicate StartsWithEntity(t: string) {
    (|t| >= 5 && t[..5] == "&amp;") || (|t| >= 4 && t[..4] == "&lt;") || (|t| >= 4 && t[..4] == "&gt;")
    || (|t| >= 6 && t[..6] == "&quot;") || (|t| >= 5 && t[..5] == "&#39;")
  }

  predicate IsHtmlSpecial(c: char) {
    c == '&' || c == '<' || c == '>' || c == '"' || c == '\''
  }

  /** Output of Harlowe escaping: no raw `<`, `>`, `"` or `'`, and every `&` opens an entity. */
  predicate WellEscaped(t: string) {
    && (forall i :: 0 <= i < |t| ==> t[i] != '<' && t[i] != '>' && t[i] != '"' && t[i] != '\'')
    && (forall i :: 0 <= i < |t| && t[i] == '&' ==> StartsWithEntity(t[i..]))
  }

  lemma WellEscapedConcat(a: string, b: string)
    requires WellEscaped(a) && WellEscaped(b)
    ensures WellEscaped(a + b)
  {
    forall i | 0 <= i < |a + b| && (a + b)[i] == '&'
      ensures StartsWithEntity((a + b)[i..])
    {
      if i < |a| {
        assert StartsWithEntity(a[i..]);
        assert (a + b)[i..] == a[i..] + b;
        assert (a + b)[i..][..4] == a[i..][..4];
        if |a[i..]| >= 5 {
          assert (a + b)[i..][..5] == a[i..][..5];
        }
        if |a[i..]| >= 6 {
          assert (a + b)[i..][..6] == a[i..][..6];
        }
      } else {
        assert (a + b)[i..] == b[i - |a|..];
      }
    }
  }

  lemma EscapeHtmlCharWellEscaped(c: char)
    ensures WellEscaped(EscapeHtmlChar(c))
  {
    if IsHtmlSpecial(c) {
      EntityWellEscaped(EscapeHtmlChar(c));
    }
  }

  /** An entity is well escaped: its only `&` is its first character. */
  lemma EntityWellEscaped(e: string)
    requires e == "&amp;" || e == "&lt;" || e == "&gt;" || e == "&quot;" || e == "&#39;"
    ensures WellEscaped(e)
  {
    forall i | 0 <= i < |e| && e[i] == '&'
      ensures StartsWithEntity(e[i..])
    {
      assert i == 0 && e[0..] == e;
    }
  }

  /** Every escaped string is well escaped. */
  lemma {:induction false} EscapeHtmlWellEscaped(s: string)
    ensures WellEscaped(EscapeHtml(s))
  {
    if s != [] {
      EscapeHtmlWellEscaped(s[1..]);
      EscapeHtmlCharWellEscaped(s[0]);
      WellEscapedConcat(EscapeHtmlChar(s[0]), EscapeHtml(s[1..]));
    }
  }

  /** Decoding of the five entities, in one left-to-right pass. */
  function UnescapeHtml(t: string): string
    decreases |t|
  {
    if t == [] then []
    else if |t| >= 5 && t[..5] == "&amp;" then "&" + UnescapeHtml(t[5..])
    else if |t| >= 4 && t[..4] == "&lt;" then "<" + UnescapeHtml(t[4..])
    else if |t| >= 4 && t[..4] == "&gt;" then ">" + UnescapeHtml(t[4..])
    else if |t| >= 6 && t[..6] == "&quot;" then "\"" + UnescapeHtml(t[6..])
    else if |t| >= 5 && t[..5] == "&#39;" then "'" + UnescapeHtml(t[5..])
    else [t[0]] + UnescapeHtml(t[1..])
  }

  /** A character that does not open an entity is decoded as itself. */
  lemma UnescapeHtmlPlain(t: string)
    requires t != [] && t[0] != '&'
    ensures UnescapeHtml(t) == [t[0]] + UnescapeHtml(t[1..])
  {
    if |t| >= 4 { assert t[..4][0] == t[0]; }
    if |t| >= 5 { assert t[..5][0] == t[0]; }
    if |t| >= 6 { assert t[..6][0] == t[0]; }
  }

  lemma UnescapeHtmlStep(c: char, t: string)
    ensures UnescapeHtml(EscapeHtmlChar(c) + t) == [c] + UnescapeHtml(t)
  {
    var h := EscapeHtmlChar(c);
    var e := h + t;
    assert e[..|h|] == h && e[|h|..] == t;
    if !IsHtmlSpecial(c) {
      assert e[0] == c;
      assert e[1..] == t;
      UnescapeHtmlPlain(e);
    } else if c == '<' || c == '>' {
      assert e[..4] == h;
      assert |e| >= 5 ==> e[..5][1] != 'a';
    } else if c == '"' {
      assert e[..6] == h;
      assert e[..4][1] == 'q' && e[..5][1] == 'q';
    } else if c == '\'' {
      assert e[..5] == h;
      assert e[..4][1] == '#' && (|e| >= 6 ==> e[..6][1] == '#');
    } else {
      assert e[..5] == h;
    }
  }

  /** Decoding undoes escaping, for every string. */
  lemma {:induction false} UnescapeEscapeHtml(s: string)
    ensures UnescapeHtml(EscapeHtml(s)) == s
  {
    if s != [] {
      UnescapeHtmlStep(s[0], EscapeHtml(s[1..]));
      UnescapeEscapeHtml(s[1..]);
      assert s == [s[0]] + s[1..];
    }
  }

  lemma WellEscapedSuffix(t: string, k: nat)
    requires WellEscaped(t) && k <= |t|
    ensures WellEscaped(t[k..])
  {
    forall i | 0 <= i < |t[k..]| && t[k..][i] == '&'
      ensures StartsWithEntity(t[k..][i..])
    {
      assert t[k..][i..] == t[k + i..];
      assert t[k + i] == '&';
    }
  }

  lemma EscapeHtmlCons(c: char, u: string)
    ensures EscapeHtml([c] + u) == EscapeHtmlChar(c) + EscapeHtml(u)
  {
    assert ([c] + u)[1..] == u;
  }

  /** Escaping undoes decoding on well-escaped strings: escaping is a bijection between all
      strings and the well-escaped ones. */
  lemma {:induction false} EscapeUnescapeHtml(t: string)
    requires WellEscaped(t)
    ensures EscapeHtml(UnescapeHtml(t)) == t
    decreases |t|
  {
    if t != [] {
      var k, c := UnescapeHtmlHead(t);
      WellEscapedSuffix(t, k);
      EscapeUnescapeHtml(t[k..]);
      EscapeHtmlCons(c, UnescapeHtml(t[k..]));
      assert t == t[..k] + t[k..];
    }
  }

  /** A well-escaped string starts with the escaped form of the character its decoding
      starts with. */
  lemma UnescapeHtmlHead(t: string) returns (k: nat, c: char)
    requires t != [] && WellEscaped(t)
    ensures 1 <= k <= |t| && EscapeHtmlChar(c) == t[..k]
    ensures UnescapeHtml(t) == [c] + UnescapeHtml(t[k..])
  {
    if t[0] == '&' {
      assert t[0..] == t;
      k, c := UnescapeHtmlEntity(t);
    } else {
      k, c := 1, t[0];
      UnescapeHtmlPlain(t);
      assert t[..1] == [t[0]];
    }
  }

  lemma UnescapeHtmlEntity(t: string) returns (k: nat, c: char)
    requires StartsWithEntity(t)
    ensures 1 <= k <= |t| && EscapeHtmlChar(c) == t[..k]
    ensures UnescapeHtml(t) == [c] + UnescapeHtml(t[k..])
  {
    if |t| >= 5 && t[..5] == "&amp;" {
      k, c := 5, '&';
    } else if |t| >= 4 && t[..4] == "&lt;" {
      k, c := 4, '<';
    } else if |t| >= 4 && t[..4] == "&gt;" {
      k, c := 4, '>';
    } else if |t| >= 6 && t[..6] == "&quot;" {
      k, c := 6, '"';
    } else {
      k, c := 5, '\'';
    }
  }

  // ---------------------------------------------------------------------------------------
  // Backslash escaping of string literals (harlowe.py:79-94)

  /** The escaped form of one character inside a literal quoted with `q`. */
  function EscapeStringChar(c: char, q: char): string {
    if c == '\\' then "\\\\"
    else if c == q && (q == '"' || q == '\'') then ['\\', c]
    else [c]
  }

  /** _escape_string, one character at a time: backslashes are doubled and the surrounding
      quote mark (when it is one of the two quote characters) gets a backslash. */
  function EscapeString(s: string, q: char): string {
    if s == [] then [] else EscapeStringChar(s[0], q) + EscapeString(s[1..], q)
  }

  /** _escape_string as written: the three str.replace calls in turn. */
  function EscapeStringSteps(s: string, q: char): string {
    var s1 := ReplaceAll(s, '\\', "\\\\");
    var s2 := if q == '"' then ReplaceAll(s1, '"', "\\\"") else s1;
    if q == '\'' then ReplaceAll(s2, '\'', "\\'") else s2
  }

  /** The replace calls escape character by character: doubling the backslashes first means
      no backslash added for a quote is doubled again. */
  lemma {:induction false} EscapeStringStepsIsEscape(s: string, q: char)
    ensures EscapeStringSteps(s, q) == EscapeString(s, q)
  {
    if s != [] {
      var h := if s[0] == '\\' then "\\\\" else [s[0]];
      var t1 := ReplaceAll(s[1..], '\\', "\\\\");
      assert ReplaceAll(s, '\\', "\\\\") == h + t1;
      if q == '"' {
        ReplaceAllConcat(h, t1, '"', "\\\"");
      } else if q == '\'' {
        ReplaceAllConcat(h, t1, '\'', "\\'");
      }
      EscapeStringStepsIsEscape(s[1..], q);
    }
  }

  // ---------------------------------------------------------------------------------------
  // Decoding of backslash escapes (harlowe.py:56-76)

  predicate IsOctalDigit(c: char) { '0' <= c <= '7' }

  predicate IsSingleEscape(c: char) {
    c == '\\' || c == '\'' || c == '"' || c == 'a' || c == 'b' || c == 'f' || c == 'n'
    || c == 'r' || c == 't' || c == 'v'
  }

  /** Length of the escape sequence the alternation of harlowe.py:66-73 matches at the
      start of `s`, trying its branches in order, or None when no branch matches. */
  function EscapeSequenceLength(s: string): (r: Option<nat>)
    requires s != [] && s[0] == '\\'
    ensures r.Some? ==> 2 <= r.value <= |s|
  {
    if |s| >= 10 && s[1] == 'U' && NoNewline(s[2..10]) then Some(10)
    else if |s| >= 6 && s[1] == 'u' && NoNewline(s[2..6]) then Some(6)
    else if |s| >= 4 && s[1] == 'x' && NoNewline(s[2..4]) then Some(4)
    else if |s| >= 2 && IsOctalDigit(s[1]) then
      var n := RunLength(s[1..], IsOctalDigit);
      Some(1 + (if n > 3 then 3 else n))
    else if |s| >= 4 && s[1] == 'N' && s[2] == '{' && 0 < RunLength(s[3..], c => c != '}') < |s| - 3 then
      Some(4 + RunLength(s[3..], c => c != '}'))
    else if |s| >= 2 && IsSingleEscape(s[1]) then Some(2)
    else None
  }

  /** The character a single-character escape stands for. */
  function SingleEscapeValue(c: char): char
    requires IsSingleEscape(c)
  {
    match c
    case 'a' => '\U{7}'
    case 'b' => '\U{8}'
    case 'f' => '\U{C}'
    case 'n' => '\n'
    case 'r' => '\r'
    case 't' => '\t'
    case 'v' => '\U{B}'
    case _ => c
  }

  /** Value of up to three octal digits. */
  function OctalValue(d: string): nat
    requires forall i :: 0 <= i < |d| ==> IsOctalDigit(d[i])
  {
    if d == [] then 0
    else
      assert IsOctalDigit(d[|d| - 1]);
      OctalValue(d[..|d| - 1]) * 8 + (d[|d| - 1] as int - '0' as int)
  }

  /** The decoded form of one matched escape sequence. Hexadecimal and named escapes go
      through the caller-supplied `decode` (the codec and the Unicode name database). */
  function DecodeEscape(e: string, decode: string -> string): string
    requires |e| >= 2 && e[0] == '\\'
  {
    if IsSingleEscape(e[1]) && |e| == 2 then [SingleEscapeValue(e[1])]
    else if |e| <= 4 && forall i :: 1 <= i < |e| ==> IsOctalDigit(e[i]) then
      assert OctalValue(e[1..]) < 512 by { OctalBound(e[1..]); }
      [OctalValue(e[1..]) as char]
    else decode(e)
  }

  lemma {:induction false} OctalBound(d: string)
    requires |d| <= 3 && forall i :: 0 <= i < |d| ==> IsOctalDigit(d[i])
    ensures OctalValue(d) < if |d| == 0 then 1 else if |d| == 1 then 8 else if |d| == 2 then 64 else 512
  {
    if d != [] {
      OctalBound(d[..|d| - 1]);
    }
  }

  /** _unescape_string: every escape sequence, found left to right, is replaced by its value;
      every other character is kept. */
  function UnescapeString(s: string, decode: string -> string): string
    decreases |s|
  {
    if s == [] then []
    else if s[0] != '\\' then [s[0]] + UnescapeString(s[1..], decode)
    else match EscapeSequenceLength(s)
      case None => [s[0]] + UnescapeString(s[1..], decode)
      case Some(n) => DecodeEscape(s[..n], decode) + UnescapeString(s[n..], decode)
  }

  /** Decoding undoes escaping, whatever the quote mark and the decoder of hexadecimal
      and named escapes. */
  lemma {:induction false} UnescapeEscapeString(s: string, q: char, decode: string -> string)
    ensures UnescapeString(EscapeString(s, q), decode) == s
  {
    if s != [] {
      var t := EscapeString(s[1..], q);
      assert EscapeString(s, q) == EscapeStringChar(s[0], q) + t;
      UnescapeStringStep(s[0], q, t, decode);
      UnescapeEscapeString(s[1..], q, decode);
      assert s == [s[0]] + s[1..];
    }
  }

  /** Decoding reads one escaped character back and goes on after it. */
  lemma UnescapeStringStep(c: char, q: char, t: string, decode: string -> string)
    ensures UnescapeString(EscapeStringChar(c, q) + t, decode) == [c] + UnescapeString(t, decode)
  {
    if c == '\\' || (c == q && (q == '"' || q == '\'')) {
      UnescapePair(c, t, decode);
    } else {
      var e := [c] + t;
      assert e[1..] == t;
    }
  }

  /** A backslash and a backslash or quote mark decode to that second character. */
  lemma UnescapePair(c: char, t: string, decode: string -> string)
    requires c == '\\' || c == '"' || c == '\''
    ensures UnescapeString(['\\', c] + t, decode) == [c] + UnescapeString(t, decode)
  {
    var e := ['\\', c] + t;
    PairLength(e);
    assert e[..2] == ['\\', c];
    assert e[2..] == t;
  }

  lemma PairLength(e: string)
    requires |e| >= 2 && e[0] == '\\' && (e[1] == '\\' || e[1] == '"' || e[1] == '\'')
    ensures EscapeSequenceLength(e) == Some(2)
  {
  }
}
