/** The text-level rules of the command-line reader in
    src/dmcc/readline/reader.cpp: how `parse_command` cuts a line into
    tokens (boost::escaped_list_separator with escape `\`, separator ` ` and
    quotes `"` `'`), how a line is trimmed before use, and which lines
    compl_proxy treats as "a complete command name followed by arguments". */
module LineSyntax {
  import opened Wrappers

  const Escape: char := '\\'
  const Separator: char := ' '

  predicate IsQuote(c: char)
  {
    c == '"' || c == '\''
  }

  /** What the character after an escape stands for: `\n` is a newline, an
      escaped quote, separator or escape is itself; anything else is an
      error. */
  function Unescape(c: char): Option<char>
  {
    if c == 'n' then Some('\n')
    else if IsQuote(c) || c == Separator || c == Escape then Some(c)
    else None
  }

  /** The two exceptions the separator throws. */
  datatype TokenError = EndsWithEscape | UnknownEscape

  /** One call of the separator: the token read, the input left after it,
      and whether a separator ended the token (the separator's `last_`
      flag, which makes a trailing separator yield one more, empty,
      token). */
  datatype Scanned = Token(tok: string, rest: string, bySeparator: bool) | Failed(error: TokenError)

  /** Reads one token from the input `s` that is left, with `tok` read so
      far and `quoted` telling whether an odd number of quotes has been met.
      Quotes toggle and are dropped; a separator inside quotes is kept. */
  function ScanToken(s: string, tok: string, quoted: bool): (r: Scanned)
    ensures r.Token? ==> |r.rest| <= |s| && (s != [] ==> |r.rest| < |s|)
  {
    if s == [] then Token(tok, [], false)
    else if s[0] == Escape then
      if |s| == 1 then Failed(EndsWithEscape)
      else match Unescape(s[1])
        case None => Failed(UnknownEscape)
        case Some(c) => ScanToken(s[2..], tok + [c], quoted)
    else if s[0] == Separator && !quoted then Token(tok, s[1..], true)
    else if IsQuote(s[0]) then ScanToken(s[1..], tok, !quoted)
    else ScanToken(s[1..], tok + [s[0]], quoted)
  }

  /** The tokens the tokenizer delivers, in order, and the exception that
      ended the iteration, if one did; `tokens` are those delivered before
      it. */
  datatype Split = Split(tokens: seq<string>, error: Option<TokenError>)

  /** The tokenizer over the input `s` that is left, `last` being the
      separator's flag. */
  function TokensFrom(s: string, last: bool): Split
    decreases |s|
  {
    if s == [] then (if last then Split([[]], None) else Split([], None))
    else match ScanToken(s, [], false)
      case Failed(e) => Split([], Some(e))
      case Token(t, rest, sep) =>
        var more := TokensFrom(rest, sep);
        Split([t] + more.tokens, more.error)
  }

  /** One step of the tokenizer: nothing left, a token read, or an
      exception thrown. */
  lemma TokensStep(s: string, last: bool)
    ensures s == [] ==>
      TokensFrom(s, last).error == None && TokensFrom(s, last).tokens == (if last then [[]] else [])
    ensures s != [] && ScanToken(s, [], false).Failed? ==>
      TokensFrom(s, last).tokens == [] && TokensFrom(s, last).error == Some(ScanToken(s, [], false).error)
    ensures s != [] && ScanToken(s, [], false).Token? ==>
      var r := ScanToken(s, [], false);
      TokensFrom(s, last).tokens == [r.tok] + TokensFrom(r.rest, r.bySeparator).tokens
      && TokensFrom(s, last).error == TokensFrom(r.rest, r.bySeparator).error
  {
  }

  /** boost::tokenizer over the whole line: an empty line has no tokens. */
  function Tokenize(s: string): Split
  {
    TokensFrom(s, false)
  }

  /** The non-empty tokens, in order. */
  function Words(ts: seq<string>): (ws: seq<string>)
    ensures |ws| <= |ts|
    ensures forall k :: 0 <= k < |ws| ==> ws[k] != []
  {
    if ts == [] then [] else (if ts[0] == [] then [] else [ts[0]]) + Words(ts[1..])
  }

  lemma {:induction false} WordsSnoc(ts: seq<string>, t: string)
    ensures Words(ts + [t]) == Words(ts) + (if t == [] then [] else [t])
  {
    if ts == [] {
      assert ts + [t] == [t];
    } else {
      assert (ts + [t])[1..] == ts[1..] + [t];
      WordsSnoc(ts[1..], t);
    }
  }

  // ---------------------------------------------------------------------
  // Writing tokens so that the tokenizer gives them back

  predicate IsSpecial(c: char)
  {
    c == Escape || c == Separator || IsQuote(c)
  }

  /** A word with every escape, separator and quote escaped. */
  function EscapeWord(w: string): (e: string)
    ensures |w| <= |e|
  {
    if w == [] then [] else (if IsSpecial(w[0]) then [Escape, w[0]] else [w[0]]) + EscapeWord(w[1..])
  }

  /** Escaped words separated by single spaces. */
  function JoinWords(ws: seq<string>): string
  {
    if ws == [] then []
    else if |ws| == 1 then EscapeWord(ws[0])
    else EscapeWord(ws[0]) + [Separator] + JoinWords(ws[1..])
  }

  /** Scanning an escaped word appends the word itself to the token. */
  lemma {:induction false} ScanEscaped(w: string, rest: string, tok: string)
    decreases |w|
    ensures ScanToken(EscapeWord(w) + rest, tok, false) == ScanToken(rest, tok + w, false)
  {
    if w != [] {
      var tail := EscapeWord(w[1..]) + rest;
      var s := EscapeWord(w) + rest;
      if IsSpecial(w[0]) {
        assert s == [Escape, w[0]] + tail;
        assert s[0] == Escape && s[1] == w[0] && s[2..] == tail;
      } else {
        assert s == [w[0]] + tail;
        assert s[0] == w[0] && s[1..] == tail;
      }
      ScanEscaped(w[1..], rest, tok + [w[0]]);
      assert tok + [w[0]] + w[1..] == tok + w;
    } else {
      assert tok + w == tok && EscapeWord(w) + rest == rest;
    }
  }

  /** The tokenizer gives back the words that JoinWords wrote, whatever
      they contain, empty words included; only the line of one empty word
      reads as no token at all. */
  lemma {:induction false} TokensOfJoin(ws: seq<string>, last: bool)
    requires ws != [] && (ws == [[]] ==> last)
    decreases |ws|
    ensures TokensFrom(JoinWords(ws), last).tokens == ws && TokensFrom(JoinWords(ws), last).error == None
  {
    var e := EscapeWord(ws[0]);
    if |ws| == 1 {
      if ws[0] != [] {
        assert e != [] && e + [] == e;
        ScanEscaped(ws[0], [], []);
        assert [] + ws[0] == ws[0];
        var r := ScanToken(e, [], false);
        assert r.Token? && r.tok == ws[0] && r.rest == [] && !r.bySeparator;
        TokensStep(e, last);
        TokensStep([], false);
      }
    } else {
      var rest := JoinWords(ws[1..]);
      var s := JoinWords(ws);
      assert s == e + ([Separator] + rest);
      ScanEscaped(ws[0], [Separator] + rest, []);
      assert [] + ws[0] == ws[0];
      assert ([Separator] + rest)[1..] == rest;
      var r := ScanToken(s, [], false);
      assert r.Token? && r.tok == ws[0] && r.rest == rest && r.bySeparator;
      TokensStep(s, last);
      TokensOfJoin(ws[1..], true);
      assert ws == [ws[0]] + ws[1..];
    }
  }

  lemma TokenizeJoin(ws: seq<string>)
    requires ws != [[]]
    ensures Tokenize(JoinWords(ws)).tokens == ws && Tokenize(JoinWords(ws)).error == None
  {
    if ws != [] {
      TokensOfJoin(ws, false);
    }
  }

  // ---------------------------------------------------------------------
  // Quotes and escapes

  predicate Plain(w: string)
  {
    forall k :: 0 <= k < |w| ==> w[k] != Escape && !IsQuote(w[k])
  }

  /** Inside quotes, plain characters (spaces included) go into the token. */
  lemma {:induction false} ScanQuoted(w: string, rest: string, tok: string)
    requires Plain(w)
    decreases |w|
    ensures ScanToken(w + rest, tok, true) == ScanToken(rest, tok + w, true)
  {
    if w != [] {
      assert (w + rest)[0] == w[0] && (w + rest)[1..] == w[1..] + rest;
      assert Plain(w[1..]) by {
        forall k | 0 <= k < |w| - 1 ensures w[1..][k] == w[k + 1] {}
      }
      ScanQuoted(w[1..], rest, tok + [w[0]]);
      assert tok + [w[0]] + w[1..] == tok + w;
    } else {
      assert tok + w == tok && w + rest == rest;
    }
  }

  /** A segment in quotes, `"` or `'`, is one token, spaces and all,
      without its quotes. */
  lemma QuotedStaysOne(q: char, w: string)
    requires IsQuote(q) && Plain(w)
    ensures Tokenize([q] + w + [q]).tokens == [w] && Tokenize([q] + w + [q]).error == None
  {
    var s := [q] + w + [q];
    assert s[0] == q && s[1..] == w + [q];
    ScanQuoted(w, [q], []);
    assert [] + w == w;
    assert [q][1..] == [];
    assert ScanToken([q], w, true) == Token(w, [], false);
    assert ScanToken(s, [], false) == Token(w, [], false);
    assert [w] + TokensFrom([], false).tokens == [w];
  }

  /** An escaped space joins two words into one token. */
  lemma EscapedSpace()
    ensures Tokenize("a\\ b").tokens == ["a b"] && Tokenize("a\\ b").error == None
  {
    assert JoinWords(["a b"]) == "a\\ b";
    TokenizeJoin(["a b"]);
  }

  /** A line ending in a lone escape fails with the separator's
      "cannot end with escape", after delivering every token before it
      (an empty one for the separator before the escape included). */
  lemma {:induction false} TrailingEscapeFails(ws: seq<string>, last: bool)
    requires ws != []
    decreases |ws|
    ensures TokensFrom(JoinWords(ws) + [Separator, Escape], last).tokens == ws
    ensures TokensFrom(JoinWords(ws) + [Separator, Escape], last).error == Some(EndsWithEscape)
  {
    var e := EscapeWord(ws[0]);
    var tail: string := [Separator, Escape];
    var s := JoinWords(ws) + tail;
    if |ws| == 1 {
      assert s == e + tail;
      ScanEscaped(ws[0], tail, []);
      assert [] + ws[0] == ws[0];
      assert tail[0] == Separator && tail[1..] == [Escape];
      assert ScanToken(tail, ws[0], false) == Token(ws[0], [Escape], true);
      var r := ScanToken(s, [], false);
      assert r.Token? && r.tok == ws[0] && r.rest == [Escape] && r.bySeparator;
      TokensStep(s, last);
      assert ScanToken([Escape], [], false) == Failed(EndsWithEscape);
      TokensStep([Escape], true);
    } else {
      var rest := JoinWords(ws[1..]) + tail;
      assert s == e + ([Separator] + rest);
      ScanEscaped(ws[0], [Separator] + rest, []);
      assert [] + ws[0] == ws[0];
      assert ([Separator] + rest)[1..] == rest;
      var r := ScanToken(s, [], false);
      assert r.Token? && r.tok == ws[0] && r.rest == rest && r.bySeparator;
      TokensStep(s, last);
      TrailingEscapeFails(ws[1..], true);
      assert ws == [ws[0]] + ws[1..];
    }
  }

  lemma {:induction false} PlainEscape(w: string)
    requires forall k :: 0 <= k < |w| ==> !IsSpecial(w[k])
    ensures EscapeWord(w) == w
  {
    if w != [] {
      PlainEscape(w[1..]);
    }
  }

  /** An escape before a character other than `n`, a quote, the separator
      or the escape is an error, thrown before the token it is in is
      delivered. */
  lemma UnknownEscapeFails(w: string, c: char)
    requires forall k :: 0 <= k < |w| ==> !IsSpecial(w[k])
    requires Unescape(c).None?
    ensures Tokenize(w + [Escape, c]).tokens == [] && Tokenize(w + [Escape, c]).error == Some(UnknownEscape)
  {
    PlainEscape(w);
    ScanEscaped(w, [Escape, c], []);
    assert [] + w == w;
    assert [Escape, c][1] == c;
  }

  // ---------------------------------------------------------------------
  // boost::algorithm::trim

  /** std::isspace in the C locale. */
  predicate IsSpace(c: char)
  {
    c == ' ' || c == '\t' || c == '\n' || c == '\r' || c == 11 as char || c == 12 as char
  }

  /** The number of white-space characters from position `i` on. */
  function SpacesFrom(s: string, i: nat): (n: nat)
    requires i <= |s|
    decreases |s| - i
    ensures i + n <= |s| && (forall k :: i <= k < i + n ==> IsSpace(s[k]))
    ensures i + n < |s| ==> !IsSpace(s[i + n])
  {
    if i < |s| && IsSpace(s[i]) then 1 + SpacesFrom(s, i + 1) else 0
  }

  /** The number of white-space characters just before position `j`. */
  function SpacesBefore(s: string, j: nat): (n: nat)
    requires j <= |s|
    ensures n <= j && (forall k :: j - n <= k < j ==> IsSpace(s[k]))
    ensures n < j ==> !IsSpace(s[j - n - 1])
  {
    if 0 < j && IsSpace(s[j - 1]) then 1 + SpacesBefore(s, j - 1) else 0
  }

  /** The line without its leading and trailing white space. */
  function Trim(s: string): string
  {
    var a := SpacesFrom(s, 0);
    var b := |s| - SpacesBefore(s, |s|);
    if a < b then s[a..b] else []
  }

  /** Trim cuts white space off both ends and nothing else: the result is
      the slice of the line after the leading white space, and everything
      cut off is white space. */
  lemma TrimSlice(s: string)
    ensures var a := SpacesFrom(s, 0);
      a + |Trim(s)| <= |s| && Trim(s) == s[a..a + |Trim(s)|]
      && (forall k :: 0 <= k < a ==> IsSpace(s[k]))
      && (forall k :: a + |Trim(s)| <= k < |s| ==> IsSpace(s[k]))
  {
  }

  /** Trim leaves no white space at either end. */
  lemma TrimEnds(s: string)
    ensures Trim(s) != [] ==> !IsSpace(Trim(s)[0]) && !IsSpace(Trim(s)[|Trim(s)| - 1])
  {
  }

  /** Trimming twice changes nothing more. */
  lemma TrimIdempotent(s: string)
    ensures Trim(Trim(s)) == Trim(s)
  {
    var r := Trim(s);
    TrimEnds(s);
    if r != [] {
      assert SpacesFrom(r, 0) == 0 && SpacesBefore(r, |r|) == 0;
      assert r[0..|r|] == r;
    }
  }

  // ---------------------------------------------------------------------
  // The argument-completion pattern `^[ \t]*([a-z0-9A-Z_]+)[ \t]+.*$`

  predicate IsBlank(c: char)
  {
    c == ' ' || c == '\t'
  }

  predicate IsWordChar(c: char)
  {
    ('a' <= c <= 'z') || ('A' <= c <= 'Z') || ('0' <= c <= '9') || c == '_'
  }

  /** The pattern matches the whole of `s` with its group spanning
      `s[a..a + w]`: blanks before it, at least one blank after it, and
      anything (`.` also matches a newline by default) to the end. */
  predicate ArgLineAt(s: string, a: nat, w: nat)
  {
    0 < w && a + w < |s|
    && (forall k :: 0 <= k < a ==> IsBlank(s[k]))
    && (forall k :: a <= k < a + w ==> IsWordChar(s[k]))
    && IsBlank(s[a + w])
  }

  /** How many blanks start at `i`. */
  function BlanksFrom(s: string, i: nat): (n: nat)
    requires i <= |s|
    decreases |s| - i
    ensures i + n <= |s| && (forall k :: i <= k < i + n ==> IsBlank(s[k]))
    ensures i + n < |s| ==> !IsBlank(s[i + n])
  {
    if i < |s| && IsBlank(s[i]) then 1 + BlanksFrom(s, i + 1) else 0
  }

  /** How many word characters start at `i`. */
  function WordFrom(s: string, i: nat): (n: nat)
    requires i <= |s|
    decreases |s| - i
    ensures i + n <= |s| && (forall k :: i <= k < i + n ==> IsWordChar(s[k]))
    ensures i + n < |s| ==> !IsWordChar(s[i + n])
  {
    if i < |s| && IsWordChar(s[i]) then 1 + WordFrom(s, i + 1) else 0
  }

  /** The command name captured by the pattern, or None when the line does
      not match it. */
  function ArgLineCommand(s: string): Option<string>
  {
    var a := BlanksFrom(s, 0);
    var w := WordFrom(s, a);
    if 0 < w && a + w < |s| && IsBlank(s[a + w]) then Some(s[a..a + w]) else None
  }

  /** The pattern matches exactly when ArgLineCommand finds a name, and the
      name is then the group the match captures. */
  lemma ArgLineMatches(s: string)
    ensures ArgLineCommand(s).Some? <==> exists a: nat, w: nat :: ArgLineAt(s, a, w)
    ensures forall a: nat, w: nat :: ArgLineAt(s, a, w) ==> ArgLineCommand(s) == Some(s[a..a + w])
  {
    var a0 := BlanksFrom(s, 0);
    var w0 := WordFrom(s, a0);
    if ArgLineCommand(s).Some? {
      assert ArgLineAt(s, a0, w0);
    }
    forall a: nat, w: nat | ArgLineAt(s, a, w) ensures ArgLineCommand(s) == Some(s[a..a + w]) {
      ArgLineUnique(s, a, w);
    }
  }

  lemma ArgLineUnique(s: string, a: nat, w: nat)
    requires ArgLineAt(s, a, w)
    ensures BlanksFrom(s, 0) == a && WordFrom(s, a) == w
  {
    var a0 := BlanksFrom(s, 0);
    assert IsWordChar(s[a]) && !IsBlank(s[a]);
    assert a0 < |s| ==> !IsBlank(s[a0]);
    var w0 := WordFrom(s, a);
    assert a + w0 < |s| ==> !IsWordChar(s[a + w0]);
    assert !IsWordChar(s[a + w]);
  }
}
