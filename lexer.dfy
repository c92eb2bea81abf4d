/**
 * `Tokenizer`: splits SQL text at whitespace and classifies each word as a
 * keyword (case-insensitively), an `i64` literal, an `f64` literal, a quoted
 * string, an operator or punctuation, or else an identifier. Each token
 * records a line and a column that advance by the tokenizer's own rule.
 */
module Lexer {
  import opened Wrappers

  const I64_MIN: int := -0x8000_0000_0000_0000
  const I64_MAX: int := 0x7FFF_FFFF_FFFF_FFFF

  datatype TokenType =
    | Select | From | Where | Order | By | Group | Having | Join | Inner | Left | Right | Outer
    | On | As | Union | All | Distinct | Limit | Offset
    | Plus | Minus | Multiply | Divide | Equals | NotEquals | GreaterThan | LessThan
    | GreaterEquals | LessEquals | And | Or | Not
    | Integer(i: int)
    | Float(text: string)
    | String(s: string)
    | Boolean(b: bool)
    | Null
    | Identifier(id: string)
    | Comma | Period | Semicolon | LeftParen | RightParen
    | EOF
    | Unknown(u: string)

  datatype Token = Token(tokenType: TokenType, line: nat, column: nat, length: nat)

  datatype Tokenizer = Tokenizer(input: string, keywords: seq<(string, TokenType)>)

  /** The keyword table in the order `Tokenizer::new` builds it. */
  const KEYWORDS: seq<(string, TokenType)> := [
    ("SELECT", Select), ("FROM", From), ("WHERE", Where), ("ORDER", Order), ("BY", By),
    ("GROUP", Group), ("HAVING", Having), ("JOIN", Join), ("INNER", Inner), ("LEFT", Left),
    ("RIGHT", Right), ("OUTER", Outer), ("ON", On), ("AS", As), ("UNION", Union),
    ("ALL", All), ("DISTINCT", Distinct), ("LIMIT", Limit), ("OFFSET", Offset), ("AND", And),
    ("OR", Or), ("NOT", Not), ("NULL", Null), ("TRUE", Boolean(true)), ("FALSE", Boolean(false))]

  /** `Tokenizer::new`. */
  function NewTokenizer(input: string): (t: Tokenizer)
    ensures t.input == input && t.keywords == KEYWORDS && |t.keywords| == 25
  {
    Tokenizer(input, KEYWORDS)
  }

  // ---------------------------------------------------------------------
  // Words.

  /** `char::is_whitespace`: the Unicode White_Space characters. */
  predicate IsWhitespace(c: char)
  {
    ('\t' <= c <= '\r') || c == ' ' || c == '\U{85}' || c == '\U{A0}' || c == '\U{1680}'
    || ('\U{2000}' <= c <= '\U{200A}') || c == '\U{2028}' || c == '\U{2029}' || c == '\U{202F}'
    || c == '\U{205F}' || c == '\U{3000}'
  }

  predicate NoWhitespace(w: string)
  {
    forall i :: 0 <= i < |w| ==> !IsWhitespace(w[i])
  }

  /** The longest prefix of `s` without whitespace. */
  function FirstWord(s: string): (w: string)
    ensures |w| <= |s| && w == s[..|w|] && NoWhitespace(w)
    ensures |w| < |s| ==> IsWhitespace(s[|w|])
    ensures s != [] && !IsWhitespace(s[0]) ==> |w| > 0
  {
    if s == [] || IsWhitespace(s[0]) then [] else [s[0]] + FirstWord(s[1..])
  }

  /** `split_whitespace`: the maximal runs of non-whitespace, in order. */
  function Words(s: string): (ws: seq<string>)
    ensures forall k :: 0 <= k < |ws| ==> ws[k] != [] && NoWhitespace(ws[k])
    decreases |s|
  {
    if s == [] then []
    else if IsWhitespace(s[0]) then Words(s[1..])
    else
      var w := FirstWord(s);
      [w] + Words(s[|w|..])
  }

  /** Words joined with single spaces. */
  function JoinSpaced(ws: seq<string>): string
  {
    if ws == [] then [] else if |ws| == 1 then ws[0] else ws[0] + " " + JoinSpaced(ws[1..])
  }

  // ---------------------------------------------------------------------
  // Classification.

  function LowerChar(c: char): char
  {
    if 'A' <= c <= 'Z' then (c as int + 32) as char else c
  }

  /** `eq_ignore_ascii_case`: equal lengths and equal characters once ASCII
      letters are lower-cased. */
  predicate EqIgnoreAsciiCase(a: string, b: string)
  {
    |a| == |b| && forall i :: 0 <= i < |a| ==> LowerChar(a[i]) == LowerChar(b[i])
  }

  /** The token of the first keyword equal to `word` ignoring ASCII case:
      there is one exactly when some entry matches, and it is the token of a
      matching entry (`LookupKeywordFirst`: of the first one). */
  function LookupKeyword(keywords: seq<(string, TokenType)>, word: string): (r: Option<TokenType>)
    ensures r.Some? <==> exists k :: 0 <= k < |keywords| && EqIgnoreAsciiCase(keywords[k].0, word)
    ensures r.Some? ==> exists k :: 0 <= k < |keywords| && EqIgnoreAsciiCase(keywords[k].0, word) && keywords[k].1 == r.value
  {
    if keywords == [] then None
    else if EqIgnoreAsciiCase(keywords[0].0, word) then Some(keywords[0].1)
    else
      var r := LookupKeyword(keywords[1..], word);
      assert forall k :: 1 <= k < |keywords| ==> keywords[1..][k - 1] == keywords[k];
      r
  }

  /** The keyword found is the first entry that matches: no entry before it
      equals the word. */
  lemma {:induction false} LookupKeywordFirst(keywords: seq<(string, TokenType)>, word: string)
    requires LookupKeyword(keywords, word).Some?
    ensures exists k :: (0 <= k < |keywords| && EqIgnoreAsciiCase(keywords[k].0, word)
      && keywords[k].1 == LookupKeyword(keywords, word).value
      && forall j :: 0 <= j < k ==> !EqIgnoreAsciiCase(keywords[j].0, word))
    decreases |keywords|
  {
    if EqIgnoreAsciiCase(keywords[0].0, word) {
      assert 0 < |keywords| && keywords[0].1 == LookupKeyword(keywords, word).value;
    } else {
      var rest := keywords[1..];
      LookupKeywordFirst(rest, word);
      var k :| 0 <= k < |rest| && EqIgnoreAsciiCase(rest[k].0, word)
        && rest[k].1 == LookupKeyword(rest, word).value
        && forall j :: 0 <= j < k ==> !EqIgnoreAsciiCase(rest[j].0, word);
      assert keywords[k + 1] == rest[k];
      forall j | 0 <= j < k + 1
        ensures !EqIgnoreAsciiCase(keywords[j].0, word)
      {
        if j > 0 {
          assert keywords[j] == rest[j - 1];
        }
      }
    }
  }

  predicate IsDigit(c: char)
  {
    '0' <= c <= '9'
  }

  predicate AllDigits(s: string)
  {
    forall i :: 0 <= i < |s| ==> IsDigit(s[i])
  }

  /** The value of a string of decimal digits, most significant first. */
  function DecimalValue(s: string): nat
    requires AllDigits(s)
  {
    if s == [] then 0 else DecimalValue(s[..|s| - 1]) * 10 + (s[|s| - 1] as nat - '0' as nat)
  }

  /** `str::parse::<i64>`: an optional sign, then one or more decimal digits,
      whose value lies within the 64-bit signed range. */
  function ParseI64(word: string): Option<int>
  {
    var negative := |word| > 0 && word[0] == '-';
    var digits := if |word| > 0 && (word[0] == '+' || word[0] == '-') then word[1..] else word;
    if digits == [] || !AllDigits(digits) then None
    else
      var v: int := if negative then -(DecimalValue(digits) as int) else DecimalValue(digits);
      if I64_MIN <= v <= I64_MAX then Some(v) else None
  }

  /** Digits with an optional sign in front. */
  predicate IsSignedDigits(s: string)
  {
    |s| > 0
    && (if s[0] == '+' || s[0] == '-' then |s| > 1 && AllDigits(s[1..]) else AllDigits(s))
  }

  /** Digits, with at most one decimal point, and at least one digit. */
  predicate IsMantissa(m: string)
  {
    (|m| > 0 && AllDigits(m))
    || exists p :: 0 <= p < |m| && m[p] == '.' && |m| > 1 && AllDigits(m[..p]) && AllDigits(m[p + 1..])
  }

  /** The index of the first `e` or `E`, or the length when there is none. */
  function ExponentStart(s: string): (k: nat)
    ensures k <= |s|
    ensures forall i :: 0 <= i < k ==> s[i] != 'e' && s[i] != 'E'
    ensures k < |s| ==> s[k] == 'e' || s[k] == 'E'
  {
    if s == [] || s[0] == 'e' || s[0] == 'E' then 0 else 1 + ExponentStart(s[1..])
  }

  /** A decimal number: a mantissa and an optional signed exponent. */
  predicate IsNumber(s: string)
  {
    var k := ExponentStart(s);
    IsMantissa(s[..k]) && (k == |s| || IsSignedDigits(s[k + 1..]))
  }

  function Lower(s: string): (r: string)
    ensures |r| == |s|
  {
    if s == [] then [] else [LowerChar(s[0])] + Lower(s[1..])
  }

  /** `str::parse::<f64>` succeeds: an optional sign, then a decimal number,
      `inf`, `infinity` or `nan` (the last three in any case). */
  predicate IsFloatLiteral(word: string)
  {
    var body := if |word| > 0 && (word[0] == '+' || word[0] == '-') then word[1..] else word;
    IsNumber(body) || Lower(body) in {"inf", "infinity", "nan"}
  }

  /** The exact punctuation and operator words. */
  function Punctuation(word: string): Option<TokenType>
  {
    if word == "," then Some(Comma)
    else if word == "." then Some(Period)
    else if word == ";" then Some(Semicolon)
    else if word == "(" then Some(LeftParen)
    else if word == ")" then Some(RightParen)
    else if word == "+" then Some(Plus)
    else if word == "-" then Some(Minus)
    else if word == "*" then Some(Multiply)
    else if word == "/" then Some(Divide)
    else if word == "=" then Some(Equals)
    else if word == "!=" then Some(NotEquals)
    else if word == ">" then Some(GreaterThan)
    else if word == "<" then Some(LessThan)
    else if word == ">=" then Some(GreaterEquals)
    else if word == "<=" then Some(LessEquals)
    else None
  }

  /** `match_keyword`: keyword, integer, float, quoted string, punctuation,
      identifier, tried in that order. */
  function MatchKeyword(keywords: seq<(string, TokenType)>, word: string): TokenType
  {
    match LookupKeyword(keywords, word)
    case Some(t) => t
    case None => ClassifyWord(word)
  }

  /** The class of a word that is no keyword. An integer is the word's
      `i64` value, a float and an identifier are the word itself, and a
      string is the word inside its quotes. */
  function ClassifyWord(word: string): (r: TokenType)
    ensures r.Integer? <==> ParseI64(word).Some?
    ensures r.Integer? ==> ParseI64(word) == Some(r.i)
    ensures r.Float? ==> IsFloatLiteral(word) && r.text == word
    ensures r.String? ==> 2 <= |word| && word[0] == '\'' == word[|word| - 1] && r.s == word[1..|word| - 1]
    ensures r.Identifier? ==> r.id == word
  {
      match ParseI64(word)
      case Some(i) => Integer(i)
      case None =>
        if IsFloatLiteral(word) then Float(word)
        else if |word| >= 2 && word[0] == '\'' && word[|word| - 1] == '\'' then String(word[1..|word| - 1])
        else match Punctuation(word)
          case Some(t) => t
          case None => Identifier(word)
  }

  /** An identifier is a word that is no punctuation, and every class other
      than a literal or an identifier is the word's punctuation token. */
  lemma ClassifyWordPunctuation(word: string)
    ensures ClassifyWord(word).Identifier? ==> Punctuation(word).None?
    ensures var r := ClassifyWord(word);
      !r.Integer? && !r.Float? && !r.String? && !r.Identifier? ==> Punctuation(word) == Some(r)
  {
  }

  /** The rules in the other direction: a quoted word of two or more
      characters is always a string, since no number starts with a quote; a
      word that is an `f64` but no `i64` is a float; and a word is an
      identifier exactly when no number, string or punctuation rule applies. */
  lemma ClassifyWordRules(word: string)
    ensures 2 <= |word| && word[0] == '\'' == word[|word| - 1] ==>
      ClassifyWord(word) == String(word[1..|word| - 1])
    ensures ParseI64(word).None? && IsFloatLiteral(word) ==> ClassifyWord(word) == Float(word)
    ensures ClassifyWord(word).Identifier? <==>
      ParseI64(word).None? && !IsFloatLiteral(word)
      && !(2 <= |word| && word[0] == '\'' == word[|word| - 1])
      && Punctuation(word).None?
  {
    if 2 <= |word| && word[0] == '\'' {
      NotNumeric(word);
    }
  }

  // ---------------------------------------------------------------------
  // Display.

  function DigitChar(d: nat): char
    requires d < 10
  {
    ('0' as int + d) as char
  }

  /** The decimal digits of a natural number, without leading zeros. */
  function NatToString(n: nat): (r: string)
    ensures |r| > 0 && AllDigits(r)
  {
    if n < 10 then [DigitChar(n)] else NatToString(n / 10) + [DigitChar(n % 10)]
  }

  /** `Display` of an integer: a minus sign for negatives, then the digits. */
  function IntToString(i: int): (r: string)
    ensures |r| > 0
  {
    if i < 0 then "-" + NatToString(-i) else NatToString(i)
  }

  /** The variant name `Debug` prints for the payload-free tokens. */
  function DebugName(t: TokenType): (r: string)
    ensures |r| >= 2 && r[1] != 'T' && r[1] != 'D'
    ensures |r| > 3 ==> r[3] != ':'
  {
    match t
    case Select => "Select" case From => "From" case Where => "Where" case Order => "Order"
    case By => "By" case Group => "Group" case Having => "Having" case Join => "Join"
    case Inner => "Inner" case Left => "Left" case Right => "Right" case Outer => "Outer"
    case On => "On" case As => "As" case Union => "Union" case All => "All"
    case Distinct => "Distinct" case Limit => "Limit" case Offset => "Offset"
    case Plus => "Plus" case Minus => "Minus" case Multiply => "Multiply" case Divide => "Divide"
    case Equals => "Equals" case NotEquals => "NotEquals" case GreaterThan => "GreaterThan"
    case LessThan => "LessThan" case GreaterEquals => "GreaterEquals" case LessEquals => "LessEquals"
    case And => "And" case Or => "Or" case Not => "Not" case Null => "Null"
    case Comma => "Comma" case Period => "Period" case Semicolon => "Semicolon"
    case LeftParen => "LeftParen" case RightParen => "RightParen" case EOF => "EOF"
    case Boolean(b) => if b then "Boolean(true)" else "Boolean(false)"
    case Float(text) => "Float(" + text + ")"
    case Unknown(u) => "Unknown(\"" + u + "\")"
    case Integer(i) => "Integer(" + IntToString(i) + ")"
    case String(x) => "String(\"" + x + "\")"
    case Identifier(x) => "Identifier(\"" + x + "\")"
  }

  /** `Display for TokenType`: three keywords upper-case, integers, strings
      and identifiers tagged, every other token as its `Debug` form. */
  function TokenDisplay(t: TokenType): (r: string)
    ensures r != []
  {
    match t
    case Select => "SELECT"
    case From => "FROM"
    case Where => "WHERE"
    case Integer(i) => "INT:" + IntToString(i)
    case String(x) => "STRING:'" + x + "'"
    case Identifier(x) => "IDENT:" + x
    case _ => DebugName(t)
  }

  /** The display's tag tells integers, identifiers and strings apart from
      each other and from every other token. */
  lemma DisplayTags(t: TokenType)
    ensures HasPrefix(TokenDisplay(t), "INT:") <==> t.Integer?
    ensures HasPrefix(TokenDisplay(t), "IDENT:") <==> t.Identifier?
    ensures HasPrefix(TokenDisplay(t), "STRING:'") <==> t.String?
  {
    if t.Integer? || t.Identifier? || t.String? {
      TaggedDisplayTags(t);
    } else if t.Select? || t.From? || t.Where? {
      var r := TokenDisplay(t);
      DiffersAt(r, "INT:", 1);
      DiffersAt(r, "IDENT:", 1);
      DiffersAt(r, "STRING:'", 1);
    } else {
      UntaggedDisplay(t);
      DiffersAt(DebugName(t), "INT:", 3);
      DiffersAt(DebugName(t), "IDENT:", 1);
      DiffersAt(DebugName(t), "STRING:'", 1);
    }
  }

  lemma TaggedDisplayTags(t: TokenType)
    requires t.Integer? || t.Identifier? || t.String?
    ensures HasPrefix(TokenDisplay(t), "INT:") <==> t.Integer?
    ensures HasPrefix(TokenDisplay(t), "IDENT:") <==> t.Identifier?
    ensures HasPrefix(TokenDisplay(t), "STRING:'") <==> t.String?
  {
    var r := TokenDisplay(t);
    if t.Integer? {
      assert r[..4] == "INT:";
      DiffersAt(r, "IDENT:", 1);
      DiffersAt(r, "STRING:'", 0);
    } else if t.Identifier? {
      assert r[..6] == "IDENT:";
      DiffersAt(r, "INT:", 1);
      DiffersAt(r, "STRING:'", 0);
    } else {
      assert r[..8] == "STRING:'";
      DiffersAt(r, "INT:", 0);
      DiffersAt(r, "IDENT:", 0);
    }
  }

  /** Every token but the three keywords, integers, strings and identifiers
      displays as its `Debug` form. */
  lemma UntaggedDisplay(t: TokenType)
    requires !t.Select? && !t.From? && !t.Where? && !t.Integer? && !t.String? && !t.Identifier?
    ensures TokenDisplay(t) == DebugName(t)
  {
  }

  /** A string that differs from `p` at some index of `p` does not start
      with `p`. */
  lemma DiffersAt(s: string, p: string, i: nat)
    requires i < |p| && (i >= |s| || s[i] != p[i])
    ensures !HasPrefix(s, p)
  {
    if |p| <= |s| {
      assert s[..|p|][i] == s[i];
    }
  }

  /** `p` is the first `|p|` characters of `s`. */
  predicate HasPrefix(s: string, p: string)
  {
    |p| <= |s| && s[..|p|] == p
  }

  /** The text a token carries holds no whitespace. */
  predicate CleanPayload(t: TokenType)
  {
    match t
    case Float(text) => NoWhitespace(text)
    case String(x) => NoWhitespace(x)
    case Identifier(x) => NoWhitespace(x)
    case Unknown(u) => NoWhitespace(u)
    case _ => true
  }

  // ---------------------------------------------------------------------
  // Positions and tokenizing.

  /** The (line, column) after the first `n` words were tokenized: the
      column moves past the word and a space, and after every word whose
      index is a multiple of 5 the line advances and the column resets. */
  function PositionAfter(ws: seq<string>): (p: (nat, nat))
    ensures p.0 >= 1 && p.1 >= 1
  {
    if ws == [] then (1, 1)
    else
      var prev := PositionAfter(ws[..|ws| - 1]);
      if (|ws| - 1) % 5 == 0 then (prev.0 + 1, 1)
      else (prev.0, prev.1 + |ws[|ws| - 1]| + 1)
  }

  /** The tokens of a list of words. */
  function Lex(keywords: seq<(string, TokenType)>, ws: seq<string>): (ts: seq<Token>)
    ensures |ts| == |ws|
  {
    if ws == [] then []
    else
      var init := ws[..|ws| - 1];
      var w := ws[|ws| - 1];
      var p := PositionAfter(init);
      Lex(keywords, init) + [Token(MatchKeyword(keywords, w), p.0, p.1, |w|)]
  }

  /** `tokenize`: one token per whitespace-separated word. */
  method Tokenize(t: Tokenizer) returns (r: Result<seq<Token>, string>)
    ensures r == Ok(Lex(t.keywords, Words(t.input)))
  {
    var words := Words(t.input);
    var tokens: seq<Token> := [];
    var line: nat := 1;
    var column: nat := 1;
    var i := 0;
    while i < |words|
      invariant 0 <= i <= |words|
      invariant tokens == Lex(t.keywords, words[..i])
      invariant line == PositionAfter(words[..i]).0 && column == PositionAfter(words[..i]).1
    {
      var word := words[i];
      LexStep(t.keywords, words, i);
      tokens := tokens + [Token(MatchKeyword(t.keywords, word), line, column, |word|)];
      column := column + |word| + 1;
      if i % 5 == 0 {
        line := line + 1;
        column := 1;
      }
      i := i + 1;
    }
    assert words[..i] == words;
    r := Ok(tokens);
  }

  // ---------------------------------------------------------------------
  // Properties.

  /** A whitespace-free word followed by whitespace or the end is the
      first word. */
  lemma {:induction false} FirstWordOf(w: string, rest: string)
    requires NoWhitespace(w)
    requires rest == [] || IsWhitespace(rest[0])
    ensures FirstWord(w + rest) == w
  {
    if w == [] {
      assert w + rest == rest;
    } else {
      assert (w + rest)[1..] == w[1..] + rest;
      FirstWordOf(w[1..], rest);
    }
  }

  /** Splitting words joined by single spaces gives the words back. */
  lemma {:induction false} WordsOfJoin(ws: seq<string>)
    requires forall k :: 0 <= k < |ws| ==> ws[k] != [] && NoWhitespace(ws[k])
    ensures Words(JoinSpaced(ws)) == ws
  {
    if ws != [] {
      var w := ws[0];
      if |ws| == 1 {
        FirstWordOf(w, []);
        assert w + [] == w;
        assert w[|w|..] == [];
      } else {
        var rest := JoinSpaced(ws[1..]);
        var s := w + " " + rest;
        assert s == w + (" " + rest) && s[0] == w[0];
        FirstWordOf(w, " " + rest);
        WordsStep(s);
        assert s[|w|..] == " " + rest;
        WordsSkip(" " + rest);
        assert (" " + rest)[1..] == rest;
        WordsOfJoin(ws[1..]);
        assert [w] + ws[1..] == ws;
      }
    }
  }

  /** A text starting with a word splits into that word and the words of
      what follows it. */
  lemma WordsStep(s: string)
    requires s != [] && !IsWhitespace(s[0])
    ensures Words(s) == [FirstWord(s)] + Words(s[|FirstWord(s)|..])
  {
  }

  /** Leading whitespace is skipped. */
  lemma WordsSkip(s: string)
    requires s != [] && IsWhitespace(s[0])
    ensures Words(s) == Words(s[1..])
  {
  }

  /** The digits of a number read back as that number. */
  lemma {:induction false} NatToStringValue(n: nat)
    ensures DecimalValue(NatToString(n)) == n
  {
    if n >= 10 {
      var r := NatToString(n);
      NatToStringValue(n / 10);
      assert r[..|r| - 1] == NatToString(n / 10);
    }
  }

  /** The display of an `i64` parses back to it. */
  lemma IntToStringParses(i: int)
    requires I64_MIN <= i <= I64_MAX
    ensures ParseI64(IntToString(i)) == Some(i)
  {
    var r := IntToString(i);
    if i < 0 {
      NatToStringValue(-i);
      assert r[1..] == NatToString(-i);
    } else {
      NatToStringValue(i);
    }
  }

  lemma SliceNoWhitespace(w: string, a: nat, b: nat)
    requires NoWhitespace(w) && a <= b <= |w|
    ensures NoWhitespace(w[a..b])
  {
    assert forall i :: 0 <= i < b - a ==> w[a..b][i] == w[a + i];
  }

  /** A word's class carries only text from the word, so no whitespace. */
  lemma ClassifyWordClean(word: string)
    requires NoWhitespace(word)
    ensures CleanPayload(ClassifyWord(word))
  {
    if ParseI64(word).None? && !IsFloatLiteral(word) && |word| >= 2 {
      SliceNoWhitespace(word, 1, |word| - 1);
    }
  }

  /** A word's token carries no whitespace, given the keyword table's
      tokens carry none. */
  lemma MatchKeywordClean(keywords: seq<(string, TokenType)>, word: string)
    requires NoWhitespace(word)
    requires forall k :: 0 <= k < |keywords| ==> CleanPayload(keywords[k].1)
    ensures CleanPayload(MatchKeyword(keywords, word))
  {
    var r := LookupKeyword(keywords, word);
    if r.None? {
      ClassifyWordClean(word);
    } else {
      var k :| 0 <= k < |keywords| && keywords[k].1 == r.value;
    }
  }

  /** The keyword tokens carry no text. */
  lemma KeywordsClean()
    ensures forall k :: 0 <= k < |KEYWORDS| ==> CleanPayload(KEYWORDS[k].1)
  {
  }

  lemma NoWhitespaceConcat(a: string, b: string)
    requires NoWhitespace(a) && NoWhitespace(b)
    ensures NoWhitespace(a + b)
  {
    assert forall i :: |a| <= i < |a + b| ==> (a + b)[i] == b[i - |a|];
  }

  lemma IntegerDisplayIsOneWord(i: int)
    ensures NoWhitespace(TokenDisplay(Integer(i)))
  {
    var d := IntToString(i);
    assert NoWhitespace(d) by {
      if i < 0 {
        assert forall j :: 1 <= j < |d| ==> d[j] == d[1..][j - 1];
      }
    }
    NoWhitespaceConcat("INT:", d);
  }

  lemma QuotedDisplayIsOneWord(t: TokenType)
    requires CleanPayload(t) && (t.String? || t.Float? || t.Unknown?)
    ensures NoWhitespace(TokenDisplay(t))
  {
    match t {
      case String(x) =>
        NoWhitespaceConcat("STRING:'", x);
        NoWhitespaceConcat("STRING:'" + x, "'");
      case Float(text) =>
        NoWhitespaceConcat("Float(", text);
        NoWhitespaceConcat("Float(" + text, ")");
      case Unknown(u) =>
        NoWhitespaceConcat("Unknown(\"", u);
        NoWhitespaceConcat("Unknown(\"" + u, "\")");
    }
  }

  /** A literal, identifier or tagged keyword whose text holds no whitespace
      displays as one non-empty word. */
  lemma DisplayIsOneWord(t: TokenType)
    requires CleanPayload(t)
    requires t.Integer? || t.String? || t.Identifier? || t.Float? || t.Unknown? || t.Select? || t.From? || t.Where?
    ensures TokenDisplay(t) != [] && NoWhitespace(TokenDisplay(t))
  {
    if t.Integer? {
      IntegerDisplayIsOneWord(t.i);
    } else if t.Identifier? {
      NoWhitespaceConcat("IDENT:", t.id);
    } else if t.String? || t.Float? || t.Unknown? {
      QuotedDisplayIsOneWord(t);
    }
  }

  /** Tokenizing one more word appends its token at the position the
      words before it leave. */
  lemma LexStep(keywords: seq<(string, TokenType)>, ws: seq<string>, i: nat)
    requires i < |ws|
    ensures Lex(keywords, ws[..i + 1]) == Lex(keywords, ws[..i])
      + [Token(MatchKeyword(keywords, ws[i]), PositionAfter(ws[..i]).0, PositionAfter(ws[..i]).1, |ws[i]|)]
    ensures PositionAfter(ws[..i + 1]) == if i % 5 == 0 then (PositionAfter(ws[..i]).0 + 1, 1)
      else (PositionAfter(ws[..i]).0, PositionAfter(ws[..i]).1 + |ws[i]| + 1)
  {
    var prefix := ws[..i + 1];
    assert prefix[..|prefix| - 1] == ws[..i] && prefix[|prefix| - 1] == ws[i];
  }

  /** Token `i` stands for word `i`: its type is the word's class and its
      length the word's length. */
  lemma {:induction false} LexTokens(keywords: seq<(string, TokenType)>, ws: seq<string>, i: nat)
    requires i < |ws|
    ensures Lex(keywords, ws)[i].tokenType == MatchKeyword(keywords, ws[i])
    ensures Lex(keywords, ws)[i].length == |ws[i]|
    ensures (Lex(keywords, ws)[i].line, Lex(keywords, ws)[i].column) == PositionAfter(ws[..i])
  {
    if i < |ws| - 1 {
      var init := ws[..|ws| - 1];
      LexTokens(keywords, init, i);
      assert init[..i] == ws[..i];
    } else {
      assert ws[..|ws| - 1] == ws[..i];
    }
  }

  /** Token `i` is on line `1 + ceil(i / 5)`. */
  lemma {:induction false} LineOfWord(ws: seq<string>)
    ensures PositionAfter(ws).0 == 1 + (|ws| + 4) / 5
  {
    if ws != [] {
      LineOfWord(ws[..|ws| - 1]);
    }
  }

  /** The first token of a line (index 0, or an index one past a multiple of
      5) is in column 1; the others start one space past the previous word. */
  lemma ColumnOfWord(ws: seq<string>)
    requires ws != []
    ensures |ws| == 1 || (|ws| - 1) % 5 == 0 ==> PositionAfter(ws).1 == 1
    ensures |ws| > 1 && (|ws| - 1) % 5 != 0 ==>
      PositionAfter(ws).1 == PositionAfter(ws[..|ws| - 1]).1 + |ws[|ws| - 1]| + 1
  {
  }

  /** Every entry of the keyword table is upper-case ASCII, and no two are
      the same. */
  lemma KeywordsUpperDistinct()
    ensures forall k :: 0 <= k < |KEYWORDS| ==> IsUpperWord(KEYWORDS[k].0)
    ensures forall j, k :: 0 <= j < k < |KEYWORDS| ==> KEYWORDS[j].0 != KEYWORDS[k].0
  {
  }

  predicate IsUpperWord(w: string)
  {
    forall i :: 0 <= i < |w| ==> 'A' <= w[i] <= 'Z'
  }

  /** Two upper-case words equal to the same word ignoring ASCII case are
      the same word. */
  lemma UpperWordsEqual(a: string, b: string, word: string)
    requires IsUpperWord(a) && IsUpperWord(b)
    requires EqIgnoreAsciiCase(a, word) && EqIgnoreAsciiCase(b, word)
    ensures a == b
  {
    forall i | 0 <= i < |a|
      ensures a[i] == b[i]
    {
      assert LowerChar(a[i]) == LowerChar(b[i]);
    }
  }

  /** A word equal to entry k of the keyword table, ignoring ASCII case, is
      that entry's token: the table's entries never shadow each other. */
  lemma KeywordsMatch(word: string, k: nat)
    requires k < |KEYWORDS| && EqIgnoreAsciiCase(KEYWORDS[k].0, word)
    ensures MatchKeyword(KEYWORDS, word) == KEYWORDS[k].1
  {
    KeywordsUpperDistinct();
    forall j | 0 <= j < |KEYWORDS| && j != k
      ensures !EqIgnoreAsciiCase(KEYWORDS[j].0, word)
    {
      if EqIgnoreAsciiCase(KEYWORDS[j].0, word) {
        UpperWordsEqual(KEYWORDS[j].0, KEYWORDS[k].0, word);
      }
    }
  }

  /** Keywords are tried before every other class: a word equal to some
      entry, ignoring ASCII case, becomes the first such entry's token. */
  lemma KeywordFirst(keywords: seq<(string, TokenType)>, word: string, k: nat)
    requires k < |keywords| && EqIgnoreAsciiCase(keywords[k].0, word)
    ensures exists j :: (0 <= j <= k && EqIgnoreAsciiCase(keywords[j].0, word)
      && MatchKeyword(keywords, word) == keywords[j].1
      && forall i :: 0 <= i < j ==> !EqIgnoreAsciiCase(keywords[i].0, word))
  {
    LookupKeywordFirst(keywords, word);
  }

  /** A word no entry matches is classified by the other rules. */
  lemma NoKeywordClassifies(keywords: seq<(string, TokenType)>, word: string)
    requires forall k :: 0 <= k < |keywords| ==> !EqIgnoreAsciiCase(keywords[k].0, word)
    ensures MatchKeyword(keywords, word) == ClassifyWord(word)
  {
  }

  /** "null" is the Null keyword and "TRUE" the boolean true. */
  lemma KeywordExamples()
    ensures MatchKeyword(KEYWORDS, "null") == Null
    ensures MatchKeyword(KEYWORDS, "TRUE") == Boolean(true)
  {
    assert KEYWORDS[22] == ("NULL", Null);
    assert EqIgnoreAsciiCase("NULL", "null");
    KeywordsMatch("null", 22);
    assert KEYWORDS[23] == ("TRUE", Boolean(true));
    KeywordsMatch("TRUE", 23);
  }

  /** A word that is not a number in any form. */
  lemma NotNumeric(word: string)
    requires |word| > 0 && !IsDigit(word[0]) && word[0] != '+' && word[0] != '-' && word[0] != '.'
    requires LowerChar(word[0]) != 'i' && LowerChar(word[0]) != 'n'
    ensures ParseI64(word) == None && !IsFloatLiteral(word)
  {
    var k := ExponentStart(word);
    if k > 0 {
      assert !AllDigits(word[..k]) by {
        assert word[..k][0] == word[0];
      }
      assert word[..k][0] == word[0];
    }
    assert Lower(word)[0] == LowerChar(word[0]);
  }

  lemma IntegerExample()
    ensures ClassifyWord("-42") == Integer(-42)
  {
    assert "-42"[1..] == "42";
    assert "42"[..1] == "4";
    assert DecimalValue("4") == 4;
    assert DecimalValue("42") == 42;
  }

  lemma OperatorExample()
    ensures ClassifyWord("!=") == NotEquals
    ensures ClassifyWord("-") == Minus
  {
    NotNumeric("!=");
  }

  lemma StringExample()
    ensures ClassifyWord("'ab'") == String("ab")
  {
    NotNumeric("'ab'");
    assert "'ab'"[1..3] == "ab";
  }

  lemma IdentifierExample()
    ensures ClassifyWord("users") == Identifier("users")
  {
    NotNumeric("users");
  }
}
