/** Signature patterns: the textual compiler, the hexadecimal printers and the
    meaning of a match. */
module Pattern {
  import opened Base

  /** One element of a compiled pattern. */
  datatype PatternByte = PatternByte(value: byte, wildcard: bool)

  type Pattern = seq<PatternByte>

  datatype ParseError = EmptyPattern | BadToken(position: nat)

  // ----- characters -----

  /** std::isspace in the "C" locale. */
  predicate IsSpace(c: char) {
    c == ' ' || 9 <= c as int <= 13
  }

  function HexValue(c: char): Option<nat> {
    if '0' <= c <= '9' then Some(c as int - '0' as int)
    else if 'a' <= c <= 'f' then Some(c as int - 'a' as int + 10)
    else if 'A' <= c <= 'F' then Some(c as int - 'A' as int + 10)
    else None
  }

  // ----- the token grammar -----

  datatype Token = Token(start: nat, text: string)

  function SkipSpace(text: string, i: nat): (j: nat)
    requires i <= |text|
    ensures i <= j <= |text|
    ensures forall k :: i <= k < j ==> IsSpace(text[k])
    ensures j < |text| ==> !IsSpace(text[j])
    decreases |text| - i
  {
    if i < |text| && IsSpace(text[i]) then SkipSpace(text, i + 1) else i
  }

  function SkipWord(text: string, i: nat): (j: nat)
    requires i <= |text|
    ensures i <= j <= |text|
    ensures forall k :: i <= k < j ==> !IsSpace(text[k])
    ensures j < |text| ==> IsSpace(text[j])
    decreases |text| - i
  {
    if i < |text| && !IsSpace(text[i]) then SkipWord(text, i + 1) else i
  }

  /** The whitespace-separated words of text[at..], left to right. */
  function Tokens(text: string, at: nat): seq<Token>
    requires at <= |text|
    decreases |text| - at
  {
    var s := SkipSpace(text, at);
    if s == |text| then []
    else
      var e := SkipWord(text, s);
      [Token(s, text[s..e])] + Tokens(text, e)
  }

  /** The pattern byte that a single word denotes, if any. */
  function TokenByte(word: string): Option<PatternByte> {
    if word == "??" || word == "?" then Some(PatternByte(0, true))
    else if |word| != 2 then None
    else
      match (HexValue(word[0]), HexValue(word[1]))
      case (Some(hi), Some(lo)) => Some(PatternByte(hi * 16 + lo, false))
      case _ => None
  }

  function Compile(tokens: seq<Token>): Result<Pattern, ParseError> {
    if tokens == [] then Ok([])
    else
      match TokenByte(tokens[0].text)
      case None => Err(BadToken(tokens[0].start))
      case Some(b) => Prepend([b], Compile(tokens[1..]))
  }

  function ParseText(text: string): Result<Pattern, ParseError> {
    match Compile(Tokens(text, 0))
    case Err(e) => Err(e)
    case Ok(bytes) => if bytes == [] then Err(EmptyPattern) else Ok(bytes)
  }

  /** The per-word branch of the compiler. */
  method CompileToken(token: string) returns (b: Option<PatternByte>)
    ensures b == TokenByte(token)
  {
    if token == "??" || token == "?" {
      return Some(PatternByte(0, true));
    } else if |token| == 2 {
      var hi, lo := HexValue(token[0]), HexValue(token[1]);
      if hi.None? || lo.None? {
        return None;
      }
      return Some(PatternByte(hi.value * 16 + lo.value, false));
    } else {
      return None;
    }
  }

  /** The single-pass compiler. */
  method Parse(text: string) returns (r: Result<Pattern, ParseError>)
    ensures r == ParseText(text)
  {
    hide Compile, Tokens, TokenByte;
    ghost var whole := Compile(Tokens(text, 0));
    PrependNothing(whole);
    var bytes: Pattern := [];
    var tokenStart, i := 0, 0;
    while i <= |text|
      invariant 0 <= tokenStart <= i <= |text|
      invariant forall k :: tokenStart <= k < i ==> !IsSpace(text[k])
      invariant whole == Prepend(bytes, Compile(Tokens(text, tokenStart)))
      decreases |text| - i
    {
      var atEnd := i == |text|;
      if atEnd || IsSpace(text[i]) {
        CompileAtBoundary(text, tokenStart, i, bytes, whole);
        if i > tokenStart {
          var b := CompileToken(text[tokenStart..i]);
          if b.None? {
            return Err(BadToken(tokenStart));
          }
          bytes := bytes + [b.value];
        }
        tokenStart := i + 1;
      }
      if atEnd {
        break;
      }
      i := i + 1;
    }
    if bytes == [] {
      return Err(EmptyPattern);
    }
    return Ok(bytes);
  }

  /** One boundary step of the compiler: the pending word text[start..i], if
      any, joins the bytes compiled so far or ends the compilation. */
  lemma CompileAtBoundary(text: string, start: nat, i: nat, bytes: Pattern, whole: Result<Pattern, ParseError>)
    requires start <= i <= |text| && (i == |text| || IsSpace(text[i]))
    requires forall k :: start <= k < i ==> !IsSpace(text[k])
    requires whole == Prepend(bytes, Compile(Tokens(text, start)))
    ensures start < i && TokenByte(text[start..i]).None? ==> whole == Err(BadToken(start))
    ensures start == i || TokenByte(text[start..i]).Some? ==>
              var bytes' := if start == i then bytes else bytes + [TokenByte(text[start..i]).value];
              if i == |text| then whole == Ok(bytes') else whole == Prepend(bytes', Compile(Tokens(text, i + 1)))
  {
    TokensAtBoundary(text, start, i);
    var rest := Compile(Tokens(text, i));
    if start == i {
      if i == |text| { PrependToNothing(bytes, rest); }
    } else {
      CompileFirstWord(text, start, i);
      var b := TokenByte(text[start..i]);
      if b.Some? {
        PrependSnoc(bytes, b.value, rest);
        if i == |text| { PrependToNothing(bytes + [b.value], rest); }
      }
    }
  }

  lemma CompileFirstWord(text: string, start: nat, i: nat)
    requires start < i <= |text| && (i == |text| || IsSpace(text[i]))
    requires forall k :: start <= k < i ==> !IsSpace(text[k])
    ensures TokenByte(text[start..i]).None? ==> Compile(Tokens(text, start)) == Err(BadToken(start))
    ensures TokenByte(text[start..i]).Some? ==>
              Compile(Tokens(text, start)) == Prepend([TokenByte(text[start..i]).value], Compile(Tokens(text, i)))
  {
    TokensAtBoundary(text, start, i);
    var rest := Tokens(text, i);
    assert Tokens(text, start)[1..] == rest;
  }

  /** What the compiler sees when it reaches a boundary at i: either nothing,
      or exactly the word text[start..i]; then a space to step over. */
  lemma TokensAtBoundary(text: string, start: nat, i: nat)
    requires start <= i <= |text| && (i == |text| || IsSpace(text[i]))
    requires forall k :: start <= k < i ==> !IsSpace(text[k])
    ensures start < i ==> Tokens(text, start) == [Token(start, text[start..i])] + Tokens(text, i)
    ensures i < |text| ==> Tokens(text, i) == Tokens(text, i + 1)
    ensures i == |text| ==> Tokens(text, i) == []
  {
    WordEnd(text, start, i);
  }

  lemma {:induction false} WordEnd(text: string, start: nat, i: nat)
    requires start <= i <= |text| && (i == |text| || IsSpace(text[i]))
    requires forall k :: start <= k < i ==> !IsSpace(text[k])
    ensures SkipWord(text, start) == i
    decreases i - start
  {
    if start < i {
      WordEnd(text, start + 1, i);
    }
  }

  /** A word of the text, said without scanning: a non-empty run without
      whitespace that whitespace or an end of the text delimits on both sides. */
  predicate IsWord(text: string, t: Token) {
    var e := t.start + |t.text|;
    && t.start < e <= |text| && t.text == text[t.start..e]
    && (forall k :: t.start <= k < e ==> !IsSpace(text[k]))
    && (t.start == 0 || IsSpace(text[t.start - 1]))
    && (e == |text| || IsSpace(text[e]))
  }

  /** Two words that overlap are the same word. */
  lemma SameWord(text: string, t: Token, u: Token)
    requires IsWord(text, t) && IsWord(text, u)
    requires t.start < u.start + |u.text| && u.start < t.start + |t.text|
    ensures t == u
  {
    var te, ue := t.start + |t.text|, u.start + |u.text|;
    assert t.start <= u.start;
    assert u.start <= t.start;
    assert te <= ue;
    assert ue <= te;
  }

  /** The word that the scan finds first, and where the others are. */
  lemma FirstWord(text: string, at: nat)
    requires at <= |text|
    requires at == 0 || at == |text| || IsSpace(text[at - 1]) || IsSpace(text[at])
    ensures var s := SkipSpace(text, at);
            && (forall t :: IsWord(text, t) && at <= t.start ==> s <= t.start)
            && (s < |text| ==>
                  var e := SkipWord(text, s);
                  && s < e && IsWord(text, Token(s, text[s..e]))
                  && forall t :: IsWord(text, t) && at <= t.start ==> t == Token(s, text[s..e]) || e <= t.start)
  {
    hide IsSpace, SkipSpace, SkipWord;
    var s := SkipSpace(text, at);
    forall t | IsWord(text, t) && at <= t.start
      ensures s <= t.start
    {
      assert !IsSpace(text[t.start]);
    }
    if s < |text| {
      var e := SkipWord(text, s);
      var first := Token(s, text[s..e]);
      forall t | IsWord(text, t) && at <= t.start
        ensures t == first || e <= t.start
      {
        if t.start < e {
          SameWord(text, first, t);
        }
      }
    }
  }

  /** The token list holds exactly the words of the text, in text order. */
  lemma {:induction false} TokensExact(text: string, at: nat)
    requires at <= |text|
    requires at == 0 || at == |text| || IsSpace(text[at - 1]) || IsSpace(text[at])
    ensures forall t :: t in Tokens(text, at) <==> IsWord(text, t) && at <= t.start
    ensures forall i, j :: 0 <= i < j < |Tokens(text, at)| ==> Tokens(text, at)[i].start < Tokens(text, at)[j].start
    decreases |text| - at
  {
    hide IsSpace, SkipSpace, SkipWord, IsWord;
    FirstWord(text, at);
    var s := SkipSpace(text, at);
    if s < |text| {
      var e := SkipWord(text, s);
      var first, rest := Token(s, text[s..e]), Tokens(text, e);
      TokensExact(text, e);
      assert Tokens(text, at) == [first] + rest;
      assert forall t :: t in [first] + rest <==> t == first || t in rest;
      assert forall i :: 0 <= i < |rest| ==> rest[i] in rest;
    } else {
      WordsFit(text);
    }
  }

  lemma WordsFit(text: string)
    ensures forall t :: IsWord(text, t) ==> t.start < |text|
  {
  }

  predicate FirstBad(tokens: seq<Token>, k: nat) {
    && k < |tokens| && TokenByte(tokens[k].text).None?
    && forall i :: 0 <= i < k ==> TokenByte(tokens[i].text).Some?
  }

  /** Compilation is token-wise, and reports the first bad token. */
  lemma {:induction false} CompileExact(tokens: seq<Token>)
    ensures Compile(tokens).Ok? <==> forall t :: t in tokens ==> TokenByte(t.text).Some?
    ensures Compile(tokens).Ok? ==>
              |Compile(tokens).value| == |tokens| &&
              forall i :: 0 <= i < |tokens| ==> TokenByte(tokens[i].text) == Some(Compile(tokens).value[i])
    ensures Compile(tokens).Err? ==>
              exists k: nat :: FirstBad(tokens, k) && Compile(tokens).error == BadToken(tokens[k].start)
  {
    hide TokenByte;
    if tokens != [] {
      var rest := tokens[1..];
      CompileExact(rest);
      assert tokens == [tokens[0]] + rest;
      if TokenByte(tokens[0].text).None? {
        assert FirstBad(tokens, 0);
      } else if Compile(rest).Err? {
        var k: nat :| FirstBad(rest, k) && Compile(rest).error == BadToken(rest[k].start);
        assert tokens[k + 1] == rest[k];
        assert forall i :: 1 <= i < k + 1 ==> tokens[i] == rest[i - 1];
        assert FirstBad(tokens, k + 1);
      }
    }
  }

  /** An accepted text compiles word by word: byte i of the pattern is what
      word i denotes. */
  lemma ParseIsWordwise(text: string, pattern: Pattern)
    requires ParseText(text) == Ok(pattern)
    ensures |pattern| == |Tokens(text, 0)|
    ensures forall i :: 0 <= i < |pattern| ==>
              IsWord(text, Tokens(text, 0)[i]) && TokenByte(Tokens(text, 0)[i].text) == Some(pattern[i])
    ensures forall i, j :: 0 <= i < j < |pattern| ==> Tokens(text, 0)[i].start < Tokens(text, 0)[j].start
  {
    hide Compile, Tokens, TokenByte, IsSpace;
    var ts := Tokens(text, 0);
    TokensExact(text, 0);
    CompileExact(ts);
    assert forall i :: 0 <= i < |ts| ==> ts[i] in ts;
  }

  // ----- matching -----

  /** The pattern occurs in the buffer at the offset. */
  predicate Matches(buffer: seq<byte>, offset: nat, pattern: Pattern) {
    && pattern != []
    && offset + |pattern| <= |buffer|
    && forall i :: 0 <= i < |pattern| ==> pattern[i].wildcard || buffer[offset + i] == pattern[i].value
  }

  /** The check of the source; comparisons counts the buffer bytes it reads. */
  method MatchesAt(buffer: seq<byte>, offset: nat, pattern: Pattern) returns (r: bool, ghost comparisons: nat)
    ensures r == Matches(buffer, offset, pattern)
    ensures comparisons <= |pattern|
  {
    comparisons := 0;
    if |pattern| == 0 {
      return false, 0;
    }
    if offset > |buffer| || |pattern| > |buffer| - offset {
      return false, 0;
    }
    for i := 0 to |pattern|
      invariant forall k :: 0 <= k < i ==> pattern[k].wildcard || buffer[offset + k] == pattern[k].value
      invariant comparisons <= i
    {
      if !pattern[i].wildcard {
        comparisons := comparisons + 1;
        if buffer[offset + i] != pattern[i].value {
          return false, comparisons;
        }
      }
    }
    return true, comparisons;
  }

  /** a is the index of the first byte that is not a wildcard. */
  predicate IsFirstFixed(pattern: Pattern, a: nat) {
    a < |pattern| && !pattern[a].wildcard && forall i :: 0 <= i < a ==> pattern[i].wildcard
  }

  method FirstFixedIndex(pattern: Pattern) returns (r: Option<nat>)
    ensures r.None? <==> forall i :: 0 <= i < |pattern| ==> pattern[i].wildcard
    ensures r.Some? ==> IsFirstFixed(pattern, r.value)
  {
    for i := 0 to |pattern|
      invariant forall k :: 0 <= k < i ==> pattern[k].wildcard
    {
      if !pattern[i].wildcard {
        return Some(i);
      }
    }
    return None;
  }

  /** q is p with some fixed bytes turned into wildcards. */
  predicate Weakens(q: Pattern, p: Pattern) {
    |q| == |p| && forall i :: 0 <= i < |p| ==> q[i].wildcard || q[i] == p[i]
  }

  lemma WeakerMatchesMore(buffer: seq<byte>, offset: nat, p: Pattern, q: Pattern)
    requires Weakens(q, p) && Matches(buffer, offset, p)
    ensures Matches(buffer, offset, q)
  {
    forall i | 0 <= i < |q|
      ensures q[i].wildcard || buffer[offset + i] == q[i].value
    {
      assert p[i].wildcard || buffer[offset + i] == p[i].value;
    }
  }

  // ----- the printers -----

  function LowerDigit(v: nat): char
    requires v < 16
  {
    if v < 10 then ('0' as int + v) as char else ('a' as int + v - 10) as char
  }

  function UpperDigit(v: nat): char
    requires v < 16
  {
    if v < 10 then ('0' as int + v) as char else ('A' as int + v - 10) as char
  }

  function HexChar(bytes: seq<byte>, j: nat): char
    requires j / 3 < |bytes|
  {
    if j % 3 == 0 then LowerDigit(bytes[j / 3] / 16)
    else if j % 3 == 1 then LowerDigit(bytes[j / 3] % 16)
    else ' '
  }

  /** Two lower-case digits per byte, single spaces between bytes. */
  function HexText(bytes: seq<byte>): (s: string) {
    seq(if bytes == [] then 0 else 3 * |bytes| - 1, j requires 0 <= j < 3 * |bytes| => HexChar(bytes, j))
  }

  method HexString(bytes: seq<byte>) returns (out: string)
    ensures out == HexText(bytes)
  {
    out := "";
    for i := 0 to |bytes|
      invariant |out| == if i == 0 then 0 else 3 * i - 1
      invariant forall j :: 0 <= j < |out| ==> out[j] == HexChar(bytes, j)
    {
      if i != 0 {
        out := out + [' '];
      }
      var b := bytes[i];
      DigitTables(b / 16);
      DigitTables(b % 16);
      out := out + ["0123456789abcdef"[b / 16]];
      out := out + ["0123456789abcdef"[b % 16]];
    }
  }

  function DenseChar(bytes: seq<byte>, j: nat): char
    requires j / 2 < |bytes|
  {
    if j % 2 == 0 then UpperDigit(bytes[j / 2] / 16) else UpperDigit(bytes[j / 2] % 16)
  }

  /** Two upper-case digits per byte, nothing between bytes. */
  function DenseText(bytes: seq<byte>): (s: string) {
    seq(2 * |bytes|, j requires 0 <= j < 2 * |bytes| => DenseChar(bytes, j))
  }

  method HexStringDense(bytes: seq<byte>) returns (out: string)
    ensures out == DenseText(bytes)
  {
    out := "";
    for i := 0 to |bytes|
      invariant |out| == 2 * i
      invariant forall j :: 0 <= j < |out| ==> out[j] == DenseChar(bytes, j)
    {
      var v := bytes[i];
      DigitTables(v / 16);
      DigitTables(v % 16);
      out := out + ["0123456789ABCDEF"[v / 16]];
      out := out + ["0123456789ABCDEF"[v % 16]];
    }
  }

  function Literal(bytes: seq<byte>): Pattern {
    seq(|bytes|, i requires 0 <= i < |bytes| => PatternByte(bytes[i], false))
  }

  lemma DigitsRoundTrip(v: nat)
    requires v < 16
    ensures HexValue(LowerDigit(v)) == Some(v) && !IsSpace(LowerDigit(v))
    ensures HexValue(UpperDigit(v)) == Some(v) && !IsSpace(UpperDigit(v))
  {
  }

  lemma DigitTables(v: nat)
    requires v < 16
    ensures "0123456789abcdef"[v] == LowerDigit(v) && "0123456789ABCDEF"[v] == UpperDigit(v)
  {
    assert v == 0 || v == 1 || v == 2 || v == 3 || v == 4 || v == 5 || v == 6 || v == 7 ||
           v == 8 || v == 9 || v == 10 || v == 11 || v == 12 || v == 13 || v == 14 || v == 15;
  }

  lemma HexChars(bytes: seq<byte>, i: nat)
    requires i < |bytes|
    ensures 3 * i + 2 <= |HexText(bytes)|
    ensures HexText(bytes)[3 * i] == LowerDigit(bytes[i] / 16) && HexText(bytes)[3 * i + 1] == LowerDigit(bytes[i] % 16)
    ensures if i + 1 < |bytes| then 3 * i + 2 < |HexText(bytes)| && HexText(bytes)[3 * i + 2] == ' '
            else 3 * i + 2 == |HexText(bytes)|
  {
    hide LowerDigit;
    var text := HexText(bytes);
    assert text[3 * i] == HexChar(bytes, 3 * i);
    assert text[3 * i + 1] == HexChar(bytes, 3 * i + 1);
    assert i + 1 < |bytes| ==> text[3 * i + 2] == HexChar(bytes, 3 * i + 2);
  }

  lemma HexWord(bytes: seq<byte>, i: nat)
    requires i < |bytes|
    ensures 3 * i + 2 <= |HexText(bytes)|
    ensures forall k :: 3 * i <= k < 3 * i + 2 ==> !IsSpace(HexText(bytes)[k])
    ensures if i + 1 < |bytes| then 3 * i + 2 < |HexText(bytes)| && HexText(bytes)[3 * i + 2] == ' '
            else 3 * i + 2 == |HexText(bytes)|
    ensures TokenByte(HexText(bytes)[3 * i..3 * i + 2]) == Some(PatternByte(bytes[i], false))
  {
    hide HexText;
    HexChars(bytes, i);
    DigitWord(HexText(bytes)[3 * i..3 * i + 2], bytes[i]);
  }

  lemma DigitWord(word: string, b: byte)
    requires |word| == 2 && word[0] == LowerDigit(b / 16) && word[1] == LowerDigit(b % 16)
    ensures !IsSpace(word[0]) && !IsSpace(word[1])
    ensures TokenByte(word) == Some(PatternByte(b, false))
  {
    DigitsRoundTrip(b / 16);
    DigitsRoundTrip(b % 16);
    assert word[0] != '?';
  }

  /** A good word in front of text that compiles to rest. */
  lemma CompileStep(text: string, start: nat, i: nat, b: PatternByte, rest: Pattern)
    requires start < i <= |text|
    requires forall k :: start <= k < i ==> !IsSpace(text[k])
    requires TokenByte(text[start..i]) == Some(b)
    requires if i == |text| then rest == [] else IsSpace(text[i]) && Compile(Tokens(text, i + 1)) == Ok(rest)
    ensures Compile(Tokens(text, start)) == Ok([b] + rest)
  {
    CompileFirstWord(text, start, i);
    TokensAtBoundary(text, start, i);
  }

  lemma {:induction false} HexTokens(bytes: seq<byte>, i: nat)
    requires i < |bytes|
    ensures 3 * i <= |HexText(bytes)|
    ensures Compile(Tokens(HexText(bytes), 3 * i)) == Ok(Literal(bytes[i..]))
    decreases |bytes| - i
  {
    var b, rest := PatternByte(bytes[i], false), Literal(bytes[i + 1..]);
    HexWord(bytes, i);
    if i + 1 < |bytes| {
      HexTokens(bytes, i + 1);
    }
    CompileStep(HexText(bytes), 3 * i, 3 * i + 2, b, rest);
    LiteralStep(bytes, i);
  }

  lemma LiteralStep(bytes: seq<byte>, i: nat)
    requires i < |bytes|
    ensures Literal(bytes[i..]) == [PatternByte(bytes[i], false)] + Literal(bytes[i + 1..])
  {
  }

  /** The compiler undoes the printer: the printed form of any non-empty byte
      string compiles to exactly those bytes, none of them a wildcard. */
  lemma PrintThenParse(bytes: seq<byte>)
    ensures ParseText(HexText(bytes)) == if bytes == [] then Err(EmptyPattern) else Ok(Literal(bytes))
  {
    if bytes != [] {
      HexTokens(bytes, 0);
      assert bytes[0..] == bytes;
    }
  }

  lemma DenseHasNoSpace(bytes: seq<byte>)
    ensures forall j :: 0 <= j < |DenseText(bytes)| ==> !IsSpace(DenseText(bytes)[j])
  {
    forall j | 0 <= j < |DenseText(bytes)|
      ensures !IsSpace(DenseText(bytes)[j])
    {
      assert DenseText(bytes)[j] == DenseChar(bytes, j);
      DigitsRoundTrip(bytes[j / 2] / 16);
      DigitsRoundTrip(bytes[j / 2] % 16);
    }
  }

  /** The dense printer has no separators, so the compiler undoes it exactly
      for single bytes and rejects everything longer at position 0. */
  lemma DensePrintThenParse(bytes: seq<byte>)
    ensures ParseText(DenseText(bytes)) ==
            if |bytes| == 0 then Err(EmptyPattern)
            else if |bytes| == 1 then Ok(Literal(bytes))
            else Err(BadToken(0))
  {
    hide TokenByte, DenseText, Tokens, Compile;
    DenseLength(bytes);
    if bytes != [] {
      var text := DenseText(bytes);
      DenseHasNoSpace(bytes);
      DenseWord(bytes);
      assert text[0..|text|] == text;
      if |bytes| == 1 {
        CompileStep(text, 0, |text|, PatternByte(bytes[0], false), []);
        assert Literal(bytes) == [PatternByte(bytes[0], false)] + [];
      } else {
        CompileFirstWord(text, 0, |text|);
      }
    } else {
      EmptyTextRejected(DenseText(bytes));
    }
  }

  lemma EmptyTextRejected(text: string)
    requires text == ""
    ensures ParseText(text) == Err(EmptyPattern)
  {
  }

  lemma DenseLength(bytes: seq<byte>)
    ensures |DenseText(bytes)| == 2 * |bytes|
  {
  }

  lemma DenseWord(bytes: seq<byte>)
    requires bytes != []
    ensures TokenByte(DenseText(bytes)) == if |bytes| == 1 then Some(PatternByte(bytes[0], false)) else None
  {
    DigitsRoundTrip(bytes[0] / 16);
    DigitsRoundTrip(bytes[0] % 16);
    var text := DenseText(bytes);
    assert text[0] == DenseChar(bytes, 0) && text[1] == DenseChar(bytes, 1);
    assert text[0] != '?';
  }

  /** A printed pattern matches exactly where its bytes occur. */
  lemma LiteralMatchesSubstring(buffer: seq<byte>, offset: nat, bytes: seq<byte>)
    ensures Matches(buffer, offset, Literal(bytes)) <==>
              bytes != [] && offset + |bytes| <= |buffer| && buffer[offset..offset + |bytes|] == bytes
  {
    var p := Literal(bytes);
    if offset + |bytes| <= |buffer| {
      var window := buffer[offset..offset + |bytes|];
      assert forall i :: 0 <= i < |bytes| ==> window[i] == buffer[offset + i];
      if Matches(buffer, offset, p) {
        forall i | 0 <= i < |bytes|
          ensures window[i] == bytes[i]
        {
          assert p[i].wildcard || buffer[offset + i] == p[i].value;
        }
        assert window == bytes;
      }
      if bytes != [] && window == bytes {
        assert forall i :: 0 <= i < |bytes| ==> buffer[offset + i] == p[i].value;
      }
    }
  }
}
