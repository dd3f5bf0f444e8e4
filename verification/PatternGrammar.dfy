/** The language of the pattern compiler, written without its tokenizer and
    digit tables: which texts it accepts, what they compile to, and where the
    others are rejected. */
module PatternGrammar {
  import opened Base
  import opened Pattern

  // ----- words -----

  predicate DigitIs(c: char, v: nat)
    requires v < 16
  {
    c == "0123456789abcdef"[v] || c == "0123456789ABCDEF"[v]
  }

  /** The word is a spelling of the pattern byte: question marks for a wildcard,
      two hexadecimal digits in either case for a fixed byte. */
  predicate Spells(word: string, b: PatternByte) {
    if b.wildcard then b.value == 0 && (word == "?" || word == "??")
    else |word| == 2 && DigitIs(word[0], b.value / 16) && DigitIs(word[1], b.value % 16)
  }

  predicate GoodWord(word: string) {
    word == "?" || word == "??" ||
    (|word| == 2 && word[0] in "0123456789abcdefABCDEF" && word[1] in "0123456789abcdefABCDEF")
  }

  lemma DigitExact(c: char, v: nat)
    requires v < 16
    ensures HexValue(c) == Some(v) <==> DigitIs(c, v)
    ensures HexValue(c).Some? ==> HexValue(c).value < 16
  {
    DigitTables(v);
  }

  lemma DigitInList(c: char)
    ensures HexValue(c).Some? <==> c in "0123456789abcdefABCDEF"
  {
    var digits := "0123456789abcdefABCDEF";
    if HexValue(c).Some? {
      var v := HexValue(c).value;
      DigitExact(c, v);
      assert forall i :: 0 <= i < 16 ==> "0123456789abcdef"[i] == digits[i];
      assert forall i :: 10 <= i < 16 ==> "0123456789ABCDEF"[i] == digits[i + 6];
      assert c == digits[v] || (v >= 10 && c == digits[v + 6]);
    }
  }

  lemma WordExact(word: string, b: PatternByte)
    ensures TokenByte(word) == Some(b) <==> Spells(word, b)
  {
    hide HexValue, DigitIs;
    if |word| == 2 {
      DigitExact(word[0], b.value / 16);
      DigitExact(word[1], b.value % 16);
      QuestionIsNoDigit(b.value / 16);
      if TokenByte(word) == Some(b) && !b.wildcard {
        var hi, lo := HexValue(word[0]).value, HexValue(word[1]).value;
        DigitExact(word[0], hi);
        DigitExact(word[1], lo);
      }
    }
  }

  lemma QuestionIsNoDigit(v: nat)
    requires v < 16
    ensures !DigitIs('?', v)
  {
    DigitTables(v);
  }

  lemma GoodWordExact(word: string)
    ensures TokenByte(word).Some? <==> GoodWord(word)
  {
    hide HexValue;
    if |word| == 2 {
      DigitInList(word[0]);
      DigitInList(word[1]);
    }
  }

  // ----- printed forms -----

  /** The spaced printer, character by character: lower-case digits and single
      blanks, none behind the last byte. */
  lemma HexTextExact(bytes: seq<byte>)
    ensures |HexText(bytes)| == if bytes == [] then 0 else 3 * |bytes| - 1
    ensures forall i :: 0 <= i < |bytes| ==>
              && HexText(bytes)[3 * i] == "0123456789abcdef"[bytes[i] / 16]
              && HexText(bytes)[3 * i + 1] == "0123456789abcdef"[bytes[i] % 16]
              && (i + 1 < |bytes| ==> HexText(bytes)[3 * i + 2] == ' ')
  {
    hide LowerDigit;
    forall i | 0 <= i < |bytes|
      ensures && HexText(bytes)[3 * i] == "0123456789abcdef"[bytes[i] / 16]
              && HexText(bytes)[3 * i + 1] == "0123456789abcdef"[bytes[i] % 16]
              && (i + 1 < |bytes| ==> HexText(bytes)[3 * i + 2] == ' ')
    {
      HexChars(bytes, i);
      DigitTables(bytes[i] / 16);
      DigitTables(bytes[i] % 16);
    }
  }

  /** The dense printer: upper-case digits and nothing else. */
  lemma DenseTextExact(bytes: seq<byte>)
    ensures |DenseText(bytes)| == 2 * |bytes|
    ensures forall i :: 0 <= i < |bytes| ==>
              && DenseText(bytes)[2 * i] == "0123456789ABCDEF"[bytes[i] / 16]
              && DenseText(bytes)[2 * i + 1] == "0123456789ABCDEF"[bytes[i] % 16]
  {
    hide UpperDigit;
    forall i | 0 <= i < |bytes|
      ensures && DenseText(bytes)[2 * i] == "0123456789ABCDEF"[bytes[i] / 16]
              && DenseText(bytes)[2 * i + 1] == "0123456789ABCDEF"[bytes[i] % 16]
    {
      assert DenseText(bytes)[2 * i] == DenseChar(bytes, 2 * i);
      assert DenseText(bytes)[2 * i + 1] == DenseChar(bytes, 2 * i + 1);
      DigitTables(bytes[i] / 16);
      DigitTables(bytes[i] % 16);
    }
  }

  // ----- texts -----

  /** Only blank, tab, line feed, vertical tab, form feed and carriage return. */
  predicate Blank(s: string) {
    forall c :: c in s ==> c as int in {0x20, 0x09, 0x0A, 0x0B, 0x0C, 0x0D}
  }

  /** Words with gaps between, in front and behind. */
  function Spread(gaps: seq<string>, words: seq<string>): string
    requires |gaps| == |words| + 1
  {
    if words == [] then gaps[0] else gaps[0] + words[0] + Spread(gaps[1..], words[1..])
  }

  /** Spellings of the pattern bytes, separated by whitespace. */
  predicate Spelling(gaps: seq<string>, words: seq<string>, p: Pattern) {
    && |words| == |p| && |gaps| == |words| + 1
    && (forall i :: 0 <= i < |gaps| ==> Blank(gaps[i]))
    && (forall i :: 0 < i < |words| ==> gaps[i] != "")
    && (forall i :: 0 <= i < |words| ==> Spells(words[i], p[i]))
  }

  lemma SpellingTail(gaps: seq<string>, words: seq<string>, p: Pattern)
    requires Spelling(gaps, words, p) && p != []
    ensures Spelling(gaps[1..], words[1..], p[1..])
    ensures words[1..] != [] ==> gaps[1..][0] != ""
  {
  }

  lemma BlankIsSpace(s: string)
    ensures Blank(s) <==> forall k :: 0 <= k < |s| ==> IsSpace(s[k])
  {
    assert forall k :: 0 <= k < |s| ==> s[k] in s;
  }

  lemma SpelledWord(word: string, b: PatternByte)
    requires Spells(word, b)
    ensures word != "" && forall k :: 0 <= k < |word| ==> !IsSpace(word[k])
  {
    if !b.wildcard {
      DigitExact(word[0], b.value / 16);
      DigitExact(word[1], b.value % 16);
    }
  }

  lemma {:induction false} SkipGap(text: string, at: nat, s: nat)
    requires at <= s <= |text| && forall k :: at <= k < s ==> IsSpace(text[k])
    ensures Tokens(text, at) == Tokens(text, s)
    decreases s - at
  {
    hide Tokens, IsSpace;
    if at < s {
      TokensAtBoundary(text, at, at);
      SkipGap(text, at + 1, s);
    }
  }

  /** A text starts with its first gap, and what follows a word is no word. */
  lemma SpreadFront(gaps: seq<string>, words: seq<string>, p: Pattern)
    requires Spelling(gaps, words, p)
    ensures gaps[0] <= Spread(gaps, words)
    ensures words == [] || gaps[0] != "" ==> Spread(gaps, words) == "" || IsSpace(Spread(gaps, words)[0])
  {
    BlankIsSpace(gaps[0]);
  }

  lemma {:induction false} SpellingCompiles(text: string, at: nat, gaps: seq<string>, words: seq<string>, p: Pattern)
    requires at <= |text| && Spelling(gaps, words, p) && text[at..] == Spread(gaps, words)
    ensures Compile(Tokens(text, at)) == Ok(p)
    decreases |p|
  {
    hide Tokens, Compile, IsSpace, Spells, Spelling, TokenByte;
    GapInFront(text, at, gaps, words, p);
    var s := at + |gaps[0]|;
    SkipGap(text, at, s);
    if p == [] {
      TokensAtBoundary(text, s, s);
      NothingCompiles();
    } else {
      var e := s + |words[0]|;
      SpellingTail(gaps, words, p);
      FirstSpelled(gaps, words, p);
      WordInFront(text, at, gaps, words, p);
      SpreadFront(gaps[1..], words[1..], p[1..]);
      assert e < |text| ==> text[e] == text[e..][0];
      WordExact(words[0], p[0]);
      CompileFirstWord(text, s, e);
      SpellingCompiles(text, e, gaps[1..], words[1..], p[1..]);
      assert p == [p[0]] + p[1..];
    }
  }

  lemma NothingCompiles()
    ensures Compile([]) == Ok([])
  {
  }

  lemma FirstSpelled(gaps: seq<string>, words: seq<string>, p: Pattern)
    requires Spelling(gaps, words, p) && p != []
    ensures Spells(words[0], p[0]) && words[0] != "" && forall k :: 0 <= k < |words[0]| ==> !IsSpace(words[0][k])
  {
    SpelledWord(words[0], p[0]);
  }

  lemma GapInFront(text: string, at: nat, gaps: seq<string>, words: seq<string>, p: Pattern)
    requires at <= |text| && Spelling(gaps, words, p) && text[at..] == Spread(gaps, words)
    ensures |p| == |words| && |gaps| == |words| + 1
    ensures at + |gaps[0]| <= |text| && forall k :: at <= k < at + |gaps[0]| ==> IsSpace(text[k])
    ensures p == [] ==> at + |gaps[0]| == |text|
  {
    hide IsSpace, Spells;
    SpreadFront(gaps, words, p);
    BlankIsSpace(gaps[0]);
    forall k | at <= k < at + |gaps[0]|
      ensures IsSpace(text[k])
    {
      assert text[k] == text[at..][k - at] == gaps[0][k - at];
    }
  }

  lemma ThreeParts(text: string, at: nat, gap: string, word: string, rest: string)
    requires at <= |text| && text[at..] == gap + word + rest
    ensures var s, e := at + |gap|, at + |gap| + |word|;
            && e <= |text| && text[s..e] == word && text[e..] == rest
            && forall k :: s <= k < e ==> text[k] == word[k - s]
  {
    var s, e := at + |gap|, at + |gap| + |word|;
    assert |text| == at + |gap| + |word| + |rest|;
    assert forall k :: at <= k < |text| ==> text[k] == (gap + word + rest)[k - at];
    assert text[s..e] == word;
    assert text[e..] == rest;
  }

  lemma WordInFront(text: string, at: nat, gaps: seq<string>, words: seq<string>, p: Pattern)
    requires at <= |text| && Spelling(gaps, words, p) && text[at..] == Spread(gaps, words) && p != []
    ensures var s := at + |gaps[0]|;
            && s + |words[0]| <= |text| && text[s..s + |words[0]|] == words[0]
            && text[s + |words[0]|..] == Spread(gaps[1..], words[1..])
            && forall k :: s <= k < s + |words[0]| ==> text[k] == words[0][k - s]
  {
    hide Spells, Blank;
    ThreeParts(text, at, gaps[0], words[0], Spread(gaps[1..], words[1..]));
  }

  /** The other way round: gaps and words of a text that compiles. */
  lemma {:induction false} SpellingFound(text: string, at: nat, p: Pattern)
    returns (gaps: seq<string>, words: seq<string>)
    requires at <= |text| && Compile(Tokens(text, at)) == Ok(p)
    ensures Spelling(gaps, words, p) && text[at..] == Spread(gaps, words)
    ensures at < |text| && IsSpace(text[at]) ==> gaps[0] != ""
    decreases |text| - at
  {
    hide IsSpace, Spells, TokenByte, Blank, Tokens, Compile, SkipSpace, SkipWord;
    var s := SkipSpace(text, at);
    var gap := text[at..s];
    BlankIsSpace(gap);
    SkipGap(text, at, s);
    NoWordsAtEnd(text);
    if s == |text| {
      gaps, words := [gap], [];
    } else {
      var e := SkipWord(text, s);
      var word := text[s..e];
      CompileFirstWord(text, s, e);
      WordExact(word, p[0]);
      PrependedFirst(TokenByte(word).value, Compile(Tokens(text, e)), p);
      var gaps', words' := SpellingFound(text, e, p[1..]);
      gaps, words := [gap] + gaps', [word] + words';
      assert words' != [] ==> e < |text|;
      SpellingGrows(gap, word, p[0], gaps', words', p[1..]);
      assert p == [p[0]] + p[1..];
      assert text[at..] == gap + word + text[e..];
    }
  }

  lemma PrependedFirst(b: PatternByte, rest: Result<Pattern, ParseError>, p: Pattern)
    requires Prepend([b], rest) == Ok(p)
    ensures p != [] && p[0] == b && rest == Ok(p[1..])
  {
  }

  lemma NoWordsAtEnd(text: string)
    ensures Compile(Tokens(text, |text|)) == Ok([])
  {
  }

  lemma SpellingGrows(gap: string, word: string, b: PatternByte, gaps: seq<string>, words: seq<string>, p: Pattern)
    requires Blank(gap) && Spells(word, b) && Spelling(gaps, words, p) && (words != [] ==> gaps[0] != "")
    ensures Spelling([gap] + gaps, [word] + words, [b] + p)
    ensures Spread([gap] + gaps, [word] + words) == gap + word + Spread(gaps, words)
  {
    assert ([gap] + gaps)[1..] == gaps && ([word] + words)[1..] == words;
  }

  // ----- the language -----

  /** A text compiles to a pattern exactly when it spells it: one word per
      pattern byte, in order, with whitespace between and around. */
  lemma ParseExact(text: string, p: Pattern)
    ensures ParseText(text) == Ok(p) <==>
              p != [] && exists gaps, words :: Spelling(gaps, words, p) && text == Spread(gaps, words)
  {
    hide Tokens, Compile, Spells, Blank;
    assert text[0..] == text;
    if ParseText(text) == Ok(p) {
      var gaps, words := SpellingFound(text, 0, p);
    }
    if gaps, words :| Spelling(gaps, words, p) && text == Spread(gaps, words) {
      SpellingCompiles(text, 0, gaps, words, p);
    }
  }

  /** It is empty exactly when it is all whitespace. */
  lemma EmptyExact(text: string)
    ensures ParseText(text) == Err(EmptyPattern) <==> Blank(text)
  {
    hide Compile, IsSpace, Spells, TokenByte;
    if Blank(text) {
      assert Spelling([text], [], []);
      assert text[0..] == text == Spread([text], []);
      SpellingCompiles(text, 0, [text], [], []);
    }
    if ParseText(text) == Err(EmptyPattern) {
      CompileExact(Tokens(text, 0));
      EmptyCompiles(text);
      var gaps, words := SpellingFound(text, 0, []);
      assert text[0..] == text;
    }
  }

  lemma EmptyCompiles(text: string)
    requires ParseText(text) == Err(EmptyPattern)
    ensures Compile(Tokens(text, 0)) == Ok([])
  {
    hide TokenByte, Tokens;
    CompileExact(Tokens(text, 0));
  }

  /** The compiler against the grammar of the documentation: it accepts exactly
      the texts with at least one word, all of whose words are "?", "??" or two
      hexadecimal digits. */
  lemma ParseAcceptsExactlyTheGrammar(text: string)
    ensures ParseText(text).Ok? <==>
              (exists t :: IsWord(text, t)) && (forall t :: IsWord(text, t) ==> GoodWord(t.text))
    ensures ParseText(text) == Err(EmptyPattern) <==> !exists t :: IsWord(text, t)
  {
    hide Compile, Tokens, TokenByte, IsSpace, GoodWord;
    var ts := Tokens(text, 0);
    TokensExact(text, 0);
    CompileExact(ts);
    forall w: string
      ensures TokenByte(w).Some? <==> GoodWord(w)
    {
      GoodWordExact(w);
    }
    if ts != [] {
      assert ts[0] in ts;
    }
  }

  /** Every other rejection names the first word that is none of these. */
  lemma ParseRejectsAtFirstBadWord(text: string, at: nat)
    requires ParseText(text) == Err(BadToken(at))
    ensures exists t :: IsWord(text, t) && t.start == at && !GoodWord(t.text)
    ensures forall u :: IsWord(text, u) && u.start < at ==> GoodWord(u.text)
  {
    hide Compile, Tokens, TokenByte, IsSpace, GoodWord;
    var ts := Tokens(text, 0);
    TokensExact(text, 0);
    CompileExact(ts);
    var k: nat :| FirstBad(ts, k) && Compile(ts).error == BadToken(ts[k].start);
    assert ts[k] in ts;
    GoodWordExact(ts[k].text);
    forall u | IsWord(text, u) && u.start < at
      ensures GoodWord(u.text)
    {
      assert u in ts;
      EarlierTokenIsGood(ts, k, u);
      GoodWordExact(u.text);
    }
  }

  lemma EarlierTokenIsGood(ts: seq<Token>, k: nat, u: Token)
    requires FirstBad(ts, k) && u in ts && u.start < ts[k].start
    requires forall i, j :: 0 <= i < j < |ts| ==> ts[i].start < ts[j].start
    ensures TokenByte(u.text).Some?
  {
    hide TokenByte;
    var i :| 0 <= i < |ts| && ts[i] == u;
    assert i < k;
  }

  lemma QuestionsSpellWildcards(word: string, b: PatternByte)
    requires Spells(word, b) && (word == "?" || word == "??")
    ensures b.wildcard
  {
    QuestionIsNoDigit(b.value / 16);
  }

  lemma WildcardIsFree(buffer: seq<byte>, offset: nat, p: Pattern, i: nat, x: byte)
    requires Matches(buffer, offset, p) && i < |p| && p[i].wildcard
    ensures Matches(buffer[offset + i := x], offset, p)
  {
    var changed := buffer[offset + i := x];
    forall k | 0 <= k < |p|
      ensures p[k].wildcard || changed[offset + k] == p[k].value
    {
      assert k != i ==> changed[offset + k] == buffer[offset + k];
    }
  }

  /** Question marks leave their buffer byte free: whatever it is changed to, a
      match stays a match. */
  lemma QuestionMarksAreFree(text: string, gaps: seq<string>, words: seq<string>, p: Pattern, i: nat,
                             buffer: seq<byte>, offset: nat, x: byte)
    requires ParseText(text) == Ok(p) && Spelling(gaps, words, p) && text == Spread(gaps, words)
    requires i < |words| && (words[i] == "?" || words[i] == "??")
    requires Matches(buffer, offset, p)
    ensures Matches(buffer[offset + i := x], offset, p)
  {
    hide ParseText, Spread, Blank, Spells;
    QuestionsSpellWildcards(words[i], p[i]);
    WildcardIsFree(buffer, offset, p, i, x);
  }
}
