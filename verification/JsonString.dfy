/** `JSON.stringify` on a string: section 7 of RFC 8259, with lone surrogates escaped. */
module JsonString {
  import opened Prelude
  import opened Unicode
  import opened JsonText

  const QUOTE: u16 := 34
  const BACKSLASH: u16 := 92
  const LETTER_U: u16 := 117

  function HexDigit(d: nat): (c: u16)
    requires d < 16
    ensures !IsSurrogate(c)
  {
    if d < 10 then 48 + d else 87 + d
  }

  function UnicodeEscape(c: u16): (e: Text)
    ensures |e| == 6 && e[0] == BACKSLASH && e[1] == LETTER_U
  {
    [BACKSLASH, LETTER_U, HexDigit(c / 16 / 16 / 16), HexDigit(c / 16 / 16 % 16), HexDigit(c / 16 % 16),
        HexDigit(c % 16)]
  }

  /** The letter of a two-character escape, for the seven characters that have one. */
  function ShortEscape(c: u16): Option<u16> {
    if c == 8 then Some(98) else if c == 9 then Some(116) else if c == 10 then Some(110)
    else if c == 12 then Some(102) else if c == 13 then Some(114)
    else if c == QUOTE || c == BACKSLASH then Some(c) else None
  }

  /** What the first code point of the string becomes. */
  function Chunk(s: Text): (e: Text)
    requires s != []
    ensures e != [] && e[0] != QUOTE
  {
    match ShortEscape(s[0])
    case Some(letter) => [BACKSLASH, letter]
    case None =>
      if StartsWithPair(s) then s[..2]
      else if s[0] < 32 || IsSurrogate(s[0]) then UnicodeEscape(s[0])
      else [s[0]]
  }

  function Escape(s: Text): Text {
    if s == [] then [] else Chunk(s) + Escape(s[HeadLen(s)..])
  }

  function Quote(s: Text): Text {
    [QUOTE] + Escape(s) + [QUOTE]
  }

  lemma EscapeUnfold(s: Text, r: Text)
    ensures s == [] ==> Escape(s) + [QUOTE] + r == [QUOTE] + r
    ensures s != [] ==> Escape(s) + [QUOTE] + r == Chunk(s) + (Escape(s[HeadLen(s)..]) + [QUOTE] + r)
  {
  }

  lemma HexDigitReads(d: nat)
    requires d < 16
    ensures HexValue(HexDigit(d)) == Some(d)
  {
  }

  lemma UnicodeEscapeReads(c: u16, r: Text)
    ensures ReadEscape(UnicodeEscape(c)[1..] + r) == Some((c, r))
  {
    var e := UnicodeEscape(c)[1..] + r;
    HexDigitReads(c / 16 / 16 / 16);
    HexDigitReads(c / 16 / 16 % 16);
    HexDigitReads(c / 16 % 16);
    HexDigitReads(c % 16);
    hide HexDigit, HexValue;
    assert e[1] == HexDigit(c / 16 / 16 / 16) && e[2] == HexDigit(c / 16 / 16 % 16);
    assert e[3] == HexDigit(c / 16 % 16) && e[4] == HexDigit(c % 16) && e[5..] == r;
  }

  lemma PlainReads(c: u16, r: Text)
    requires c >= 32 && c != QUOTE && c != BACKSLASH && ReadString(r).Some?
    ensures ReadString([c] + r) == Some(([c] + ReadString(r).value.0, ReadString(r).value.1))
  {
    assert ([c] + r)[1..] == r;
  }

  lemma EscapedReads(e: Text, c: u16, r: Text)
    requires e != [] && e[0] == BACKSLASH && ReadEscape(e[1..] + r) == Some((c, r)) && ReadString(r).Some?
    ensures ReadString(e + r) == Some(([c] + ReadString(r).value.0, ReadString(r).value.1))
  {
    hide ReadEscape;
    assert (e + r)[1..] == e[1..] + r;
  }

  lemma ShortReads(c: u16, r: Text)
    ensures ShortEscape(c).Some? ==> ReadEscape([ShortEscape(c).value] + r) == Some((c, r))
  {
    if ShortEscape(c).Some? {
      assert ([ShortEscape(c).value] + r)[1..] == r;
    }
  }

  /** A reader takes a chunk for the code units it was made of. */
  lemma ChunkReads(s: Text, r: Text)
    requires s != [] && ReadString(r).Some?
    ensures ReadString(Chunk(s) + r) == Some((s[..HeadLen(s)] + ReadString(r).value.0, ReadString(r).value.1))
  {
    var c := Chunk(s);
    ShortReads(s[0], r);
    UnicodeEscapeReads(s[0], r);
    hide ReadString, ReadEscape, UnicodeEscape;
    if ShortEscape(s[0]).Some? {
      assert c[1..] == [ShortEscape(s[0]).value] && s[..1] == [s[0]];
      EscapedReads(c, s[0], r);
    } else if StartsWithPair(s) {
      assert c == [s[0]] + [s[1]] && c + r == [s[0]] + ([s[1]] + r);
      PlainReads(s[1], r);
      PlainReads(s[0], [s[1]] + r);
      ConcatAssociative([s[0]], [s[1]], ReadString(r).value.0);
    } else if s[0] < 32 || IsSurrogate(s[0]) {
      assert s[..1] == [s[0]];
      EscapedReads(c, s[0], r);
    } else {
      assert s[..1] == [s[0]];
      PlainReads(s[0], r);
    }
  }

  /** A printed string, whatever follows it, reads back as the string. */
  lemma {:induction false} EscapeReads(s: Text, r: Text)
    ensures ReadString(Escape(s) + [QUOTE] + r) == Some((s, r))
  {
    hide Chunk, Escape;
    EscapeUnfold(s, r);
    if s == [] {
      assert ([QUOTE] + r)[1..] == r;
    } else {
      EscapeReads(s[HeadLen(s)..], r);
      ChunkReads(s, Escape(s[HeadLen(s)..]) + [QUOTE] + r);
      assert s == s[..HeadLen(s)] + s[HeadLen(s)..];
    }
  }

  /** After its quotation mark, by the reader of RFC 8259, `JSON.stringify(s)` is the string `s` and nothing more. */
  lemma QuoteReads(s: Text, r: Text)
    ensures (Quote(s) + r)[0] == QUOTE && ReadString((Quote(s) + r)[1..]) == Some((s, r))
  {
    hide Escape;
    assert (Quote(s) + r)[1..] == Escape(s) + [QUOTE] + r;
    EscapeReads(s, r);
  }

  /** A quoted string can be cut off in one way only. */
  lemma QuotePrefix(a: Text, b: Text, r: Text, s: Text)
    requires Quote(a) + r == Quote(b) + s
    ensures a == b && r == s
  {
    QuoteReads(a, r);
    QuoteReads(b, s);
  }

  const HEX_DIGITS := "0123456789abcdef"

  /** The short form where there is one, a `\u` escape for other controls and lone surrogates, else the unit itself. */
  function Spelling(c: u16): Text {
    if c == 8 then Ascii("\\b") else if c == 9 then Ascii("\\t") else if c == 10 then Ascii("\\n")
    else if c == 12 then Ascii("\\f") else if c == 13 then Ascii("\\r")
    else if c == 34 then Ascii("\\\"") else if c == 92 then Ascii("\\\\")
    else if c < 32 || 0xD800 <= c < 0xE000 then
      Ascii("\\u" + [HEX_DIGITS[c / 16 / 16 / 16], HEX_DIGITS[c / 16 / 16 % 16], HEX_DIGITS[c / 16 % 16],
                     HEX_DIGITS[c % 16]])
    else [c]
  }

  lemma HexDigitIs(d: nat)
    requires d < 16
    ensures HexDigit(d) == HEX_DIGITS[d] as int
  {
  }

  lemma SpellingOfEscape(c: u16)
    ensures UnicodeEscape(c) == Ascii("\\u" + [HEX_DIGITS[c / 16 / 16 / 16], HEX_DIGITS[c / 16 / 16 % 16],
                                               HEX_DIGITS[c / 16 % 16], HEX_DIGITS[c % 16]])
  {
    HexDigitIs(c / 16 / 16 / 16);
    HexDigitIs(c / 16 / 16 % 16);
    HexDigitIs(c / 16 % 16);
    HexDigitIs(c % 16);
    hide HexDigit;
  }

  lemma SpellingOfShort(c: u16)
    ensures ShortEscape(c).Some? ==> Spelling(c) == [BACKSLASH, ShortEscape(c).value]
  {
  }

  lemma SpellingOfOther(c: u16)
    ensures ShortEscape(c).None? ==> Spelling(c) == if c < 32 || IsSurrogate(c) then UnicodeEscape(c) else [c]
  {
    SpellingOfEscape(c);
    hide UnicodeEscape;
  }

  function Spelled(s: Text): Text {
    if s == [] then []
    else if |s| > 1 && 0xD800 <= s[0] < 0xDC00 <= s[1] < 0xE000 then s[..2] + Spelled(s[2..])
    else Spelling(s[0]) + Spelled(s[1..])
  }

  /** Of the possible spellings of a string, this one is printed. */
  lemma SpellingOfText(s: Text)
    ensures Quote(s) == Ascii("\"") + Spelled(s) + Ascii("\"")
  {
    EscapeSpells(s);
    hide Escape, Spelled;
    assert Ascii("\"") == [QUOTE];
  }

  lemma {:induction false} EscapeSpells(s: Text)
    ensures Escape(s) == Spelled(s)
  {
    if s != [] {
      SpellingOfShort(s[0]);
      SpellingOfOther(s[0]);
      hide UnicodeEscape, Spelling;
      assert Chunk(s) == if StartsWithPair(s) then s[..2] else Spelling(s[0]);
      EscapeSpells(s[HeadLen(s)..]);
    }
  }

  lemma ChunkWellFormed(s: Text)
    requires s != []
    ensures WellFormed(Chunk(s))
  {
    if StartsWithPair(s) && ShortEscape(s[0]) == None {
      assert Chunk(s)[2..] == [];
    } else {
      PlainIsWellFormed(Chunk(s));
    }
  }

  /** Whatever the string, its quoted form has no lone surrogate. */
  lemma {:induction false} EscapeWellFormed(s: Text)
    ensures WellFormed(Escape(s))
  {
    if s != [] {
      ChunkWellFormed(s);
      EscapeWellFormed(s[HeadLen(s)..]);
      WellFormedConcat(Chunk(s), Escape(s[HeadLen(s)..]));
    }
  }

  lemma QuoteWellFormed(s: Text)
    ensures WellFormed(Quote(s))
  {
    EscapeWellFormed(s);
    PlainIsWellFormed([QUOTE]);
    WellFormedConcat([QUOTE], Escape(s));
    WellFormedConcat([QUOTE] + Escape(s), [QUOTE]);
  }
}
