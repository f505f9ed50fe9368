/** JavaScript strings as UTF-16 code units, and what `TextEncoder` makes of them. */
module Unicode {
  import opened Prelude

  predicate IsHigh(c: u16) { 0xD800 <= c < 0xDC00 }
  predicate IsLow(c: u16) { 0xDC00 <= c < 0xE000 }
  predicate IsSurrogate(c: u16) { IsHigh(c) || IsLow(c) }

  predicate StartsWithPair(t: Text) {
    |t| >= 2 && IsHigh(t[0]) && IsLow(t[1])
  }

  /** Code units of the first code point. */
  function HeadLen(t: Text): (n: nat)
    requires t != []
    ensures 1 <= n <= |t|
  {
    if StartsWithPair(t) then 2 else 1
  }

  /** No surrogate stands alone. */
  predicate WellFormed(t: Text) {
    t == [] || ((StartsWithPair(t) || !IsSurrogate(t[0])) && WellFormed(t[HeadLen(t)..]))
  }

  lemma {:induction false} WellFormedConcat(a: Text, b: Text)
    requires WellFormed(a) && WellFormed(b)
    ensures WellFormed(a + b)
  {
    if a == [] {
      assert a + b == b;
    } else {
      WellFormedConcat(a[HeadLen(a)..], b);
      assert (a + b)[HeadLen(a)..] == a[HeadLen(a)..] + b;
    }
  }

  lemma {:induction false} PlainIsWellFormed(t: Text)
    requires forall i :: 0 <= i < |t| ==> !IsSurrogate(t[i])
    ensures WellFormed(t)
  {
    if t != [] {
      PlainIsWellFormed(t[1..]);
    }
  }

  function PairPoint(high: u16, low: u16): (p: nat)
    requires IsHigh(high) && IsLow(low)
    ensures 0x1_0000 <= p < 0x11_0000
  {
    0x1_0000 + (high as int - 0xD800) * 0x400 + (low as int - 0xDC00)
  }

  /** The first code point; a lone surrogate is replaced by U+FFFD. */
  function HeadPoint(t: Text): (p: nat)
    requires t != []
    ensures p < 0x11_0000
  {
    if StartsWithPair(t) then PairPoint(t[0], t[1]) else if IsSurrogate(t[0]) then 0xFFFD else t[0]
  }

  /** The UTF-8 octets of a code point. */
  function Utf8Point(p: nat): (bs: seq<byte>)
    requires p < 0x11_0000
    ensures bs != []
  {
    if p < 0x80 then [p]
    else if p < 0x800 then [0xC0 + p / 64, 0x80 + p % 64]
    else if p < 0x1_0000 then [0xE0 + p / 64 / 64, 0x80 + p / 64 % 64, 0x80 + p % 64]
    else [0xF0 + p / 64 / 64 / 64, 0x80 + p / 64 / 64 % 64, 0x80 + p / 64 % 64, 0x80 + p % 64]
  }

  /** `new TextEncoder().encode` */
  function Utf8(t: Text): seq<byte> {
    if t == [] then [] else Utf8Point(HeadPoint(t)) + Utf8(t[HeadLen(t)..])
  }

  predicate IsTail(b: byte) { 0x80 <= b < 0xC0 }

  /** Section 4 of RFC 3629: the first code point and the octets behind it; no overlong forms, no surrogates. */
  function ReadPoint(bs: seq<byte>): (r: Option<(nat, seq<byte>)>)
    ensures r.Some? ==> |r.value.1| < |bs| && r.value.0 < 0x11_0000
  {
    if bs == [] then None
    else if bs[0] < 0x80 then Some((bs[0], bs[1..]))
    else if 0xC2 <= bs[0] < 0xE0 && |bs| >= 2 && IsTail(bs[1]) then
      Some(((bs[0] as int - 0xC0) * 64 + (bs[1] as int - 0x80), bs[2..]))
    else if 0xE0 <= bs[0] < 0xF0 && |bs| >= 3 && IsTail(bs[1]) && IsTail(bs[2])
            && (bs[0] == 0xE0 ==> bs[1] >= 0xA0) && (bs[0] == 0xED ==> bs[1] < 0xA0) then
      Some((((bs[0] as int - 0xE0) * 64 + (bs[1] as int - 0x80)) * 64 + (bs[2] as int - 0x80), bs[3..]))
    else if 0xF0 <= bs[0] < 0xF5 && |bs| >= 4 && IsTail(bs[1]) && IsTail(bs[2]) && IsTail(bs[3])
            && (bs[0] == 0xF0 ==> bs[1] >= 0x90) && (bs[0] == 0xF4 ==> bs[1] < 0x90) then
      var high := ((bs[0] as int - 0xF0) * 64 + (bs[1] as int - 0x80)) * 64 + (bs[2] as int - 0x80);
      Some((high * 64 + (bs[3] as int - 0x80), bs[4..]))
    else None
  }

  /** Section 2.1 of RFC 2781: a code point in UTF-16. */
  function Utf16Point(p: nat): Text
    requires p < 0x11_0000
  {
    if p < 0x1_0000 then [p] else [0xD800 + (p - 0x1_0000) / 0x400, 0xDC00 + (p - 0x1_0000) % 0x400]
  }

  function ReadUtf8(bs: seq<byte>): Option<Text>
    decreases |bs|
  {
    if bs == [] then Some([])
    else
      match ReadPoint(bs)
      case None => None
      case Some((p, rest)) =>
        match ReadUtf8(rest)
        case None => None
        case Some(t) => Some(Utf16Point(p) + t)
  }

  /** A surrogate that is not part of a pair. */
  predicate IsLone(t: Text, i: nat)
    requires i < |t|
  {
    || (0xD800 <= t[i] < 0xDC00 && !(i + 1 < |t| && 0xDC00 <= t[i + 1] < 0xE000))
    || (0xDC00 <= t[i] < 0xE000 && !(i > 0 && 0xD800 <= t[i - 1] < 0xDC00))
  }

  /** The text with U+FFFD for every lone surrogate. */
  function Repaired(t: Text): (r: Text)
    ensures |r| == |t|
  {
    seq(|t|, i requires 0 <= i < |t| => if IsLone(t, i) then 0xFFFD else t[i])
  }

  lemma PointReads(p: nat, r: seq<byte>)
    requires p < 0xD800 || 0xE000 <= p < 0x11_0000
    ensures ReadPoint(Utf8Point(p) + r) == Some((p, r))
  {
    var bs := Utf8Point(p) + r;
    assert p == p / 64 * 64 + p % 64;
    assert p / 64 == p / 64 / 64 * 64 + p / 64 % 64;
    assert p / 64 / 64 == p / 64 / 64 / 64 * 64 + p / 64 / 64 % 64;
    assert bs[|Utf8Point(p)|..] == r;
  }

  lemma HeadPointReads(t: Text)
    requires t != []
    ensures HeadPoint(t) < 0xD800 || 0xE000 <= HeadPoint(t)
    ensures Utf16Point(HeadPoint(t)) == Repaired(t)[..HeadLen(t)]
  {
    if StartsWithPair(t) {
      var h, l := t[0] as int - 0xD800, t[1] as int - 0xDC00;
      assert HeadPoint(t) - 0x1_0000 == h * 0x400 + l;
      assert Repaired(t)[..2] == [t[0], t[1]];
    }
  }

  lemma RepairedRest(t: Text)
    requires t != []
    ensures Repaired(t)[HeadLen(t)..] == Repaired(t[HeadLen(t)..])
  {
  }

  /** A reader of UTF-8 gets the text back, lone surrogates being replaced by U+FFFD. */
  lemma {:induction false} Utf8Reads(t: Text)
    ensures ReadUtf8(Utf8(t)) == Some(Repaired(t))
  {
    if t != [] {
      var p, n := HeadPoint(t), HeadLen(t);
      HeadPointReads(t);
      PointReads(p, Utf8(t[n..]));
      Utf8Reads(t[n..]);
      RepairedRest(t);
      hide ReadPoint, Utf8Point, HeadPoint, Repaired;
      assert Repaired(t) == Repaired(t)[..n] + Repaired(t)[n..];
    }
  }

  /** Well-formed text has nothing to repair. */
  lemma {:induction false} WellFormedIff(t: Text)
    ensures WellFormed(t) <==> forall i :: 0 <= i < |t| ==> !IsLone(t, i)
    ensures WellFormed(t) ==> Repaired(t) == t
  {
    if t != [] {
      var n := HeadLen(t);
      WellFormedIff(t[n..]);
      assert IsLone(t, 0) <==> !StartsWithPair(t) && IsSurrogate(t[0]);
      assert n == 2 ==> !IsLone(t, 1);
      assert forall i :: 0 <= i < |t| - n ==> (IsLone(t[n..], i) <==> IsLone(t, n + i));
      assert forall i :: n <= i < |t| ==> (IsLone(t, i) <==> IsLone(t[n..], i - n));
    }
  }

  /** On well-formed text the encoding loses nothing. */
  lemma Utf8Injective(a: Text, b: Text)
    requires WellFormed(a) && WellFormed(b) && Utf8(a) == Utf8(b)
    ensures a == b
  {
    Utf8Reads(a);
    Utf8Reads(b);
    WellFormedIff(a);
    WellFormedIff(b);
  }

  /** On ill-formed text it does: two different lone surrogates encode alike. */
  lemma Utf8NotInjective()
    ensures Utf8([0xD800]) == Utf8([0xDFFF])
  {
    assert Utf8([0xD800][1..]) == [] == Utf8([0xDFFF][1..]);
  }
}
