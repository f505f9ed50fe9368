/** The base64url codec of `core-domain`, over the platform's `btoa` and `atob`. */
module Base64Url {
  import opened Prelude

  datatype Error = InvalidBase64

  /** A 6-bit group. */
  type sextet = n: int | 0 <= n < 64

  const PAD: u16 := 61
  const PLUS: u16 := 43
  const SLASH: u16 := 47
  const MINUS: u16 := 45
  const UNDERSCORE: u16 := 95

  /** The alphabet of RFC 4648, section 4. */
  function StdChar(d: sextet): u16 {
    if d < 26 then 65 + d else if d < 52 then 71 + d else if d < 62 then d - 4
    else if d == 62 then PLUS else SLASH
  }

  function StdIndex(c: u16): (r: int)
    ensures -1 <= r < 64
    ensures r != -1 ==> StdChar(r) == c
  {
    if 65 <= c <= 90 then c - 65 else if 97 <= c <= 122 then c - 71 else if 48 <= c <= 57 then c + 4
    else if c == PLUS then 62 else if c == SLASH then 63 else -1
  }

  function ToUrlChar(c: u16): u16 {
    if c == PLUS then MINUS else if c == SLASH then UNDERSCORE else c
  }

  function FromUrlChar(c: u16): u16 {
    if c == MINUS then PLUS else if c == UNDERSCORE then SLASH else c
  }

  /** The alphabet of RFC 4648, section 5. */
  function UrlChar(d: sextet): u16 {
    ToUrlChar(StdChar(d))
  }

  // The four 6-bit groups of three octets, and the three octets of four groups.
  function S0(a: byte): sextet { a / 4 }
  function S1(a: byte, b: byte): sextet { a % 4 * 16 + b / 16 }
  function S2(b: byte, c: byte): sextet { b % 16 * 4 + c / 64 }
  function S3(c: byte): sextet { c % 64 }
  function O0(s: sextet, t: sextet): byte { (s as int) * 4 + t / 16 }
  function O1(t: sextet, u: sextet): byte { (t as int) % 16 * 16 + u / 4 }
  function O2(u: sextet, v: sextet): byte { (u as int) % 4 * 64 + v }

  lemma OctetsOfGroup(a: byte, b: byte, c: byte)
    ensures O0(S0(a), S1(a, b)) == a && O1(S1(a, b), S2(b, c)) == b && O2(S2(b, c), S3(c)) == c
    ensures S1(a, 0) % 16 == 0 && S2(b, 0) % 4 == 0
  {
  }

  lemma GroupOfOctets(s: sextet, t: sextet, u: sextet, v: sextet)
    ensures S0(O0(s, t)) == s && S1(O0(s, t), O1(t, u)) == t
    ensures S2(O1(t, u), O2(u, v)) == u && S3(O2(u, v)) == v
    ensures t % 16 == 0 ==> S1(O0(s, t), 0) == t
    ensures u % 4 == 0 ==> S2(O1(t, u), 0) == u
  {
  }

  /** Three octets make four 6-bit groups; a short last group is filled with zero bits. */
  function Sextets(bs: seq<byte>): (ss: seq<sextet>)
    ensures |ss| == |bs| / 3 * 4 + (if |bs| % 3 == 0 then 0 else |bs| % 3 + 1)
  {
    if |bs| == 0 then []
    else if |bs| == 1 then [S0(bs[0]), S1(bs[0], 0)]
    else if |bs| == 2 then [S0(bs[0]), S1(bs[0], bs[1]), S2(bs[1], 0)]
    else [S0(bs[0]), S1(bs[0], bs[1]), S2(bs[1], bs[2]), S3(bs[2])] + Sextets(bs[3..])
  }

  /** The bits of the groups read back as octets; leftover bits are dropped. */
  function Octets(ss: seq<sextet>): seq<byte>
    requires |ss| % 4 != 1
  {
    if |ss| == 0 then []
    else if |ss| == 2 then [O0(ss[0], ss[1])]
    else if |ss| == 3 then [O0(ss[0], ss[1]), O1(ss[1], ss[2])]
    else [O0(ss[0], ss[1]), O1(ss[1], ss[2]), O2(ss[2], ss[3])] + Octets(ss[4..])
  }

  /** A possible number of groups, with zero bits where the last one is not filled. */
  predicate NoLeftoverBits(ss: seq<sextet>)
    ensures NoLeftoverBits(ss) ==> |ss| % 4 != 1
  {
    if |ss| < 4 then |ss| == 0 || (|ss| == 2 && ss[1] % 16 == 0) || (|ss| == 3 && ss[2] % 4 == 0)
    else NoLeftoverBits(ss[4..])
  }

  lemma {:induction false} OctetsOfSextets(bs: seq<byte>)
    ensures |Sextets(bs)| % 4 != 1 && Octets(Sextets(bs)) == bs
  {
    hide S0, S1, S2, S3, O0, O1, O2;
    if |bs| == 1 {
      OctetsOfGroup(bs[0], 0, 0);
    } else if |bs| == 2 {
      OctetsOfGroup(bs[0], bs[1], 0);
    } else if |bs| >= 3 {
      OctetsOfGroup(bs[0], bs[1], bs[2]);
      OctetsOfSextets(bs[3..]);
      assert Sextets(bs)[4..] == Sextets(bs[3..]);
    }
  }

  lemma {:induction false} SextetsLeaveNoBits(bs: seq<byte>)
    ensures NoLeftoverBits(Sextets(bs))
  {
    hide S0, S1, S2, S3;
    if |bs| == 1 {
      OctetsOfGroup(bs[0], 0, 0);
    } else if |bs| == 2 {
      OctetsOfGroup(bs[0], bs[1], 0);
    } else if |bs| > 3 {
      SextetsLeaveNoBits(bs[3..]);
      assert Sextets(bs)[4..] == Sextets(bs[3..]);
    }
  }

  lemma {:induction false} SextetsOfOctets(ss: seq<sextet>)
    requires NoLeftoverBits(ss)
    ensures Sextets(Octets(ss)) == ss
  {
    hide S0, S1, S2, S3, O0, O1, O2;
    if |ss| == 2 {
      GroupOfOctets(ss[0], ss[1], 0, 0);
    } else if |ss| == 3 {
      GroupOfOctets(ss[0], ss[1], ss[2], 0);
    } else if |ss| >= 4 {
      GroupOfOctets(ss[0], ss[1], ss[2], ss[3]);
      SextetsOfOctets(ss[4..]);
      assert Octets(ss)[3..] == Octets(ss[4..]);
    }
  }

  /** Tables 1 and 2 of RFC 4648. */
  lemma AlphabetIsLiteral(d: sextet)
    ensures d < 26 ==> StdChar(d) == UrlChar(d) == 'A' as int + d
    ensures 26 <= d < 52 ==> StdChar(d) == UrlChar(d) == 'a' as int + (d - 26)
    ensures 52 <= d < 62 ==> StdChar(d) == UrlChar(d) == '0' as int + (d - 52)
    ensures StdChar(62) == '+' as int && UrlChar(62) == '-' as int
    ensures StdChar(63) == '/' as int && UrlChar(63) == '_' as int
  {
  }

  lemma GroupNumber(a: byte, b: byte, c: byte)
    ensures a as int * 65536 + b as int * 256 + c
            == ((S0(a) as int * 64 + S1(a, b)) * 64 + S2(b, c)) * 64 + S3(c)
    ensures a as int * 16 == S0(a) as int * 64 + S1(a, 0)
    ensures (a as int * 256 + b) * 4 == (S0(a) as int * 64 + S1(a, b)) * 64 + S2(b, 0)
  {
  }

  /** Group `i` of the octets and of the 6-bit groups are the same number, a short group being filled with zero bits. */
  ghost predicate SameBits(bs: seq<byte>, ss: seq<sextet>, i: nat) {
    var b, s, n := 3 * i, 4 * i, |bs| - 3 * i;
    && (n >= 3 ==> s + 3 < |ss| && bs[b] as int * 65536 + bs[b + 1] as int * 256 + bs[b + 2]
                                   == ((ss[s] as int * 64 + ss[s + 1]) * 64 + ss[s + 2]) * 64 + ss[s + 3])
    && (n == 2 ==> |ss| == s + 3 && (bs[b] as int * 256 + bs[b + 1]) * 4
                                    == (ss[s] as int * 64 + ss[s + 1]) * 64 + ss[s + 2])
    && (n == 1 ==> |ss| == s + 2 && bs[b] as int * 16 == ss[s] as int * 64 + ss[s + 1])
  }

  lemma FirstBits(bs: seq<byte>)
    ensures SameBits(bs, Sextets(bs), 0)
  {
    hide S0, S1, S2, S3;
    GroupNumber(if |bs| > 0 then bs[0] else 0, if |bs| > 1 then bs[1] else 0, if |bs| > 2 then bs[2] else 0);
  }

  lemma LaterBits(bs: seq<byte>, ss: seq<sextet>, i: nat)
    requires |bs| >= 3 && |ss| >= 4 && SameBits(bs[3..], ss[4..], i)
    ensures SameBits(bs, ss, i + 1)
  {
  }

  /** The groups hold the bits of the octets, three octets making one 24-bit number. */
  lemma {:induction false} SextetsMean(bs: seq<byte>, i: nat)
    ensures SameBits(bs, Sextets(bs), i)
  {
    hide SameBits;
    if i == 0 {
      FirstBits(bs);
    } else if |bs| >= 3 {
      SextetsMean(bs[3..], i - 1);
      assert Sextets(bs)[4..] == Sextets(bs[3..]);
      LaterBits(bs, Sextets(bs), i - 1);
    } else {
      NoSuchBits(bs, i);
    }
  }

  lemma NoSuchBits(bs: seq<byte>, i: nat)
    requires |bs| < 3 && i > 0
    ensures SameBits(bs, Sextets(bs), i)
  {
  }

  function StdText(ss: seq<sextet>): (t: Text)
    ensures |t| == |ss| && forall i :: 0 <= i < |ss| ==> t[i] == StdChar(ss[i])
  {
    seq(|ss|, i requires 0 <= i < |ss| => StdChar(ss[i]))
  }

  function Padding(n: nat): (t: Text)
    ensures |t| == n && forall i :: 0 <= i < n ==> t[i] == PAD
  {
    seq(n, _ => PAD)
  }

  /** `btoa` on a binary string. */
  function Btoa(raw: seq<byte>): Text {
    StdText(Sextets(raw)) + Padding((3 - |raw| % 3) % 3)
  }

  predicate IsSpace(c: u16) {
    c == 9 || c == 10 || c == 12 || c == 13 || c == 32
  }

  function WithoutSpace(t: Text): Text {
    if t == [] then [] else (if IsSpace(t[0]) then [] else [t[0]]) + WithoutSpace(t[1..])
  }

  /** `atob` removes at most two trailing `=`, and only when the length is a multiple of four. */
  function WithoutPadding(t: Text): Text {
    if |t| % 4 != 0 || t == [] || t[|t| - 1] != PAD then t
    else if t[|t| - 2] != PAD then t[..|t| - 1]
    else t[..|t| - 2]
  }

  predicate InStdAlphabet(t: Text) {
    forall i :: 0 <= i < |t| ==> StdIndex(t[i]) != -1
  }

  function StdIndices(t: Text): (ss: seq<sextet>)
    requires InStdAlphabet(t)
    ensures |ss| == |t| && forall i :: 0 <= i < |t| ==> ss[i] == StdIndex(t[i])
  {
    seq(|t|, i requires 0 <= i < |t| => StdIndex(t[i]))
  }

  /** `atob`: the forgiving decoder of the platform. */
  function Atob(t: Text): Result<seq<byte>, Error> {
    var u := WithoutPadding(WithoutSpace(t));
    if |u| % 4 == 1 || !InStdAlphabet(u) then Err(InvalidBase64) else Ok(Octets(StdIndices(u)))
  }

  function MapChars(f: u16 -> u16, t: Text): (r: Text)
    ensures |r| == |t| && forall i :: 0 <= i < |t| ==> r[i] == f(t[i])
  {
    seq(|t|, i requires 0 <= i < |t| => f(t[i]))
  }

  /** `replace(/=+$/g, "")` */
  function WithoutTrailingPads(t: Text): Text {
    if t != [] && t[|t| - 1] == PAD then WithoutTrailingPads(t[..|t| - 1]) else t
  }

  /** The unpadded base64url text of some octets. */
  function UrlEncoded(bytes: seq<byte>): (t: Text)
    ensures |t| == |Sextets(bytes)| && forall i :: 0 <= i < |t| ==> t[i] == UrlChar(Sextets(bytes)[i])
  {
    var ss := Sextets(bytes);
    seq(|ss|, i requires 0 <= i < |ss| => UrlChar(ss[i]))
  }

  /** What `fromBase64Url` returns or throws. */
  function UrlDecoded(value: Text): Result<seq<byte>, Error> {
    Atob(MapChars(FromUrlChar, value) + Padding((4 - |value| % 4) % 4))
  }

  /** Unpadded text over the URL alphabet, of a possible length, without stray bits in its last character. */
  predicate Canonical(x: Text) {
    && (forall i :: 0 <= i < |x| ==> x[i] != PLUS && x[i] != SLASH)
    && InStdAlphabet(MapChars(FromUrlChar, x))
    && NoLeftoverBits(StdIndices(MapChars(FromUrlChar, x)))
  }

  lemma {:induction false} NoSpaceToRemove(t: Text)
    requires forall i :: 0 <= i < |t| ==> !IsSpace(t[i])
    ensures WithoutSpace(t) == t
  {
    if t != [] {
      NoSpaceToRemove(t[1..]);
    }
  }

  lemma StdCharsAreText(t: Text)
    requires InStdAlphabet(t)
    ensures forall i :: 0 <= i < |t| ==> !IsSpace(t[i]) && t[i] != PAD
  {
    forall i | 0 <= i < |t| ensures !IsSpace(t[i]) && t[i] != PAD {
      assert StdIndex(t[i]) != -1;
    }
  }

  lemma PaddingRemoved(t: Text)
    requires (forall i :: 0 <= i < |t| ==> t[i] != PAD) && |t| % 4 != 1
    ensures WithoutPadding(t + Padding((4 - |t| % 4) % 4)) == t
  {
  }

  /** The padding added before `atob` is exactly the padding `atob` removes. */
  lemma {:induction false} PaddingCancels(t: Text)
    requires InStdAlphabet(t) && |t| % 4 != 1
    ensures Atob(t + Padding((4 - |t| % 4) % 4)) == Ok(Octets(StdIndices(t)))
  {
    hide StdIndex, WithoutSpace, Octets;
    var pads := (4 - |t| % 4) % 4;
    var u := t + Padding(pads);
    StdCharsAreText(t);
    NoSpaceToRemove(u);
    PaddingRemoved(t);
  }

  lemma {:induction false} WithoutSpaceConcat(a: Text, b: Text)
    ensures WithoutSpace(a + b) == WithoutSpace(a) + WithoutSpace(b)
  {
    hide IsSpace;
    if a == [] {
      assert a + b == b;
    } else {
      WithoutSpaceConcat(a[1..], b);
      assert (a + b)[1..] == a[1..] + b;
      ConcatAssociative(if IsSpace(a[0]) then [] else [a[0]], WithoutSpace(a[1..]), WithoutSpace(b));
    }
  }

  /** The platform decoder skips white space anywhere. */
  lemma SpaceIsSkipped(a: Text, c: u16, b: Text)
    requires c in {9, 10, 12, 13, 32}
    ensures Atob(a + [c] + b) == Atob(a + b)
  {
    hide WithoutPadding, InStdAlphabet, Octets, StdIndices;
    WithoutSpaceConcat(a, [c]);
    WithoutSpaceConcat(a + [c], b);
    WithoutSpaceConcat(a, b);
    assert WithoutSpace([c]) == WithoutSpace([]) == [];
    assert WithoutSpace(a) + [] == WithoutSpace(a);
  }

  lemma DecodesCanonical(x: Text)
    requires Canonical(x)
    ensures UrlDecoded(x).Ok? && UrlEncoded(UrlDecoded(x).value) == x
  {
    hide Octets, Sextets, Atob, StdIndex;
    var t := MapChars(FromUrlChar, x);
    var ss := StdIndices(t);
    PaddingCancels(t);
    SextetsOfOctets(ss);
    forall i | 0 <= i < |x| ensures UrlChar(ss[i]) == x[i] {
      assert StdChar(ss[i]) == t[i];
    }
  }

  lemma UrlCharIndex(d: sextet)
    ensures StdIndex(FromUrlChar(UrlChar(d))) == d
    ensures UrlChar(d) != PLUS && UrlChar(d) != SLASH && UrlChar(d) != PAD
  {
  }

  lemma EncodesCanonical(bytes: seq<byte>)
    ensures Canonical(UrlEncoded(bytes)) && UrlDecoded(UrlEncoded(bytes)) == Ok(bytes)
  {
    hide Octets, Sextets, Atob, StdIndex, UrlChar, FromUrlChar;
    var ss := Sextets(bytes);
    var x := UrlEncoded(bytes);
    var t := MapChars(FromUrlChar, x);
    OctetsOfSextets(bytes);
    SextetsLeaveNoBits(bytes);
    forall i | 0 <= i < |x| ensures StdIndex(t[i]) == ss[i] && x[i] != PLUS && x[i] != SLASH {
      UrlCharIndex(ss[i]);
    }
    assert StdIndices(t) == ss;
    PaddingCancels(t);
  }

  /** Decoding then encoding is the identity on canonical text and on nothing else. */
  lemma UrlRoundTrip(x: Text)
    ensures UrlDecoded(x).Ok? && UrlEncoded(UrlDecoded(x).value) == x <==> Canonical(x)
  {
    if Canonical(x) {
      DecodesCanonical(x);
    } else if UrlDecoded(x).Ok? {
      EncodesCanonical(UrlDecoded(x).value);
    }
  }

  lemma {:induction false} TrailingPads(t: Text, n: nat)
    requires t == [] || t[|t| - 1] != PAD
    ensures WithoutTrailingPads(t + Padding(n)) == t
  {
    var u := t + Padding(n);
    if n == 0 {
      assert u == t;
    } else {
      assert u[..|u| - 1] == t + Padding(n - 1);
      TrailingPads(t, n - 1);
    }
  }

  lemma BtoaUrl(bytes: seq<byte>)
    ensures WithoutTrailingPads(MapChars(ToUrlChar, Btoa(bytes))) == UrlEncoded(bytes)
  {
    hide Sextets, WithoutTrailingPads, StdChar;
    var n := (3 - |bytes| % 3) % 3;
    var x := UrlEncoded(bytes);
    if x != [] {
      UrlCharIndex(Sextets(bytes)[|x| - 1]);
    }
    TrailingPads(x, n);
    assert MapChars(ToUrlChar, Btoa(bytes)) == x + Padding(n);
  }

  method ToBase64Url(bytes: seq<byte>) returns (encoded: Text)
    ensures encoded == UrlEncoded(bytes)
  {
    hide *;
    var raw: seq<byte> := [];
    for i := 0 to |bytes|
      invariant raw == bytes[..i]
    {
      raw := raw + [bytes[i]];
    }
    assert raw == bytes;
    BtoaUrl(bytes);
    encoded := WithoutTrailingPads(MapChars(ToUrlChar, Btoa(raw)));
  }

  method FromBase64Url(value: Text) returns (r: Result<seq<byte>, Error>)
    ensures r == UrlDecoded(value)
  {
    hide Atob;
    var base64 := MapChars(FromUrlChar, value);
    var padLength := (4 - |base64| % 4) % 4;
    var raw := Atob(base64 + Padding(padLength));
    if raw.Err? {
      return Err(raw.error);
    }
    var bytes := new byte[|raw.value|](_ => 0);
    for index := 0 to |raw.value|
      invariant bytes[..index] == raw.value[..index]
    {
      bytes[index] := raw.value[index];
    }
    assert bytes[..] == raw.value;
    r := Ok(bytes[..]);
  }
}
