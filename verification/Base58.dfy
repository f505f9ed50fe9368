/** Positional numbers: the arithmetic behind base58, independent of any alphabet. */
module Radix {

  type Digits = seq<nat>

  ghost predicate InBase(xs: Digits, base: nat) {
    forall i :: 0 <= i < |xs| ==> xs[i] < base
  }

  lemma DivModIdentity(n: nat, base: nat)
    requires base > 0
    ensures n / base * base + n % base == n
  {
  }

  lemma MulMonotone(a: nat, b: nat, c: nat)
    ensures a < b ==> (a + 1) * c <= b * c
  {
    if a < b {
      assert b * c == (a + 1) * c + (b - a - 1) * c;
    }
  }

  lemma DivMod(q: nat, r: nat, base: nat)
    requires r < base
    ensures (q * base + r) / base == q && (q * base + r) % base == r
  {
    var d := (q * base + r) / base;
    DivModIdentity(q * base + r, base);
    MulMonotone(d, q, base);
    MulMonotone(q, d, base);
  }

  lemma SmallQuotient(n: nat, base: nat)
    requires base >= 2
    ensures n / base == 0 <==> n < base
    ensures n < base ==> n % base == n
  {
    DivModIdentity(n, base);
    MulMonotone(0, n / base, base);
    if n < base {
      DivMod(0, n, base);
    }
  }

  lemma QuotientSmaller(n: nat, base: nat)
    requires base >= 2 && n > 0
    ensures n / base < n
  {
    DivModIdentity(n, base);
    MulMonotone(1, base, n / base);
  }

  /** Value of a big-endian digit string. */
  function Value(xs: Digits, base: nat): nat {
    if xs == [] then 0 else Value(xs[..|xs| - 1], base) * base + xs[|xs| - 1]
  }

  /** Big-endian digits of `n`; zero is the single digit 0. */
  function Repr(n: nat, base: nat): (xs: Digits)
    requires base >= 2
    ensures |xs| > 0 && InBase(xs, base)
    ensures n > 0 ==> xs[0] != 0
    ensures n == 0 ==> xs == [0]
  {
    if n < base then [n]
    else
      QuotientSmaller(n, base);
      Repr(n / base, base) + [n % base]
  }

  function Zeros(k: nat): (xs: Digits)
    ensures |xs| == k && forall i :: 0 <= i < k ==> xs[i] == 0
  {
    seq(k, _ => 0)
  }

  function LeadingZeros(xs: Digits): (k: nat)
    ensures k <= |xs|
    ensures forall i :: 0 <= i < k ==> xs[i] == 0
    ensures k < |xs| ==> xs[k] != 0
  {
    if xs == [] || xs[0] != 0 then 0 else 1 + LeadingZeros(xs[1..])
  }

  /** Re-expresses a number in another base, keeping every leading zero. */
  function Convert(xs: Digits, from: nat, to: nat): (ys: Digits)
    requires to >= 2
    ensures InBase(ys, to)
    ensures xs == [] <==> ys == []
  {
    if xs == [] then [] else Zeros(LeadingZeros(xs)) + Repr(Value(xs, from), to)
  }

  predicate HasNonzero(xs: Digits) {
    exists i :: 0 <= i < |xs| && xs[i] != 0
  }

  lemma ValueAppend(front: Digits, last: nat, base: nat)
    ensures Value(front + [last], base) == Value(front, base) * base + last
  {
    var xs := front + [last];
    assert xs[..|xs| - 1] == front;
  }

  lemma {:induction false} ReprValue(n: nat, base: nat)
    requires base >= 2
    ensures Value(Repr(n, base), base) == n
  {
    if n < base {
      ValueAppend([], n, base);
      assert [] + [n] == Repr(n, base);
    } else {
      ReprValue(n / base, base);
      ValueAppend(Repr(n / base, base), n % base, base);
      DivModIdentity(n, base);
    }
  }

  lemma {:induction false} LeadingDigitPositive(xs: Digits, base: nat)
    requires base >= 2 && |xs| > 0 && xs[0] != 0
    ensures Value(xs, base) > 0
  {
    if |xs| > 1 {
      LeadingDigitPositive(xs[..|xs| - 1], base);
    }
  }

  /** A digit string with a nonzero leading digit is the only one of its value. */
  lemma {:induction false} ReprUnique(xs: Digits, base: nat)
    requires base >= 2 && InBase(xs, base) && |xs| > 0 && xs[0] != 0
    ensures Repr(Value(xs, base), base) == xs
  {
    var front, last := xs[..|xs| - 1], xs[|xs| - 1];
    if |xs| == 1 {
      assert front == [];
    } else {
      ReprUnique(front, base);
      LeadingDigitPositive(front, base);
      ReprStep(Value(front, base), last, base);
      assert xs == front + [last];
    }
  }

  lemma ReprStep(q: nat, r: nat, base: nat)
    requires base >= 2 && q > 0 && r < base
    ensures Repr(q * base + r, base) == Repr(q, base) + [r]
  {
    DivMod(q, r, base);
    MulMonotone(0, q, base);
  }

  lemma {:induction false} ValueSkipsZeros(k: nat, ys: Digits, base: nat)
    ensures Value(Zeros(k) + ys, base) == Value(ys, base)
    decreases k + |ys|
  {
    var xs := Zeros(k) + ys;
    if |ys| > 0 {
      ValueSkipsZeros(k, ys[..|ys| - 1], base);
      assert xs[..|xs| - 1] == Zeros(k) + ys[..|ys| - 1];
    } else if k > 0 {
      ValueSkipsZeros(k - 1, [], base);
      assert xs[..|xs| - 1] == Zeros(k - 1) + [];
    }
  }

  lemma {:induction false} LeadingZerosOf(k: nat, ys: Digits)
    requires ys == [] || ys[0] != 0
    ensures LeadingZeros(Zeros(k) + ys) == k
  {
    var xs := Zeros(k) + ys;
    assert forall i :: 0 <= i < k ==> xs[i] == 0;
    assert ys != [] ==> xs[k] == ys[0];
  }

  /** Every digit string is its leading zeros followed by a string that does not start with zero. */
  lemma SplitZeros(xs: Digits) returns (ys: Digits)
    ensures ys == xs[LeadingZeros(xs)..]
    ensures xs == Zeros(LeadingZeros(xs)) + ys
    ensures ys == [] || ys[0] != 0
    ensures HasNonzero(xs) <==> ys != []
  {
    ys := xs[LeadingZeros(xs)..];
  }

  /** A conversion keeps the number and the leading zeros; zero itself gains one digit. */
  lemma ConvertMeans(xs: Digits, a: nat, b: nat)
    requires a >= 2 && b >= 2 && InBase(xs, a) && xs != []
    ensures Value(Convert(xs, a, b), b) == Value(xs, a)
    ensures HasNonzero(xs) ==> LeadingZeros(Convert(xs, a, b)) == LeadingZeros(xs)
    ensures !HasNonzero(xs) ==> Convert(xs, a, b) == Zeros(|xs| + 1)
  {
    var k, n := LeadingZeros(xs), Value(xs, a);
    var ys := SplitZeros(xs);
    ValueSkipsZeros(k, ys, a);
    ValueSkipsZeros(k, Repr(n, b), b);
    ReprValue(n, b);
    if ys != [] {
      LeadingDigitPositive(ys, a);
      LeadingZerosOf(k, Repr(n, b));
    } else {
      assert Zeros(k) + [0] == Zeros(k + 1);
    }
  }

  /** Converting to another base and back is the identity, except on nonempty all-zero strings. */
  lemma {:induction false} ConvertRoundTrip(xs: Digits, a: nat, b: nat)
    requires a >= 2 && b >= 2 && InBase(xs, a)
    ensures Convert(Convert(xs, a, b), b, a) == xs <==> xs == [] || HasNonzero(xs)
    ensures xs != [] && !HasNonzero(xs) ==> Convert(Convert(xs, a, b), b, a) == Zeros(|xs| + 2)
  {
    if xs != [] {
      var k := LeadingZeros(xs);
      var ys := SplitZeros(xs);
      ValueSkipsZeros(k, ys, a);
      var n := Value(xs, a);
      if ys != [] {
        LeadingDigitPositive(ys, a);
        ReprUnique(ys, a);
        LeadingZerosOf(k, Repr(n, b));
        ValueSkipsZeros(k, Repr(n, b), b);
        ReprValue(n, b);
      } else {
        assert Zeros(k) + [0] == Zeros(k + 1) + [];
        LeadingZerosOf(k + 1, []);
        ValueSkipsZeros(k + 1, [], b);
        assert Convert(xs, a, b) == Zeros(k + 1);
        assert Zeros(k + 1) + [] == Zeros(k + 1);
        assert Zeros(k + 1) + [0] == Zeros(k + 2);
      }
    }
  }
}

/** The base58btc codec of `core-domain`. */
module Base58 {
  import opened Prelude
  import opened Radix

  datatype Error = InvalidBase58Character

  /** `BASE58_ALPHABET[d]`: the 58-character literal, read run by run of the ASCII order. */
  function Symbol(d: nat): char
    requires d < 58
  {
    if d < 9 then "123456789"[d]
    else if d < 17 then "ABCDEFGH"[d - 9]
    else if d < 22 then "JKLMN"[d - 17]
    else if d < 33 then "PQRSTUVWXYZ"[d - 22]
    else if d < 44 then "abcdefghijk"[d - 33]
    else "mnopqrstuvwxyz"[d - 44]
  }

  /** The runs put together are the literal. */
  lemma AlphabetIsLiteral()
    ensures [Symbol(0), Symbol(1), Symbol(2), Symbol(3), Symbol(4), Symbol(5), Symbol(6), Symbol(7), Symbol(8),
             Symbol(9), Symbol(10), Symbol(11), Symbol(12), Symbol(13), Symbol(14), Symbol(15), Symbol(16),
             Symbol(17), Symbol(18), Symbol(19), Symbol(20), Symbol(21), Symbol(22), Symbol(23), Symbol(24),
             Symbol(25), Symbol(26), Symbol(27), Symbol(28), Symbol(29), Symbol(30), Symbol(31), Symbol(32),
             Symbol(33), Symbol(34), Symbol(35), Symbol(36), Symbol(37), Symbol(38), Symbol(39), Symbol(40),
             Symbol(41), Symbol(42), Symbol(43), Symbol(44), Symbol(45), Symbol(46), Symbol(47), Symbol(48),
             Symbol(49), Symbol(50), Symbol(51), Symbol(52), Symbol(53), Symbol(54), Symbol(55), Symbol(56),
             Symbol(57)]
            == "123456789ABCDEFGHJKLMNPQRSTUVWXYZabcdefghijkmnopqrstuvwxyz"
  {
  }

  /** A character of a JavaScript string is a code unit. */
  function Char(d: nat): u16
    requires d < 58
  {
    Symbol(d) as int % 0x1_0000
  }

  function IndexFrom(c: u16, d: nat): (r: int)
    requires d <= 58
    ensures r == -1 ==> forall i :: d <= i < 58 ==> Char(i) != c
    ensures r != -1 ==> d <= r < 58 && Char(r) == c
    decreases 58 - d
  {
    if d == 58 then -1 else if Char(d) == c then d else IndexFrom(c, d + 1)
  }

  /** `BASE58_ALPHABET.indexOf(char)`. */
  function IndexOf(c: u16): (r: int)
    ensures r == -1 <==> forall i :: 0 <= i < 58 ==> Char(i) != c
    ensures r != -1 ==> 0 <= r < 58 && Char(r) == c
  {
    IndexFrom(c, 0)
  }

  lemma SymbolAscends(d: nat)
    requires d < 57
    ensures Symbol(d) as int < Symbol(d + 1) as int
  {
  }

  lemma SymbolIsAscii(d: nat)
    requires d < 58
    ensures Symbol(d) as int < 128 && Char(d) == Symbol(d) as int
  {
  }

  lemma AlphabetAscends(d: nat)
    requires d < 57
    ensures Char(d) < Char(d + 1)
  {
    SymbolAscends(d);
    SymbolIsAscii(d);
    SymbolIsAscii(d + 1);
    hide Symbol, Char;
  }

  lemma {:induction false} AlphabetOrdered(c: nat, d: nat)
    requires c < d < 58
    ensures Char(c) < Char(d)
    decreases d
  {
    hide Char;
    AlphabetAscends(d - 1);
    if c < d - 1 {
      AlphabetOrdered(c, d - 1);
    }
  }

  lemma IndexOfChar(d: nat)
    requires d < 58
    ensures IndexOf(Char(d)) == d
  {
    var e := IndexOf(Char(d));
    if e < d {
      AlphabetOrdered(e, d);
    } else if d < e {
      AlphabetOrdered(d, e);
    }
  }

  function Chars(ds: Digits): (t: Text)
    requires InBase(ds, 58)
    ensures |t| == |ds| && forall i :: 0 <= i < |ds| ==> t[i] == Char(ds[i])
  {
    seq(|ds|, i requires 0 <= i < |ds| => Char(ds[i]))
  }

  predicate InAlphabet(t: Text) {
    forall i :: 0 <= i < |t| ==> IndexOf(t[i]) != -1
  }

  function Indices(t: Text): (ds: Digits)
    requires InAlphabet(t)
    ensures |ds| == |t| && InBase(ds, 58) && forall i :: 0 <= i < |t| ==> Char(ds[i]) == t[i]
  {
    seq(|t|, i requires 0 <= i < |t| => IndexOf(t[i]))
  }

  lemma IndicesOfChars(ds: Digits)
    requires InBase(ds, 58)
    ensures InAlphabet(Chars(ds)) && Indices(Chars(ds)) == ds
  {
    forall i | 0 <= i < |ds| {
      IndexOfChar(ds[i]);
    }
  }

  /** What the encoder computes: the same number, base 256 to base 58, leading zeros kept. */
  function Encoded(bytes: seq<byte>): (t: Text)
    ensures t == [] <==> bytes == []
  {
    Chars(Convert(bytes, 256, 58))
  }

  function Decoded(value: Text): Result<seq<byte>, Error> {
    if InAlphabet(value) then Ok(Convert(Indices(value), 58, 256)) else Err(InvalidBase58Character)
  }

  /** Decoding gives the bytes back exactly when they are empty or not all zero. */
  lemma {:induction false} DecodeEncode(bytes: seq<byte>)
    ensures Decoded(Encoded(bytes)) == Ok(bytes) <==> bytes == [] || HasNonzero(bytes)
    ensures bytes != [] && !HasNonzero(bytes) ==> Decoded(Encoded(bytes)) == Ok(Zeros(|bytes| + 2))
  {
    IndicesOfChars(Convert(bytes, 256, 58));
    ConvertRoundTrip(bytes, 256, 58);
  }

  /**
   * The text is over the alphabet and, read in base 58, the number the bytes are in base 256. Not all bytes being zero,
   * it has a leading `1` for each leading zero byte and no more.
   */
  lemma EncodedMeans(bytes: seq<byte>)
    ensures var t := Encoded(bytes);
            && InAlphabet(t) && Value(Indices(t), 58) == Value(bytes, 256)
            && (HasNonzero(bytes) ==> LeadingZeros(Indices(t)) == LeadingZeros(bytes))
            && (!HasNonzero(bytes) && bytes != [] ==> Indices(t) == Zeros(|bytes| + 1))
  {
    var ds := Convert(bytes, 256, 58);
    IndicesOfChars(ds);
    if bytes != [] {
      ConvertMeans(bytes, 256, 58);
    }
  }

  /** And back, for a text over the alphabet. */
  lemma DecodedMeans(value: Text)
    requires InAlphabet(value)
    ensures var bytes := Decoded(value).value; var ds := Indices(value);
            && Decoded(value).Ok? && Value(bytes, 256) == Value(ds, 58)
            && (HasNonzero(ds) ==> LeadingZeros(bytes) == LeadingZeros(ds))
            && (!HasNonzero(ds) && value != [] ==> bytes == Zeros(|value| + 1))
  {
    if value != [] {
      ConvertMeans(Indices(value), 58, 256);
    }
  }

  lemma EncodedDecodes(bytes: seq<byte>)
    ensures Decoded(Encoded(bytes)).Ok?
  {
    IndicesOfChars(Convert(bytes, 256, 58));
  }

  lemma CharsIndices(value: Text)
    requires InAlphabet(value)
    ensures Chars(Indices(value)) == value
  {
  }

  lemma NonzeroIndices(ds: Digits)
    requires InBase(ds, 58)
    ensures HasNonzero(ds) <==> exists i :: 0 <= i < |ds| && Chars(ds)[i] != Char(0)
  {
    forall i | 0 <= i < |ds| && ds[i] != 0
      ensures Chars(ds)[i] != Char(0)
    {
      AlphabetOrdered(0, ds[i]);
    }
  }

  /** Encoding gives the text back exactly when it is empty or has a character other than `1`. */
  lemma {:induction false} EncodeDecode(value: Text)
    ensures Decoded(value).Ok? <==> InAlphabet(value)
    ensures InAlphabet(value) ==>
              (Encoded(Decoded(value).value) == value <==>
               value == [] || exists i :: 0 <= i < |value| && value[i] != Char(0))
  {
    if InAlphabet(value) {
      var ds := Indices(value);
      var back := Convert(Convert(ds, 58, 256), 256, 58);
      ConvertRoundTrip(ds, 58, 256);
      CharsIndices(value);
      NonzeroIndices(ds);
      CharsInjective(back, ds);
    }
  }

  lemma AllOnesDecodeToZeros(value: Text)
    requires forall i :: 0 <= i < |value| ==> value[i] == Char(0)
    ensures Decoded(value).Ok?
    ensures value != [] ==> Decoded(value).value[0] == 0
  {
    hide Char;
    IndexOfChar(0);
    assert InAlphabet(value);
    if value != [] {
      assert Indices(value)[0] == 0;
      assert LeadingZeros(Indices(value)) > 0;
    }
  }

  lemma CharsInjective(xs: Digits, ys: Digits)
    requires InBase(xs, 58) && InBase(ys, 58)
    ensures Chars(xs) == Chars(ys) ==> xs == ys
  {
    IndicesOfChars(xs);
    IndicesOfChars(ys);
  }

  /** The mutable arrays of both codecs hold the number little-endian. */
  function Reversed(ds: Digits): (r: Digits)
    ensures |r| == |ds| && forall i :: 0 <= i < |ds| ==> r[i] == ds[|ds| - 1 - i]
  {
    if ds == [] then [] else Reversed(ds[1..]) + [ds[0]]
  }

  function CarryDigits(carry: nat, base: nat): Digits
    requires base >= 2
  {
    if carry == 0 then []
    else
      QuotientSmaller(carry, base);
      [carry % base] + CarryDigits(carry / base, base)
  }

  /** `ds * mul + carry`, digit by digit from the least significant one. */
  function MulAdd(ds: Digits, mul: nat, carry: nat, base: nat): Digits
    requires base >= 2
    decreases |ds|
  {
    if ds == [] then CarryDigits(carry, base)
    else
      var next := ds[0] * mul + carry;
      [next % base] + MulAdd(ds[1..], mul, next / base, base)
  }

  lemma ReprOfDigits(ds: Digits, n: nat, base: nat)
    requires base >= 2 && |ds| > 0 && ds[0] == n % base
    requires if n < base then |ds| == 1 else Reversed(ds[1..]) == Repr(n / base, base)
    ensures Reversed(ds) == Repr(n, base)
  {
    SmallQuotient(n, base);
  }

  lemma {:induction false} CarryDigitsValue(carry: nat, base: nat)
    requires base >= 2
    ensures carry > 0 ==> Reversed(CarryDigits(carry, base)) == Repr(carry, base)
  {
    hide Repr, Reversed;
    if carry > 0 {
      var q, r := carry / base, carry % base;
      var rest := CarryDigits(q, base);
      assert CarryDigits(carry, base) == [r] + rest && (q == 0 <==> carry < base) && q < carry by {
        SmallQuotient(carry, base);
        QuotientSmaller(carry, base);
      }
      CarryDigitsValue(q, base);
      assert ([r] + rest)[1..] == rest;
      ReprOfDigits([r] + rest, carry, base);
    }
  }

  lemma MulAddArithmetic(q: nat, d: nat, mul: nat, carry: nat, base: nat)
    requires base >= 2
    ensures var next := d * mul + carry; var n := (q * base + d) * mul + carry;
            n / base == q * mul + next / base && n % base == next % base
  {
    var next := d * mul + carry;
    DivModIdentity(next, base);
    assert (q * base + d) * mul + carry == (q * mul + next / base) * base + next % base;
    DivMod(q * mul + next / base, next % base, base);
  }

  lemma ReprTail(ds: Digits, v: nat, base: nat)
    requires base >= 2 && Reversed(ds) == Repr(v, base)
    ensures |ds| > 0 && ds[0] == v % base
    ensures |ds| == 1 ==> v < base
    ensures |ds| > 1 ==> v >= base && Reversed(ds[1..]) == Repr(v / base, base)
  {
    var r := Reversed(ds);
    assert r[..|r| - 1] == Reversed(ds[1..]) && r[|r| - 1] == ds[0];
    SmallQuotient(v, base);
    if v >= base {
      var front := Repr(v / base, base);
      assert r == front + [v % base];
      hide Repr, Reversed;
      assert r[..|r| - 1] == front;
    }
  }

  // The arithmetic of one digit, kept behind names so that the induction sees no products.

  function Next(digit: nat, mul: nat, carry: nat): nat { digit * mul + carry }
  function Quotient(n: nat, base: nat): nat requires base >= 2 { n / base }
  function Remainder(n: nat, base: nat): nat requires base >= 2 { n % base }

  lemma NextParts(v: nat, mul: nat, carry: nat, base: nat)
    requires base >= 2 && mul >= 1
    ensures var next := Next(Remainder(v, base), mul, carry); var n := Next(v, mul, carry);
            && Quotient(n, base) == Next(Quotient(v, base), mul, Quotient(next, base))
            && Remainder(n, base) == Remainder(next, base)
            && (Quotient(v, base) == 0 ==> Quotient(n, base) == Quotient(next, base))
            && (Quotient(v, base) > 0 ==> Quotient(n, base) > 0)
  {
    DivModIdentity(v, base);
    MulAddArithmetic(v / base, v % base, mul, carry, base);
    if Quotient(v, base) > 0 {
      MulMonotone(0, v / base, mul);
    }
  }

  lemma MulAddParts(ds: Digits, mul: nat, carry: nat, base: nat)
    requires base >= 2 && ds != []
    ensures var next := Next(ds[0], mul, carry);
            MulAdd(ds, mul, carry, base)
            == [Remainder(next, base)] + MulAdd(ds[1..], mul, Quotient(next, base), base)
    ensures |ds| == 1 ==> MulAdd(ds[1..], mul, Quotient(Next(ds[0], mul, carry), base), base)
                          == CarryDigits(Quotient(Next(ds[0], mul, carry), base), base)
  {
  }

  lemma QuotientCases(n: nat, base: nat)
    requires base >= 2
    ensures Quotient(n, base) == 0 <==> n < base
  {
    SmallQuotient(n, base);
  }

  /** The digit loops multiply the number by `mul` and add `carry`, whatever the base. */
  lemma {:induction false} MulAddValue(ds: Digits, v: nat, mul: nat, carry: nat, base: nat)
    requires base >= 2 && mul >= 1 && Reversed(ds) == Repr(v, base)
    ensures Reversed(MulAdd(ds, mul, carry, base)) == Repr(Next(v, mul, carry), base)
    decreases |ds|
  {
    ReprTail(ds, v, base);
    assert ds[0] == Remainder(v, base);
    assert |ds| > 1 ==> Reversed(ds[1..]) == Repr(Quotient(v, base), base);
    QuotientCases(v, base);
    var n := Next(v, mul, carry);
    QuotientCases(n, base);
    NextParts(v, mul, carry, base);
    MulAddParts(ds, mul, carry, base);
    var carried := Quotient(Next(ds[0], mul, carry), base);
    var tail := MulAdd(ds[1..], mul, carried, base);
    hide Repr, Reversed, Next, MulAdd;
    if |ds| == 1 {
      CarryDigitsValue(carried, base);
    } else {
      MulAddValue(ds[1..], Quotient(v, base), mul, carried, base);
    }
    assert ([Remainder(n, base)] + tail)[1..] == tail;
    ReprOfDigits([Remainder(n, base)] + tail, n, base);
  }

  lemma ReversedInBase(ds: Digits, v: nat, base: nat)
    requires base >= 2 && Reversed(ds) == Repr(v, base)
    ensures InBase(ds, base)
  {
    forall i | 0 <= i < |ds| ensures ds[i] < base {
      assert ds[i] == Reversed(ds)[|ds| - 1 - i];
    }
  }

  /** One pass of the encoder's inner loops: the array times 256 plus `byteValue`, in base 58. */
  method EncodeStep(digits: Digits, byteValue: nat) returns (r: Digits)
    requires byteValue < 256 && InBase(digits, 58)
    ensures r == MulAdd(digits, 256, byteValue, 58)
  {
    r := digits;
    var carry: nat := byteValue;
    for index := 0 to |r|
      invariant |r| == |digits| && r[index..] == digits[index..]
      invariant carry < 256
      invariant r[..index] + MulAdd(digits[index..], 256, carry, 58) == MulAdd(digits, 256, byteValue, 58)
    {
      var next := r[index] * 256 + carry;
      assert next < 58 * 256;
      r := r[index := next % 58];
      carry := next / 58;
      assert r[..index + 1] == r[..index] + [next % 58];
    }
    assert r[..|digits|] == r;
    while carry > 0
      invariant r + CarryDigits(carry, 58) == MulAdd(digits, 256, byteValue, 58)
    {
      r := r + [carry % 58];
      carry := carry / 58;
    }
  }

  /** One pass of the decoder's inner loops: the array times 58 plus `alphabetIndex`, in base 256. */
  method DecodeStep(bytes: Digits, alphabetIndex: nat) returns (r: Digits)
    requires alphabetIndex < 58 && InBase(bytes, 256)
    ensures r == MulAdd(bytes, 58, alphabetIndex, 256)
  {
    r := bytes;
    var carry: nat := alphabetIndex;
    for index := 0 to |r|
      invariant |r| == |bytes| && r[index..] == bytes[index..]
      invariant carry < 58
      invariant r[..index] + MulAdd(bytes[index..], 58, carry, 256) == MulAdd(bytes, 58, alphabetIndex, 256)
    {
      var next := r[index] * 58 + carry;
      assert next < 256 * 58;
      r := r[index := next % 256];
      carry := next / 256;
      assert r[..index + 1] == r[..index] + [next % 256];
    }
    assert r[..|bytes|] == r;
    while carry > 0
      invariant r + CarryDigits(carry, 256) == MulAdd(bytes, 58, alphabetIndex, 256)
    {
      r := r + [carry % 256];
      carry := carry / 256;
    }
  }

  lemma EncodePrefix(digits: Digits, bytes: seq<byte>, i: nat)
    requires i < |bytes| && Reversed(digits) == Repr(Value(bytes[..i], 256), 58)
    ensures InBase(digits, 58)
    ensures Reversed(MulAdd(digits, 256, bytes[i], 58)) == Repr(Value(bytes[..i + 1], 256), 58)
  {
    hide MulAdd, Repr, Reversed, Value;
    var v := Value(bytes[..i], 256);
    ReversedInBase(digits, v, 58);
    MulAddValue(digits, v, 256, bytes[i], 58);
    assert bytes[..i + 1] == bytes[..i] + [bytes[i]];
    ValueAppend(bytes[..i], bytes[i], 256);
  }

  lemma DecodePrefix(bytes: Digits, value: Text, i: nat)
    requires i < |value| && InAlphabet(value[..i]) && IndexOf(value[i]) != -1
    requires Reversed(bytes) == Repr(Value(Indices(value[..i]), 58), 256)
    ensures InAlphabet(value[..i + 1]) && InBase(bytes, 256)
    ensures Reversed(MulAdd(bytes, 58, IndexOf(value[i]), 256)) == Repr(Value(Indices(value[..i + 1]), 58), 256)
  {
    hide Char, IndexOf, MulAdd, Repr, Reversed, Value;
    var v, d := Value(Indices(value[..i]), 58), IndexOf(value[i]);
    ReversedInBase(bytes, v, 256);
    MulAddValue(bytes, v, 58, d, 256);
    assert Indices(value[..i + 1]) == Indices(value[..i]) + [d];
    ValueAppend(Indices(value[..i]), d, 58);
  }

  lemma CharsAppend(ds: Digits, k: nat)
    requires InBase(ds, 58) && k < |ds|
    ensures Chars(ds[..k + 1]) == Chars(ds[..k]) + [Char(ds[k])]
  {
  }

  /** The first loop of the encoder: the base-58 digits of the whole number, least significant first. */
  method EncodeDigits(bytes: seq<byte>) returns (digits: Digits)
    ensures InBase(digits, 58) && Reversed(digits) == Repr(Value(bytes, 256), 58)
  {
    digits := [0];
    assert Reversed(digits) == [0];
    for i := 0 to |bytes|
      invariant Reversed(digits) == Repr(Value(bytes[..i], 256), 58)
    {
      EncodePrefix(digits, bytes, i);
      digits := EncodeStep(digits, bytes[i]);
    }
    assert bytes[..|bytes|] == bytes;
    ReversedInBase(digits, Value(bytes, 256), 58);
  }

  lemma EncodedDigits(bytes: seq<byte>, digits: Digits)
    requires |bytes| > 0 && Reversed(digits) == Repr(Value(bytes, 256), 58)
    ensures Convert(bytes, 256, 58) == Zeros(LeadingZeros(bytes)) + Reversed(digits)
    ensures Chars(Convert(bytes, 256, 58)) == Encoded(bytes)
  {
  }

  method Base58Encode(bytes: seq<byte>) returns (encoded: Text)
    ensures encoded == Encoded(bytes)
  {
    hide Char, Chars, Convert, Repr, Reversed, Value, LeadingZeros, Zeros, Encoded;
    if |bytes| == 0 {
      assert |Encoded([])| == 0;
      return [];
    }
    var digits := EncodeDigits(bytes);
    ghost var all := Convert(bytes, 256, 58);
    EncodedDigits(bytes, digits);

    encoded := [];
    var index := 0;
    while index < |bytes| && bytes[index] == 0
      invariant 0 <= index <= LeadingZeros(bytes)
      invariant encoded == Chars(all[..index])
    {
      CharsAppend(all, index);
      encoded := encoded + [Char(0)];
      index := index + 1;
    }
    var n := |digits|;
    while n > 0
      invariant 0 <= n <= |digits|
      invariant encoded == Chars(all[..|all| - n])
    {
      CharsAppend(all, |all| - n);
      n := n - 1;
      encoded := encoded + [Char(digits[n])];
    }
    assert all[..|all|] == all;
  }

  /** The first loop of the decoder, which throws at the first character outside the alphabet. */
  method DecodeBytes(value: Text) returns (r: Result<Digits, Error>)
    ensures r.Ok? <==> InAlphabet(value)
    ensures r.Ok? ==> InBase(r.value, 256) && Reversed(r.value) == Repr(Value(Indices(value), 58), 256)
    ensures r.Err? ==> r.error == InvalidBase58Character
  {
    var bytes: Digits := [0];
    assert Reversed(bytes) == [0];
    for i := 0 to |value|
      invariant InAlphabet(value[..i])
      invariant Reversed(bytes) == Repr(Value(Indices(value[..i]), 58), 256)
    {
      var alphabetIndex := IndexOf(value[i]);
      if alphabetIndex < 0 {
        return Err(InvalidBase58Character);
      }
      DecodePrefix(bytes, value, i);
      bytes := DecodeStep(bytes, alphabetIndex);
    }
    assert value[..|value|] == value;
    ReversedInBase(bytes, Value(Indices(value), 58), 256);
    r := Ok(bytes);
  }

  lemma DecodedBytes(value: Text, bytes: Digits)
    requires |value| > 0 && InAlphabet(value) && Reversed(bytes) == Repr(Value(Indices(value), 58), 256)
    ensures Convert(Indices(value), 58, 256) == Zeros(LeadingZeros(Indices(value))) + Reversed(bytes)
  {
  }

  method Base58Decode(value: Text) returns (r: Result<seq<byte>, Error>)
    ensures r == Decoded(value)
  {
    hide Char, Convert, Repr, Reversed, Value, LeadingZeros, Zeros, IndexOf;
    if |value| == 0 {
      return Ok([]);
    }
    var number := DecodeBytes(value);
    if number.Err? {
      return Err(number.error);
    }
    var bytes := number.value;
    ghost var ds := Indices(value);
    var zeroPrefix := 0;
    while zeroPrefix < |value| && value[zeroPrefix] == Char(0)
      invariant 0 <= zeroPrefix <= LeadingZeros(ds)
    {
      IndexOfChar(0);
      zeroPrefix := zeroPrefix + 1;
    }
    var decoded := new byte[zeroPrefix + |bytes|](_ => 0);
    for index := 0 to |bytes|
      invariant forall k :: 0 <= k < zeroPrefix ==> decoded[k] == 0
      invariant forall k :: 0 <= k < index ==> decoded[decoded.Length - 1 - k] == bytes[k]
    {
      decoded[decoded.Length - 1 - index] := bytes[index];
    }
    assert decoded[..] == Zeros(zeroPrefix) + Reversed(bytes);
    DecodedBytes(value, bytes);
    r := Ok(decoded[..]);
  }
}
