/** JSON values as JavaScript holds them, and what they mean when key order is forgotten. */
module JsonValue {
  import opened Prelude
  import opened StableSort

  /** Code units of a rendered number: digits, sign, point and exponent. */
  predicate IsNumberUnit(c: u16) {
    48 <= c <= 57 || c == 43 || c == 45 || c == 46 || c == 101
  }

  lemma NumberUnitsAre(c: u16)
    ensures IsNumberUnit(c) <==> c in Ascii("0123456789+-.e")
  {
    var units := Ascii("0123456789+-.e");
    assert units[0] == 48 && units[1] == 49 && units[2] == 50 && units[3] == 51 && units[4] == 52 && units[5] == 53;
    assert units[6] == 54 && units[7] == 55 && units[8] == 56 && units[9] == 57;
    assert units[10] == 43 && units[11] == 45 && units[12] == 46 && units[13] == 101;
  }

  /** A finite number is its own shortest rendering; -0 renders, and so counts, as 0. */
  type NumberText = t: Text | t != [] && forall i :: 0 <= i < |t| ==> IsNumberUnit(t[i]) witness [48]

  datatype Number = Finite(rendering: NumberText) | NonFinite

  /** `fields` lists an object's own properties in the order `Object.keys` reports them. */
  datatype Json =
    | Undefined
    | Null
    | Bool(b: bool)
    | Num(n: Number)
    | Str(s: Text)
    | Arr(items: seq<Json>)
    | Obj(fields: seq<Field>)

  datatype Field = Field(key: Text, value: Json)

  /** A JSON value with objects seen as maps. */
  datatype Meaning =
    | MUndefined
    | MNull
    | MBool(b: bool)
    | MNum(n: Number)
    | MStr(s: Text)
    | MArr(items: seq<Meaning>)
    | MObj(entries: map<Text, Meaning>)

  function Keys(fs: seq<Field>): (ks: seq<Text>)
    ensures |ks| == |fs| && forall i :: 0 <= i < |fs| ==> ks[i] == fs[i].key
  {
    seq(|fs|, i requires 0 <= i < |fs| => fs[i].key)
  }

  /** No object has two properties of one name, which JavaScript guarantees. */
  ghost predicate Distinct(v: Json) {
    match v
    case Arr(items) => forall x | x in items :: Distinct(x)
    case Obj(fields) => NoRepeats(Keys(fields)) && forall f | f in fields :: Distinct(f.value)
    case _ => true
  }

  /** The values `canonicalizeJson` does not reject. */
  ghost predicate Serializable(v: Json) {
    match v
    case Undefined => false
    case Num(n) => n.Finite?
    case Arr(items) => forall x | x in items :: Serializable(x)
    case Obj(fields) => forall f | f in fields :: Serializable(f.value)
    case _ => true
  }

  ghost function MeaningOf(v: Json): Meaning {
    match v
    case Undefined => MUndefined
    case Null => MNull
    case Bool(b) => MBool(b)
    case Num(n) => MNum(n)
    case Str(s) => MStr(s)
    case Arr(items) => MArr(MeaningOfItems(v, items))
    case Obj(fields) => MObj(MeaningOfFields(v, fields))
  }

  ghost function MeaningOfItems(v: Json, xs: seq<Json>): (ms: seq<Meaning>)
    requires forall i :: 0 <= i < |xs| ==> xs[i] < v
    ensures |ms| == |xs| && forall i :: 0 <= i < |xs| ==> ms[i] == MeaningOf(xs[i])
    decreases v, |xs|
  {
    if xs == [] then [] else [MeaningOf(xs[0])] + MeaningOfItems(v, xs[1..])
  }

  ghost function MeaningOfFields(v: Json, fs: seq<Field>): (m: map<Text, Meaning>)
    requires forall i :: 0 <= i < |fs| ==> fs[i].value < v
    ensures forall k :: k in m <==> k in Keys(fs)
    ensures NoRepeats(Keys(fs)) ==> forall i :: 0 <= i < |fs| ==> m[fs[i].key] == MeaningOf(fs[i].value)
    decreases v, |fs|
  {
    if fs == [] then map[]
    else
      assert Keys(fs) == [fs[0].key] + Keys(fs[1..]);
      assert NoRepeats(Keys(fs)) ==> NoRepeats(Keys(fs[1..])) && fs[0].key !in Keys(fs[1..]);
      MeaningOfFields(v, fs[1..])[fs[0].key := MeaningOf(fs[0].value)]
  }
}

/** `canonicalizeJson`: the text that is signed. */
module CanonicalJson {
  import opened Prelude
  import opened Unicode
  import opened JsonString
  import opened JsonText
  import opened JsonValue
  import opened StableSort

  datatype Error = NonFiniteNumber | UndefinedValue

  /** `left.localeCompare(right) <= 0` in the locale at hand. */
  type Comparator = (Text, Text) -> bool

  const COMMA: u16 := 44
  const COLON: u16 := 58
  const OPEN_BRACKET: u16 := 91
  const CLOSE_BRACKET: u16 := 93
  const OPEN_BRACE: u16 := 123
  const CLOSE_BRACE: u16 := 125

  function ByKey(le: Comparator): (Field, Field) -> bool {
    (f: Field, g: Field) => le(f.key, g.key)
  }

  function SortedFields(fs: seq<Field>, le: Comparator): (r: seq<Field>)
    ensures |r| == |fs| && (forall f :: f in r <==> f in fs)
    ensures forall i :: 0 <= i < |r| ==> r[i] in fs
  {
    SortPermutes(fs, ByKey(le));
    Sort(fs, ByKey(le))
  }

  /** `parts.join(",")` */
  function Join(parts: seq<Text>): Text {
    if parts == [] then [] else if |parts| == 1 then parts[0] else parts[0] + [COMMA] + Join(parts[1..])
  }

  function Canonicalize(v: Json, le: Comparator): Result<Text, Error> {
    match v
    case Undefined => Err(UndefinedValue)
    case Null => Ok(Ascii("null"))
    case Bool(b) => Ok(if b then Ascii("true") else Ascii("false"))
    case Num(n) => if n.NonFinite? then Err(NonFiniteNumber) else Ok(n.rendering)
    case Str(s) => Ok(Quote(s))
    case Arr(items) =>
      (match CanonicalizeItems(v, items, le)
       case Err(e) => Err(e)
       case Ok(parts) => Ok([OPEN_BRACKET] + Join(parts) + [CLOSE_BRACKET]))
    case Obj(fields) =>
      (match CanonicalizeFields(v, SortedFields(fields, le), le)
       case Err(e) => Err(e)
       case Ok(parts) => Ok([OPEN_BRACE] + Join(parts) + [CLOSE_BRACE]))
  }

  function CanonicalizeItems(v: Json, xs: seq<Json>, le: Comparator): Result<seq<Text>, Error>
    requires forall i :: 0 <= i < |xs| ==> xs[i] < v
    decreases v, |xs|
  {
    if xs == [] then Ok([])
    else
      match Canonicalize(xs[0], le)
      case Err(e) => Err(e)
      case Ok(part) =>
        match CanonicalizeItems(v, xs[1..], le)
        case Err(e) => Err(e)
        case Ok(parts) => Ok([part] + parts)
  }

  function CanonicalizeFields(v: Json, fs: seq<Field>, le: Comparator): Result<seq<Text>, Error>
    requires forall i :: 0 <= i < |fs| ==> fs[i].value < v
    decreases v, |fs|
  {
    if fs == [] then Ok([])
    else
      match Canonicalize(fs[0].value, le)
      case Err(e) => Err(e)
      case Ok(part) =>
        match CanonicalizeFields(v, fs[1..], le)
        case Err(e) => Err(e)
        case Ok(parts) => Ok([Quote(fs[0].key) + [COLON] + part] + parts)
  }

  // The text factors through a normal form: sort every object, then print as is.

  ghost function Normal(v: Json, le: Comparator): Json {
    match v
    case Arr(items) => Arr(NormalItems(v, items, le))
    case Obj(fields) => Obj(NormalFields(v, SortedFields(fields, le), le))
    case _ => v
  }

  ghost function NormalItems(v: Json, xs: seq<Json>, le: Comparator): (r: seq<Json>)
    requires forall i :: 0 <= i < |xs| ==> xs[i] < v
    ensures |r| == |xs| && forall i :: 0 <= i < |xs| ==> r[i] == Normal(xs[i], le)
    decreases v, |xs|
  {
    if xs == [] then [] else [Normal(xs[0], le)] + NormalItems(v, xs[1..], le)
  }

  ghost function NormalFields(v: Json, fs: seq<Field>, le: Comparator): (r: seq<Field>)
    requires forall i :: 0 <= i < |fs| ==> fs[i].value < v
    ensures |r| == |fs| && forall i :: 0 <= i < |fs| ==> r[i] == Field(fs[i].key, Normal(fs[i].value, le))
    decreases v, |fs|
  {
    if fs == [] then [] else [Field(fs[0].key, Normal(fs[0].value, le))] + NormalFields(v, fs[1..], le)
  }

  ghost function Render(v: Json): Text {
    match v
    case Undefined => []
    case Null => Ascii("null")
    case Bool(b) => if b then Ascii("true") else Ascii("false")
    case Num(n) => if n.NonFinite? then [] else n.rendering
    case Str(s) => Quote(s)
    case Arr(items) => [OPEN_BRACKET] + Join(RenderItems(v, items)) + [CLOSE_BRACKET]
    case Obj(fields) => [OPEN_BRACE] + Join(RenderFields(v, fields)) + [CLOSE_BRACE]
  }

  ghost function RenderItems(v: Json, xs: seq<Json>): (r: seq<Text>)
    requires forall i :: 0 <= i < |xs| ==> xs[i] < v
    ensures |r| == |xs| && forall i :: 0 <= i < |xs| ==> r[i] == Render(xs[i])
    decreases v, |xs|
  {
    if xs == [] then [] else [Render(xs[0])] + RenderItems(v, xs[1..])
  }

  ghost function RenderFields(v: Json, fs: seq<Field>): (r: seq<Text>)
    requires forall i :: 0 <= i < |fs| ==> fs[i].value < v
    ensures |r| == |fs| && forall i :: 0 <= i < |fs| ==> r[i] == Quote(fs[i].key) + [COLON] + Render(fs[i].value)
    decreases v, |fs|
  {
    if fs == [] then [] else [Quote(fs[0].key) + [COLON] + Render(fs[0].value)] + RenderFields(v, fs[1..])
  }

  /** The code rejects exactly the values with an undefined or non-finite part, and otherwise prints the normal form. */
  lemma {:induction false} CanonicalizeIsRender(v: Json, le: Comparator)
    ensures Canonicalize(v, le).Ok? <==> Serializable(v)
    ensures Serializable(v) ==> Canonicalize(v, le) == Ok(Render(Normal(v, le)))
    decreases v
  {
    match v {
      case Arr(items) =>
        ItemsAreRendered(v, items, le);
        if Serializable(v) {
          assert CanonicalizeItems(v, items, le).value == RenderItems(Normal(v, le), NormalItems(v, items, le));
        }
      case Obj(fields) =>
        var fs := SortedFields(fields, le);
        FieldsAreRendered(v, fs, le);
        SerializableFields(v, fs);
        if Serializable(v) {
          assert CanonicalizeFields(v, fs, le).value == RenderFields(Normal(v, le), NormalFields(v, fs, le));
        }
      case _ =>
    }
  }

  lemma SerializableFields(v: Json, fs: seq<Field>)
    requires v.Obj? && forall f :: f in fs <==> f in v.fields
    ensures Serializable(v) <==> forall i :: 0 <= i < |fs| ==> Serializable(fs[i].value)
  {
  }

  lemma {:induction false} ItemsAreRendered(v: Json, xs: seq<Json>, le: Comparator)
    requires forall i :: 0 <= i < |xs| ==> xs[i] < v
    ensures var c := CanonicalizeItems(v, xs, le);
            && (c.Ok? <==> forall i :: 0 <= i < |xs| ==> Serializable(xs[i]))
            && (c.Ok? ==> |c.value| == |xs| && forall i :: 0 <= i < |xs| ==> c.value[i] == Render(Normal(xs[i], le)))
    decreases v, |xs|
  {
    if xs != [] {
      hide Render, Normal, Serializable;
      CanonicalizeIsRender(xs[0], le);
      ItemsAreRendered(v, xs[1..], le);
      assert forall i :: 0 < i < |xs| ==> xs[i] == xs[1..][i - 1];
    }
  }

  lemma {:induction false} FieldsAreRendered(v: Json, fs: seq<Field>, le: Comparator)
    requires forall i :: 0 <= i < |fs| ==> fs[i].value < v
    ensures var c := CanonicalizeFields(v, fs, le);
            && (c.Ok? <==> forall i :: 0 <= i < |fs| ==> Serializable(fs[i].value))
            && (c.Ok? ==> |c.value| == |fs| && forall i :: 0 <= i < |fs| ==>
                          c.value[i] == Quote(fs[i].key) + [COLON] + Render(Normal(fs[i].value, le)))
    decreases v, |fs|
  {
    if fs != [] {
      hide Render, Normal, Serializable, Quote;
      CanonicalizeIsRender(fs[0].value, le);
      FieldsAreRendered(v, fs[1..], le);
      assert forall i :: 0 < i < |fs| ==> fs[i] == fs[1..][i - 1];
    }
  }

  lemma {:induction false} NormalSerializable(v: Json, le: Comparator)
    requires Serializable(v)
    ensures Serializable(Normal(v, le))
  {
    match v {
      case Arr(items) =>
        forall x | x in NormalItems(v, items, le) ensures Serializable(x) {
          var i :| 0 <= i < |items| && x == Normal(items[i], le);
          NormalSerializable(items[i], le);
        }
      case Obj(fields) =>
        var fs := SortedFields(fields, le);
        forall f | f in NormalFields(v, fs, le) ensures Serializable(f.value) {
          var i :| 0 <= i < |fs| && f == Field(fs[i].key, Normal(fs[i].value, le));
          assert fs[i] in fields;
          NormalSerializable(fs[i].value, le);
        }
      case _ =>
    }
  }

  // Printing a tree loses nothing, even with more text behind it.

  ghost predicate Delimited(r: Text) {
    r == [] || !IsNumberUnit(r[0])
  }

  lemma {:induction false} NumberReads(a: Text, r: Text)
    requires (forall i :: 0 <= i < |a| ==> IsNumberUnit(a[i])) && Delimited(r)
    ensures NumberEnd(a + r) == |a|
  {
    if a == [] {
      assert a + r == r;
    } else {
      NumberReads(a[1..], r);
      assert (a + r)[1..] == a[1..] + r;
    }
  }

  /** The first code unit tells the kind of value. */
  lemma RenderHead(v: Json)
    requires Serializable(v)
    ensures Render(v) != []
    ensures match v
            case Null => Render(v)[0] == 110
            case Bool(b) => Render(v)[0] == if b then 116 else 102
            case Num(_) => IsNumberUnit(Render(v)[0])
            case Str(_) => Render(v)[0] == QUOTE
            case Arr(_) => Render(v)[0] == OPEN_BRACKET
            case Obj(_) => Render(v)[0] == OPEN_BRACE
            case Undefined => false
  {
  }

  /** What follows a part inside `Join(parts) + [close]`. */
  ghost function AfterPart(parts: seq<Text>, close: u16, r: Text): Text
    requires parts != []
  {
    if |parts| == 1 then [close] + r else [COMMA] + (Join(parts[1..]) + [close] + r)
  }

  lemma JoinUnfold(parts: seq<Text>, close: u16, r: Text)
    ensures parts == [] ==> Join(parts) + [close] + r == [close] + r
    ensures parts != [] ==> Join(parts) + [close] + r == parts[0] + AfterPart(parts, close, r)
  {
    if |parts| == 1 {
      Regroup(parts[0], [], [close], r);
    } else if |parts| > 1 {
      Regroup(parts[0], [COMMA] + Join(parts[1..]), [close], r);
      hide Join;
      assert [COMMA] + Join(parts[1..]) + [close] + r == [COMMA] + (Join(parts[1..]) + [close] + r);
    }
  }

  lemma Regroup(a: Text, b: Text, c: Text, d: Text)
    ensures a + b + c + d == a + (b + c + d)
    ensures b == [] ==> a + c + d == a + (c + d)
    ensures forall x: Text, y: Text :: b == x + y ==> a + x + y == a + b
  {
  }

  lemma RenderUnfold(v: Json, r: Text)
    ensures v.Arr? ==> Render(v) + r == [OPEN_BRACKET] + (Join(RenderItems(v, v.items)) + [CLOSE_BRACKET] + r)
    ensures v.Obj? ==> Render(v) + r == [OPEN_BRACE] + (Join(RenderFields(v, v.fields)) + [CLOSE_BRACE] + r)
    ensures v.Str? ==> Render(v) == Quote(v.s)
    ensures v.Num? && v.n.Finite? ==> Render(v) == v.n.rendering
    ensures v.Null? ==> |Render(v)| == 4
    ensures v.Bool? ==> |Render(v)| == if v.b then 4 else 5
  {
    hide Quote, Join;
  }

  lemma WordReads(word: Text, r: Text)
    ensures StartsWith(word + r, word) && (word + r)[|word|..] == r
    ensures forall other: Text :: 0 < |other| <= |word| && other[0] != word[0] ==> !StartsWith(word + r, other)
  {
    assert (word + r)[..|word|] == word;
    forall other: Text | 0 < |other| <= |word| && other[0] != word[0] ensures !StartsWith(word + r, other) {
      assert (word + r)[..|other|][0] == word[0];
    }
  }

  lemma WordValueReads(v: Json, word: Text, r: Text)
    requires (v.Null? && word == Ascii("null")) || (v == Bool(true) && word == Ascii("true"))
             || (v == Bool(false) && word == Ascii("false"))
    ensures ReadValue(word + r) == Some((v, r))
  {
    var t := word + r;
    WordReads(word, r);
    assert word[0] == if v.Null? then 110 else if v.b then 116 else 102;
    assert v.Bool? ==> !StartsWith(t, Ascii("null"));
    assert v == Bool(false) ==> !StartsWith(t, Ascii("true"));
    hide StartsWith, ReadString, ReadItems, ReadFields;
    assert t[0] == word[0];
  }

  lemma NumberValueReads(n: NumberText, r: Text)
    requires Delimited(r)
    ensures ReadValue(n + r) == Some((Num(Finite(n)), r))
  {
    NumberReads(n, r);
    hide NumberEnd;
    assert (n + r)[..|n|] == n && (n + r)[|n|..] == r && (n + r)[0] == n[0];
  }

  lemma StringValueReads(s: Text, r: Text)
    ensures ReadValue(Quote(s) + r) == Some((Str(s), r))
  {
    QuoteReads(s, r);
    hide Escape, ReadString;
  }

  /** A reader takes a printed value, whatever follows it, for that value; only a number needs a delimiter. */
  lemma {:induction false} RenderReads(v: Json, r: Text)
    requires Serializable(v) && (v.Num? ==> Delimited(r))
    ensures ReadValue(Render(v) + r) == Some((v, r))
    decreases v
  {
    match v {
      case Null =>
        WordValueReads(v, Ascii("null"), r);
      case Bool(b) =>
        WordValueReads(v, if b then Ascii("true") else Ascii("false"), r);
      case Num(n) =>
        NumberValueReads(n.rendering, r);
      case Str(s) =>
        StringValueReads(s, r);
      case Arr(items) =>
        RenderUnfold(v, r);
        hide Render, Join;
        ArrayReads(v, r);
      case Obj(fields) =>
        RenderUnfold(v, r);
        hide Render, Join;
        ObjectReads(v, r);
    }
  }

  lemma ArrayReads(v: Json, r: Text)
    requires v.Arr? && Serializable(v)
    ensures ReadValue([OPEN_BRACKET] + (Join(RenderItems(v, v.items)) + [CLOSE_BRACKET] + r)) == Some((v, r))
    decreases v, |v.items| + 2
  {
    var items := v.items;
    var body := Join(RenderItems(v, items)) + [CLOSE_BRACKET] + r;
    JoinUnfold(RenderItems(v, items), CLOSE_BRACKET, r);
    hide Render, Join, ReadItems;
    assert ([OPEN_BRACKET] + body)[1..] == body;
    if items == [] {
      assert ([OPEN_BRACKET] + body)[2..] == r;
    } else {
      assert items[0] in items;
      RenderHead(items[0]);
      ItemsRead(v, items, r);
    }
  }

  lemma ObjectReads(v: Json, r: Text)
    requires v.Obj? && Serializable(v)
    ensures ReadValue([OPEN_BRACE] + (Join(RenderFields(v, v.fields)) + [CLOSE_BRACE] + r)) == Some((v, r))
    decreases v, |v.fields| + 2
  {
    var fields := v.fields;
    var body := Join(RenderFields(v, fields)) + [CLOSE_BRACE] + r;
    JoinUnfold(RenderFields(v, fields), CLOSE_BRACE, r);
    hide Render, Join, ReadFields, Quote;
    assert ([OPEN_BRACE] + body)[1..] == body;
    if fields == [] {
      assert ([OPEN_BRACE] + body)[2..] == r;
    } else {
      FieldUnfold(fields[0].key, Render(fields[0].value), AfterPart(RenderFields(v, fields), CLOSE_BRACE, r));
      FieldsRead(v, fields, r);
    }
  }

  lemma {:induction false} ItemsRead(v: Json, xs: seq<Json>, r: Text)
    requires xs != [] && forall i :: 0 <= i < |xs| ==> xs[i] < v && Serializable(xs[i])
    ensures ReadItems(Join(RenderItems(v, xs)) + [CLOSE_BRACKET] + r) == Some((xs, r))
    decreases v, |xs| + 1
  {
    var parts := RenderItems(v, xs);
    var after := AfterPart(parts, CLOSE_BRACKET, r);
    JoinUnfold(parts, CLOSE_BRACKET, r);
    hide Render, Join, Serializable, ReadValue;
    assert after[0] == if |xs| == 1 then CLOSE_BRACKET else COMMA;
    RenderReads(xs[0], after);
    var text := Join(parts) + [CLOSE_BRACKET] + r;
    assert ReadValue(text) == Some((xs[0], after));
    assert xs == [xs[0]] + xs[1..];
    if |xs| == 1 {
      assert after[1..] == r && xs == [xs[0]];
    } else {
      assert parts[1..] == RenderItems(v, xs[1..]);
      assert after[1..] == Join(parts[1..]) + [CLOSE_BRACKET] + r;
      ItemsRead(v, xs[1..], r);
    }
  }

  lemma FieldUnfold(key: Text, value: Text, rest: Text)
    ensures Quote(key) + [COLON] + value + rest == Quote(key) + ([COLON] + (value + rest))
    ensures (Quote(key) + [COLON] + value + rest)[0] == QUOTE
  {
    hide Escape;
  }

  lemma FieldStep(text: Text, key: Text, v: Json, behindKey: Text, after: Text)
    requires text != [] && text[0] == QUOTE && ReadString(text[1..]) == Some((key, behindKey))
    requires behindKey != [] && behindKey[0] == COLON && ReadValue(behindKey[1..]) == Some((v, after))
    requires after != []
    ensures after[0] == CLOSE_BRACE ==> ReadFields(text) == Some(([Field(key, v)], after[1..]))
    ensures after[0] == COMMA && ReadFields(after[1..]).Some? ==>
              var (fields, end) := ReadFields(after[1..]).value;
              ReadFields(text) == Some(([Field(key, v)] + fields, end))
  {
    hide ReadString, ReadValue;
  }

  lemma {:induction false} FieldsRead(v: Json, fs: seq<Field>, r: Text)
    requires fs != [] && forall i :: 0 <= i < |fs| ==> fs[i].value < v && Serializable(fs[i].value)
    ensures ReadFields(Join(RenderFields(v, fs)) + [CLOSE_BRACE] + r) == Some((fs, r))
    decreases v, |fs| + 1
  {
    var parts := RenderFields(v, fs);
    var after := AfterPart(parts, CLOSE_BRACE, r);
    var text := Join(parts) + [CLOSE_BRACE] + r;
    JoinUnfold(parts, CLOSE_BRACE, r);
    hide Render, Join, Serializable, ReadValue, Quote, ReadString, ReadFields;
    var value := Render(fs[0].value) + after;
    FieldUnfold(fs[0].key, Render(fs[0].value), after);
    assert text == Quote(fs[0].key) + ([COLON] + value);
    QuoteReads(fs[0].key, [COLON] + value);
    assert ([COLON] + value)[1..] == value;
    assert after[0] == if |fs| == 1 then CLOSE_BRACE else COMMA;
    RenderReads(fs[0].value, after);
    assert text[0] == QUOTE && ReadString(text[1..]) == Some((fs[0].key, [COLON] + value));
    FieldStep(text, fs[0].key, fs[0].value, [COLON] + value, after);
    assert fs == [fs[0]] + fs[1..] && fs[0] == Field(fs[0].key, fs[0].value);
    if |fs| == 1 {
      assert after[1..] == r && fs == [fs[0]];
    } else {
      assert parts[1..] == RenderFields(v, fs[1..]);
      assert after[1..] == Join(parts[1..]) + [CLOSE_BRACE] + r;
      FieldsRead(v, fs[1..], r);
    }
  }

  /** So a printed value can be cut off any text that continues it in one way only. */
  lemma RenderPrefix(a: Json, b: Json, r: Text, s: Text)
    requires Serializable(a) && Serializable(b) && Render(a) + r == Render(b) + s
    requires a.Num? || b.Num? ==> Delimited(r) && Delimited(s)
    ensures a == b && r == s
  {
    hide Render, ReadValue;
    RenderReads(a, r);
    RenderReads(b, s);
  }

  // Forgetting key order.

  /** The comparator never calls two different keys equal. */
  ghost predicate Separates(le: Comparator) {
    forall a: Text, b: Text :: le(a, b) && le(b, a) ==> a == b
  }

  lemma ByKeyPreorder(le: Comparator)
    requires TotalPreorder(le)
    ensures TotalPreorder(ByKey(le))
  {
    var order := ByKey(le);
    forall f: Field, g: Field ensures order(f, g) || order(g, f) {
      assert le(f.key, g.key) || le(g.key, f.key);
    }
    forall f: Field, g: Field, h: Field | order(f, g) && order(g, h) ensures order(f, h) {
      assert le(f.key, g.key) && le(g.key, h.key);
    }
  }

  lemma SortedKeys(fs: seq<Field>, le: Comparator)
    requires TotalPreorder(le) && NoRepeats(Keys(fs))
    ensures var r := SortedFields(fs, le); NoRepeats(Keys(r)) && Sorted(Keys(r), le)
  {
    var r := SortedFields(fs, le);
    SortPermutes(fs, ByKey(le));
    ByKeyPreorder(le);
    SortSorts(fs, ByKey(le));
    hide TotalPreorder, Sort;
    forall i, j | 0 <= i < j < |fs| ensures fs[i] != fs[j] {
      assert Keys(fs)[i] != Keys(fs)[j];
    }
    RearrangedNoRepeats(fs, r);
    forall i, j | 0 <= i < j < |r| ensures r[i].key != r[j].key {
      KeyOwner(fs, r[i], r[j]);
    }
    forall i, j | 0 <= i < j < |r| ensures le(r[i].key, r[j].key) {
      assert ByKey(le)(r[i], r[j]);
    }
  }

  lemma KeyOwner(fs: seq<Field>, f: Field, g: Field)
    requires NoRepeats(Keys(fs)) && f in fs && g in fs
    ensures f.key == g.key ==> f == g
  {
    var p :| 0 <= p < |fs| && fs[p] == f;
    var q :| 0 <= q < |fs| && fs[q] == g;
    assert Keys(fs)[p] == f.key && Keys(fs)[q] == g.key;
  }

  lemma SubEntries(v: Json, fs: seq<Field>, w: Json, gs: seq<Field>, k: Text)
    requires forall i :: 0 <= i < |fs| ==> fs[i].value < v
    requires forall i :: 0 <= i < |gs| ==> gs[i].value < w
    requires NoRepeats(Keys(fs)) && NoRepeats(Keys(gs)) && forall f :: f in fs ==> f in gs
    ensures k in MeaningOfFields(v, fs) ==>
              k in MeaningOfFields(w, gs) && MeaningOfFields(v, fs)[k] == MeaningOfFields(w, gs)[k]
  {
    hide MeaningOf, MeaningOfFields;
    if k in Keys(fs) {
      var i :| 0 <= i < |fs| && Keys(fs)[i] == k;
      assert fs[i] in gs;
      var j :| 0 <= j < |gs| && gs[j] == fs[i];
      assert Keys(gs)[j] == k;
    }
  }

  /** The fields' meaning as a map does not depend on their order. */
  lemma SameEntries(v: Json, fs: seq<Field>, w: Json, gs: seq<Field>)
    requires forall i :: 0 <= i < |fs| ==> fs[i].value < v
    requires forall i :: 0 <= i < |gs| ==> gs[i].value < w
    requires NoRepeats(Keys(fs)) && NoRepeats(Keys(gs)) && forall f :: f in fs <==> f in gs
    ensures MeaningOfFields(v, fs) == MeaningOfFields(w, gs)
  {
    hide MeaningOf, MeaningOfFields;
    var m, n := MeaningOfFields(v, fs), MeaningOfFields(w, gs);
    forall k ensures (k in m <==> k in n) && (k in m ==> m[k] == n[k]) {
      SubEntries(v, fs, w, gs, k);
      SubEntries(w, gs, v, fs, k);
    }
  }

  lemma {:induction false} NormalMeaning(v: Json, le: Comparator)
    requires TotalPreorder(le) && Distinct(v)
    ensures MeaningOf(Normal(v, le)) == MeaningOf(v)
  {
    match v {
      case Arr(items) =>
        var ns := NormalItems(v, items, le);
        forall i | 0 <= i < |items| ensures MeaningOf(ns[i]) == MeaningOf(items[i]) {
          NormalMeaning(items[i], le);
        }
        assert MeaningOfItems(Arr(ns), ns) == MeaningOfItems(v, items);
      case Obj(fields) =>
        var fs := SortedFields(fields, le);
        var ns := NormalFields(v, fs, le);
        SortedKeys(fields, le);
        SameEntries(v, fields, v, fs);
        forall i | 0 <= i < |fs| ensures MeaningOf(ns[i].value) == MeaningOf(fs[i].value) {
          assert fs[i] in fields;
          NormalMeaning(fs[i].value, le);
        }
        assert Keys(ns) == Keys(fs);
        SameMaps(MeaningOfFields(Obj(ns), ns), MeaningOfFields(v, fs), Keys(fs));
      case _ =>
    }
  }

  lemma SameMaps(m: map<Text, Meaning>, n: map<Text, Meaning>, ks: seq<Text>)
    requires forall k :: k in m <==> k in ks
    requires forall k :: k in n <==> k in ks
    requires forall i :: 0 <= i < |ks| ==> m[ks[i]] == n[ks[i]]
    ensures m == n
  {
    forall k | k in m ensures m[k] == n[k] {
      var i :| 0 <= i < |ks| && ks[i] == k;
    }
  }

  /** Every object in the value lists its keys in the comparator's order. */
  ghost predicate InOrder(v: Json, le: Comparator) {
    match v
    case Arr(items) => forall x | x in items :: InOrder(x, le)
    case Obj(fields) => Sorted(Keys(fields), le) && forall f | f in fields :: InOrder(f.value, le)
    case _ => true
  }

  lemma {:induction false} NormalInOrder(v: Json, le: Comparator)
    requires TotalPreorder(le) && Distinct(v)
    ensures InOrder(Normal(v, le), le)
  {
    match v {
      case Arr(items) =>
        var ns := NormalItems(v, items, le);
        forall x | x in ns ensures InOrder(x, le) {
          var i :| 0 <= i < |items| && x == Normal(items[i], le);
          NormalInOrder(items[i], le);
        }
      case Obj(fields) =>
        var fs := SortedFields(fields, le);
        SortedKeys(fields, le);
        hide Normal, TotalPreorder, NormalFields, Sorted;
        forall f | f in fs ensures InOrder(Normal(f.value, le), le) {
          assert f in fields;
          NormalInOrder(f.value, le);
        }
        NormalOfObject(v, le);
        FieldsInOrder(v, fs, le);
      case _ =>
    }
  }

  lemma FieldsInOrder(v: Json, fs: seq<Field>, le: Comparator)
    requires forall i :: 0 <= i < |fs| ==> fs[i].value < v
    requires Sorted(Keys(fs), le) && forall f :: f in fs ==> InOrder(Normal(f.value, le), le)
    ensures InOrder(Obj(NormalFields(v, fs, le)), le)
  {
    var ns := NormalFields(v, fs, le);
    hide Normal, Sorted, NormalFields;
    assert Keys(ns) == Keys(fs);
    forall f | f in ns ensures InOrder(f.value, le) {
      var i :| 0 <= i < |fs| && f == Field(fs[i].key, Normal(fs[i].value, le));
      assert fs[i] in fs;
    }
  }

  lemma NormalOfObject(v: Json, le: Comparator)
    requires v.Obj?
    ensures Normal(v, le) == Obj(NormalFields(v, SortedFields(v.fields, le), le))
  {
  }

  /**
   * A reader of RFC 8259 takes the canonical text, whatever follows it, for a value that means the same and has all keys
   * in the comparator's order; only behind a number must a delimiter follow.
   */
  lemma CanonicalReads(v: Json, le: Comparator, r: Text)
    requires TotalPreorder(le) && Distinct(v) && Canonicalize(v, le).Ok? && (v.Num? ==> Delimited(r))
    ensures var read := ReadValue(Canonicalize(v, le).value + r);
            && read.Some? && read.value.1 == r
            && MeaningOf(read.value.0) == MeaningOf(v) && InOrder(read.value.0, le)
  {
    hide ReadValue, MeaningOf, InOrder, Canonicalize, Render;
    CanonicalizeIsRender(v, le);
    NormalSerializable(v, le);
    RenderReads(Normal(v, le), r);
    NormalMeaning(v, le);
    NormalInOrder(v, le);
  }

  /** `p` is the value or occurs inside it. */
  ghost predicate HasPart(v: Json, p: Json) {
    || v == p
    || match v
       case Arr(items) => exists x | x in items :: HasPart(x, p)
       case Obj(fields) => exists f | f in fields :: HasPart(f.value, p)
       case _ => false
  }

  ghost function Offending(e: Error): Json {
    match e
    case NonFiniteNumber => Num(NonFinite)
    case UndefinedValue => Undefined
  }

  /** What the code throws names something the value contains. */
  lemma {:induction false} ErrorNamesPart(v: Json, le: Comparator)
    ensures Canonicalize(v, le).Err? ==> HasPart(v, Offending(Canonicalize(v, le).error))
    decreases v
  {
    match v {
      case Arr(items) =>
        ItemErrorNamesPart(v, items, le);
      case Obj(fields) =>
        FieldErrorNamesPart(v, SortedFields(fields, le), le);
      case _ =>
    }
  }

  lemma {:induction false} ItemErrorNamesPart(v: Json, xs: seq<Json>, le: Comparator)
    requires forall i :: 0 <= i < |xs| ==> xs[i] < v
    ensures var c := CanonicalizeItems(v, xs, le); c.Err? ==> exists x | x in xs :: HasPart(x, Offending(c.error))
    decreases v, |xs|
  {
    if xs != [] {
      hide HasPart, Offending;
      ErrorNamesPart(xs[0], le);
      ItemErrorNamesPart(v, xs[1..], le);
    }
  }

  lemma {:induction false} FieldErrorNamesPart(v: Json, fs: seq<Field>, le: Comparator)
    requires forall i :: 0 <= i < |fs| ==> fs[i].value < v
    ensures var c := CanonicalizeFields(v, fs, le); c.Err? ==> exists f | f in fs :: HasPart(f.value, Offending(c.error))
    decreases v, |fs|
  {
    if fs != [] {
      hide HasPart, Offending;
      ErrorNamesPart(fs[0].value, le);
      FieldErrorNamesPart(v, fs[1..], le);
    }
  }

  /** Equal texts come only from values of equal meaning, whatever the comparator. */
  lemma CanonicalInjective(v: Json, w: Json, le: Comparator)
    requires TotalPreorder(le) && Distinct(v) && Distinct(w)
    requires Canonicalize(v, le).Ok? && Canonicalize(v, le) == Canonicalize(w, le)
    ensures MeaningOf(v) == MeaningOf(w) && Normal(v, le) == Normal(w, le)
  {
    CanonicalizeIsRender(v, le);
    CanonicalizeIsRender(w, le);
    NormalSerializable(v, le);
    NormalSerializable(w, le);
    RenderPrefix(Normal(v, le), Normal(w, le), [], []);
    NormalMeaning(v, le);
    NormalMeaning(w, le);
  }

  lemma {:induction false} SameMeaningSameNormal(v: Json, w: Json, le: Comparator)
    requires TotalPreorder(le) && Separates(le) && Distinct(v) && Distinct(w) && MeaningOf(v) == MeaningOf(w)
    ensures Normal(v, le) == Normal(w, le)
    decreases v
  {
    match v {
      case Arr(items) =>
        forall i | 0 <= i < |items| ensures Normal(items[i], le) == Normal(w.items[i], le) {
          assert MeaningOfItems(v, items)[i] == MeaningOfItems(w, w.items)[i];
          SameMeaningSameNormal(items[i], w.items[i], le);
        }
        assert NormalItems(v, items, le) == NormalItems(w, w.items, le);
      case Obj(fields) =>
        var fs, gs := SortedFields(fields, le), SortedFields(w.fields, le);
        SameMeaningSameFields(v, w, le);
        hide MeaningOf, SortedFields;
        forall i | 0 <= i < |fs| ensures Normal(fs[i].value, le) == Normal(gs[i].value, le) {
          SameMeaningSameNormal(fs[i].value, gs[i].value, le);
        }
        assert NormalFields(v, fs, le) == NormalFields(w, gs, le);
      case _ =>
    }
  }

  lemma ObjectMeaning(v: Json)
    ensures v.Obj? <==> MeaningOf(v).MObj?
    ensures v.Obj? ==> MeaningOf(v) == MObj(MeaningOfFields(v, v.fields))
    ensures v.Obj? && Distinct(v) ==> NoRepeats(Keys(v.fields)) && forall f :: f in v.fields ==> Distinct(f.value)
  {
  }

  lemma SameMeaningSameFields(v: Json, w: Json, le: Comparator)
    requires TotalPreorder(le) && Separates(le) && Distinct(v) && Distinct(w) && v.Obj? && MeaningOf(v) == MeaningOf(w)
    ensures w.Obj?
    ensures var fs, gs := SortedFields(v.fields, le), SortedFields(w.fields, le);
            && |fs| == |gs|
            && forall i :: 0 <= i < |fs| ==>
                 && fs[i].key == gs[i].key && MeaningOf(fs[i].value) == MeaningOf(gs[i].value)
                 && Distinct(fs[i].value) && Distinct(gs[i].value) && fs[i].value < v
  {
    ObjectMeaning(v);
    ObjectMeaning(w);
    hide MeaningOf, MeaningOfFields, SortedFields, TotalPreorder, Separates, Sorted;
    var fs, gs := SortedFields(v.fields, le), SortedFields(w.fields, le);
    SortedKeys(v.fields, le);
    SortedKeys(w.fields, le);
    SameEntries(v, v.fields, v, fs);
    SameEntries(w, w.fields, w, gs);
    var m := MeaningOfFields(v, fs);
    assert m == MeaningOfFields(w, gs);
    SameKeys(fs, gs, m, le);
    forall i | 0 <= i < |fs|
      ensures fs[i].key == gs[i].key && MeaningOf(fs[i].value) == MeaningOf(gs[i].value)
    {
      assert Keys(fs)[i] == Keys(gs)[i];
      assert m[fs[i].key] == MeaningOf(fs[i].value) && m[gs[i].key] == MeaningOf(gs[i].value);
    }
  }

  lemma SameKeys(fs: seq<Field>, gs: seq<Field>, m: map<Text, Meaning>, le: Comparator)
    requires TotalPreorder(le) && Separates(le) && NoRepeats(Keys(fs)) && NoRepeats(Keys(gs))
    requires Sorted(Keys(fs), le) && Sorted(Keys(gs), le)
    requires forall k :: k in m <==> k in Keys(fs)
    requires forall k :: k in m <==> k in Keys(gs)
    ensures Keys(fs) == Keys(gs) && |fs| == |gs|
  {
    SameElements(Keys(fs), Keys(gs));
    SortedUnique(Keys(fs), Keys(gs), le);
  }

  /** With a separating comparator the text is a complete invariant of the value's meaning. */
  lemma CanonicalIffSameMeaning(v: Json, w: Json, le: Comparator)
    requires TotalPreorder(le) && Separates(le)
    requires Distinct(v) && Distinct(w) && Serializable(v) && Serializable(w)
    ensures Canonicalize(v, le) == Canonicalize(w, le) <==> MeaningOf(v) == MeaningOf(w)
  {
    CanonicalizeIsRender(v, le);
    CanonicalizeIsRender(w, le);
    if MeaningOf(v) == MeaningOf(w) {
      SameMeaningSameNormal(v, w, le);
    } else if Canonicalize(v, le) == Canonicalize(w, le) {
      CanonicalInjective(v, w, le);
    }
  }

  ghost predicate OrderIndependent(le: Comparator) {
    forall v, w ::
      Distinct(v) && Distinct(w) && Serializable(v) && Serializable(w) && MeaningOf(v) == MeaningOf(w)
      ==> Canonicalize(v, le) == Canonicalize(w, le)
  }

  /** Two fields the comparator calls equal are printed in insertion order. */
  lemma TwoFieldNormal(f: Field, g: Field, le: Comparator)
    requires TotalPreorder(le) && le(f.key, g.key)
    ensures Normal(Obj([f, g]), le).fields[0].key == f.key
  {
    assert Sorted([f, g], ByKey(le));
    SortOfSorted([f, g], ByKey(le));
  }

  lemma TwoFieldObject(f: Field, g: Field)
    requires f.key != g.key && f.value == g.value == Null
    ensures Distinct(Obj([f, g])) && Serializable(Obj([f, g]))
    ensures NoRepeats(Keys([f, g]))
    ensures MeaningOf(Obj([f, g])) == MObj(MeaningOfFields(Obj([f, g]), [f, g]))
  {
  }

  lemma TwoFieldMeaning(f: Field, g: Field)
    requires f.key != g.key && f.value == g.value == Null
    ensures MeaningOf(Obj([f, g])) == MeaningOf(Obj([g, f]))
  {
    TwoFieldObject(f, g);
    TwoFieldObject(g, f);
    hide MeaningOf, MeaningOfFields;
    SameEntries(Obj([f, g]), [f, g], Obj([g, f]), [g, f]);
  }

  lemma TwoFieldOrders(a: Text, b: Text, le: Comparator)
    requires TotalPreorder(le) && a != b && le(a, b) && le(b, a)
    ensures !OrderIndependent(le)
  {
    hide MeaningOf, Normal, Canonicalize, TotalPreorder, Distinct, Serializable;
    var f, g := Field(a, Null), Field(b, Null);
    var v, w := Obj([f, g]), Obj([g, f]);
    TwoFieldObject(f, g);
    TwoFieldObject(g, f);
    TwoFieldMeaning(f, g);
    TwoFieldNormal(f, g, le);
    TwoFieldNormal(g, f, le);
    CanonicalizeIsRender(v, le);
    if Canonicalize(v, le) == Canonicalize(w, le) {
      CanonicalInjective(v, w, le);
    }
  }

  /** Insertion order never shows in the text exactly when the comparator separates distinct keys. */
  lemma OrderIndependentIff(le: Comparator)
    requires TotalPreorder(le)
    ensures OrderIndependent(le) <==> Separates(le)
  {
    if Separates(le) {
      forall v, w | Distinct(v) && Distinct(w) && Serializable(v) && Serializable(w) && MeaningOf(v) == MeaningOf(w)
        ensures Canonicalize(v, le) == Canonicalize(w, le)
      {
        CanonicalIffSameMeaning(v, w, le);
      }
    } else {
      var a: Text, b: Text :| le(a, b) && le(b, a) && a != b;
      TwoFieldOrders(a, b, le);
    }
  }

  // The text is well-formed UTF-16, so its UTF-8 octets determine it.

  lemma {:induction false} JoinWellFormed(parts: seq<Text>)
    requires forall i :: 0 <= i < |parts| ==> WellFormed(parts[i])
    ensures WellFormed(Join(parts))
  {
    if |parts| > 1 {
      PlainIsWellFormed([COMMA]);
      JoinWellFormed(parts[1..]);
      WellFormedConcat(parts[0], [COMMA]);
      WellFormedConcat(parts[0] + [COMMA], Join(parts[1..]));
    }
  }

  lemma BracketsWellFormed(open: u16, t: Text, close: u16)
    requires WellFormed(t) && !IsSurrogate(open) && !IsSurrogate(close)
    ensures WellFormed([open] + t + [close])
  {
    PlainIsWellFormed([open]);
    PlainIsWellFormed([close]);
    WellFormedConcat([open], t);
    WellFormedConcat([open] + t, [close]);
  }

  lemma {:induction false} RenderWellFormed(v: Json)
    requires Serializable(v)
    ensures WellFormed(Render(v))
  {
    hide WellFormed;
    match v {
      case Str(s) =>
        QuoteWellFormed(s);
      case Arr(items) =>
        var parts := RenderItems(v, items);
        forall i | 0 <= i < |items| ensures WellFormed(parts[i]) {
          RenderWellFormed(items[i]);
        }
        JoinWellFormed(parts);
        BracketsWellFormed(OPEN_BRACKET, Join(parts), CLOSE_BRACKET);
      case Obj(fields) =>
        var parts := RenderFields(v, fields);
        forall i | 0 <= i < |fields| ensures WellFormed(parts[i]) {
          var f := fields[i];
          RenderWellFormed(f.value);
          QuoteWellFormed(f.key);
          PlainIsWellFormed([COLON]);
          WellFormedConcat(Quote(f.key), [COLON]);
          WellFormedConcat(Quote(f.key) + [COLON], Render(f.value));
        }
        JoinWellFormed(parts);
        BracketsWellFormed(OPEN_BRACE, Join(parts), CLOSE_BRACE);
      case _ =>
        PlainIsWellFormed(Render(v));
    }
  }

  lemma CanonicalWellFormed(v: Json, le: Comparator)
    requires Canonicalize(v, le).Ok?
    ensures WellFormed(Canonicalize(v, le).value)
  {
    CanonicalizeIsRender(v, le);
    NormalSerializable(v, le);
    RenderWellFormed(Normal(v, le));
  }

  /** Canonical objects form a prefix code: whatever follows one, its end can be found again. */
  lemma ObjectTextPrefix(v: Json, w: Json, le: Comparator, r: Text, s: Text)
    requires v.Obj? && w.Obj? && Canonicalize(v, le).Ok? && Canonicalize(w, le).Ok?
    requires Canonicalize(v, le).value + r == Canonicalize(w, le).value + s
    ensures Canonicalize(v, le) == Canonicalize(w, le) && r == s
  {
    CanonicalizeIsRender(v, le);
    CanonicalizeIsRender(w, le);
    NormalSerializable(v, le);
    NormalSerializable(w, le);
    RenderPrefix(Normal(v, le), Normal(w, le), r, s);
  }
}
