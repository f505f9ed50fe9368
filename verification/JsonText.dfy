/** A reader of JSON texts without white space, after RFC 8259, to hold printed texts against. */
module JsonText {
  import opened Prelude
  import opened JsonValue

  function HexValue(c: u16): (r: Option<nat>)
    ensures r.Some? ==> r.value < 16
  {
    if 48 <= c <= 57 then Some(c - 48)
    else if 65 <= c <= 70 then Some(c - 55)
    else if 97 <= c <= 102 then Some(c - 87)
    else None
  }

  /** Section 7: what follows a backslash, and the code unit it stands for. */
  function ReadEscape(t: Text): (r: Option<(u16, Text)>)
    ensures r.Some? ==> |r.value.1| < |t|
  {
    if t == [] then None
    else if t[0] == '\"' as int then Some(('\"' as int, t[1..]))
    else if t[0] == '\\' as int then Some(('\\' as int, t[1..]))
    else if t[0] == '/' as int then Some(('/' as int, t[1..]))
    else if t[0] == 'b' as int then Some((8, t[1..]))
    else if t[0] == 'f' as int then Some((12, t[1..]))
    else if t[0] == 'n' as int then Some((10, t[1..]))
    else if t[0] == 'r' as int then Some((13, t[1..]))
    else if t[0] == 't' as int then Some((9, t[1..]))
    else if t[0] == 'u' as int && |t| >= 5 then
      var d1, d2, d3, d4 := HexValue(t[1]), HexValue(t[2]), HexValue(t[3]), HexValue(t[4]);
      if d1.Some? && d2.Some? && d3.Some? && d4.Some? then
        Some((((d1.value * 16 + d2.value) * 16 + d3.value) * 16 + d4.value, t[5..]))
      else None
    else None
  }

  /** Section 7: the rest of a string literal after its opening quotation mark. */
  function ReadString(t: Text): (r: Option<(Text, Text)>)
    ensures r.Some? ==> |r.value.1| < |t|
    decreases |t|
  {
    if t == [] then None
    else if t[0] == '\"' as int then Some(([], t[1..]))
    else if t[0] == '\\' as int then
      match ReadEscape(t[1..])
      case None => None
      case Some((c, rest)) =>
        (match ReadString(rest)
         case None => None
         case Some((s, after)) => Some(([c] + s, after)))
    else if t[0] < 32 then None
    else
      match ReadString(t[1..])
      case None => None
      case Some((s, after)) => Some(([t[0]] + s, after))
  }

  predicate StartsWith(t: Text, word: Text) {
    |word| <= |t| && t[..|word|] == word
  }

  function NumberEnd(t: Text): (n: nat)
    ensures n <= |t| && forall i :: 0 <= i < n ==> IsNumberUnit(t[i])
    ensures n < |t| ==> !IsNumberUnit(t[n])
  {
    if t == [] || !IsNumberUnit(t[0]) then 0
    else
      var n := NumberEnd(t[1..]);
      assert forall i :: 1 <= i < n + 1 ==> t[i] == t[1..][i - 1];
      1 + n
  }

  /** Sections 3 to 6: a value, and the text behind it. */
  function ReadValue(t: Text): (r: Option<(Json, Text)>)
    ensures r.Some? ==> |r.value.1| < |t|
    decreases |t|, 0
  {
    if t == [] then None
    else if t[0] == '\"' as int then
      (match ReadString(t[1..])
       case None => None
       case Some((s, rest)) => Some((Str(s), rest)))
    else if t[0] == '[' as int then
      if |t| > 1 && t[1] == ']' as int then Some((Arr([]), t[2..]))
      else
        (match ReadItems(t[1..])
         case None => None
         case Some((items, rest)) => Some((Arr(items), rest)))
    else if t[0] == '{' as int then
      if |t| > 1 && t[1] == '}' as int then Some((Obj([]), t[2..]))
      else
        (match ReadFields(t[1..])
         case None => None
         case Some((fields, rest)) => Some((Obj(fields), rest)))
    else if IsNumberUnit(t[0]) then
      var n := NumberEnd(t);
      Some((Num(Finite(t[..n])), t[n..]))
    else if StartsWith(t, Ascii("null")) then Some((Null, t[4..]))
    else if StartsWith(t, Ascii("true")) then Some((Bool(true), t[4..]))
    else if StartsWith(t, Ascii("false")) then Some((Bool(false), t[5..]))
    else None
  }

  /** The rest of an array that has at least one element left. */
  function ReadItems(t: Text): (r: Option<(seq<Json>, Text)>)
    ensures r.Some? ==> |r.value.1| < |t|
    decreases |t|, 1
  {
    match ReadValue(t)
    case None => None
    case Some((v, rest)) =>
      if rest != [] && rest[0] == ']' as int then Some(([v], rest[1..]))
      else if rest != [] && rest[0] == ',' as int then
        match ReadItems(rest[1..])
        case None => None
        case Some((items, after)) => Some(([v] + items, after))
      else None
  }

  /** The rest of an object that has at least one member left. */
  function ReadFields(t: Text): (r: Option<(seq<Field>, Text)>)
    ensures r.Some? ==> |r.value.1| < |t|
    decreases |t|, 1
  {
    if t == [] || t[0] != '\"' as int then None
    else
      match ReadString(t[1..])
      case None => None
      case Some((key, behindKey)) =>
        if behindKey == [] || behindKey[0] != ':' as int then None
        else
          match ReadValue(behindKey[1..])
          case None => None
          case Some((v, rest)) =>
            if rest != [] && rest[0] == '}' as int then Some(([Field(key, v)], rest[1..]))
            else if rest != [] && rest[0] == ',' as int then
              match ReadFields(rest[1..])
              case None => None
              case Some((fields, after)) => Some(([Field(key, v)] + fields, after))
            else None
  }
}
