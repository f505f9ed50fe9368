/** Types shared by every component of the model. */
module Prelude {

  datatype Option<+T> = None | Some(value: T)

  /** The source's exceptions: `Ok` is a normal return, `Err` a thrown error. */
  datatype Result<+T, +E> = Ok(value: T) | Err(error: E)

  /** One octet, the element of a `Uint8Array`. */
  type byte = n: int | 0 <= n < 256

  /** One UTF-16 code unit. A JavaScript string is a sequence of them, well formed or not. */
  type u16 = n: int | 0 <= n < 0x1_0000

  type Text = seq<u16>

  /** An ASCII literal of the source as a JavaScript string. */
  function Ascii(s: string): (t: Text)
    ensures |t| == |s|
    ensures forall i :: 0 <= i < |s| ==> t[i] == s[i] as int % 0x1_0000
  {
    seq(|s|, i requires 0 <= i < |s| => s[i] as int % 0x1_0000)
  }

  /** Equal concatenations whose first parts are equally long have equal parts. */
  lemma CutConcat<T>(a: seq<T>, r: seq<T>, b: seq<T>, s: seq<T>)
    requires a + r == b + s && |a| == |b|
    ensures a == b && r == s
  {
    assert a == (a + r)[..|a|] && b == (b + s)[..|a|];
    assert r == (a + r)[|a|..] && s == (b + s)[|a|..];
  }

  lemma ConcatHead<T>(a: seq<T>, b: seq<T>)
    requires a != []
    ensures (a + b)[0] == a[0] && (a + b)[1..] == a[1..] + b
  {
  }

  lemma ConcatAssociative<T>(a: seq<T>, b: seq<T>, c: seq<T>)
    ensures a + b + c == a + (b + c)
  {
  }
}
