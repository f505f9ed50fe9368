/** The multibase form of an Ed25519 public key: base58btc over the multicodec prefix and the raw key. */
module KeyCodec {
  import opened Prelude
  import Base58
  import Base64Url

  datatype Error = NotBase64Url | NotMultibase | NotBase58 | NotEd25519

  const Z: u16 := 122

  const MULTICODEC_ED25519: seq<byte> := [0xed, 0x01]

  function EncodeJwkPublicKeyMultibase(x: Text): Result<Text, Error> {
    match Base64Url.UrlDecoded(x)
    case Err(_) => Err(NotBase64Url)
    case Ok(key) => Ok([Z] + Base58.Encoded(MULTICODEC_ED25519 + key))
  }

  function DecodeJwkPublicKeyMultibase(multibase: Text): Result<Text, Error> {
    if multibase == [] || multibase[0] != Z then Err(NotMultibase)
    else match Base58.Decoded(multibase[1..])
         case Err(_) => Err(NotBase58)
         case Ok(value) =>
           if |value| < 3 || value[0] != 0xed || value[1] != 0x01 then Err(NotEd25519)
           else Ok(Base64Url.UrlEncoded(value[2..]))
  }

  lemma DecodeOfEncoded(key: seq<byte>)
    ensures DecodeJwkPublicKeyMultibase([Z] + Base58.Encoded(MULTICODEC_ED25519 + key))
            == if key == [] then Err(NotEd25519) else Ok(Base64Url.UrlEncoded(key))
  {
    hide Base58.Encoded, Base58.Decoded, Base64Url.UrlEncoded;
    var value := MULTICODEC_ED25519 + key;
    assert value[0] != 0;
    Base58.DecodeEncode(value);
    var text := [Z] + Base58.Encoded(value);
    assert text[1..] == Base58.Encoded(value);
    assert value[2..] == key;
  }

  /** Behind a `z`, the encoding is the base58 of the Ed25519 prefix and the key. */
  lemma EncodedKeyMeans(x: Text)
    ensures var e := EncodeJwkPublicKeyMultibase(x); var key := Base64Url.UrlDecoded(x);
            && (e.Ok? <==> key.Ok?)
            && (e.Ok? ==> e.value != [] && e.value[0] == 'z' as int
                          && Base58.Decoded(e.value[1..]) == Ok([0xed, 0x01] + key.value))
  {
    hide Base58.Encoded, Base58.Decoded, Base64Url.UrlDecoded;
    if Base64Url.UrlDecoded(x).Ok? {
      var value: seq<byte> := [0xed, 0x01] + Base64Url.UrlDecoded(x).value;
      assert value[0] != 0;
      Base58.DecodeEncode(value);
      assert ([Z] + Base58.Encoded(value))[1..] == Base58.Encoded(value);
    }
  }

  /** Exactly the multibase texts of at least one key byte behind that prefix are accepted, and give the key. */
  lemma DecodedKeyMeans(multibase: Text)
    ensures var d := DecodeJwkPublicKeyMultibase(multibase);
            && (d.Ok? <==> && multibase != [] && multibase[0] == 'z' as int && Base58.Decoded(multibase[1..]).Ok?
                           && var value := Base58.Decoded(multibase[1..]).value;
                              |value| > 2 && value[..2] == [0xed, 0x01])
            && (d.Ok? ==> Base64Url.UrlDecoded(d.value) == Ok(Base58.Decoded(multibase[1..]).value[2..]))
  {
    hide Base58.Decoded, Base64Url.UrlEncoded, Base64Url.UrlDecoded;
    if multibase != [] && Base58.Decoded(multibase[1..]).Ok? {
      var value := Base58.Decoded(multibase[1..]).value;
      if |value| > 2 {
        assert value[..2] == [value[0], value[1]];
        Base64Url.EncodesCanonical(value[2..]);
      }
    }
  }

  /** The key text survives the codec exactly when it is canonical base64url of at least one byte. */
  lemma KeyRoundTrip(x: Text)
    ensures EncodeJwkPublicKeyMultibase(x).Ok?
            && DecodeJwkPublicKeyMultibase(EncodeJwkPublicKeyMultibase(x).value) == Ok(x)
            <==> Base64Url.Canonical(x) && x != []
  {
    Base64Url.UrlRoundTrip(x);
    if EncodeJwkPublicKeyMultibase(x).Ok? {
      var key := Base64Url.UrlDecoded(x).value;
      DecodeOfEncoded(key);
      assert |Base64Url.UrlEncoded(key)| == |Base64Url.Sextets(key)|;
    }
  }

  /** Every multibase text the decoder accepts is the one its own result encodes to. */
  lemma {:induction false} MultibaseRoundTrip(multibase: Text)
    requires DecodeJwkPublicKeyMultibase(multibase).Ok?
    ensures EncodeJwkPublicKeyMultibase(DecodeJwkPublicKeyMultibase(multibase).value) == Ok(multibase)
  {
    hide Base58.Encoded, Base58.Decoded, Base58.Char, Base64Url.UrlEncoded, Base64Url.UrlDecoded;
    var text := multibase[1..];
    var value := Base58.Decoded(text).value;
    Base64Url.EncodesCanonical(value[2..]);
    assert value == MULTICODEC_ED25519 + value[2..];
    Base58.EncodeDecode(text);
    assert Base58.Encoded(value) == text by {
      if text != [] && forall i :: 0 <= i < |text| ==> text[i] == Base58.Char(0) {
        Base58.AllOnesDecodeToZeros(text);
      }
    }
    assert multibase == [Z] + text;
  }
}
