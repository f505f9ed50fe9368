/** Data-integrity proofs over the canonical text of a credential. */
module DataIntegrity {
  import opened Prelude
  import opened Unicode
  import opened JsonValue
  import opened StableSort
  import opened JsonText
  import opened CanonicalJson
  import Radix
  import Base58

  datatype Cryptosuite = EddsaRdfc2022 | EcdsaSd2023

  /** What the shape test on a JWK says: `isEd25519…Jwk`, `isP256…Jwk`, or neither. */
  datatype JwkKind = Ed25519Jwk | P256Jwk | OtherJwk

  datatype Error = MalformedProof | Json(e: CanonicalJson.Error) | NotBase58 | WrongKey

  /** The platform's signature algorithm, at one key pair. */
  datatype Scheme = Scheme(sign: seq<byte> -> seq<byte>, verify: (seq<byte>, seq<byte>) -> bool)

  const Z: u16 := 122
  const DOT: u16 := 46
  const PROOF := Ascii("proof")
  const PROTO := Ascii("__proto__")
  const TYPE := Ascii("type")
  const CRYPTOSUITE := Ascii("cryptosuite")
  const CREATED := Ascii("created")
  const PROOF_PURPOSE := Ascii("proofPurpose")
  const VERIFICATION_METHOD := Ascii("verificationMethod")
  const PROOF_VALUE := Ascii("proofValue")

  function SuiteName(suite: Cryptosuite): Text {
    if suite.EddsaRdfc2022? then Ascii("eddsa-rdfc-2022") else Ascii("ecdsa-sd-2023")
  }

  function SuiteKey(suite: Cryptosuite): JwkKind {
    if suite.EddsaRdfc2022? then Ed25519Jwk else P256Jwk
  }

  /** Assigning the name `__proto__` sets an object's prototype and creates no property. */
  predicate IsCopied(f: Field) {
    f.key != PROOF && f.key != PROTO
  }

  /** The properties the signature covers, in their order. */
  function Unsigned(fs: seq<Field>): (r: seq<Field>)
    ensures forall f :: f in r <==> f in fs && IsCopied(f)
  {
    if fs == [] then [] else (if IsCopied(fs[0]) then [fs[0]] else []) + Unsigned(fs[1..])
  }

  method UnsignedCredential(fields: seq<Field>) returns (next: seq<Field>)
    ensures next == Unsigned(fields)
  {
    hide IsCopied;
    next := [];
    for i := 0 to |fields|
      invariant next + Unsigned(fields[i..]) == Unsigned(fields)
    {
      assert fields[i..][1..] == fields[i + 1..];
      if IsCopied(fields[i]) {
        next := next + [fields[i]];
      }
    }
  }

  /** Property access; a missing property is undefined. */
  function Lookup(fs: seq<Field>, key: Text): Json {
    if fs == [] then Undefined else if fs[0].key == key then fs[0].value else Lookup(fs[1..], key)
  }

  /** The octets that are signed: canonical credential, a full stop, canonical proof options. */
  function LegacySigningPayload(fields: seq<Field>, proof: Json, le: Comparator): Result<seq<byte>, Error> {
    match Canonicalize(Obj(Unsigned(fields)), le)
    case Err(e) => Err(Json(e))
    case Ok(credential) =>
      match Canonicalize(proof, le)
      case Err(e) => Err(Json(e))
      case Ok(options) => Ok(Utf8(credential + [DOT] + options))
  }

  function ProofOptions(typ: Json, suite: Json, created: Json, purpose: Json, verificationMethod: Json): Json {
    Obj([Field(TYPE, typ), Field(CRYPTOSUITE, suite), Field(CREATED, created),
         Field(PROOF_PURPOSE, purpose), Field(VERIFICATION_METHOD, verificationMethod)])
  }

  function DataIntegrityProofEnvelope(created: Text, verificationMethod: Text, suite: Cryptosuite): Json {
    ProofOptions(Str(Ascii("DataIntegrityProof")), Str(SuiteName(suite)), Str(created),
                 Str(Ascii("assertionMethod")), Str(verificationMethod))
  }

  function SignCredentialWithDataIntegrityProof(
    fields: seq<Field>, suite: Cryptosuite, created: Text, verificationMethod: Text,
    key: JwkKind, scheme: Scheme, le: Comparator): Result<Json, Error>
  {
    var proof := DataIntegrityProofEnvelope(created, verificationMethod, suite);
    match LegacySigningPayload(fields, proof, le)
    case Err(e) => Err(e)
    case Ok(payload) =>
      if key != SuiteKey(suite) then Err(WrongKey)
      else
        var proofValue := [Z] + Base58.Encoded(scheme.sign(payload));
        Ok(Obj(Unsigned(fields) + [Field(PROOF, Obj(proof.fields + [Field(PROOF_VALUE, Str(proofValue))]))]))
  }

  /** A `cryptosuite` outside the two known names falls out of the switch, which is not `true`. */
  function VerifyCredentialProofWithDataIntegrity(
    fields: seq<Field>, key: JwkKind, scheme: Scheme, le: Comparator): Result<bool, Error>
  {
    var proof := Lookup(fields, PROOF);
    if !proof.Obj? || !Lookup(proof.fields, PROOF_VALUE).Str? then Err(MalformedProof)
    else
      var proofValue := Lookup(proof.fields, PROOF_VALUE).s;
      var suite := Lookup(proof.fields, CRYPTOSUITE);
      if proofValue == [] || proofValue[0] != Z then Ok(false)
      else
        var options := ProofOptions(Lookup(proof.fields, TYPE), suite, Lookup(proof.fields, CREATED),
                                    Lookup(proof.fields, PROOF_PURPOSE), Lookup(proof.fields, VERIFICATION_METHOD));
        match LegacySigningPayload(fields, options, le)
        case Err(e) => Err(e)
        case Ok(payload) =>
          match Base58.Decoded(proofValue[1..])
          case Err(_) => Err(NotBase58)
          case Ok(signature) =>
            if suite == Str(SuiteName(EddsaRdfc2022)) then Ok(key == Ed25519Jwk && scheme.verify(signature, payload))
            else if suite == Str(SuiteName(EcdsaSd2023)) then Ok(key == P256Jwk && scheme.verify(signature, payload))
            else Ok(false)
  }

  // What the payload determines.

  lemma PayloadWellFormed(credential: Text, options: Text)
    requires WellFormed(credential) && WellFormed(options)
    ensures WellFormed(credential + [DOT] + options)
  {
    PlainIsWellFormed([DOT]);
    WellFormedConcat(credential, [DOT]);
    WellFormedConcat(credential + [DOT], options);
  }

  /** The properties a signature covers, as a map: all but `proof` and the one that sets the prototype. */
  ghost predicate Covers(m: map<Text, Meaning>, fs: seq<Field>) {
    && (forall k :: k in m <==> k in Keys(fs) && k != Ascii("proof") && k != Ascii("__proto__"))
    && (forall f | f in fs && f.key in m :: m[f.key] == MeaningOf(f.value))
  }

  lemma KeyOf(fs: seq<Field>, k: Text)
    ensures k in Keys(fs) <==> exists f :: f in fs && f.key == k
  {
    if k in Keys(fs) {
      var i :| 0 <= i < |fs| && Keys(fs)[i] == k;
      assert fs[i] in fs;
    }
    if f :| f in fs && f.key == k {
      var i :| 0 <= i < |fs| && fs[i] == f;
      assert Keys(fs)[i] == k;
    }
  }

  lemma {:induction false} UnsignedDistinct(fs: seq<Field>)
    requires NoRepeats(Keys(fs))
    ensures NoRepeats(Keys(Unsigned(fs)))
  {
    if fs != [] {
      assert Keys(fs) == [fs[0].key] + Keys(fs[1..]);
      assert fs[0].key !in Keys(fs[1..]);
      UnsignedDistinct(fs[1..]);
      KeyOf(fs[1..], fs[0].key);
      KeyOf(Unsigned(fs[1..]), fs[0].key);
      hide IsCopied;
      assert Keys([fs[0]] + Unsigned(fs[1..])) == [fs[0].key] + Keys(Unsigned(fs[1..]));
    }
  }

  lemma UnsignedIsDistinct(fs: seq<Field>)
    requires Distinct(Obj(fs))
    ensures Distinct(Obj(Unsigned(fs)))
  {
    UnsignedDistinct(fs);
    hide NoRepeats, IsCopied;
  }

  lemma CoversEntries(fs: seq<Field>, us: seq<Field>, m: map<Text, Meaning>)
    requires forall f :: f in us <==> f in fs && IsCopied(f)
    requires forall k :: k in m <==> k in Keys(us)
    requires forall i :: 0 <= i < |us| ==> m[us[i].key] == MeaningOf(us[i].value)
    ensures Covers(m, fs)
  {
    hide MeaningOf, Ascii;
    forall k ensures k in m <==> k in Keys(fs) && k != Ascii("proof") && k != Ascii("__proto__") {
      KeyOf(fs, k);
      KeyOf(us, k);
    }
    forall f | f in fs && f.key in m ensures m[f.key] == MeaningOf(f.value) {
      assert f in us;
      var i :| 0 <= i < |us| && us[i] == f;
    }
  }

  lemma UnsignedCovers(fs: seq<Field>)
    requires Distinct(Obj(fs))
    ensures Distinct(Obj(Unsigned(fs)))
    ensures MeaningOf(Obj(Unsigned(fs))).MObj? && Covers(MeaningOf(Obj(Unsigned(fs))).entries, fs)
  {
    var us := Unsigned(fs);
    UnsignedIsDistinct(fs);
    ObjectMeaning(Obj(us));
    hide MeaningOf, Covers, Distinct;
    CoversEntries(fs, us, MeaningOfFields(Obj(us), us));
  }

  /**
   * The signed octets, read as UTF-8, are a JSON object with exactly the covered properties of the credential, a full
   * stop, a JSON value that means the proof options, and nothing more.
   */
  lemma PayloadReads(fs: seq<Field>, p: Json, le: Comparator)
    requires TotalPreorder(le) && Distinct(Obj(fs)) && Distinct(p) && !p.Num?
    requires LegacySigningPayload(fs, p, le).Ok?
    ensures var text := ReadUtf8(LegacySigningPayload(fs, p, le).value);
            && text.Some?
            && var credential := ReadValue(text.value);
               && credential.Some? && MeaningOf(credential.value.0).MObj?
               && Covers(MeaningOf(credential.value.0).entries, fs)
               && credential.value.1 != [] && credential.value.1[0] == '.' as int
               && var options := ReadValue(credential.value.1[1..]);
                  && options.Some? && MeaningOf(options.value.0) == MeaningOf(p) && options.value.1 == []
  {
    var v := Obj(Unsigned(fs));
    var c, o := Canonicalize(v, le).value, Canonicalize(p, le).value;
    UnsignedCovers(fs);
    hide Canonicalize, Utf8, ReadUtf8, Repaired, Unsigned, WellFormed, MeaningOf, ReadValue, Covers, Distinct;
    CanonicalWellFormed(v, le);
    CanonicalWellFormed(p, le);
    PayloadWellFormed(c, o);
    Utf8Reads(c + [DOT] + o);
    WellFormedIff(c + [DOT] + o);
    ConcatAssociative(c, [DOT], o);
    CanonicalReads(v, le, [DOT] + o);
    CanonicalReads(p, le, []);
    assert o + [] == o && ([DOT] + o)[1..] == o;
  }

  /** Equal octets mean equal canonical credentials and equal canonical options. */
  lemma PayloadSplits(fs: seq<Field>, p: Json, gs: seq<Field>, q: Json, le: Comparator)
    requires LegacySigningPayload(fs, p, le).Ok? && LegacySigningPayload(fs, p, le) == LegacySigningPayload(gs, q, le)
    ensures Canonicalize(Obj(Unsigned(fs)), le) == Canonicalize(Obj(Unsigned(gs)), le)
    ensures Canonicalize(p, le) == Canonicalize(q, le)
  {
    hide Canonicalize, Utf8, Unsigned, WellFormed;
    var v, w := Obj(Unsigned(fs)), Obj(Unsigned(gs));
    var c, d := Canonicalize(v, le).value, Canonicalize(w, le).value;
    var o, n := Canonicalize(p, le).value, Canonicalize(q, le).value;
    CanonicalWellFormed(v, le);
    CanonicalWellFormed(w, le);
    CanonicalWellFormed(p, le);
    CanonicalWellFormed(q, le);
    PayloadWellFormed(c, o);
    PayloadWellFormed(d, n);
    Utf8Injective(c + [DOT] + o, d + [DOT] + n);
    ConcatAssociative(c, [DOT], o);
    ConcatAssociative(d, [DOT], n);
    ObjectTextPrefix(v, w, le, [DOT] + o, [DOT] + n);
    CutConcat([DOT], o, [DOT], n);
  }

  /** So equal octets mean equal credentials, their proofs aside, and equal options, objects being maps. */
  lemma PayloadMeans(fs: seq<Field>, p: Json, gs: seq<Field>, q: Json, le: Comparator)
    requires TotalPreorder(le) && Distinct(Obj(Unsigned(fs))) && Distinct(Obj(Unsigned(gs)))
    requires Distinct(p) && Distinct(q)
    requires LegacySigningPayload(fs, p, le).Ok? && LegacySigningPayload(gs, q, le).Ok?
    ensures LegacySigningPayload(fs, p, le) == LegacySigningPayload(gs, q, le) ==>
              MeaningOf(Obj(Unsigned(fs))) == MeaningOf(Obj(Unsigned(gs))) && MeaningOf(p) == MeaningOf(q)
    ensures Separates(le) ==>
              (LegacySigningPayload(fs, p, le) == LegacySigningPayload(gs, q, le) <==>
               MeaningOf(Obj(Unsigned(fs))) == MeaningOf(Obj(Unsigned(gs))) && MeaningOf(p) == MeaningOf(q))
  {
    var v, w := Obj(Unsigned(fs)), Obj(Unsigned(gs));
    hide Canonicalize, MeaningOf, Unsigned, Distinct, TotalPreorder, Separates, Utf8, Serializable;
    if LegacySigningPayload(fs, p, le) == LegacySigningPayload(gs, q, le) {
      PayloadSplits(fs, p, gs, q, le);
      CanonicalInjective(v, w, le);
      CanonicalInjective(p, q, le);
    } else if Separates(le) {
      CanonicalizeIsRender(v, le);
      CanonicalizeIsRender(w, le);
      CanonicalizeIsRender(p, le);
      CanonicalizeIsRender(q, le);
      CanonicalIffSameMeaning(v, w, le);
      CanonicalIffSameMeaning(p, q, le);
    }
  }

  lemma {:induction false} UnsignedConcat(fs: seq<Field>, gs: seq<Field>)
    ensures Unsigned(fs + gs) == Unsigned(fs) + Unsigned(gs)
  {
    hide IsCopied;
    if fs == [] {
      assert fs + gs == gs;
    } else {
      UnsignedConcat(fs[1..], gs);
      assert (fs + gs)[1..] == fs[1..] + gs;
      var head := if IsCopied(fs[0]) then [fs[0]] else [];
      assert Unsigned(fs) == head + Unsigned(fs[1..]);
      ConcatAssociative(head, Unsigned(fs[1..]), Unsigned(gs));
    }
  }

  lemma {:induction false} UnsignedFixed(fs: seq<Field>)
    requires forall f :: f in fs ==> IsCopied(f)
    ensures Unsigned(fs) == fs
  {
    hide IsCopied;
    if fs != [] {
      UnsignedFixed(fs[1..]);
    }
  }

  /** Signing leaves the covered properties alone, even when a proof was already there. */
  lemma UnsignedOfSigned(fs: seq<Field>, proof: Json)
    ensures Unsigned(Unsigned(fs) + [Field(PROOF, proof)]) == Unsigned(fs)
  {
    UnsignedFixed(Unsigned(fs));
    UnsignedConcat(Unsigned(fs), [Field(PROOF, proof)]);
    assert Unsigned([Field(PROOF, proof)]) == [];
  }

  lemma {:induction false} LookupAppended(fs: seq<Field>, key: Text, value: Json)
    requires forall f :: f in fs ==> f.key != key
    ensures Lookup(fs + [Field(key, value)], key) == value
  {
    if fs != [] {
      LookupAppended(fs[1..], key, value);
      assert (fs + [Field(key, value)])[1..] == fs[1..] + [Field(key, value)];
    }
  }

  /** The property names of a proof are pairwise different. */
  lemma ProofNames()
    ensures |TYPE| == 4 && |CRYPTOSUITE| == 11 && |CREATED| == 7
    ensures |PROOF_PURPOSE| == 12 && |VERIFICATION_METHOD| == 18 && |PROOF_VALUE| == 10
  {
  }

  lemma LookupFive(a: Field, b: Field, c: Field, d: Field, e: Field, f: Field, key: Text)
    ensures Lookup([a, b, c, d, e, f], key)
            == if a.key == key then a.value else if b.key == key then b.value else if c.key == key then c.value
               else if d.key == key then d.value else if e.key == key then e.value
               else if f.key == key then f.value else Undefined
  {
    var fs := [a, b, c, d, e, f];
    assert fs[1..] == [b, c, d, e, f] && fs[2..] == [c, d, e, f] && fs[3..] == [d, e, f];
    assert fs[1..][1..] == fs[2..] && fs[2..][1..] == fs[3..] && fs[3..][1..] == [e, f];
    assert [e, f][1..] == [f] && [f][1..] == [];
    assert Lookup([e, f], key) == if e.key == key then e.value else Lookup([f], key);
    assert Lookup(fs[3..], key) == if d.key == key then d.value else Lookup([e, f], key);
    assert Lookup(fs[2..], key) == if c.key == key then c.value else Lookup(fs[3..], key);
  }

  /** Every property of a finished proof reads back as it was written. */
  lemma ProofReadsBack(options: Json, proofValue: Json)
    requires options.Obj? && |options.fields| == 5
    requires options.fields[0].key == TYPE && options.fields[1].key == CRYPTOSUITE && options.fields[2].key == CREATED
    requires options.fields[3].key == PROOF_PURPOSE && options.fields[4].key == VERIFICATION_METHOD
    ensures var p := options.fields + [Field(PROOF_VALUE, proofValue)];
            && Lookup(p, PROOF_VALUE) == proofValue
            && Lookup(p, CRYPTOSUITE) == options.fields[1].value
            && ProofOptions(Lookup(p, TYPE), Lookup(p, CRYPTOSUITE), Lookup(p, CREATED),
                            Lookup(p, PROOF_PURPOSE), Lookup(p, VERIFICATION_METHOD)) == options
  {
    hide Ascii;
    var o := options.fields;
    var f := Field(PROOF_VALUE, proofValue);
    assert o + [f] == [o[0], o[1], o[2], o[3], o[4], f];
    ProofNames();
    hide TYPE, CRYPTOSUITE, CREATED, PROOF_PURPOSE, VERIFICATION_METHOD, PROOF_VALUE;
    LookupFive(o[0], o[1], o[2], o[3], o[4], f, TYPE);
    LookupFive(o[0], o[1], o[2], o[3], o[4], f, CRYPTOSUITE);
    LookupFive(o[0], o[1], o[2], o[3], o[4], f, CREATED);
    LookupFive(o[0], o[1], o[2], o[3], o[4], f, PROOF_PURPOSE);
    LookupFive(o[0], o[1], o[2], o[3], o[4], f, VERIFICATION_METHOD);
    LookupFive(o[0], o[1], o[2], o[3], o[4], f, PROOF_VALUE);
    assert o == [o[0], o[1], o[2], o[3], o[4]];
  }

  // Signing, then verifying.

  /** What the signer signs, and what its `proofValue` decodes to. */
  ghost function SignedOctets(fs: seq<Field>, suite: Cryptosuite, created: Text, verificationMethod: Text,
          le: Comparator)
    : Result<seq<byte>, Error>
  {
    LegacySigningPayload(fs, DataIntegrityProofEnvelope(created, verificationMethod, suite), le)
  }

  lemma SignedShape(fs: seq<Field>, suite: Cryptosuite, created: Text, verificationMethod: Text,
                    scheme: Scheme, le: Comparator)
    requires SignedOctets(fs, suite, created, verificationMethod, le).Ok?
    ensures var payload := SignedOctets(fs, suite, created, verificationMethod, le).value;
            var signed := SignCredentialWithDataIntegrityProof(fs, suite, created, verificationMethod,
                SuiteKey(suite), scheme, le);
            var options := DataIntegrityProofEnvelope(created, verificationMethod, suite);
            var proof := Obj(options.fields + [Field(PROOF_VALUE, Str([Z] + Base58.Encoded(scheme.sign(payload))))]);
            && signed == Ok(Obj(Unsigned(fs) + [Field(PROOF, proof)]))
            && Lookup(signed.value.fields, PROOF) == proof
            && Unsigned(signed.value.fields) == Unsigned(fs)
  {
    hide LegacySigningPayload, Lookup, Base58.Encoded, IsCopied;
    var payload := SignedOctets(fs, suite, created, verificationMethod, le).value;
    var options := DataIntegrityProofEnvelope(created, verificationMethod, suite);
    var proof := Obj(options.fields + [Field(PROOF_VALUE, Str([Z] + Base58.Encoded(scheme.sign(payload))))]);
    UnsignedOfSigned(fs, proof);
    UnsignedHasNoProof(fs);
    LookupAppended(Unsigned(fs), PROOF, proof);
  }

  lemma UnsignedHasNoProof(fs: seq<Field>)
    ensures forall f :: f in Unsigned(fs) ==> f.key != PROOF
  {
  }

  lemma SuiteNamesDiffer()
    ensures |SuiteName(EddsaRdfc2022)| == 15 && |SuiteName(EcdsaSd2023)| == 13
  {
  }

  /** The verifier rebuilds the signer's options and signature from any object that carries the signer's proof. */
  lemma VerifierReads(gs: seq<Field>, options: Json, signature: seq<byte>, suite: Cryptosuite, created: Text,
                      verificationMethod: Text, scheme: Scheme, le: Comparator)
    requires options == DataIntegrityProofEnvelope(created, verificationMethod, suite)
    requires Lookup(gs, PROOF) == Obj(options.fields + [Field(PROOF_VALUE, Str([Z] + Base58.Encoded(signature)))])
    ensures VerifyCredentialProofWithDataIntegrity(gs, SuiteKey(suite), scheme, le)
            == match LegacySigningPayload(gs, options, le)
               case Err(e) => Err(e)
               case Ok(payload) => Ok(scheme.verify(Base58.Decoded(Base58.Encoded(signature)).value, payload))
  {
    hide LegacySigningPayload, Lookup, Base58.Encoded, Base58.Decoded;
    var proofValue := [Z] + Base58.Encoded(signature);
    ProofReadsBack(options, Str(proofValue));
    SuiteNamesDiffer();
    Base58.DecodeEncode(signature);
    assert proofValue[1..] == Base58.Encoded(signature);
    Base58.EncodedDecodes(signature);
  }

  /** The proof options of a suite, spelled out. */
  ghost function SuiteOptions(suite: Cryptosuite, created: Text, verificationMethod: Text): Json {
    Obj([Field(Ascii("type"), Str(Ascii("DataIntegrityProof"))),
         Field(Ascii("cryptosuite"), Str(Ascii(if suite.EddsaRdfc2022? then "eddsa-rdfc-2022" else "ecdsa-sd-2023"))),
         Field(Ascii("created"), Str(created)),
         Field(Ascii("proofPurpose"), Str(Ascii("assertionMethod"))),
         Field(Ascii("verificationMethod"), Str(verificationMethod))])
  }

  /** Signing needs a payload and a key of the suite's kind; the covered properties stay, the proof comes last. */
  lemma SignedIff(fs: seq<Field>, suite: Cryptosuite, created: Text, verificationMethod: Text, key: JwkKind,
                  scheme: Scheme, le: Comparator)
    ensures var signed := SignCredentialWithDataIntegrityProof(fs, suite, created, verificationMethod, key, scheme, le);
            var options := SuiteOptions(suite, created, verificationMethod);
            var payload := LegacySigningPayload(fs, options, le);
            && (signed.Ok? <==> payload.Ok? && key == if suite.EddsaRdfc2022? then Ed25519Jwk else P256Jwk)
            && (signed.Err? ==> signed.error == if payload.Err? then payload.error else WrongKey)
            && (signed.Ok? ==>
                  var value := Str(Ascii("z") + Base58.Encoded(scheme.sign(payload.value)));
                  var proof := Obj(options.fields + [Field(Ascii("proofValue"), value)]);
                  signed.value == Obj(Unsigned(fs) + [Field(Ascii("proof"), proof)]))
  {
    hide LegacySigningPayload, Unsigned, Base58.Encoded;
    assert Ascii("z") == [Z];
    assert SuiteOptions(suite, created, verificationMethod)
        == DataIntegrityProofEnvelope(created, verificationMethod, suite);
  }

  /** What it takes to verify: a well-formed proof of a known suite, its key, and a signature of the rebuilt payload. */
  lemma VerifiesIff(fs: seq<Field>, key: JwkKind, scheme: Scheme, le: Comparator)
    ensures VerifyCredentialProofWithDataIntegrity(fs, key, scheme, le) == Ok(true) <==>
            var proof := Lookup(fs, Ascii("proof"));
            && proof.Obj?
            && var property := (name: string) => Lookup(proof.fields, Ascii(name));
               && property("proofValue").Str? && StartsWith(property("proofValue").s, Ascii("z"))
               && (|| (property("cryptosuite") == Str(Ascii("eddsa-rdfc-2022")) && key.Ed25519Jwk?)
                   || (property("cryptosuite") == Str(Ascii("ecdsa-sd-2023")) && key.P256Jwk?))
               && var signature := Base58.Decoded(property("proofValue").s[1..]);
                  var payload := LegacySigningPayload(
                      fs, Obj([Field(Ascii("type"), property("type")),
                               Field(Ascii("cryptosuite"), property("cryptosuite")),
                               Field(Ascii("created"), property("created")),
                               Field(Ascii("proofPurpose"), property("proofPurpose")),
                               Field(Ascii("verificationMethod"), property("verificationMethod"))]), le);
                  signature.Ok? && payload.Ok? && scheme.verify(signature.value, payload.value)
  {
    hide LegacySigningPayload, Lookup, Base58.Decoded;
    SuiteNamesDiffer();
    assert Ascii("z") == [Z];
    var proof := Lookup(fs, PROOF);
    if proof.Obj? && Lookup(proof.fields, PROOF_VALUE).Str? && Lookup(proof.fields, PROOF_VALUE).s != [] {
      var s := Lookup(proof.fields, PROOF_VALUE).s;
      assert s[..1] == [s[0]];
    }
  }

  /** Property access by name. */
  lemma {:induction false} LookupIs(fs: seq<Field>, key: Text)
    requires NoRepeats(Keys(fs))
    ensures forall f | f in fs && f.key == key :: Lookup(fs, key) == f.value
    ensures (forall f | f in fs :: f.key != key) ==> Lookup(fs, key) == Undefined
  {
    if fs != [] {
      assert Keys(fs) == [fs[0].key] + Keys(fs[1..]);
      assert fs[0].key !in Keys(fs[1..]);
      LookupIs(fs[1..], key);
      KeyOf(fs[1..], fs[0].key);
    }
  }

  /** The signature algorithm accepts its own signatures. */
  ghost predicate Sound(scheme: Scheme) {
    forall m :: scheme.verify(scheme.sign(m), m)
  }

  /** Ideal: it accepts nothing else, and different messages have different signatures. */
  ghost predicate Ideal(scheme: Scheme) {
    && (forall s, m :: scheme.verify(s, m) <==> s == scheme.sign(m))
    && (forall m, n :: scheme.sign(m) == scheme.sign(n) ==> m == n)
  }

  /** A signed credential verifies, if its signature is not a nonempty run of zero octets; then, ideally, it does not. */
  lemma SignThenVerify(fs: seq<Field>, suite: Cryptosuite, created: Text, verificationMethod: Text,
                       scheme: Scheme, le: Comparator)
    requires SignedOctets(fs, suite, created, verificationMethod, le).Ok?
    ensures var payload := SignedOctets(fs, suite, created, verificationMethod, le).value;
            var signed := SignCredentialWithDataIntegrityProof(fs, suite, created, verificationMethod,
                SuiteKey(suite), scheme, le);
            var signature := scheme.sign(payload);
            && signed.Ok? && signed.value.Obj?
            && var verdict := VerifyCredentialProofWithDataIntegrity(signed.value.fields, SuiteKey(suite), scheme, le);
               && (Sound(scheme) && (signature == [] || Radix.HasNonzero(signature)) ==> verdict == Ok(true))
               && (Ideal(scheme) ==> (verdict == Ok(true) <==> signature == [] || Radix.HasNonzero(signature)))
  {
    hide LegacySigningPayload, Lookup, Base58.Encoded, Base58.Decoded, IsCopied, DataIntegrityProofEnvelope;
    var payload := SignedOctets(fs, suite, created, verificationMethod, le).value;
    var options := DataIntegrityProofEnvelope(created, verificationMethod, suite);
    SignedShape(fs, suite, created, verificationMethod, scheme, le);
    var signed := SignCredentialWithDataIntegrityProof(fs, suite, created, verificationMethod, SuiteKey(suite),
        scheme, le).value;
    SamePayload(fs, signed.fields, options, le);
    Base58.DecodeEncode(scheme.sign(payload));
    Base58.EncodedDecodes(scheme.sign(payload));
    VerifierReads(signed.fields, options, scheme.sign(payload), suite, created, verificationMethod, scheme, le);
  }

  lemma SamePayload(fs: seq<Field>, gs: seq<Field>, options: Json, le: Comparator)
    requires Unsigned(fs) == Unsigned(gs)
    ensures LegacySigningPayload(fs, options, le) == LegacySigningPayload(gs, options, le)
  {
  }

  /**
   * With the signer's proof attached, only an object that means the same credential verifies, and every such object
   * does.
   */
  lemma {:induction false} TamperEvident(fs: seq<Field>, gs: seq<Field>, suite: Cryptosuite, created: Text,
          verificationMethod: Text, scheme: Scheme, le: Comparator)
    requires TotalPreorder(le) && Separates(le) && Ideal(scheme)
    requires Distinct(Obj(Unsigned(fs))) && Distinct(Obj(Unsigned(gs)))
    requires SignedOctets(fs, suite, created, verificationMethod, le).Ok?
    requires Radix.HasNonzero(scheme.sign(SignedOctets(fs, suite, created, verificationMethod, le).value))
    requires var signed := SignCredentialWithDataIntegrityProof(fs, suite, created, verificationMethod,
        SuiteKey(suite), scheme, le);
             signed.Ok? && signed.value.Obj? && Lookup(gs, PROOF) == Lookup(signed.value.fields, PROOF)
    ensures VerifyCredentialProofWithDataIntegrity(gs, SuiteKey(suite), scheme, le) == Ok(true)
            <==> Serializable(Obj(Unsigned(gs))) && MeaningOf(Obj(Unsigned(gs))) == MeaningOf(Obj(Unsigned(fs)))
  {
    hide Lookup, Base58.Encoded, Base58.Decoded, IsCopied, DataIntegrityProofEnvelope, Unsigned, Utf8, Canonicalize,
         MeaningOf, Serializable, Distinct, VerifyCredentialProofWithDataIntegrity, TotalPreorder, Separates,
         SignCredentialWithDataIntegrityProof;
    var options := DataIntegrityProofEnvelope(created, verificationMethod, suite);
    var payload := SignedOctets(fs, suite, created, verificationMethod, le).value;
    var signature := scheme.sign(payload);
    SignedShape(fs, suite, created, verificationMethod, scheme, le);
    VerifierReads(gs, options, signature, suite, created, verificationMethod, scheme, le);
    Base58.DecodeEncode(signature);
    var v, w := Obj(Unsigned(fs)), Obj(Unsigned(gs));
    CanonicalizeIsRender(v, le);
    CanonicalizeIsRender(w, le);
    if Serializable(w) {
      CanonicalIffSameMeaning(v, w, le);
      if LegacySigningPayload(gs, options, le) == Ok(payload) {
        PayloadSplits(fs, options, gs, options, le);
      }
    }
  }
}
