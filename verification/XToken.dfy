// X-Tokens: the canonical text of a request body, sealed with AES-256-GCM under a key
// derived from the merchant's secret and shipped as base64(iv + tag + ciphertext).
// The platform's primitives are parameters; what is assumed of them is Ideal.

module XToken {
  import opened Text
  import opened CanonicalJson
  import opened JsonParser
  import opened JsonIdentity

  newtype Byte = b: int | 0 <= b < 256
  type Bytes = seq<Byte>

  const IV_LENGTH := 12
  const TAG_LENGTH := 16

  datatype TokenError = InvalidBlob | AuthenticationFailed

  datatype Sealed = Sealed(ciphertext: Bytes, tag: Bytes)

  datatype Platform = Platform(
    numberText: Double -> JsString,
    utf8Encode: JsString -> Bytes,
    utf8Decode: Bytes -> JsString,
    deriveKey: JsString -> Bytes,
    seal: (Bytes, Bytes, Bytes) -> Sealed,                // key, iv, plaintext
    open: (Bytes, Bytes, Bytes, Bytes) -> Option<Bytes>,  // key, iv, tag, ciphertext
    base64Encode: Bytes -> JsString,
    base64Decode: JsString -> Bytes)

  /** UTF-8 loses exactly unpaired surrogates; GCM and base64 are inverted by their duals. */
  ghost predicate Ideal(x: Platform) {
    && NumberPrinter(x.numberText)
    && (forall s :: x.utf8Decode(x.utf8Encode(s)) == s <==> ValidUtf16(s))
    && (forall s :: x.utf8Encode(s) == [] <==> s == [])
    && (forall k, iv, p :: |x.seal(k, iv, p).ciphertext| == |p| && |x.seal(k, iv, p).tag| == 16)
    && (forall k, iv, p :: x.open(k, iv, x.seal(k, iv, p).tag, x.seal(k, iv, p).ciphertext) == Some(p))
    && (forall b :: x.base64Decode(x.base64Encode(b)) == b)
  }

  /** iv is what randomBytes(12) returned. */
  function Encrypt(x: Platform, plaintext: JsString, secret: JsString, iv: Bytes): JsString {
    var sealed := x.seal(x.deriveKey(secret), iv, x.utf8Encode(plaintext));
    x.base64Encode(iv + sealed.tag + sealed.ciphertext)
  }

  function Decrypt(x: Platform, blob: JsString, secret: JsString): Result<JsString, TokenError> {
    var buf := x.base64Decode(blob);
    if |buf| < IV_LENGTH + TAG_LENGTH + 1 then Err(InvalidBlob)
    else
      var iv, tag, enc := buf[..12], buf[12..28], buf[28..];
      match x.open(x.deriveKey(secret), iv, tag, enc)
      case None => Err(AuthenticationFailed)
      case Some(p) => Ok(x.utf8Decode(p))
  }

  predicate Verify(x: Platform, body: Json, token: JsString, secret: JsString) {
    var plain := Decrypt(x, token, secret);
    var canonical := Stringify(body, x.numberText);
    plain.Ok? && canonical.Ok? && plain.value == canonical.value
  }

  /** A token is twelve bytes of iv, sixteen of tag and the ciphertext; slicing takes them apart again. */
  lemma SliceApart(x: Platform, p: JsString, secret: JsString, iv: Bytes)
    requires Ideal(x) && |iv| == 12
    ensures var buf := x.base64Decode(Encrypt(x, p, secret, iv));
            var sealed := x.seal(x.deriveKey(secret), iv, x.utf8Encode(p));
            |buf| >= 28 && buf[..12] == iv && buf[12..28] == sealed.tag && buf[28..] == sealed.ciphertext
  {
    var sealed := x.seal(x.deriveKey(secret), iv, x.utf8Encode(p));
    assert x.base64Decode(Encrypt(x, p, secret, iv)) == iv + sealed.tag + sealed.ciphertext;
  }

  /** What is presented as a token fails as too short below 29 bytes, and else exactly if it does not open. */
  lemma DecryptFailsIff(x: Platform, blob: JsString, secret: JsString)
    ensures Decrypt(x, blob, secret) == Err(InvalidBlob) <==> |x.base64Decode(blob)| <= 28
    ensures Decrypt(x, blob, secret) == Err(AuthenticationFailed) <==>
            var buf := x.base64Decode(blob);
            |buf| > 28 && x.open(x.deriveKey(secret), buf[..12], buf[12..28], buf[28..]).None?
  {}

  /**
   * Decryption recovers exactly the non-empty plaintexts without unpaired surrogates:
   * an empty one is refused as too short, any other is changed by UTF-8.
   */
  lemma DecryptUndoesEncryptIff(x: Platform, p: JsString, secret: JsString, iv: Bytes)
    requires Ideal(x) && |iv| == 12
    ensures Decrypt(x, Encrypt(x, p, secret, iv), secret) == Ok(p) <==> p != [] && ValidUtf16(p)
    ensures Decrypt(x, Encrypt(x, p, secret, iv), secret).Err? <==> p == []
  {
    var sealed := x.seal(x.deriveKey(secret), iv, x.utf8Encode(p));
    SliceApart(x, p, secret, iv);
    assert |x.utf8Encode(p)| == 0 <==> p == [];
  }

  /**
   * A token built from a body verifies against exactly the bodies equal to it up to the
   * order of object keys.
   */
  lemma TokenVerifiesExactly(x: Platform, body: Json, other: Json, secret: JsString, iv: Bytes)
    requires Ideal(x) && |iv| == 12
    requires WellFormed(body) && WellFormed(other) && Printable(body)
    ensures Stringify(body, x.numberText).Ok?
    ensures var token := Encrypt(x, Stringify(body, x.numberText).value, secret, iv);
            Verify(x, other, token, secret) <==> Same(body, other)
  {
    StringifyOkIff(body, x.numberText);
    StringifyValid(body, x.numberText);
    DecryptUndoesEncryptIff(x, Stringify(body, x.numberText).value, secret, iv);
    StringifyIdentifies(body, other, x.numberText);
  }

  /** However a token was made, it vouches for at most one body up to key order. */
  lemma TokenFixesBody(x: Platform, body: Json, other: Json, token: JsString, secret: JsString)
    requires NumberPrinter(x.numberText) && WellFormed(body) && WellFormed(other)
    requires Verify(x, body, token, secret)
    ensures Printable(body)
    ensures Verify(x, other, token, secret) <==> Same(body, other)
  {
    StringifyOkIff(body, x.numberText);
    StringifyIdentifies(body, other, x.numberText);
  }

  // ---- The assumptions can be met ----------------------------------------------------

  function Widen(b: Bytes): JsString {
    seq(|b|, i requires 0 <= i < |b| => b[i] as Unit)
  }

  function Narrow(s: JsString): Bytes {
    seq(|s|, i requires 0 <= i < |s| => (s[i] as int % 256) as Byte)
  }

  function ToBytes(s: JsString): Bytes {
    if s == [] then [] else [(s[0] as int / 256) as Byte, (s[0] as int % 256) as Byte] + ToBytes(s[1..])
  }

  function FromBytes(b: Bytes): JsString {
    if |b| < 2 then [] else [(b[0] as int * 256 + b[1] as int) as Unit] + FromBytes(b[2..])
  }

  function FromBytesLossy(b: Bytes): JsString {
    if ValidUtf16(FromBytes(b)) then FromBytes(b) else [0xFFFD]
  }

  lemma {:induction false} FromToBytes(s: JsString)
    ensures FromBytes(ToBytes(s)) == s
  {
    if s != [] {
      FromToBytes(s[1..]);
      assert ToBytes(s)[2..] == ToBytes(s[1..]);
      assert s == [s[0]] + s[1..];
    }
  }

  /** A platform without any secrecy, which nevertheless meets every assumption. */
  const TOY := Platform(
    BitsText,
    s => ToBytes(s),
    b => FromBytesLossy(b),
    s => [],
    (k, iv, p) => Sealed(p, seq(TAG_LENGTH, i => 0 as Byte)),
    (k, iv, tag, c) => Some(c),
    b => Widen(b),
    s => Narrow(s))

  lemma IdealPlatformExists()
    ensures Ideal(TOY)
  {
    NumberPrinterExists();
    forall s
      ensures TOY.utf8Decode(TOY.utf8Encode(s)) == s <==> ValidUtf16(s)
    {
      FromToBytes(s);
      assert ValidUtf16([0xFFFD]) by {
        assert [0xFFFD as Unit][1..] == [];
      }
    }
    forall b
      ensures TOY.base64Decode(TOY.base64Encode(b)) == b
    {
      assert Narrow(Widen(b)) == b;
    }
  }
}
