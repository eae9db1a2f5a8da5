/**
 * The sealing layer of `backend/utils/encrypt.js`: a secret string is sealed with
 * AES-256-GCM (NIST SP 800-38D) under a hex-encoded master key and a fresh 96-bit IV;
 * the stored ciphertext is base64 of the raw ciphertext followed by the 128-bit tag,
 * and the nonce is base64 of the IV. On the way back the last 16 bytes are split off
 * as the tag, which is checked before any plaintext is released. Node's decipher takes
 * a tag of 4, 8 or 12 to 16 bytes when no tag length is configured, and checks only
 * that many leading bytes of the genuine tag.
 *
 * The block cipher and GHASH are not modelled: `Aead` is an uninterpreted pair of
 * functions, and `Sound` states the properties assumed of it. UTF-8 conversion is
 * abstracted the same way by `Utf8`.
 */
module Crypto {
  import opened Wrappers
  import opened Bytes
  import Hex
  import Base64

  const Algorithm := "aes-256-gcm"
  const KeyLength := 32
  const IvLength := 12
  const TagLength := 16

  /** Output of the cipher: the raw ciphertext and its authentication tag. */
  datatype Sealed = Sealed(body: seq<Byte>, tag: seq<Byte>)

  /** AES-256-GCM as a pair of functions of (key, iv, ...). */
  datatype Aead = Aead(
    seal: (seq<Byte>, seq<Byte>, seq<Byte>) -> Sealed,
    open: (seq<Byte>, seq<Byte>, seq<Byte>, seq<Byte>) -> Option<seq<Byte>>)

  /** The tag lengths `setAuthTag` accepts for GCM when no `authTagLength` is given. */
  predicate ValidTagLength(n: int) {
    n == 4 || n == 8 || 12 <= n <= TagLength
  }

  /**
   * What is assumed of the cipher: tags are 16 bytes; opening a sealed value with its
   * tag, or with a leading part of it of an accepted length, gives the plaintext back;
   * opening succeeds only on a genuine body with such a leading part of its tag (any
   * other tag fails); and under one key and IV the ciphertext determines the plaintext
   * (counter mode).
   */
  ghost predicate Sound(a: Aead) {
    && (forall k, iv, p :: |a.seal(k, iv, p).tag| == TagLength)
    && (forall k, iv, p, t {:trigger a.open(k, iv, a.seal(k, iv, p).body, t)} ::
          ValidTagLength(|t|) && t == a.seal(k, iv, p).tag[..|t|] ==>
          a.open(k, iv, a.seal(k, iv, p).body, t) == Some(p))
    && (forall k, iv, c, t :: a.open(k, iv, c, t).Some? ==>
          && ValidTagLength(|t|)
          && a.seal(k, iv, a.open(k, iv, c, t).value).body == c
          && a.seal(k, iv, a.open(k, iv, c, t).value).tag[..|t|] == t)
    && (forall k, iv, p, q :: a.seal(k, iv, p).body == a.seal(k, iv, q).body ==> p == q)
  }

  /** `Buffer.from(text, "utf8")` and `buf.toString("utf8")`. */
  datatype Utf8 = Utf8(encode: string -> seq<Byte>, decode: seq<Byte> -> string)

  ghost predicate Faithful(u: Utf8) {
    forall s :: u.decode(u.encode(s)) == s
  }

  /** The two base64 strings kept on a record. */
  datatype Stored = Stored(ciphertext: string, nonce: string)

  datatype CryptoError =
    | InvalidKeyLength      // createCipheriv / createDecipheriv reject the key
    | InvalidIvLength       // createDecipheriv rejects an empty IV
    | InvalidTagLength      // setAuthTag rejects a tag of another length
    | UnreadableEncoding    // the stored text is not canonical base64
    | AuthenticationFailed  // decipher.final() rejects the tag

  /** `Buffer.from(masterKeyHex, "hex")`, accepted by the cipher only at 32 bytes. */
  function KeyFrom(masterKeyHex: string): (r: Result<seq<Byte>, CryptoError>)
    ensures r.Success? <==> |Hex.Decode(masterKeyHex)| == KeyLength
    ensures r.Success? ==> r.value == Hex.Decode(masterKeyHex)
    ensures r.Failure? ==> r.error == InvalidKeyLength
  {
    var key := Hex.Decode(masterKeyHex);
    if |key| == KeyLength then Success(key) else Failure(InvalidKeyLength)
  }

  /** A key of 32 random bytes written as 64 hex digits is accepted, and is those bytes. */
  lemma KeyFromHexOfBytes(key: seq<Byte>)
    requires |key| == KeyLength
    ensures KeyFrom(Hex.Encode(key)) == Success(key)
  {
    Hex.DecodeEncode(key);
  }

  /** A master key with a non-hex character among its first 64 is refused. */
  lemma KeyRefusesNonDigit(masterKeyHex: string, i: nat)
    requires i < 2 * KeyLength && i < |masterKeyHex| && !Hex.IsDigit(masterKeyHex[i])
    ensures KeyFrom(masterKeyHex) == Failure(InvalidKeyLength)
  {
    Hex.DecodeStopsAtNonDigit(masterKeyHex, i);
  }

  /**
   * `data.slice(data.length - 16)` and `data.slice(0, data.length - 16)`. A negative
   * slice index counts from the end and is clamped at zero, so both slices cut at
   * `Cut(|data|)`.
   */
  function Cut(len: nat): (c: nat)
    ensures c <= len
  {
    var k := len - TagLength;
    if k >= 0 then k else if len + k >= 0 then len + k else 0
  }

  function SplitTag(data: seq<Byte>): (r: Sealed)
    ensures r.body + r.tag == data
    ensures |data| >= TagLength ==> |r.tag| == TagLength
    ensures |data| < TagLength ==> |r.tag| < TagLength
  {
    var c := Cut(|data|);
    assert data[..c] + data[c..] == data;
    Sealed(data[..c], data[c..])
  }

  /**
   * A blob shorter than half a tag is taken whole as the tag; from half a tag up to a
   * whole one, the tag is the last 16 - n bytes of an n-byte blob.
   */
  lemma ShortSplit(data: seq<Byte>)
    requires |data| < TagLength
    ensures |data| < 8 ==> SplitTag(data).tag == data
    ensures 8 <= |data| ==> |SplitTag(data).tag| == TagLength - |data|
  {
  }

  /** Splitting ciphertext ++ tag at a 16-byte tag gives back exactly the two parts. */
  lemma SplitConcat(body: seq<Byte>, tag: seq<Byte>)
    requires |tag| == TagLength
    ensures SplitTag(body + tag) == Sealed(body, tag)
  {
    var d := body + tag;
    assert d[..|body|] == body && d[|body|..] == tag;
  }

  /** `encrypt(text, masterKeyHex)` with the 12 bytes `iv` drawn by `crypto.randomBytes`. */
  function Encrypt(aead: Aead, utf8: Utf8, text: string, masterKeyHex: string, iv: seq<Byte>)
    : (r: Result<Stored, CryptoError>)
    requires |iv| == IvLength
    ensures r.Success? <==> KeyFrom(masterKeyHex).Success?
    ensures r.Failure? ==> r.error == InvalidKeyLength
    ensures r.Success? ==> Base64.Decode(r.value.nonce) == Some(iv)
    ensures r.Success? ==>
      var s := aead.seal(KeyFrom(masterKeyHex).value, iv, utf8.encode(text));
      Base64.Decode(r.value.ciphertext) == Some(s.body + s.tag)
  {
    match KeyFrom(masterKeyHex)
    case Failure(e) => Failure(e)
    case Success(key) =>
      var s := aead.seal(key, iv, utf8.encode(text));
      Base64.DecodeEncode(s.body + s.tag);
      Base64.DecodeEncode(iv);
      Success(Stored(Base64.Encode(s.body + s.tag), Base64.Encode(iv)))
  }

  /** `decrypt(ciphertextBase64, nonceBase64, masterKeyHex)`. */
  function Decrypt(aead: Aead, utf8: Utf8, ciphertext: string, nonce: string, masterKeyHex: string)
    : (r: Result<string, CryptoError>)
    ensures KeyFrom(masterKeyHex).Failure? ==> r == Failure(InvalidKeyLength)
    ensures Base64.Decode(ciphertext).None? || Base64.Decode(nonce).None? ==> r.Failure?
    ensures KeyFrom(masterKeyHex).Success? && Base64.Decode(ciphertext).Some? && Base64.Decode(nonce).Some?
      && |Base64.Decode(nonce).value| > 0 && !ValidTagLength(|SplitTag(Base64.Decode(ciphertext).value).tag|)
      ==> r == Failure(InvalidTagLength)
    ensures r.Success? ==>
      var parts := SplitTag(Base64.Decode(ciphertext).value);
      var got := aead.open(KeyFrom(masterKeyHex).value, Base64.Decode(nonce).value, parts.body, parts.tag);
      ValidTagLength(|parts.tag|) && got.Some? && r.value == utf8.decode(got.value)
  {
    match KeyFrom(masterKeyHex)
    case Failure(e) => Failure(e)
    case Success(key) =>
      match (Base64.Decode(nonce), Base64.Decode(ciphertext))
      case (Some(iv), Some(data)) =>
        if |iv| == 0 then Failure(InvalidIvLength)
        else
          var parts := SplitTag(data);
          if !ValidTagLength(|parts.tag|) then Failure(InvalidTagLength)
          else
          (match aead.open(key, iv, parts.body, parts.tag)
           case None => Failure(AuthenticationFailed)
           case Some(plain) => Success(utf8.decode(plain)))
      case _ => Failure(UnreadableEncoding)
  }

  /** What `encrypt` produced, `decrypt` under the same key turns back into the text. */
  lemma RoundTrip(aead: Aead, utf8: Utf8, text: string, masterKeyHex: string, iv: seq<Byte>)
    requires Sound(aead) && Faithful(utf8)
    requires |iv| == IvLength
    requires KeyFrom(masterKeyHex).Success?
    ensures Encrypt(aead, utf8, text, masterKeyHex, iv).Success?
    ensures var st := Encrypt(aead, utf8, text, masterKeyHex, iv).value;
      Decrypt(aead, utf8, st.ciphertext, st.nonce, masterKeyHex) == Success(text)
  {
    var key := KeyFrom(masterKeyHex).value;
    var s := aead.seal(key, iv, utf8.encode(text));
    SplitConcat(s.body, s.tag);
    assert s.tag[..|s.tag|] == s.tag;
  }

  /**
   * No plaintext without authentication: whenever `decrypt` returns a text, the
   * decoded blob is the seal's ciphertext, under that key and IV, of bytes that decode
   * to the text, followed by a leading part of the seal's tag of an accepted length;
   * a blob of at least 16 bytes is exactly the seal with its whole tag.
   */
  lemma Authenticated(aead: Aead, utf8: Utf8, ciphertext: string, nonce: string, masterKeyHex: string)
    returns (plain: seq<Byte>, n: nat)
    requires Sound(aead)
    requires Decrypt(aead, utf8, ciphertext, nonce, masterKeyHex).Success?
    ensures Decrypt(aead, utf8, ciphertext, nonce, masterKeyHex).value == utf8.decode(plain)
    ensures Base64.Decode(ciphertext).Some?
    ensures var s := aead.seal(KeyFrom(masterKeyHex).value, Base64.Decode(nonce).value, plain);
      && ValidTagLength(n)
      && Base64.Decode(ciphertext).value == s.body + s.tag[..n]
    ensures var s := aead.seal(KeyFrom(masterKeyHex).value, Base64.Decode(nonce).value, plain);
      |Base64.Decode(ciphertext).value| >= TagLength ==> Base64.Decode(ciphertext).value == s.body + s.tag
  {
    var key := KeyFrom(masterKeyHex).value;
    var iv := Base64.Decode(nonce).value;
    var data := Base64.Decode(ciphertext).value;
    var parts := SplitTag(data);
    plain := aead.open(key, iv, parts.body, parts.tag).value;
    n := |parts.tag|;
    var s := aead.seal(key, iv, plain);
    assert s.tag[..TagLength] == s.tag;
  }

  /**
   * A blob of 12 bytes, the ciphertext of an 8-byte plaintext followed by only the first
   * 4 bytes of its tag, still decrypts: the split takes the last 4 bytes as the tag.
   */
  lemma TruncatedTagDecrypts(aead: Aead, utf8: Utf8, text: string, masterKeyHex: string, iv: seq<Byte>)
    requires Sound(aead) && Faithful(utf8)
    requires |iv| == IvLength
    requires KeyFrom(masterKeyHex).Success?
    requires |aead.seal(KeyFrom(masterKeyHex).value, iv, utf8.encode(text)).body| == 8
    ensures var s := aead.seal(KeyFrom(masterKeyHex).value, iv, utf8.encode(text));
      Decrypt(aead, utf8, Base64.Encode(s.body + s.tag[..4]), Base64.Encode(iv), masterKeyHex) == Success(text)
  {
    var key := KeyFrom(masterKeyHex).value;
    var s := aead.seal(key, iv, utf8.encode(text));
    var data := s.body + s.tag[..4];
    Base64.DecodeEncode(data);
    Base64.DecodeEncode(iv);
    assert data[..8] == s.body && data[8..] == s.tag[..4];
    assert SplitTag(data) == Sealed(s.body, s.tag[..4]);
  }

  /** Replacing the stored tag with any other 16 bytes makes `decrypt` fail. */
  lemma TamperedTagFails(aead: Aead, utf8: Utf8, text: string, masterKeyHex: string, iv: seq<Byte>,
                         forged: seq<Byte>)
    requires Sound(aead)
    requires |iv| == IvLength && |forged| == TagLength
    requires KeyFrom(masterKeyHex).Success?
    requires forged != aead.seal(KeyFrom(masterKeyHex).value, iv, utf8.encode(text)).tag
    ensures var st := Encrypt(aead, utf8, text, masterKeyHex, iv).value;
      var s := aead.seal(KeyFrom(masterKeyHex).value, iv, utf8.encode(text));
      Decrypt(aead, utf8, Base64.Encode(s.body + forged), st.nonce, masterKeyHex) == Failure(AuthenticationFailed)
  {
    var key := KeyFrom(masterKeyHex).value;
    var p := utf8.encode(text);
    var s := aead.seal(key, iv, p);
    Base64.DecodeEncode(s.body + forged);
    Base64.DecodeEncode(iv);
    SplitConcat(s.body, forged);
    OpenRejectsForgedTag(aead, key, iv, p, forged);
  }

  /**
   * A stored blob shorter than a tag decrypts only at 4, 8 or 12 bytes: at any other
   * length the split-off tag has a length `setAuthTag` refuses.
   */
  lemma ShortBlobFails(aead: Aead, utf8: Utf8, ciphertext: string, nonce: string, masterKeyHex: string)
    requires Base64.Decode(ciphertext).Some?
    requires var len := |Base64.Decode(ciphertext).value|; len < TagLength && len != 4 && len != 8 && len != 12
    ensures Decrypt(aead, utf8, ciphertext, nonce, masterKeyHex).Failure?
  {
    ShortBlobTagAccepted(Base64.Decode(ciphertext).value);
  }

  /** The split of a short blob hands `setAuthTag` a tag it accepts exactly at 4, 8 and 12 bytes. */
  lemma ShortBlobTagAccepted(data: seq<Byte>)
    requires |data| < TagLength
    ensures ValidTagLength(|SplitTag(data).tag|) <==> |data| == 4 || |data| == 8 || |data| == 12
  {
    ShortSplit(data);
  }

  /** A full-length tag other than the genuine one is refused. */
  lemma OpenRejectsForgedTag(aead: Aead, key: seq<Byte>, iv: seq<Byte>, plain: seq<Byte>, forged: seq<Byte>)
    requires Sound(aead)
    requires |forged| == TagLength && forged != aead.seal(key, iv, plain).tag
    ensures aead.open(key, iv, aead.seal(key, iv, plain).body, forged).None?
  {
    var s := aead.seal(key, iv, plain);
    assert s.tag[..TagLength] == s.tag;
  }
}
