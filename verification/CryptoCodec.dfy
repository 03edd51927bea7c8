/**
 The text format that is encrypted, and encryption and decryption over an arbitrary cipher.
 */
module CryptoCodec {
  import opened Prelude
  import opened Text

  /** What may be encrypted: `encrypt` takes a string or a number. */
  datatype Value = TextValue(text: string) | NumberValue(number: int)

  function ValueText(v: Value): string {
    match v
    case TextValue(text) => text
    case NumberValue(number) => IntText(number)
  }

  /** `v.length`, as text: numbers have none. */
  function LengthText(v: Value): string {
    match v
    case TextValue(text) => Decimal(|text|)
    case NumberValue(_) => "undefined"
  }

  function HashSerialize(v: Value): string {
    "s:" + LengthText(v) + ":\"" + ValueText(v) + ";\""
  }

  function WithoutQuotes(s: string): (r: string)
    ensures '"' !in r && |r| <= |s|
  {
    if s == "" then ""
    else if s[0] == '"' then WithoutQuotes(s[1..])
    else [s[0]] + WithoutQuotes(s[1..])
  }

  function HashDeserialize(s: string): string {
    WithoutQuotes(Substring(s, IndexOf(s, "\"") + 1, LastIndexOf(s, ";")))
  }

  /** The text of the value stands between the first quote and the last semicolon. */
  lemma SerializedValueIsFound(v: Value, s: string)
    requires s == HashSerialize(v)
    ensures Substring(s, IndexOf(s, "\"") + 1, LastIndexOf(s, ";")) == ValueText(v)
  {
    var pre := "s:" + LengthText(v) + ":";
    HeaderHasNoQuote(v, pre);
    MarkIsQuoted("s:" + LengthText(v));
    TextIsBetween(pre, ValueText(v), s);
  }

  lemma HeaderHasNoQuote(v: Value, pre: string)
    requires pre == "s:" + LengthText(v) + ":"
    ensures '"' !in pre
  {
    forall i | 0 <= i < |pre|
      ensures pre[i] != '"'
    {
      if v.NumberValue? { assert pre == "s:undefined:"; }
    }
  }

  lemma MarkIsQuoted(a: string)
    ensures a + ":\"" == a + ":" + "\""
  {}

  lemma TextIsBetween(pre: string, text: string, s: string)
    requires '"' !in pre && s == pre + "\"" + text + ";\""
    ensures Substring(s, IndexOf(s, "\"") + 1, LastIndexOf(s, ";")) == text
  {
    QuoteIsFirst(pre, text, s);
    SemicolonIsLast(pre + "\"" + text, s);
    BetweenTheMarks(pre, text, s);
  }

  lemma QuoteIsFirst(pre: string, text: string, s: string)
    requires '"' !in pre && s == pre + "\"" + text + ";\""
    ensures IndexOf(s, "\"") == |pre|
  {
    ConcatAssociates(pre + "\"", text, ";\"");
    ConcatAssociates(pre, "\"", text + ";\"");
    CharacterFirst(pre, '"', text + ";\"");
  }

  lemma SemicolonIsLast(a: string, s: string)
    requires s == a + ";\""
    ensures LastIndexOf(s, ";") == |a|
  {
    assert ";\"" == [';'] + "\"";
    CharacterLast(a, ';', "\"");
  }

  lemma CharacterFirst(a: string, c: char, b: string)
    requires c !in a
    ensures IndexOf(a + ([c] + b), [c]) == |a|
  {
    forall i
      ensures !OccursAt(a, [c], i)
    {
      if 0 <= i < |a| { assert a[i..i + 1] == [a[i]]; }
    }
    FirstOccurrenceAfter(a, [c], b);
  }

  lemma CharacterLast(a: string, c: char, b: string)
    requires c !in b
    ensures LastIndexOf(a + ([c] + b), [c]) == |a|
  {
    var s := a + ([c] + b);
    assert s[|a|..|a| + 1] == [c];
    assert OccursAt(s, [c], |a|);
    forall i | |a| < i
      ensures !OccursAt(s, [c], i)
    {
      if i < |s| { assert s[i..i + 1] == [s[i]] && s[i] == b[i - |a| - 1]; }
    }
  }

  lemma BetweenTheMarks(pre: string, text: string, s: string)
    requires s == pre + "\"" + text + ";\""
    ensures Substring(s, |pre| + 1, |pre + "\"" + text|) == text
  {
    assert s[|pre| + 1..|pre| + 1 + |text|] == text;
  }

  /** Reading back what was written gives the text without its double quotes, whatever the
      text; so the round trip is the identity exactly on the texts without any. */
  lemma DeserializeAfterSerialize(v: Value)
    ensures HashDeserialize(HashSerialize(v)) == WithoutQuotes(ValueText(v))
    ensures HashDeserialize(HashSerialize(v)) == ValueText(v) <==> '"' !in ValueText(v)
  {
    SerializedTextIsRead(v, HashSerialize(v));
    QuoteFreeIffUnchanged(ValueText(v));
  }

  lemma SerializedTextIsRead(v: Value, s: string)
    requires s == HashSerialize(v)
    ensures HashDeserialize(s) == WithoutQuotes(ValueText(v))
  {
    SerializedValueIsFound(v, s);
  }

  lemma {:induction false} QuoteFreeIffUnchanged(s: string)
    ensures WithoutQuotes(s) == s <==> '"' !in s
  {
    if s != "" {
      QuoteFreeIffUnchanged(s[1..]);
      assert s == [s[0]] + s[1..];
      if s[0] == '"' {
        assert WithoutQuotes(s) == WithoutQuotes(s[1..]);
        assert |WithoutQuotes(s)| < |s|;
      }
    }
  }

  /** A number has no quotes, so it comes back as its decimal text. */
  lemma NumbersComeBackAsText(n: int)
    ensures HashDeserialize(HashSerialize(NumberValue(n))) == IntText(n)
  {
    DeserializeAfterSerialize(NumberValue(n));
  }

  // ---------------------------------------------------------------- encrypt and decrypt

  datatype Envelope = Envelope(iv: string, value: string, mac: string)

  datatype CryptoError = PayloadCannotBeParsed | CannotDecipher

  /** The cipher, the keyed hash and the JSON and base64 packing, whatever they are. The
      arguments of the cipher are the algorithm, the key, the initial vector and the text;
      its output comes in two parts, from `update` and from `final`. */
  datatype Library = Library(
    update: (string, string, string, string) -> string,
    final: (string, string, string, string) -> string,
    decipherUpdate: (string, string, string, string) -> Option<string>,
    decipherFinal: (string, string, string, string) -> Option<string>,
    hmac: (string, string, string) -> string,
    pack: Envelope -> string,
    unpack: string -> Option<Envelope>)

  /** Deciphering inverts enciphering, and unpacking inverts packing. */
  ghost predicate Invertible(lib: Library) {
    && (forall algorithm, key, iv, text ::
          var cipherText := lib.update(algorithm, key, iv, text) + lib.final(algorithm, key, iv, text);
          var head, tail := lib.decipherUpdate(algorithm, key, iv, cipherText),
              lib.decipherFinal(algorithm, key, iv, cipherText);
          head.Some? && tail.Some? && head.value + tail.value == text)
    && (forall e :: lib.unpack(lib.pack(e)) == Some(e))
  }

  class CryptoUtils {
    const lib: Library
    var algorithm: string
    var sha: string
    var key: string

    constructor (lib: Library, algorithm: string, sha: string, key: string)
      ensures this.lib == lib && this.algorithm == algorithm && this.sha == sha && this.key == key
    {
      this.lib, this.algorithm, this.sha, this.key := lib, algorithm, sha, key;
    }

    function Encrypted(v: Value, iv: string): string
      reads this
    {
      var text := HashSerialize(v);
      var cipherText := lib.update(algorithm, key, iv, text) + lib.final(algorithm, key, iv, text);
      lib.pack(Envelope(iv, cipherText, lib.hmac(sha, key, iv + cipherText)))
    }

    /** What a payload is read as; each of the three stages can throw. */
    function Decrypted(payload: string): Result<string, CryptoError>
      reads this
    {
      match lib.unpack(payload)
      case None => Err(PayloadCannotBeParsed)
      case Some(e) =>
        var head, tail := lib.decipherUpdate(algorithm, key, e.iv, e.value),
            lib.decipherFinal(algorithm, key, e.iv, e.value);
        if head.None? || tail.None? then Err(CannotDecipher) else Ok(HashDeserialize(head.value + tail.value))
    }

    /** Under the same algorithm and key, and for every cipher that can be inverted,
        decrypting what was encrypted gives the text without its double quotes: the text
        itself if and only if it has none. */
    lemma DecryptAfterEncrypt(v: Value, iv: string)
      requires Invertible(lib)
      ensures Decrypted(Encrypted(v, iv)) == Ok(WithoutQuotes(ValueText(v)))
      ensures Decrypted(Encrypted(v, iv)) == Ok(ValueText(v)) <==> '"' !in ValueText(v)
    {
      var text := HashSerialize(v);
      var cipherText := lib.update(algorithm, key, iv, text) + lib.final(algorithm, key, iv, text);
      assert lib.unpack(Encrypted(v, iv)) == Some(Envelope(iv, cipherText, lib.hmac(sha, key, iv + cipherText)));
      DeserializeAfterSerialize(v);
    }

    /** `iv` is a fresh random vector, in base64. Whatever it is, and for every cipher that
        can be inverted, the payload can be decrypted under the same algorithm and key, and
        gives the text without its double quotes. */
    method Encrypt(v: Value, iv: string) returns (payload: string)
      ensures payload == Encrypted(v, iv)
      ensures Invertible(lib) ==> Decrypted(payload) == Ok(WithoutQuotes(ValueText(v)))
    {
      var serializedValue := HashSerialize(v);
      var encrypted := lib.update(algorithm, key, iv, serializedValue);
      encrypted := encrypted + lib.final(algorithm, key, iv, serializedValue);
      var mac := lib.hmac(sha, key, iv + encrypted);
      payload := lib.pack(Envelope(iv, encrypted, mac));
      if Invertible(lib) {
        DecryptAfterEncrypt(v, iv);
      }
    }

    /** Gives back what was encrypted, without its double quotes; whatever the payload, no
        result has any. */
    method Decrypt(payload: string) returns (r: Result<string, CryptoError>)
      ensures r == Decrypted(payload)
      ensures Invertible(lib) ==> forall v, iv :: payload == Encrypted(v, iv) ==> r == Ok(WithoutQuotes(ValueText(v)))
      ensures r.Ok? ==> '"' !in r.value
      ensures r == Err(PayloadCannotBeParsed) <==> lib.unpack(payload).None?
    {
      var envelope := lib.unpack(payload);
      if envelope.None? {
        assert Invertible(lib) ==> forall v, iv :: payload != Encrypted(v, iv);
        return Err(PayloadCannotBeParsed);
      }
      forall v, iv | Invertible(lib) && payload == Encrypted(v, iv)
        ensures Decrypted(payload) == Ok(WithoutQuotes(ValueText(v)))
      {
        DecryptAfterEncrypt(v, iv);
      }
      var head := lib.decipherUpdate(algorithm, key, envelope.value.iv, envelope.value.value);
      if head.None? {
        return Err(CannotDecipher);
      }
      var tail := lib.decipherFinal(algorithm, key, envelope.value.iv, envelope.value.value);
      if tail.None? {
        return Err(CannotDecipher);
      }
      var decrypted := head.value + tail.value;
      return Ok(HashDeserialize(decrypted));
    }
  }
}
