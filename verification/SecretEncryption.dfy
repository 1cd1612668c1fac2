/**
  backend/core/secret_manager.py, SecretEncryption: the wire format around AES-256-GCM.

  The cipher and base64 are library code: `Library` carries them as functions and `Lawful`
  states what is used of them.  Plaintexts are byte strings, after UTF-8 encoding.
 */
module SecretEncryption {
  import opened Wrappers

  type Bytes = seq<bv8>

  const NONCE_BYTES := 12
  const TAG_BYTES := 16
  const KEY_BYTES := 32
  const INSECURE := "insecure:"

  datatype CipherError = BadKey | BadEncoding | TooShort | Unavailable | Corrupt

  /** `seal` returns ciphertext followed by tag; `open` takes the same. */
  datatype Library = Library(
    available: bool,
    seal: (Bytes, Bytes, Bytes) -> Bytes,
    open: (Bytes, Bytes, Bytes) -> Option<Bytes>,
    encode: Bytes -> string,
    decode: string -> Option<Bytes>)

  ghost predicate Lawful(lib: Library) {
    && (forall key, nonce, plain :: |lib.seal(key, nonce, plain)| == |plain| + TAG_BYTES)
    && (forall key, nonce, plain :: lib.open(key, nonce, lib.seal(key, nonce, plain)) == Some(plain))
    && (forall raw :: lib.decode(lib.encode(raw)) == Some(raw))
    && (forall raw :: ':' !in lib.encode(raw))
  }

  /** Python's `s[:-n]` and `s[-n:]`, which do not fail on short strings. */
  function DropLast(s: Bytes, n: nat): Bytes { if |s| <= n then [] else s[..|s| - n] }

  function TakeLast(s: Bytes, n: nat): Bytes { if |s| <= n then s else s[|s| - n..] }

  function Encrypt(lib: Library, key: Bytes, nonce: Bytes, plain: Bytes): Result<string, CipherError> {
    if !lib.available then Ok(INSECURE + lib.encode(plain))
    else if |key| != KEY_BYTES then Err(BadKey)
    else
      var sealed := lib.seal(key, nonce, plain);
      Ok(lib.encode(nonce + TakeLast(sealed, TAG_BYTES) + DropLast(sealed, TAG_BYTES)))
  }

  function Decrypt(lib: Library, key: Bytes, blob: string): Result<Bytes, CipherError> {
    if INSECURE <= blob then
      var raw := lib.decode(blob[|INSECURE|..]);
      if raw.Some? then Ok(raw.value) else Err(BadEncoding)
    else if !lib.available then Err(Unavailable)
    else if |key| != KEY_BYTES then Err(BadKey)
    else
      var raw := lib.decode(blob);
      if raw.None? then Err(BadEncoding)
      else if |raw.value| < NONCE_BYTES + TAG_BYTES + 1 then Err(TooShort)
      else
        var nonce := raw.value[..NONCE_BYTES];
        var tag := raw.value[NONCE_BYTES..NONCE_BYTES + TAG_BYTES];
        var plain := lib.open(key, nonce, raw.value[NONCE_BYTES + TAG_BYTES..] + tag);
        if plain.Some? then Ok(plain.value) else Err(Corrupt)
  }

  /** The blob is nonce, then tag, then ciphertext, and never looks like the fallback form. */
  lemma WireFormat(lib: Library, key: Bytes, nonce: Bytes, plain: Bytes)
    requires Lawful(lib) && lib.available && |key| == KEY_BYTES
    ensures var e := Encrypt(lib, key, nonce, plain);
            && e.Ok? && !(INSECURE <= e.value)
            && exists ciphertext, tag ::
                 && |ciphertext| == |plain| && |tag| == TAG_BYTES
                 && lib.seal(key, nonce, plain) == ciphertext + tag
                 && lib.decode(e.value) == Some(nonce + tag + ciphertext)
  {
    var sealed := lib.seal(key, nonce, plain);
    var ciphertext, tag := DropLast(sealed, TAG_BYTES), TakeLast(sealed, TAG_BYTES);
    assert sealed == ciphertext + tag;
    var blob := Encrypt(lib, key, nonce, plain).value;
    FallbackHasColon(blob);
  }

  lemma FallbackHasColon(blob: string)
    ensures INSECURE <= blob ==> ':' in blob
  {
    if INSECURE <= blob {
      assert blob[8] == INSECURE[8] == ':';
    }
  }

  /**
    What decryption gives back, with the cipher or the fallback at encryption time and the
    library possibly installed in between: everything but the empty plaintext, whose 28-byte
    blob is refused as too short.
   */
  lemma DecryptsWhatItEncrypted(lib: Library, later: Library, key: Bytes, nonce: Bytes, plain: Bytes)
    requires Lawful(lib) && |nonce| == NONCE_BYTES
    requires later == lib || later == lib.(available := true)
    ensures Encrypt(lib, key, nonce, plain).Ok? <==> !lib.available || |key| == KEY_BYTES
    ensures var e := Encrypt(lib, key, nonce, plain);
            e.Ok? ==>
              && (Decrypt(later, key, e.value) == Ok(plain) <==> !lib.available || plain != [])
              && (lib.available && plain == [] ==> Decrypt(later, key, e.value) == Err(TooShort))
  {
    if lib.available && |key| == KEY_BYTES {
      WireFormat(lib, key, nonce, plain);
      var blob := Encrypt(lib, key, nonce, plain).value;
      var ciphertext, tag :|
        && |ciphertext| == |plain| && |tag| == TAG_BYTES
        && lib.seal(key, nonce, plain) == ciphertext + tag
        && lib.decode(blob) == Some(nonce + tag + ciphertext);
      var raw := nonce + tag + ciphertext;
      assert raw[..NONCE_BYTES] == nonce;
      assert raw[NONCE_BYTES..NONCE_BYTES + TAG_BYTES] == tag;
      assert raw[NONCE_BYTES + TAG_BYTES..] == ciphertext;
    } else if !lib.available {
      var coded := lib.encode(plain);
      assert (INSECURE + coded)[|INSECURE|..] == coded;
    }
  }

  /** The cipher opens nothing but what it sealed under the same key and nonce. */
  ghost predicate Authentic(lib: Library) {
    forall key, nonce, sealed :: lib.open(key, nonce, sealed).Some? ==>
      sealed == lib.seal(key, nonce, lib.open(key, nonce, sealed).value)
  }

  lemma Unsealed(lib: Library, key: Bytes, nonce: Bytes, plain: Bytes, tag: Bytes, ciphertext: Bytes)
    requires Lawful(lib) && lib.available && |key| == KEY_BYTES && |tag| == TAG_BYTES
    ensures lib.decode(Encrypt(lib, key, nonce, plain).value) == Some(nonce + tag + ciphertext) <==>
              lib.seal(key, nonce, plain) == ciphertext + tag
  {
    var sealed := lib.seal(key, nonce, plain);
    var c, t := DropLast(sealed, TAG_BYTES), TakeLast(sealed, TAG_BYTES);
    assert sealed == c + t && lib.decode(Encrypt(lib, key, nonce, plain).value) == Some(nonce + t + c);
    if nonce + t + c == nonce + tag + ciphertext {
      assert (nonce + t + c)[|nonce|..|nonce| + TAG_BYTES] == t;
      assert (nonce + tag + ciphertext)[|nonce|..|nonce| + TAG_BYTES] == tag;
      assert (nonce + t + c)[|nonce| + TAG_BYTES..] == c;
      assert (nonce + tag + ciphertext)[|nonce| + TAG_BYTES..] == ciphertext;
    }
    if sealed == ciphertext + tag {
      assert (ciphertext + tag)[..|ciphertext|] == ciphertext && (ciphertext + tag)[|ciphertext|..] == tag;
    }
  }

  /**
    Decryption under a key yields a plaintext exactly from what encryption under that key writes for it,
    and every other text of sufficient length is refused as corrupt: altered blobs and foreign keys.
   */
  lemma DecryptsOnlyWhatItWrites(lib: Library, key: Bytes, blob: string, plain: Bytes)
    requires Lawful(lib) && Authentic(lib) && lib.available && |key| == KEY_BYTES && !(INSECURE <= blob)
    ensures Decrypt(lib, key, blob) == Ok(plain) <==>
              && plain != [] && lib.decode(blob).Some? && |lib.decode(blob).value| >= NONCE_BYTES
              && lib.decode(Encrypt(lib, key, lib.decode(blob).value[..NONCE_BYTES], plain).value) == lib.decode(blob)
    ensures lib.decode(blob).Some? && |lib.decode(blob).value| > NONCE_BYTES + TAG_BYTES ==>
              Decrypt(lib, key, blob).Ok? || Decrypt(lib, key, blob) == Err(Corrupt)
    ensures lib.decode(blob).None? ==> Decrypt(lib, key, blob) == Err(BadEncoding)
  {
    var raw := lib.decode(blob);
    if raw.Some? && |raw.value| >= NONCE_BYTES + TAG_BYTES {
      var nonce, tag := raw.value[..NONCE_BYTES], raw.value[NONCE_BYTES..NONCE_BYTES + TAG_BYTES];
      var ciphertext := raw.value[NONCE_BYTES + TAG_BYTES..];
      assert raw.value == nonce + tag + ciphertext;
      Unsealed(lib, key, nonce, plain, tag, ciphertext);
      assert |lib.seal(key, nonce, plain)| == |plain| + TAG_BYTES;
    } else if raw.Some? && |raw.value| >= NONCE_BYTES {
      WrittenLength(lib, key, raw.value[..NONCE_BYTES], plain);
    }
  }

  lemma WrittenLength(lib: Library, key: Bytes, nonce: Bytes, plain: Bytes)
    requires Lawful(lib) && lib.available && |key| == KEY_BYTES
    ensures var raw := lib.decode(Encrypt(lib, key, nonce, plain).value);
            raw.Some? && |raw.value| == |nonce| + TAG_BYTES + |plain|
  {
    assert |lib.seal(key, nonce, plain)| == |plain| + TAG_BYTES;
  }

  /**
    What fails for which reason: the library missing, a key of the wrong length, a fallback text that is
    no base64.
   */
  lemma CipherErrors(lib: Library, key: Bytes, nonce: Bytes, plain: Bytes, blob: string)
    ensures lib.available && |key| != 32 ==> Encrypt(lib, key, nonce, plain) == Err(BadKey)
    ensures !(INSECURE <= blob) && !lib.available ==> Decrypt(lib, key, blob) == Err(Unavailable)
    ensures !(INSECURE <= blob) && lib.available && |key| != 32 ==> Decrypt(lib, key, blob) == Err(BadKey)
    ensures Decrypt(lib, key, INSECURE + blob)
            == if lib.decode(blob).Some? then Ok(lib.decode(blob).value) else Err(BadEncoding)
  {
    assert (INSECURE + blob)[|INSECURE|..] == blob;
  }
}
