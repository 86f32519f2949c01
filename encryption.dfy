/**
 * The secret cipher of backend/utils/encryption.js: key derivation from the
 * ENCRYPTION_KEY setting, encryption and decryption of one credential into a
 * hex (ciphertext, IV) pair, and the random password generator.
 *
 * The process environment and the crypto library are an `Environment` value;
 * the bytes the system CSPRNG returns are parameters.
 */
module Encryption {
  import opened Wrappers
  import opened Hex
  import Utf8
  import opened Cbc

  /** The AES block size, and so the length of every IV. */
  const IV_LENGTH: nat := 16
  const DEFAULT_PASSWORD_LENGTH: nat := 24

  /** The 88 characters a generated password is drawn from. */
  const CHARSET: string := "abcdefghijklmnopqrstuvwxyzABCDEFGHIJKLMNOPQRSTUVWXYZ0123456789!@#$%^&*()_+-=[]{}|;:,.<>?"

  const KEY_NOT_SET: string := "ENCRYPTION_KEY not set"
  const ENCRYPT_FAILED: string := "Failed to encrypt data"
  const DECRYPT_FAILED: string := "Failed to decrypt data"

  /**
   * What the cipher reads from outside: the ENCRYPTION_KEY variable (None when
   * unset), the AES-256 block cipher and the SHA-256 digest, whose result is
   * 32 bytes by its type.
   */
  datatype Environment = Environment(encryptionKey: Option<string>, aes: Aes256, sha256: seq<byte> -> Key)

  /** The stored form of one encrypted credential: `{ encrypted, iv }`, both hex. */
  datatype Sealed = Sealed(encrypted: string, iv: string)

  /** `!key` is false: the variable is set and not empty. */
  predicate KeyConfigured(env: Environment) {
    env.encryptionKey.Some? && env.encryptionKey.value != ""
  }

  /** `getKey`: refuses an unset key, otherwise hashes its UTF-8 bytes to 32 bytes. */
  function GetKey(env: Environment): (r: Result<Key, string>)
    ensures r.Ok? <==> KeyConfigured(env)
    ensures r.Err? ==> r.error == KEY_NOT_SET
    ensures r.Ok? ==> |r.value| == KEY_SIZE && r.value == env.sha256(Utf8.Encode(env.encryptionKey.value))
  {
    if !KeyConfigured(env) then Err(KEY_NOT_SET)
    else Ok(env.sha256(Utf8.Encode(env.encryptionKey.value)))
  }

  /**
   * `encrypt`: draws its own IV (`random`, the 16 bytes `crypto.randomBytes`
   * returned), encrypts the UTF-8 bytes of `text` in CBC mode after PKCS#7
   * padding, and returns ciphertext and IV as lower-case hex. Every failure
   * becomes the one error "Failed to encrypt data", with no partial result.
   */
  function Encrypt(env: Environment, text: string, random: seq<byte>): (r: Result<Sealed, string>)
    requires |random| == IV_LENGTH
    ensures r.Ok? <==> KeyConfigured(env)
    ensures r.Err? ==> r.error == ENCRYPT_FAILED
    ensures r.Ok? ==> r.value.iv == Hex.Encode(random) && |r.value.iv| == 2 * IV_LENGTH
    ensures r.Ok? ==> IsLowerHex(r.value.iv) && IsLowerHex(r.value.encrypted)
    ensures r.Ok? ==> |r.value.encrypted| == 32 * (|Utf8.Encode(text)| / BLOCK_SIZE + 1)
    ensures r.Ok? ==> |r.value.encrypted| >= 2 * BLOCK_SIZE
  {
    match GetKey(env)
    case Err(_) => Err(ENCRYPT_FAILED)
    case Ok(key) =>
      var ciphertext := EncryptBlocks(env.aes, key, random, Pad(Utf8.Encode(text)));
      Ok(Sealed(Hex.Encode(ciphertext), Hex.Encode(random)))
  }

  /**
   * `decrypt`: `Buffer.from` decodes the IV leniently, and the IV must come to
   * 16 bytes; `decipher.update` refuses ciphertext hex of odd length before
   * decoding the rest as leniently; then CBC decryption, OpenSSL's padding
   * check, and UTF-8 decoding (ill-formed bytes become U+FFFD rather than an
   * error). Every failure becomes the one error "Failed to decrypt data",
   * with no partial plaintext.
   */
  function Decrypt(env: Environment, encryptedText: string, ivHex: string): (r: Result<string, string>)
    ensures r.Err? ==> r.error == DECRYPT_FAILED
    ensures !KeyConfigured(env) ==> r.Err?
    ensures |Hex.Decode(ivHex)| != IV_LENGTH ==> r.Err?
    ensures |encryptedText| % 2 == 1 ==> r.Err?
    ensures var c := Hex.Decode(encryptedText); (|c| == 0 || |c| % BLOCK_SIZE != 0) ==> r.Err?
    ensures r.Ok? <==>
      && KeyConfigured(env) && |Hex.Decode(ivHex)| == IV_LENGTH && |encryptedText| % 2 == 0
      && |Hex.Decode(encryptedText)| % BLOCK_SIZE == 0
      && Unpad(DecryptBlocks(env.aes, GetKey(env).value, Hex.Decode(ivHex), Hex.Decode(encryptedText))).Some?
  {
    var iv := Hex.Decode(ivHex);
    match GetKey(env)
    case Err(_) => Err(DECRYPT_FAILED)
    case Ok(key) =>
      if |iv| != IV_LENGTH then Err(DECRYPT_FAILED)
      else if |encryptedText| % 2 == 1 then Err(DECRYPT_FAILED)
      else
        var ciphertext := Hex.Decode(encryptedText);
        if |ciphertext| % BLOCK_SIZE != 0 then Err(DECRYPT_FAILED)
        else
          match Unpad(DecryptBlocks(env.aes, key, iv, ciphertext))
          case None => Err(DECRYPT_FAILED)
          case Some(m) => Ok(Utf8.Decode(m))
  }

  /** Round trip: whatever `encrypt` returns, `decrypt` turns back into the original text. */
  lemma EncryptDecrypt(env: Environment, text: string, random: seq<byte>)
    requires |random| == IV_LENGTH
    ensures Encrypt(env, text, random).Ok? ==>
      var s := Encrypt(env, text, random).value;
      Decrypt(env, s.encrypted, s.iv) == Ok(text)
  {
    if KeyConfigured(env) {
      var key := GetKey(env).value;
      var m := Utf8.Encode(text);
      var ciphertext := EncryptBlocks(env.aes, key, random, Pad(m));
      Hex.DecodeEncode(random);
      Hex.DecodeEncode(ciphertext);
      assert |Hex.Encode(ciphertext)| % 2 == 0;
      DecryptEncryptBlocks(env.aes, key, random, Pad(m));
      UnpadIsInverseOfPad(m, Pad(m));
      Utf8.DecodeEncode(text);
    }
  }

  /** The character byte `b` selects: `charset[b % charset.length]`. */
  function PasswordChar(b: byte): (c: char)
    ensures c in CHARSET
  {
    CHARSET[b % |CHARSET|]
  }

  /**
   * `generateSecurePassword(length = 24)`: one character per random byte,
   * appended in order. `random` is what `crypto.randomBytes(length)` returned.
   */
  method GenerateSecurePassword(random: seq<byte>, length: nat := DEFAULT_PASSWORD_LENGTH) returns (password: string)
    requires |random| == length
    ensures |password| == length
    ensures forall i :: 0 <= i < length ==> password[i] == CHARSET[random[i] % 88]
    ensures forall i :: 0 <= i < length ==> password[i] in CHARSET
  {
    password := "";
    for i := 0 to length
      invariant |password| == i
      invariant forall j :: 0 <= j < i ==> password[j] == PasswordChar(random[j])
    {
      password := password + [PasswordChar(random[i])];
    }
  }
}
