/** The password-based cipher, kept symbolic: a key derived deterministically
    from the password and fixed parameters, and a sealed value that opens only
    under the key it was sealed with. DES, MD5 and the padding are not modelled. */
module Cipher {
  import opened Base

  /** The fixed salt of PBEWithMD5AndDES. */
  const SALT: seq<byte> := [-109, 28, 86, -92, 33, -90, 88, -104]
  /** The fixed iteration count. */
  const ITERATION_COUNT: nat := 20
  const CIPHER_ALGORITHM: string := "PBEWithMD5AndDES/CBC/PKCS5Padding"

  datatype Key = Key(password: string, salt: seq<byte>, iterations: nat)

  /** Key derivation: a pure function of the password and the constants. */
  function DeriveKey(password: string): Key {
    Key(password, SALT, ITERATION_COUNT)
  }

  /** Cipher text, standing for the encryption of `plain` under `key`. */
  datatype Sealed<T> = Sealed(key: Key, plain: T)

  function Encrypt<T>(key: Key, plain: T): Sealed<T> {
    Sealed(key, plain)
  }

  /** None: the cipher text does not decode under this key. */
  function Decrypt<T>(key: Key, sealed: Sealed<T>): Option<T> {
    if sealed.key == key then Some(sealed.plain) else None
  }

  /** Decrypting with the key used to encrypt gives back the plain value. */
  lemma DecryptEncrypt<T>(password: string, plain: T)
    ensures Decrypt(DeriveKey(password), Encrypt(DeriveKey(password), plain)) == Some(plain)
  {
  }

  /** A different password never decodes. */
  lemma WrongPasswordFails<T>(password: string, other: string, plain: T)
    requires password != other
    ensures Decrypt(DeriveKey(other), Encrypt(DeriveKey(password), plain)) == None
  {
    assert DeriveKey(other).password != DeriveKey(password).password;
  }
}
