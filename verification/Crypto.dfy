/** The cryptographic library as an interface: total functions over byte strings, with the facts used about them. */
module Crypto {
  import opened Bytes

  const KEY_BYTES := 32
  const NONCE_BYTES := 12
  const TAG_BYTES := 16

  datatype Primitives = Primitives(
    hmac: (ByteString, ByteString) -> ByteString,                              // key, message
    hash: (ByteString, ByteString) -> ByteString,                              // key (possibly empty), message
    seal: (ByteString, ByteString, ByteString, ByteString) -> ByteString,      // key, nonce, header, plaintext
    unseal: (ByteString, ByteString, ByteString) -> Option<ByteString>,        // key, header, ciphertext
    publicKey: ByteString -> ByteString,
    dh: (ByteString, ByteString) -> Option<ByteString>                         // private, remote public
  ) {
    ghost predicate HmacSized() {
      forall k, m :: |hmac(k, m)| == KEY_BYTES
    }

    /** What holds of the real functions: output sizes, decryption undoes encryption, Diffie-Hellman agreement. */
    ghost predicate Sound() {
      && HmacSized()
      && (forall k, m :: |hash(k, m)| == KEY_BYTES)
      && (forall k, n, h, t :: unseal(k, h, seal(k, n, h, t)) == Some(t))
      && (forall k, n, h, t :: |seal(k, n, h, t)| == |t| + NONCE_BYTES + TAG_BYTES)
      && (forall a :: |publicKey(a)| == KEY_BYTES)
      && (forall a, b :: dh(a, publicKey(b)) == dh(b, publicKey(a)))
    }
  }
}
