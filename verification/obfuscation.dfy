/**
 The reversible XOR obfuscation of abc.java (encrypt/decrypt): character i of
 the text is XORed with character i mod 11 of the fixed key "supersecret".
 Java characters are UTF-16 code units, so a text is a sequence of 16-bit
 vectors. This is not encryption in any cryptographic sense.
 */
module Obfuscation {

  /** A Java String: a sequence of UTF-16 code units. */
  type Text = seq<bv16>

  /** The key "supersecret". */
  const Key: Text := [0x73, 0x75, 0x70, 0x65, 0x72, 0x73, 0x65, 0x63, 0x72, 0x65, 0x74]

  /** The Java text of a string literal whose characters all lie in the
      Basic Multilingual Plane (one UTF-16 unit each). */
  function FromLiteral(s: string): (r: Text)
    requires forall i | 0 <= i < |s| :: (s[i] as int) < 0x1_0000
    ensures |r| == |s|
  {
    seq(|s|, i requires 0 <= i < |s| => (s[i] as int) as bv16)
  }

  /** encrypt: XOR every unit with the key unit at the same position mod 11. */
  function Encrypt(data: Text): (r: Text)
    ensures |r| == |data|
    ensures forall i | 0 <= i < |data| :: r[i] ^ data[i] == Key[i % |Key|]
  {
    seq(|data|, i requires 0 <= i < |data| => data[i] ^ Key[i % |Key|])
  }

  /** decrypt is encrypt itself: XOR with the same key stream undoes it, so
      encrypting the result gives the input back. */
  function Decrypt(data: Text): (r: Text)
    ensures |r| == |data|
    ensures Encrypt(r) == data
  {
    EncryptTwice(data);
    Encrypt(data)
  }

  /** Applying the key stream twice is the identity. */
  lemma EncryptTwice(s: Text)
    ensures Encrypt(Encrypt(s)) == s
  {
  }

  /** Decrypting an encrypted text gives the text back. */
  lemma DecryptEncrypt(s: Text)
    ensures Decrypt(Encrypt(s)) == s
  {
    EncryptTwice(s);
  }
}
