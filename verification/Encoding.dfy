/** The base58 alphabet, in which binary values appear in text. */
module Encoding {
  predicate IsBase58Char(c: char) {
    '1' <= c <= '9' || ('A' <= c <= 'Z' && c != 'I' && c != 'O') || ('a' <= c <= 'z' && c != 'l')
  }

  predicate IsBase58(s: string) {
    forall c :: c in s ==> IsBase58Char(c)
  }

  type Base58 = s: string | IsBase58(s) witness ""
}
