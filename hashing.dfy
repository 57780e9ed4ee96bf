/**
 * The hashing helpers of ingestion/extract.py. SHA-256 itself is kept abstract: every
 * operation takes the hash as a parameter of type Sha256, any function from byte strings
 * to 64-character lower-case hexadecimal digests. What is modelled exactly is the text
 * entry point, which hashes the UTF-8 encoding of its argument.
 */
module Hashing {

  newtype byte = x: int | 0 <= x < 256

  predicate IsLowerHex(c: char) { '0' <= c <= '9' || 'a' <= c <= 'f' }

  /** A SHA-256 hexdigest: 64 lower-case hexadecimal characters. */
  type Digest = s: string | |s| == 64 && forall i :: 0 <= i < |s| ==> IsLowerHex(s[i])
    witness seq(64, _ => '0')

  /** hashlib.sha256(data).hexdigest(), as an uninterpreted function. */
  type Sha256 = seq<byte> -> Digest

  /** sha256_bytes. */
  function Sha256Bytes(sha: Sha256, data: seq<byte>): (d: Digest)
    ensures |d| == 64
  {
    sha(data)
  }

  /** sha256_text: the digest of text.encode('utf-8'). */
  function Sha256Text(sha: Sha256, text: string): Digest
  {
    Sha256Bytes(sha, Utf8(text))
  }

  /** sha256_text of an ASCII text hashes the text's code points, one byte per character. */
  lemma Sha256TextOfAscii(sha: Sha256, text: string, bytes: seq<byte>)
    requires forall i :: 0 <= i < |text| ==> text[i] as int < 0x80
    requires |bytes| == |text| && forall i :: 0 <= i < |text| ==> bytes[i] as int == text[i] as int
    ensures Sha256Text(sha, text) == sha(bytes)
  {
    Utf8OfAscii(text);
    assert Utf8(text) == bytes;
  }

  /** The number of bytes a UTF-8 sequence has, read off its first byte. */
  function LeadLength(b: byte): nat
  {
    if b < 0x80 then 1 else if b < 0xE0 then 2 else if b < 0xF0 then 3 else 4
  }

  predicate IsContinuation(b: byte) { 0x80 <= b < 0xC0 }

  /** The UTF-8 encoding of one Unicode scalar value. */
  function EncodeChar(c: char): (bs: seq<byte>)
    ensures 1 <= |bs| <= 4
    ensures |bs| == LeadLength(bs[0])
    ensures forall i :: 1 <= i < |bs| ==> IsContinuation(bs[i])
  {
    var cp := c as int;
    if cp < 0x80 then
      [cp as byte]
    else if cp < 0x800 then
      [(0xC0 + cp / 64) as byte, (0x80 + cp % 64) as byte]
    else if cp < 0x1_0000 then
      [(0xE0 + cp / 4096) as byte, (0x80 + (cp / 64) % 64) as byte, (0x80 + cp % 64) as byte]
    else
      [(0xF0 + cp / 262144) as byte, (0x80 + (cp / 4096) % 64) as byte,
       (0x80 + (cp / 64) % 64) as byte, (0x80 + cp % 64) as byte]
  }

  /** The code point that a well-formed 1- to 4-byte UTF-8 sequence stands for. */
  function CodePoint(bs: seq<byte>): int
    requires 1 <= |bs| <= 4
  {
    var b := bs[0] as int;
    if |bs| == 1 then b
    else if |bs| == 2 then (b - 0xC0) * 64 + (bs[1] as int - 0x80)
    else if |bs| == 3 then (b - 0xE0) * 4096 + (bs[1] as int - 0x80) * 64 + (bs[2] as int - 0x80)
    else (b - 0xF0) * 262144 + (bs[1] as int - 0x80) * 4096 + (bs[2] as int - 0x80) * 64
         + (bs[3] as int - 0x80)
  }

  /** Decoding one encoded character gives back its code point. */
  lemma CodePointOfEncodeChar(c: char)
    ensures CodePoint(EncodeChar(c)) == c as int
  {
    var cp := c as int;
    if 0x800 <= cp < 0x1_0000 {
      assert cp / 64 == (cp / 4096) * 64 + (cp / 64) % 64;
    } else if 0x1_0000 <= cp {
      assert cp / 4096 == (cp / 262144) * 64 + (cp / 4096) % 64;
      assert cp / 64 == (cp / 4096) * 64 + (cp / 64) % 64;
    }
  }

  lemma EncodeCharInjective(c: char, d: char)
    requires EncodeChar(c) == EncodeChar(d)
    ensures c == d
  {
    CodePointOfEncodeChar(c);
    CodePointOfEncodeChar(d);
  }

  /** text.encode('utf-8'). */
  function Utf8(text: string): (bs: seq<byte>)
    ensures |text| <= |bs| <= 4 * |text|
  {
    if text == [] then [] else EncodeChar(text[0]) + Utf8(text[1..])
  }

  /** Encoding distributes over concatenation. */
  lemma {:induction false} Utf8Append(a: string, b: string)
    ensures Utf8(a + b) == Utf8(a) + Utf8(b)
  {
    if a != [] {
      assert (a + b)[1..] == a[1..] + b;
      Utf8Append(a[1..], b);
    } else {
      assert a + b == b;
    }
  }

  /** An ASCII text encodes to one byte per character, each its code point. */
  lemma {:induction false} Utf8OfAscii(text: string)
    requires forall i :: 0 <= i < |text| ==> text[i] as int < 0x80
    ensures |Utf8(text)| == |text|
    ensures forall i :: 0 <= i < |text| ==> Utf8(text)[i] as int == text[i] as int
  {
    if text != [] {
      Utf8OfAscii(text[1..]);
    }
  }

  /**
   * Distinct texts have distinct encodings, so sha256_text separates two texts exactly
   * when the hash separates their byte strings.
   */
  lemma {:induction false} Utf8Injective(a: string, b: string)
    requires Utf8(a) == Utf8(b)
    ensures a == b
  {
    if a != [] && b != [] {
      var ea, eb := EncodeChar(a[0]), EncodeChar(b[0]);
      assert Utf8(a)[0] == ea[0] && Utf8(b)[0] == eb[0];
      assert |ea| == |eb|;
      assert ea == Utf8(a)[..|ea|] && eb == Utf8(b)[..|eb|];
      EncodeCharInjective(a[0], b[0]);
      assert Utf8(a[1..]) == Utf8(a)[|ea|..] == Utf8(b)[|eb|..] == Utf8(b[1..]);
      Utf8Injective(a[1..], b[1..]);
    }
  }

  /**
   * Two different texts with the same sha256_text are a SHA-256 collision: the hash gives the
   * same digest for two different byte strings.
   */
  lemma Sha256TextCollision(sha: Sha256, a: string, b: string)
    requires a != b && Sha256Text(sha, a) == Sha256Text(sha, b)
    ensures Utf8(a) != Utf8(b) && sha(Utf8(a)) == sha(Utf8(b))
  {
    if Utf8(a) == Utf8(b) {
      Utf8Injective(a, b);
    }
  }
}
