/** The one hash encoding and the integrity chain's preimage.

    SHA-256 itself is a parameter: every fact holds of whatever function a
    caller passes. */
module Canonical {
  import opened Basics

  /** A SHA-256 digest. */
  type Digest = d: Bytes | |d| == 32 witness ZEROS

  /** The chain hash's domain separator, "consolebook-version-v1". */
  const CHAIN_DOMAIN: Bytes := [
    0x63, 0x6f, 0x6e, 0x73, 0x6f, 0x6c, 0x65, 0x62, 0x6f, 0x6f, 0x6b, 0x2d,
    0x76, 0x65, 0x72, 0x73, 0x69, 0x6f, 0x6e, 0x2d, 0x76, 0x31]

  const ZEROS: Bytes := [
    0, 0, 0, 0, 0, 0, 0, 0, 0, 0, 0, 0, 0, 0, 0, 0,
    0, 0, 0, 0, 0, 0, 0, 0, 0, 0, 0, 0, 0, 0, 0, 0]

  // -------------------------------------------------------------------- hex

  function HexDigit(n: int): char
    requires 0 <= n < 16
  {
    if n < 10 then '0' + n as char else 'a' + (n - 10) as char
  }

  function ToHex(bytes: Bytes): string {
    if bytes == [] then ""
    else [HexDigit(bytes[0] as int / 16), HexDigit(bytes[0] as int % 16)] + ToHex(bytes[1..])
  }

  function DigitOf(c: char): (r: Option<int>)
    ensures r.Some? ==> 0 <= r.value < 16
  {
    if '0' <= c <= '9' then Some(c as int - '0' as int)
    else if 'a' <= c <= 'f' then Some(c as int - 'a' as int + 10)
    else if 'A' <= c <= 'F' then Some(c as int - 'A' as int + 10)
    else None
  }

  /** Two characters read in radix 16 as the decoder reads them: either case,
      and a leading plus sign is dropped. */
  function PairOf(a: char, b: char): Option<byte> {
    if a == '+' then
      if DigitOf(b).Some? then Some(DigitOf(b).value as byte) else None
    else if DigitOf(a).Some? && DigitOf(b).Some? then
      Some((16 * DigitOf(a).value + DigitOf(b).value) as byte)
    else None
  }

  function FromPairs(hex: string): (r: Option<Bytes>)
    requires |hex| % 2 == 0
    ensures r.Some? ==> 2 * |r.value| == |hex|
  {
    if hex == "" then Some([])
    else
      var rest := FromPairs(hex[2..]);
      var head := PairOf(hex[0], hex[1]);
      if head.None? || rest.None? then None else Some([head.value] + rest.value)
  }

  /** A stored content hash decoded to its digest. */
  function FromHex32(hex: string): Option<Digest> {
    if |hex| != 64 then None
    else
      var bytes := FromPairs(hex);
      if bytes.None? then None else Some(bytes.value)
  }

  predicate LowerHex(c: char) {
    '0' <= c <= '9' || 'a' <= c <= 'f'
  }

  predicate IsLowercaseHexHash(hex: string) {
    |hex| == 64 && forall i | 0 <= i < 64 :: LowerHex(hex[i])
  }

  lemma {:induction false} HexLength(bytes: Bytes)
    ensures |ToHex(bytes)| == 2 * |bytes|
    ensures forall i | 0 <= i < |ToHex(bytes)| :: LowerHex(ToHex(bytes)[i])
  {
    if bytes != [] {
      HexLength(bytes[1..]);
    }
  }

  lemma PairUndoesByte(b: byte)
    ensures PairOf(HexDigit(b as int / 16), HexDigit(b as int % 16)) == Some(b)
  {
    var high, low := b as int / 16, b as int % 16;
    assert DigitOf(HexDigit(high)) == Some(high) && DigitOf(HexDigit(low)) == Some(low);
    assert b as int == 16 * high + low;
  }

  lemma ByteUndoesPair(a: char, b: char)
    requires LowerHex(a) && LowerHex(b)
    ensures PairOf(a, b).Some?
    ensures var n := PairOf(a, b).value as int; HexDigit(n / 16) == a && HexDigit(n % 16) == b
  {
    var high, low := DigitOf(a).value, DigitOf(b).value;
    var n := PairOf(a, b).value as int;
    assert n == 16 * high + low && n / 16 == high && n % 16 == low;
  }

  lemma {:induction false} PairsUndoHex(bytes: Bytes)
    ensures |ToHex(bytes)| == 2 * |bytes| && FromPairs(ToHex(bytes)) == Some(bytes)
  {
    if bytes != [] {
      PairsUndoHex(bytes[1..]);
      PairUndoesByte(bytes[0]);
      assert ToHex(bytes)[2..] == ToHex(bytes[1..]);
      assert bytes == [bytes[0]] + bytes[1..];
    }
  }

  lemma {:induction false} HexUndoesPairs(hex: string)
    requires |hex| % 2 == 0
    requires forall i | 0 <= i < |hex| :: LowerHex(hex[i])
    ensures FromPairs(hex).Some? && ToHex(FromPairs(hex).value) == hex
  {
    if hex != "" {
      ByteUndoesPair(hex[0], hex[1]);
      HexUndoesPairs(hex[2..]);
      assert FromPairs(hex).value[1..] == FromPairs(hex[2..]).value;
      assert hex == [hex[0], hex[1]] + hex[2..];
    }
  }

  /** Every digest survives its encoding, and the encoding is always of the
      stored form. */
  lemma DigestRoundTrip(d: Digest)
    ensures IsLowercaseHexHash(ToHex(d)) && FromHex32(ToHex(d)) == Some(d)
  {
    HexLength(d);
    PairsUndoHex(d);
  }

  /** A text survives decoding exactly when it is of the stored form; the
      decoder alone accepts more. */
  lemma HexRoundTripIsExact(hex: string)
    ensures (FromHex32(hex).Some? && ToHex(FromHex32(hex).value) == hex) <==> IsLowercaseHexHash(hex)
  {
    if IsLowercaseHexHash(hex) {
      HexUndoesPairs(hex);
    } else if FromHex32(hex).Some? && ToHex(FromHex32(hex).value) == hex {
      HexLength(FromHex32(hex).value);
    }
  }

  /** Why the stored-form test is needed: a pair can be spelt in upper case, or
      with a sign, and still decode to the same byte. */
  lemma OtherSpellingsDecode(n: int)
    requires 10 <= n < 16
    ensures var low, high := HexDigit(n), 'A' + (n - 10) as char;
      && PairOf('0', low) == PairOf('0', high) == PairOf('+', low) == Some(n as byte)
      && LowerHex(low) && !LowerHex(high) && !LowerHex('+')
  {
  }

  /** The decoder's loop over a 32-byte array. */
  method DecodeHash(hex: string) returns (r: Option<array<byte>>)
    ensures r.Some? == FromHex32(hex).Some?
    ensures r.Some? ==> fresh(r.value) && r.value[..] == FromHex32(hex).value
  {
    if |hex| != 64 {
      return None;
    }
    var bytes := new byte[32](_ => 0);
    var i := 0;
    while i < 32
      invariant 0 <= i <= 32
      invariant var rest := FromPairs(hex[2 * i..]);
                rest.Some? == FromPairs(hex).Some? && (rest.Some? ==> FromPairs(hex).value == bytes[..i] + rest.value)
    {
      var rest := hex[2 * i..];
      assert rest[2..] == hex[2 * (i + 1)..];
      var pair := PairOf(hex[2 * i], hex[2 * i + 1]);
      if pair.None? {
        return None;
      }
      bytes[i] := pair.value;
      i := i + 1;
    }
    assert bytes[..32] == bytes[..];
    return Some(bytes);
  }

  // ------------------------------------------------------------------ chain

  function PredecessorBytes(predecessor: Option<Digest>): Digest {
    if predecessor.Some? then predecessor.value else ZEROS
  }

  /** What the chain hash covers: the domain, a zero byte, the predecessor's
      digest or zeros, and the canonical bytes. */
  function ChainPreimage(predecessor: Option<Digest>, canonical: Bytes): Bytes {
    CHAIN_DOMAIN + [0] + PredecessorBytes(predecessor) + canonical
  }

  function ContentHash(sha: Bytes -> Digest, canonical: Bytes): string {
    ToHex(sha(canonical))
  }

  /** `None` when the stated predecessor hash does not decode. */
  function ChainHash(sha: Bytes -> Digest, predecessor: Option<string>, canonical: Bytes): Option<string> {
    match predecessor
    case None => Some(ToHex(sha(ChainPreimage(None, canonical))))
    case Some(hex) =>
      var digest := FromHex32(hex);
      if digest.None? then None else Some(ToHex(sha(ChainPreimage(digest, canonical))))
  }

  /** Both fingerprints are written in the stored form. */
  lemma HashesAreStoredForm(sha: Bytes -> Digest, predecessor: Option<string>, canonical: Bytes)
    ensures IsLowercaseHexHash(ContentHash(sha, canonical))
    ensures var chain := ChainHash(sha, predecessor, canonical);
      chain.Some? ==> IsLowercaseHexHash(chain.value)
  {
    DigestRoundTrip(sha(canonical));
    var digest := if predecessor.Some? then FromHex32(predecessor.value) else None;
    DigestRoundTrip(sha(ChainPreimage(digest, canonical)));
  }

  /** The preimage is unambiguous: it fixes the bytes and the predecessor, a
      missing one and an all-zero one being the same by design. */
  lemma PreimageIsUnambiguous(p: Option<Digest>, a: Bytes, q: Option<Digest>, b: Bytes)
    ensures ChainPreimage(p, a) == ChainPreimage(q, b)
            <==> a == b && PredecessorBytes(p) == PredecessorBytes(q)
  {
    var x, y := ChainPreimage(p, a), ChainPreimage(q, b);
    var n := |CHAIN_DOMAIN| + 1;
    if x == y {
      assert x[n..n + 32] == PredecessorBytes(p) && y[n..n + 32] == PredecessorBytes(q);
      assert x[n + 32..] == a && y[n + 32..] == b;
    }
  }

  /** A text's characters as bytes. */
  function AsciiBytes(text: string): Bytes
    requires forall i | 0 <= i < |text| :: text[i] as int < 128
  {
    seq(|text|, i requires 0 <= i < |text| => text[i] as int as byte)
  }

  /** The bytes the format hashes for a link: the domain's name, a zero byte, 32
      bytes for the predecessor, the canonical bytes. */
  function LinkBytes(previous: Bytes, canonical: Bytes): Bytes {
    AsciiBytes("consolebook-version-v1") + [0] + previous + canonical
  }

  /** The 32 bytes a stated predecessor stands for: its hash decoded, zeros where
      there is none. */
  predicate StandsFor(previous: Bytes, predecessor: Option<string>) {
    match predecessor
    case None => previous == seq(32, _ => 0)
    case Some(hex) => FromHex32(hex) == Some(previous)
  }

  /** What a chain hash is: the hash of the link's bytes, whose predecessor part is
      the stated predecessor's hash decoded, and it is refused exactly when that does
      not decode. */
  lemma ChainHashCoversTheLink(sha: Bytes -> Digest, predecessor: Option<string>, canonical: Bytes)
    ensures forall previous | StandsFor(previous, predecessor) ::
      ChainHash(sha, predecessor, canonical) == Some(ToHex(sha(LinkBytes(previous, canonical))))
    ensures ChainHash(sha, predecessor, canonical) == None <==> forall previous :: !StandsFor(previous, predecessor)
  {
    assert AsciiBytes("consolebook-version-v1") == CHAIN_DOMAIN;
    assert ZEROS == seq(32, _ => 0);
    assert predecessor.None? ==> StandsFor(ZEROS, predecessor);
    if predecessor.Some? && FromHex32(predecessor.value).Some? {
      assert StandsFor(FromHex32(predecessor.value).value, predecessor);
    }
  }

  /** Two chain hashes agree exactly when they cover the same canonical bytes after
      the same predecessor, unless the hash function itself collides on the two
      links. */
  lemma ChainHashesAgreeExactly(sha: Bytes -> Digest, p: Option<string>, previousP: Bytes, a: Bytes,
                                q: Option<string>, previousQ: Bytes, b: Bytes)
    requires StandsFor(previousP, p) && StandsFor(previousQ, q)
    requires sha(LinkBytes(previousP, a)) == sha(LinkBytes(previousQ, b)) ==> LinkBytes(previousP, a) == LinkBytes(previousQ, b)
    ensures ChainHash(sha, p, a) == ChainHash(sha, q, b) <==> a == b && previousP == previousQ
  {
    ChainHashCoversTheLink(sha, p, a);
    ChainHashCoversTheLink(sha, q, b);
    var x, y := LinkBytes(previousP, a), LinkBytes(previousQ, b);
    DigestRoundTrip(sha(x));
    DigestRoundTrip(sha(y));
    assert |AsciiBytes("consolebook-version-v1")| == 22;
    if x == y {
      assert x[23..55] == previousP && y[23..55] == previousQ;
      assert x[55..] == a && y[55..] == b;
    }
  }
}
