/** Checkpoints, their limits, and the bytes their digest is taken over. */
module Checkpoints {

  newtype Byte = x: int | 0 <= x < 256

  type Bytes = seq<Byte>

  const U32_LIMIT: nat := 0x1_0000_0000
  const U64_LIMIT: nat := 0x1_0000_0000_0000_0000
  const I64_MAX: nat := 0x7FFF_FFFF_FFFF_FFFF

  type U32 = x: nat | x < U32_LIMIT
  type U64 = x: nat | x < U64_LIMIT

  const MAX_CHECKPOINT_BYTES: nat := 16 * 1024 * 1024
  const MAX_ID_BYTES: nat := 1024

  /** The identity is kept as its UTF-8 bytes. */
  datatype Checkpoint = Checkpoint(id: Bytes, sequence: U64, schema: U32, payload: Bytes)

  /** `Checkpoint::validate`. */
  predicate ValidCheckpoint(c: Checkpoint) {
    && 1 <= |c.id| <= MAX_ID_BYTES && 0 !in c.id
    && 1 <= c.sequence <= I64_MAX && c.schema != 0
    && |c.payload| <= MAX_CHECKPOINT_BYTES
  }

  // ---------------------------------------------------------------- digest preimage

  /** `n` in `width` bytes, most significant first. */
  function BigEndian(n: nat, width: nat): (bytes: Bytes)
    ensures |bytes| == width
  {
    if width == 0 then [] else BigEndian(n / 256, width - 1) + [(n % 256) as Byte]
  }

  function FromBigEndian(bytes: Bytes): nat {
    if bytes == [] then 0 else 256 * FromBigEndian(bytes[..|bytes| - 1]) + bytes[|bytes| - 1] as nat
  }

  function Power256(width: nat): nat {
    if width == 0 then 1 else 256 * Power256(width - 1)
  }

  lemma {:induction false} BigEndianRoundTrip(n: nat, width: nat)
    requires n < Power256(width)
    ensures FromBigEndian(BigEndian(n, width)) == n
  {
    if width > 0 {
      BigEndianRoundTrip(n / 256, width - 1);
      var bytes := BigEndian(n, width);
      assert bytes[..|bytes| - 1] == BigEndian(n / 256, width - 1);
    }
  }

  lemma {:induction false} FromBigEndianRoundTrip(bytes: Bytes)
    ensures BigEndian(FromBigEndian(bytes), |bytes|) == bytes
  {
    if bytes != [] {
      var init, last := bytes[..|bytes| - 1], bytes[|bytes| - 1];
      FromBigEndianRoundTrip(init);
      LastDigit(FromBigEndian(init), last as nat);
      BigEndianStep(FromBigEndian(bytes), |bytes|);
      assert FromBigEndian(bytes) == 256 * FromBigEndian(init) + last as nat;
      hide BigEndian, FromBigEndian;
      assert bytes == init + [last];
    }
  }

  lemma LastDigit(n: nat, digit: nat)
    requires digit < 256
    ensures (256 * n + digit) / 256 == n && (256 * n + digit) % 256 == digit
  {
  }

  lemma BigEndianStep(n: nat, width: nat)
    requires width > 0
    ensures BigEndian(n, width) == BigEndian(n / 256, width - 1) + [(n % 256) as Byte]
  {
  }

  lemma BigEndianInjective(a: nat, b: nat, width: nat)
    requires a < Power256(width) && b < Power256(width)
    requires BigEndian(a, width) == BigEndian(b, width)
    ensures a == b
  {
    BigEndianRoundTrip(a, width);
    BigEndianRoundTrip(b, width);
  }

  lemma Widths()
    ensures Power256(4) == U32_LIMIT && Power256(8) == U64_LIMIT
  {
    assert Power256(1) == 256 * Power256(0);
    assert Power256(2) == 0x1_0000 && Power256(3) == 0x100_0000;
    assert Power256(5) == 0x100_0000_0000 && Power256(6) == 0x1_0000_0000_0000 && Power256(7) == 0x100_0000_0000_0000;
  }

  function Ascii(text: string): Bytes {
    seq(|text|, i requires 0 <= i < |text| => (text[i] as int % 256) as Byte)
  }

  const DOMAIN: Bytes := Ascii("terlan.storage.checkpoint.v1\0")

  /** Everything the digest is fed, with every variable-length field framed by its length. */
  function Preimage(c: Checkpoint): Bytes {
    DOMAIN + (BigEndian(|c.id|, 8) + (c.id + (BigEndian(c.sequence, 8) + (BigEndian(c.schema, 4) +
    (BigEndian(|c.payload|, 8) + c.payload)))))
  }

  lemma SplitEqual(a: Bytes, b: Bytes, x: Bytes, y: Bytes)
    requires a + x == b + y && |a| == |b|
    ensures a == b && x == y
  {
    assert a == (a + x)[..|a|] && b == (b + y)[..|b|];
    assert x == (a + x)[|a|..] && y == (b + y)[|b|..];
  }

  /** Equal preimages mean equal checkpoints, whatever the lengths of identity and payload. */
  lemma {:induction false} PreimageInjective(a: Checkpoint, b: Checkpoint)
    requires |a.id| < U64_LIMIT && |b.id| < U64_LIMIT && |a.payload| < U64_LIMIT && |b.payload| < U64_LIMIT
    requires Preimage(a) == Preimage(b)
    ensures a == b
  {
    Widths();
    hide BigEndian, Power256;
    var a4, b4 := BigEndian(|a.payload|, 8) + a.payload, BigEndian(|b.payload|, 8) + b.payload;
    var a3, b3 := BigEndian(a.schema, 4) + a4, BigEndian(b.schema, 4) + b4;
    var a2, b2 := BigEndian(a.sequence, 8) + a3, BigEndian(b.sequence, 8) + b3;
    var a1, b1 := a.id + a2, b.id + b2;
    SplitEqual(DOMAIN, DOMAIN, BigEndian(|a.id|, 8) + a1, BigEndian(|b.id|, 8) + b1);
    SplitEqual(BigEndian(|a.id|, 8), BigEndian(|b.id|, 8), a1, b1);
    BigEndianInjective(|a.id|, |b.id|, 8);
    SplitEqual(a.id, b.id, a2, b2);
    SplitEqual(BigEndian(a.sequence, 8), BigEndian(b.sequence, 8), a3, b3);
    BigEndianInjective(a.sequence, b.sequence, 8);
    SplitEqual(BigEndian(a.schema, 4), BigEndian(b.schema, 4), a4, b4);
    BigEndianInjective(a.schema, b.schema, 4);
    SplitEqual(BigEndian(|a.payload|, 8), BigEndian(|b.payload|, 8), a.payload, b.payload);
  }

  /**
   Where the fields stand, told by offsets: the domain, the length of the identity and the identity,
   the sequence, the schema, the length of the payload and the payload, numbers most significant first.
   */
  lemma PreimageLayout(c: Checkpoint)
    requires |c.id| < U64_LIMIT && |c.payload| < U64_LIMIT
    ensures
      var p, n := Preimage(c), |c.id|;
      && |p| == 57 + n + |c.payload|
      && (forall i | 0 <= i < 29 :: p[i] as int == "terlan.storage.checkpoint.v1\0"[i] as int)
      && FromBigEndian(p[29..37]) == n && p[37..37 + n] == c.id
      && FromBigEndian(p[37 + n..45 + n]) == c.sequence
      && FromBigEndian(p[45 + n..49 + n]) == c.schema
      && FromBigEndian(p[49 + n..57 + n]) == |c.payload| && p[57 + n..] == c.payload
  {
    Widths();
    var a, b, d, e, f := BigEndian(|c.id|, 8), c.id, BigEndian(c.sequence, 8), BigEndian(c.schema, 4),
        BigEndian(|c.payload|, 8);
    BigEndianRoundTrip(|c.id|, 8);
    BigEndianRoundTrip(c.sequence, 8);
    BigEndianRoundTrip(c.schema, 4);
    BigEndianRoundTrip(|c.payload|, 8);
    DomainLetters();
    var p, n := Preimage(c), |c.id|;
    var back := BigEndian(|c.payload|, 8) + c.payload;
    assert p[0..] == DOMAIN + (a + (b + (d + (e + back))));
    hide BigEndian, FromBigEndian, Power256, Preimage, Ascii;
    Cut(p, 0, DOMAIN, a + (b + (d + (e + back))));
    Cut(p, 29, a, b + (d + (e + back)));
    Cut(p, 37, b, d + (e + back));
    Cut(p, 37 + n, d, e + back);
    Cut(p, 45 + n, e, back);
    Cut(p, 49 + n, f, c.payload);
    assert forall i | 0 <= i < 29 :: p[i] == p[0..29][i];
  }

  lemma DomainLetters()
    ensures |DOMAIN| == 29
    ensures forall i | 0 <= i < 29 :: DOMAIN[i] as int == "terlan.storage.checkpoint.v1\0"[i] as int
  {
    assert forall i | 0 <= i < 29 :: "terlan.storage.checkpoint.v1\0"[i] as int < 256;
  }

  /** What stands at `i` is `x` and then the rest. */
  lemma Cut(p: Bytes, i: nat, x: Bytes, rest: Bytes)
    requires i <= |p| && p[i..] == x + rest
    ensures i + |x| <= |p| && p[i..i + |x|] == x && p[i + |x|..] == rest
  {
    assert p[i..][..|x|] == x && p[i..][|x|..] == rest;
    assert p[i..i + |x|] == p[i..][..|x|] && p[i + |x|..] == p[i..][|x|..];
  }

  /** SHA-256 produces 32 bytes; nothing else is known of it. */
  type Hash = d: Bytes | |d| == 32 witness seq(32, i => 0)

  /** `Checkpoint::digest`: feeds the hash field by field. */
  method Digest(c: Checkpoint, hash: Bytes -> Hash) returns (digest: Hash)
    ensures digest == hash(Preimage(c))
  {
    var fed := DOMAIN;
    fed := fed + BigEndian(|c.id|, 8);
    fed := fed + c.id;
    fed := fed + BigEndian(c.sequence, 8);
    fed := fed + BigEndian(c.schema, 4);
    fed := fed + BigEndian(|c.payload|, 8);
    fed := fed + c.payload;
    FedInPieces(c);
    digest := hash(fed);
  }

  lemma FedInPieces(c: Checkpoint)
    ensures DOMAIN + BigEndian(|c.id|, 8) + c.id + BigEndian(c.sequence, 8) + BigEndian(c.schema, 4) +
            BigEndian(|c.payload|, 8) + c.payload == Preimage(c)
  {
    hide BigEndian;
    var a, b, d, e, f, g := BigEndian(|c.id|, 8), c.id, BigEndian(c.sequence, 8), BigEndian(c.schema, 4),
        BigEndian(|c.payload|, 8), c.payload;
    assert DOMAIN + a + b + d + e + f + g == DOMAIN + (a + (b + (d + (e + (f + g)))));
  }

  /** `digest_checksum`: the leading 32 bits, for diagnostics only. */
  function DigestChecksum(digest: Bytes): (checksum: nat)
    requires |digest| >= 4
    ensures BigEndian(checksum, 4) == digest[..4]
  {
    FromBigEndianRoundTrip(digest[..4]);
    FromBigEndian(digest[..4])
  }
}
