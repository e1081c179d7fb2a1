/** The framing codec of the smart plug's TCP protocol.

    A frame is a 4-byte big-endian length followed by the payload XOR-ed with
    an autokey stream: the key starts at a fixed constant and is replaced by
    each ciphertext byte in turn. It is a vendor obfuscation, with no secret
    and no integrity check, not a cipher in any cryptographic sense.
 */
module Codec {

  import opened Bytes

  /** The initial key of the autokey stream (tphk.go:16). */
  const Iv: byte := 171

  /** 2^32: the payload length is cast to a Go uint32 before it is written.
      Kept as a literal so that `% Uint32Modulus` has a constant divisor. */
  const Uint32Modulus: nat := 0x1_0000_0000

  /** 256^k, the number of values a k-byte big-endian number can hold. It
      counts in bytes, one factor per byte, where Pow2 counts in bits; the
      two agree (Pow256IsPow2). */
  function Pow256(k: nat): (p: nat)
    ensures p > 0
  {
    if k == 0 then 1 else 256 * Pow256(k - 1)
  }

  lemma {:induction false} Pow2Add(a: nat, b: nat)
    ensures Pow2(a + b) == Pow2(a) * Pow2(b)
    decreases a
  {
    if a > 0 {
      Pow2Add(a - 1, b);
    }
  }

  /** A byte holds eight bits: 256^k is 2^(8k). */
  lemma {:induction false} Pow256IsPow2(k: nat)
    ensures Pow256(k) == Pow2(8 * k)
    decreases k
  {
    if k > 0 {
      Pow256IsPow2(k - 1);
      Pow2Add(8, 8 * (k - 1));
      assert Pow2(8) == 256;
    }
  }

  /** The `k` bytes of `n`, most significant first. */
  function BigEndian(n: nat, k: nat): (r: seq<byte>)
    requires n < Pow256(k)
    ensures |r| == k
    ensures FromBigEndian(r) == n
  {
    if k == 0 then [] else
      BigEndian(n / 256, k - 1) + [(n % 256) as byte]
  }

  /** The number whose big-endian bytes are `b`. */
  function FromBigEndian(b: seq<byte>): (n: nat)
    ensures n < Pow256(|b|)
  {
    if b == [] then 0 else FromBigEndian(b[..|b| - 1]) * 256 + b[|b| - 1] as nat
  }

  /** Every byte string is the big-endian encoding of exactly one number. */
  lemma {:induction false} BigEndianFromBigEndian(b: seq<byte>)
    ensures BigEndian(FromBigEndian(b), |b|) == b
    decreases |b|
  {
    if b != [] {
      var init, last := b[..|b| - 1], b[|b| - 1];
      var n := FromBigEndian(b);
      BigEndianFromBigEndian(init);
      assert n / 256 == FromBigEndian(init) && n % 256 == last as nat;
      assert b == init + [last];
    }
  }

  /** binary.BigEndian.PutUint32: the four bytes of `n`, most significant first. */
  function PutUint32(n: nat): (r: seq<byte>)
    requires n < Uint32Modulus
    ensures |r| == 4
    ensures Uint32(r) == n
  {
    BigEndian(n, 4)
  }

  /** binary.BigEndian.Uint32: the number whose four big-endian bytes are `b`. */
  function Uint32(b: seq<byte>): (n: nat)
    requires |b| == 4
    ensures n < Uint32Modulus
  {
    FromBigEndian(b)
  }

  /** Every 4-byte header is the encoding of exactly one length. */
  lemma PutUint32Uint32(b: seq<byte>)
    requires |b| == 4
    ensures PutUint32(Uint32(b)) == b
  {
    BigEndianFromBigEndian(b);
  }

  /** The key in force after the ciphertext bytes `c` have gone by: the last
      of them, or `key` when there are none. */
  function NextKey(key: byte, c: seq<byte>): byte
  {
    if c == [] then key else c[|c| - 1]
  }

  /** The autokey stream of the encrypt loop (tphk.go:118-122): each
      plaintext byte is XOR-ed with the key, and the result becomes the key. */
  function Scramble(key: byte, p: seq<byte>): (c: seq<byte>)
    ensures |c| == |p|
    decreases |p|
  {
    if p == [] then [] else
      var b := Xor(key, p[0]);
      [b] + Scramble(b, p[1..])
  }

  /** The inverse stream of the decrypt loop (tphk.go:135-139): each
      ciphertext byte is XOR-ed with the key, and then becomes the key. */
  function Unscramble(key: byte, c: seq<byte>): (p: seq<byte>)
    ensures |p| == |c|
    decreases |c|
  {
    if c == [] then [] else [Xor(key, c[0])] + Unscramble(c[0], c[1..])
  }

  /** The autokey relation, stated byte by byte: the first ciphertext byte is
      the first plaintext byte XOR-ed with `key`, and every later one is its
      plaintext byte XOR-ed with the ciphertext byte before it. */
  ghost predicate Autokeyed(key: byte, p: seq<byte>, c: seq<byte>)
  {
    && |c| == |p|
    && (|p| > 0 ==> c[0] == Xor(key, p[0]))
    && forall i :: 0 < i < |p| ==> c[i] == Xor(c[i - 1], p[i])
  }

  /** The whole frame that encrypt produces for the plaintext `p`: the
      length, truncated to 32 bits, then the autokey stream. */
  function Encrypted(p: seq<byte>): (e: seq<byte>)
    ensures |e| == 4 + |p|
    ensures Uint32(e[..4]) == |p| % Uint32Modulus
  {
    PutUint32(|p| % Uint32Modulus) + Scramble(Iv, p)
  }

  /** The plaintext that decrypt recovers from the buffer `buf`: nothing for
      fewer than four bytes, otherwise the unscrambled bytes after the header,
      whatever the header says. */
  function Decrypted(buf: seq<byte>): (d: seq<byte>)
    ensures |buf| < 4 ==> d == []
    ensures |buf| >= 4 ==> |d| == |buf| - 4
  {
    if |buf| < 4 then [] else Unscramble(Iv, buf[4..])
  }

  /** Scrambling one more byte extends the stream by that byte XOR-ed with
      the last ciphertext byte: the step of the encrypt loop. */
  lemma {:induction false} ScrambleSnoc(key: byte, p: seq<byte>, x: byte)
    ensures Scramble(key, p + [x]) == Scramble(key, p) + [Xor(NextKey(key, Scramble(key, p)), x)]
    decreases |p|
  {
    if p == [] {
      assert p + [x] == [x];
    } else {
      var b := Xor(key, p[0]);
      assert (p + [x])[1..] == p[1..] + [x];
      ScrambleSnoc(b, p[1..], x);
    }
  }

  /** Unscrambling one more byte extends the plaintext by that byte XOR-ed
      with the previous ciphertext byte: the step of the decrypt loop. */
  lemma {:induction false} UnscrambleSnoc(key: byte, c: seq<byte>, x: byte)
    ensures Unscramble(key, c + [x]) == Unscramble(key, c) + [Xor(NextKey(key, c), x)]
    decreases |c|
  {
    if c == [] {
      assert c + [x] == [x];
    } else {
      assert (c + [x])[1..] == c[1..] + [x];
      UnscrambleSnoc(c[0], c[1..], x);
    }
  }

  /** Unscrambling undoes scrambling under the same initial key. */
  lemma {:induction false} UnscrambleScramble(key: byte, p: seq<byte>)
    ensures Unscramble(key, Scramble(key, p)) == p
    decreases |p|
  {
    if p != [] {
      var b := Xor(key, p[0]);
      UnscrambleScramble(b, p[1..]);
      XorInvolution(key, p[0]);
    }
  }

  /** Scrambling undoes unscrambling: every byte string is the ciphertext of
      exactly one plaintext. */
  lemma {:induction false} ScrambleUnscramble(key: byte, c: seq<byte>)
    ensures Scramble(key, Unscramble(key, c)) == c
    decreases |c|
  {
    if c != [] {
      ScrambleUnscramble(c[0], c[1..]);
      XorInvolution(key, c[0]);
    }
  }

  /** Scramble satisfies the autokey relation. */
  lemma {:induction false} ScrambleAutokeyed(key: byte, p: seq<byte>)
    ensures Autokeyed(key, p, Scramble(key, p))
    decreases |p|
  {
    if p != [] {
      var b := Xor(key, p[0]);
      var c := Scramble(key, p);
      var t := Scramble(b, p[1..]);
      ScrambleAutokeyed(b, p[1..]);
      assert c == [b] + t;
      forall i | 0 < i < |p|
        ensures c[i] == Xor(c[i - 1], p[i])
      {
        if i == 1 {
          assert c[1] == t[0] == Xor(b, p[1..][0]);
        } else {
          assert c[i] == t[i - 1] == Xor(t[i - 2], p[1..][i - 1]);
        }
      }
    }
  }

  /** The autokey relation determines the ciphertext: Scramble is the only
      sequence that satisfies it. */
  lemma AutokeyedUnique(key: byte, p: seq<byte>, c: seq<byte>)
    requires Autokeyed(key, p, c)
    ensures c == Scramble(key, p)
  {
    var s := Scramble(key, p);
    ScrambleAutokeyed(key, p);
    forall i | 0 <= i < |p|
      ensures c[i] == s[i]
    {
      AutokeyedAgree(key, p, c, s, i);
    }
  }

  lemma {:induction false} AutokeyedAgree(key: byte, p: seq<byte>, c: seq<byte>, s: seq<byte>, i: nat)
    requires Autokeyed(key, p, c) && Autokeyed(key, p, s)
    requires i < |p|
    ensures c[i] == s[i]
    decreases i
  {
    if i > 0 {
      AutokeyedAgree(key, p, c, s, i - 1);
    }
  }

  /** Each unscrambled byte depends only on two adjacent ciphertext bytes. */
  lemma {:induction false} UnscrambleAt(key: byte, c: seq<byte>, i: nat)
    requires i < |c|
    ensures Unscramble(key, c)[i] == Xor(if i == 0 then key else c[i - 1], c[i])
    decreases i
  {
    if i > 0 {
      UnscrambleAt(c[0], c[1..], i - 1);
    }
  }

  /** Decrypting an encrypted frame gives back the plaintext, for every
      plaintext including the empty one (tphk.go:112-141). */
  lemma RoundTrip(p: seq<byte>)
    ensures Decrypted(Encrypted(p)) == p
  {
    var e := Encrypted(p);
    assert e[4..] == Scramble(Iv, p);
    UnscrambleScramble(Iv, p);
  }

  /** Encrypting a decrypted buffer gives it back when its header holds the
      (truncated) length of the rest: decrypt loses only the header. */
  lemma EncryptDecrypted(buf: seq<byte>)
    requires |buf| >= 4 && buf[..4] == PutUint32((|buf| - 4) % Uint32Modulus)
    ensures Encrypted(Decrypted(buf)) == buf
  {
    var d := Decrypted(buf);
    var e := Encrypted(d);
    ScrambleUnscramble(Iv, buf[4..]);
    assert |d| == |buf| - 4;
    assert e[..4] == buf[..4];
    assert e[4..] == buf[4..];
  }

  /** The frame's layout: a header that reads back as the payload length
      when that fits in 32 bits, then one autokeyed byte per payload byte. */
  lemma EncryptedLayout(p: seq<byte>)
    ensures |Encrypted(p)| == 4 + |p|
    ensures |p| < Uint32Modulus ==> Uint32(Encrypted(p)[..4]) == |p|
    ensures Autokeyed(Iv, p, Encrypted(p)[4..])
  {
    var e := Encrypted(p);
    assert e[4..] == Scramble(Iv, p);
    ScrambleAutokeyed(Iv, p);
  }

  /** Decrypt never fails; it yields one byte per byte after the header, and
      each depends only on two adjacent bytes of the buffer (tphk.go:131-139). */
  lemma DecryptedLayout(buf: seq<byte>)
    ensures |buf| < 4 ==> Decrypted(buf) == []
    ensures |buf| >= 4 ==> |Decrypted(buf)| == |buf| - 4
    ensures forall i :: 0 <= i < |Decrypted(buf)| ==>
      Decrypted(buf)[i] == Xor(if i == 0 then Iv else buf[3 + i], buf[4 + i])
  {
    forall i | 0 <= i < |Decrypted(buf)|
      ensures Decrypted(buf)[i] == Xor(if i == 0 then Iv else buf[3 + i], buf[4 + i])
    {
      UnscrambleAt(Iv, buf[4..], i);
    }
  }

  /** The header is never checked: buffers that differ only in their first
      four bytes decrypt alike. */
  lemma DecryptedIgnoresHeader(a: seq<byte>, b: seq<byte>)
    requires |a| >= 4 && |b| >= 4 && a[4..] == b[4..]
    ensures Decrypted(a) == Decrypted(b)
  {
  }

  /** encrypt (tphk.go:112-124): the header, then the loop that appends one
      autokeyed byte per plaintext byte. */
  method Encrypt(buf: seq<byte>) returns (out: seq<byte>)
    ensures out == Encrypted(buf)
    ensures |out| == 4 + |buf|
    ensures |buf| < Uint32Modulus ==> Uint32(out[..4]) == |buf|
    ensures Autokeyed(Iv, buf, out[4..])
  {
    var key := Iv;
    out := PutUint32(|buf| % Uint32Modulus);
    for i := 0 to |buf|
      invariant out == PutUint32(|buf| % Uint32Modulus) + Scramble(Iv, buf[..i])
      invariant key == NextKey(Iv, Scramble(Iv, buf[..i]))
    {
      var a := Xor(key, buf[i]);
      ScrambleSnoc(Iv, buf[..i], buf[i]);
      assert buf[..i + 1] == buf[..i] + [buf[i]];
      key := a;
      out := out + [a];
    }
    assert buf[..|buf|] == buf;
    EncryptedLayout(buf);
  }

  /** decrypt (tphk.go:126-141): nothing for a short buffer, otherwise the
      loop over the bytes after the header, each becoming the next key. */
  method Decrypt(buf: seq<byte>) returns (out: seq<byte>)
    ensures out == Decrypted(buf)
    ensures |buf| < 4 ==> out == []
    ensures |buf| >= 4 ==> |out| == |buf| - 4
    ensures forall i :: 0 <= i < |out| ==> out[i] == Xor(if i == 0 then Iv else buf[3 + i], buf[4 + i])
  {
    var key := Iv;
    out := [];
    if |buf| < 4 {
      return;
    }
    var rest := buf[4..];
    for i := 0 to |rest|
      invariant out == Unscramble(Iv, rest[..i])
      invariant key == NextKey(Iv, rest[..i])
    {
      var a := Xor(key, rest[i]);
      UnscrambleSnoc(Iv, rest[..i], rest[i]);
      assert rest[..i + 1] == rest[..i] + [rest[i]];
      key := rest[i];
      out := out + [a];
    }
    assert rest[..|rest|] == rest;
    DecryptedLayout(buf);
  }
}
