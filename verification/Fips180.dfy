/** The parts of FIPS 180-4 that SHA-256 needs, in the standard's own terms: functions on 32-bit words
    (section 4.1.2), constants (4.2.2), padding (5.1.1), initial value (5.3.3) and hash computation (6.2).
    Messages are whole bytes. */
module Fips180 {
  import opened Bits

  const TWO_TO_32: nat := 0x1_0000_0000
  const TWO_TO_64: nat := 0x1_0000_0000_0000_0000

  type Byte = x: nat | x < 256
  type Word = x: nat | x < TWO_TO_32

  /** The eight working variables, also used for the eight words of a hash value. */
  datatype Hash = Hash(a: Word, b: Word, c: Word, d: Word, e: Word, f: Word, g: Word, h: Word)

  // Section 3.2: operations on words.

  /** Addition modulo 2^32. */
  function Add(x: Word, y: Word): Word { (x + y) % TWO_TO_32 }

  function AndWord(x: Word, y: Word): Word {
    PowerValues();
    And(x, y, 32)
  }

  function XorWord(x: Word, y: Word): Word {
    PowerValues();
    Xor(x, y, 32)
  }

  function Complement(x: Word): Word { TWO_TO_32 - 1 - x }

  function Shr(x: Word, n: nat): Word {
    DivisionShrinks(x, Pow2(n));
    x / Pow2(n)
  }

  lemma DivisionShrinks(x: nat, p: nat)
    requires p > 0
    ensures 0 <= x / p <= x
  {
    DivisionOf(x, p);
    if x / p > x {
      MulMonotone(x / p, 1, p);
    }
  }

  /** Rotate right: the low `n` bits move to the top. */
  function Rotr(x: Word, n: nat): Word
    requires 0 < n < 32
  {
    RotrBound(x, n);
    Swapped(x, Pow2(n), Pow2(32 - n))
  }

  function Swapped(x: nat, p: nat, q: nat): nat
    requires p > 0
  {
    x / p + x % p * q
  }

  lemma RotrBound(x: Word, n: nat)
    requires 0 < n < 32
    ensures Pow2(n) * Pow2(32 - n) == TWO_TO_32
    ensures Swapped(x, Pow2(n), Pow2(32 - n)) < TWO_TO_32
  {
    hide Pow2, Swapped;
    PowerValues();
    Pow2Sum(n, 32 - n);
    SwapBound(x, Pow2(n), Pow2(32 - n));
  }

  lemma SwapBound(x: nat, p: nat, q: nat)
    requires x < p * q && p > 0
    ensures x / p < q && Swapped(x, p, q) < p * q
  {
    var high, low := x / p, x % p;
    DivisionOf(x, p);
    SwapFits(high, low, p, q);
  }

  lemma DivisionOf(x: nat, p: nat)
    requires p > 0
    ensures x % p < p && x / p >= 0 && x == p * (x / p) + x % p
  {
  }

  lemma SwapFits(high: nat, low: nat, p: nat, q: nat)
    requires low < p && p * high + low < p * q
    ensures high < q && high + low * q < p * q
  {
    if high >= q {
      MulMonotone(p, q, high);
    }
    MulMonotone(q, low, p - 1);
    assert q * (p - 1) == p * q - q;
  }

  lemma MulMonotone(d: nat, x: nat, y: nat)
    requires x <= y
    ensures d * x <= d * y
  {
  }

  // Section 4.1.2: the six logical functions.

  function Ch(x: Word, y: Word, z: Word): Word {
    XorWord(AndWord(x, y), AndWord(Complement(x), z))
  }

  function Maj(x: Word, y: Word, z: Word): Word {
    XorWord(XorWord(AndWord(x, y), AndWord(x, z)), AndWord(y, z))
  }

  function BigSigma0(x: Word): Word { XorWord(XorWord(Rotr(x, 2), Rotr(x, 13)), Rotr(x, 22)) }

  function BigSigma1(x: Word): Word { XorWord(XorWord(Rotr(x, 6), Rotr(x, 11)), Rotr(x, 25)) }

  function SmallSigma0(x: Word): Word { XorWord(XorWord(Rotr(x, 7), Rotr(x, 18)), Shr(x, 3)) }

  function SmallSigma1(x: Word): Word { XorWord(XorWord(Rotr(x, 17), Rotr(x, 19)), Shr(x, 10)) }

  /** Section 4.2.2. */
  const K: seq<Word> :=
    [0x428a2f98, 0x71374491, 0xb5c0fbcf, 0xe9b5dba5, 0x3956c25b, 0x59f111f1, 0x923f82a4, 0xab1c5ed5] +
    [0xd807aa98, 0x12835b01, 0x243185be, 0x550c7dc3, 0x72be5d74, 0x80deb1fe, 0x9bdc06a7, 0xc19bf174] +
    [0xe49b69c1, 0xefbe4786, 0x0fc19dc6, 0x240ca1cc, 0x2de92c6f, 0x4a7484aa, 0x5cb0a9dc, 0x76f988da] +
    [0x983e5152, 0xa831c66d, 0xb00327c8, 0xbf597fc7, 0xc6e00bf3, 0xd5a79147, 0x06ca6351, 0x14292967] +
    [0x27b70a85, 0x2e1b2138, 0x4d2c6dfc, 0x53380d13, 0x650a7354, 0x766a0abb, 0x81c2c92e, 0x92722c85] +
    [0xa2bfe8a1, 0xa81a664b, 0xc24b8b70, 0xc76c51a3, 0xd192e819, 0xd6990624, 0xf40e3585, 0x106aa070] +
    [0x19a4c116, 0x1e376c08, 0x2748774c, 0x34b0bcb5, 0x391c0cb3, 0x4ed8aa4a, 0x5b9cca4f, 0x682e6ff3] +
    [0x748f82ee, 0x78a5636f, 0x84c87814, 0x8cc70208, 0x90befffa, 0xa4506ceb, 0xbef9a3f7, 0xc67178f2]

  /** Section 5.3.3. */
  const INITIAL_HASH := Hash(
    0x6a09e667, 0xbb67ae85, 0x3c6ef372, 0xa54ff53a, 0x510e527f, 0x9b05688c, 0x1f83d9ab, 0x5be0cd19)

  // Section 6.2.2: one message block.

  type Block = b: seq<Byte> | |b| == 64 witness seq(64, _ => 0)

  /** Section 3.1: the number written most significant byte first. */
  function BigEndian(bytes: seq<Byte>): nat {
    if bytes == [] then 0 else 256 * BigEndian(bytes[..|bytes| - 1]) + bytes[|bytes| - 1]
  }

  lemma FourBytes(bytes: seq<Byte>)
    requires |bytes| == 4
    ensures BigEndian(bytes) ==
      0x100_0000 * bytes[0] as nat + 0x1_0000 * bytes[1] as nat + 0x100 * bytes[2] as nat + bytes[3]
    ensures BigEndian(bytes) < TWO_TO_32
  {
    assert bytes[..3][..2] == bytes[..2] && bytes[..2][..1] == bytes[..1] && bytes[..1][..0] == [];
    assert BigEndian(bytes[..1]) == bytes[0];
    assert BigEndian(bytes[..2]) == 0x100 * bytes[0] as nat + bytes[1];
    assert BigEndian(bytes[..3]) == 0x1_0000 * bytes[0] as nat + 0x100 * bytes[1] as nat + bytes[2];
  }

  /** The message word M_t. */
  function MessageWord(block: Block, t: nat): Word
    requires t < 16
  {
    FourBytes(block[4 * t..4 * t + 4]);
    BigEndian(block[4 * t..4 * t + 4])
  }

  /** Step 1: the message schedule W_t. */
  function Schedule(block: Block, t: nat): Word
    requires t < 64
  {
    if t < 16 then
      MessageWord(block, t)
    else
      var first, second := SmallSigma1(Schedule(block, t - 2)), SmallSigma0(Schedule(block, t - 15));
      Add(Add(Add(first, Schedule(block, t - 7)), second), Schedule(block, t - 16))
  }

  /** One iteration of step 3. */
  function Round(v: Hash, k: Word, w: Word): Hash {
    var t1 := Add(Add(Add(Add(v.h, BigSigma1(v.e)), Ch(v.e, v.f, v.g)), k), w);
    var t2 := Add(BigSigma0(v.a), Maj(v.a, v.b, v.c));
    Hash(Add(t1, t2), v.a, v.b, v.c, Add(v.d, t1), v.e, v.f, v.g)
  }

  const ROUND_COUNT: nat := 64

  /** The working variables after the first `t` iterations of step 3. */
  function Rounds(v: Hash, block: Block, t: nat): Hash
    requires t <= 64
  {
    if t == 0 then v else Round(Rounds(v, block, t - 1), K[t - 1], Schedule(block, t - 1))
  }

  function Plus(x: Hash, y: Hash): Hash {
    Hash(
      Add(x.a, y.a), Add(x.b, y.b), Add(x.c, y.c), Add(x.d, y.d),
      Add(x.e, y.e), Add(x.f, y.f), Add(x.g, y.g), Add(x.h, y.h))
  }

  /** Steps 2 to 4: the intermediate hash value after one more block. */
  function Compress(hash: Hash, block: Block): Hash {
    Plus(hash, Rounds(hash, block, ROUND_COUNT))
  }

  /** Section 5.2.1 and the outer loop of section 6.2.2: the blocks of `data` in order. */
  function Fold(compress: (Hash, Block) -> Hash, hash: Hash, data: seq<Byte>): Hash
    requires |data| % 64 == 0
    decreases |data|
  {
    if |data| < 64 then hash else Fold(compress, compress(hash, data[..64]), data[64..])
  }

  lemma {:induction false} FoldAppend(compress: (Hash, Block) -> Hash, hash: Hash, left: seq<Byte>, right: seq<Byte>)
    requires |left| % 64 == 0 && |right| % 64 == 0
    ensures Fold(compress, hash, left + right) == Fold(compress, Fold(compress, hash, left), right)
    decreases |left|
  {
    if |left| < 64 {
      assert left + right == right;
    } else {
      assert (left + right)[..64] == left[..64] && (left + right)[64..] == left[64..] + right;
      FoldAppend(compress, compress(hash, left[..64]), left[64..], right);
    }
  }

  // Section 5.1.1: padding.

  /** `k` zero bits complete a message of `l` bits and its one bit to 448 bits modulo 512. */
  predicate PadsTo448(l: nat, k: nat) { (l + 1 + k) % 512 == 448 }

  /** Zero bytes after the byte 0x80, which itself holds the one bit and seven zero bits. */
  function ZeroBytes(length: nat): nat { (119 - length % 64) % 64 }

  /** For whole bytes the number of zero bits is the smallest the standard allows. */
  lemma ZeroBytesIsSmallest(length: nat)
    ensures PadsTo448(8 * length, 7 + 8 * ZeroBytes(length))
    ensures forall k: nat :: PadsTo448(8 * length, k) ==> 7 + 8 * ZeroBytes(length) <= k
  {
    var rest := length % 64;
    forall k: nat
      ensures PadsTo448(8 * length, k) <==> PadsTo448(8 * rest, k)
      ensures PadsTo448(8 * rest, k) ==> 7 + 8 * ZeroBytes(rest) <= k
    {
      WholeBlocksKeep(length, k);
      PadsAtLeast(rest, k);
    }
    PadsAtLeast(rest, 7 + 8 * ZeroBytes(rest));
    assert ZeroBytes(length) == ZeroBytes(rest);
    hide PadsTo448, ZeroBytes;
  }

  lemma WholeBlocksKeep(length: nat, k: nat)
    ensures PadsTo448(8 * length, k) <==> PadsTo448(8 * (length % 64), k)
  {
    var blocks, rest := length / 64, length % 64;
    DivisionOf(length, 64);
    var bits := 8 * rest + 1 + k;
    DivisionOf(bits, 512);
    DivModUnique(8 * length + 1 + k, 512, blocks + bits / 512, bits % 512);
  }

  lemma PadsAtLeast(rest: nat, k: nat)
    requires rest < 64
    ensures PadsTo448(8 * rest, k) ==> 7 + 8 * ZeroBytes(rest) <= k
    ensures PadsTo448(8 * rest, 7 + 8 * ZeroBytes(rest))
  {
    assert ZeroBytes(rest) == if rest <= 55 then 55 - rest else 119 - rest;
    if PadsTo448(8 * rest, k) {
      var bits := 8 * rest + 1 + k;
      DivisionOf(bits, 512);
      assert bits == 512 * (bits / 512) + 448;
    }
  }

  /** The low `count` bytes of `value`, most significant first. */
  function LowBytes(value: nat, count: nat): (bytes: seq<Byte>)
    ensures |bytes| == count
  {
    if count == 0 then [] else LowBytes(value / 256, count - 1) + [value % 256]
  }

  /** The padded message.  The standard admits only messages shorter than 2^64 bits; the length of a longer one
      is reduced modulo 2^64, as 64-bit arithmetic does. */
  function Pad(message: seq<Byte>): (padded: seq<Byte>)
    ensures |padded| % 64 == 0
  {
    PaddedLength(|message|);
    message + [0x80] + Zeros(ZeroBytes(|message|)) + LengthField(message)
  }

  lemma PaddedLength(length: nat)
    ensures (length + 1 + ZeroBytes(length) + 8) % 64 == 0
  {
    assert length == 64 * (length / 64) + length % 64;
  }

  function Sha256(message: seq<Byte>): Hash {
    Fold(Compress, INITIAL_HASH, Pad(message))
  }

  function Words(h: Hash): seq<Word> { [h.a, h.b, h.c, h.d, h.e, h.f, h.g, h.h] }

  function Bytes(words: seq<Word>): (bytes: seq<Byte>)
    ensures |bytes| == 4 * |words|
  {
    if words == [] then [] else Bytes(words[..|words| - 1]) + LowBytes(words[|words| - 1], 4)
  }

  /** The message digest. */
  function Digest(message: seq<Byte>): seq<Byte> {
    Bytes(Words(Sha256(message)))
  }

  /** `LowBytes` writes a number that fits in base 256, so `BigEndian` reads it back: the length field of a message
      below 2^64 bits is its length, and the digest determines the hash value. */
  lemma {:induction false} BigEndianLowBytes(value: nat, count: nat)
    requires value < Pow2(8 * count)
    ensures BigEndian(LowBytes(value, count)) == value
  {
    if count > 0 {
      assert Pow2(8) == 256;
      Pow2Sum(8, 8 * (count - 1));
      BigEndianLowBytes(value / 256, count - 1);
      assert LowBytes(value, count)[..count - 1] == LowBytes(value / 256, count - 1);
    }
  }

  /** Within the standard's bound the length field is the length in bits, unreduced. */
  lemma LengthFieldIsLength(message: seq<Byte>)
    requires 8 * |message| < TWO_TO_64
    ensures BigEndian(LengthField(message)) == 8 * |message|
  {
    hide Pow2, LowBytes, BigEndian;
    PowerValues();
    BigEndianLowBytes(8 * |message|, 8);
  }

  /** The byte that a shift by `8 * i` and a cast to `unsigned char` select. */
  lemma {:induction false} LowBytesAt(value: nat, count: nat, i: nat)
    requires i < count
    ensures LowBytes(value, count)[count - 1 - i] == value / Pow2(8 * i) % 256
  {
    if i > 0 {
      assert Pow2(8) == 256;
      Pow2Sum(8, 8 * (i - 1));
      LowBytesAt(value / 256, count - 1, i - 1);
      DivDiv(value, 256, Pow2(8 * (i - 1)));
    }
  }

  lemma DivDiv(x: nat, p: nat, q: nat)
    requires p > 0 && q > 0
    ensures p * q > 0 && x / p / q == x / (p * q)
  {
    var a, b := x / p, x % p;
    var c, d := a / q, a % q;
    MulMonotone(p, d, q - 1);
    assert x == p * q * c + (p * d + b);
    assert p * (q - 1) == p * q - p;
    DivModUnique(x, p * q, c, p * d + b);
  }

  // The message in front of its last, incomplete block, and what the padding makes of that block.

  function Whole(message: seq<Byte>): (whole: seq<Byte>)
    ensures |whole| == |message| - |message| % 64
    ensures |whole| % 64 == 0
  {
    message[..|message| - |message| % 64]
  }

  function Tail(message: seq<Byte>): (tail: seq<Byte>)
    ensures |tail| == |message| % 64
  {
    message[|message| - |message| % 64..]
  }

  function Zeros(count: nat): seq<Byte> { seq(count, _ => 0) }

  function LengthField(message: seq<Byte>): (field: seq<Byte>)
    ensures |field| == 8
  {
    LowBytes(8 * |message| % TWO_TO_64, 8)
  }

  lemma NoBytes()
    ensures Whole([]) == [] && Tail([]) == [] && Fold(Compress, INITIAL_HASH, Whole([])) == INITIAL_HASH
  {
    hide Compress;
  }

  /** One more byte either lengthens the incomplete block or completes it. */
  lemma AppendByte(message: seq<Byte>, byte: Byte)
    ensures var longer := message + [byte];
      if |Tail(message)| < 63 then
        Whole(longer) == Whole(message) && Tail(longer) == Tail(message) + [byte]
      else
        Tail(longer) == [] &&
        Fold(Compress, INITIAL_HASH, Whole(longer)) ==
          Compress(Fold(Compress, INITIAL_HASH, Whole(message)), Tail(message) + [byte])
  {
    hide Compress;
    if |Tail(message)| == 63 {
      var last := Tail(message) + [byte];
      assert Whole(message + [byte]) == Whole(message) + last;
      FoldAppend(Compress, INITIAL_HASH, Whole(message), last);
      FoldOne(Compress, Fold(Compress, INITIAL_HASH, Whole(message)), last);
    }
  }

  /** At most 55 bytes are left over: one more block holds them, the one bit and the length. */
  lemma PadInOneBlock(message: seq<Byte>, last: Block)
    requires |Tail(message)| < 56
    requires last == Tail(message) + [0x80] + Zeros(55 - |Tail(message)|) + LengthField(message)
    ensures Sha256(message) == Compress(Fold(Compress, INITIAL_HASH, Whole(message)), last)
  {
    hide Compress;
    assert Pad(message) == Whole(message) + last;
    FoldAppend(Compress, INITIAL_HASH, Whole(message), last);
    FoldOne(Compress, Fold(Compress, INITIAL_HASH, Whole(message)), last);
  }

  /** Otherwise the length needs a block of its own. */
  lemma PadInTwoBlocks(message: seq<Byte>, first: Block, last: Block)
    requires |Tail(message)| >= 56
    requires first == Tail(message) + [0x80] + Zeros(63 - |Tail(message)|)
    requires last == Zeros(56) + LengthField(message)
    ensures Sha256(message) == Compress(Compress(Fold(Compress, INITIAL_HASH, Whole(message)), first), last)
  {
    hide Compress;
    assert Pad(message) == Whole(message) + first + last;
    FoldAppend(Compress, INITIAL_HASH, Whole(message) + first, last);
    FoldAppend(Compress, INITIAL_HASH, Whole(message), first);
    FoldOne(Compress, Fold(Compress, INITIAL_HASH, Whole(message)), first);
    FoldOne(Compress, Fold(Compress, INITIAL_HASH, Whole(message) + first), last);
  }

  lemma FoldOne(compress: (Hash, Block) -> Hash, hash: Hash, block: Block)
    ensures Fold(compress, hash, block) == compress(hash, block)
  {
    assert block[..64] == block;
  }
}
