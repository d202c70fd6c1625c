/** The streaming SHA-256 behind the workspace receipts.  The 64-bit intermediates and narrowing casts of the C code
    are written out, so that agreement with `Fips180` is proved and not built in. */
module Sha256 {
  import opened Bits
  import opened Fips180

  /** Widen to 64 bits, combine the two shifts with `or`, mask back to 32 bits. */
  method Rotate(value: Word, amount: nat) returns (r: Word)
    requires 0 < amount < 32
    ensures r == Rotr(value, amount)
  {
    hide Pow2, Or, And, Swapped;
    PowerValues();
    var rotated := Or(value / Pow2(amount), value * Pow2(32 - amount), 64);
    var masked := And(rotated, TWO_TO_32 - 1, 64);

    var p, q := Pow2(amount), Pow2(32 - amount);
    RotrBound(value, amount);
    RotatedLow(value, p, q);
    WidenedFits(value, q);
    OrIsSum(value / p, value, 32 - amount, 64);
    AndMask(rotated, 32, 64);
    r := masked; // the cast to uint32_t
  }

  /** The sum of the two shifts, cut to 32 bits, is the rotated word. */
  lemma RotatedLow(value: Word, p: nat, q: nat)
    requires p > 0 && p * q == TWO_TO_32
    ensures q <= TWO_TO_32 && value / p < q
    ensures (value / p + value * q) % TWO_TO_32 == Swapped(value, p, q)
  {
    var high, low := value / p, value % p;
    DivisionOf(value, p);
    SwapFits(high, low, p, q);
    WidenedSum(high, low, p, q);
    SumRemainder(high, low, q, value * q);
  }

  lemma WidenedSum(high: nat, low: nat, p: nat, q: nat)
    requires p > 0 && p * q == TWO_TO_32
    ensures q <= TWO_TO_32
    ensures (p * high + low) * q == TWO_TO_32 * high + low * q
  {
    assert p * high * q == (p * q) * high;
    MulMonotone(q, 1, p);
  }

  lemma SumRemainder(high: nat, low: nat, q: nat, widened: nat)
    requires widened == TWO_TO_32 * high + low * q && high + low * q < TWO_TO_32
    ensures (high + widened) % TWO_TO_32 == high + low * q
  {
    DivModUnique(high + widened, TWO_TO_32, high, high + low * q);
  }

  lemma WidenedFits(value: Word, q: nat)
    requires q <= TWO_TO_32
    ensures value * q < Pow2(64)
  {
    PowerValues();
    hide Pow2;
    MulMonotone(value, q, TWO_TO_32);
  }

  /** A word of the schedule from four bytes of the block. */
  method LoadWord(bytes: seq<Byte>) returns (r: Word)
    requires |bytes| == 4
    ensures r == BigEndian(bytes)
  {
    hide Pow2, Or;
    PowerValues();
    var b0, b1, b2, b3 := bytes[0] as nat, bytes[1] as nat, bytes[2] as nat, bytes[3] as nat;
    var loaded := Or(Or(Or(b0 * Pow2(24), b1 * Pow2(16), 64), b2 * Pow2(8), 64), b3, 64);
    ShiftedIn(b0, b1 * Pow2(16), 24);
    ShiftedIn(b0 * 0x100 + b1, b2 * Pow2(8), 16);
    ShiftedIn(b0 * 0x1_0000 + b1 * 0x100 + b2, b3, 8);
    FourBytes(bytes);
    r := loaded % TWO_TO_32;
  }

  lemma ShiftedIn(high: nat, low: nat, n: nat)
    requires n in {8, 16, 24} && high < Pow2(32 - n) && low < Pow2(n)
    ensures Pow2(8) == 0x100 && Pow2(16) == 0x1_0000 && Pow2(24) == 0x100_0000
    ensures Or(high * Pow2(n), low, 64) == high * Pow2(n) + low
  {
    hide Pow2, Or;
    PowerValues();
    WidenedFits(high, Pow2(n));
    OrSymmetric(high * Pow2(n), low, 64);
    OrIsSum(low, high, n, 64);
  }

  method UpperSigmaZero(x: Word) returns (r: Word)
    ensures r == BigSigma0(x)
  {
    hide Rotr, Shr, XorWord;
    var p := Rotate(x, 2);
    var q := Rotate(x, 13);
    var s := Rotate(x, 22);
    r := XorWord(XorWord(p, q), s);
  }

  method UpperSigmaOne(x: Word) returns (r: Word)
    ensures r == BigSigma1(x)
  {
    hide Rotr, Shr, XorWord;
    var p := Rotate(x, 6);
    var q := Rotate(x, 11);
    var s := Rotate(x, 25);
    r := XorWord(XorWord(p, q), s);
  }

  method LowerSigmaZero(x: Word) returns (r: Word)
    ensures r == SmallSigma0(x)
  {
    hide Rotr, Shr, XorWord;
    var p := Rotate(x, 7);
    var q := Rotate(x, 18);
    r := XorWord(XorWord(p, q), Shr(x, 3));
  }

  method LowerSigmaOne(x: Word) returns (r: Word)
    ensures r == SmallSigma1(x)
  {
    hide Rotr, Shr, XorWord;
    var p := Rotate(x, 17);
    var q := Rotate(x, 19);
    r := XorWord(XorWord(p, q), Shr(x, 10));
  }

  /** `(uint32_t)` of a `uint64_t` sum of words; five words cannot overflow it. */
  function Truncate(sum: nat): Word
    requires sum < TWO_TO_64
  {
    sum % TWO_TO_32
  }

  /** The standard writes the terms of the schedule in the opposite order. */
  lemma TruncateFour(w: Word, x: Word, y: Word, z: Word)
    ensures Truncate(w + x + y + z) == Add(Add(Add(z, y), x), w)
  {
  }

  lemma TruncateTwo(x: Word, y: Word)
    ensures Truncate(x + y) == Add(x, y)
  {
  }

  lemma TruncateFive(v: Word, w: Word, x: Word, y: Word, z: Word)
    ensures Truncate(v + w + x + y + z) == Add(Add(Add(Add(v, w), x), y), z)
  {
  }

  /** The bits of the blocks done and of the incomplete block are those of the message, modulo 2^64. */
  lemma TotalBits(message: seq<Byte>)
    ensures (8 * |Whole(message)| % TWO_TO_64 + |message| % 64 * 8) % TWO_TO_64 == 8 * |message| % TWO_TO_64
  {
    assert 8 * |Whole(message)| + |message| % 64 * 8 == 8 * |message|;
  }

  class Sha256State {
    const words: array<Word>
    const block: array<Byte>
    var bitCount: nat // uint64_t
    var blockSize: nat

    /** Everything passed to `Update` so far. */
    ghost var message: seq<Byte>

    ghost predicate Valid()
      reads this, words, block
    {
      && words.Length == 8 && block.Length == 64
      && blockSize == |message| % 64
      && block[..blockSize] == Tail(message)
      && Value() == Fold(Compress, INITIAL_HASH, Whole(message))
      && bitCount == 8 * |Whole(message)| % TWO_TO_64
    }

    ghost function Value(): Hash
      requires words.Length == 8
      reads words
    {
      Hash(words[0], words[1], words[2], words[3], words[4], words[5], words[6], words[7])
    }

    constructor ()
      ensures Valid() && message == []
      ensures fresh(words) && fresh(block)
    {
      hide Compress, Fold, Whole, Tail;
      NoBytes();
      words := new Word[8] [
        0x6a09e667, 0xbb67ae85, 0x3c6ef372, 0xa54ff53a, 0x510e527f, 0x9b05688c, 0x1f83d9ab, 0x5be0cd19];
      block := new Byte[64];
      bitCount, blockSize := 0, 0;
      message := [];
    }

    /** Splitting the data over several calls leaves the same `message`, hence the same state. */
    method Update(data: seq<Byte>)
      requires Valid()
      modifies this, words, block
      ensures Valid() && message == old(message) + data
    {
      hide *;
      for index := 0 to |data|
        invariant Valid() && message == old(message) + data[..index]
      {
        Append(data[index]);
      }
    }

    /** One turn of the loop of `Update`. */
    method Append(byte: Byte)
      requires Valid()
      modifies this, words, block
      ensures Valid() && message == old(message) + [byte]
    {
      hide Compress, Fold, Whole, Tail;
      AppendByte(message, byte);
      block[blockSize] := byte;
      blockSize := blockSize + 1;
      assert block[..blockSize] == Tail(message) + [byte];
      message := message + [byte];
      if blockSize == block.Length {
        assert block[..] == Tail(old(message)) + [byte];
        Transform();
        bitCount := (bitCount + 512) % TWO_TO_64;
        blockSize := 0;
      }
    }

    method Finish(digest: array<Byte>)
      requires Valid() && digest.Length == 32 && digest != block
      modifies this, words, block, digest
      ensures digest[..] == Digest(message) && message == old(message)
    {
      hide Compress, Sha256, Fold, Whole, LowBytes, Tail, Words, Bytes;
      ghost var tail := Tail(message);
      var totalBits := (bitCount + blockSize * 8) % TWO_TO_64;
      TotalBits(message);
      block[blockSize] := 0x80;
      blockSize := blockSize + 1;
      assert block[..blockSize] == tail + [0x80];
      ghost var first := [];
      if blockSize > 56 {
        ZeroTo(64);
        first := block[..];
        Transform();
        blockSize := 0;
      }
      ZeroTo(56);
      StoreLength(totalBits);
      Transform();
      if |tail| < 56 {
        PadInOneBlock(message, block[..]);
      } else {
        PadInTwoBlocks(message, first, block[..]);
      }
      StoreDigest(digest);
    }

    method ZeroTo(end: nat)
      requires block.Length == 64 && blockSize <= end <= 64
      modifies block, `blockSize
      ensures blockSize == end
      ensures block[..end] == old(block[..blockSize]) + Zeros(end - old(blockSize))
    {
      while blockSize < end
        invariant old(blockSize) <= blockSize <= end
        invariant block[..blockSize] == old(block[..blockSize]) + Zeros(blockSize - old(blockSize))
      {
        block[blockSize] := 0;
        blockSize := blockSize + 1;
      }
    }

    method StoreLength(totalBits: nat)
      requires block.Length == 64
      modifies block
      ensures block[..] == old(block[..56]) + LowBytes(totalBits, 8)
    {
      hide Pow2, LowBytes;
      ghost var field := LowBytes(totalBits, 8);
      for index := 0 to 8
        invariant block[..56] == old(block[..56])
        invariant block[64 - index..] == field[8 - index..]
      {
        LowBytesAt(totalBits, 8, index);
        block[63 - index] := totalBits / Pow2(index * 8) % 256;
        assert block[63 - index..] == [block[63 - index]] + block[64 - index..];
      }
    }

    method StoreDigest(digest: array<Byte>)
      requires words.Length == 8 && digest.Length == 32
      modifies digest
      ensures digest[..] == Bytes(Words(Value()))
    {
      hide Pow2, LowBytes;
      for index := 0 to 8
        invariant digest[..4 * index] == Bytes(words[..index])
      {
        var word := words[index];
        ghost var field := LowBytes(word, 4);
        digest[index * 4] := word / Pow2(24) % 256;
        digest[index * 4 + 1] := word / Pow2(16) % 256;
        digest[index * 4 + 2] := word / Pow2(8) % 256;
        digest[index * 4 + 3] := word % 256;
        PowerValues();
        LowBytesAt(word, 4, 3);
        LowBytesAt(word, 4, 2);
        LowBytesAt(word, 4, 1);
        LowBytesAt(word, 4, 0);
        assert digest[index * 4..index * 4 + 4] == field;
        assert words[..index + 1][..index] == words[..index];
        assert digest[..4 * (index + 1)] == digest[..4 * index] + digest[index * 4..index * 4 + 4];
      }
      assert words[..8] == Words(Value());
      assert digest[..32] == digest[..];
    }

    /** One compression of `block`, with the schedule in an array and the working variables rotated in place. */
    method Transform()
      requires words.Length == 8 && block.Length == 64
      modifies words
      ensures Value() == Compress(old(Value()), block[..])
    {
      hide Rounds;
      var schedule := ExpandSchedule();
      var v := RunRounds(schedule);
      words[0] := Truncate(words[0] as nat + v.a);
      words[1] := Truncate(words[1] as nat + v.b);
      words[2] := Truncate(words[2] as nat + v.c);
      words[3] := Truncate(words[3] as nat + v.d);
      words[4] := Truncate(words[4] as nat + v.e);
      words[5] := Truncate(words[5] as nat + v.f);
      words[6] := Truncate(words[6] as nat + v.g);
      words[7] := Truncate(words[7] as nat + v.h);
    }

    method RunRounds(schedule: array<Word>) returns (v: Hash)
      requires words.Length == 8 && block.Length == 64
      requires schedule.Length == 64 && forall t :: 0 <= t < 64 ==> schedule[t] == Schedule(block[..], t)
      ensures v == Rounds(Value(), block[..], ROUND_COUNT)
    {
      hide Add, Ch, Maj, BigSigma0, BigSigma1, Schedule;
      ghost var hash := Value();
      var a, b, c, d := words[0], words[1], words[2], words[3];
      var e, f, g, h := words[4], words[5], words[6], words[7];
      for t := 0 to 64
        invariant Hash(a, b, c, d, e, f, g, h) == Rounds(hash, block[..], t)
      {
        var choose := Ch(e, f, g);
        var majority := Maj(a, b, c);
        var sigmaZero := UpperSigmaZero(a);
        var sigmaOne := UpperSigmaOne(e);
        TruncateFive(h, sigmaOne, choose, K[t], schedule[t]);
        TruncateTwo(sigmaZero, majority);
        var temporaryOne := Truncate(h as nat + sigmaOne + choose + K[t] + schedule[t]);
        var temporaryTwo := Truncate(sigmaZero as nat + majority);
        TruncateTwo(d, temporaryOne);
        TruncateTwo(temporaryOne, temporaryTwo);
        h := g;
        g := f;
        f := e;
        e := Truncate(d as nat + temporaryOne);
        d := c;
        c := b;
        b := a;
        a := Truncate(temporaryOne as nat + temporaryTwo);
      }
      v := Hash(a, b, c, d, e, f, g, h);
    }

    /** The two loops that fill `schedule`. */
    method ExpandSchedule() returns (schedule: array<Word>)
      requires block.Length == 64
      ensures fresh(schedule) && schedule.Length == 64
      ensures forall t :: 0 <= t < 64 ==> schedule[t] == Schedule(block[..], t)
    {
      hide BigEndian, Add, SmallSigma0, SmallSigma1;
      schedule := new Word[64];
      for t := 0 to 16
        invariant forall u :: 0 <= u < t ==> schedule[u] == Schedule(block[..], u)
      {
        var offset := t * 4;
        assert block[offset..offset + 4] == block[..][4 * t..4 * t + 4];
        schedule[t] := LoadWord(block[offset..offset + 4]);
      }
      for t := 16 to 64
        invariant forall u :: 0 <= u < t ==> schedule[u] == Schedule(block[..], u)
      {
        var first := LowerSigmaZero(schedule[t - 15]);
        var second := LowerSigmaOne(schedule[t - 2]);
        TruncateFour(schedule[t - 16], first, schedule[t - 7], second);
        schedule[t] := Truncate(schedule[t - 16] as nat + first + schedule[t - 7] + second);
      }
    }
  }

  // The receipt text.

  const HEX := "0123456789abcdef"

  function HexValue(c: char): int {
    if '0' <= c <= '9' then c as int - '0' as int else c as int - 'a' as int + 10
  }

  /** What a reader of the text takes it to mean. */
  function FromHex(text: string): seq<int> {
    if |text| < 2 then []
    else FromHex(text[..|text| - 2]) + [HexValue(text[|text| - 2]) * 16 + HexValue(text[|text| - 1])]
  }

  predicate IsHexDigit(c: char) { '0' <= c <= '9' || 'a' <= c <= 'f' }

  predicate IsHex(text: string) {
    forall i :: 0 <= i < |text| ==> IsHexDigit(text[i])
  }

  function Digit(n: nat): char
    requires n < 16
  {
    HEX[n]
  }

  lemma HexDigit(n: nat)
    requires n < 16
    ensures IsHexDigit(Digit(n)) && HexValue(Digit(n)) == n
  {
    match n
    case 0 => case 1 => case 2 => case 3 => case 4 => case 5 => case 6 => case 7 =>
    case 8 => case 9 => case 10 => case 11 => case 12 => case 13 => case 14 => case _ => assert n == 15;
  }

  /** The whole of `p101_workspace_sha256`: 64 lower-case hexadecimal digits of the digest and a terminator. */
  method Sha256Text(data: seq<Byte>, output: array<char>)
    requires output.Length == 65
    modifies output
    ensures IsHex(output[..64]) && FromHex(output[..64]) == Digest(data)
    ensures output[64] == '\0'
  {
    hide *;
    var state := new Sha256State();
    state.Update(data);
    assert state.message == data;
    var digest := new Byte[32];
    state.Finish(digest);
    WriteHex(digest, output);
    label Digits:
    output[64] := '\0';
    assert output[..64] == old@Digits(output[..64]);
  }

  method WriteHex(digest: array<Byte>, output: array<char>)
    requires digest.Length == 32 && output.Length == 65
    modifies output
    ensures IsHex(output[..64]) && FromHex(output[..64]) == digest[..]
  {
    hide And, Pow2, Digit, HexValue, IsHexDigit;
    for index := 0 to 32
      invariant IsHex(output[..2 * index])
      invariant FromHex(output[..2 * index]) == digest[..index]
    {
      var high, low := digest[index] / 16, And(digest[index], 0x0f, 8);
      LowNibble(digest[index]);
      HexDigit(high);
      HexDigit(low);
      output[index * 2] := Digit(high);
      output[index * 2 + 1] := Digit(low);
      assert output[..2 * (index + 1)][..2 * index] == output[..2 * index];
      assert digest[..index + 1] == digest[..index] + [digest[index]];
    }
    assert digest[..32] == digest[..];
  }

  lemma LowNibble(byte: Byte)
    ensures And(byte, 0x0f, 8) == byte % 16
  {
    assert Pow2(4) == 16;
    AndMask(byte, 4, 8);
  }
}
