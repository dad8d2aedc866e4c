/** The incremental SHA-1 object: a block buffer, a 64-bit length in two words, two-path padding. */
module Sha1 {
  import opened MachineWords
  import opened Sha1Spec

  // What the object stands for: a message still being fed, a finished message, or nothing any more.
  datatype Stage = Open(message: seq<byte>) | Done(message: seq<byte>) | Corrupt

  // What feeding more octets does to that.  The 64-bit bit count wraps at MAX_MESSAGE octets.
  function Fed(stage: Stage, data: seq<byte>): Stage {
    if data == [] then stage
    else if stage.Open? && |stage.message| + |data| < MAX_MESSAGE then Open(stage.message + data)
    else Corrupt
  }

  // Cutting an input in two changes nothing, even when one part is empty or the object is spoilt half way.
  lemma FedInTwo(stage: Stage, first: seq<byte>, second: seq<byte>)
    requires !stage.Done?
    ensures Fed(Fed(stage, first), second) == Fed(stage, first + second)
    ensures Fed(stage, []) == stage
    ensures Fed(Corrupt, second) == Corrupt && !Fed(stage, first + second).Done?
  {
    if stage.Open? && first != [] && second != [] {
      assert stage.message + (first + second) == (stage.message + first) + second;
    } else {
      assert first == [] ==> first + second == second;
      assert second == [] ==> first + second == first;
    }
  }

  // One turn of the input loop, and leaving it before the end.
  lemma FedNext(stage: Stage, data: seq<byte>, i: nat)
    requires !stage.Done? && i < |data|
    ensures Fed(Fed(stage, data[..i]), [data[i]]) == Fed(stage, data[..i + 1])
    ensures !Fed(stage, data[..i + 1]).Done?
  {
    hide Fed;
    FedInTwo(stage, data[..i], [data[i]]);
    assert data[..i + 1] == data[..i] + [data[i]];
    NotDone(stage, data[..i + 1]);
  }

  lemma NotDone(stage: Stage, data: seq<byte>)
    requires !stage.Done?
    ensures !Fed(stage, data).Done?
  {
  }

  lemma FedStops(stage: Stage, data: seq<byte>, i: nat)
    requires !stage.Done? && i <= |data| && (i < |data| ==> Fed(stage, data[..i]).Corrupt?)
    ensures Fed(stage, data[..i]) == Fed(stage, data)
  {
    FedInTwo(stage, data[..i], data[i..]);
    assert data == data[..i] + data[i..];
  }

  function Finished(stage: Stage): Stage {
    if stage.Corrupt? then Corrupt else Done(stage.message)
  }

  // The code's choice and majority use `or`; the standard's use exclusive-or.
  function Choice(b: bv32, c: bv32, d: bv32): bv32 {
    (b & c) | (!b & d)
  }

  lemma ChoiceAgrees(b: bv32, c: bv32, d: bv32)
    ensures Choice(b, c, d) == Ch(b, c, d)
  {
    assert (b & c) | (!b & d) == (b & c) ^ (!b & d);
  }

  function Majority(b: bv32, c: bv32, d: bv32): bv32 {
    (b & c) | (b & d) | (c & d)
  }

  lemma MajorityAgrees(b: bv32, c: bv32, d: bv32)
    ensures Majority(b, c, d) == Maj(b, c, d)
  {
    assert (b & c) | (b & d) | (c & d) == (b & c) ^ (b & d) ^ (c & d);
  }

  // The two words the code takes apart are the two halves of the standard's length field.
  lemma LengthDigit0(high: uint32, low: uint32)
    ensures LengthDigit(high * 0x1_0000_0000 + low, 0) == high / 0x100_0000 % 0x100
  {
    assert (high * 0x1_0000_0000 + low) / 0x100_0000_0000_0000 == high / 0x100_0000;
  }

  lemma LengthDigit1(high: uint32, low: uint32)
    ensures LengthDigit(high * 0x1_0000_0000 + low, 1) == high / 0x1_0000 % 0x100
  {
    assert (high * 0x1_0000_0000 + low) / 0x1_0000_0000_0000 == high / 0x1_0000;
  }

  lemma LengthDigit2(high: uint32, low: uint32)
    ensures LengthDigit(high * 0x1_0000_0000 + low, 2) == high / 0x100 % 0x100
  {
    assert (high * 0x1_0000_0000 + low) / 0x100_0000_0000 == high / 0x100;
  }

  lemma LengthDigit3(high: uint32, low: uint32)
    ensures LengthDigit(high * 0x1_0000_0000 + low, 3) == high % 0x100
  {
    assert (high * 0x1_0000_0000 + low) / 0x1_0000_0000 == high;
  }

  lemma LengthDigit4(high: uint32, low: uint32)
    ensures LengthDigit(high * 0x1_0000_0000 + low, 4) == low / 0x100_0000 % 0x100
  {
    assert high * 0x1_0000_0000 + low == (high * 0x100 + low / 0x100_0000) * 0x100_0000 + low % 0x100_0000;
    assert (high * 0x1_0000_0000 + low) / 0x100_0000 == high * 0x100 + low / 0x100_0000;
  }

  lemma LengthDigit5(high: uint32, low: uint32)
    ensures LengthDigit(high * 0x1_0000_0000 + low, 5) == low / 0x1_0000 % 0x100
  {
    assert high * 0x1_0000_0000 + low == (high * 0x1_0000 + low / 0x1_0000) * 0x1_0000 + low % 0x1_0000;
    assert (high * 0x1_0000_0000 + low) / 0x1_0000 == high * 0x1_0000 + low / 0x1_0000;
  }

  lemma LengthDigit6(high: uint32, low: uint32)
    ensures LengthDigit(high * 0x1_0000_0000 + low, 6) == low / 0x100 % 0x100
  {
    var q, r := low / 0x100, low % 0x100;
    Quotient256(high * 0x100_0000 + q, r);
    assert high * 0x1_0000_0000 + low == (high * 0x100_0000 + q) * 0x100 + r;
    Remainder256(high * 0x1_0000, q);
  }

  lemma Quotient256(q: nat, r: nat)
    requires r < 0x100
    ensures (q * 0x100 + r) / 0x100 == q
  {
  }

  lemma Remainder256(q: nat, r: nat)
    ensures (q * 0x100 + r) % 0x100 == r % 0x100
  {
  }

  lemma LengthDigit7(high: uint32, low: uint32)
    ensures LengthDigit(high * 0x1_0000_0000 + low, 7) == low % 0x100
  {
    assert (high * 0x1_0000_0000 + low) % 0x100 == low % 0x100;
  }

  lemma LengthFieldOctets(high: uint32, low: uint32)
    ensures LengthField(high * 0x1_0000_0000 + low) ==
            [high / 0x100_0000 % 0x100, high / 0x1_0000 % 0x100, high / 0x100 % 0x100, high % 0x100,
             low / 0x100_0000 % 0x100, low / 0x1_0000 % 0x100, low / 0x100 % 0x100, low % 0x100]
  {
    hide LengthDigit;
    LengthDigit0(high, low);
    LengthDigit1(high, low);
    LengthDigit2(high, low);
    LengthDigit3(high, low);
    LengthDigit4(high, low);
    LengthDigit5(high, low);
    LengthDigit6(high, low);
    LengthDigit7(high, low);
  }

  lemma WordMixed(w: bv32, x: bv32, y: bv32, z: bv32)
    ensures (w ^ x ^ y ^ z).RotateLeft(1) == Mix(w, x, y, z)
  {
  }

  // A sum masked to 32 bits.
  function Masked(x: bv32, y: bv32): bv32 {
    (x + y) & 0xFFFFFFFF
  }

  lemma MaskedIsAdd(x: bv32, y: bv32)
    ensures Masked(x, y) == Add(x, y)
  {
  }

  // The sum each round loop computes and masks to 32 bits.
  function Temp(a5: bv32, f: bv32, e: bv32, w: bv32, k: bv32): bv32 {
    (a5 + f + e + w + k) & 0xFFFFFFFF
  }

  lemma TempIsSum(a5: bv32, f: bv32, e: bv32, w: bv32, k: bv32)
    ensures Temp(a5, f, e, w, k) == Sum(a5, f, e, w, k)
  {
  }

  // One turn of any of the four round loops, for its own logical function and constant.
  lemma RoundsStep(w: seq<bv32>, h: Chain, t: nat, s: Chain, f: bv32, k: bv32)
    requires t < |w| && s == Rounds(w, h, t)
    requires f == F(t, s.b, s.c, s.d) && k == K(t)
    ensures Rounds(w, h, t + 1) == Chain(Sum(s.a.RotateLeft(5), f, s.e, w[t], k), s.a, s.b.RotateLeft(30), s.c, s.d)
  {
    hide F, K, Sum;
  }

  // The first n blocks of m are folded into the digest and the rest of m is waiting in the buffer.
  ghost predicate Streamed(m: seq<byte>, n: nat, waiting: seq<byte>, digest: Chain) {
    && |m| == 64 * n + |waiting|
    && waiting == m[64 * n..]
    && digest == HashBlocks(m[..64 * n], n)
  }

  lemma StreamedOctet(m: seq<byte>, n: nat, waiting: seq<byte>, digest: Chain, octet: byte)
    requires Streamed(m, n, waiting, digest)
    ensures Streamed(m + [octet], n, waiting + [octet], digest)
  {
    assert (m + [octet])[..64 * n] == m[..64 * n];
  }

  lemma StreamedBlock(m: seq<byte>, n: nat, waiting: seq<byte>, digest: Chain)
    requires Streamed(m, n, waiting, digest) && |waiting| == 64
    ensures Streamed(m, n + 1, [], Compress(digest, waiting))
  {
    HashBlocksAppend(m[..64 * n], n, waiting);
    assert m == m[..64 * n] + waiting;
    assert m[..64 * (n + 1)] == m;
  }

  // Section 5.1.1: the last block, when the length fits in the block the message ends in ...
  lemma PaddingInOneBlock(m: seq<byte>, n: nat, waiting: seq<byte>, digest: Chain)
    requires Streamed(m, n, waiting, digest) && |waiting| <= 55
    ensures Sha1Spec.Sha1(m) == Compress(digest, waiting + [0x80] + Zeros(55 - |waiting|) + LengthField(8 * |m|))
  {
    ZeroCountSplit(n, |waiting|);
    var done, last := m[..64 * n], waiting + [0x80] + Zeros(55 - |waiting|) + LengthField(8 * |m|);
    assert Pad(m) == done + last;
    HashBlocksAppend(done, n, last);
  }

  // ... and the last two, when it does not.
  lemma PaddingInTwoBlocks(m: seq<byte>, n: nat, waiting: seq<byte>, digest: Chain)
    requires Streamed(m, n, waiting, digest) && 55 < |waiting| < 64
    ensures Sha1Spec.Sha1(m) == Compress(Compress(digest, waiting + [0x80] + Zeros(63 - |waiting|)),
                                         Zeros(56) + LengthField(8 * |m|))
  {
    ZeroCountSplit(n, |waiting|);
    var done, first := m[..64 * n], waiting + [0x80] + Zeros(63 - |waiting|);
    var last := Zeros(56) + LengthField(8 * |m|);
    assert Pad(m) == (done + first) + last;
    HashBlocksAppend(done, n, first);
    HashBlocksAppend(done + first, n + 1, last);
  }

  // The digest in the order the caller's array receives it.
  function Words(c: Chain): seq<bv32> {
    [c.a, c.b, c.c, c.d, c.e]
  }

  class Sha1 {
    const H: array<bv32>
    const messageBlock: array<byte>
    var lengthLow: uint32
    var lengthHigh: uint32
    var messageBlockIndex: nat
    var computed: bool
    var corrupted: bool
    ghost var stage: Stage
    ghost var blocks: nat  // how many blocks have been processed

    ghost function Digest(): Chain
      reads this, H
      requires H.Length == 5
    {
      Chain(H[0], H[1], H[2], H[3], H[4])
    }

    ghost predicate Holds(m: seq<byte>)
      reads this, H, messageBlock
      requires H.Length == 5 && messageBlock.Length == 64
    {
      && |m| < MAX_MESSAGE
      && lengthHigh * 0x1_0000_0000 + lengthLow == 8 * |m|
      && messageBlockIndex < 64
      && Streamed(m, blocks, messageBlock[..messageBlockIndex], Digest())
    }

    ghost predicate Valid()
      reads this, H, messageBlock
    {
      && H.Length == 5 && messageBlock.Length == 64
      && corrupted == stage.Corrupt?
      && match stage
         case Open(m) => !computed && Holds(m)
         case Done(m) => computed && |m| < MAX_MESSAGE && Digest() == Sha1Spec.Sha1(m)
         case Corrupt => true
    }

    constructor ()
      ensures Valid() && stage == Open([])
      ensures fresh(H) && fresh(messageBlock)
    {
      H := new bv32[5];
      messageBlock := new byte[64];
      new;
      Reset();
    }

    method Reset()
      requires H.Length == 5 && messageBlock.Length == 64
      modifies this, H
      ensures Valid() && stage == Open([])
    {
      lengthLow, lengthHigh, messageBlockIndex := 0, 0, 0;
      H[0], H[1], H[2], H[3], H[4] := 0x67452301, 0xEFCDAB89, 0x98BADCFE, 0x10325476, 0xC3D2E1F0;
      computed, corrupted := false, false;
      stage, blocks := Open([]), 0;
    }

    method Result(messageDigest: array<bv32>) returns (ok: bool)
      requires Valid() && messageDigest.Length == 5
      requires messageDigest != H
      modifies this, H, messageBlock, messageDigest
      ensures Valid() && stage == Finished(old(stage))
      ensures ok == !old(stage).Corrupt?
      ensures ok ==> messageDigest[..] == Words(Sha1Spec.Sha1(old(stage).message))
      ensures !ok ==> messageDigest[..] == old(messageDigest[..])
    {
      hide Streamed, Sha1Spec.Sha1;
      if corrupted {
        return false;
      }
      if !computed {
        PadMessage();
        computed := true;
        stage := Done(stage.message);
      }
      for i := 0 to 5
        modifies messageDigest
        invariant messageDigest[..i] == H[..i]
      {
        messageDigest[i] := H[i];
      }
      assert messageDigest[..] == H[..] == Words(Digest());
      return true;
    }

    method Input(data: seq<byte>)
      requires Valid()
      modifies this, H, messageBlock
      ensures Valid() && stage == Fed(old(stage), data)
    {
      if |data| == 0 {
        return;
      }
      if computed || corrupted {
        corrupted := true;
        stage := Corrupt;
        return;
      }
      hide Fed, Streamed, Sha1Spec.Sha1;
      ghost var start := stage;
      FedInTwo(start, [], data);
      assert data[..0] == [];
      var i := 0;
      while i < |data| && !corrupted
        invariant 0 <= i <= |data| && Valid() && !stage.Done?
        invariant stage == Fed(start, data[..i])
      {
        FedNext(start, data, i);
        InputOctet(data[i]);
        i := i + 1;
      }
      FedStops(start, data, i);
    }

    // The body of the input loop: store the octet, count its bits, process a full block.
    method InputOctet(octet: byte)
      requires Valid() && stage.Open?
      modifies this, H, messageBlock
      ensures Valid() && stage == Fed(old(stage), [octet])
    {
      hide Compress;
      ghost var m := stage.message;
      StreamedOctet(m, blocks, messageBlock[..messageBlockIndex], Digest(), octet);
      ghost var waiting := messageBlock[..messageBlockIndex] + [octet];
      messageBlock[messageBlockIndex] := octet;
      messageBlockIndex := messageBlockIndex + 1;
      assert messageBlock[..messageBlockIndex] == waiting;
      CountOctet(|m|);
      stage := Fed(stage, [octet]);
      if messageBlockIndex == 64 {
        assert messageBlock[..] == waiting;
        StreamedBlock(m + [octet], blocks, waiting, Digest());
        ProcessMessageBlock();
        assert messageBlock[..0] == [];
        blocks := blocks + 1;
      }
    }

    // The bit count wraps, and the object is spoilt, exactly at the octet the length field cannot count.
    method CountOctet(ghost n: nat)
      requires n < MAX_MESSAGE && lengthHigh * 0x1_0000_0000 + lengthLow == 8 * n && !corrupted
      modifies `lengthLow, `lengthHigh, `corrupted
      ensures !corrupted ==> lengthHigh * 0x1_0000_0000 + lengthLow == 8 * (n + 1)
      ensures corrupted <==> n + 1 == MAX_MESSAGE
    {
      lengthLow := (lengthLow + 8) % 0x1_0000_0000;
      if lengthLow == 0 {
        lengthHigh := (lengthHigh + 1) % 0x1_0000_0000;
        if lengthHigh == 0 {
          corrupted := true;
        }
      }
    }

    // The first 16 words W of the block in the buffer.
    method LoadBlock() returns (w: array<bv32>)
      requires messageBlock.Length == 64
      ensures fresh(w) && w.Length == 80 && w[..16] == Schedule(messageBlock[..], 16)
    {
      hide BigEndian, Mix;
      w := new bv32[80];
      for t := 0 to 16
        invariant w[..t] == Schedule(messageBlock[..], t)
      {
        var word := LoadWord(messageBlock[t * 4], messageBlock[t * 4 + 1], messageBlock[t * 4 + 2], messageBlock[t * 4 + 3]);
        w[t] := word;
      }
    }

    static method LoadWord(b0: byte, b1: byte, b2: byte, b3: byte) returns (word: bv32)
      ensures word == BigEndian(b0, b1, b2, b3)
    {
      word := b0 as bv32 << 24;
      word := word | (b1 as bv32 << 16);
      word := word | (b2 as bv32 << 8);
      word := word | (b3 as bv32);
    }

    // All 80 of them.
    method ExpandBlock() returns (w: array<bv32>)
      requires messageBlock.Length == 64
      ensures fresh(w) && w[..] == Schedule(messageBlock[..], 80)
    {
      hide BigEndian, Mix;
      w := LoadBlock();
      for t := 16 to 80
        invariant w[..t] == Schedule(messageBlock[..], t)
      {
        WordMixed(w[t - 3], w[t - 8], w[t - 14], w[t - 16]);
        var word := CircularShift(1, w[t - 3] ^ w[t - 8] ^ w[t - 14] ^ w[t - 16]);
        w[t] := word;
      }
      assert w[..] == w[..80];
    }

    static method CircularShift(bits: nat, word: bv32) returns (shifted: bv32)
      requires 1 <= bits <= 31
      ensures bits == 1 ==> shifted == word.RotateLeft(1)
      ensures bits == 5 ==> shifted == word.RotateLeft(5)
      ensures bits == 30 ==> shifted == word.RotateLeft(30)
    {
      shifted := ((word << bits) & 0xFFFFFFFF) | ((word & 0xFFFFFFFF) >> (32 - bits));
    }

    // The four loops over the 80 words: the first ...
    static method ChoiceRounds(w: array<bv32>, ghost start: Chain, a0: bv32, b0: bv32, c0: bv32, d0: bv32, e0: bv32)
      returns (a: bv32, b: bv32, c: bv32, d: bv32, e: bv32)
      requires w.Length == 80 && Chain(a0, b0, c0, d0, e0) == Rounds(w[..], start, 0)
      ensures Chain(a, b, c, d, e) == Rounds(w[..], start, 20)
    {
      hide Temp, Sum, Ch, Parity, Maj, Choice, Rounds, Schedule;
      ghost var words := w[..];
      a, b, c, d, e := a0, b0, c0, d0, e0;
      for t := 0 to 20
        invariant Chain(a, b, c, d, e) == Rounds(words, start, t)
      {
        var a5 := CircularShift(5, a);
        var f := Choice(b, c, d);
        var temp := Temp(a5, f, e, w[t], 0x5A827999);
        ChoiceAgrees(b, c, d);
        TempIsSum(a5, f, e, w[t], 0x5A827999);
        RoundsStep(words, start, t, Chain(a, b, c, d, e), f, 0x5A827999);
        var b30 := CircularShift(30, b);
        a, b, c, d, e := temp, a, b30, c, d;
      }
    }

    // ... the second ...
    static method ParityRounds(w: array<bv32>, ghost start: Chain, a0: bv32, b0: bv32, c0: bv32, d0: bv32, e0: bv32)
      returns (a: bv32, b: bv32, c: bv32, d: bv32, e: bv32)
      requires w.Length == 80 && Chain(a0, b0, c0, d0, e0) == Rounds(w[..], start, 20)
      ensures Chain(a, b, c, d, e) == Rounds(w[..], start, 40)
    {
      hide Temp, Sum, Ch, Parity, Maj, Rounds, Schedule;
      ghost var words := w[..];
      a, b, c, d, e := a0, b0, c0, d0, e0;
      for t := 20 to 40
        invariant Chain(a, b, c, d, e) == Rounds(words, start, t)
      {
        var a5 := CircularShift(5, a);
        var f := Parity(b, c, d);
        var temp := Temp(a5, f, e, w[t], 0x6ED9EBA1);
        TempIsSum(a5, f, e, w[t], 0x6ED9EBA1);
        RoundsStep(words, start, t, Chain(a, b, c, d, e), f, 0x6ED9EBA1);
        var b30 := CircularShift(30, b);
        a, b, c, d, e := temp, a, b30, c, d;
      }
    }

    // ... the third ...
    static method MajorityRounds(w: array<bv32>, ghost start: Chain, a0: bv32, b0: bv32, c0: bv32, d0: bv32, e0: bv32)
      returns (a: bv32, b: bv32, c: bv32, d: bv32, e: bv32)
      requires w.Length == 80 && Chain(a0, b0, c0, d0, e0) == Rounds(w[..], start, 40)
      ensures Chain(a, b, c, d, e) == Rounds(w[..], start, 60)
    {
      hide Temp, Sum, Ch, Parity, Maj, Majority, Rounds, Schedule;
      ghost var words := w[..];
      a, b, c, d, e := a0, b0, c0, d0, e0;
      for t := 40 to 60
        invariant Chain(a, b, c, d, e) == Rounds(words, start, t)
      {
        var a5 := CircularShift(5, a);
        var f := Majority(b, c, d);
        var temp := Temp(a5, f, e, w[t], 0x8F1BBCDC);
        MajorityAgrees(b, c, d);
        TempIsSum(a5, f, e, w[t], 0x8F1BBCDC);
        RoundsStep(words, start, t, Chain(a, b, c, d, e), f, 0x8F1BBCDC);
        var b30 := CircularShift(30, b);
        a, b, c, d, e := temp, a, b30, c, d;
      }
    }

    // ... and the last.
    static method LastRounds(w: array<bv32>, ghost start: Chain, a0: bv32, b0: bv32, c0: bv32, d0: bv32, e0: bv32)
      returns (a: bv32, b: bv32, c: bv32, d: bv32, e: bv32)
      requires w.Length == 80 && Chain(a0, b0, c0, d0, e0) == Rounds(w[..], start, 60)
      ensures Chain(a, b, c, d, e) == Rounds(w[..], start, 80)
    {
      hide Temp, Sum, Ch, Parity, Maj, Rounds, Schedule;
      ghost var words := w[..];
      a, b, c, d, e := a0, b0, c0, d0, e0;
      for t := 60 to 80
        invariant Chain(a, b, c, d, e) == Rounds(words, start, t)
      {
        var a5 := CircularShift(5, a);
        var f := Parity(b, c, d);
        var temp := Temp(a5, f, e, w[t], 0xCA62C1D6);
        TempIsSum(a5, f, e, w[t], 0xCA62C1D6);
        RoundsStep(words, start, t, Chain(a, b, c, d, e), f, 0xCA62C1D6);
        var b30 := CircularShift(30, b);
        a, b, c, d, e := temp, a, b30, c, d;
      }
    }

    method ProcessMessageBlock()
      requires H.Length == 5 && messageBlock.Length == 64
      modifies H, `messageBlockIndex
      ensures Digest() == Compress(old(Digest()), messageBlock[..])
      ensures messageBlockIndex == 0
    {
      hide Add, Masked, Schedule;
      var w := ExpandBlock();
      assert Rounds(w[..], Digest(), 0) == Digest();
      hide Rounds;
      var a, b, c, d, e := ChoiceRounds(w, Digest(), H[0], H[1], H[2], H[3], H[4]);
      a, b, c, d, e := ParityRounds(w, Digest(), a, b, c, d, e);
      a, b, c, d, e := MajorityRounds(w, Digest(), a, b, c, d, e);
      a, b, c, d, e := LastRounds(w, Digest(), a, b, c, d, e);
      MaskedIsAdd(H[0], a);
      MaskedIsAdd(H[1], b);
      MaskedIsAdd(H[2], c);
      MaskedIsAdd(H[3], d);
      MaskedIsAdd(H[4], e);
      H[0], H[1], H[2], H[3], H[4] := Masked(H[0], a), Masked(H[1], b), Masked(H[2], c), Masked(H[3], d), Masked(H[4], e);
      messageBlockIndex := 0;
    }

    method PadMessage()
      requires Valid() && stage.Open?
      modifies H, messageBlock, `messageBlockIndex
      ensures Digest() == Sha1Spec.Sha1(stage.message)
    {
      PadToLength();
      StoreLength();
      ProcessMessageBlock();
    }

    // The two branches: afterwards only the length field and one more block are missing.
    method PadToLength()
      requires Valid() && stage.Open?
      modifies H, messageBlock, `messageBlockIndex
      ensures Compress(Digest(), messageBlock[..56] + LengthField(8 * |stage.message|)) == Sha1Spec.Sha1(stage.message)
    {
      hide Compress, LengthField, Sha1Spec.Sha1, HashBlocks;
      ghost var m, waiting := stage.message, messageBlock[..messageBlockIndex];
      if messageBlockIndex > 55 {
        PaddingInTwoBlocks(m, blocks, waiting, Digest());
        messageBlock[messageBlockIndex] := 0x80;
        messageBlockIndex := messageBlockIndex + 1;
        assert messageBlock[..messageBlockIndex] == waiting + [0x80];
        ZeroFill(64);
        assert messageBlock[..] == messageBlock[..64];
        ProcessMessageBlock();
        assert messageBlock[..0] == [];
        ZeroFill(56);
        assert messageBlock[..56] == Zeros(56);
      } else {
        PaddingInOneBlock(m, blocks, waiting, Digest());
        messageBlock[messageBlockIndex] := 0x80;
        messageBlockIndex := messageBlockIndex + 1;
        assert messageBlock[..messageBlockIndex] == waiting + [0x80];
        ZeroFill(56);
      }
    }

    method ZeroFill(end: nat)
      requires messageBlock.Length == 64 && messageBlockIndex <= end <= 64
      modifies messageBlock, `messageBlockIndex
      ensures messageBlockIndex == end
      ensures messageBlock[..end] == old(messageBlock[..messageBlockIndex]) + Zeros(end - old(messageBlockIndex))
    {
      while messageBlockIndex < end
        invariant old(messageBlockIndex) <= messageBlockIndex <= end
        invariant messageBlock[..messageBlockIndex]
               == old(messageBlock[..messageBlockIndex]) + Zeros(messageBlockIndex - old(messageBlockIndex))
      {
        messageBlock[messageBlockIndex] := 0;
        messageBlockIndex := messageBlockIndex + 1;
      }
    }

    // Store the message length as the last 8 octets.
    method StoreLength()
      requires messageBlock.Length == 64
      modifies messageBlock
      ensures messageBlock[..] == old(messageBlock[..56]) + LengthField(lengthHigh * 0x1_0000_0000 + lengthLow)
    {
      messageBlock[56] := lengthHigh / 0x100_0000 % 0x100;
      messageBlock[57] := lengthHigh / 0x1_0000 % 0x100;
      messageBlock[58] := lengthHigh / 0x100 % 0x100;
      messageBlock[59] := lengthHigh % 0x100;
      messageBlock[60] := lengthLow / 0x100_0000 % 0x100;
      messageBlock[61] := lengthLow / 0x1_0000 % 0x100;
      messageBlock[62] := lengthLow / 0x100 % 0x100;
      messageBlock[63] := lengthLow % 0x100;
      LengthFieldOctets(lengthHigh, lengthLow);
    }
  }

  function Concat(chunks: seq<seq<byte>>): seq<byte> {
    if chunks == [] then [] else chunks[0] + Concat(chunks[1..])
  }

  function FedAll(stage: Stage, chunks: seq<seq<byte>>): Stage
    decreases |chunks|
  {
    if chunks == [] then stage else FedAll(Fed(stage, chunks[0]), chunks[1..])
  }

  // Every way of cutting a message into Input calls leaves the object in the same stage.
  lemma {:induction false} AnyCutIsOneInput(stage: Stage, chunks: seq<seq<byte>>)
    requires !stage.Done?
    ensures FedAll(stage, chunks) == Fed(stage, Concat(chunks))
    decreases |chunks|
  {
    if chunks != [] {
      FedInTwo(stage, chunks[0], []);
      FedInTwo(stage, chunks[0], Concat(chunks[1..]));
      assert chunks[0] + [] == chunks[0];
      AnyCutIsOneInput(Fed(stage, chunks[0]), chunks[1..]);
    }
  }

  // A whole life of one object: feed the chunks, ask for the result twice.
  method HashChunks(chunks: seq<seq<byte>>) returns (ok: bool, digest: seq<bv32>, again: seq<bv32>)
    ensures ok == (|Concat(chunks)| < MAX_MESSAGE)
    ensures ok ==> digest == Words(Sha1Spec.Sha1(Concat(chunks)))
    ensures again == digest
  {
    hide Sha1Spec.Sha1, Streamed;
    var sha := new Sha1();
    for i := 0 to |chunks|
      invariant sha.Valid() && fresh(sha) && fresh(sha.H) && fresh(sha.messageBlock)
      invariant !sha.stage.Done? && FedAll(sha.stage, chunks[i..]) == FedAll(Open([]), chunks)
    {
      FedInTwo(sha.stage, [], chunks[i]);
      assert [] + chunks[i] == chunks[i];
      sha.Input(chunks[i]);
    }
    AnyCutIsOneInput(Open([]), chunks);
    assert chunks[|chunks|..] == [] && [] + Concat(chunks) == Concat(chunks);
    var out := new bv32[5];
    ok := sha.Result(out);
    digest := out[..];
    var ok' := sha.Result(out);
    again := out[..];
  }
}
