/** Streaming MD5 of kernel/libk/md5.c (sections 3.1 to 3.5 of RFC 1321) over an arbitrary block function. */
module Md5 {

  const WORD: nat := 0x1_0000_0000
  const LONG: nat := 0x1_0000_0000_0000_0000

  type Byte = b: nat | b < 256
  type Word = w: nat | w < WORD

  /** The four words of the state. */
  datatype Abcd = Abcd(a: Word, b: Word, c: Word, d: Word)

  const IV: Abcd := Abcd(0x67452301, 0xefcdab89, 0x98badcfe, 0x10325476)

  /** `__MD5Transform` on one block of 64 bytes. */
  type BlockFunction = (Abcd, seq<Byte>) -> Abcd

  // ---------------------------------------------------------------- the digest of a whole message

  /** The state after the whole blocks of `m`, one after the other. */
  function Absorb(f: BlockFunction, s: Abcd, m: seq<Byte>): Abcd
    decreases |m|
  {
    if |m| < 64 then s else Absorb(f, f(s, m[..64]), m[64..])
  }

  /** The number that bytes stand for, least significant byte first. */
  function Value(bytes: seq<Byte>): nat
  {
    if bytes == [] then 0 else bytes[0] + 256 * Value(bytes[1..])
  }

  lemma {:induction false} ValueConcat(low: seq<Byte>, high: seq<Byte>)
    requires |low| <= 4
    ensures Value(low + high) == Value(low) + Pow256(|low|) * Value(high)
  {
    if low == [] {
      assert low + high == high;
    } else {
      ValueConcat(low[1..], high);
      assert (low + high)[1..] == low[1..] + high;
    }
  }

  function Pow256(n: nat): nat
  {
    if n == 0 then 1 else if n == 1 then 0x100 else if n == 2 then 0x1_0000 else if n == 3 then 0x100_0000 else WORD
  }

  /** A 32-bit word, and a 64-bit number, as bytes. */
  function Bytes32(w: Word): (r: seq<Byte>)
    ensures |r| == 4 && Value(r) == w
  {
    Value4(w % 256, w / 0x100 % 256, w / 0x1_0000 % 256, w / 0x100_0000);
    [w % 256, w / 0x100 % 256, w / 0x1_0000 % 256, w / 0x100_0000]
  }

  function Bytes64(n: nat): (r: seq<Byte>)
    requires n < LONG
    ensures |r| == 8 && Value(r) == n
  {
    ValueConcat(Bytes32(n % WORD), Bytes32(n / WORD));
    Bytes32(n % WORD) + Bytes32(n / WORD)
  }

  lemma Value4(a: Byte, b: Byte, c: Byte, d: Byte)
    ensures Value([a, b, c, d]) == (a as int) + 0x100 * (b as int) + 0x1_0000 * (c as int) + 0x100_0000 * (d as int)
  {
    assert [a, b, c, d][1..] == [b, c, d] && [b, c, d][1..] == [c, d] && [c, d][1..] == [d];
    assert Value([d]) == d;
    assert Value([c, d]) == (c as int) + 256 * (d as int);
    assert Value([b, c, d]) == (b as int) + 256 * Value([c, d]);
  }

  /** Bytes are determined by their number and value. */
  lemma {:induction false} ValueInjective(r: seq<Byte>, s: seq<Byte>)
    requires |r| == |s| && Value(r) == Value(s)
    ensures r == s
  {
    if r != [] {
      assert r[0] == Value(r) % 256 && s[0] == Value(s) % 256;
      ValueInjective(r[1..], s[1..]);
      assert r == [r[0]] + r[1..] && s == [s[0]] + s[1..];
    }
  }

  /** How many zero bytes follow the first byte of the padding: just enough to be 8 bytes short of a block. */
  function Zeros(len: nat): (k: nat)
    ensures (len + 1 + k) % 64 == 56 && k < 64
  {
    (55 - len) % 64
  }

  /** The message, padded with its length in bits modulo 2^64. */
  function Padded(m: seq<Byte>): (r: seq<Byte>)
  {
    m + Tail(|m|) + Bytes64(8 * |m| % LONG)
  }

  /** The padding of a message of this length, up to the length field. */
  function Tail(len: nat): (r: seq<Byte>)
    ensures |r| == 1 + Zeros(len)
  {
    [0x80] + seq(Zeros(len), _ => 0)
  }

  function Digest(f: BlockFunction, m: seq<Byte>): (r: seq<Byte>)
  {
    Output(Absorb(f, IV, Padded(m)))
  }

  /** Each word of the state is the value of four bytes of the digest. */
  function Output(s: Abcd): (r: seq<Byte>)
    ensures |r| == 16 && WordsOf(r, s)
  {
    var (a, b, c, d) := (Bytes32(s.a), Bytes32(s.b), Bytes32(s.c), Bytes32(s.d));
    var r := a + b + c + d;
    assert r[..4] == a && r[4..8] == b && r[8..12] == c && r[12..] == d;
    r
  }

  /** Section 3.3 of RFC 1321 lists the sixteen bytes of the first state. */
  lemma FirstState()
    ensures Output(IV) ==
      [0x01, 0x23, 0x45, 0x67, 0x89, 0xab, 0xcd, 0xef, 0xfe, 0xdc, 0xba, 0x98, 0x76, 0x54, 0x32, 0x10]
  {
    hide Value;
    assert Bytes32(0x67452301) == [0x01, 0x23, 0x45, 0x67];
    assert Bytes32(0xefcdab89) == [0x89, 0xab, 0xcd, 0xef];
    assert Bytes32(0x98badcfe) == [0xfe, 0xdc, 0xba, 0x98];
    assert Bytes32(0x10325476) == [0x76, 0x54, 0x32, 0x10];
    hide Bytes32;
  }

  /** What sections 3.1 and 3.2 of RFC 1321 say about the padded message: a bit set, as few zero bits as possible, and
      the length in bits as 8 bytes. There is only one such message. */
  predicate IsPadded(m: seq<Byte>, r: seq<Byte>)
  {
    && |r| % 64 == 0 && |m| + 9 <= |r| < |m| + 9 + 64 && r[..|m|] == m && r[|m|] == 0x80
    && (forall i :: |m| < i < |r| - 8 ==> r[i] == 0)
    && Value(r[|r| - 8..]) == 8 * |m| % LONG
  }

  lemma PaddedIs(m: seq<Byte>, r: seq<Byte>)
    ensures IsPadded(m, r) <==> r == Padded(m)
  {
    PaddedShape(m);
    hide IsPadded, Padded;
    if IsPadded(m, r) {
      PaddedUnique(m, r, Padded(m));
    }
  }

  lemma PaddedShape(m: seq<Byte>)
    ensures IsPadded(m, Padded(m))
  {
    hide Value, Bytes64, Zeros;
    PaddedLength(|m|);
    var p, t, b := Padded(m), Tail(|m|), Bytes64(8 * |m| % LONG);
    assert p == (m + t) + b && p[|m + t|..] == b && p[..|m + t|] == m + t && p[..|m|] == m;
    forall i | |m| <= i < |m + t|
      ensures p[i] == t[i - |m|]
    {
      assert p[i] == (m + t)[i];
    }
  }

  lemma PaddedLength(len: nat)
    ensures (len + 1 + Zeros(len) + 8) % 64 == 0
  {
  }

  lemma SameMultiple(x: nat, y: nat, z: nat)
    requires x % 64 == 0 == y % 64 && z <= x < z + 64 && z <= y < z + 64
    ensures x == y
  {
  }

  lemma PaddedUnique(m: seq<Byte>, r: seq<Byte>, p: seq<Byte>)
    requires IsPadded(m, r) && IsPadded(m, p)
    ensures r == p
  {
    SameMultiple(|r|, |p|, |m| + 9);
    var n := |r| - 8;
    ValueInjective(r[n..], p[n..]);
    hide Value;
    forall i | 0 <= i < |r|
      ensures r[i] == p[i]
    {
      assert i < |m| ==> r[i] == r[..|m|][i] && p[i] == p[..|m|][i];
      assert i >= n ==> r[i] == r[n..][i - n] && p[i] == p[n..][i - n];
    }
  }

  /** The digest, said of the bytes alone: the words of the state after the padded message, each as four bytes. */
  ghost predicate IsDigest(f: BlockFunction, m: seq<Byte>, digest: seq<Byte>)
  {
    |digest| == 16 && exists p :: IsPadded(m, p) && WordsOf(digest, Absorb(f, IV, p))
  }

  predicate WordsOf(r: seq<Byte>, s: Abcd)
    requires |r| == 16
  {
    Value(r[..4]) == s.a && Value(r[4..8]) == s.b && Value(r[8..12]) == s.c && Value(r[12..]) == s.d
  }

  lemma DigestIs(f: BlockFunction, m: seq<Byte>, digest: seq<Byte>)
    ensures IsDigest(f, m, digest) <==> digest == Digest(f, m)
  {
    hide Value, IsPadded, Padded, Absorb, Output;
    PaddedIs(m, Padded(m));
    if IsDigest(f, m, digest) {
      var p :| IsPadded(m, p) && WordsOf(digest, Absorb(f, IV, p));
      PaddedIs(m, p);
      WordsUnique(digest, Output(Absorb(f, IV, p)), Absorb(f, IV, p));
    }
  }

  lemma WordsUnique(r: seq<Byte>, q: seq<Byte>, s: Abcd)
    requires |r| == |q| == 16 && WordsOf(r, s) && WordsOf(q, s)
    ensures r == q
  {
    hide Value;
    ValueInjective(r[..4], q[..4]);
    ValueInjective(r[4..8], q[4..8]);
    ValueInjective(r[8..12], q[8..12]);
    ValueInjective(r[12..], q[12..]);
    assert r == r[..4] + r[4..8] + r[8..12] + r[12..] && q == q[..4] + q[4..8] + q[8..12] + q[12..];
  }

  function Concat(chunks: seq<seq<Byte>>): seq<Byte>
  {
    if chunks == [] then [] else Concat(chunks[..|chunks| - 1]) + chunks[|chunks| - 1]
  }

  // ---------------------------------------------------------------- facts

  ghost predicate Blocks(m: seq<Byte>)
  {
    |m| % 64 == 0
  }

  lemma BlocksConcat(m: seq<Byte>, n: seq<Byte>)
    requires Blocks(m) && Blocks(n)
    ensures Blocks(m + n)
  {
  }

  /** Whole blocks can be absorbed in two parts. */
  lemma {:induction false} AbsorbConcat(f: BlockFunction, s: Abcd, m: seq<Byte>, n: seq<Byte>)
    requires Blocks(m)
    ensures Absorb(f, s, m + n) == Absorb(f, Absorb(f, s, m), n)
    decreases |m|
  {
    if m == [] {
      assert m + n == n;
    } else {
      assert (m + n)[..64] == m[..64] && (m + n)[64..] == m[64..] + n;
      AbsorbConcat(f, f(s, m[..64]), m[64..], n);
    }
  }

  lemma AbsorbOne(f: BlockFunction, s: Abcd, block: seq<Byte>)
    requires |block| == 64
    ensures Absorb(f, s, block) == f(s, block)
  {
    assert block[..64] == block;
  }

  /** The bytes after the last whole block do not matter yet. */
  lemma AbsorbTail(f: BlockFunction, s: Abcd, m: seq<Byte>, t: seq<Byte>)
    requires Blocks(m) && |t| < 64
    ensures Absorb(f, s, m + t) == Absorb(f, s, m)
  {
    AbsorbConcat(f, s, m, t);
  }

  lemma ModLong(x: nat, r: nat, t: nat)
    requires x == r + LONG * t && r < LONG
    ensures x % LONG == r
  {
  }

  lemma Low(n: nat)
    ensures 8 * n == 8 * n % WORD + WORD * (n / 0x2000_0000)
  {
  }

  lemma Carry(c: nat, low: nat)
    requires c < WORD && low < WORD
    ensures var d := (c + low) % WORD; c + low == d + if d < low then WORD else 0
  {
  }

  /** The two words of the count, with the carry, add up modulo 2^64. */
  lemma CountAdds(c0: nat, c1: nat, len: nat, n: nat)
    requires c0 < WORD && c1 < WORD && n < WORD && c0 + WORD * c1 == 8 * len % LONG
    ensures var low := 8 * n % WORD; var d0 := (c0 + low) % WORD;
      var d1 := (c1 + (if d0 < low then 1 else 0) + n / 0x2000_0000) % WORD;
      d0 + WORD * d1 == 8 * (len + n) % LONG
  {
    var low := 8 * n % WORD;
    var d0 := (c0 + low) % WORD;
    var high := c1 + (if d0 < low then 1 else 0) + n / 0x2000_0000;
    Low(n);
    Carry(c0, low);
    var q, k := 8 * len / LONG, high / WORD;
    assert 8 * len == c0 + WORD * c1 + LONG * q;
    assert 8 * (len + n) == d0 + WORD * high + LONG * q;
    assert high == high % WORD + WORD * k;
    ModLong(8 * (len + n), d0 + WORD * (high % WORD), q + k);
  }

  lemma Mod64(e: nat, t: nat)
    ensures (e + 64 * t) % 64 == e % 64
  {
  }

  lemma ByteIndex(c0: nat, c1: nat, len: nat)
    requires Counted(c0, c1, len)
    ensures c0 / 8 % 64 == len % 64
  {
    var q := 8 * len / LONG;
    var t := 0x80_0000 * c1 + 0x80_0000_0000_0000 * q;
    var e := len - 64 * t;
    assert c0 == 8 * e by {
      assert 8 * len == c0 + WORD * c1 + LONG * q;
    }
    Mod64(e, t);
  }

  /** The two words hold the length in bits modulo 2^64. */
  ghost predicate Counted(c0: nat, c1: nat, len: nat)
  {
    c0 < WORD && c1 < WORD && c0 + WORD * c1 == 8 * len % LONG
  }

  lemma ModTwice(c: nat, h: nat)
    ensures (c % WORD + h) % WORD == (c + h) % WORD
  {
  }

  class Context {
    const f: BlockFunction
    var state: Abcd
    var count0: Word
    var count1: Word
    var buffer: seq<Byte>
    ghost var message: seq<Byte>       // everything since MD5Init

    /** The whole blocks of the message have been absorbed, the rest is in the buffer, and the count is the
        length in bits modulo 2^64. */
    ghost predicate Valid()
      reads this
    {
      && Counted(count0, count1, |message|)
      && |buffer| == 64
      && Pending(f, state, buffer, message)
    }

    /** `MD5Init` */
    constructor (blockFunction: BlockFunction)
      ensures Valid() && message == [] && f == blockFunction
    {
      f := blockFunction;
      count0, count1 := 0, 0;
      state := IV;
      buffer := seq(64, _ => 0);
      message := [];
    }

    /** `__MD5Transform` */
    method Transform(input: seq<Byte>, repeat: nat)
      requires |input| >= 64 * repeat
      modifies this`state
      ensures state == Absorb(f, old(state), input[..64 * repeat])
    {
      var i := 0;
      while i < repeat
        invariant i <= repeat
        invariant state == Absorb(f, old(state), input[..64 * i])
      {
        var block := input[64 * i..64 * i + 64];
        assert input[..64 * (i + 1)] == input[..64 * i] + block;
        AbsorbConcat(f, old(state), input[..64 * i], block);
        AbsorbOne(f, state, block);
        state := f(state, block);
        i := i + 1;
      }
    }

    /** The count of `MD5Update`. */
    method AddCount(n: nat)
      requires n < WORD && Counted(count0, count1, |message|)
      modifies this`count0, this`count1
      ensures Counted(count0, count1, |message| + n)
    {
      CountAdds(count0, count1, |message|, n);
      ghost var high := n / 0x2000_0000;
      ModTwice(count1 + 1, high);
      var low := 8 * n % WORD;
      count0 := (count0 + low) % WORD;
      if count0 < low {
        count1 := (count1 + 1) % WORD;
      }
      count1 := (count1 + n / 0x2000_0000) % WORD;
    }

    /** The bytes of `MD5Update`. */
    method Feed(input: seq<Byte>, byteIndex: nat)
      requires |buffer| == 64 && byteIndex == |message| % 64 && Pending(f, state, buffer, message)
      modifies this`state, this`buffer
      ensures |buffer| == 64 && Pending(f, state, buffer, message + input)
    {
      hide Absorb, Pending;
      var partLen := 64 - byteIndex;
      if |input| >= partLen {
        BlocksFed(f, state, buffer, message, input);
        buffer := buffer[..byteIndex] + input[..partLen];
        Transform(buffer, 1);
        var len := (|input| - partLen) / 64;
        Transform(input[partLen..], len);
        var rest := input[partLen + 64 * len..];
        buffer := rest + buffer[|rest|..];
      } else {
        TailFed(f, state, buffer, message, input);
        buffer := buffer[..byteIndex] + input + buffer[byteIndex + |input|..];
      }
    }

    /** `MD5Update`: the message grows by the input. */
    method Update(input: seq<Byte>)
      requires Valid() && |input| < WORD
      modifies this
      ensures Valid() && message == old(message) + input
    {
      ByteIndex(count0, count1, |message|);
      var byteIndex := count0 / 8 % 64;
      AddCount(|input|);
      hide Counted, Pending;
      Feed(input, byteIndex);
      message := message + input;
    }

    /** `MD5Final`: the digest of everything fed since `MD5Init`; nothing of it is left in the context. */
    method Final() returns (digest: seq<Byte>)
      requires Valid()
      modifies this
      ensures digest == Digest(f, old(message)) && IsDigest(f, old(message), digest)
      ensures state == Abcd(0, 0, 0, 0) && count0 == 0 == count1 && buffer == seq(64, _ => 0)
    {
      hide Value, IsDigest, Output, Absorb, Pending, Padded, Bytes32, Bytes64, Tail, Zeros, Counted;
      ByteIndex(count0, count1, |message|);
      LengthField(count0, count1, |message|);
      var byteIndex := count0 / 8 % 64;
      var finalBlockLength := (if byteIndex < 56 then 56 else 120) - byteIndex;
      var finalBlock := [0x80] + seq(63, _ => 0);
      FinalBlock(|message|, byteIndex);
      var bits := Bytes32(count0) + Bytes32(count1);
      Finish(finalBlock[..finalBlockLength], bits);
      digest := Output(state);
      DigestIs(f, old(message), digest);
      state := Abcd(0, 0, 0, 0);
      count0, count1 := 0, 0;
      buffer := seq(64, _ => 0);
    }

    /** The two updates of `MD5Final`. */
    method Finish(padding: seq<Byte>, bits: seq<Byte>)
      requires Valid() && padding == Tail(|message|) && bits == Bytes64(8 * |message| % LONG)
      modifies this
      ensures state == Absorb(f, IV, Padded(old(message)))
    {
      hide *;
      PaddedParts(message);
      Update(padding);
      Update(bits);
      Finished(this);
    }
  }

  lemma PaddedParts(m: seq<Byte>)
    ensures Padded(m) == (m + Tail(|m|)) + Bytes64(8 * |m| % LONG)
    ensures |Tail(|m|)| < WORD && |Bytes64(8 * |m| % LONG)| < WORD
  {
  }

  lemma Finished(context: Context)
    requires context.Valid()
    ensures context.state == Absorb(context.f, IV, context.message)
  {
  }

  /** The length `MD5Final` computes for the padding is the one section 3.1 of RFC 1321 asks for. */
  lemma FinalBlock(len: nat, byteIndex: nat)
    requires byteIndex == len % 64
    ensures var n := (if byteIndex < 56 then 56 else 120) - byteIndex;
      n <= 64 && ([0x80] + seq(63, _ => 0))[..n] == Tail(len)
  {
    var n := (if byteIndex < 56 then 56 else 120) - byteIndex;
    assert n == 1 + Zeros(len);
  }

  /** The two words as bytes have the length in bits as their value. */
  lemma LengthField(c0: Word, c1: Word, len: nat)
    requires Counted(c0, c1, len)
    ensures Value(Bytes32(c0) + Bytes32(c1)) == 8 * len % LONG
    ensures Bytes32(c0) + Bytes32(c1) == Bytes64(8 * len % LONG)
  {
    hide Value;
    ValueConcat(Bytes32(c0), Bytes32(c1));
    ValueInjective(Bytes32(c0) + Bytes32(c1), Bytes64(8 * len % LONG));
    hide Bytes32, Bytes64;
  }

  ghost predicate Pending(f: BlockFunction, state: Abcd, buffer: seq<Byte>, message: seq<Byte>)
    requires |buffer| == 64
  {
    var r := |message| % 64;
    state == Absorb(f, IV, message) && buffer[..r] == message[|message| - r..]
  }

  lemma TailFed(f: BlockFunction, state: Abcd, buffer: seq<Byte>, message: seq<Byte>, input: seq<Byte>)
    requires |buffer| == 64 && Pending(f, state, buffer, message) && |message| % 64 + |input| < 64
    ensures var r := |message| % 64; Pending(f, state, buffer[..r] + input + buffer[r + |input|..], message + input)
  {
    var r := |message| % 64;
    var whole, t := message[..|message| - r], message[|message| - r..];
    assert message == whole + t && message + input == whole + (t + input);
    AbsorbTail(f, IV, whole, t);
    AbsorbTail(f, IV, whole, t + input);
    assert |message + input| % 64 == r + |input|;
  }

  /** Whole blocks, the block that the buffer completes, more whole blocks, and a rest. */
  lemma Parts(f: BlockFunction, whole: seq<Byte>, t: seq<Byte>, first: seq<Byte>, k: seq<Byte>, rest: seq<Byte>)
    requires Blocks(whole) && |t| < 64 && Blocks(first) && Blocks(k) && |rest| < 64
    ensures Absorb(f, IV, ((whole + first) + k) + rest) == Absorb(f, Absorb(f, Absorb(f, IV, whole + t), first), k)
  {
    hide *;
    AbsorbTail(f, IV, whole, t);
    var upto := whole + first;
    BlocksConcat(whole, first);
    BlocksConcat(upto, k);
    AbsorbConcat(f, IV, whole, first);
    AbsorbConcat(f, IV, upto, k);
    AbsorbTail(f, IV, upto + k, rest);
  }

  lemma Regroup(whole: seq<Byte>, t: seq<Byte>, b: seq<Byte>, k: seq<Byte>, rest: seq<Byte>)
    ensures (whole + t) + (b + k + rest) == ((whole + (t + b)) + k) + rest
  {
  }

  lemma BlocksFed(f: BlockFunction, state: Abcd, buffer: seq<Byte>, message: seq<Byte>, input: seq<Byte>)
    requires |buffer| == 64 && Pending(f, state, buffer, message) && |message| % 64 + |input| >= 64
    ensures var r := |message| % 64; var part := 64 - r; var len := (|input| - part) / 64;
      var first := buffer[..r] + input[..part]; var rest := input[part + 64 * len..];
      Pending(f, Absorb(f, Absorb(f, state, first[..64]), input[part..][..64 * len]), rest + first[|rest|..],
        message + input)
  {
    hide Absorb;
    var r := |message| % 64;
    var part := 64 - r;
    var len := (|input| - part) / 64;
    var whole, t, b := message[..|message| - r], message[|message| - r..], input[..part];
    var blocks, rest := input[part..][..64 * len], input[part + 64 * len..];
    assert |whole| == 64 * (|message| / 64);
    Parts(f, whole, t, t + b, blocks, rest);
    Regroup(whole, t, b, blocks, rest);
    assert message == whole + t && input == b + blocks + rest && (t + b)[..64] == t + b;
    assert |message + input| % 64 == |rest| by {
      assert |message + input| == |rest| + 64 * (|whole| / 64 + 1 + len);
      Mod64(|rest|, |whole| / 64 + 1 + len);
    }
    assert (message + input)[|message + input| - |rest|..] == rest;
  }

  /** Chunking does not matter: however the message is cut into updates, the digest is that of the padded whole. */
  method DigestOf(f: BlockFunction, chunks: seq<seq<Byte>>) returns (digest: seq<Byte>)
    requires forall i :: 0 <= i < |chunks| ==> |chunks[i]| < WORD
    ensures digest == Digest(f, Concat(chunks)) && IsDigest(f, Concat(chunks), digest)
  {
    var context := new Context(f);
    var i := 0;
    while i < |chunks|
      invariant i <= |chunks| && fresh(context) && context.f == f
      invariant context.Valid() && context.message == Concat(chunks[..i])
    {
      context.Update(chunks[i]);
      assert chunks[..i + 1][..i] == chunks[..i];
      i := i + 1;
    }
    assert chunks[..i] == chunks;
    digest := context.Final();
  }
}
