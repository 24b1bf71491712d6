// Streaming MD5 (RFC 1321): buffering, the bit count and the padding, for any block function.
module Md5 {

  type Byte = x: int | 0 <= x < 256

  datatype Words = Words(a: int, b: int, c: int, d: int)

  type Block = (Words, seq<Byte>) -> Words

  const INIT := Words(0x67452301, 0xefcdab89, 0x98badcfe, 0x10325476)
  const WORD := 0x1_0000_0000
  const DWORD := 0x1_0000_0000_0000_0000
  const INT_LIMIT := 0x8000_0000

  /** A sum of ints as two's complement arithmetic leaves it. */
  function Wrapped(x: int): int {
    (x + INT_LIMIT) % WORD - INT_LIMIT
  }

  /** k bytes can follow n bytes: the place in the buffer and k together are still an int. */
  predicate Appendable(n: nat, k: nat) {
    n % 64 == 0 || n % 64 + k < INT_LIMIT
  }

  /** The block function over all full 64-byte blocks of m. */
  function Fold(f: Block, h: Words, m: seq<Byte>): Words
    decreases |m|
  {
    if |m| < 64 then h else Fold(f, f(h, m[..64]), m[64..])
  }

  /** Full blocks in front can be processed first. */
  lemma {:induction false} FoldConcat(f: Block, h: Words, a: seq<Byte>, b: seq<Byte>)
    requires |a| % 64 == 0
    ensures Fold(f, h, a + b) == Fold(f, Fold(f, h, a), b)
    decreases |a|
  {
    if a == [] {
      assert a + b == b;
    } else {
      assert (a + b)[..64] == a[..64] && (a + b)[64..] == a[64..] + b;
      FoldConcat(f, f(h, a[..64]), a[64..], b);
    }
  }

  /** The bytes behind the last full block. */
  function Tail(m: seq<Byte>): seq<Byte> {
    m[|m| - |m| % 64..]
  }

  /** What a message still contributes when more data follows: its tail. */
  lemma FoldMore(f: Block, h: Words, m: seq<Byte>, data: seq<Byte>)
    ensures Fold(f, h, m + data) == Fold(f, Fold(f, h, m), Tail(m) + data)
  {
    var full := m[..|m| - |m| % 64];
    assert m == full + Tail(m) && m + data == full + (Tail(m) + data);
    FoldConcat(f, h, full, Tail(m));
    FoldConcat(f, h, full, Tail(m) + data);
  }

  lemma TailMore(m: seq<Byte>, data: seq<Byte>)
    ensures Tail(m + data) == Tail(Tail(m) + data)
  {
  }

  lemma CountOffset(n: nat)
    ensures ((8 * n) % WORD) / 8 % 64 == n % 64
  {
    var q, r := n / 0x2000_0000, n % 0x2000_0000;
    assert 8 * n == q * WORD + 8 * r;
    WordMod(q, 8 * r);
    BlockMod(0x80_0000 * q, r);
  }

  lemma BlockMod(k: int, r: int)
    ensures (64 * k + r) % 64 == r % 64
  {
  }

  lemma WordMod(q: int, r: int)
    requires 0 <= r < WORD
    ensures (q * WORD + r) % WORD == r
  {
  }

  /** The 64-bit count from its two words. */
  function Joined(high: int, low: int): int {
    high * WORD + low
  }

  /** The number of bits in n bytes, modulo 2^64. */
  function BitCount(n: nat): int {
    (8 * n) % DWORD
  }

  lemma WrapOnce(x: int, m: int)
    requires m > 0 && 0 <= x < 2 * m
    ensures x % m == if x < m then x else x - m
  {
    if x >= m {
      assert x == 1 * m + (x - m);
    }
  }

  /** Adding the bits word by word, with the carry read off the low word, is adding modulo 2^64. */
  lemma CarryIsRight(high: int, low: int, n: nat, high': int, low': int)
    requires n < INT_LIMIT && 0 <= low < WORD && 0 <= high < WORD
    requires low' == (low + (n * 8) % WORD) % WORD
    requires high' == if low' < (n * 8) % WORD then ((high + n / 0x2000_0000) % WORD + 1) % WORD
               else (high + n / 0x2000_0000) % WORD
    ensures 0 <= low' < WORD && 0 <= high' < WORD && Joined(high', low') == (Joined(high, low) + 8 * n) % DWORD
  {
    var nbits, top := (n * 8) % WORD, n / 0x2000_0000;
    assert n * 8 == top * WORD + nbits && top < 4;
    WrapOnce(low + nbits, WORD);
    WrapOnce(high + top, WORD);
    WrapOnce((high + top) % WORD + 1, WORD);
    WrapOnce(Joined(high, low) + 8 * n, DWORD);
  }

  lemma CountGrows(n: nat, k: nat)
    ensures (BitCount(n) + 8 * k) % DWORD == BitCount(n + k)
  {
    var q := (8 * n) / DWORD;
    assert 8 * n == q * DWORD + BitCount(n);
    ModPlus(BitCount(n) + 8 * k, q);
  }

  lemma ModPlus(x: int, q: int)
    ensures (x + q * DWORD) % DWORD == x % DWORD
  {
  }

  lemma WrappedSum(x: nat)
    requires x < INT_LIMIT + 64
    ensures Wrapped(x) == if x < INT_LIMIT then x else x - WORD
  {
    WrapOnce(x + INT_LIMIT, WORD);
  }

  lemma NoMessage(f: Block, m: seq<Byte>)
    requires |m| == 0
    ensures Fold(f, INIT, m) == INIT && Tail(m) == []
  {
  }

  lemma NoBits(n: nat)
    requires n == 0
    ensures Joined(n, n) == BitCount(n)
  {
  }

  class State {
    const process: Block
    const buf: array<Byte>
    var count0: int
    var count1: int
    var abcd: Words
    ghost var msg: seq<Byte>

    /** The state is a function of the message so far, however it was cut into pieces. */
    ghost predicate Valid()
      reads this, buf
    {
      && buf.Length == 64 && abcd == Fold(process, INIT, msg) && buf[..|msg| % 64] == Tail(msg)
      && 0 <= count0 < WORD && 0 <= count1 < WORD && Joined(count1, count0) == BitCount(|msg|)
    }

    constructor (process: Block)
      ensures Valid() && msg == [] && this.process == process && fresh(buf)
    {
      hide Fold, Tail, Joined, BitCount;
      this.process := process;
      buf := new Byte[64](_ => 0);
      count0, count1, abcd, msg := 0, 0, INIT, [];
      new;
      NoMessage(process, msg);
      NoBits(|msg|);
      assert buf[..0] == [];
    }

    /** Adds nbytes * 8 to the 64-bit count, in two words. */
    method CountBits(nbytes: nat)
      requires nbytes < INT_LIMIT && 0 <= count0 < WORD && 0 <= count1 < WORD
      modifies `count0, `count1
      ensures 0 <= count0 < WORD && 0 <= count1 < WORD
      ensures Joined(count1, count0) == (Joined(old(count1), old(count0)) + 8 * nbytes) % DWORD
    {
      hide Joined;
      var nbits := (nbytes * 8) % WORD;
      count1 := (count1 + nbytes / 0x2000_0000) % WORD;
      count0 := (count0 + nbits) % WORD;
      if count0 < nbits {
        count1 := (count1 + 1) % WORD;
      }
      CarryIsRight(old(count1), old(count0), nbytes, count1, count0);
    }

    /** Copies n bytes of data from p into the buffer at offset. */
    method Fill(offset: nat, data: seq<Byte>, p: nat, n: nat)
      requires buf.Length == 64 && offset + n <= 64 && p + n <= |data|
      modifies buf
      ensures buf[..offset] == old(buf[..offset]) && buf[offset..offset + n] == data[p..p + n]
    {
      forall i | 0 <= i < n {
        buf[offset + i] := data[p + i];
      }
    }

    /** Takes in more data; how it was cut makes no difference. It fails, with the state spoilt, exactly when the offset
        and the length together are no int: the sum turns negative and all of the data would be copied over the end
        of the buffer. */
    method Append(data: seq<Byte>) returns (ok: bool)
      requires Valid() && |data| < INT_LIMIT
      modifies this, buf
      ensures ok <==> Appendable(|old(msg)|, |data|)
      ensures ok ==> Valid() && msg == old(msg) + data
    {
      hide Fold, Joined, BitCount, Tail, Wrapped;
      if |data| == 0 {
        assert msg + data == msg;
        return true;
      }
      var offset := count0 / 8 % 64;
      OffsetIsTail(count1, count0, msg);
      CountGrows(|msg|, |data|);
      CountBits(|data|);
      ghost var tail := Tail(msg);
      FoldMore(process, INIT, msg, data);
      TailMore(msg, data);
      TailLength(msg + data);
      msg := msg + data;
      ok := Absorb(offset, data, tail);
    }

    /** Completes the buffered block, if there is one, and goes on with the rest of data. */
    method Absorb(offset: nat, data: seq<Byte>, ghost tail: seq<Byte>) returns (ok: bool)
      requires buf.Length == 64 && offset < 64 && buf[..offset] == tail && |data| < INT_LIMIT
      requires Fold(process, INIT, msg) == Fold(process, abcd, tail + data) && Tail(msg) == Tail(tail + data)
      requires |Tail(msg)| == |msg| % 64
      modifies `abcd, buf
      ensures ok <==> offset == 0 || offset + |data| < INT_LIMIT
      ensures ok ==> abcd == Fold(process, INIT, msg) && buf[..|msg| % 64] == Tail(msg)
    {
      hide Fold, Tail, Wrapped;
      ghost var all := tail + data;
      var p := 0;
      if offset != 0 {
        WrappedSum(offset + |data|);
        var copy := if Wrapped(offset + |data|) > 64 then 64 - offset else |data|;
        if offset + copy > 64 {
          return false;
        }
        Fill(offset, data, 0, copy);
        assert buf[..offset + copy] == buf[..offset] + buf[offset..offset + copy];
        if offset + copy < 64 {
          assert data[0..copy] == data;
          ShortOfBlock(process, abcd, all);
          return true;
        }
        p := copy;
        OneBlock(process, abcd, all);
        assert buf[..] == buf[..64] == all[..64] && all[64..] == data[p..];
        abcd := process(abcd, buf[..]);
      } else {
        assert all == data[0..];
      }
      Blocks(data, p);
      ok := true;
    }

    /** Processes the full blocks of data from p on and buffers the rest. */
    method Blocks(data: seq<Byte>, p0: nat)
      requires buf.Length == 64 && p0 <= |data|
      requires Fold(process, INIT, msg) == Fold(process, abcd, data[p0..]) && Tail(msg) == Tail(data[p0..])
      modifies `abcd, buf
      ensures abcd == Fold(process, INIT, msg) && buf[..|msg| % 64] == Tail(msg)
    {
      hide Fold, Tail;
      var p := p0;
      while |data| - p >= 64
        invariant p0 <= p <= |data|
        invariant Fold(process, INIT, msg) == Fold(process, abcd, data[p..]) && Tail(msg) == Tail(data[p..])
      {
        OneBlock(process, abcd, data[p..]);
        assert data[p..][..64] == data[p..p + 64] && data[p..][64..] == data[p + 64..];
        abcd := process(abcd, data[p..p + 64]);
        p := p + 64;
      }
      ShortOfBlock(process, abcd, data[p..]);
      TailLength(msg);
      if p < |data| {
        Fill(0, data, p, |data| - p);
      }
    }

    /** Pads the message and reads out the digest. */
    method Finish() returns (digest: seq<Byte>)
      requires Valid()
      modifies this, buf
      ensures Valid() && msg == Padded(old(msg)) && |msg| % 64 == 0
      ensures digest == DigestBytes(Fold(process, INIT, Padded(old(msg))))
      ensures IsPadded(old(msg), msg) && IsDigest(digest, Fold(process, INIT, msg))
    {
      hide Fold, Joined, BitCount, Tail, LittleEndian, IsPadded, IsDigest, DigestBytes;
      var data := LittleEndian(count0) + LittleEndian(count1);
      var padLen := (55 - count0 / 8) % 64 + 1;
      HalvesOfCount(count1, count0, |msg|);
      OffsetIsTail(count1, count0, msg);
      PadIsPadding(padLen, count0, |msg|);
      ghost var m := msg;
      var padded := Append(Pad()[..padLen]);
      var counted := Append(data);
      assert msg == m + Pad()[..padLen] + data;
      PaddedIsPadded(m);
      DigestDenotes(abcd);
      digest := DigestBytes(abcd);
    }
  }

  /** A word as four bytes, the low one first. */
  function LittleEndian(w: int): (s: seq<Byte>)
    ensures |s| == 4
  {
    [w % 256, w / 0x100 % 256, w / 0x1_0000 % 256, w / 0x100_0000 % 256]
  }

  /** The number that bytes denote, the low one first. */
  function Low(s: seq<Byte>): int {
    if s == [] then 0 else s[0] + 256 * Low(s[1..])
  }

  lemma LowFour(s: seq<Byte>)
    requires |s| == 4
    ensures Low(s) == s[0] as int + 0x100 * s[1] as int + 0x1_0000 * s[2] as int + 0x100_0000 * s[3] as int
  {
    LowConcat(s, []);
    assert s + [] == s;
  }

  lemma LowStep(s: seq<Byte>, i: nat)
    requires i < |s|
    ensures Low(s[i..]) == s[i] as int + 256 * Low(s[i + 1..])
  {
    assert s[i..][1..] == s[i + 1..];
  }

  /** The four bytes of a word denote it. */
  lemma LittleEndianDenotes(w: int)
    ensures Low(LittleEndian(w)) == w % WORD
  {
    LowFour(LittleEndian(w));
    WordOfBytes(w);
  }

  lemma WordOfBytes(w: int)
    ensures w % 256 + 0x100 * (w / 0x100 % 256) + 0x1_0000 * (w / 0x1_0000 % 256) + 0x100_0000 * (w / 0x100_0000 % 256)
            == w % WORD
  {
    var a, b, c, d := w / 0x100, w / 0x1_0000, w / 0x100_0000, w / WORD;
    assert w == 0x100 * a + w % 256;
    assert b == a / 256 && c == b / 256 && d == c / 256;
    assert a == 0x100 * b + a % 256 && b == 0x100 * c + b % 256 && c == 0x100 * d + c % 256;
    assert w == WORD * d + w % WORD;
  }

  lemma LowConcat(a: seq<Byte>, b: seq<Byte>)
    requires |a| == 4
    ensures Low(a) == a[0] as int + 0x100 * a[1] as int + 0x1_0000 * a[2] as int + 0x100_0000 * a[3] as int
    ensures Low(a + b) == Low(a) + WORD * Low(b)
  {
    hide Low;
    var c := a + b;
    LowStep(a, 0); LowStep(a, 1); LowStep(a, 2); LowStep(a, 3);
    LowStep(c, 0); LowStep(c, 1); LowStep(c, 2); LowStep(c, 3);
    assert a[0..] == a && c[0..] == c && a[4..] == [] && c[4..] == b;
    NoBytes();
  }

  lemma NoBytes()
    ensures Low([]) == 0
  {
  }

  lemma {:induction false} LowInjective(a: seq<Byte>, b: seq<Byte>)
    requires |a| == |b| && Low(a) == Low(b)
    ensures a == b
  {
    if a != [] {
      LowInjective(a[1..], b[1..]);
      assert a == [a[0]] + a[1..] && b == [b[0]] + b[1..];
    }
  }

  /** Sixteen bytes that denote the four words one after the other. */
  ghost predicate IsDigest(d: seq<Byte>, h: Words) {
    && |d| == 16 && Low(d[..4]) == h.a % WORD && Low(d[4..8]) == h.b % WORD
    && Low(d[8..12]) == h.c % WORD && Low(d[12..]) == h.d % WORD
  }

  lemma DigestDenotes(h: Words)
    ensures IsDigest(DigestBytes(h), h)
  {
    hide LittleEndian, Low;
    LittleEndianDenotes(h.a); LittleEndianDenotes(h.b); LittleEndianDenotes(h.c); LittleEndianDenotes(h.d);
    var d := DigestBytes(h);
    assert d[..4] == LittleEndian(h.a) && d[4..8] == LittleEndian(h.b);
    assert d[8..12] == LittleEndian(h.c) && d[12..] == LittleEndian(h.d);
  }

  /** Section 3.3: the initial words are these bytes, low-order bytes first. */
  lemma InitialWords()
    ensures LittleEndian(INIT.a) == [0x01, 0x23, 0x45, 0x67] && LittleEndian(INIT.b) == [0x89, 0xab, 0xcd, 0xef]
    ensures LittleEndian(INIT.c) == [0xfe, 0xdc, 0xba, 0x98] && LittleEndian(INIT.d) == [0x76, 0x54, 0x32, 0x10]
  {
  }

  /** p is m padded as sections 3.1 and 3.2 say: a one bit, the fewest zeros that leave eight bytes to a full block, and
      in them the number of bits of m modulo 2^64. */
  ghost predicate IsPadded(m: seq<Byte>, p: seq<Byte>) {
    && |p| % 64 == 0 && |m| + 9 <= |p| < |m| + 9 + 64 && p[..|m|] == m && p[|m|] == 0x80
    && (forall i :: |m| < i < |p| - 8 ==> p[i] == 0)
    && Low(p[|p| - 8..]) == (8 * |m|) % 0x1_0000_0000_0000_0000
  }

  lemma PaddedIsPadded(m: seq<Byte>)
    ensures IsPadded(m, Padded(m))
  {
    hide LittleEndian, Low;
    var n := BitCount(|m|);
    var lo, hi := LittleEndian(n % WORD), LittleEndian(n / WORD);
    var p := Padded(m);
    assert p[|p| - 8..] == lo + hi;
    LowConcat(lo, hi);
    LittleEndianDenotes(n % WORD);
    LittleEndianDenotes(n / WORD);
    PadLength(|m|, |m|);
    forall i | |m| < i < |p| - 8 ensures p[i] == 0 {
      assert p[i] == Padding(|m|)[i - |m|];
    }
  }

  /** There is only one way to pad. */
  lemma PaddingIsUnique(m: seq<Byte>, p: seq<Byte>, q: seq<Byte>)
    requires IsPadded(m, p) && IsPadded(m, q)
    ensures p == q
  {
    hide Low;
    SameMultiple(|p|, |q|, |m| + 9);
    LowInjective(p[|p| - 8..], q[|q| - 8..]);
    forall i | 0 <= i < |p| ensures p[i] == q[i] {
      if i < |m| {
        assert p[i] == p[..|m|][i] && q[i] == q[..|m|][i];
      } else if i >= |p| - 8 {
        assert p[i] == p[|p| - 8..][i - (|p| - 8)] && q[i] == q[|q| - 8..][i - (|q| - 8)];
      }
    }
  }

  lemma SameMultiple(a: int, b: int, lo: int)
    requires a % 64 == 0 && b % 64 == 0 && lo <= a < lo + 64 && lo <= b < lo + 64
    ensures a == b
  {
  }

  function DigestBytes(h: Words): seq<Byte> {
    LittleEndian(h.a) + LittleEndian(h.b) + LittleEndian(h.c) + LittleEndian(h.d)
  }

  function Zeros(n: nat): (s: seq<Byte>)
    ensures |s| == n
  {
    seq(n, i => 0)
  }

  /** The table the padding is taken from. */
  function Pad(): seq<Byte> {
    [0x80] + Zeros(63)
  }

  /** Section 3.1: one bit, then zeros up to 448 modulo 512 bits. */
  function Padding(n: nat): seq<Byte> {
    [0x80] + Zeros((55 - n) % 64)
  }

  /** Sections 3.1 and 3.2: the padding, then the bit count modulo 2^64 as two words, the low one first. */
  function Padded(m: seq<Byte>): seq<Byte> {
    m + Padding(|m|) + LittleEndian(BitCount(|m|) % WORD) + LittleEndian(BitCount(|m|) / WORD)
  }

  lemma HalvesOfCount(high: int, low: int, n: nat)
    requires 0 <= low < WORD && 0 <= high < WORD && Joined(high, low) == BitCount(n)
    ensures BitCount(n) % WORD == low && BitCount(n) / WORD == high
  {
  }

  lemma PadIsPadding(padLen: int, low: int, n: nat)
    requires low / 8 % 64 == n % 64 && padLen == (55 - low / 8) % 64 + 1
    ensures 1 <= padLen <= 64 && Pad()[..padLen] == Padding(n) && (n + padLen + 8) % 64 == 0
  {
    PadLength(low / 8, n);
    assert Zeros(63)[..padLen - 1] == Zeros(padLen - 1);
  }

  /** Positions that agree modulo 64 need the same padding, and it ends eight bytes before a block boundary. */
  lemma PadLength(x: int, n: int)
    requires x % 64 == n % 64
    ensures (55 - x) % 64 == (55 - n) % 64 && (n + (55 - n) % 64 + 9) % 64 == 0
  {
    var q, p := x / 64, n / 64;
    var r := n - 64 * p;
    assert 55 - x == 64 * (0 - q) + (55 - r) && 55 - n == 64 * (0 - p) + (55 - r);
    if r <= 55 {
      assert (55 - n) % 64 == 55 - r;
    } else {
      assert (55 - n) % 64 == 119 - r;
    }
  }

  function Concat(chunks: seq<seq<Byte>>): seq<Byte> {
    if chunks == [] then [] else Concat(chunks[..|chunks| - 1]) + chunks[|chunks| - 1]
  }

  /** Every chunk can follow the ones before it. */
  ghost predicate AllAppendable(chunks: seq<seq<Byte>>) {
    forall i :: 0 <= i < |chunks| ==> Appendable(|Concat(chunks[..i])|, |chunks[i]|)
  }

  /** The digest of a message fed in any chunks that can follow each other is the fold over its padded form. */
  method HashChunks(process: Block, chunks: seq<seq<Byte>>) returns (ok: bool, digest: seq<Byte>)
    requires forall i :: 0 <= i < |chunks| ==> |chunks[i]| < INT_LIMIT
    ensures ok <==> AllAppendable(chunks)
    ensures ok ==> digest == DigestBytes(Fold(process, INIT, Padded(Concat(chunks))))
    ensures ok ==> IsPadded(Concat(chunks), Padded(Concat(chunks)))
    ensures ok ==> IsDigest(digest, Fold(process, INIT, Padded(Concat(chunks))))
  {
    hide Fold, Padded, State.Valid, Appendable, Concat, IsPadded, IsDigest, DigestBytes;
    var s := new State(process);
    NoChunks(chunks);
    for i := 0 to |chunks|
      invariant s.Valid() && s.process == process && fresh(s) && fresh(s.buf) && s.msg == Concat(chunks[..i])
      invariant forall j :: 0 <= j < i ==> Appendable(|Concat(chunks[..j])|, |chunks[j]|)
    {
      ConcatNext(chunks, i);
      ok := s.Append(chunks[i]);
      if !ok {
        return false, [];
      }
    }
    assert chunks[..|chunks|] == chunks;
    digest := s.Finish();
    ok := true;
  }

  lemma NoChunks(chunks: seq<seq<Byte>>)
    ensures Concat(chunks[..0]) == []
  {
  }

  lemma ConcatNext(chunks: seq<seq<Byte>>, i: nat)
    requires i < |chunks|
    ensures Concat(chunks[..i + 1]) == Concat(chunks[..i]) + chunks[i]
  {
    assert chunks[..i + 1][..i] == chunks[..i];
  }

  /** Cutting a message differently leads to the same state. */
  lemma ChunksDoNotMatter(s: State, t: State)
    requires s.Valid() && t.Valid() && s.msg == t.msg && s.process == t.process
    ensures s.abcd == t.abcd && s.count0 == t.count0 && s.count1 == t.count1
    ensures s.buf[..|s.msg| % 64] == t.buf[..|t.msg| % 64]
  {
    HalvesOfCount(s.count1, s.count0, |s.msg|);
    HalvesOfCount(t.count1, t.count0, |t.msg|);
  }

  lemma OneBlock(f: Block, h: Words, m: seq<Byte>)
    requires |m| >= 64
    ensures Fold(f, h, m) == Fold(f, f(h, m[..64]), m[64..]) && Tail(m) == Tail(m[64..])
  {
    hide Tail;
    TailBehindBlock(m);
  }

  lemma TailBehindBlock(m: seq<Byte>)
    requires |m| >= 64
    ensures Tail(m) == Tail(m[64..])
  {
    var n := |m| - 64;
    BlockMod(1, n);
    SliceBehind(m, n - n % 64);
  }

  lemma SliceBehind(m: seq<Byte>, k: int)
    requires |m| >= 64 && 0 <= k <= |m| - 64
    ensures m[64..][k..] == m[64 + k..]
  {
  }

  lemma ShortOfBlock(f: Block, h: Words, m: seq<Byte>)
    requires |m| < 64
    ensures Fold(f, h, m) == h && Tail(m) == m
  {
  }

  lemma TailLength(m: seq<Byte>)
    ensures |Tail(m)| == |m| % 64
  {
  }

  lemma OffsetIsTail(high: int, low: int, m: seq<Byte>)
    requires 0 <= low < WORD && Joined(high, low) == BitCount(|m|)
    ensures low / 8 % 64 == |m| % 64 && |Tail(m)| == |m| % 64
  {
    var n := |m|;
    var q := (8 * n) / DWORD;
    assert 8 * n == (q * WORD + high) * WORD + low;
    WordMod(q * WORD + high, low);
    CountOffset(n);
  }
}
