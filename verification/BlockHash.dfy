/** Hashing by 64-byte blocks: what is hashed (section 5.1.1 of FIPS 180-4), and the incremental
    forms that the two programs use. The state and the compression function are parameters. */
module BlockHash {
  import opened Utf8

  const BLOCK: nat := 64
  const TWO_TO_64: nat := 0x1_0000_0000_0000_0000

  function Zeros(n: nat): (z: seq<byte>)
    ensures |z| == n && forall i :: 0 <= i < n ==> z[i] == 0
  {
    seq(n, _ => 0)
  }

  /** The low byte of a number shifted right by so many bytes. */
  function ByteOf(v: nat, k: nat): byte {
    if k == 0 then (v % 256) as byte else ByteOf(v / 256, k - 1)
  }

  /** A number in eight bytes, the highest first. */
  function BigEndian64(v: nat): (s: seq<byte>)
    ensures |s| == 8
  {
    seq(8, i requires 0 <= i < 8 => ByteOf(v, 7 - i))
  }

  /** How many zero bytes follow the mark so that eight more bytes end a block. */
  function PadLen(n: nat): (k: nat)
    ensures k < BLOCK && (n + 1 + k) % BLOCK == 56 && (n + 1 + k + 8) % BLOCK == 0
  {
    (119 - n % BLOCK) % BLOCK
  }

  /** The message, a one bit, the fewest zero bits that leave room for its length, and its length in
      bits. */
  function Padded(msg: seq<byte>): (p: seq<byte>)
    ensures |p| % BLOCK == 0
  {
    assert (|msg| + 1 + PadLen(|msg|) + 8) % BLOCK == 0;
    msg + [0x80] + Zeros(PadLen(|msg|)) + BigEndian64(|msg| * 8 % TWO_TO_64)
  }

  /** No shorter filling would do. */
  lemma PadLenIsLeast(n: nat, k: nat)
    requires (n + 1 + k) % BLOCK == 56
    ensures PadLen(n) <= k
  {
  }

  /** The number that bytes spell, the highest first. */
  function Value(s: seq<byte>): nat {
    if s == [] then 0 else Value(s[..|s| - 1]) * 256 + s[|s| - 1] as nat
  }

  function Limit(n: nat): nat {
    if n == 0 then 1 else 256 * Limit(n - 1)
  }

  lemma {:induction false} ValueOfBytes(v: nat, n: nat, s: seq<byte>)
    requires v < Limit(n) && |s| == n && forall i :: 0 <= i < n ==> s[i] == ByteOf(v, n - 1 - i)
    ensures Value(s) == v
  {
    if n > 0 { ValueOfBytes(v / 256, n - 1, s[..n - 1]); }
  }

  /** The eight bytes spell the number. */
  lemma ValueBack(v: nat)
    requires v < TWO_TO_64
    ensures Value(BigEndian64(v)) == v
  {
    hide ByteOf, Value;
    assert Limit(4) == 0x1_0000_0000 && Limit(8) == TWO_TO_64;
    ValueOfBytes(v, 8, BigEndian64(v));
  }

  /** The filled message, byte for byte: the message, 0x80, nothing but zeros, and the number of its
      bits, which eight bytes spell from the highest down, so that all of it is whole blocks and fewer
      would not do. */
  lemma PaddedBytes(m: seq<byte>)
    ensures var p := Padded(m);
      && |p| % 64 == 0 && |m| + 9 <= |p| < |m| + 9 + 64
      && p[..|m|] == m && p[|m|] == 0x80
      && (forall i :: |m| < i < |p| - 8 ==> p[i] == 0)
      && Value(p[|p| - 8..]) == 8 * |m| % 0x1_0000_0000_0000_0000
  {
    hide BigEndian64, Value, PadLen;
    var bits := |m| * 8 % TWO_TO_64;
    ValueBack(bits);
    var p := Padded(m);
    assert p[|p| - 8..] == BigEndian64(bits);
  }

  /** The state after all full blocks of a text. */
  function Fold<S>(compress: (S, seq<byte>) -> S, h: S, m: seq<byte>): S
    decreases |m|
  {
    if |m| < BLOCK then h else Fold(compress, compress(h, m[..BLOCK]), m[BLOCK..])
  }

  lemma {:induction false} FoldMore<S>(compress: (S, seq<byte>) -> S, h: S, a: seq<byte>, b: seq<byte>)
    requires |a| % BLOCK == 0
    ensures Fold(compress, h, a + b) == Fold(compress, Fold(compress, h, a), b)
    decreases |a|
  {
    if |a| == 0 {
      assert a + b == b;
    } else {
      assert (a + b)[..BLOCK] == a[..BLOCK] && (a + b)[BLOCK..] == a[BLOCK..] + b;
      FoldMore(compress, compress(h, a[..BLOCK]), a[BLOCK..], b);
    }
  }

  lemma FoldOne<S>(compress: (S, seq<byte>) -> S, h: S, a: seq<byte>, b: seq<byte>)
    requires |a| % BLOCK == 0 && |b| == BLOCK
    ensures Fold(compress, h, a + b) == compress(Fold(compress, h, a), b)
  {
    FoldMore(compress, h, a, b);
    assert b[..BLOCK] == b && b[BLOCK..] == [];
  }

  /** The part of a message that is in full blocks. */
  function Full(m: seq<byte>): (f: seq<byte>)
    ensures |f| % BLOCK == 0 && |f| <= |m| && |m| - |f| < BLOCK
  {
    m[..|m| - |m| % BLOCK]
  }

  function Rest(m: seq<byte>): (r: seq<byte>)
    ensures |r| == |m| % BLOCK && m == Full(m) + r
  {
    m[|m| - |m| % BLOCK..]
  }

  lemma PartFills(m: seq<byte>, part: seq<byte>)
    requires |Rest(m)| + |part| <= BLOCK
    ensures |Rest(m)| + |part| < BLOCK ==> Full(m + part) == Full(m) && Rest(m + part) == Rest(m) + part
    ensures |Rest(m)| + |part| == BLOCK ==> Full(m + part) == Full(m) + (Rest(m) + part) && Rest(m + part) == []
  {
    var s := m + part;
    assert s == Full(m) + (Rest(m) + part);
    if |Rest(m)| + |part| < BLOCK {
      assert |s| % BLOCK == |Rest(m)| + |part|;
    } else {
      assert |s| % BLOCK == 0;
    }
  }

  lemma NothingIn<S>(compress: (S, seq<byte>) -> S, h: S)
    ensures Full([]) == [] && Rest([]) == [] && Fold(compress, h, []) == h
  {
  }

  lemma CountMore(a: nat, b: nat)
    ensures (a % TWO_TO_64 + b) % TWO_TO_64 == (a + b) % TWO_TO_64
  {
  }

  lemma BitCount(n: nat)
    ensures n % TWO_TO_64 * 8 % TWO_TO_64 == n * 8 % TWO_TO_64
  {
    var q, r := n / TWO_TO_64, n % TWO_TO_64;
    assert n * 8 == r * 8 + q * 8 * TWO_TO_64;
    Multiple(r * 8, q * 8);
  }

  lemma Multiple(a: nat, c: nat)
    ensures (a + c * TWO_TO_64) % TWO_TO_64 == a % TWO_TO_64
  {
  }

  lemma MoreTaken(before: seq<byte>, data: seq<byte>, p: nat, n: nat)
    requires p + n <= |data|
    ensures before + data[..p] + data[p..p + n] == before + data[..p + n]
  {
  }

  /** A text of full blocks is all in full blocks. */
  lemma Whole(m: seq<byte>)
    requires |m| % BLOCK == 0
    ensures Full(m) == m && Rest(m) == []
  {
  }

  /** What the block holds once the mark is behind the message. */
  function Marked(m: seq<byte>): (part: seq<byte>)
    ensures |part| == |Rest(m)| + 1 <= BLOCK
  {
    Rest(m) + [0x80]
  }

  /** The end of the last block: what it holds, zeros, and the length. */
  function Ended(part: seq<byte>, m: seq<byte>): seq<byte>
    requires |part| <= 56
  {
    part + Zeros(56 - |part|) + BigEndian64(|m| * 8 % TWO_TO_64)
  }

  /** The filled message in blocks, when its length fits behind the mark. */
  lemma PaddedShort(m: seq<byte>)
    requires |Marked(m)| <= 56
    ensures Padded(m) == Full(m) + Ended(Marked(m), m)
  {
    hide BigEndian64;
    var r := |Rest(m)|;
    assert PadLen(|m|) == 55 - r;
  }

  /** And when its length needs a block of its own. */
  lemma PaddedLong(m: seq<byte>)
    requires |Marked(m)| > 56
    ensures Padded(m) == Full(m) + (Marked(m) + Zeros(BLOCK - |Marked(m)|)) + Ended([], m)
  {
    hide BigEndian64;
    var r := |Rest(m)|;
    assert PadLen(|m|) == 119 - r;
    assert Zeros(119 - r) == Zeros(63 - r) + Zeros(56);
  }

  lemma NoZeros(m: seq<byte>)
    ensures m + [0x80] + Zeros(0) == m + [0x80]
  {
  }

  lemma OneMoreZero(m: seq<byte>, z: nat)
    requires z <= PadLen(|m|)
    ensures var s := m + [0x80] + Zeros(z);
      s + [0] == m + [0x80] + Zeros(z + 1) && (|Rest(s)| == 56 <==> z == PadLen(|m|))
  {
    assert Zeros(z) + [0] == Zeros(z + 1);
    var s := m + [0x80] + Zeros(z);
    if |Rest(s)| == 56 { PadLenIsLeast(|m|, z); }
  }

  class Context<S> {
    const compress: (S, seq<byte>) -> S
    ghost const init: S
    var state: S
    var bytes: nat
    const block: array<byte>
    var used: nat
    /** All that has been put in. */
    ghost var message: seq<byte>

    /** The full blocks have been taken in, and the block holds what is behind them. */
    ghost predicate Hashing()
      reads this`state, this`used, this`message, block
    {
      && block.Length == BLOCK && used == |Rest(message)| && block[..used] == Rest(message)
      && state == Fold(compress, init, Full(message))
    }

    ghost predicate Valid()
      reads this, block
    {
      Hashing() && bytes == |message| % TWO_TO_64
    }

    constructor (compress: (S, seq<byte>) -> S, init: S)
      ensures Valid() && fresh(block) && message == [] && this.init == init && this.compress == compress
    {
      hide Fold, Full, Rest;
      this.compress, this.init, state, bytes, used, message := compress, init, init, 0, 0, [];
      block := new byte[BLOCK](_ => 0);
      NothingIn(compress, init);
    }

    /** memcpy into the block at used. */
    method Copy(data: seq<byte>)
      requires block.Length == BLOCK && used + |data| <= BLOCK
      modifies block
      ensures block[..used + |data|] == old(block[..used]) + data
      ensures block[used + |data|..] == old(block[used + |data|..])
    {
      for k := 0 to |data|
        invariant block[..used + k] == old(block[..used]) + data[..k]
        invariant block[used + |data|..] == old(block[used + |data|..])
      {
        block[used + k] := data[k];
        assert block[..used + k + 1] == block[..used + k] + [data[k]];
      }
    }

    /** Bytes that fit the block, which is taken in once it is full. */
    method TakePart(part: seq<byte>)
      requires Hashing() && used + |part| <= BLOCK
      modifies this`state, this`used, this`message, block
      ensures Hashing() && message == old(message) + part && used < BLOCK
    {
      hide Fold, Full, Rest;
      PartFills(message, part);
      ghost var filled, full := Rest(message) + part, Full(message);
      Copy(part);
      used := used + |part|;
      message := message + part;
      if used == BLOCK {
        assert block[..] == block[..used];
        FoldOne(compress, init, full, filled);
        state := compress(state, block[..]);
        used := 0;
      }
    }

    lemma BlockHasRoom()
      requires Hashing()
      ensures used < BLOCK
    {
    }

    method Update(data: seq<byte>)
      requires Valid()
      modifies this`state, this`bytes, this`used, this`message, block
      ensures Valid() && message == old(message) + data
    {
      BlockHasRoom();
      hide Fold, Full, Rest, Hashing;
      ghost var before := message;
      CountMore(|before|, |data|);
      bytes := (bytes + |data|) % TWO_TO_64;
      var p := 0;
      assert before + data[..0] == before;
      while p < |data|
        invariant p <= |data| && message == before + data[..p] && Hashing() && used < BLOCK
        invariant bytes == (|before| + |data|) % TWO_TO_64
        modifies this`state, this`used, this`message, block
      {
        var n := BLOCK - used;
        if n > |data| - p { n := |data| - p; }
        MoreTaken(before, data, p, n);
        TakePart(data[p..p + n]);
        p := p + n;
      }
      assert data[..p] == data;
    }

    /** The zero bytes of the filling, one by one. */
    method PadWithZeros(ghost m: seq<byte>)
      requires Valid() && message == m + [0x80]
      modifies this`state, this`bytes, this`used, this`message, block
      ensures Valid() && message == m + [0x80] + Zeros(PadLen(|m|))
    {
      hide Fold, Full, PadLen, Zeros, Rest, Padded;
      ghost var z: nat := 0;
      NoZeros(m);
      while used != 56
        invariant Valid() && z <= PadLen(|m|) && message == m + [0x80] + Zeros(z)
        decreases PadLen(|m|) - z
      {
        OneMoreZero(m, z);
        Update([0]);
        z := z + 1;
      }
      OneMoreZero(m, z);
    }

    /** The finaliser that puts the filling in byte by byte. */
    method FinalByUpdates()
      requires Valid()
      modifies this`state, this`bytes, this`used, this`message, block
      ensures Valid() && message == Padded(old(message)) && state == Fold(compress, init, message)
    {
      hide Fold, Full, Rest, Zeros, PadLen, BigEndian64;
      ghost var m := message;
      var bits := bytes * 8 % TWO_TO_64;
      BitCount(|m|);
      Update([0x80]);
      PadWithZeros(m);
      Update(BigEndian64(bits));
      assert message == Padded(m);
      Whole(Padded(m));
    }

    /** memset to zero from used. */
    method Clear(end: nat)
      requires block.Length == BLOCK && used <= end <= BLOCK
      modifies block
      ensures block[..end] == old(block[..used]) + Zeros(end - used)
    {
      for k := used to end
        invariant block[..k] == old(block[..used]) + Zeros(k - used)
      {
        block[k] := 0;
        assert block[..k + 1] == block[..k] + [0];
      }
    }

    method PutLength(bits: nat)
      requires block.Length == BLOCK
      modifies block
      ensures block[..] == old(block[..56]) + BigEndian64(bits)
    {
      var rest := bits;
      for i := 0 to 8
        invariant forall k :: 0 <= k <= 7 - i ==> ByteOf(rest, k) == ByteOf(bits, k + i)
        invariant block[..56] == old(block[..56])
        invariant forall k :: 64 - i <= k < 64 ==> block[k] == BigEndian64(bits)[k - 56]
      {
        assert ByteOf(rest, 0) == ByteOf(bits, i);
        block[63 - i] := ByteOf(rest, 0);
        forall k | 0 <= k <= 7 - (i + 1) ensures ByteOf(rest / 256, k) == ByteOf(bits, k + (i + 1)) {
          assert ByteOf(rest, k + 1) == ByteOf(bits, k + 1 + i);
        }
        rest := rest / 256;
      }
    }

    method CompressBlock(ghost full: seq<byte>)
      requires block.Length == BLOCK && |full| % BLOCK == 0 && state == Fold(compress, init, full)
      modifies this`state
      ensures state == Fold(compress, init, full + block[..])
    {
      hide Fold;
      FoldOne(compress, init, full, block[..]);
      state := compress(state, block[..]);
    }

    /** The byte behind the message, whose first bit is the one bit. */
    method Mark()
      requires Valid()
      modifies this`used, block
      ensures used == old(used) + 1 <= block.Length && block.Length == BLOCK
      ensures block[..used] == Marked(message)
    {
      hide Fold, Full, Rest;
      block[used] := 0x80;
      used := used + 1;
    }

    /** Fills the block up, behind what it holds, and takes it in. */
    method CloseBlock(ghost full: seq<byte>, ghost part: seq<byte>)
      requires block.Length == BLOCK && used <= BLOCK && block[..used] == part
      requires |full| % BLOCK == 0 && state == Fold(compress, init, full)
      modifies this`state, this`used, block
      ensures used == 0 && state == Fold(compress, init, full + (part + Zeros(BLOCK - |part|)))
    {
      hide Fold, Zeros;
      Clear(BLOCK);
      assert block[..] == block[..BLOCK];
      CompressBlock(full);
      used := 0;
    }

    /** A block is closed when the length would not fit behind the mark. */
    method MakeRoom() returns (ghost full: seq<byte>)
      requires Valid()
      modifies this`state, this`used, block
      ensures used <= 56 && |full| % BLOCK == 0 && state == Fold(compress, init, full)
      ensures Padded(message) == full + Ended(block[..used], message)
    {
      hide Fold, Full, Rest, Padded, BigEndian64, Zeros, Marked, Ended;
      full := Full(message);
      Mark();
      ghost var part := Marked(message);
      if used > 56 {
        PaddedLong(message);
        CloseBlock(full, part);
        full := full + (part + Zeros(BLOCK - |part|));
        assert block[..used] == [];
      } else {
        PaddedShort(message);
      }
    }

    /** The finaliser that writes the filling into the block. */
    method FinalInPlace()
      requires Valid()
      modifies this`state, this`used, block
      ensures state == Fold(compress, init, Padded(message))
    {
      hide Fold, Full, Rest, Padded, BigEndian64, Zeros;
      var bits := bytes * 8 % TWO_TO_64;
      BitCount(|message|);
      ghost var full := MakeRoom();
      Clear(56);
      PutLength(bits);
      CompressBlock(full);
    }
  }
}
