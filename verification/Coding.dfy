/** Byte-level number encodings used by string tensors: base-128 varints and
    64-bit little-endian words (tensorflow/core/lib/core/coding.cc). */
module Coding {
  import opened Arith

  type byte = x: int | 0 <= x < 256

  const TWO_63: nat := 0x8000_0000_0000_0000

  /** The bytes of t are stored in s from index at on. */
  ghost predicate Holds(s: seq<byte>, at: nat, t: seq<byte>) {
    at + |t| <= |s| && forall k :: 0 <= k < |t| ==> s[at + k] == t[k]
  }

  lemma HoldsSlice(s: seq<byte>, at: nat, t: seq<byte>)
    requires at + |t| <= |s|
    ensures Holds(s, at, t) <==> s[at..at + |t|] == t
  {
    if s[at..at + |t|] == t {
      forall k | 0 <= k < |t|
        ensures s[at + k] == t[k]
      {
        assert s[at + k] == s[at..at + |t|][k];
      }
    }
  }

  lemma HoldsParts(s: seq<byte>, at: nat, t: seq<byte>, u: seq<byte>)
    requires Holds(s, at, t + u)
    ensures Holds(s, at, t) && Holds(s, at + |t|, u)
  {
    forall k | 0 <= k < |t|
      ensures s[at + k] == t[k]
    {
      assert (t + u)[k] == t[k];
    }
    forall k | 0 <= k < |u|
      ensures s[at + |t| + k] == u[k]
    {
      assert (t + u)[|t| + k] == u[k];
    }
  }

  /** Appending keeps what a sequence holds. */
  lemma HoldsLeft(s: seq<byte>, u: seq<byte>, at: nat, t: seq<byte>)
    requires Holds(s, at, t)
    ensures Holds(s + u, at, t)
  {
    forall k | 0 <= k < |t|
      ensures (s + u)[at + k] == t[k]
    {
      assert s[at + k] == t[k];
    }
  }

  // ---- Varints ----

  /** The base-128 encoding of v: seven bits a byte, least significant first,
      the top bit set on every byte but the last. */
  function Varint(v: nat): (r: seq<byte>)
    ensures 1 <= |r|
    decreases v
  {
    if v < 128 then [v] else [v % 128 + 128] + Varint(v / 128)
  }

  /** Writes v at dst, which must have room for it, and returns the cursor after it. */
  method EncodeVarint64(buf: array<byte>, dst: nat, v: nat) returns (next: nat)
    requires v < TWO_64 && dst + |Varint(v)| <= buf.Length
    modifies buf
    ensures next == dst + |Varint(v)|
    ensures buf[dst..next] == Varint(v)
    ensures buf[..dst] == old(buf[..dst]) && buf[next..] == old(buf[next..])
  {
    var ptr, rest := dst, v;
    ghost var done: seq<byte> := [];
    while 128 <= rest
      invariant ptr == dst + |done| && done + Varint(rest) == Varint(v)
      invariant buf[dst..ptr] == done
      invariant buf[..dst] == old(buf[..dst]) && buf[dst + |Varint(v)|..] == old(buf[dst + |Varint(v)|..])
      decreases rest
    {
      var low := rest % 128 + 128;
      assert Varint(rest) == [low] + Varint(rest / 128);
      assert (done + [low]) + Varint(rest / 128) == Varint(v);
      buf[ptr] := low;
      assert buf[dst..ptr + 1] == buf[dst..ptr] + [low];
      done := done + [low];
      ptr, rest := ptr + 1, rest / 128;
    }
    buf[ptr] := rest;
    next := ptr + 1;
    assert buf[dst..next] == buf[dst..ptr] + [rest];
  }

  /** The number of bytes EncodeVarint64 writes, counted without writing them. */
  method VarintLength(v: nat) returns (len: nat)
    ensures len == |Varint(v)|
  {
    var rest := v;
    len := 1;
    while 128 <= rest
      invariant len + |Varint(rest)| == |Varint(v)| + 1
      decreases rest
    {
      rest, len := rest / 128, len + 1;
    }
  }

  datatype Parsed = NoVarint | Parsed(value: nat, next: nat)

  /** 128^k, the weight of the k-th varint byte. */
  function Weight(k: nat): (w: nat)
    ensures 1 <= w
  {
    if k == 0 then 1 else 128 * Weight(k - 1)
  }

  /** The seven payload bits of b shifted into place in a 64-bit word; the bits shifted past bit 63 are lost. */
  function Chunk(b: byte, k: nat): nat {
    (b % 128) * Weight(k) % TWO_64
  }

  /** Reading a varint at p when k bytes with total acc have been read. At most ten bytes are read. */
  function ParseVarint(s: seq<byte>, p: nat, k: nat, acc: nat): Parsed
    decreases 10 - k
  {
    if 10 <= k || |s| <= p then NoVarint
    else if 128 <= s[p] then ParseVarint(s, p + 1, k + 1, acc + Chunk(s[p], k))
    else Parsed(acc + Chunk(s[p], k), p + 1)
  }

  /** GetVarint64Ptr, with |s| as the limit. The source ors each chunk into the word; the chunks
      occupy disjoint bits, so adding them is the same. */
  method GetVarint64Ptr(s: seq<byte>, start: nat) returns (r: Parsed)
    ensures r == ParseVarint(s, start, 0, 0)
  {
    var p: nat, k: nat, result: nat := start, 0, 0;
    while 7 * k <= 63 && p < |s|
      invariant k <= 10
      invariant ParseVarint(s, p, k, result) == ParseVarint(s, start, 0, 0)
      decreases 10 - k
    {
      var b := s[p];
      p, result := p + 1, result + Chunk(b, k);
      if b < 128 {
        return Parsed(result, p);
      }
      k := k + 1;
    }
    return NoVarint;
  }

  /** Splitting off the low seven bits of v, at weight k. */
  lemma SplitLow(v: nat, k: nat)
    ensures v * Weight(k) == (v % 128) * Weight(k) + (v / 128) * Weight(k + 1)
  {
    var w, q, m := Weight(k), v / 128, v % 128;
    assert v == 128 * q + m;
    assert v * w == (128 * q) * w + m * w;
    assert (128 * q) * w == q * (128 * w);
  }

  /** Nine bytes carry 63 bits; a tenth carries the last one. */
  lemma WeightTable()
    ensures Weight(9) == TWO_63 && Weight(10) == 128 * TWO_63
  {
    assert Weight(3) == 0x20_0000;
    assert Weight(6) == 128 * (128 * (128 * Weight(3)));
    assert Weight(9) == 128 * (128 * (128 * Weight(6)));
  }

  /** A word that still has bits left after byte k cannot be past byte 8. */
  lemma RoomForNextByte(v: nat, k: nat)
    requires k <= 9 && v * Weight(k) < TWO_64 && 128 <= v
    ensures k + 1 <= 9 && (v / 128) * Weight(k + 1) <= v * Weight(k)
  {
    SplitLow(v, k);
    WeightTable();
    assert k == 9 ==> v * Weight(k) == v * TWO_63;
    MulMonotone(0, v % 128, Weight(k));
  }

  /** The first byte of Varint(v) carries the low bits of v; nothing is truncated when v fits at weight k. */
  lemma FirstChunk(v: nat, k: nat)
    requires k <= 9 && v * Weight(k) < TWO_64
    ensures Chunk(Varint(v)[0], k) + (v / 128) * Weight(k + 1) == v * Weight(k)
    ensures 128 <= v ==> k + 1 <= 9 && (v / 128) * Weight(k + 1) < TWO_64
    ensures v < 128 ==> Chunk(Varint(v)[0], k) == v * Weight(k)
  {
    SplitLow(v, k);
    LowChunk(v, k);
    if 128 <= v {
      RoomForNextByte(v, k);
    } else {
      assert v / 128 == 0;
    }
  }

  lemma LowChunk(v: nat, k: nat)
    requires v * Weight(k) < TWO_64
    ensures Chunk(Varint(v)[0], k) == (v % 128) * Weight(k)
  {
    MulMonotone(0, v % 128, Weight(k));
    MulMonotone(v % 128, v, Weight(k));
    SameLowBits(Varint(v)[0], v);
  }

  lemma SameLowBits(b: byte, v: nat)
    requires b == Varint(v)[0]
    ensures b % 128 == v % 128
  {
  }

  /** Parsing where Varint(v) is stored gives v back and stops right after it. */
  lemma {:induction false} ParseStoredVarint(s: seq<byte>, p: nat, v: nat, k: nat, acc: nat)
    requires k <= 9 && v * Weight(k) < TWO_64 && Holds(s, p, Varint(v))
    ensures ParseVarint(s, p, k, acc) == Parsed(acc + v * Weight(k), p + |Varint(v)|)
    decreases v
  {
    FirstChunk(v, k);
    assert s[p + 0] == Varint(v)[0];
    if 128 <= v {
      HoldsParts(s, p, [v % 128 + 128], Varint(v / 128));
      ParseStoredVarint(s, p + 1, v / 128, k + 1, acc + Chunk(s[p], k));
    }
  }

  /** Parsing a stored varint from its first byte on. */
  lemma ParseStored(s: seq<byte>, p: nat, v: nat)
    requires v < TWO_64 && Holds(s, p, Varint(v))
    ensures ParseVarint(s, p, 0, 0) == Parsed(v, p + |Varint(v)|)
  {
    assert v * Weight(0) == v;
    ParseStoredVarint(s, p, v, 0, 0);
  }

  // ---- What a varint is, spelled out ----

  /** Every byte but the last has its top bit set. */
  ghost predicate IsVarint(s: seq<byte>) {
    s != [] && s[|s| - 1] < 128 && forall i :: 0 <= i < |s| - 1 ==> 128 <= s[i]
  }

  /** The number whose base-128 digits are the low seven bits of the bytes, the first least significant. */
  function Base128(s: seq<byte>): nat {
    if s == [] then 0 else s[0] % 128 + 128 * Base128(s[1..])
  }

  /** The encoding of v is a varint with the value v, and no digit of it is wasted. */
  lemma {:induction false} VarintSpelled(v: nat)
    ensures IsVarint(Varint(v)) && Base128(Varint(v)) == v
    ensures 1 < |Varint(v)| ==> Varint(v)[|Varint(v)| - 1] != 0
    decreases v
  {
    if 128 <= v {
      VarintSpelled(v / 128);
      assert Varint(v)[1..] == Varint(v / 128);
    } else {
      assert Varint(v)[1..] == [];
    }
  }

  /** No varint with the value v is shorter, and every other one ends in a zero byte. */
  lemma {:induction false} VarintIsShortest(s: seq<byte>)
    requires IsVarint(s)
    ensures |Varint(Base128(s))| <= |s|
    ensures s == Varint(Base128(s)) <==> |s| == 1 || s[|s| - 1] != 0
  {
    if |s| == 1 {
      assert s[1..] == [] && Base128(s) == s[0];
    } else {
      var t := s[1..];
      VarintIsShortest(t);
      assert t[|t| - 1] == s[|s| - 1];
      DivisionUnique(Base128(s), 128, Base128(t), s[0] % 128);
      ZeroOrMore(t);
      OneMoreByte(s, t, Base128(s), Base128(t));
    }
  }

  lemma OneMoreByte(s: seq<byte>, t: seq<byte>, v: nat, q: nat)
    requires 1 < |s| && 128 <= s[0] && t == s[1..] && v == 128 * q + s[0] % 128
    ensures q == 0 ==> Varint(v) == [s[0] % 128]
    ensures q != 0 ==> |Varint(v)| == 1 + |Varint(q)| && (s == Varint(v) <==> t == Varint(q))
  {
    var d := s[0] % 128;
    var w, u := Varint(v), Varint(q);
    VarintStep(v, q, d);
    assert s == [d + 128] + t;
    SameTail(d + 128, t, u);
    assert q != 0 ==> w == [d + 128] + u;
  }

  lemma VarintStep(v: nat, q: nat, d: nat)
    requires v == 128 * q + d && d < 128
    ensures q == 0 ==> Varint(v) == [d]
    ensures q != 0 ==> Varint(v) == [d + 128] + Varint(q)
  {
    DivisionUnique(v, 128, q, d);
  }

  lemma SameTail(x: byte, a: seq<byte>, b: seq<byte>)
    ensures [x] + a == [x] + b <==> a == b
  {
    assert ([x] + a)[1..] == a && ([x] + b)[1..] == b;
  }

  /** A varint whose value is zero consists of zeros with their top bits set but in the last. */
  lemma {:induction false} ZeroOrMore(s: seq<byte>)
    requires IsVarint(s)
    ensures Base128(s) == 0 ==> s[|s| - 1] == 0
  {
    if 1 < |s| {
      ZeroOrMore(s[1..]);
    }
  }

  /** 300 is 0b10_0101100. */
  lemma Varint300()
    ensures Varint(300) == [0xac, 0x02]
  {
  }

  /** Reading on with k bytes read: a value is found exactly at a varint of at most 10 - k bytes, and is what was
      read, plus that varint's value in place, cut to 64 bits. */
  lemma {:induction false} ParseSpelled(s: seq<byte>, p: nat, k: nat, acc: nat) returns (m: nat)
    requires k <= 10 && (k <= 9 ==> acc < Weight(k))
    ensures var r := ParseVarint(s, p, k, acc);
      r.Parsed? ==> p < r.next <= p + 10 - k && r.next <= |s| && IsVarint(s[p..r.next])
                    && r.value < TWO_64 && r.value + m * TWO_64 == acc + Base128(s[p..r.next]) * Weight(k)
    ensures ParseVarint(s, p, k, acc).NoVarint? ==>
      forall next :: p < next <= p + 10 - k && next <= |s| ==> !IsVarint(s[p..next])
    decreases 10 - k
  {
    m := 0;
    if k < 10 && p < |s| {
      var q := ChunkExact(s[p], k);
      NextWeight(acc, s[p], k);
      if 128 <= s[p] {
        var n := ParseSpelled(s, p + 1, k + 1, acc + Chunk(s[p], k));
        ParsedTail(s, p);
        var r := ParseVarint(s, p, k, acc);
        m := n + q;
        if r.Parsed? {
          FirstDigit(s[p..r.next], k);
          assert s[p..r.next][1..] == s[p + 1..r.next];
        }
      } else {
        m := q;
        assert s[p..p + 1] == [s[p]] && [s[p]][1..] == [];
        assert Base128([s[p]]) == s[p];
      }
    }
  }

  /** From its first byte on a varint of at most ten bytes is read, as its value cut to 64 bits, and nothing else is. */
  lemma ReadSpelled(s: seq<byte>, p: nat)
    ensures var r := ParseVarint(s, p, 0, 0);
      r.Parsed? ==> p < r.next <= p + 10 && r.next <= |s| && IsVarint(s[p..r.next]) && r.value == Base128(s[p..r.next]) % TWO_64
    ensures ParseVarint(s, p, 0, 0).NoVarint? ==> forall next :: p < next <= p + 10 && next <= |s| ==> !IsVarint(s[p..next])
  {
    var m := ParseSpelled(s, p, 0, 0);
    var r := ParseVarint(s, p, 0, 0);
    if r.Parsed? {
      assert Base128(s[p..r.next]) * Weight(0) == Base128(s[p..r.next]);
      DivisionUnique(Base128(s[p..r.next]), TWO_64, m, r.value);
    }
  }

  /** Of two varints that begin at one place one cannot be longer. */
  lemma OneVarint(s: seq<byte>, p: nat, n: nat, m: nat)
    requires p < n <= |s| && p < m <= |s| && IsVarint(s[p..n]) && IsVarint(s[p..m])
    ensures n == m
  {
    assert s[p..n][n - 1 - p] == s[n - 1] && s[p..m][m - 1 - p] == s[m - 1];
    if n < m {
      InsideVarint(s, p, n, m);
    } else if m < n {
      InsideVarint(s, p, m, n);
    }
  }

  lemma InsideVarint(s: seq<byte>, p: nat, n: nat, m: nat)
    requires p < n < m <= |s| && IsVarint(s[p..m])
    ensures 128 <= s[n - 1]
  {
    assert s[p..m][n - 1 - p] == s[n - 1];
  }

  /** What is cut off a chunk is a multiple of 2^64. */
  lemma ChunkExact(b: byte, k: nat) returns (q: nat)
    ensures Chunk(b, k) + q * TWO_64 == (b % 128) * Weight(k)
  {
    MulMonotone(0, b % 128, Weight(k));
    q := (b % 128) * Weight(k) / TWO_64;
  }

  /** With k bytes read the value is below 128^k; with the tenth it is below 2^64. */
  lemma NextWeight(acc: nat, b: byte, k: nat)
    requires k <= 9 && acc < Weight(k)
    ensures acc + Chunk(b, k) < TWO_64 && (k < 9 ==> acc + Chunk(b, k) < Weight(k + 1))
  {
    WeightTable();
    if k < 9 {
      MulMonotone(b % 128, 127, Weight(k));
      WeightBelow(k + 1, 9);
    } else {
      LowBit(b % 128);
    }
  }

  lemma {:induction false} WeightBelow(a: nat, b: nat)
    requires a <= b
    ensures Weight(a) <= Weight(b)
    decreases b
  {
    if a < b {
      WeightBelow(a, b - 1);
    }
  }

  lemma LowBit(d: nat)
    ensures d * TWO_63 % TWO_64 <= TWO_63
  {
    assert d * TWO_63 == d / 2 * TWO_64 + d % 2 * TWO_63;
    DivisionUnique(d * TWO_63, TWO_64, d / 2, d % 2 * TWO_63);
  }

  lemma FirstDigit(t: seq<byte>, k: nat)
    requires t != []
    ensures Base128(t) * Weight(k) == (t[0] % 128) * Weight(k) + Base128(t[1..]) * Weight(k + 1)
  {
    var w, d, r := Weight(k), t[0] % 128, Base128(t[1..]);
    assert (d + 128 * r) * w == d * w + 128 * r * w;
    assert 128 * r * w == r * (128 * w);
  }

  /** A byte with its top bit set only begins a varint. */
  lemma ParsedTail(s: seq<byte>, p: nat)
    requires p < |s| && 128 <= s[p]
    ensures forall next :: p < next <= |s| ==> (IsVarint(s[p..next]) <==> p + 1 < next && IsVarint(s[p + 1..next]))
  {
    forall next | p < next <= |s|
      ensures IsVarint(s[p..next]) <==> p + 1 < next && IsVarint(s[p + 1..next])
    {
      if p + 1 < next {
        assert s[p..next] == [s[p]] + s[p + 1..next];
      }
    }
  }

  /** A buffer that ends inside a varint holds no varint there. */
  lemma {:induction false} ParseCutVarint(s: seq<byte>, p: nat, v: nat, k: nat, acc: nat)
    requires p <= |s| < p + |Varint(v)|
    requires forall j :: 0 <= j < |s| - p ==> s[p + j] == Varint(v)[j]
    ensures ParseVarint(s, p, k, acc) == NoVarint
    decreases v
  {
    if p < |s| && k < 10 {
      assert s[p + 0] == Varint(v)[0];
      var tail := Varint(v / 128);
      assert Varint(v) == [v % 128 + 128] + tail;
      forall j | 0 <= j < |s| - (p + 1)
        ensures s[p + 1 + j] == tail[j]
      {
        assert Varint(v)[j + 1] == tail[j];
      }
      ParseCutVarint(s, p + 1, v / 128, k + 1, acc + Chunk(s[p], k));
    }
  }

  // ---- 64-bit little-endian words ----

  /** The n low bytes of v, least significant first. */
  function LittleEndian(v: nat, n: nat): (r: seq<byte>)
    ensures |r| == n
  {
    if n == 0 then [] else [v % 256] + LittleEndian(v / 256, n - 1)
  }

  /** The number whose little-endian bytes are s. */
  function WordValue(s: seq<byte>): nat {
    if s == [] then 0 else s[0] + 256 * WordValue(s[1..])
  }

  function Fixed64(v: nat): (r: seq<byte>)
    ensures |r| == 8
  {
    LittleEndian(v, 8)
  }

  function Pow256(n: nat): nat {
    if n == 0 then 1 else 256 * Pow256(n - 1)
  }

  lemma {:induction false} LittleEndianValue(v: nat, n: nat)
    requires v < Pow256(n)
    ensures WordValue(LittleEndian(v, n)) == v
  {
    if n != 0 {
      LittleEndianValue(v / 256, n - 1);
      assert LittleEndian(v, n)[1..] == LittleEndian(v / 256, n - 1);
    }
  }

  /** Storing a 64-bit word and loading it gives it back. */
  lemma Fixed64Value(v: nat)
    requires v < TWO_64
    ensures WordValue(Fixed64(v)) == v
  {
    assert Pow256(4) == 0x1_0000_0000;
    assert Pow256(8) == 256 * (256 * (256 * (256 * Pow256(4))));
    LittleEndianValue(v, 8);
  }
}
