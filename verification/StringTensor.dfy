/** The byte layout of a string tensor: one 64-bit offset per element, then the elements,
    each a varint length followed by its bytes (tensorflow/c/c_api.cc). */
module StringTensor {
  import opened Arith
  import opened Coding

  type str = seq<byte>

  // ---- The layout, as a value ----

  function Record(s: str): (r: seq<byte>)
    ensures |s| < |r|
  {
    Varint(|s|) + s
  }

  /** The first n records, one after the other. */
  function Records(ss: seq<str>, n: nat): seq<byte>
    requires n <= |ss|
  {
    if n == 0 then [] else Records(ss, n - 1) + Record(ss[n - 1])
  }

  /** Where element i starts, counted from the end of the offset table. */
  function Offset(ss: seq<str>, i: nat): nat
    requires i <= |ss|
  {
    |Records(ss, i)|
  }

  function Table(ss: seq<str>, n: nat): (r: seq<byte>)
    requires n <= |ss|
    ensures |r| == 8 * n
  {
    if n == 0 then [] else Table(ss, n - 1) + Fixed64(Offset(ss, n - 1))
  }

  function Data(ss: seq<str>): seq<byte> {
    Records(ss, |ss|)
  }

  function Encoding(ss: seq<str>): seq<byte> {
    Table(ss, |ss|) + Data(ss)
  }

  lemma {:induction false} RecordsTileUpTo(ss: seq<str>, i: nat, n: nat)
    requires i < n <= |ss|
    ensures Offset(ss, i + 1) == Offset(ss, i) + |Record(ss[i])| <= Offset(ss, n)
    ensures Holds(Records(ss, n), Offset(ss, i), Record(ss[i]))
    decreases n
  {
    if i < n - 1 {
      RecordsTileUpTo(ss, i, n - 1);
      HoldsLeft(Records(ss, n - 1), Record(ss[n - 1]), Offset(ss, i), Record(ss[i]));
    }
  }

  /** The records tile the data region: the first starts at 0, each starts where the one before
      it ends, the last ends at the end, and each region holds exactly that element's record. */
  lemma RecordsTile(ss: seq<str>, i: nat)
    requires i < |ss|
    ensures Offset(ss, 0) == 0 && Offset(ss, |ss|) == |Data(ss)|
    ensures Offset(ss, i + 1) == Offset(ss, i) + |Record(ss[i])| <= |Data(ss)|
    ensures Holds(Data(ss), Offset(ss, i), Record(ss[i]))
  {
    RecordsTileUpTo(ss, i, |ss|);
  }

  /** Slot i of the offset table holds element i's offset. */
  lemma {:induction false} TableSlot(ss: seq<str>, i: nat, n: nat)
    requires i < n <= |ss|
    ensures Holds(Table(ss, n), 8 * i, Fixed64(Offset(ss, i)))
    decreases n
  {
    if i < n - 1 {
      TableSlot(ss, i, n - 1);
      HoldsLeft(Table(ss, n - 1), Fixed64(Offset(ss, n - 1)), 8 * i, Fixed64(Offset(ss, i)));
    }
  }

  // ---- Encoding ----

  /** The first pass: the number of bytes the encoding of ss needs. */
  method EncodedSize(ss: seq<str>) returns (size: nat)
    ensures size == |Encoding(ss)|
  {
    size := 0;
    for i := 0 to |ss|
      invariant size == 8 * i + Offset(ss, i)
    {
      var length := VarintLength(|ss[i]|);
      size := size + 8 + length + |ss[i]|;
    }
  }

  /** Stores one offset in its slot of the table. */
  method StoreOffset(buf: array<byte>, slot: nat, offset: nat)
    requires slot + 8 <= buf.Length
    modifies buf
    ensures buf[slot..slot + 8] == Fixed64(offset)
    ensures buf[..slot] == old(buf[..slot]) && buf[slot + 8..] == old(buf[slot + 8..])
  {
    var word := Fixed64(offset);
    forall k | 0 <= k < 8 {
      buf[slot + k] := word[k];
    }
  }

  /** Stores one record at dst and returns the cursor after it. */
  method StoreRecord(buf: array<byte>, dst: nat, s: str) returns (next: nat)
    requires |s| < TWO_64 && dst + |Record(s)| <= buf.Length
    modifies buf
    ensures next == dst + |Record(s)| && buf[dst..next] == Record(s)
    ensures buf[..dst] == old(buf[..dst])
  {
    var mid := EncodeVarint64(buf, dst, |s|);
    next := mid + |s|;
    assert buf[dst..mid] == Varint(|s|);
    label copy:
    forall k | 0 <= k < |s| {
      buf[mid + k] := s[k];
    }
    assert buf[dst..mid] == old@copy(buf[dst..mid]);
    assert buf[..dst] == old@copy(buf[..dst]);
    assert buf[dst..next] == buf[dst..mid] + buf[mid..next];
  }

  /** An element's offset and record are stored, behind the offsets and records that were there. */
  ghost predicate ElementStored(before: seq<byte>, after: seq<byte>, slot: nat, dst: nat, dataStart: nat, s: str, next: nat) {
    && slot + 8 <= dataStart <= dst && next == dst + |Record(s)| <= |after| == |before|
    && after[..slot] == before[..slot] && after[slot..slot + 8] == Fixed64(dst - dataStart)
    && after[dataStart..dst] == before[dataStart..dst] && after[dst..next] == Record(s)
  }

  /** One step of the second pass: an element's offset and its record. */
  method EncodeElement(base: array<byte>, slot: nat, dst: nat, dataStart: nat, s: str) returns (next: nat)
    requires slot + 8 <= dataStart <= dst && |s| < TWO_64 && dst + |Record(s)| <= base.Length
    modifies base
    ensures ElementStored(old(base[..]), base[..], slot, dst, dataStart, s, next)
  {
    StoreOffset(base, slot, dst - dataStart);
    ghost var mid := base[..];
    Untouched(old(base[..]), mid, 0, slot, 0, slot);
    Untouched(old(base[..]), mid, slot + 8, base.Length, dataStart, dst);
    next := StoreRecord(base, dst, s);
    Untouched(mid, base[..], 0, dst, 0, slot);
    Untouched(mid, base[..], 0, dst, slot, slot + 8);
    Untouched(mid, base[..], 0, dst, dataStart, dst);
  }

  /** A region of an untouched region is untouched. */
  lemma Untouched(before: seq<byte>, after: seq<byte>, from: nat, to: nat, a: nat, b: nat)
    requires from <= a <= b <= to <= |before| == |after|
    requires before[from..to] == after[from..to]
    ensures before[a..b] == after[a..b]
  {
    forall k | a <= k < b
      ensures before[k] == after[k]
    {
      assert before[k] == before[from..to][k - from] == after[from..to][k - from];
    }
  }

  /** What is in the buffer, and where the cursor stands, when the first i elements have been stored. */
  ghost predicate Stored(buf: seq<byte>, ss: seq<str>, i: nat, dst: nat) {
    && i <= |ss|
    && dst == 8 * |ss| + Offset(ss, i) <= |buf| == |Encoding(ss)|
    && buf[..8 * i] == Table(ss, i)
    && buf[8 * |ss|..dst] == Records(ss, i)
  }

  lemma StoredStep(before: seq<byte>, after: seq<byte>, ss: seq<str>, i: nat, dst: nat, next: nat)
    requires Stored(before, ss, i, dst) && i < |ss| && ElementStored(before, after, 8 * i, dst, 8 * |ss|, ss[i], next)
    ensures Stored(after, ss, i + 1, next)
  {
    assert after[..8 * i + 8] == after[..8 * i] + after[8 * i..8 * i + 8];
    assert after[8 * |ss|..next] == after[8 * |ss|..dst] + after[dst..next];
  }

  lemma RoomForRecord(ss: seq<str>, i: nat)
    requires i < |ss|
    ensures 8 * |ss| + Offset(ss, i) + |Record(ss[i])| <= |Encoding(ss)| && |ss[i]| < |Encoding(ss)|
  {
    RecordsTile(ss, i);
  }

  lemma StoredNone(buf: seq<byte>, ss: seq<str>)
    requires |buf| == |Encoding(ss)|
    ensures Stored(buf, ss, 0, 8 * |ss|)
  {
    assert buf[8 * |ss|..8 * |ss|] == [];
  }

  lemma StoredAll(buf: seq<byte>, ss: seq<str>, dst: nat)
    requires Stored(buf, ss, |ss|, dst)
    ensures dst == |buf| && buf == Encoding(ss)
  {
    assert buf == buf[..8 * |ss|] + buf[8 * |ss|..dst];
  }

  /** Element i of the second pass. */
  method EncodeNext(base: array<byte>, ss: seq<str>, i: nat, slot: nat, dst: nat) returns (next: nat)
    requires |Encoding(ss)| < TWO_64 && i < |ss| && slot == 8 * i && Stored(base[..], ss, i, dst)
    modifies base
    ensures Stored(base[..], ss, i + 1, next)
  {
    RoomForRecord(ss, i);
    next := EncodeElement(base, slot, dst, 8 * |ss|, ss[i]);
    StoredStep(old(base[..]), base[..], ss, i, dst, next);
  }

  /** The second pass: allocates exactly the size of the first pass and fills it through two
      moving cursors. The source's CHECK that the cursor ends at the end is the final assertion. */
  method EncodeStrings(ss: seq<str>) returns (base: array<byte>)
    requires |Encoding(ss)| < TWO_64
    ensures fresh(base) && base[..] == Encoding(ss)
  {
    var size := EncodedSize(ss);
    base := new byte[size];
    var dst: nat, slot: nat := 8 * |ss|, 0;
    StoredNone(base[..], ss);
    for i := 0 to |ss|
      invariant slot == 8 * i && Stored(base[..], ss, i, dst)
    {
      var next := EncodeNext(base, ss, i, slot, dst);
      slot, dst := slot + 8, next;
    }
    StoredAll(base[..], ss, dst);
    assert dst == size;
  }

  // ---- Decoding ----

  datatype Decoded = Strings(ss: seq<str>) | TooShort | OutOfRange(index: nat)

  function StoredOffset(input: seq<byte>, i: nat): nat
    requires 8 * i + 8 <= |input|
  {
    WordValue(input[8 * i..8 * i + 8])
  }

  /** The varint at element i's offset, if the offset lies in the data region. */
  function LengthAt(n: nat, input: seq<byte>, i: nat): Parsed
    requires i < n && 8 * n <= |input|
  {
    if |input| - 8 * n <= StoredOffset(input, i) then NoVarint
    else ParseVarint(input[8 * n..], StoredOffset(input, i), 0, 0)
  }

  /** Element i is stored inside the buffer. */
  predicate InRange(n: nat, input: seq<byte>, i: nat)
    requires i < n && 8 * n <= |input|
  {
    var p := LengthAt(n, input, i);
    p.Parsed? && 0 <= p.next <= |input| - 8 * n && p.value <= |input| - 8 * n - p.next
  }

  function Element(n: nat, input: seq<byte>, i: nat): str
    requires i < n && 8 * n <= |input| && InRange(n, input, i)
  {
    var p := LengthAt(n, input, i);
    input[8 * n..][p.next..p.next + p.value]
  }

  /** The buffers whose offsets and lengths fit a signed 64-bit integer, so that the source's casts keep their value. */
  predicate Signed(n: nat, input: seq<byte>) {
    8 * n <= |input| ==>
      forall i :: 0 <= i < n ==>
        StoredOffset(input, i) < TWO_63 && (var p := LengthAt(n, input, i); p.Parsed? ==> p.value < TWO_63)
  }

  /** r is what decoding n strings from input comes to: all of them, or the index of the first that is
      out of range. */
  ghost predicate IsDecoding(n: nat, input: seq<byte>, r: Decoded) {
    match r
    case TooShort => |input| < 8 * n
    case Strings(ss) =>
      8 * n <= |input| && |ss| == n && forall i :: 0 <= i < n ==> InRange(n, input, i) && ss[i] == Element(n, input, i)
    case OutOfRange(index) =>
      8 * n <= |input| && index < n && !InRange(n, input, index) && forall i :: 0 <= i < index ==> InRange(n, input, i)
  }

  /** No buffer decodes in two ways. */
  lemma DecodingUnique(n: nat, input: seq<byte>, r: Decoded, r': Decoded)
    requires IsDecoding(n, input, r) && IsDecoding(n, input, r')
    ensures r == r'
  {
    if r.Strings? && r'.Strings? {
      assert forall i :: 0 <= i < n ==> r.ss[i] == r'.ss[i];
    }
  }

  /** One turn of the decoder's loop. */
  method DecodeElement(n: nat, input: seq<byte>, data: seq<byte>, i: nat) returns (ok: bool, s: str)
    requires Signed(n, input) && i < n && 8 * n <= |input| && data == input[8 * n..]
    ensures ok <==> InRange(n, input, i)
    ensures ok ==> s == Element(n, input, i)
  {
    var offset := WordValue(input[8 * i..8 * i + 8]);
    assert offset == StoredOffset(input, i);
    if |data| <= offset {
      return false, [];
    }
    var parsed := GetVarint64Ptr(data, offset);
    assert parsed == LengthAt(n, input, i);
    if parsed.NoVarint? || |data| - parsed.next < parsed.value {
      return false, [];
    }
    NextInside(data, offset, 0, 0);
    return true, data[parsed.next..parsed.next + parsed.value];
  }

  method DecodeStrings(n: nat, input: seq<byte>) returns (r: Decoded)
    requires Signed(n, input)
    ensures IsDecoding(n, input, r)
  {
    if |input| / 8 < n {
      return TooShort;
    }
    var data := input[8 * n..];
    var out: seq<str> := [];
    for i := 0 to n
      invariant |out| == i
      invariant forall k :: 0 <= k < i ==> InRange(n, input, k) && out[k] == Element(n, input, k)
    {
      var ok, s := DecodeElement(n, input, data, i);
      if !ok {
        return OutOfRange(i);
      }
      out := out + [s];
    }
    r := Strings(out);
  }

  lemma {:induction false} NextInside(s: seq<byte>, p: nat, k: nat, acc: nat)
    ensures var r := ParseVarint(s, p, k, acc); r.Parsed? ==> p < r.next <= |s|
    decreases 10 - k
  {
    if k < 10 && p < |s| && 128 <= s[p] {
      NextInside(s, p + 1, k + 1, acc + Chunk(s[p], k));
    }
  }

  // ---- What decoding finds, spelled out ----

  /** At position at of data there is a varint of at most ten bytes, whose low 64 bits are the length of s, and then s. */
  ghost predicate HasRecord(data: seq<byte>, at: nat, s: str) {
    exists next: nat :: EndsAt(data, at, next) && |s| == Base128(data[at..next]) % TWO_64
      && next + |s| <= |data| && data[next..next + |s|] == s
  }

  ghost predicate EndsAt(data: seq<byte>, at: nat, next: nat) {
    at < next <= at + 10 && next <= |data| && IsVarint(data[at..next])
  }

  /** An element is in range exactly if there is a record at its offset, and then it is that record's string. */
  lemma ElementSpelled(n: nat, input: seq<byte>, i: nat)
    requires i < n && 8 * n <= |input|
    ensures InRange(n, input, i) ==> HasRecord(input[8 * n..], StoredOffset(input, i), Element(n, input, i))
    ensures forall s :: HasRecord(input[8 * n..], StoredOffset(input, i), s) ==> InRange(n, input, i) && Element(n, input, i) == s
  {
    var data, at := input[8 * n..], StoredOffset(input, i);
    ReadSpelled(data, at);
    var r := ParseVarint(data, at, 0, 0);
    if InRange(n, input, i) {
      assert EndsAt(data, at, r.next);
    }
    forall s | HasRecord(data, at, s)
      ensures InRange(n, input, i) && Element(n, input, i) == s
    {
      RecordIsRead(data, at, s);
    }
  }

  /** Where there is a record, reading finds its length and stops before its string. */
  lemma RecordIsRead(data: seq<byte>, at: nat, s: str)
    requires HasRecord(data, at, s)
    ensures var r := ParseVarint(data, at, 0, 0);
      r.Parsed? && at < r.next && r.value == |s| && r.next + |s| <= |data| && data[r.next..r.next + |s|] == s
  {
    ReadSpelled(data, at);
    var r := ParseVarint(data, at, 0, 0);
    var next: nat :| EndsAt(data, at, next) && |s| == Base128(data[at..next]) % TWO_64
      && next + |s| <= |data| && data[next..next + |s|] == s;
    assert r.Parsed?;
    OneVarint(data, at, next, r.next);
  }

  /** Whatever the order of the records, and whether or not elements share one or leave gaps: a buffer decodes to ss
      exactly if the offset table fits and every element's record is complete. */
  lemma DecodesIff(input: seq<byte>, ss: seq<str>, r: Decoded)
    requires IsDecoding(|ss|, input, r)
    ensures r == Strings(ss) <==>
      8 * |ss| <= |input| && forall i :: 0 <= i < |ss| ==> HasRecord(input[8 * |ss|..], WordValue(input[8 * i..8 * i + 8]), ss[i])
  {
    var n := |ss|;
    if 8 * n <= |input| {
      forall i | 0 <= i < n
        ensures HasRecord(input[8 * n..], WordValue(input[8 * i..8 * i + 8]), ss[i])
           <==> InRange(n, input, i) && Element(n, input, i) == ss[i]
      {
        ElementSpelled(n, input, i);
      }
      if forall i :: 0 <= i < n ==> HasRecord(input[8 * n..], WordValue(input[8 * i..8 * i + 8]), ss[i]) {
        assert forall i :: 0 <= i < n ==> InRange(n, input, i) && Element(n, input, i) == ss[i];
        assert IsDecoding(n, input, Strings(ss));
        DecodingUnique(n, input, r, Strings(ss));
      }
    }
  }

  /** Element i's slot points to a complete record. */
  ghost predicate HasSome(n: nat, input: seq<byte>, i: nat)
    requires i < n && 8 * n <= |input|
  {
    var data, at := input[8 * n..], WordValue(input[8 * i..8 * i + 8]);
    exists s :: HasRecord(data, at, s)
  }

  lemma HasSomeIff(n: nat, input: seq<byte>, i: nat)
    requires i < n && 8 * n <= |input|
    ensures HasSome(n, input, i) <==> InRange(n, input, i)
  {
    ElementSpelled(n, input, i);
  }

  /** The decoder reports an element exactly if it is the first without a complete record. */
  lemma OutOfRangeIff(n: nat, input: seq<byte>, r: Decoded, index: nat)
    requires IsDecoding(n, input, r) && index < n && 8 * n <= |input|
    ensures r == OutOfRange(index) <==> !HasSome(n, input, index) && forall i :: 0 <= i < index ==> HasSome(n, input, i)
  {
    forall i | 0 <= i < n
      ensures HasSome(n, input, i) <==> InRange(n, input, i)
    {
      HasSomeIff(n, input, i);
    }
  }

  // ---- Round trip ----

  lemma EncodedData(ss: seq<str>)
    ensures 8 * |ss| <= |Encoding(ss)| && Encoding(ss)[8 * |ss|..] == Data(ss)
  {
  }

  lemma EncodedSlot(ss: seq<str>, i: nat)
    requires i < |ss|
    ensures 8 * i + 8 <= |Encoding(ss)| && Encoding(ss)[8 * i..8 * i + 8] == Fixed64(Offset(ss, i))
  {
    TableSlot(ss, i, |ss|);
    HoldsLeft(Table(ss, |ss|), Data(ss), 8 * i, Fixed64(Offset(ss, i)));
    HoldsSlice(Encoding(ss), 8 * i, Fixed64(Offset(ss, i)));
  }

  /** Where element i's length varint and its bytes lie in an encoding. */
  lemma EncodedLayout(ss: seq<str>, i: nat)
    requires i < |ss| && |Encoding(ss)| < TWO_64
    ensures 8 * |ss| <= |Encoding(ss)| && Encoding(ss)[8 * |ss|..] == Data(ss)
    ensures StoredOffset(Encoding(ss), i) == Offset(ss, i) < |Data(ss)|
    ensures Holds(Data(ss), Offset(ss, i), Varint(|ss[i]|))
    ensures Holds(Data(ss), Offset(ss, i) + |Varint(|ss[i]|)|, ss[i])
  {
    EncodedSlot(ss, i);
    EncodedData(ss);
    RecordsTile(ss, i);
    Fixed64Value(Offset(ss, i));
    HoldsParts(Data(ss), Offset(ss, i), Varint(|ss[i]|), ss[i]);
  }

  /** In an encoding, element i's length varint is found, and holds the length of ss[i]. */
  lemma EncodedLength(ss: seq<str>, i: nat)
    requires i < |ss| && |Encoding(ss)| < TWO_64
    ensures 8 * |ss| <= |Encoding(ss)|
    ensures LengthAt(|ss|, Encoding(ss), i) == Parsed(|ss[i]|, Offset(ss, i) + |Varint(|ss[i]|)|)
  {
    EncodedLayout(ss, i);
    ParseStored(Data(ss), Offset(ss, i), |ss[i]|);
  }

  /** An element whose length is found and whose bytes follow is in range and decodes to those bytes. */
  lemma ElementFound(n: nat, input: seq<byte>, i: nat, s: str, at: nat)
    requires i < n && 8 * n <= |input| && LengthAt(n, input, i) == Parsed(|s|, at)
    requires Holds(input[8 * n..], at, s)
    ensures InRange(n, input, i) && Element(n, input, i) == s
  {
    HoldsSlice(input[8 * n..], at, s);
  }

  lemma EncodedElement(ss: seq<str>, i: nat)
    requires i < |ss| && |Encoding(ss)| < TWO_64
    ensures 8 * |ss| <= |Encoding(ss)|
    ensures InRange(|ss|, Encoding(ss), i) && Element(|ss|, Encoding(ss), i) == ss[i]
  {
    EncodedLength(ss, i);
    EncodedLayout(ss, i);
    ElementFound(|ss|, Encoding(ss), i, ss[i], Offset(ss, i) + |Varint(|ss[i]|)|);
  }

  lemma EncodedSigned(ss: seq<str>)
    requires |Encoding(ss)| < TWO_63
    ensures Signed(|ss|, Encoding(ss))
  {
    forall i | 0 <= i < |ss|
      ensures StoredOffset(Encoding(ss), i) < TWO_63
      ensures LengthAt(|ss|, Encoding(ss), i).Parsed? ==> LengthAt(|ss|, Encoding(ss), i).value < TWO_63
    {
      EncodedLayout(ss, i);
      EncodedLength(ss, i);
    }
  }

  /** The encoding spelled out: behind the slots, at the offset that element i's slot holds, are the shortest varint of its
      length and then its bytes. */
  lemma EncodingSpelled(ss: seq<str>, i: nat)
    requires i < |ss| && |Encoding(ss)| < TWO_64
    ensures 8 * |ss| <= |Encoding(ss)|
    ensures var data, at := Encoding(ss)[8 * |ss|..], StoredOffset(Encoding(ss), i); var from := at + |Varint(|ss[i]|)|;
      from + |ss[i]| <= |data| && data[at..from] == Varint(|ss[i]|) && data[from..from + |ss[i]|] == ss[i]
  {
    EncodedLayout(ss, i);
    RecordSpelled(Data(ss), Offset(ss, i), ss[i]);
  }

  lemma RecordSpelled(data: seq<byte>, at: nat, s: str)
    requires Holds(data, at, Varint(|s|)) && Holds(data, at + |Varint(|s|)|, s)
    ensures var from := at + |Varint(|s|)|; from + |s| <= |data| && data[at..from] == Varint(|s|) && data[from..from + |s|] == s
  {
    HoldsSlice(data, at, Varint(|s|));
    HoldsSlice(data, at + |Varint(|s|)|, s);
  }

  /** And nothing else: the first record is at 0, each next one right behind, and the last ends at the end. */
  lemma EncodingHasNoGaps(ss: seq<str>, i: nat)
    requires i < |ss| && |Encoding(ss)| < TWO_64
    ensures 8 * |ss| <= |Encoding(ss)| && (i == 0 ==> StoredOffset(Encoding(ss), i) == 0)
    ensures var end := StoredOffset(Encoding(ss), i) + |Varint(|ss[i]|)| + |ss[i]|;
      end == if i + 1 < |ss| then StoredOffset(Encoding(ss), i + 1) else |Encoding(ss)| - 8 * |ss|
  {
    SlotHoldsOffset(ss, i);
    NextOffset(ss, i);
    if i + 1 < |ss| {
      SlotHoldsOffset(ss, i + 1);
    }
  }

  lemma NextOffset(ss: seq<str>, i: nat)
    requires i < |ss|
    ensures Offset(ss, 0) == 0 && Offset(ss, i) + |Varint(|ss[i]|)| + |ss[i]| == Offset(ss, i + 1)
    ensures 8 * |ss| <= |Encoding(ss)| && Offset(ss, |ss|) == |Encoding(ss)| - 8 * |ss|
  {
    RecordsTile(ss, i);
    EncodedData(ss);
  }

  lemma SlotHoldsOffset(ss: seq<str>, i: nat)
    requires i < |ss| && |Encoding(ss)| < TWO_64
    ensures 8 * |ss| <= |Encoding(ss)| && StoredOffset(Encoding(ss), i) == Offset(ss, i)
  {
    EncodedLayout(ss, i);
  }

  /** Decoding an encoded tensor can only give back exactly the strings that were encoded. */
  lemma DecodingOfEncoding(ss: seq<str>, r: Decoded)
    requires |Encoding(ss)| < TWO_64 && IsDecoding(|ss|, Encoding(ss), r)
    ensures r == Strings(ss)
  {
    EncodedData(ss);
    forall i | 0 <= i < |ss|
      ensures InRange(|ss|, Encoding(ss), i) && Element(|ss|, Encoding(ss), i) == ss[i]
    {
      EncodedElement(ss, i);
    }
    assert r.Strings? ==> r.ss == ss;
  }

  method RoundTrip(ss: seq<str>) returns (r: Decoded)
    requires |Encoding(ss)| < TWO_63
    ensures r == Strings(ss)
  {
    var base := EncodeStrings(ss);
    EncodedSigned(ss);
    r := DecodeStrings(|ss|, base[..]);
    DecodingOfEncoding(ss, r);
  }

  /** No proper prefix of an encoding decodes to the same number of strings: the last element is cut short. */
  lemma CutEncodingFails(ss: seq<str>, size: nat)
    requires 0 < |ss| && size < |Encoding(ss)| < TWO_64
    ensures size < 8 * |ss| || !InRange(|ss|, Encoding(ss)[..size], |ss| - 1)
  {
    LastRecordEnds(ss);
    CutInputFails(|ss|, Encoding(ss), size, |ss| - 1, ss[|ss| - 1]);
  }

  lemma LastRecordEnds(ss: seq<str>)
    requires 0 < |ss| && |Encoding(ss)| < TWO_64
    ensures 8 * |ss| <= |Encoding(ss)|
    ensures Holds(Encoding(ss)[8 * |ss|..], StoredOffset(Encoding(ss), |ss| - 1), Record(ss[|ss| - 1]))
    ensures |Encoding(ss)| - 8 * |ss| == StoredOffset(Encoding(ss), |ss| - 1) + |Record(ss[|ss| - 1])|
  {
    EncodedSlot(ss, |ss| - 1);
    Fixed64Value(Offset(ss, |ss| - 1));
    EncodedData(ss);
    RecordsTile(ss, |ss| - 1);
  }

  /** Cutting a buffer inside the record of the element stored last. */
  lemma CutInputFails(n: nat, input: seq<byte>, size: nat, i: nat, s: str)
    requires i < n && 8 * n <= |input| < TWO_64 && size < |input|
    requires Holds(input[8 * n..], StoredOffset(input, i), Record(s))
    requires |input| - 8 * n == StoredOffset(input, i) + |Record(s)|
    ensures size < 8 * n || !InRange(n, input[..size], i)
  {
    if 8 * n <= size {
      var data := input[8 * n..];
      CutOffset(input, size, i);
      assert input[..size][8 * n..] == data[..size - 8 * n];
      CutRecordFails(data, StoredOffset(input, i), s, size - 8 * n);
      ElementMissing(n, input[..size], i, data[..size - 8 * n]);
    }
  }

  /** No complete record at position at of data. */
  ghost predicate NoRecord(data: seq<byte>, at: nat) {
    |data| <= at || (var p := ParseVarint(data, at, 0, 0); p.NoVarint? || |data| - p.next < p.value)
  }

  lemma ElementMissing(n: nat, input: seq<byte>, i: nat, data: seq<byte>)
    requires i < n && 8 * n <= |input| && input[8 * n..] == data
    requires NoRecord(data, StoredOffset(input, i))
    ensures !InRange(n, input, i)
  {
  }

  lemma CutOffset(input: seq<byte>, size: nat, i: nat)
    requires 8 * i + 8 <= size <= |input|
    ensures StoredOffset(input[..size], i) == StoredOffset(input, i)
  {
    assert input[..size][8 * i..8 * i + 8] == input[8 * i..8 * i + 8];
  }

  lemma CutRecordFails(data: seq<byte>, at: nat, s: str, size: nat)
    requires size < |data| < TWO_64 && Holds(data, at, Record(s)) && |data| == at + |Record(s)|
    ensures NoRecord(data[..size], at)
  {
    var cut := data[..size];
    HoldsParts(data, at, Varint(|s|), s);
    if at <= size < at + |Varint(|s|)| {
      ParseCutVarint(cut, at, |s|, 0, 0);
    } else if at <= size {
      assert Holds(cut, at, Varint(|s|));
      ParseStored(cut, at, |s|);
    }
  }
}
