/**
  What data memory looks like to a program: a flat array of bytes, little-endian loads with sign
  or zero extension, stores that take effect at once. Addresses beyond the array read as zero and
  drop what is written to them.
 */
module FlatMemory {
  import opened Arithmetic
  import opened Bits

  const MEM_SIZE: nat := 0x2_0000
  const BLOCK: nat := 16

  datatype MemOp = Load | Store

  datatype MemRequest = MemRequest(op: MemOp, value: i32, address: u32, isSigned: bool, nBytes: nat,
                                   robTag: u8, memIndex: u8)

  datatype LoadResponse = LoadResponse(valid: bool, memIndex: u8, robTag: u8, value: i32)

  const NO_RESPONSE := LoadResponse(false, 0, 0, 0)

  /** The widths the instruction set has; a request never straddles a line. */
  predicate WellFormed(req: MemRequest) {
    (req.nBytes == 1 || req.nBytes == 2 || req.nBytes == 4) && req.address % BLOCK + req.nBytes <= BLOCK
  }

  function ReadByte(mem: seq<u8>, address: nat): u8 {
    if address < |mem| then mem[address] else 0
  }

  /** Byte i of a word, counted from the low end. */
  function ByteOf(word: u32, i: nat): u8
    requires i < 4
  {
    if i == 0 then word % 0x100
    else if i == 1 then word / 0x100 % 0x100
    else if i == 2 then word / 0x1_0000 % 0x100
    else word / 0x100_0000
  }

  function LittleEndian(bytes: seq<u8>): nat {
    if |bytes| == 0 then 0 else bytes[0] + 0x100 * LittleEndian(bytes[1..])
  }

  /** The weight of byte i. */
  function Weight(i: nat): nat {
    if i == 0 then 1 else 0x100 * Weight(i - 1)
  }

  /** One more byte at the high end. */
  lemma {:induction false} LittleEndianAppend(bytes: seq<u8>, b: u8)
    ensures LittleEndian(bytes + [b]) == LittleEndian(bytes) + b * Weight(|bytes|)
  {
    if |bytes| == 0 {
      assert [b][1..] == [];
      assert bytes + [b] == [b];
    } else {
      LittleEndianAppend(bytes[1..], b);
      var all := bytes + [b];
      assert all[1..] == bytes[1..] + [b] && all[0] == bytes[0];
    }
  }

  /** The number read from a little-endian pattern of n bytes. */
  function Extend(raw: nat, n: nat, isSigned: bool): int
  {
    if isSigned && n == 1 && raw >= 0x80 then raw - 0x100
    else if isSigned && n == 2 && raw >= 0x8000 then raw - 0x1_0000
    else if raw >= 0x8000_0000 then raw - 0x1_0000_0000
    else raw
  }

  /** n consecutive bytes. */
  function Bytes(mem: seq<u8>, address: nat, n: nat): (r: seq<u8>)
    ensures |r| == n && forall i :: 0 <= i < n ==> r[i] == ReadByte(mem, address + i)
  {
    seq<u8>(n, i requires 0 <= i => ReadByte(mem, address + i))
  }

  /** What a load returns. */
  function LoadValue(mem: seq<u8>, address: u32, n: nat, isSigned: bool): int {
    Extend(LittleEndian(Bytes(mem, address, n)), n, isSigned)
  }

  function Stored(mem: seq<u8>, address: u32, n: nat, word: u32, k: nat): u8
    requires n <= 4 && k < |mem|
  {
    if address <= k < address + n then ByteOf(word, k - address) else mem[k]
  }

  /** What a store leaves behind. */
  function StoreBytes(mem: seq<u8>, address: u32, n: nat, word: u32): (r: seq<u8>)
    requires n <= 4
    ensures |r| == |mem| && forall k :: 0 <= k < |mem| ==> r[k] == Stored(mem, address, n, word, k)
  {
    seq<u8>(|mem|, k requires 0 <= k < |mem| => Stored(mem, address, n, word, k))
  }

  /** Memory after a request. */
  function Apply(mem: seq<u8>, req: MemRequest): (r: seq<u8>)
    requires WellFormed(req)
    ensures |r| == |mem|
  {
    if req.op.Store? then StoreBytes(mem, req.address, req.nBytes, ToUnsigned(req.value)) else mem
  }

  lemma {:induction false} LittleEndianFits(bytes: seq<u8>)
    requires |bytes| <= 4
    ensures LittleEndian(bytes) < 0x1_0000_0000
    ensures |bytes| == 1 ==> LittleEndian(bytes) < 0x100
    ensures |bytes| == 2 ==> LittleEndian(bytes) < 0x1_0000
    ensures |bytes| == 3 ==> LittleEndian(bytes) < 0x100_0000
  {
    if |bytes| > 0 {
      LittleEndianFits(bytes[1..]);
    }
  }

  /** The response to a load. */
  function Response(mem: seq<u8>, req: MemRequest): LoadResponse
    requires WellFormed(req)
  {
    LittleEndianFits(Bytes(mem, req.address, req.nBytes));
    LoadResponse(true, req.memIndex, req.robTag, LoadValue(mem, req.address, req.nBytes, req.isSigned))
  }

  /** The responses to a sequence of requests and the memory it leaves behind. */
  function FlatRun(mem: seq<u8>, reqs: seq<MemRequest>): (r: (seq<LoadResponse>, seq<u8>))
    requires forall req :: req in reqs ==> WellFormed(req)
    decreases |reqs|
  {
    if reqs == [] then ([], mem)
    else
      var rest := FlatRun(Apply(mem, reqs[0]), reqs[1..]);
      ((if reqs[0].op.Load? then [Response(mem, reqs[0])] else []) + rest.0, rest.1)
  }

  /** The requests in front decide what the last one sees. */
  lemma {:induction false} FlatRunAppend(mem: seq<u8>, reqs: seq<MemRequest>, req: MemRequest)
    requires (forall r :: r in reqs ==> WellFormed(r)) && WellFormed(req)
    ensures var before := FlatRun(mem, reqs);
            FlatRun(mem, reqs + [req]) ==
            (before.0 + if req.op.Load? then [Response(before.1, req)] else [], Apply(before.1, req))
    decreases |reqs|
  {
    if reqs == [] {
      var last := if req.op.Load? then [Response(mem, req)] else [];
      assert reqs + [req] == [req] && [req][1..] == [];
      assert last + [] == last && [] + last == last;
    } else {
      var all := reqs + [req];
      assert all[1..] == reqs[1..] + [req] && all[0] == reqs[0];
      var next := Apply(mem, reqs[0]);
      FlatRunAppend(next, reqs[1..], req);
      var head := if reqs[0].op.Load? then [Response(mem, reqs[0])] else [];
      var before := FlatRun(next, reqs[1..]);
      var last := if req.op.Load? then [Response(before.1, req)] else [];
      assert head + before.0 + last == head + (before.0 + last);
    }
  }

  /** The values that n bytes can have. */
  function Values(n: nat): (m: int)
    requires n == 1 || n == 2 || n == 4
    ensures m > 0
  {
    if n == 1 then 0x100 else if n == 2 then 0x1_0000 else TWO_32
  }

  /** This value has these bytes, and lies in the range of a signed or an unsigned number. */
  predicate Reads(v: int, raw: int, n: nat, isSigned: bool)
    requires n == 1 || n == 2 || n == 4
  {
    && (v - raw) % Values(n) == 0
    && (isSigned || n == 4 ==> -Values(n) <= 2 * v < Values(n))
    && (!isSigned && n < 4 ==> 0 <= v < Values(n))
  }

  lemma {:induction false} ExtendLaw(raw: nat, n: nat, isSigned: bool)
    requires (n == 1 || n == 2 || n == 4) && raw < Values(n)
    ensures Reads(Extend(raw, n, isSigned), raw, n, isSigned)
  {
  }

  /** A load stands for the bytes of its width, and for no others. */
  lemma {:induction false} LoadLaw(mem: seq<u8>, address: u32, n: nat, isSigned: bool)
    requires n == 1 || n == 2 || n == 4
    ensures Reads(LoadValue(mem, address, n, isSigned), LittleEndian(Bytes(mem, address, n)), n, isSigned)
  {
    LittleEndianFits(Bytes(mem, address, n));
    ExtendLaw(LittleEndian(Bytes(mem, address, n)), n, isSigned);
  }

  /** A load of the width of the latest store at its address reads what was stored. */
  lemma {:induction false} StoreThenLoad(mem: seq<u8>, address: u32, n: nat, word: u32, isSigned: bool)
    requires (n == 1 || n == 2 || n == 4) && address + n <= |mem|
    ensures Reads(LoadValue(StoreBytes(mem, address, n, word), address, n, isSigned), word, n, isSigned)
  {
    hide LoadValue, Values, Bytes, StoreBytes, LittleEndian;
    var stored := StoreBytes(mem, address, n, word);
    LoadLaw(stored, address, n, isSigned);
    StoredWord(mem, address, n, word);
    SameResidue(LoadValue(stored, address, n, isSigned), LittleEndian(Bytes(stored, address, n)), word, Values(n));
  }

  lemma SameResidue(v: int, raw: int, word: int, m: int)
    requires m > 0 && (v - raw) % m == 0 && raw == word % m
    ensures (v - word) % m == 0
  {
    DivMod(v - raw, m);
    DivMod(word, m);
    var k := (v - raw) / m - word / m;
    assert v - word == k * m;
    ModAddMultiple(0, k, m);
  }

  /** The bytes of a store stand for the low end of the word. */
  lemma {:induction false} StoredWord(mem: seq<u8>, address: u32, n: nat, word: u32)
    requires (n == 1 || n == 2 || n == 4) && address + n <= |mem|
    ensures LittleEndian(Bytes(StoreBytes(mem, address, n, word), address, n)) == word % Values(n)
  {
    var bytes := Bytes(StoreBytes(mem, address, n, word), address, n);
    if n == 1 {
      assert bytes[1..] == [];
      assert LittleEndian(bytes) == ByteOf(word, 0);
    } else if n == 2 {
      var b1 := bytes[1..];
      assert b1[1..] == [];
      assert LittleEndian(b1) == ByteOf(word, 1);
      assert LittleEndian(bytes) == ByteOf(word, 0) + 0x100 * ByteOf(word, 1);
    } else {
      LittleEndianOfWord(bytes, word);
    }
  }

  /** Byte i of a store is byte i of the word, counted from the low end. */
  lemma {:induction false} StoredByteLoads(mem: seq<u8>, address: u32, n: nat, word: u32, i: nat)
    requires (n == 1 || n == 2 || n == 4) && i < n && address + n <= |mem| && address + i < TWO_32
    ensures LoadValue(StoreBytes(mem, address, n, word), address + i, 1, false)
         == word / (if i == 0 then 1 else if i == 1 then 0x100 else if i == 2 then 0x1_0000 else 0x100_0000) % 0x100
  {
    var bytes := Bytes(StoreBytes(mem, address, n, word), address + i, 1);
    assert bytes[1..] == [];
    assert LittleEndian(bytes) == ByteOf(word, i);
  }

  /** A load that a store does not touch reads what it read before. */
  lemma {:induction false} StoreSpares(mem: seq<u8>, address: u32, n: nat, word: u32, other: u32, m: nat,
                                       isSigned: bool)
    requires (n == 1 || n == 2 || n == 4) && (other + m <= address || address + n <= other)
    ensures LoadValue(StoreBytes(mem, address, n, word), other, m, isSigned) == LoadValue(mem, other, m, isSigned)
  {
    assert Bytes(StoreBytes(mem, address, n, word), other, m) == Bytes(mem, other, m);
  }

  /** A store request is there for the loads that follow, and touches nothing else; a load changes nothing. */
  lemma {:induction false} RequestTakesEffect(mem: seq<u8>, req: MemRequest, other: u32, m: nat, isSigned: bool)
    requires WellFormed(req)
    ensures req.op.Load? ==> Apply(mem, req) == mem
    ensures req.op.Store? && req.address + req.nBytes <= |mem| ==>
              Reads(LoadValue(Apply(mem, req), req.address, req.nBytes, isSigned), ToUnsigned(req.value), req.nBytes,
                    isSigned)
    ensures other + m <= req.address || req.address + req.nBytes <= other ==>
              LoadValue(Apply(mem, req), other, m, isSigned) == LoadValue(mem, other, m, isSigned)
  {
    hide LoadValue, StoreBytes, Reads;
    if req.op.Store? {
      if req.address + req.nBytes <= |mem| {
        StoreThenLoad(mem, req.address, req.nBytes, ToUnsigned(req.value), isSigned);
      }
      if other + m <= req.address || req.address + req.nBytes <= other {
        StoreSpares(mem, req.address, req.nBytes, ToUnsigned(req.value), other, m, isSigned);
      }
    }
  }

  /** The loads among the requests. */
  function Loads(reqs: seq<MemRequest>): seq<MemRequest> {
    if reqs == [] then []
    else
      var n := |reqs| - 1;
      Loads(reqs[..n]) + if reqs[n].op.Load? then [reqs[n]] else []
  }

  /** Each response names its load. */
  predicate Names(response: LoadResponse, req: MemRequest) {
    response.valid && response.memIndex == req.memIndex && response.robTag == req.robTag
  }

  /** A run answers its loads once each and in order, and tells which load it answers. */
  lemma {:induction false} LoadsAreAnswered(mem: seq<u8>, reqs: seq<MemRequest>)
    requires forall req :: req in reqs ==> WellFormed(req)
    ensures |FlatRun(mem, reqs).0| == |Loads(reqs)|
    ensures forall k :: 0 <= k < |Loads(reqs)| ==> Names(FlatRun(mem, reqs).0[k], Loads(reqs)[k])
  {
    hide WellFormed, Apply, LoadValue;
    if reqs != [] {
      var n := |reqs| - 1;
      LoadsAreAnswered(mem, reqs[..n]);
      FlatRunAppend(mem, reqs[..n], reqs[n]);
      assert reqs[..n] + [reqs[n]] == reqs;
      hide FlatRun;
    }
  }

  /** Behind any requests, a load is answered with the value of the memory that the stores among them left. */
  lemma {:induction false} LoadSeesStores(mem: seq<u8>, reqs: seq<MemRequest>, req: MemRequest)
    requires (forall r :: r in reqs ==> WellFormed(r)) && WellFormed(req) && req.op.Load?
    ensures var (before, after) := (FlatRun(mem, reqs), FlatRun(mem, reqs + [req]));
            && after.1 == before.1 && |after.0| == |before.0| + 1
            && after.0[|before.0|].value == LoadValue(before.1, req.address, req.nBytes, req.isSigned)
  {
    hide WellFormed, LoadValue;
    FlatRunAppend(mem, reqs, req);
    hide FlatRun;
  }

  lemma {:induction false} LittleEndianOfWord(bytes: seq<u8>, word: u32)
    requires |bytes| == 4 && forall i :: 0 <= i < 4 ==> bytes[i] == ByteOf(word, i)
    ensures LittleEndian(bytes) == word
  {
    var b1 := bytes[1..];
    var b2 := b1[1..];
    var b3 := b2[1..];
    assert b3 == [ByteOf(word, 3)] && b3[1..] == [];
    assert LittleEndian(b3) == ByteOf(word, 3);
    assert LittleEndian(b2) == ByteOf(word, 2) + 0x100 * LittleEndian(b3);
    assert LittleEndian(b1) == ByteOf(word, 1) + 0x100 * LittleEndian(b2);
    assert LittleEndian(bytes) == ByteOf(word, 0) + 0x100 * LittleEndian(b1);
    BytesOfWord(word);
  }

  lemma BytesOfWord(word: u32)
    ensures word == ByteOf(word, 0) + 0x100 * (ByteOf(word, 1) + 0x100 * (ByteOf(word, 2) + 0x100 * ByteOf(word, 3)))
  {
    var upper := word / 0x100;
    assert word == word % 0x100 + 0x100 * upper;
    assert upper / 0x100 == word / 0x1_0000 && upper / 0x1_0000 == word / 0x100_0000;
    assert upper == upper % 0x100 + 0x100 * (upper / 0x100);
  }
}
