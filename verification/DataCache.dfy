/** The write-back, write-allocate data cache in front of the data memory. */
module DataCache {
  import opened Options
  import opened Bits
  import opened FlatMemory
  import opened DataMemory
  import opened Coherence

  datatype Phase = READY | WAIT

  /** A request that missed, parked until its line arrives. */
  datatype Park = Park(valid: bool, request: MemRequest, targetWay: nat)

  const NO_PARK := Park(false, MemRequest(Load, 0, 0, false, 1, 0, 0), 0)

  /** The way the replacement tree points at. */
  function Victim(plru: Plru): nat {
    if plru.root then (if plru.right then 3 else 2) else (if plru.left then 1 else 0)
  }

  /** The tree after way w was used: every node on the path points away from w. */
  function Touch(plru: Plru, w: nat): Plru {
    var rooted := plru.(root := w < 2);
    if w == 0 then rooted.(left := true)
    else if w == 1 then rooted.(left := false)
    else if w == 2 then rooted.(right := true)
    else rooted.(right := false)
  }

  /** Whatever came before, the victim is neither of the two ways used last. */
  lemma VictimIsNotRecent(plru: Plru, older: nat, newer: nat)
    requires older < NUM_OF_WAYS && newer < NUM_OF_WAYS
    ensures Victim(Touch(Touch(plru, older), newer)) != older
    ensures Victim(Touch(Touch(plru, older), newer)) != newer
  {
  }

  /** The tree after these ways were used, in order. */
  function Touched(plru: Plru, ways: seq<nat>): Plru {
    if ways == [] then plru else Touch(Touched(plru, ways[..|ways| - 1]), ways[|ways| - 1])
  }

  /** The last of these ways in the given half of the set, if there is one. */
  function LastIn(ways: seq<nat>, half: nat): Option<nat> {
    if ways == [] then None
    else
      var n := |ways| - 1;
      if ways[n] / 2 == half then Some(ways[n]) else LastIn(ways[..n], half)
  }

  /** The victim is in the half that was not used last, and is the way there that was not used last in that half. */
  lemma {:induction false} VictimByUse(plru: Plru, ways: seq<nat>)
    requires ways != [] && forall k :: 0 <= k < |ways| ==> ways[k] < NUM_OF_WAYS
    ensures var victim, used := Victim(Touched(plru, ways)), ways[|ways| - 1];
            victim < NUM_OF_WAYS && victim / 2 != used / 2 && LastIn(ways, victim / 2) != Some(victim)
  {
    hide Touched;
    var n := |ways| - 1;
    TouchedNext(plru, ways);
    PointsAway(plru, ways[..n], 0);
    PointsAway(plru, ways[..n], 1);
  }

  lemma TouchedNext(plru: Plru, ways: seq<nat>)
    requires ways != []
    ensures Touched(plru, ways) == Touch(Touched(plru, ways[..|ways| - 1]), ways[|ways| - 1])
  {
  }

  /** The way of a half that its node points at. */
  function PointedAt(plru: Plru, half: nat): nat {
    2 * half + if half == 0 then (if plru.left then 1 else 0) else (if plru.right then 1 else 0)
  }

  /** The node of a half points away from the way used last in it. */
  lemma {:induction false} PointsAway(plru: Plru, ways: seq<nat>, half: nat)
    requires half < 2 && forall k :: 0 <= k < |ways| ==> ways[k] < NUM_OF_WAYS
    ensures var last, tree := LastIn(ways, half), Touched(plru, ways);
            last.Some? ==> last.value / 2 == half && last.value != PointedAt(tree, half)
  {
    if ways != [] {
      PointsAway(plru, ways[..|ways| - 1], half);
    }
  }

  /** The first invalid way, or the victim if all ways are valid. */
  predicate Allocated(cacheSet: CacheSet, way: nat) {
    && |cacheSet.lines| == NUM_OF_WAYS && way < NUM_OF_WAYS
    && (forall w :: 0 <= w < way && !cacheSet.lines[way].valid ==> cacheSet.lines[w].valid)
    && (cacheSet.lines[way].valid ==>
          way == Victim(cacheSet.plru) && forall w :: 0 <= w < NUM_OF_WAYS ==> cacheSet.lines[w].valid)
  }

  /** While there is an invalid way, the first of them is taken, and no line is lost. */
  lemma InvalidWaysFirst(cacheSet: CacheSet, way: nat, w: nat)
    requires Allocated(cacheSet, way) && w < NUM_OF_WAYS && !cacheSet.lines[w].valid
    ensures way <= w && !cacheSet.lines[way].valid
  {
  }

  /** Assemble a load's value from the bytes of a line and extend its sign. */
  method ExtractBytes(data: seq<u8>, address: u32, n: nat, isSigned: bool) returns (value: i32)
    requires |data| == BLOCK && (n == 1 || n == 2 || n == 4) && address % BLOCK + n <= BLOCK
    ensures value == Extend(LittleEndian(data[address % BLOCK..address % BLOCK + n]), n, isSigned)
    ensures Reads(value, LittleEndian(data[address % BLOCK..address % BLOCK + n]), n, isSigned)
  {
    var off := address % BLOCK;
    var rawData: nat := 0;
    for i := 0 to 4
      invariant rawData == LittleEndian(data[off..off + if i < n then i else n])
    {
      if i < n {
        LittleEndianAppend(data[off..off + i], data[off + i]);
        SliceExtends(data, off, off + i);
        rawData := rawData + data[off + i] * Weight(i);
      }
    }
    LittleEndianFits(data[off..off + n]);
    value := SignExtend(rawData, n, isSigned);
    ExtendLaw(rawData, n, isSigned);
  }

  lemma SliceExtends(data: seq<u8>, from: nat, to: nat)
    requires from <= to < |data|
    ensures data[from..to] + [data[to]] == data[from..to + 1]
  {
  }

  method SignExtend(pattern: u32, n: nat, isSigned: bool) returns (value: i32)
    requires (n == 1 ==> pattern < 0x100) && (n == 2 ==> pattern < 0x1_0000)
    ensures value == Extend(pattern, n, isSigned)
  {
    var rawData := pattern;
    if isSigned && n == 1 && rawData / 0x80 % 2 == 1 {
      rawData := rawData + 0xFFFF_FF00;
    } else if isSigned && n == 2 && rawData / 0x8000 % 2 == 1 {
      rawData := rawData + 0xFFFF_0000;
    }
    value := ToSigned(rawData);
  }

  /** The bytes of a line after a store, one byte at a time. */
  method StoreIntoLine(data: seq<u8>, address: u32, n: nat, word: u32) returns (stored: seq<u8>)
    requires |data| == BLOCK && (n == 1 || n == 2 || n == 4) && address % BLOCK + n <= BLOCK
    ensures stored == StoredLine(data, address, n, word)
  {
    var off := address % BLOCK;
    stored := data;
    for i := 0 to 4
      invariant |stored| == BLOCK
      invariant forall k :: 0 <= k < BLOCK ==>
        stored[k] == if off <= k < off + i then StoredByte(data, address, n, word, k) else data[k]
    {
      if i < n && address + i < MEM_SIZE {
        stored := stored[off + i := ByteOf(word, i)];
      }
    }
  }

  /** The load value of the line that holds a request is the load value of the flat memory. */
  lemma LineLoad(flat: seq<u8>, req: MemRequest)
    requires WellFormed(req)
    ensures var off := req.address % BLOCK;
            Block(flat, req.address / BLOCK)[off..off + req.nBytes] == Bytes(flat, req.address, req.nBytes)
  {
  }

  class DCache {
    const cacheSets: array<CacheSet>
    var busy: bool
    var phase: Phase
    var cacheRequestBuffer: Park
    var loadBuffer: LoadResponse
    var request: PortRequest
    var hitCount: nat
    var missCount: nat

    /** All lines invalid, nothing in flight. */
    constructor ()
      ensures fresh(cacheSets) && !busy && phase == READY && !cacheRequestBuffer.valid && request == NO_REQUEST
      ensures Shaped(cacheSets[..]) && loadBuffer == NO_RESPONSE
      ensures forall s, w :: 0 <= s < NUM_OF_SETS && 0 <= w < NUM_OF_WAYS ==>
        !cacheSets[s].lines[w].valid && !cacheSets[s].lines[w].dirty
    {
      var line := Line(false, false, 0, seq(BLOCK, _ => 0));
      var empty := CacheSet([line, line, line, line], Plru(false, false, false));
      cacheSets := new CacheSet[NUM_OF_SETS](_ => empty);
      busy, phase, cacheRequestBuffer := false, READY, NO_PARK;
      loadBuffer, request := NO_RESPONSE, NO_REQUEST;
      hitCount, missCount := 0, 0;
    }

    /** The way a miss in this set will fill. */
    method AllocateLine(s: nat) returns (way: nat)
      requires s < cacheSets.Length && |cacheSets[s].lines| == NUM_OF_WAYS
      ensures Allocated(cacheSets[s], way)
    {
      var invalidIndex := -1;
      for i := 0 to NUM_OF_WAYS
        invariant -1 <= invalidIndex < i
        invariant invalidIndex == -1 ==> forall w :: 0 <= w < i ==> cacheSets[s].lines[w].valid
        invariant invalidIndex != -1 ==> !cacheSets[s].lines[invalidIndex].valid
        invariant forall w :: 0 <= w < invalidIndex ==> cacheSets[s].lines[w].valid
      {
        if !cacheSets[s].lines[i].valid && invalidIndex == -1 {
          invalidIndex := i;
        }
      }
      if invalidIndex != -1 {
        return invalidIndex;
      }
      way := Victim(cacheSets[s].plru);
    }

    /** Associative lookup. */
    method FindLine(s: nat, tag: u32) returns (hit: bool, hitIndex: nat)
      requires Shaped(cacheSets[..]) && s < NUM_OF_SETS
      ensures hit == Cached(cacheSets[..], s, tag)
      ensures hit ==> Unique(cacheSets[s]) ==> hitIndex == HitWay(cacheSets[..], s, tag)
      ensures hit ==> hitIndex < NUM_OF_WAYS && Holds(cacheSets[..], s, hitIndex, tag)
    {
      hit, hitIndex := false, 0;
      for i := 0 to NUM_OF_WAYS
        invariant hit ==> hitIndex < i && Holds(cacheSets[..], s, hitIndex, tag)
        invariant !hit ==> forall w :: 0 <= w < i ==> !Holds(cacheSets[..], s, w, tag)
      {
        if cacheSets[s].lines[i].tag == tag && cacheSets[s].lines[i].valid {
          hit := true;
          hitIndex := i;
        }
      }
    }

    ghost predicate Valid()
      reads this, cacheSets
    {
      Shaped(cacheSets[..]) && forall s :: 0 <= s < NUM_OF_SETS ==> Unique(cacheSets[s])
    }

    /** Park a request that missed and raise both memory channels; a dirty victim goes to its own frame. */
    method RequestLine(req: MemRequest)
      requires Valid() && request == NO_REQUEST && !cacheRequestBuffer.valid
      modifies `cacheRequestBuffer, `request
      ensures cacheRequestBuffer.valid && Allocated(cacheSets[SetIndex(req.address)], cacheRequestBuffer.targetWay)
      ensures Parks(cacheRequestBuffer.request, req)
      ensures request == MissRequest(cacheSets[..], req.address, cacheRequestBuffer.targetWay)
    {
      var s := SetIndex(req.address);
      var distributeWay := AllocateLine(s);
      if !cacheRequestBuffer.valid {
        cacheRequestBuffer := Park(true, cacheRequestBuffer.request.(address := req.address, nBytes := req.nBytes,
                                                                     op := req.op), distributeWay);
        if req.op.Load? {
          cacheRequestBuffer := cacheRequestBuffer.(request := cacheRequestBuffer.request.(isSigned := req.isSigned));
        } else {
          cacheRequestBuffer := cacheRequestBuffer.(request := cacheRequestBuffer.request.(value := req.value));
        }
      }
      request := request.(readValid := true, read := ReadRequest(MEM_LATENCY, req.address / BLOCK * BLOCK));
      var victim := cacheSets[s].lines[distributeWay];
      if victim.dirty {
        request := request.(writeValid := true,
                            write := WriteRequest(MEM_LATENCY, LineAddress(victim.tag, s), victim.data));
      }
    }

    /** Processor read. */
    method PrRd(req: MemRequest) returns (hit: bool, value: i32)
      requires Valid() && request == NO_REQUEST && !cacheRequestBuffer.valid && WellFormed(req) && req.op.Load?
      modifies this, cacheSets
      ensures unchanged(`busy) && unchanged(`phase) && unchanged(`loadBuffer)
      ensures hit == old(Cached(cacheSets[..], SetIndex(req.address), TagOf(req.address)))
      ensures hit ==> HitRead(old(cacheSets[..]), req, value, cacheSets[..])
      ensures hit ==> unchanged(`request) && unchanged(`cacheRequestBuffer)
      ensures !hit ==> Missed(req) && cacheSets[..] == old(cacheSets[..])
    {
      var s := SetIndex(req.address);
      var hitIndex;
      hit, hitIndex := FindLine(s, TagOf(req.address));
      value := 0;
      if hit {
        cacheSets[s] := cacheSets[s].(plru := Touch(cacheSets[s].plru, hitIndex));
        value := ExtractBytes(cacheSets[s].lines[hitIndex].data, req.address, req.nBytes, req.isSigned);
      } else {
        RequestLine(req);
      }
    }

    /** Processor write. */
    method PrWr(req: MemRequest) returns (hit: bool)
      requires Valid() && request == NO_REQUEST && !cacheRequestBuffer.valid && WellFormed(req) && req.op.Store?
      modifies this, cacheSets
      ensures unchanged(`busy) && unchanged(`phase) && unchanged(`loadBuffer)
      ensures hit == old(Cached(cacheSets[..], SetIndex(req.address), TagOf(req.address)))
      ensures hit ==> HitWrite(old(cacheSets[..]), req, cacheSets[..])
      ensures hit ==> unchanged(`request) && unchanged(`cacheRequestBuffer)
      ensures !hit ==> Missed(req) && cacheSets[..] == old(cacheSets[..])
    {
      var s := SetIndex(req.address);
      var hitIndex;
      hit, hitIndex := FindLine(s, TagOf(req.address));
      if hit {
        cacheSets[s] := cacheSets[s].(plru := Touch(cacheSets[s].plru, hitIndex));
        var line := cacheSets[s].lines[hitIndex];
        var stored := StoreIntoLine(line.data, req.address, req.nBytes, ToUnsigned(req.value));
        cacheSets[s] := cacheSets[s].(lines := cacheSets[s].lines[hitIndex := line.(dirty := true, data := stored)]);
      } else {
        RequestLine(req);
      }
    }

    /** A parked request and the phase go together. */
    ghost predicate Phased()
      reads this
    {
      && busy == (phase == WAIT) == cacheRequestBuffer.valid
      && (phase == WAIT ==> WellFormed(cacheRequestBuffer.request) && cacheRequestBuffer.targetWay < NUM_OF_WAYS)
    }

    /** Accept a request: answer a hit at once, start the refill of a miss. */
    method Accept(req: MemRequest)
      requires Valid() && Phased() && !busy && request == NO_REQUEST && loadBuffer == NO_RESPONSE && WellFormed(req)
      modifies this, cacheSets
      ensures Phased() && busy == !old(Cached(cacheSets[..], SetIndex(req.address), TagOf(req.address)))
      ensures busy ==> MissedWith(req) && loadBuffer == NO_RESPONSE && cacheSets[..] == old(cacheSets[..])
      ensures !busy ==> request == NO_REQUEST
      ensures !busy && req.op.Load? ==> HitRead(old(cacheSets[..]), req, loadBuffer.value, cacheSets[..])
      ensures !busy && req.op.Load? ==> loadBuffer == LoadResponse(true, req.memIndex, req.robTag, loadBuffer.value)
      ensures !busy && req.op.Store? ==> HitWrite(old(cacheSets[..]), req, cacheSets[..]) && loadBuffer == NO_RESPONSE
    {
      var hit;
      if req.op.Load? {
        var value;
        hit, value := PrRd(req);
        if hit {
          loadBuffer := LoadResponse(true, req.memIndex, req.robTag, value);
        }
      } else {
        hit := PrWr(req);
      }
      if hit {
        hitCount := hitCount + 1;
      } else {
        missCount := missCount + 1;
        var identified := cacheRequestBuffer.request.(memIndex := req.memIndex, robTag := req.robTag);
        cacheRequestBuffer := cacheRequestBuffer.(request := identified);
        busy := true;
        phase := WAIT;
      }
    }

    /** The line has arrived: fill the way, serve the parked request, and be ready again. */
    method Serve(reply: seq<u8>)
      requires Valid() && Phased() && busy && |reply| == BLOCK && loadBuffer == NO_RESPONSE
      modifies this, cacheSets
      ensures !busy && Phased() && request == NO_REQUEST
      ensures cacheSets[..] == Served(old(cacheSets[..]), old(cacheRequestBuffer), reply)
      ensures var req := old(cacheRequestBuffer.request);
              loadBuffer ==
              if req.op.Load? then LoadResponse(true, req.memIndex, req.robTag, loadBuffer.value) else NO_RESPONSE
      ensures var req := old(cacheRequestBuffer.request); var off := req.address % BLOCK;
              req.op.Load? ==>
                loadBuffer.value == Extend(LittleEndian(reply[off..off + req.nBytes]), req.nBytes, req.isSigned)
    {
      var targetWay, req := cacheRequestBuffer.targetWay, cacheRequestBuffer.request;
      var s, tag := SetIndex(req.address), TagOf(req.address);
      var line := Line(true, false, tag, reply);
      ghost var lines := cacheSets[s].lines;
      cacheSets[s] := cacheSets[s].(lines := cacheSets[s].lines[targetWay := line]);
      cacheSets[s] := cacheSets[s].(plru := Touch(cacheSets[s].plru, targetWay));
      if req.op.Store? {
        var stored := StoreIntoLine(line.data, req.address, req.nBytes, ToUnsigned(req.value));
        cacheSets[s] := cacheSets[s].(lines := cacheSets[s].lines[targetWay := line.(dirty := true, data := stored)]);
        assert cacheSets[s].lines == lines[targetWay := line.(dirty := true, data := stored)];
      } else {
        var value := ExtractBytes(reply, req.address, req.nBytes, req.isSigned);
        loadBuffer := LoadResponse(true, req.memIndex, req.robTag, value);
      }
      cacheRequestBuffer := NO_PARK;
      request := NO_REQUEST;
      busy := false;
      phase := READY;
    }

    /** One clock tick, given the memory's reply and write port as they were at its start. */
    method Tick(decision: Option<MemRequest>, replyReady: bool, writeBusy: bool, reply: seq<u8>)
      requires Valid() && Phased()
      requires decision.Some? ==> !busy && WellFormed(decision.value)
      requires busy && replyReady ==> |reply| == BLOCK
      modifies this, cacheSets
      ensures Phased()
      ensures !old(busy) && decision.None? ==> Quiet() && !busy
      ensures !old(busy) && decision.Some? ==> Accepted(decision.value)
      ensures old(busy) && !(replyReady && !writeBusy) ==> Quiet() && busy && unchanged(`cacheRequestBuffer)
      ensures old(busy) && replyReady && !writeBusy ==> Completed(reply)
    {
      request := NO_REQUEST;
      loadBuffer := NO_RESPONSE;
      if phase == READY {
        if decision.Some? {
          Accept(decision.value);
        }
      } else {
        if replyReady && !writeBusy {
          Serve(reply);
        }
      }
    }

    twostate predicate Quiet()
      reads this, cacheSets
    {
      cacheSets[..] == old(cacheSets[..]) && request == NO_REQUEST && loadBuffer == NO_RESPONSE
    }

    twostate predicate Accepted(req: MemRequest)
      requires WellFormed(req) && old(Valid())
      reads this, cacheSets
    {
      && busy == !old(Cached(cacheSets[..], SetIndex(req.address), TagOf(req.address)))
      && (busy ==> MissedWith(req) && loadBuffer == NO_RESPONSE && cacheSets[..] == old(cacheSets[..]))
      && (!busy ==> request == NO_REQUEST)
      && (!busy && req.op.Load? ==> HitRead(old(cacheSets[..]), req, loadBuffer.value, cacheSets[..])
                                    && loadBuffer == LoadResponse(true, req.memIndex, req.robTag, loadBuffer.value))
      && (!busy && req.op.Store? ==> HitWrite(old(cacheSets[..]), req, cacheSets[..]) && loadBuffer == NO_RESPONSE)
    }

    twostate predicate Completed(reply: seq<u8>)
      requires |reply| == BLOCK && old(Valid() && Phased() && busy)
      reads this, cacheSets
    {
      var req := old(cacheRequestBuffer.request); var off := req.address % BLOCK;
      && !busy && request == NO_REQUEST
      && cacheSets[..] == Served(old(cacheSets[..]), old(cacheRequestBuffer), reply)
      && loadBuffer ==
         (if req.op.Load? then LoadResponse(true, req.memIndex, req.robTag, loadBuffer.value) else NO_RESPONSE)
      && (req.op.Load? ==>
            loadBuffer.value == Extend(LittleEndian(reply[off..off + req.nBytes]), req.nBytes, req.isSigned))
    }

    /** A miss whose parked request also knows which load or store it belongs to. */
    ghost predicate MissedWith(req: MemRequest)
      reads this, cacheSets
    {
      && Missed(req)
      && cacheRequestBuffer.request.memIndex == req.memIndex && cacheRequestBuffer.request.robTag == req.robTag
    }

    /** The miss of this request is under way. */
    ghost predicate Missed(req: MemRequest)
      reads this, cacheSets
    {
      && Shaped(cacheSets[..]) && cacheRequestBuffer.valid
      && Allocated(cacheSets[SetIndex(req.address)], cacheRequestBuffer.targetWay)
      && Parks(cacheRequestBuffer.request, req)
      && request == MissRequest(cacheSets[..], req.address, cacheRequestBuffer.targetWay)
    }
  }

  /** A parked request keeps what serving it needs. */
  predicate Parks(parked: MemRequest, req: MemRequest) {
    && parked.op == req.op && parked.address == req.address && parked.nBytes == req.nBytes
    && (req.op.Load? ==> parked.isSigned == req.isSigned)
    && (req.op.Store? ==> parked.value == req.value)
  }

  /** The cache array after a fill that served its parked request. */
  function Served(sets: seq<CacheSet>, park: Park, reply: seq<u8>): seq<CacheSet>
    requires |sets| == NUM_OF_SETS && park.targetWay < |sets[SetIndex(park.request.address)].lines|
    requires |reply| == BLOCK && WellFormed(park.request)
  {
    var req := park.request;
    var s := SetIndex(req.address);
    var line := Line(true, false, TagOf(req.address), reply);
    var served := if req.op.Store?
                  then line.(dirty := true, data := StoredLine(reply, req.address, req.nBytes, ToUnsigned(req.value)))
                  else line;
    WithLine(WithPlru(sets, s, Touch(sets[s].plru, park.targetWay)), s, park.targetWay, served)
  }

  function MissRequest(sets: seq<CacheSet>, address: u32, way: nat): PortRequest
    requires |sets| == NUM_OF_SETS && way < |sets[SetIndex(address)].lines|
  {
    var victim := sets[SetIndex(address)].lines[way];
    PortRequest(true, ReadRequest(MEM_LATENCY, address / BLOCK * BLOCK), victim.dirty,
                if victim.dirty
                then WriteRequest(MEM_LATENCY, LineAddress(victim.tag, SetIndex(address)), victim.data)
                else NO_WRITE)
  }

  /** The way that holds a cached line. */
  ghost function HitWay(sets: seq<CacheSet>, s: nat, tag: u32): (w: nat)
    requires Shaped(sets) && s < NUM_OF_SETS && Cached(sets, s, tag)
    ensures w < NUM_OF_WAYS && Holds(sets, s, w, tag)
  {
    var w :| 0 <= w < NUM_OF_WAYS && Holds(sets, s, w, tag);
    w
  }

  /** A read hit returns bytes of the line and only marks the way as used. */
  ghost predicate HitRead(sets: seq<CacheSet>, req: MemRequest, value: i32, sets': seq<CacheSet>)
    requires WellFormed(req)
  {
    var s, off := SetIndex(req.address), req.address % BLOCK;
    && Shaped(sets) && Cached(sets, s, TagOf(req.address))
    && var w := HitWay(sets, s, TagOf(req.address));
    && value == Extend(LittleEndian(sets[s].lines[w].data[off..off + req.nBytes]), req.nBytes, req.isSigned)
    && sets' == WithPlru(sets, s, Touch(sets[s].plru, w))
  }

  /** A write hit changes the stored bytes of the line and marks it dirty. */
  ghost predicate HitWrite(sets: seq<CacheSet>, req: MemRequest, sets': seq<CacheSet>)
    requires WellFormed(req)
  {
    var s := SetIndex(req.address);
    && Shaped(sets) && Cached(sets, s, TagOf(req.address))
    && var w := HitWay(sets, s, TagOf(req.address));
    var line := sets[s].lines[w];
    sets' == WithLine(WithPlru(sets, s, Touch(sets[s].plru, w)), s, w,
                      line.(dirty := true,
                            data := StoredLine(line.data, req.address, req.nBytes, ToUnsigned(req.value))))
  }

  /** What a hit used is not replaced next, and stays where it is. */
  lemma UsedIsKept(sets: seq<CacheSet>, req: MemRequest, value: i32, sets': seq<CacheSet>)
    requires WellFormed(req) && Shaped(sets) && SetIndex(req.address) < NUM_OF_SETS
    requires HitRead(sets, req, value, sets') || HitWrite(sets, req, sets')
    ensures var s, tag := SetIndex(req.address), TagOf(req.address);
            && Cached(sets, s, tag) && |sets'| == NUM_OF_SETS && Victim(sets'[s].plru) != HitWay(sets, s, tag)
            && |sets'[s].lines| == NUM_OF_WAYS && sets'[s].lines[HitWay(sets, s, tag)].valid
            && sets'[s].lines[HitWay(sets, s, tag)].tag == tag
  {
  }

  /** What has been filled in is in the cache from then on, and is not replaced next. */
  lemma FilledIsKept(sets: seq<CacheSet>, park: Park, reply: seq<u8>)
    requires Shaped(sets) && SetIndex(park.request.address) < NUM_OF_SETS && park.targetWay < NUM_OF_WAYS
    requires |reply| == BLOCK && WellFormed(park.request)
    ensures var s, sets' := SetIndex(park.request.address), Served(sets, park, reply);
            && |sets'| == NUM_OF_SETS && |sets'[s].lines| == NUM_OF_WAYS && Victim(sets'[s].plru) != park.targetWay
            && sets'[s].lines[park.targetWay].valid && sets'[s].lines[park.targetWay].tag == TagOf(park.request.address)
  {
  }
}
