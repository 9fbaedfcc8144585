/** Cache and memory ticking together: a flat memory with a variable latency. */
module MemoryHierarchy {
  import opened Options
  import opened Bits
  import opened FlatMemory
  import opened DataMemory
  import opened Coherence
  import opened DataCache

  /** A request is served as if the parked copy were the original. */
  lemma ParkedIsSame(mem: seq<u8>, parked: MemRequest, req: MemRequest)
    requires WellFormed(req) && WellFormed(parked) && Parks(parked, req)
    requires parked.memIndex == req.memIndex && parked.robTag == req.robTag
    ensures Apply(mem, parked) == Apply(mem, req)
    ensures req.op.Load? ==> Response(mem, parked) == Response(mem, req)
  {
  }

  /** A read hit returns the flat value and keeps the meaning. */
  lemma ReadHitIsFlat(sets: seq<CacheSet>, mem: seq<u8>, flat: seq<u8>, req: MemRequest, value: i32,
                      sets': seq<CacheSet>)
    requires Coherent(sets, mem, flat) && WellFormed(req) && req.op.Load? && HitRead(sets, req, value, sets')
    ensures Coherent(sets', mem, flat)
    ensures LoadResponse(true, req.memIndex, req.robTag, value) == Response(flat, req)
  {
    var s := SetIndex(req.address);
    var w := HitWay(sets, s, TagOf(req.address));
    PlruIsIrrelevant(sets, mem, flat, s, Touch(sets[s].plru, w));
    FrameOfAddress(req.address);
    assert LineCorrect(sets[s].lines[w], s, flat);
    LineLoad(flat, req);
  }

  /** A write hit has the effect of the store on the flat memory. */
  lemma WriteHitIsFlat(sets: seq<CacheSet>, mem: seq<u8>, flat: seq<u8>, req: MemRequest, sets': seq<CacheSet>)
    requires Coherent(sets, mem, flat) && WellFormed(req) && req.op.Store? && HitWrite(sets, req, sets')
    ensures Coherent(sets', mem, Apply(flat, req))
  {
    var s := SetIndex(req.address);
    var w := HitWay(sets, s, TagOf(req.address));
    var plru := Touch(sets[s].plru, w);
    PlruIsIrrelevant(sets, mem, flat, s, plru);
    assert Holds(WithPlru(sets, s, plru), s, w, TagOf(req.address));
    StoreHit(WithPlru(sets, s, plru), mem, flat, w, req.address, req.nBytes, ToUnsigned(req.value));
  }

  /** A fill that serves its parked request returns the flat value or has the effect of the store. */
  lemma ServeIsFlat(sets: seq<CacheSet>, mem: seq<u8>, flat: seq<u8>, park: Park, reply: seq<u8>)
    requires Coherent(sets, mem, flat) && WellFormed(park.request) && park.targetWay < NUM_OF_WAYS
    requires SetIndex(park.request.address) < NUM_OF_SETS
    requires !Cached(sets, SetIndex(park.request.address), TagOf(park.request.address))
    requires Droppable(sets[SetIndex(park.request.address)].lines[park.targetWay], SetIndex(park.request.address), mem)
    requires reply == Block(mem, park.request.address / BLOCK)
    ensures Coherent(Served(sets, park, reply), mem, Apply(flat, park.request))
    ensures reply == Block(flat, park.request.address / BLOCK)
  {
    var req, w := park.request, park.targetWay;
    var s, tag := SetIndex(req.address), TagOf(req.address);
    var plru := Touch(sets[s].plru, w);
    var filled := WithLine(sets, s, w, Line(true, false, tag, reply));
    Fill(sets, mem, flat, w, req.address);
    FrameOfAddress(req.address);
    assert LineCorrect(filled[s].lines[w], s, flat);
    PlruIsIrrelevant(filled, mem, flat, s, plru);
    var touched := WithPlru(filled, s, plru);
    if req.op.Store? {
      assert Holds(touched, s, w, tag);
      StoreHit(touched, mem, flat, w, req.address, req.nBytes, ToUnsigned(req.value));
      assert touched[s].lines[w := Served(sets, park, reply)[s].lines[w]] == Served(sets, park, reply)[s].lines;
      assert WithLine(touched, s, w, Served(sets, park, reply)[s].lines[w]) == Served(sets, park, reply);
    } else {
      assert touched == Served(sets, park, reply);
    }
  }

  class Hierarchy {
    const cache: DCache
    const dmem: DMEM
    ghost var flat: seq<u8>

    ghost predicate Separate()
    {
      dmem.mem as object != cache.cacheSets
    }

    /** The line the parked request will replace. */
    ghost function VictimLine(): Line
      requires Shaped(cache.cacheSets[..]) && cache.cacheRequestBuffer.targetWay < NUM_OF_WAYS
      reads cache, cache.cacheSets
    {
      cache.cacheSets[SetIndex(cache.cacheRequestBuffer.request.address)].lines[cache.cacheRequestBuffer.targetWay]
    }

    ghost predicate MemoryIdle()
      reads dmem
    {
      !dmem.readBusy && !dmem.writeBusy
    }

    /** The request pulse is on the wires; the memory will claim it in the next tick. */
    ghost predicate Requested()
      requires Shaped(cache.cacheSets[..]) && cache.cacheRequestBuffer.targetWay < NUM_OF_WAYS
      reads cache, cache.cacheSets, dmem
    {
      && MemoryIdle() && !dmem.readBufferValid
      && cache.request == MissRequest(cache.cacheSets[..], cache.cacheRequestBuffer.request.address,
                                      cache.cacheRequestBuffer.targetWay)
    }

    /** Refill and write-back count down in lockstep; the victim goes to its own frame. */
    ghost predicate InFlight()
      requires Shaped(cache.cacheSets[..]) && cache.cacheRequestBuffer.targetWay < NUM_OF_WAYS
      reads cache, cache.cacheSets, dmem
    {
      var address := cache.cacheRequestBuffer.request.address;
      var remain := dmem.readExecute.remainCycle;
      && cache.request == NO_REQUEST && dmem.readBusy && !dmem.readBufferValid
      && 1 <= remain <= MEM_LATENCY && dmem.readExecute.address == address / BLOCK * BLOCK
      && dmem.writeBusy == VictimLine().dirty
      && (dmem.writeBusy ==>
            dmem.writeExecute == WriteRequest(remain, LineAddress(VictimLine().tag, SetIndex(address)),
                                              VictimLine().data))
    }

    /** The line is in the reply buffer, for this tick only, and the victim is safe in memory. */
    ghost predicate Replied()
      requires Shaped(cache.cacheSets[..]) && cache.cacheRequestBuffer.targetWay < NUM_OF_WAYS
      reads cache, cache.cacheSets, dmem, dmem.mem
    {
      var address := cache.cacheRequestBuffer.request.address;
      && cache.request == NO_REQUEST && MemoryIdle() && dmem.readBufferValid
      && dmem.readOutputBuffer == Block(dmem.mem[..], address / BLOCK)
      && Droppable(VictimLine(), SetIndex(address), dmem.mem[..])
    }

    ghost predicate Valid()
      reads this, cache, cache.cacheSets, dmem, dmem.mem
    {
      && Separate() && cache.Phased()
      && Coherent(cache.cacheSets[..], dmem.mem[..], flat)
      && (!cache.busy ==> cache.request == NO_REQUEST && MemoryIdle() && !dmem.readBufferValid)
      && (cache.busy ==>
            && var address := cache.cacheRequestBuffer.request.address;
            && !Cached(cache.cacheSets[..], SetIndex(address), TagOf(address))
            && (Requested() || InFlight() || Replied()))
    }

    /** The memory a program sees: every accepted request has taken effect. */
    ghost function Logical(): seq<u8>
      requires Valid()
      reads this, cache, cache.cacheSets, dmem, dmem.mem
    {
      if cache.busy then Apply(flat, cache.cacheRequestBuffer.request) else flat
    }

    /** The ticks until the parked request is served. */
    ghost function TicksLeft(): nat
      requires Valid()
      reads this, cache, cache.cacheSets, dmem, dmem.mem
    {
      if !cache.busy then 0
      else if dmem.readBusy then dmem.readExecute.remainCycle + 1
      else if dmem.readBufferValid then 1
      else MEM_LATENCY + 2
    }

    constructor (image: seq<u8>)
      requires |image| == MEM_SIZE
      ensures Valid() && !cache.busy && Logical() == image
      ensures fresh(cache) && fresh(dmem) && fresh(cache.cacheSets) && fresh(dmem.mem)
    {
      cache := new DCache();
      dmem := new DMEM(image);
      flat := image;
    }

    /** A tick with a free cache: a hit is answered at once, a miss is parked. */
    method TickFree(decision: Option<MemRequest>) returns (response: LoadResponse)
      requires Valid() && !cache.busy && (decision.Some? ==> WellFormed(decision.value))
      modifies this, cache, cache.cacheSets, dmem, dmem.mem
      ensures Valid()
      ensures Logical() == if decision.Some? then Apply(old(Logical()), decision.value) else old(Logical())
      ensures cache.busy == (decision.Some? && old(Misses(decision.value)))
      ensures response == if decision.Some? && decision.value.op.Load? && !cache.busy
                          then Response(old(Logical()), decision.value) else NO_RESPONSE
      ensures cache.busy ==> TicksLeft() == 22 && Parked(decision.value)
    {
      hide LoadValue, StoreBytes, Extend, LittleEndian, Touch, BlockWritten, Block, LineCorrect, Backed, Unique;
      var request := cache.request;
      ghost var sets, mem := cache.cacheSets[..], dmem.mem[..];
      var replyReady, writeBusy, reply := dmem.readBufferValid, dmem.writeBusy, dmem.readOutputBuffer;
      dmem.Tick(request);
      cache.Tick(decision, replyReady, writeBusy, reply);
      response := cache.loadBuffer;
      if decision.Some? && !cache.busy {
        if decision.value.op.Load? {
          ReadHitIsFlat(sets, mem, flat, decision.value, response.value, cache.cacheSets[..]);
        } else {
          WriteHitIsFlat(sets, mem, flat, decision.value, cache.cacheSets[..]);
          flat := Apply(flat, decision.value);
        }
      } else if decision.Some? {
        ParkedIsSame(flat, cache.cacheRequestBuffer.request, decision.value);
      }
    }

    /** A tick with a parked request: its refill comes one tick closer, and at last it is served. */
    method TickBusy() returns (response: LoadResponse)
      requires Valid() && cache.busy
      modifies this, cache, cache.cacheSets, dmem, dmem.mem
      ensures Valid() && Logical() == old(Logical()) && TicksLeft() == old(TicksLeft()) - 1
      ensures cache.busy ==> response == NO_RESPONSE && unchanged(cache`cacheRequestBuffer)
      ensures !cache.busy ==>
        var req := old(cache.cacheRequestBuffer.request);
        response == if req.op.Load? then Response(old(Logical()), req) else NO_RESPONSE
    {
      hide StoreBytes, Extend, LittleEndian, Touch, BlockWritten, HitRead, HitWrite, Backed, Unique, Served, Frame,
        LineAddress;
      var request := cache.request;
      var replyReady, writeBusy, reply := dmem.readBufferValid, dmem.writeBusy, dmem.readOutputBuffer;
      ghost var sets, mem, park := cache.cacheSets[..], dmem.mem[..], cache.cacheRequestBuffer;
      FrameOfAddress(park.request.address);
      assert LineCorrect(VictimLine(), SetIndex(park.request.address), flat);
      if VictimLine().dirty {
        LineAddressIsFrame(VictimLine().tag, SetIndex(park.request.address));
      }
      dmem.Tick(request);
      cache.Tick(None, replyReady, writeBusy, reply);
      response := cache.loadBuffer;
      if !cache.busy {
        ServeIsFlat(sets, mem, flat, park, reply);
        LineLoad(flat, park.request);
        flat := Apply(flat, park.request);
      } else {
        LineReturned(sets, mem, dmem.mem[..], flat, park, old(dmem.WriteCompletes()));
        if old(dmem.ReadCompletes()) {
          assert Replied();
        } else {
          assert InFlight();
        }
      }
    }

    /**
      One clock tick; both modules act on the state at its start. The memory a program sees changes
      exactly by the request accepted in this tick. A hit is answered in the tick itself, a miss
      exactly 22 ticks after the one that accepted it, and both with the flat memory's value.
     */
    method Tick(decision: Option<MemRequest>) returns (response: LoadResponse)
      requires Valid()
      requires decision.Some? ==> !cache.busy && WellFormed(decision.value)
      modifies this, cache, cache.cacheSets, dmem, dmem.mem
      ensures Valid()
      ensures Logical() == if decision.Some? then Apply(old(Logical()), decision.value) else old(Logical())
      ensures !old(cache.busy) ==>
        && cache.busy == (decision.Some? && old(Misses(decision.value)))
        && response == if decision.Some? && decision.value.op.Load? && !cache.busy
                       then Response(old(Logical()), decision.value) else NO_RESPONSE
      ensures !old(cache.busy) && cache.busy ==> TicksLeft() == 22 && Parked(decision.value)
      ensures old(cache.busy) ==> TicksLeft() == old(TicksLeft()) - 1
      ensures old(cache.busy) && cache.busy ==> response == NO_RESPONSE && unchanged(cache`cacheRequestBuffer)
      ensures old(cache.busy) && !cache.busy ==>
        var req := old(cache.cacheRequestBuffer.request);
        response == if req.op.Load? then Response(old(Logical()), req) else NO_RESPONSE
    {
      hide Valid, Logical, TicksLeft, Misses, Apply, Response, Parked;
      if cache.busy {
        response := TickBusy();
      } else {
        response := TickFree(decision);
      }
    }

    ghost predicate Misses(req: MemRequest)
      requires Shaped(cache.cacheSets[..])
      reads cache.cacheSets
    {
      !Cached(cache.cacheSets[..], SetIndex(req.address), TagOf(req.address))
    }

    /**
      A sequence of requests, each offered when the cache is free: the loads are answered once each,
      in order, as the flat memory answers them, the stores take effect once each, and no request
      takes more than 23 ticks.
     */
    method Run(reqs: seq<MemRequest>) returns (responses: seq<LoadResponse>, ticks: nat)
      requires Valid() && !cache.busy && forall req :: req in reqs ==> WellFormed(req)
      modifies this, cache, cache.cacheSets, dmem, dmem.mem
      ensures Valid() && !cache.busy
      ensures (responses, Logical()) == FlatRun(old(Logical()), reqs)
      ensures |reqs| <= ticks <= 23 * |reqs|
    {
      ghost var start := Logical();
      responses, ticks := [], 0;
      for i := 0 to |reqs|
        invariant Valid() && !cache.busy
        invariant (responses, Logical()) == FlatRun(start, reqs[..i])
        invariant i <= ticks <= 23 * i
      {
        var req := reqs[i];
        ghost var before, answered := Logical(), responses;
        assert reqs[..i] + [req] == reqs[..i + 1];
        FlatRunAppend(start, reqs[..i], req);
        var response := Tick(Some(req));
        ticks := ticks + 1;
        while cache.busy
          invariant Valid() && Logical() == Apply(before, req)
          invariant cache.busy ==>
                      && response == NO_RESPONSE && Parked(req)
                      && 1 <= TicksLeft() && ticks + TicksLeft() <= 23 * (i + 1)
          invariant !cache.busy ==> response == if req.op.Load? then Response(before, req) else NO_RESPONSE
          invariant i + 1 <= ticks <= 23 * (i + 1)
          decreases TicksLeft()
        {
          ParkedIsSame(Logical(), cache.cacheRequestBuffer.request, req);
          response := Tick(None);
          ticks := ticks + 1;
        }
        if response.valid {
          responses := responses + [response];
        }
        assert answered + [] == answered;
      }
      assert reqs[..|reqs|] == reqs;
    }

    /** The parked request is the accepted one. */
    ghost predicate Parked(req: MemRequest)
      reads cache
    {
      var parked := cache.cacheRequestBuffer.request;
      Parks(parked, req) && parked.memIndex == req.memIndex && parked.robTag == req.robTag
    }
  }

  /** Reading a line while the victim of the same set is written back to its own, different line. */
  lemma LineReturned(sets: seq<CacheSet>, mem: seq<u8>, mem': seq<u8>, flat: seq<u8>, park: Park, wrote: bool)
    requires Coherent(sets, mem, flat) && park.targetWay < NUM_OF_WAYS && SetIndex(park.request.address) < NUM_OF_SETS
    requires !Cached(sets, SetIndex(park.request.address), TagOf(park.request.address))
    requires var victim := sets[SetIndex(park.request.address)].lines[park.targetWay];
             if wrote
             then
               && victim.dirty
               && BlockWritten(mem, Frame(victim.tag, SetIndex(park.request.address)), victim.data, mem')
             else mem' == mem
    ensures Coherent(sets, mem', flat)
    ensures Block(mem', park.request.address / BLOCK) == Block(mem, park.request.address / BLOCK)
    ensures var victim := sets[SetIndex(park.request.address)].lines[park.targetWay];
            wrote || !victim.dirty ==> Droppable(victim, SetIndex(park.request.address), mem')
  {
    var s, w := SetIndex(park.request.address), park.targetWay;
    FrameOfAddress(park.request.address);
    if !sets[s].lines[w].dirty {
      CleanIsDroppable(sets, mem, flat, s, w);
    }
    if wrote {
      WriteBack(sets, mem, mem', flat, s, w);
      assert !Holds(sets, s, w, TagOf(park.request.address));
      assert LineCorrect(sets[s].lines[w], s, flat);
    }
  }
}
