/** The connection engine of XPlaneUDP.cpp/.hpp: the registration table, the
    slot allocator and register bank beside it, the frequency changes, the
    reads, the datagram receiver and the edge-triggered connection state.
    Sockets are replaced by a `socketOpen` flag and an event trace: a frame
    handed to `sendData` is recorded only while the unicast socket is open,
    and each call of the user's callback is recorded after it. */
module Client {
  import opened Bytes
  import opened Codec
  import opened Protocol
  import opened Slots

  /** One registration: a scalar (`start == end`) or an array element range
      [start, end]; `available` is false while disabled. */
  datatype DatarefInfo = DatarefInfo(
    name: seq<byte>, start: int, end: int, freq: int, available: bool, isArray: bool)

  /** What the client does that can be observed: a request handed to
      `sendData` (its bytes are `Wire(request)`), or a call of the user's
      state callback. */
  datatype Event = Sent(request: Request) | Notified(state: bool)

  /** The simulator's unicast endpoint, learnt from the first beacon. */
  datatype Peer = NoPeer | Peer(address: nat, port: nat)

  /** The trace entries for requests handed to `sendData`: none while the
      socket is closed. */
  function Emitted(open: bool, qs: seq<Request>): (r: seq<Event>)
    ensures |r| == if open then |qs| else 0
  {
    if !open || qs == [] then [] else Emitted(open, qs[..|qs| - 1]) + [Sent(qs[|qs| - 1])]
  }

  /** While the socket is open, the i-th event is the i-th request sent;
      while it is closed there is none. */
  lemma {:induction false} EmittedSends(open: bool, qs: seq<Request>)
    ensures !open ==> Emitted(open, qs) == []
    ensures open ==> forall i :: 0 <= i < |qs| ==> Emitted(open, qs)[i] == Sent(qs[i])
  {
    if open && qs != [] {
      EmittedSends(open, qs[..|qs| - 1]);
    }
  }

  lemma {:induction false} EmittedAppend(open: bool, a: seq<Request>, b: seq<Request>)
    ensures Emitted(open, a + b) == Emitted(open, a) + Emitted(open, b)
    decreases |b|
  {
    if open && b != [] {
      assert (a + b)[..|a + b| - 1] == a + b[..|b| - 1];
      EmittedAppend(open, a, b[..|b| - 1]);
    } else if b == [] {
      assert a + b == a;
    }
  }

  /** One more request extends the trace by its event. */
  lemma EmittedStep(open: bool, t0: seq<Event>, qs: seq<Request>, i: nat)
    requires i < |qs|
    ensures t0 + Emitted(open, qs[..i]) + Emitted(open, [qs[i]]) == t0 + Emitted(open, qs[..i + 1])
  {
    assert qs[..i + 1] == qs[..i] + [qs[i]];
    EmittedAppend(open, qs[..i], [qs[i]]);
  }

  /** The name registered for `addDataref(dataref, freq, index)`. */
  function ScalarName(dataref: seq<byte>, index: int): seq<byte>
  {
    if index == -1 then dataref else Indexed(dataref, index)
  }

  /** The name `reconnect` sends for slot `start + k` of a record. */
  function ElementName(r: DatarefInfo, k: int): seq<byte>
  {
    if r.isArray then Indexed(r.name, k) else r.name
  }

  /** `reconnect`'s requests for one record: one per slot, carrying the
      record's stored frequency and the slot index as `int` fields. */
  function ReplayRecord(r: DatarefInfo): seq<Request>
  {
    if !r.available || r.end < r.start then []
    else seq(r.end - r.start + 1, k => Rref(I32(r.freq), I32(r.start + k), ElementName(r, k)))
  }

  /** An enabled record replays one request per slot, slot `start + k` k-th. */
  lemma ReplayRecordShape(r: DatarefInfo)
    requires r.available
    ensures |ReplayRecord(r)| == if r.end < r.start then 0 else r.end - r.start + 1
    ensures forall k :: 0 <= k < |ReplayRecord(r)|
              ==> ReplayRecord(r)[k] == Rref(I32(r.freq), I32(r.start + k), ElementName(r, k))
  {
  }

  function ReplayAll(recs: seq<DatarefInfo>): seq<Request>
  {
    if recs == [] then [] else ReplayAll(recs[..|recs| - 1]) + ReplayRecord(recs[|recs| - 1])
  }

  /** One more record extends the replay trace by that record's requests. */
  lemma ReplayStep(open: bool, t0: seq<Event>, recs: seq<DatarefInfo>, j: nat)
    requires j < |recs|
    ensures t0 + Emitted(open, ReplayAll(recs[..j])) + Emitted(open, ReplayRecord(recs[j]))
         == t0 + Emitted(open, ReplayAll(recs[..j + 1]))
  {
    hide Emitted, ReplayRecord;
    assert recs[..j + 1][..j] == recs[..j];
    EmittedAppend(open, ReplayAll(recs[..j]), ReplayRecord(recs[j]));
  }

  /** Everything `reconnect(del)` sends: the record requests, then the info
      sentence when info was subscribed. `del` zeroes only the sentence. */
  function ReconnectRequests(recs: seq<DatarefInfo>, infoFreq: int, del: bool): seq<Request>
  {
    ReplayAll(recs) + (if infoFreq == 0 then [] else [Info(if del then 0 else infoFreq)])
  }

  /** A disabled record moved to the run `findSpace` claims for its width. */
  function Reenabled(r: DatarefInfo, space: seq<bool>): (r': DatarefInfo)
    requires r.start <= r.end
    ensures r'.name == r.name && r'.freq == r.freq && r'.isArray == r.isArray && r'.available
    ensures r'.end - r'.start == r.end - r.start
  {
    var w := r.end - r.start + 1;
    r.(available := true, start := Allocation(space, w), end := Allocation(space, w) + w - 1)
  }

  /** The requests `changeDatarefFreq` sends with a non-zero frequency: the
      frequency is packed as a `float`; a scalar's slot as an `int`, but an
      array element's slot `start + i` as a `size_t`, since the loop counter
      is one. */
  function FreqRequests(r: DatarefInfo, freqBits: nat): seq<Request>
    requires freqBits < 0x1_0000_0000
  {
    if !r.isArray then [Rref(F32(freqBits), I32(r.start), r.name)]
    else if r.end < r.start then []
    else seq(r.end - r.start + 1, k => Rref(F32(freqBits), U64(r.start + k), Indexed(r.name, k)))
  }

  /** The requests `addDatarefArray` sends: one per element. */
  function ArrayRequests(name: seq<byte>, start: int, length: nat, freq: int): seq<Request>
  {
    seq(length, k => Rref(I32(freq), I32(start + k), Indexed(name, k)))
  }

  /** The requests `setDatarefArray` sends: one `DREF` per element. */
  function SetRequests(name: seq<byte>, valueBits: seq<nat>): seq<Request>
    requires forall k :: 0 <= k < |valueBits| ==> valueBits[k] < 0x1_0000_0000
  {
    seq(|valueBits|, k requires 0 <= k < |valueBits| => Dref(F32(valueBits[k]), Indexed(name, k)))
  }

  /** What a change of the connection state to `newState` appends: on a
      rising edge with auto-reconnect the replay of every subscription, then
      the callback's notification when a callback is set. */
  function EdgeEvents(newState: bool, recs: seq<DatarefInfo>, infoFreq: int, autoReconnect: bool,
                      hasCallback: bool, open: bool): seq<Event>
  {
    (if newState && autoReconnect then Emitted(open, ReconnectRequests(recs, infoFreq, false)) else [])
    + (if hasCallback then [Notified(newState)] else [])
  }

  /** A record's shape, and while enabled, its slots exist and are occupied. */
  predicate RecordFits(r: DatarefInfo, space: seq<bool>) {
    0 <= r.start <= r.end
    && (!r.isArray ==> r.start == r.end)
    && (r.available ==> r.end < |space| && forall k :: r.start <= k <= r.end ==> space[k])
  }

  predicate Apart(a: DatarefInfo, b: DatarefInfo) {
    a.end < b.start || b.end < a.start
  }

  /** The window [start, start + length) misses the record's range. */
  predicate OutsideWindow(r: DatarefInfo, start: nat, length: nat) {
    r.end < start || start + length <= r.start
  }

  /** The k-th 8-byte value record `(index:int, value:float)` of an `RREF`
      datagram whose records start at byte pos. */
  function IndexOfRecord(data: seq<byte>, pos: nat, k: nat): int
    requires pos + 8 * k + 8 <= |data|
  {
    assert Pow256(4) == 0x1_0000_0000;
    ToInt32(WordValue(data[pos + 8 * k..pos + 8 * k + 4]))
  }

  function ValueOfRecord(data: seq<byte>, pos: nat, k: nat): nat
    requires pos + 8 * k + 8 <= |data|
  {
    WordValue(data[pos + 8 * k + 4..pos + 8 * k + 8])
  }

  /** `values[index] = value`, for an index inside the register bank. */
  function Store(values: seq<nat>, index: int, value: nat): (r: seq<nat>)
  {
    if 0 <= index < |values| then values[index := value] else values
  }

  /** The register bank after the first `count` records from byte pos,
      applied in order. */
  function ApplyRecords(values: seq<nat>, data: seq<byte>, pos: nat, count: nat): (r: seq<nat>)
    requires pos + 8 * count <= |data|
    ensures |r| == |values|
  {
    if count == 0 then values
    else Store(ApplyRecords(values, data, pos, count - 1),
               IndexOfRecord(data, pos, count - 1), ValueOfRecord(data, pos, count - 1))
  }

  /** A cell no record names keeps its value. */
  lemma {:induction false} ApplyRecordsUntouched(values: seq<nat>, data: seq<byte>, pos: nat, count: nat, j: nat)
    requires pos + 8 * count <= |data| && j < |values|
    requires forall m :: 0 <= m < count ==> IndexOfRecord(data, pos, m) != j
    ensures ApplyRecords(values, data, pos, count)[j] == values[j]
  {
    if count > 0 {
      assert IndexOfRecord(data, pos, count - 1) != j;
      ApplyRecordsUntouched(values, data, pos, count - 1, j);
    }
  }

  /** A cell takes the value of the last record that names it. */
  lemma {:induction false} ApplyRecordsLastWins(values: seq<nat>, data: seq<byte>, pos: nat, count: nat, k: nat, j: nat)
    requires pos + 8 * count <= |data| && k < count && j < |values|
    requires IndexOfRecord(data, pos, k) == j
    requires forall m :: k < m < count ==> IndexOfRecord(data, pos, m) != j
    ensures ApplyRecords(values, data, pos, count)[j] == ValueOfRecord(data, pos, k)
  {
    if k < count - 1 {
      assert IndexOfRecord(data, pos, count - 1) != j;
      ApplyRecordsLastWins(values, data, pos, count - 1, k, j);
    }
  }

  /** The scalar `getDataref` as written in XPlaneUDP.cpp:164: an enabled
      handle reads the register cell whose number is the handle itself,
      not the record's slot. */
  function GetDatarefAsWritten(dataRefs: seq<DatarefInfo>, values: seq<nat>, h: nat, defaultValue: nat): (nat, bool)
    requires h < |dataRefs|
    requires dataRefs[h].available ==> h < |values|
  {
    if !dataRefs[h].available then (defaultValue, false) else (values[h], true)
  }

  /** An array `X` of three slots (handle 0, slots 0..2) then a scalar `Y`
      (handle 1, slot 3): as written, reading `Y` yields `X[1]`'s cell. */
  lemma GetDatarefAsWrittenReadsWrongSlot(x: seq<byte>, y: seq<byte>)
    ensures var recs := [DatarefInfo(x, 0, 2, 1, true, true), DatarefInfo(y, 3, 3, 1, true, false)];
            var values: seq<nat> := [10, 11, 12, 13];
            GetDatarefAsWritten(recs, values, 1, 0) == (11, true)
            && values[recs[1].start] == 13
  {
  }

  /** The bookkeeping invariant: the register bank covers the bit-vector,
      every enabled record owns occupied slots disjoint from every other
      enabled record's, and `exist` maps each name to its own record. */
  ghost predicate Consistent(recs: seq<DatarefInfo>, values: seq<nat>, space: seq<bool>, exist: map<seq<byte>, nat>) {
    |values| >= |space|
    && (forall h :: 0 <= h < |recs| ==> RecordFits(recs[h], space))
    && (forall h, g :: 0 <= h < g < |recs| && recs[h].available && recs[g].available
          ==> Apart(recs[h], recs[g]))
    && (forall h :: 0 <= h < |recs| ==> recs[h].name in exist && exist[recs[h].name] == h)
    && (forall n :: n in exist ==> exist[n] < |recs|)
  }

  /** Only the register bank's length matters to the invariant. */
  lemma ValuesConsistent(recs: seq<DatarefInfo>, values: seq<nat>, values': seq<nat>, space: seq<bool>,
                         exist: map<seq<byte>, nat>)
    requires Consistent(recs, values, space, exist) && |values'| == |values|
    ensures Consistent(recs, values', space, exist)
  {
  }

  /** A new record on slots no enabled record uses, under a new name. */
  lemma AddRecordConsistent(recs: seq<DatarefInfo>, values: seq<nat>, space: seq<bool>,
                            exist: map<seq<byte>, nat>, r: DatarefInfo)
    requires Consistent(recs, values, space, exist)
    requires r.name !in exist && RecordFits(r, space)
    requires forall h :: 0 <= h < |recs| && recs[h].available ==> Apart(recs[h], r)
    ensures Consistent(recs + [r], values, space, exist[r.name := |recs|])
  {
    var recs' := recs + [r];
    forall h | 0 <= h < |recs'|
      ensures recs'[h].name in exist[r.name := |recs|] && exist[r.name := |recs|][recs'[h].name] == h
    {
      if h < |recs| {
        assert recs'[h] == recs[h];
      }
    }
  }

  /** Disabling record h and clearing its slots. */
  lemma DisableConsistent(recs: seq<DatarefInfo>, values: seq<nat>, space: seq<bool>,
                          exist: map<seq<byte>, nat>, h: nat)
    requires Consistent(recs, values, space, exist) && h < |recs| && recs[h].available
    ensures recs[h].start + (recs[h].end - recs[h].start + 1) <= |space|
    ensures Consistent(recs[h := recs[h].(available := false)], values,
                       Fill(space, recs[h].start, recs[h].end - recs[h].start + 1, false), exist)
  {
    var r := recs[h];
    var space' := Fill(space, r.start, r.end - r.start + 1, false);
    var recs' := recs[h := r.(available := false)];
    forall g | 0 <= g < |recs'|
      ensures RecordFits(recs'[g], space')
    {
      if g != h && recs[g].available {
        if g < h {
          assert Apart(recs[g], r);
        } else {
          assert Apart(r, recs[g]);
        }
      }
    }
  }

  /** Record h moved to slots no other enabled record uses, and enabled. */
  lemma ReplaceRecordConsistent(recs: seq<DatarefInfo>, values: seq<nat>, space: seq<bool>,
                                exist: map<seq<byte>, nat>, h: nat, r: DatarefInfo)
    requires Consistent(recs, values, space, exist) && h < |recs|
    requires r.name == recs[h].name && RecordFits(r, space)
    requires forall g :: 0 <= g < |recs| && g != h && recs[g].available ==> Apart(recs[g], r)
    ensures Consistent(recs[h := r], values, space, exist)
  {
    var recs' := recs[h := r];
    forall g, g' | 0 <= g < g' < |recs'| && recs'[g].available && recs'[g'].available
      ensures Apart(recs'[g], recs'[g'])
    {
      if g == h {
        assert Apart(recs[g'], r);
      } else if g' != h {
        assert Apart(recs[g], recs[g']);
      }
    }
  }

  class XPlaneUdp {
    var dataRefs: seq<DatarefInfo>
    var values: seq<nat>
    var space: seq<bool>
    var exist: map<seq<byte>, nat>
    var info: PlaneInfo
    var autoReconnect: bool
    var socketOpen: bool
    var peer: Peer
    var infoFreq: int
    var state: bool
    var hasCallback: bool
    var trace: seq<Event>

    ghost predicate Valid()
      reads this
    {
      Consistent(dataRefs, values, space, exist)
    }

    /** The state the constructor leaves before it opens the multicast
        socket (not modelled). */
    constructor (autoReConnect: bool)
      ensures Valid()
      ensures dataRefs == [] && values == [] && space == [] && exist == map[]
      ensures info == INITIAL_INFO && autoReconnect == autoReConnect
      ensures !socketOpen && peer == NoPeer && infoFreq == 0 && !state && !hasCallback && trace == []
    {
      dataRefs, values, space, exist := [], [], [], map[];
      info := INITIAL_INFO;
      autoReconnect := autoReConnect;
      socketOpen, peer, infoFreq, state := false, NoPeer, 0, false;
      hasCallback, trace := false, [];
    }

    /** `setCallback`: an empty `std::function` is never called. */
    method SetCallback(present: bool)
      modifies this`hasCallback
      ensures hasCallback == present
    {
      hasCallback := present;
    }

    /** `sendData`: the frame goes out only while the unicast socket is open. */
    method SendData(q: Request)
      modifies this`trace
      ensures trace == old(trace) + Emitted(socketOpen, [q])
    {
      if socketOpen {
        trace := trace + [Sent(q)];
      }
    }

    /** `extendSpace`, with the bound fixed so that the register bank grows to
        the bit-vector's length. */
    method ExtendSpace()
      modifies this`values
      ensures values == Grown(old(values), |space|)
    {
      ghost var added: nat := 0;
      while |values| < |space|
        invariant values == old(values) + seq(added, _ => 0)
        invariant added > 0 ==> |values| <= |space|
        decreases |space| - |values|
      {
        values := values + [0];
        assert seq(added + 1, _ => 0) == seq(added, _ => 0) + [0];
        added := added + 1;
      }
      if added == 0 {
        assert values == old(values);
      } else {
        assert |values| == |space|;
        assert forall k :: 0 <= k < |values| ==> values[k] == Grown(old(values), |space|)[k];
      }
    }

    /** `findSpace`, with the reuse path marking exactly the claimed window:
        the first free run of `length` slots, or `length` new slots at the
        end; the register bank grows with the bit-vector. The window is
        occupied afterwards and overlaps no enabled record. */
    method FindSpace(length: nat) returns (start: nat)
      requires Valid() && length >= 1
      modifies this`space, this`values
      ensures start == Allocation(old(space), length) && space == Claimed(old(space), length)
      ensures values == Grown(old(values), |space|)
      ensures start + length <= |space| && forall k :: start <= k < start + length ==> space[k]
      ensures forall h :: 0 <= h < |dataRefs| && dataRefs[h].available ==> OutsideWindow(dataRefs[h], start, length)
      ensures Valid()
    {
      ghost var before := space;
      ClaimWindow(before, length);
      var found, s := ScanFree(space, length);
      if found {
        space := Fill(space, s, length, true);
        ExtendSpace();
        start := s;
      } else {
        var i := 0;
        while i < length
          invariant 0 <= i <= length
          invariant space == before + seq(i, _ => true)
          invariant values == old(values)
        {
          space := space + [true];
          i := i + 1;
        }
        ExtendSpace();
        start := |space| - length;
      }
      forall h | 0 <= h < |dataRefs| && dataRefs[h].available
        ensures OutsideWindow(dataRefs[h], start, length)
      {
        var r := dataRefs[h];
        var k := if r.start < start then start else r.start;
        if k <= r.end {
          assert before[k];
        }
      }
    }

    /** `addDataref`: a known name returns its handle and changes nothing;
        otherwise one slot is claimed, a scalar record appended, its request
        sent (the slot index is a `size_t`, so 8 bytes) and its name mapped
        to the new handle. */
    method AddDataref(dataref: seq<byte>, freq: int, index: int) returns (h: nat)
      requires Valid()
      modifies this`dataRefs, this`space, this`values, this`exist, this`trace
      ensures Valid()
      ensures var name := ScalarName(dataref, index);
              if name in old(exist) then
                h == old(exist)[name] && dataRefs == old(dataRefs) && space == old(space)
                && values == old(values) && exist == old(exist) && trace == old(trace)
              else
                var s := Allocation(old(space), 1);
                h == |old(dataRefs)|
                && dataRefs == old(dataRefs) + [DatarefInfo(name, s, s, freq, true, false)]
                && space == Claimed(old(space), 1) && values == Grown(old(values), |space|)
                && exist == old(exist)[name := h]
                && trace == old(trace) + Emitted(socketOpen, [Rref(I32(freq), U64(s), name)])
    {
      var name := ScalarName(dataref, index);
      if name in exist {
        return exist[name];
      }
      h := AddScalarRecord(name, freq);
    }

    /** The registration path of `addDataref`, for a name not yet known. */
    method AddScalarRecord(name: seq<byte>, freq: int) returns (h: nat)
      requires Valid() && name !in exist
      modifies this`dataRefs, this`space, this`values, this`exist, this`trace
      ensures Valid()
      ensures var s := Allocation(old(space), 1);
              h == |old(dataRefs)|
              && dataRefs == old(dataRefs) + [DatarefInfo(name, s, s, freq, true, false)]
              && space == Claimed(old(space), 1) && values == Grown(old(values), |space|)
              && exist == old(exist)[name := h]
              && trace == old(trace) + Emitted(socketOpen, [Rref(I32(freq), U64(s), name)])
    {
      var start := FindSpace(1);
      var r := DatarefInfo(name, start, start, freq, true, false);
      AddRecordConsistent(dataRefs, values, space, exist, r);
      dataRefs := dataRefs + [r];
      SendData(Rref(I32(freq), U64(start), name));
      exist := exist[name := |dataRefs| - 1];
      h := |dataRefs| - 1;
    }

    /** `addDatarefArray`: a known name returns its handle and changes
        nothing; otherwise `length` slots are claimed, an array record
        appended, one request per element sent and the name mapped. */
    method AddDatarefArray(dataref: seq<byte>, length: nat, freq: int) returns (h: nat)
      requires Valid() && length >= 1
      modifies this`dataRefs, this`space, this`values, this`exist, this`trace
      ensures Valid()
      ensures if dataref in old(exist) then
                h == old(exist)[dataref] && dataRefs == old(dataRefs) && space == old(space)
                && values == old(values) && exist == old(exist) && trace == old(trace)
              else
                var s := Allocation(old(space), length);
                h == |old(dataRefs)|
                && dataRefs == old(dataRefs) + [DatarefInfo(dataref, s, s + length - 1, freq, true, true)]
                && space == Claimed(old(space), length) && values == Grown(old(values), |space|)
                && exist == old(exist)[dataref := h]
                && trace == old(trace) + Emitted(socketOpen, ArrayRequests(dataref, s, length, freq))
    {
      if dataref in exist {
        return exist[dataref];
      }
      h := AddArrayRecord(dataref, length, freq);
    }

    /** The registration path of `addDatarefArray`, for a name not yet known. */
    method AddArrayRecord(dataref: seq<byte>, length: nat, freq: int) returns (h: nat)
      requires Valid() && length >= 1 && dataref !in exist
      modifies this`dataRefs, this`space, this`values, this`exist, this`trace
      ensures Valid()
      ensures var s := Allocation(old(space), length);
              h == |old(dataRefs)|
              && dataRefs == old(dataRefs) + [DatarefInfo(dataref, s, s + length - 1, freq, true, true)]
              && space == Claimed(old(space), length) && values == Grown(old(values), |space|)
              && exist == old(exist)[dataref := h]
              && trace == old(trace) + Emitted(socketOpen, ArrayRequests(dataref, s, length, freq))
    {
      hide Emitted, ArrayRequests, Indexed, F32;
      var start := FindSpace(length);
      assert start == Allocation(old(space), length);
      var r := DatarefInfo(dataref, start, start + length - 1, freq, true, true);
      AddRecordConsistent(dataRefs, values, space, exist, r);
      dataRefs := dataRefs + [r];
      SendArrayRequests(dataref, start, length, freq);
      exist := exist[dataref := |dataRefs| - 1];
      h := |dataRefs| - 1;
    }

    /** The request loop of `addDatarefArray`. */
    method SendArrayRequests(dataref: seq<byte>, start: nat, length: nat, freq: int)
      modifies this`trace
      ensures trace == old(trace) + Emitted(socketOpen, ArrayRequests(dataref, start, length, freq))
    {
      hide Emitted;
      ghost var qs := ArrayRequests(dataref, start, length, freq);
      var i := 0;
      while i < length
        invariant 0 <= i <= length
        invariant trace == old(trace) + Emitted(socketOpen, qs[..i])
      {
        SendData(Rref(I32(freq), I32(start + i), Indexed(dataref, i)));
        EmittedStep(socketOpen, old(trace), qs, i);
        i := i + 1;
      }
      assert qs[..i] == qs;
    }

    /** The scalar `getDataref`, reading the record's own slot: a disabled
        handle yields the default and false. */
    method GetDataref(h: nat, defaultValue: nat) returns (value: nat, ok: bool)
      requires Valid() && h < |dataRefs|
      ensures ok == dataRefs[h].available
      ensures ok ==> value == values[dataRefs[h].start]
      ensures !ok ==> value == defaultValue
    {
      if !dataRefs[h].available {
        return defaultValue, false;
      }
      value := values[dataRefs[h].start];
      ok := true;
    }

    /** The container `getDataref`: a disabled handle fills the first
        min(width, size) cells with the default; an enabled one copies that
        many register cells from its first slot. Later cells are untouched. */
    method GetDatarefInto(h: nat, container: array<nat>, defaultValue: nat) returns (ok: bool)
      requires Valid() && h < |dataRefs|
      modifies container
      ensures ok == dataRefs[h].available
      ensures var r := dataRefs[h];
              var n := if r.end - r.start + 1 < container.Length then r.end - r.start + 1 else container.Length;
              (forall k :: 0 <= k < n ==> container[k] == if ok then values[r.start + k] else defaultValue)
              && (forall k :: n <= k < container.Length ==> container[k] == old(container[k]))
    {
      var r := dataRefs[h];
      var size := r.end - r.start + 1;
      var n := if size < container.Length then size else container.Length;
      ok := r.available;
      var k := 0;
      while k < n
        invariant 0 <= k <= n
        invariant forall m :: 0 <= m < k ==> container[m] == if ok then values[r.start + m] else defaultValue
        invariant forall m :: k <= m < container.Length ==> container[m] == old(container[m])
      {
        container[k] := if ok then values[r.start + k] else defaultValue;
        k := k + 1;
      }
    }

    /** `changeDatarefFreq`. A zero frequency disables an enabled record and
        frees its slots (a disabled one is left alone). A non-zero frequency
        first re-enables a disabled record on a freshly claimed run of the
        same width, then sends its requests with the frequency packed as a
        `float`. The stored frequency is never updated. */
    method ChangeDatarefFreq(h: nat, freqBits: nat)
      requires Valid() && h < |dataRefs| && freqBits < 0x1_0000_0000
      modifies this`dataRefs, this`space, this`values, this`trace
      ensures Valid()
      ensures var r := old(dataRefs[h]);
              var w := r.end - r.start + 1;
              if FloatIsZero(freqBits) then
                if !r.available then
                  dataRefs == old(dataRefs) && space == old(space) && trace == old(trace)
                else
                  dataRefs == old(dataRefs)[h := r.(available := false)]
                  && space == Fill(old(space), r.start, w, false) && trace == old(trace)
              else
                var r' := if r.available then r else Reenabled(r, old(space));
                dataRefs == old(dataRefs)[h := r']
                && space == (if r.available then old(space) else Claimed(old(space), w))
                && trace == old(trace) + Emitted(socketOpen, FreqRequests(r', freqBits))
      ensures values == Grown(old(values), |space|)
    {
      hide Emitted, FreqRequests, Claimed;
      var r := dataRefs[h];
      var size := r.end - r.start + 1;
      if FloatIsZero(freqBits) {
        if !r.available {
          return;
        }
        DisableConsistent(dataRefs, values, space, exist, h);
        dataRefs := dataRefs[h := r.(available := false)];
        space := Fill(space, r.start, size, false);
        return;
      }
      if !r.available {
        var start := FindSpace(size);
        r := r.(available := true, start := start, end := start + size - 1);
        ReplaceRecordConsistent(dataRefs, values, space, exist, h, r);
        dataRefs := dataRefs[h := r];
        assert r == Reenabled(old(dataRefs[h]), old(space));
      }
      SendFreqRequests(r, freqBits);
    }

    /** The request loop of `changeDatarefFreq`. */
    method SendFreqRequests(r: DatarefInfo, freqBits: nat)
      requires freqBits < 0x1_0000_0000 && r.start <= r.end
      modifies this`trace
      ensures trace == old(trace) + Emitted(socketOpen, FreqRequests(r, freqBits))
    {
      hide Emitted;
      if !r.isArray {
        SendData(Rref(F32(freqBits), I32(r.start), r.name));
        return;
      }
      ghost var qs := FreqRequests(r, freqBits);
      var size := r.end - r.start + 1;
      var i := 0;
      while i < size
        invariant 0 <= i <= size
        invariant trace == old(trace) + Emitted(socketOpen, qs[..i])
      {
        SendData(Rref(F32(freqBits), U64(r.start + i), Indexed(r.name, i)));
        EmittedStep(socketOpen, old(trace), qs, i);
        i := i + 1;
      }
      assert qs[..i] == qs;
    }

    /** `setDataref`: one `DREF` request for the scalar name. */
    method SetDataref(dataref: seq<byte>, valueBits: nat, index: int)
      requires valueBits < 0x1_0000_0000
      modifies this`trace
      ensures trace == old(trace) + Emitted(socketOpen, [Dref(F32(valueBits), ScalarName(dataref, index))])
    {
      SendData(Dref(F32(valueBits), ScalarName(dataref, index)));
    }

    /** `setDatarefArray`: one `DREF` request per element, `name[i]` for element i. */
    method SetDatarefArray(dataref: seq<byte>, valueBits: seq<nat>)
      requires forall k :: 0 <= k < |valueBits| ==> valueBits[k] < 0x1_0000_0000
      modifies this`trace
      ensures trace == old(trace) + Emitted(socketOpen, SetRequests(dataref, valueBits))
    {
      hide Emitted;
      ghost var qs := SetRequests(dataref, valueBits);
      var i := 0;
      while i < |valueBits|
        invariant 0 <= i <= |valueBits|
        invariant trace == old(trace) + Emitted(socketOpen, qs[..i])
      {
        SendData(Dref(F32(valueBits[i]), Indexed(dataref, i)));
        EmittedStep(socketOpen, old(trace), qs, i);
        i := i + 1;
      }
      assert qs[..i] == qs;
    }

    /** `addPlaneInfo`: remembers the frequency and sends the sentence. */
    method AddPlaneInfo(freq: int)
      modifies this`infoFreq, this`trace
      ensures infoFreq == freq
      ensures trace == old(trace) + Emitted(socketOpen, [Info(freq)])
    {
      infoFreq := freq;
      SendData(Info(freq));
    }

    /** `getPlaneInfo`: the last accepted snapshot. */
    method GetPlaneInfo() returns (infoDst: PlaneInfo)
      ensures infoDst == info
    {
      infoDst := info;
    }

    /** `reconnect(del)`: re-sends every enabled record's requests, then the
        info sentence if info was subscribed. */
    method Reconnect(del: bool)
      modifies this`trace
      ensures trace == old(trace) + Emitted(socketOpen, ReconnectRequests(dataRefs, infoFreq, del))
    {
      SendReplayAll();
      if infoFreq == 0 {
        assert ReconnectRequests(dataRefs, infoFreq, del) == ReplayAll(dataRefs);
        return;
      }
      var sentence := Info(if del then 0 else infoFreq);
      SendData(sentence);
      assert ReconnectRequests(dataRefs, infoFreq, del) == ReplayAll(dataRefs) + [sentence];
      EmittedAppend(socketOpen, ReplayAll(dataRefs), [sentence]);
    }

    /** The record loop of `reconnect`: disabled records are skipped. */
    method SendReplayAll()
      modifies this`trace
      ensures trace == old(trace) + Emitted(socketOpen, ReplayAll(dataRefs))
    {
      hide Emitted;
      var j := 0;
      while j < |dataRefs|
        invariant 0 <= j <= |dataRefs|
        invariant trace == old(trace) + Emitted(socketOpen, ReplayAll(dataRefs[..j]))
      {
        var r := dataRefs[j];
        ghost var before := trace;
        if r.available {
          SendRecordReplay(r);
        } else {
          assert Emitted(socketOpen, ReplayRecord(r)) == [];
          assert trace == before + [];
        }
        ReplayStep(socketOpen, old(trace), dataRefs, j);
        j := j + 1;
      }
      assert dataRefs[..j] == dataRefs;
    }

    /** The inner loop of `reconnect`: slots `start..end` of one enabled
        record, each with the record's stored frequency. */
    method SendRecordReplay(r: DatarefInfo)
      requires r.available
      modifies this`trace
      ensures trace == old(trace) + Emitted(socketOpen, ReplayRecord(r))
    {
      ReplayRecordShape(r);
      hide Emitted, ReplayRecord, I32;
      ghost var qs := ReplayRecord(r);
      var i := r.start;
      while i <= r.end
        invariant r.start <= i && (r.start <= r.end ==> i <= r.end + 1) && (r.end < r.start ==> i == r.start)
        invariant trace == old(trace) + Emitted(socketOpen, qs[..i - r.start])
      {
        SendData(Rref(I32(r.freq), I32(i), ElementName(r, i - r.start)));
        EmittedStep(socketOpen, old(trace), qs, i - r.start);
        i := i + 1;
      }
      assert qs[..i - r.start] == qs;
    }

    /** `close`: `reconnect(true)`. */
    method Close()
      modifies this`trace
      ensures trace == old(trace) + Emitted(socketOpen, ReconnectRequests(dataRefs, infoFreq, true))
    {
      Reconnect(true);
    }

    /** `setState`: nothing happens unless the state changes; on a change,
        a rising edge with auto-reconnect first replays the subscriptions,
        then the state is stored and the callback (if any) told. */
    method SetState(newState: bool)
      modifies this`state, this`trace
      ensures newState == old(state) ==> state == old(state) && trace == old(trace)
      ensures newState != old(state) ==>
                state == newState
                && trace == old(trace) + EdgeEvents(newState, dataRefs, infoFreq, autoReconnect, hasCallback, socketOpen)
    {
      if newState == state {
        return;
      }
      if newState && autoReconnect {
        Reconnect(false);
      }
      state := newState;
      if hasCallback {
        trace := trace + [Notified(newState)];
      }
    }

    /** The liveness timer firing before a beacon arrived. */
    method BeaconTimeout()
      modifies this`state, this`trace
      ensures !state
      ensures old(state) ==> trace == old(trace) + (if hasCallback then [Notified(false)] else [])
      ensures !old(state) ==> trace == old(trace)
    {
      SetState(false);
    }

    /** The value branch: every 8-byte record from byte 5 on is stored in order. */
    method ReceiveValues(data: seq<byte>, size: nat)
      requires size <= |data| && size > HEADER_LENGTH && (size - HEADER_LENGTH) % 8 == 0
      modifies this`values
      ensures values == ApplyRecords(old(values), data, HEADER_LENGTH, (size - HEADER_LENGTH) / 8)
    {
      var i := HEADER_LENGTH;
      var n: nat := 0;
      while i < size
        invariant i == HEADER_LENGTH + 8 * n && i <= size
        invariant values == ApplyRecords(old(values), data, HEADER_LENGTH, n)
        decreases size - i
      {
        var index := IndexOfRecord(data, HEADER_LENGTH, n);
        var value := ValueOfRecord(data, HEADER_LENGTH, n);
        if 0 <= index < |values| {
          values := values[index := value];
        }
        i, n := i + 8, n + 1;
      }
    }

    /** The beacon branch: the first beacon opens the unicast socket towards
        the sender's address and the port it announces; every beacon then
        raises the state. */
    method ReceiveBeacon(data: seq<byte>, sender: nat)
      requires |data| == BUFFER_SIZE
      modifies this`peer, this`socketOpen, this`state, this`trace
      ensures socketOpen && state
      ensures peer == if old(socketOpen) then old(peer) else Peer(sender, BeaconPort(data))
      ensures trace == old(trace) + (if old(state) then [] else EdgeEvents(true, dataRefs, infoFreq, autoReconnect, hasCallback, true))
    {
      if !socketOpen {
        peer := Peer(sender, BeaconPort(data));
        socketOpen := true;
      }
      SetState(true);
    }

    /** `receiveDataProcess`: the dispatch, then, unless the dispatch
        returned early, `memset` of the first `size` buffer bytes. An
        ignored datagram leaves the buffer as it was; any other (an unknown
        tag too) has those bytes erased. */
    method ReceiveDataProcess(data: array<byte>, size: nat, sender: nat)
      requires Valid() && data.Length == BUFFER_SIZE && size <= BUFFER_SIZE
      modifies this`values, this`info, this`peer, this`socketOpen, this`state, this`trace, data
      ensures Valid()
      ensures Classify(old(data[..]), size) == Ignored ==> data[..] == old(data[..])
      ensures Classify(old(data[..]), size) != Ignored ==>
                forall m :: 0 <= m < data.Length ==> data[m] == if m < size then 0 else old(data[m])
      ensures Received(old(data[..]), size, sender, old(values), old(info), old(peer), old(socketOpen),
                       old(state), old(trace), values, info, peer, socketOpen, state, trace)
    {
      hide ApplyRecords, DecodeInfo, BeaconPort, EdgeEvents, Emitted, ReconnectRequests, Received, Classify;
      var erase := Dispatch(data[..], size, sender);
      ValuesConsistent(dataRefs, old(values), values, space, exist);
      if erase {
        Erase(data, size);
      }
    }

    /** The state the dispatch leaves behind, branch by branch. */
    ghost predicate Received(d: seq<byte>, size: nat, sender: nat,
                             values0: seq<nat>, info0: PlaneInfo, peer0: Peer, open0: bool, state0: bool,
                             trace0: seq<Event>, values1: seq<nat>, info1: PlaneInfo, peer1: Peer,
                             open1: bool, state1: bool, trace1: seq<Event>)
      requires |d| == BUFFER_SIZE && size <= BUFFER_SIZE
      reads this`dataRefs, this`infoFreq, this`autoReconnect, this`hasCallback
    {
      var kind := Classify(d, size);
      values1 == (if kind.ValueRecords? then ApplyRecords(values0, d, HEADER_LENGTH, (size - HEADER_LENGTH) / 8)
                     else values0)
      && info1 == (if kind.InfoRecord? then DecodeInfo(d, HEADER_LENGTH) else info0)
      && (kind.BeaconRecord? ==>
            open1 && state1
            && peer1 == (if open0 then peer0 else Peer(sender, BeaconPort(d)))
            && trace1 == trace0 + (if state0 then [] else EdgeEvents(true, dataRefs, infoFreq, autoReconnect, hasCallback, true)))
      && (!kind.BeaconRecord? ==> peer1 == peer0 && open1 == open0 && state1 == state0 && trace1 == trace0)
    }

    /** The tag dispatch of `receiveDataProcess`; `erase` is false when it
        returns early. */
    method Dispatch(d: seq<byte>, size: nat, sender: nat) returns (erase: bool)
      requires |d| == BUFFER_SIZE && size <= BUFFER_SIZE
      modifies this`values, this`info, this`peer, this`socketOpen, this`state, this`trace
      ensures erase <==> Classify(d, size) != Ignored
      ensures |values| == |old(values)|
      ensures Received(d, size, sender, old(values), old(info), old(peer), old(socketOpen),
                       old(state), old(trace), values, info, peer, socketOpen, state, trace)
    {
      hide ApplyRecords, DecodeInfo, BeaconPort, EdgeEvents, Emitted, ReconnectRequests;
      if size <= HEADER_LENGTH {
        return false;
      }
      if CompareHead(DATAREF_GET_HEAD, d) {
        if (size - HEADER_LENGTH) % 8 != 0 {
          return false;
        }
        ReceiveValues(d, size);
      } else if CompareHead(BASIC_INFO_HEAD, d) {
        if (size - HEADER_LENGTH) % INFO_SIZE != 0 || size <= 6 {
          return false;
        }
        info := DecodeInfo(d, HEADER_LENGTH);
      } else if CompareHead(BECON_HEAD, d) {
        ReceiveBeacon(d, sender);
      }
      return true;
    }
  }

  /** How `receiveDataProcess` treats a datagram of `size` bytes. */
  datatype Kind = Ignored | ValueRecords | InfoRecord | BeaconRecord | Unknown

  function Classify(data: seq<byte>, size: nat): (k: Kind)
    requires |data| >= 4
    ensures k == ValueRecords ==> size > HEADER_LENGTH && (size - HEADER_LENGTH) % 8 == 0
    ensures k == InfoRecord ==> size > 6 && (size - HEADER_LENGTH) % INFO_SIZE == 0
  {
    if size <= HEADER_LENGTH then Ignored
    else if CompareHead(DATAREF_GET_HEAD, data) then
      (if (size - HEADER_LENGTH) % 8 != 0 then Ignored else ValueRecords)
    else if CompareHead(BASIC_INFO_HEAD, data) then
      (if (size - HEADER_LENGTH) % INFO_SIZE != 0 || size <= 6 then Ignored else InfoRecord)
    else if CompareHead(BECON_HEAD, data) then BeaconRecord
    else Unknown
  }

  /** `memset(data, 0, size)`: the first `size` bytes become 0. */
  method Erase(data: array<byte>, size: nat)
    requires size <= data.Length
    modifies data
    ensures forall m :: 0 <= m < data.Length ==> data[m] == if m < size then 0 else old(data[m])
  {
    var k := 0;
    while k < size
      invariant 0 <= k <= size
      invariant forall m :: 0 <= m < data.Length ==> data[m] == if m < k then 0 else old(data[m])
    {
      data[k] := 0;
      k := k + 1;
    }
  }
}
