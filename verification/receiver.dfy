/** The receiving side as a protocol (vtsrtc/src/packet/depacketizer.cpp): packets arrive in
    any order, interleaved across messages, and a message is handed over when its last
    missing packet arrives. */
module Receiver {
  import opened Bytes
  import opened PacketFormat

  /** Slices received so far, by sub packet number. */
  type Parts = map<int, seq<byte>>

  datatype State = State(incomplete: map<int, Parts>, delivered: seq<Buffer>)

  const INITIAL := State(map[], [])

  /** The slices with numbers below n, in ascending order. */
  function JoinParts(parts: Parts, n: nat): seq<byte> {
    if n == 0 then []
    else JoinParts(parts, n - 1) + (if n - 1 in parts then parts[n - 1] else [])
  }

  function Insert(incomplete: map<int, Parts>, h: Header, payload: seq<byte>): map<int, Parts> {
    var parts := if h.mainSeq in incomplete then incomplete[h.mainSeq] else map[];
    incomplete[h.mainSeq := parts[h.subSeq := payload]]
  }

  /** One packet: filed, and the message handed over once as many slices are there as the
      header announces. */
  function Receive(s: State, packet: Buffer): State
    requires |packet.bytes| >= HEADER
  {
    var h := HeaderOf(packet.bytes);
    var incomplete := Insert(s.incomplete, h, PayloadOf(packet.bytes));
    var parts := incomplete[h.mainSeq];
    if |parts| == h.total then
      State(incomplete - {h.mainSeq}, s.delivered + [Buffer(packet.channel, JoinParts(parts, UINT16))])
    else
      s.(incomplete := incomplete)
  }

  // ----- What is in flight -----

  /** A message on its way: its place among the messages begun, and the packets not yet arrived. */
  datatype Flight = Flight(id: nat, remaining: set<int>)

  /** `begun` are the messages sent so far; `completed` the places of those whose packets all
      arrived, in that order. */
  datatype Env = Env(begun: seq<Buffer>, flights: map<int, Flight>, completed: seq<nat>)

  const NOTHING := Env([], map[], [])

  ghost function Upto(n: nat): (r: set<int>)
    ensures forall i :: i in r <==> 0 <= i < n
    ensures |r| == n
  {
    if n == 0 then {} else Upto(n - 1) + {n - 1}
  }

  datatype Event =
    | Begin(mainSeq: int, message: Buffer)  // a message's packets may arrive from now on
    | Arrive(mainSeq: int, sub: int)        // one of them arrives

  const MAX_MESSAGE := 65535 * MAX_DATA

  ghost predicate Allowed(env: Env, e: Event) {
    match e
    case Begin(mainSeq, message) =>
      0 <= mainSeq < UINT16 && mainSeq !in env.flights && 1 <= |message.bytes| <= MAX_MESSAGE
    case Arrive(mainSeq, sub) =>
      mainSeq in env.flights && sub in env.flights[mainSeq].remaining
  }

  ghost function Next(env: Env, e: Event): Env
    requires Allowed(env, e)
  {
    match e
    case Begin(mainSeq, message) =>
      Env(env.begun + [message],
          env.flights[mainSeq := Flight(|env.begun|, Upto(SliceCount(|message.bytes|)))],
          env.completed)
    case Arrive(mainSeq, sub) =>
      var f := env.flights[mainSeq];
      var remaining := f.remaining - {sub};
      if remaining == {} then
        env.(flights := env.flights - {mainSeq}, completed := env.completed + [f.id])
      else
        env.(flights := env.flights[mainSeq := f.(remaining := remaining)])
  }

  // ----- The invariant -----

  ghost predicate FlightInv(env: Env, mainSeq: int, f: Flight) {
    && 0 <= mainSeq < UINT16 && f.id < |env.begun|
    && var n := SliceCount(|env.begun[f.id].bytes|);
       1 <= |env.begun[f.id].bytes| <= MAX_MESSAGE && f.remaining != {} && f.remaining <= Upto(n)
  }

  ghost predicate FlightsInv(env: Env) {
    forall m :: m in env.flights ==> FlightInv(env, m, env.flights[m])
  }

  /** Every message begun is in flight under one number or completed once. */
  ghost predicate PlacesInv(env: Env) {
    && (forall m, m' :: m in env.flights && m' in env.flights && env.flights[m].id == env.flights[m'].id ==> m == m')
    && (forall m :: m in env.flights ==> env.flights[m].id !in env.completed)
    && Distinct(env.completed) && Bounded(env.completed, |env.begun|)
    && (forall id :: 0 <= id < |env.begun| ==> id in env.completed || InFlight(env, id))
  }

  ghost predicate Distinct(s: seq<nat>) {
    forall i, j :: 0 <= i < j < |s| ==> s[i] != s[j]
  }

  ghost predicate Bounded(s: seq<nat>, n: nat) {
    forall j :: 0 <= j < |s| ==> s[j] < n
  }

  ghost predicate EnvInv(env: Env) {
    FlightsInv(env) && PlacesInv(env)
  }

  ghost predicate InFlight(env: Env, id: nat) {
    exists m :: m in env.flights && env.flights[m].id == id
  }

  /** The slices of a message that are there when `remaining` are not. */
  ghost function Arrived(bytes: seq<byte>, remaining: set<int>): Parts {
    map i | i in Upto(SliceCount(|bytes|)) - remaining :: Slice(bytes, i)
  }

  /** The slices filed for a message in flight are exactly those that arrived. */
  ghost predicate Filed(env: Env, s: State, m: int)
    requires m in env.flights && FlightInv(env, m, env.flights[m])
  {
    FiledSlices(s, m, env.begun[env.flights[m].id].bytes, env.flights[m].remaining)
  }

  ghost predicate FiledSlices(s: State, m: int, bytes: seq<byte>, remaining: set<int>) {
    if remaining == Upto(SliceCount(|bytes|)) then m !in s.incomplete
    else m in s.incomplete && s.incomplete[m] == Arrived(bytes, remaining)
  }

  ghost predicate AllFiled(env: Env, s: State)
    requires FlightsInv(env)
  {
    && (forall m :: m in s.incomplete ==> m in env.flights)
    && (forall m :: m in env.flights ==> Filed(env, s, m))
  }

  /** What was handed over are the completed messages, in the order of completion. */
  ghost predicate HandedOver(begun: seq<Buffer>, completed: seq<nat>, delivered: seq<Buffer>) {
    && |delivered| == |completed|
    && forall j :: 0 <= j < |completed| ==> completed[j] < |begun| && delivered[j] == begun[completed[j]]
  }

  ghost predicate Inv(env: Env, s: State) {
    EnvInv(env) && HandedOver(env.begun, env.completed, s.delivered) && AllFiled(env, s)
  }

  // ----- One step -----

  lemma SomeSlices(bytes: seq<byte>)
    requires bytes != []
    ensures SliceCount(|bytes|) > 0
  {
  }

  lemma NextKeepsFlights(env: Env, e: Event)
    requires EnvInv(env) && Allowed(env, e)
    ensures FlightsInv(Next(env, e))
  {
    hide SliceCount, PlacesInv, FlightInv, Upto;
    var env' := Next(env, e);
    forall m | m in env'.flights ensures FlightInv(env', m, env'.flights[m]) {
      if m in env.flights { FlightGoesOn(env, env', m, env.flights[m]); }
      match e
      case Begin(mainSeq, message) =>
        if m == mainSeq { FlightBegins(env, mainSeq, message); }
      case Arrive(mainSeq, sub) =>
        if m == mainSeq { FlightShrinks(env, env', m, env.flights[m], sub); }
    }
  }

  lemma FlightGoesOn(env: Env, env': Env, m: int, f: Flight)
    requires FlightInv(env, m, f) && env.begun <= env'.begun
    ensures FlightInv(env', m, f)
  {
  }

  lemma FlightBegins(env: Env, mainSeq: int, message: Buffer)
    requires Allowed(env, Begin(mainSeq, message))
    ensures var f := Flight(|env.begun|, Upto(SliceCount(|message.bytes|)));
      FlightInv(Next(env, Begin(mainSeq, message)), mainSeq, f)
  {
    SomeSlices(message.bytes);
    hide SliceCount;
  }

  lemma FlightShrinks(env: Env, env': Env, m: int, f: Flight, sub: int)
    requires FlightInv(env, m, f) && env.begun == env'.begun
    ensures f.remaining != {sub} ==> FlightInv(env', m, f.(remaining := f.remaining - {sub}))
  {
    hide SliceCount, Upto;
    assert f.remaining - {sub} == {} ==> f.remaining == {sub};
  }

  lemma BeginKeepsPlaces(env: Env, mainSeq: int, message: Buffer)
    requires EnvInv(env) && Allowed(env, Begin(mainSeq, message))
    ensures PlacesInv(Next(env, Begin(mainSeq, message)))
  {
    hide SliceCount, FlightInv, FlightsInv, Upto, InFlight, Bounded;
    IdsBegun(env);
    BoundedGrows(env.completed, |env.begun|);
    var env' := Next(env, Begin(mainSeq, message));
    forall id: nat | id < |env'.begun| ensures id in env'.completed || InFlight(env', id) {
      InFlightAfterBegin(env, mainSeq, message, id);
    }
  }

  lemma IdsBegun(env: Env)
    requires FlightsInv(env)
    ensures forall m :: m in env.flights ==> env.flights[m].id < |env.begun|
  {
    forall m | m in env.flights ensures env.flights[m].id < |env.begun| {
      assert FlightInv(env, m, env.flights[m]);
    }
  }

  lemma BoundedGrows(s: seq<nat>, n: nat)
    requires Bounded(s, n)
    ensures Bounded(s, n + 1) && n !in s
  {
  }

  lemma InFlightAfterBegin(env: Env, mainSeq: int, message: Buffer, id: nat)
    requires Allowed(env, Begin(mainSeq, message))
    ensures id == |env.begun| || InFlight(env, id) ==> InFlight(Next(env, Begin(mainSeq, message)), id)
  {
    hide SliceCount, Upto;
    var env' := Next(env, Begin(mainSeq, message));
    assert env'.flights[mainSeq].id == |env.begun|;
    if InFlight(env, id) {
      var m :| m in env.flights && env.flights[m].id == id;
      assert env'.flights[m].id == id;
    }
  }

  /** Only the ids in flight and the completed ones matter. */
  lemma SameIdsKeepPlaces(env: Env, env': Env)
    requires PlacesInv(env) && env'.begun == env.begun && env'.completed == env.completed
    requires env'.flights.Keys == env.flights.Keys
    requires forall m :: m in env.flights ==> env'.flights[m].id == env.flights[m].id
    ensures PlacesInv(env')
  {
    forall id | 0 <= id < |env'.begun| ensures id in env'.completed || InFlight(env', id) {
      if id !in env.completed {
        assert InFlight(env, id);
        var m :| m in env.flights && env.flights[m].id == id;
        assert env'.flights[m].id == id;
      }
    }
  }

  lemma CompletionKeepsPlaces(env: Env, env': Env, mainSeq: int)
    requires PlacesInv(env) && mainSeq in env.flights && env.flights[mainSeq].id < |env.begun|
    requires env' == Env(env.begun, env.flights - {mainSeq}, env.completed + [env.flights[mainSeq].id])
    ensures PlacesInv(env')
  {
    assert env'.completed[|env.completed|] == env.flights[mainSeq].id;
    forall id | 0 <= id < |env'.begun| ensures id in env'.completed || InFlight(env', id) {
      if id !in env'.completed {
        assert id !in env.completed && InFlight(env, id);
        var m :| m in env.flights && env.flights[m].id == id;
        assert m in env'.flights && env'.flights[m].id == id;
      }
    }
  }

  lemma ArriveKeepsPlaces(env: Env, mainSeq: int, sub: int)
    requires EnvInv(env) && Allowed(env, Arrive(mainSeq, sub))
    ensures PlacesInv(Next(env, Arrive(mainSeq, sub)))
  {
    assert FlightInv(env, mainSeq, env.flights[mainSeq]);
    hide SliceCount, FlightInv, FlightsInv, PlacesInv;
    var env' := Next(env, Arrive(mainSeq, sub));
    if env.flights[mainSeq].remaining - {sub} == {} {
      CompletionKeepsPlaces(env, env', mainSeq);
    } else {
      SameIdsKeepPlaces(env, env');
    }
  }

  lemma NextKeepsEnvInv(env: Env, e: Event)
    requires EnvInv(env) && Allowed(env, e)
    ensures EnvInv(Next(env, e))
  {
    hide PlacesInv, FlightsInv;
    NextKeepsFlights(env, e);
    match e
    case Begin(mainSeq, message) => BeginKeepsPlaces(env, mainSeq, message);
    case Arrive(mainSeq, sub) => ArriveKeepsPlaces(env, mainSeq, sub);
  }

  // ----- Arrivals at the receiver -----

  /** A packet of a message in flight decodes to its place and its slice. */
  lemma ArrivingFields(message: Buffer, mainSeq: nat, sub: nat)
    requires |message.bytes| <= MAX_MESSAGE && mainSeq < UINT16 && sub < SliceCount(|message.bytes|)
    ensures var p, n := PacketAt(message, mainSeq, sub), SliceCount(|message.bytes|);
      && |p.bytes| >= HEADER
      && HeaderOf(p.bytes) == Header(1, |Slice(message.bytes, sub)|, n, mainSeq, sub)
      && PayloadOf(p.bytes) == Slice(message.bytes, sub)
  {
    var n := SliceCount(|message.bytes|);
    assert n < UINT16 && n % UINT16 == n && sub % UINT16 == sub;
    hide SliceCount, Slice;
    PacketRoundTrip(n, mainSeq, sub, Slice(message.bytes, sub));
    hide Packet, HeaderOf, PayloadOf;
  }

  lemma ArrivedGrows(bytes: seq<byte>, remaining: set<int>, sub: int)
    requires remaining <= Upto(SliceCount(|bytes|)) && sub in remaining
    ensures Arrived(bytes, remaining - {sub}) == Arrived(bytes, remaining)[sub := Slice(bytes, sub)]
  {
  }

  lemma ArrivedSize(bytes: seq<byte>, remaining: set<int>)
    requires remaining <= Upto(SliceCount(|bytes|))
    ensures |Arrived(bytes, remaining)| == SliceCount(|bytes|) - |remaining|
  {
    var all := Upto(SliceCount(|bytes|));
    assert Arrived(bytes, remaining).Keys == all - remaining;
    assert all == remaining + (all - remaining);
  }

  lemma ArrivedAll(bytes: seq<byte>, i: nat)
    ensures i in Arrived(bytes, {}) <==> i < SliceCount(|bytes|)
    ensures i < SliceCount(|bytes|) ==> Arrived(bytes, {})[i] == Slice(bytes, i)
  {
  }

  lemma {:induction false} JoinArrived(bytes: seq<byte>, n: nat)
    ensures var count := SliceCount(|bytes|);
      JoinParts(Arrived(bytes, {}), n) == Joined(bytes, if n <= count then n else count)
  {
    hide Arrived, Slice, SliceCount;
    if n == 0 {
    } else {
      JoinArrived(bytes, n - 1);
      ArrivedAll(bytes, n - 1);
    }
  }

  /** When nothing remains, joining the slices gives back the message. */
  lemma JoinComplete(bytes: seq<byte>)
    requires |bytes| <= MAX_MESSAGE
    ensures JoinParts(Arrived(bytes, {}), UINT16) == bytes
  {
    JoinArrived(bytes, UINT16);
    SlicesJoin(bytes);
  }

  /** Filing the slice `sub` of a message extends what had arrived of it by that slice. */
  lemma InsertArrival(incomplete: map<int, Parts>, h: Header, bytes: seq<byte>, remaining: set<int>)
    requires remaining <= Upto(SliceCount(|bytes|)) && h.subSeq in remaining
    requires if remaining == Upto(SliceCount(|bytes|)) then h.mainSeq !in incomplete
             else h.mainSeq in incomplete && incomplete[h.mainSeq] == Arrived(bytes, remaining)
    ensures Insert(incomplete, h, Slice(bytes, h.subSeq))
         == incomplete[h.mainSeq := Arrived(bytes, remaining - {h.subSeq})]
  {
    hide SliceCount, Slice, Upto;
    ArrivedGrows(bytes, remaining, h.subSeq);
    if remaining == Upto(SliceCount(|bytes|)) {
      assert Arrived(bytes, remaining) == map[];
    }
  }

  lemma ReceiveFiled(s: State, p: Buffer, h: Header, parts: Parts)
    requires |p.bytes| >= HEADER && HeaderOf(p.bytes) == h
    requires Insert(s.incomplete, h, PayloadOf(p.bytes)) == s.incomplete[h.mainSeq := parts]
    ensures Receive(s, p) == if |parts| == h.total then
                               State(s.incomplete - {h.mainSeq},
                                     s.delivered + [Buffer(p.channel, JoinParts(parts, UINT16))])
                             else s.(incomplete := s.incomplete[h.mainSeq := parts])
  {
    hide Insert, HeaderOf, PayloadOf, JoinParts;
    assert s.incomplete[h.mainSeq := parts] - {h.mainSeq} == s.incomplete - {h.mainSeq};
  }

  /** One arrival: the slice is filed, and exactly the last one hands the message over. */
  lemma ReceiveArrival(s: State, message: Buffer, mainSeq: nat, remaining: set<int>, sub: nat)
    requires 1 <= |message.bytes| <= MAX_MESSAGE && mainSeq < UINT16
    requires remaining <= Upto(SliceCount(|message.bytes|)) && sub in remaining
    requires FiledSlices(s, mainSeq, message.bytes, remaining)
    ensures var p := PacketAt(message, mainSeq, sub);
      && |p.bytes| >= HEADER
      && Receive(s, p) == if remaining == {sub} then
                            State(s.incomplete - {mainSeq}, s.delivered + [message])
                          else
                            s.(incomplete := s.incomplete[mainSeq := Arrived(message.bytes, remaining - {sub})])
  {
    hide SliceCount, Slice, Packet, HeaderOf, PayloadOf, Upto, Insert, JoinParts, Arrived, FiledSlices, Receive;
    var n, rest := SliceCount(|message.bytes|), remaining - {sub};
    var h := Header(1, |Slice(message.bytes, sub)|, n, mainSeq, sub);
    ArrivingFields(message, mainSeq, sub);
    InsertFiled(s, h, message.bytes, remaining);
    ArrivedSize(message.bytes, rest);
    JoinComplete(message.bytes);
    LastMissing(remaining, sub);
    ReceiveFiled(s, PacketAt(message, mainSeq, sub), h, Arrived(message.bytes, rest));
  }

  lemma LastMissing(remaining: set<int>, sub: int)
    requires sub in remaining
    ensures if remaining == {sub} then remaining - {sub} == {} else |remaining - {sub}| > 0
  {
    assert remaining - {sub} == {} ==> remaining == {sub};
  }

  lemma InsertFiled(s: State, h: Header, bytes: seq<byte>, remaining: set<int>)
    requires remaining <= Upto(SliceCount(|bytes|)) && h.subSeq in remaining
    requires FiledSlices(s, h.mainSeq, bytes, remaining)
    ensures Insert(s.incomplete, h, Slice(bytes, h.subSeq))
         == s.incomplete[h.mainSeq := Arrived(bytes, remaining - {h.subSeq})]
  {
    InsertArrival(s.incomplete, h, bytes, remaining);
  }

  // ----- Whole runs -----

  datatype Config = Config(env: Env, state: State)

  /** Beginning a message sends nothing by itself; an arrival is received. */
  ghost function Effect(c: Config, e: Event): State
    requires Inv(c.env, c.state) && Allowed(c.env, e)
  {
    match e
    case Begin(_, _) => c.state
    case Arrive(mainSeq, sub) =>
      assert FlightInv(c.env, mainSeq, c.env.flights[mainSeq]);
      var p := PacketAt(c.env.begun[c.env.flights[mainSeq].id], mainSeq, sub);
      Receive(c.state, p)
  }

  lemma BeginKeepsFiled(c: Config, mainSeq: int, message: Buffer)
    requires Inv(c.env, c.state) && Allowed(c.env, Begin(mainSeq, message))
    requires FlightsInv(Next(c.env, Begin(mainSeq, message)))
    ensures AllFiled(Next(c.env, Begin(mainSeq, message)), c.state)
  {
    hide PlacesInv, SliceCount, FiledSlices;
    var env' := Next(c.env, Begin(mainSeq, message));
    assert FiledSlices(c.state, mainSeq, message.bytes, Upto(SliceCount(|message.bytes|))) by {
      NothingFiled(c.state, mainSeq, message.bytes);
    }
    forall m | m in env'.flights ensures Filed(env', c.state, m) {
      if m != mainSeq { assert FlightInv(c.env, m, c.env.flights[m]) && Filed(c.env, c.state, m); }
    }
  }

  lemma NothingFiled(s: State, m: int, bytes: seq<byte>)
    requires m !in s.incomplete
    ensures FiledSlices(s, m, bytes, Upto(SliceCount(|bytes|)))
  {
  }

  /** Another message's arrival leaves what is filed alone. */
  lemma OthersStayFiled(s: State, s': State, m: int, bytes: seq<byte>, remaining: set<int>)
    requires FiledSlices(s, m, bytes, remaining)
    requires m in s.incomplete <==> m in s'.incomplete
    requires m in s.incomplete ==> s'.incomplete[m] == s.incomplete[m]
    ensures FiledSlices(s', m, bytes, remaining)
  {
  }

  lemma NowFiled(s: State, m: int, bytes: seq<byte>, remaining: set<int>, sub: int)
    requires sub in remaining && remaining <= Upto(SliceCount(|bytes|))
    requires m in s.incomplete && s.incomplete[m] == Arrived(bytes, remaining - {sub})
    ensures FiledSlices(s, m, bytes, remaining - {sub})
  {
  }

  lemma ArriveEffect(c: Config, mainSeq: int, sub: int)
    requires Inv(c.env, c.state) && Allowed(c.env, Arrive(mainSeq, sub))
    ensures var f, s := c.env.flights[mainSeq], c.state;
      && f.id < |c.env.begun|
      && var message := c.env.begun[f.id];
         && f.remaining <= Upto(SliceCount(|message.bytes|))
         && Effect(c, Arrive(mainSeq, sub))
            == if f.remaining == {sub} then State(s.incomplete - {mainSeq}, s.delivered + [message])
               else s.(incomplete := s.incomplete[mainSeq := Arrived(message.bytes, f.remaining - {sub})])
  {
    var f := c.env.flights[mainSeq];
    assert FlightInv(c.env, mainSeq, f) && Filed(c.env, c.state, mainSeq);
    hide PlacesInv, SliceCount, Slice, PacketAt, FiledSlices, AllFiled, FlightsInv, HandedOver;
    ReceiveArrival(c.state, c.env.begun[f.id], mainSeq, f.remaining, sub);
    hide Receive, Arrived;
  }

  lemma ArriveKeepsFiled(c: Config, mainSeq: int, sub: int)
    requires Inv(c.env, c.state) && Allowed(c.env, Arrive(mainSeq, sub))
    requires FlightsInv(Next(c.env, Arrive(mainSeq, sub)))
    ensures AllFiled(Next(c.env, Arrive(mainSeq, sub)), Effect(c, Arrive(mainSeq, sub)))
  {
    hide PlacesInv, SliceCount, HandedOver, Receive, Insert, HeaderOf, PayloadOf, JoinParts;
    var env', s', f := Next(c.env, Arrive(mainSeq, sub)), Effect(c, Arrive(mainSeq, sub)), c.env.flights[mainSeq];
    ArriveEffect(c, mainSeq, sub);
    hide Effect, Arrived;
    var bytes := c.env.begun[f.id].bytes;
    if f.remaining != {sub} { NowFiled(s', mainSeq, bytes, f.remaining, sub); }
    hide FiledSlices;
    assert f.remaining - {sub} == {} <==> f.remaining == {sub};
    forall m | m in env'.flights ensures Filed(env', s', m) {
      if m != mainSeq {
        assert FlightInv(c.env, m, c.env.flights[m]) && Filed(c.env, c.state, m);
        OthersStayFiled(c.state, s', m, c.env.begun[c.env.flights[m].id].bytes, c.env.flights[m].remaining);
      }
    }
  }

  lemma HandedOverAppend(begun: seq<Buffer>, completed: seq<nat>, delivered: seq<Buffer>, id: nat)
    requires HandedOver(begun, completed, delivered) && id < |begun|
    ensures HandedOver(begun, completed + [id], delivered + [begun[id]])
  {
  }

  lemma ArriveKeepsHandedOver(c: Config, mainSeq: int, sub: int)
    requires Inv(c.env, c.state) && Allowed(c.env, Arrive(mainSeq, sub))
    ensures var env' := Next(c.env, Arrive(mainSeq, sub));
      HandedOver(env'.begun, env'.completed, Effect(c, Arrive(mainSeq, sub)).delivered)
  {
    hide PlacesInv, FlightInv, FlightsInv, AllFiled, Effect, Arrived, SliceCount, Upto, HandedOver;
    ArriveEffect(c, mainSeq, sub);
    var f := c.env.flights[mainSeq];
    assert f.remaining - {sub} == {} <==> f.remaining == {sub};
    if f.remaining == {sub} {
      HandedOverAppend(c.env.begun, c.env.completed, c.state.delivered, f.id);
    }
  }

  lemma EffectKeepsInv(c: Config, e: Event)
    requires Inv(c.env, c.state) && Allowed(c.env, e)
    ensures Inv(Next(c.env, e), Effect(c, e))
  {
    NextKeepsEnvInv(c.env, e);
    match e
    case Begin(mainSeq, message) =>
      BeginKeepsFiled(c, mainSeq, message);
    case Arrive(mainSeq, sub) =>
      ArriveKeepsFiled(c, mainSeq, sub);
      ArriveKeepsHandedOver(c, mainSeq, sub);
      hide PlacesInv, FlightInv, FlightsInv, AllFiled, Effect, HandedOver;
  }

  /** The run of an event sequence; an event that is not allowed does not happen. */
  ghost function Run(events: seq<Event>): (c: Config)
    ensures Inv(c.env, c.state)
  {
    if |events| == 0 then Config(NOTHING, INITIAL)
    else
      var c, e := Run(events[..|events| - 1]), events[|events| - 1];
      if Allowed(c.env, e) then
        EffectKeepsInv(c, e);
        Config(Next(c.env, e), Effect(c, e))
      else c
  }

  ghost function RemoveAt<T>(s: seq<T>, k: nat): seq<T>
    requires k < |s|
  {
    s[..k] + s[k + 1..]
  }

  lemma RemoveAtBag<T>(s: seq<T>, k: nat)
    requires k < |s|
    ensures multiset(s) == multiset(RemoveAt(s, k)) + multiset{s[k]}
  {
    assert s == s[..k] + [s[k]] + s[k + 1..];
  }

  ghost predicate Covers(s: seq<nat>, n: nat) {
    forall id :: 0 <= id < n ==> id in s
  }

  /** Taking the last place out of a listing leaves a listing of the others. */
  lemma DropLastPlace(completed: seq<nat>, n: nat, k: nat)
    requires Distinct(completed) && Bounded(completed, n + 1) && Covers(completed, n + 1)
    requires k < |completed| && completed[k] == n
    ensures var rest := RemoveAt(completed, k);
      Distinct(rest) && Bounded(rest, n) && Covers(rest, n)
  {
    var rest := RemoveAt(completed, k);
    forall id | 0 <= id < n ensures id in rest {
      assert id in completed;
      var j :| 0 <= j < |completed| && completed[j] == id;
      assert rest[if j < k then j else j - 1] == id;
    }
    forall j | 0 <= j < |rest| ensures rest[j] < n {
      assert rest[j] == completed[if j < k then j else j + 1];
    }
  }

  ghost function First(s: seq<nat>): nat { if s == [] then 0 else s[0] }

  lemma NoPlaces(completed: seq<nat>)
    requires Bounded(completed, 0)
    ensures completed == []
  {
    var first := First(completed);
  }

  lemma DropLastHandedOver(begun: seq<Buffer>, completed: seq<nat>, delivered: seq<Buffer>, n: nat, k: nat)
    requires |begun| == n + 1 && HandedOver(begun, completed, delivered)
    requires k < |completed| && Bounded(RemoveAt(completed, k), n)
    ensures HandedOver(begun[..n], RemoveAt(completed, k), RemoveAt(delivered, k))
  {
  }

  /** Listing each place once lists each message as often as it was begun. */
  lemma {:induction false} CompletedPermutation(begun: seq<Buffer>, completed: seq<nat>, delivered: seq<Buffer>)
    requires HandedOver(begun, completed, delivered)
    requires Distinct(completed) && Bounded(completed, |begun|) && Covers(completed, |begun|)
    ensures multiset(delivered) == multiset(begun)
  {
    if begun != [] {
      var n := |begun| - 1;
      assert n in completed;
      var k :| 0 <= k < |completed| && completed[k] == n;
      assert delivered[k] == begun[n];
      DropLastPlace(completed, n, k);
      DropLastHandedOver(begun, completed, delivered, n, k);
      CompletedPermutation(begun[..n], RemoveAt(completed, k), RemoveAt(delivered, k));
      RemoveAtBag(delivered, k);
      assert begun == begun[..n] + [begun[n]];
    } else {
      NoPlaces(completed);
    }
  }

  lemma NothingInFlight(env: Env)
    requires PlacesInv(env) && env.flights == map[]
    ensures Covers(env.completed, |env.begun|)
  {
    forall id | 0 <= id < |env.begun| ensures id in env.completed {
      assert !InFlight(env, id);
    }
  }

  /** Packets of any messages, delivered once each in any order and interleaved at will, under
      numbers distinct among the messages in flight: what is handed over are the completed
      messages in the order of completion, no message is completed twice, and once nothing is in
      flight every message begun was handed over exactly once and no incomplete entry is left. */
  lemma Reassembly(events: seq<Event>)
    ensures var c := Run(events);
      && HandedOver(c.env.begun, c.env.completed, c.state.delivered)
      && Distinct(c.env.completed)
      && (forall m :: m in c.state.incomplete ==> m in c.env.flights)
      && (c.env.flights == map[] ==>
            c.state.incomplete == map[] && multiset(c.state.delivered) == multiset(c.env.begun))
  {
    hide Run, FlightsInv, HandedOver, Filed, InFlight;
    var c := Run(events);
    if c.env.flights == map[] {
      NothingInFlight(c.env);
      CompletedPermutation(c.env.begun, c.env.completed, c.state.delivered);
      assert forall m :: m !in c.state.incomplete;
      assert c.state.incomplete == map[];
    }
  }
}
