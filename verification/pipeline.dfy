/**
 The request pipeline: connections take requests from a pool, decoders decode them in any order, and each
 connection's output worker puts the replies back in sequence.

 Queues are bounded FIFOs whose operations are atomic.  `place` says where each pooled request is.
 */
module Pipeline {
  import opened Arithmetic
  import opened FiniteSets
  import opened Wrappers

  type Id = nat

  datatype Place =
    | Free | Held(c: nat) | ToDecode | Decoding(d: nat) | ToOutput(c: nat) | Waiting(c: nat) | Sending(c: nat)

  /** A connection with its output backend.  `sent` lists the requests replied to in the order written, and
      `numbered` which request had which sequence number. */
  datatype Conn = Conn(
    sequence: nat, held: Option<Id>, closing: bool, waited: nat,
    outQueue: seq<Id>, base: nat, buffer: seq<Option<Id>>, sending: Option<Id>, posting: bool,
    counter: nat, sent: seq<Id>, numbered: seq<Id>)

  datatype State = State(
    free: seq<Id>, decodeQueue: seq<Id>, decoders: seq<Option<Id>>, outCapacity: nat, conns: seq<Conn>,
    sequenceOf: seq<nat>, connOf: seq<nat>, place: seq<Place>)

  function NewConn(): (conn: Conn) {
    Conn(0, None, false, 0, [], 0, [], None, false, 0, [], [])
  }

  function Requests(s: State): (count: nat) {
    |s.place|
  }

  datatype Action =
    | GetFree(c: nat)    // take a free request
    | Submit(c: nat)     // number the request and send it to the decoders
    | Decode(d: nat)     // a decoder takes a request
    | Decoded(d: nat)    // and passes it on to its connection's output queue
    | Receive(c: nat)    // the output worker puts a request into its place
    | Send(c: nat)       // writes the reply that is next in sequence
    | Return(c: nat)     // frees the request
    | Post(c: nat)       // and counts the reply
    | Close(c: nat)      // the connection stops reading
    | Wait(c: nat)       // and waits for its replies
    | Reopen(c: nat)     // a new connection reuses the output backend

  predicate FrontReady(conn: Conn) {
    conn.buffer != [] && conn.buffer[0].Some?
  }

  /** What must hold for the action not to block or not to make sense. */
  predicate Enabled(s: State, a: Action)
  {
    && |s.sequenceOf| == |s.connOf| == |s.place|
    && match a
       case GetFree(c) => c < |s.conns| && !s.conns[c].closing && s.conns[c].held == None
                          && s.free != [] && s.free[0] < |s.place|
       case Submit(c) => c < |s.conns| && s.conns[c].held.Some? && s.conns[c].held.value < |s.place|
                         && |s.decodeQueue| < Requests(s)
       case Decode(d) => d < |s.decoders| && s.decoders[d] == None && s.decodeQueue != []
                         && s.decodeQueue[0] < |s.place|
       case Decoded(d) => d < |s.decoders| && s.decoders[d].Some? && s.decoders[d].value < |s.place|
                          && s.connOf[s.decoders[d].value] < |s.conns|
                          && |s.conns[s.connOf[s.decoders[d].value]].outQueue| < s.outCapacity
       case Receive(c) => c < |s.conns| && s.conns[c].outQueue != [] && s.conns[c].outQueue[0] < |s.place|
                          && !FrontReady(s.conns[c]) && s.conns[c].sending == None && !s.conns[c].posting
       case Send(c) => c < |s.conns| && FrontReady(s.conns[c]) && s.conns[c].sending == None
                       && !s.conns[c].posting && s.conns[c].buffer[0].value < |s.place|
       case Post(c) => c < |s.conns| && s.conns[c].posting
       case Return(c) => c < |s.conns| && s.conns[c].sending.Some? && !s.conns[c].posting
                         && s.conns[c].sending.value < |s.place| && |s.free| < Requests(s)
       case Close(c) => c < |s.conns| && !s.conns[c].closing && s.conns[c].held == None
       case Wait(c) => c < |s.conns| && s.conns[c].closing && s.conns[c].waited < s.conns[c].sequence
                       && s.conns[c].counter > 0
       case Reopen(c) => c < |s.conns| && s.conns[c].closing && s.conns[c].waited == s.conns[c].sequence
  }

  function Resize(buffer: seq<Option<Id>>, size: nat): (r: seq<Option<Id>>)
    ensures |r| == if |buffer| < size then size else |buffer|
    ensures forall i :: 0 <= i < |r| ==> r[i] == if i < |buffer| then buffer[i] else None
  {
    if |buffer| < size then buffer + seq(size - |buffer|, _ => None) else buffer
  }

  /** The difference of unsigned 64-bit numbers. */
  function Offset(number: nat, base: nat): (at: nat)
    ensures number >= base ==> at == number - base
    ensures number < base ==> at < 0x1_0000_0000_0000_0000
    ensures exists n :: n * 0x1_0000_0000_0000_0000 + at == number - base
  {
    if number >= base then
      assert 0 * 0x1_0000_0000_0000_0000 + number - base == number - base;
      number - base
    else
      var n, at := (number - base) / 0x1_0000_0000_0000_0000, (number - base) % 0x1_0000_0000_0000_0000;
      assert n * 0x1_0000_0000_0000_0000 + at == number - base;
      at
  }

  function WithConn(s: State, c: nat, conn: Conn): (after: State)
    requires c < |s.conns|
  {
    s.(conns := s.conns[c := conn])
  }

  function Do(s: State, a: Action): (after: State)
    requires Enabled(s, a)
  {
    match a
    case GetFree(c) =>
      WithConn(s, c, s.conns[c].(held := Some(s.free[0])))
        .(free := s.free[1..], place := s.place[s.free[0] := Held(c)])
    case Submit(c) =>
      var conn := s.conns[c];
      var id := conn.held.value;
      WithConn(s, c, conn.(held := None, sequence := conn.sequence + 1, numbered := conn.numbered + [id]))
        .(decodeQueue := s.decodeQueue + [id], sequenceOf := s.sequenceOf[id := conn.sequence],
          connOf := s.connOf[id := c], place := s.place[id := ToDecode])
    case Decode(d) =>
      s.(decoders := s.decoders[d := Some(s.decodeQueue[0])], decodeQueue := s.decodeQueue[1..],
         place := s.place[s.decodeQueue[0] := Decoding(d)])
    case Decoded(d) =>
      var id := s.decoders[d].value;
      var c := s.connOf[id];
      WithConn(s, c, s.conns[c].(outQueue := s.conns[c].outQueue + [id]))
        .(decoders := s.decoders[d := None], place := s.place[id := ToOutput(c)])
    case Receive(c) =>
      var conn := s.conns[c];
      var id := conn.outQueue[0];
      var at := Offset(s.sequenceOf[id], conn.base);
      WithConn(s, c, conn.(outQueue := conn.outQueue[1..], buffer := Resize(conn.buffer, at + 1)[at := Some(id)]))
        .(place := s.place[id := Waiting(c)])
    case Send(c) =>
      var conn := s.conns[c];
      var id := conn.buffer[0].value;
      WithConn(s, c, conn.(buffer := conn.buffer[1..], base := conn.base + 1, sending := Some(id),
                           sent := conn.sent + [id]))
        .(place := s.place[id := Sending(c)])
    case Return(c) =>
      var conn := s.conns[c];
      WithConn(s, c, conn.(sending := None, posting := true))
        .(free := s.free + [conn.sending.value], place := s.place[conn.sending.value := Free])
    case Post(c) => WithConn(s, c, s.conns[c].(posting := false, counter := s.conns[c].counter + 1))
    case Close(c) => WithConn(s, c, s.conns[c].(closing := true))
    case Wait(c) => WithConn(s, c, s.conns[c].(counter := s.conns[c].counter - 1, waited := s.conns[c].waited + 1))
    case Reopen(c) => WithConn(s, c, s.conns[c].(sequence := 0, closing := false, waited := 0, base := 0,
                                                 sent := [], numbered := []))
  }

  ghost predicate Init(s: State) {
    && |s.sequenceOf| == |s.connOf| == |s.place|
    && s.free == seq(|s.place|, i => i) && s.decodeQueue == []
    && (forall d :: 0 <= d < |s.decoders| ==> s.decoders[d] == None)
    && (forall c :: 0 <= c < |s.conns| ==> s.conns[c] == NewConn())
    && (forall id :: 0 <= id < |s.place| ==> s.place[id] == Free)
  }

  // ----- places

  /** The queue has exactly the requests in this place, each once. */
  ghost predicate Has(q: seq<Id>, place: seq<Place>, p: Place) {
    Distinct(q) && forall id :: id in q <==> 0 <= id < |place| && place[id] == p
  }

  ghost predicate HasOne(o: Option<Id>, place: seq<Place>, p: Place) {
    forall id: Id :: o == Some(id) <==> id < |place| && place[id] == p
  }

  /** The buffer has the requests in this place, each at its sequence number. */
  ghost predicate HasAt(buffer: seq<Option<Id>>, base: nat, place: seq<Place>, p: Place, sequenceOf: seq<nat>) {
    && |sequenceOf| == |place|
    && (forall i :: 0 <= i < |buffer| && buffer[i].Some? ==>
         buffer[i].value < |place| && place[buffer[i].value] == p && sequenceOf[buffer[i].value] == base + i)
    && (forall id: Id :: id < |place| && place[id] == p ==>
         base <= sequenceOf[id] < base + |buffer| && buffer[sequenceOf[id]-base] == Some(id))
  }

  lemma HasPut(q: seq<Id>, place: seq<Place>, p: Place, id: Id)
    requires Has(q, place, p) && id < |place| && place[id] != p
    ensures Has(q + [id], place[id := p], p)
  {}

  lemma HasTake(q: seq<Id>, place: seq<Place>, p: Place, p': Place)
    requires Has(q, place, p) && q != [] && p' != p
    ensures q[0] < |place| && place[q[0]] == p && Has(q[1..], place[q[0] := p'], p)
  {
    assert q == [q[0]] + q[1..];
    assert q[0] in q;
    forall id ensures id in q[1..] <==> id in q && id != q[0] {
      if id in q[1..] {
        var i :| 0 <= i < |q[1..]| && q[1..][i] == id;
        assert q[i+1] == id;
      }
    }
  }

  lemma HasOther(q: seq<Id>, place: seq<Place>, p: Place, id: Id, p': Place)
    requires Has(q, place, p) && id < |place| && place[id] != p && p' != p
    ensures Has(q, place[id := p'], p)
  {}

  lemma OneOther(o: Option<Id>, place: seq<Place>, p: Place, id: Id, p': Place)
    requires HasOne(o, place, p) && id < |place| && place[id] != p && p' != p
    ensures HasOne(o, place[id := p'], p)
  {}

  lemma OnePut(place: seq<Place>, p: Place, id: Id)
    requires HasOne(None, place, p) && id < |place|
    ensures HasOne(Some(id), place[id := p], p)
  {
    forall i: Id ensures Some(id) == Some(i) <==> i < |place| && place[id := p][i] == p {
      assert i < |place| && place[i] == p ==> None == Some(i);
    }
  }

  lemma OneTake(id: Id, place: seq<Place>, p: Place, p': Place)
    requires HasOne(Some(id), place, p) && p' != p
    ensures id < |place| && place[id] == p && HasOne(None, place[id := p'], p)
  {
    assert Some(id) == Some(id);
  }

  lemma AtOther(buffer: seq<Option<Id>>, base: nat, place: seq<Place>, p: Place, sequenceOf: seq<nat>, id: Id,
      p': Place)
    requires HasAt(buffer, base, place, p, sequenceOf) && id < |place| && place[id] != p && p' != p
    ensures HasAt(buffer, base, place[id := p'], p, sequenceOf)
  {}

  /** Numbering a request that is elsewhere leaves the buffer right. */
  lemma AtNumber(buffer: seq<Option<Id>>, base: nat, place: seq<Place>, p: Place, sequenceOf: seq<nat>, id: Id, n: nat)
    requires HasAt(buffer, base, place, p, sequenceOf) && id < |place| && place[id] != p
    ensures HasAt(buffer, base, place, p, sequenceOf[id := n])
  {}

  /** The slot for a request that was not there is free. */
  lemma AtPut(buffer: seq<Option<Id>>, base: nat, place: seq<Place>, p: Place, sequenceOf: seq<nat>, id: Id)
    requires HasAt(buffer, base, place, p, sequenceOf) && id < |place| && place[id] != p && base <= sequenceOf[id]
    requires forall other: Id :: other < |place| && place[other] == p ==> sequenceOf[other] != sequenceOf[id]
    ensures var at := sequenceOf[id] - base;
      && (at < |buffer| ==> buffer[at] == None)
      && HasAt(Resize(buffer, at + 1)[at := Some(id)], base, place[id := p], p, sequenceOf)
  {
    var at := sequenceOf[id] - base;
    var after, placed := Resize(buffer, at + 1)[at := Some(id)], place[id := p];
    forall i | 0 <= i < |after| && after[i].Some?
      ensures after[i].value < |placed| && placed[after[i].value] == p && sequenceOf[after[i].value] == base + i
    {
      if i != at { assert buffer[i] == after[i]; }
    }
    forall other: Id | other < |placed| && placed[other] == p
      ensures base <= sequenceOf[other] < base + |after| && after[sequenceOf[other]-base] == Some(other)
    {
      if other != id { assert buffer[sequenceOf[other]-base] == Some(other); }
    }
  }

  lemma AtTake(buffer: seq<Option<Id>>, base: nat, place: seq<Place>, p: Place, sequenceOf: seq<nat>, p': Place)
    requires HasAt(buffer, base, place, p, sequenceOf) && buffer != [] && buffer[0].Some? && p' != p
    ensures var id := buffer[0].value;
      id < |place| && place[id] == p && sequenceOf[id] == base &&
      HasAt(buffer[1..], base + 1, place[id := p'], p, sequenceOf)
  {
    var id := buffer[0].value;
    forall i | 0 <= i < |buffer[1..]| && buffer[1..][i].Some?
      ensures buffer[1..][i].value < |place| && place[id := p'][buffer[1..][i].value] == p
      ensures sequenceOf[buffer[1..][i].value] == base + 1 + i
    {
      assert buffer[1..][i] == buffer[i+1];
    }
    forall other: Id | other < |place| && place[id := p'][other] == p
      ensures base + 1 <= sequenceOf[other] < base + 1 + |buffer[1..]|
      ensures buffer[1..][sequenceOf[other]-(base+1)] == Some(other)
    {
      assert buffer[sequenceOf[other]-base] == Some(other);
    }
  }

  // ----- the invariant

  predicate InFlight(p: Place) {
    p.ToDecode? || p.Decoding? || p.ToOutput? || p.Waiting?
  }

  ghost predicate Shared(s: State) {
    && |s.sequenceOf| == |s.connOf| == |s.place|
    && Has(s.free, s.place, Free) && Has(s.decodeQueue, s.place, ToDecode)
    && forall d :: 0 <= d < |s.decoders| ==> HasOne(s.decoders[d], s.place, Decoding(d))
  }

  ghost predicate ConnPlaces(conn: Conn, c: nat, place: seq<Place>, sequenceOf: seq<nat>) {
    && HasOne(conn.held, place, Held(c)) && Has(conn.outQueue, place, ToOutput(c))
    && HasAt(conn.buffer, conn.base, place, Waiting(c), sequenceOf) && HasOne(conn.sending, place, Sending(c))
  }

  /** Replies have gone out in sequence, and each was counted once it was complete. */
  ghost predicate ConnNumbers(conn: Conn) {
    && |conn.sent| == conn.base <= conn.sequence && |conn.numbered| == conn.sequence
    && conn.sent == conn.numbered[..conn.base]
    && conn.counter + conn.waited + One(conn.sending.Some?) + One(conn.posting) == conn.base
    && (conn.posting ==> conn.sending == None)
    && (conn.closing ==> conn.held == None) && conn.base + |conn.buffer| <= conn.sequence
  }

  /** The request with this number of the connection is in flight. */
  ghost predicate FlightAt(s: State, c: nat, q: nat)
    requires c < |s.conns| && |s.sequenceOf| == |s.connOf| == |s.place| && q < |s.conns[c].numbered|
  {
    var id := s.conns[c].numbered[q];
    id < |s.place| && InFlight(s.place[id]) && s.connOf[id] == c && s.sequenceOf[id] == q
  }

  /** If the request of the connection is in flight, its number has not been sent. */
  ghost predicate FlightOf(s: State, c: nat, id: Id)
    requires c < |s.conns| && |s.sequenceOf| == |s.connOf| == |s.place| && id < |s.place|
  {
    InFlight(s.place[id]) && s.connOf[id] == c ==>
      s.conns[c].base <= s.sequenceOf[id] < |s.conns[c].numbered| && s.conns[c].numbered[s.sequenceOf[id]] == id
  }

  /** The requests of this connection that are in flight are those with the numbers not yet sent. */
  ghost predicate ConnFlights(s: State, c: nat)
    requires c < |s.conns| && |s.sequenceOf| == |s.connOf| == |s.place|
  {
    && |s.conns[c].numbered| == s.conns[c].sequence
    && (forall q: nat :: s.conns[c].base <= q < |s.conns[c].numbered| ==> FlightAt(s, c, q))
    && (forall id: Id :: id < |s.place| ==> FlightOf(s, c, id))
  }

  ghost predicate Owners(s: State)
    requires |s.sequenceOf| == |s.connOf| == |s.place|
  {
    forall id :: 0 <= id < |s.place| ==>
      && (InFlight(s.place[id]) ==> s.connOf[id] < |s.conns|)
      && (s.place[id].ToOutput? || s.place[id].Waiting? ==> s.connOf[id] == s.place[id].c)
      && ((s.place[id].Held? || s.place[id].Sending?) ==> s.place[id].c < |s.conns|)
      && (s.place[id].Decoding? ==> s.place[id].d < |s.decoders|)
  }

  ghost predicate Inv(s: State) {
    && Shared(s) && Owners(s)
    && forall c :: 0 <= c < |s.conns| ==>
         ConnPlaces(s.conns[c], c, s.place, s.sequenceOf) && ConnNumbers(s.conns[c]) && ConnFlights(s, c)
  }

  lemma InitInv(s: State)
    requires Init(s)
    ensures Inv(s)
  {
    hide Inv;
    InitShared(s);
    hide Shared;
    forall c | 0 <= c < |s.conns|
      ensures ConnPlaces(s.conns[c], c, s.place, s.sequenceOf) && ConnNumbers(s.conns[c]) && ConnFlights(s, c)
    {
      InitConn(s, c);
    }
    InvIs(s);
  }

  lemma InvIs(s: State)
    requires Shared(s) && Owners(s)
    requires forall c :: 0 <= c < |s.conns| ==>
      ConnPlaces(s.conns[c], c, s.place, s.sequenceOf) && ConnNumbers(s.conns[c]) && ConnFlights(s, c)
    ensures Inv(s)
  {
    hide ConnPlaces, ConnNumbers, ConnFlights, Owners;
  }

  lemma InitShared(s: State)
    requires Init(s)
    ensures Shared(s) && Owners(s)
  {
    forall id ensures id in s.free <==> 0 <= id < |s.place| {
      assert 0 <= id < |s.place| ==> s.free[id] == id;
    }
  }

  lemma InitConn(s: State, c: nat)
    requires Init(s) && c < |s.conns|
    ensures ConnPlaces(s.conns[c], c, s.place, s.sequenceOf) && ConnNumbers(s.conns[c]) && ConnFlights(s, c)
  {}

  /** Moving one request from place to place leaves the containers of all other places right. */
  lemma SharedOther(s: State, id: Id, p: Place)
    requires Shared(s) && id < |s.place|
    ensures s.place[id] != Free && p != Free ==> Has(s.free, s.place[id := p], Free)
    ensures s.place[id] != ToDecode && p != ToDecode ==> Has(s.decodeQueue, s.place[id := p], ToDecode)
    ensures forall d :: 0 <= d < |s.decoders| && s.place[id] != Decoding(d) && p != Decoding(d) ==>
      HasOne(s.decoders[d], s.place[id := p], Decoding(d))
  {
    hide Has, HasOne;
    if s.place[id] != Free && p != Free { HasOther(s.free, s.place, Free, id, p); }
    if s.place[id] != ToDecode && p != ToDecode { HasOther(s.decodeQueue, s.place, ToDecode, id, p); }
    forall d | 0 <= d < |s.decoders| && s.place[id] != Decoding(d) && p != Decoding(d)
      ensures HasOne(s.decoders[d], s.place[id := p], Decoding(d))
    {
      OneOther(s.decoders[d], s.place, Decoding(d), id, p);
    }
  }

  lemma ConnOther(conn: Conn, c: nat, place: seq<Place>, sequenceOf: seq<nat>, id: Id, p: Place)
    requires ConnPlaces(conn, c, place, sequenceOf) && id < |place|
    ensures place[id] != Held(c) && p != Held(c) ==> HasOne(conn.held, place[id := p], Held(c))
    ensures place[id] != ToOutput(c) && p != ToOutput(c) ==> Has(conn.outQueue, place[id := p], ToOutput(c))
    ensures place[id] != Waiting(c) && p != Waiting(c) ==>
      HasAt(conn.buffer, conn.base, place[id := p], Waiting(c), sequenceOf)
    ensures place[id] != Sending(c) && p != Sending(c) ==> HasOne(conn.sending, place[id := p], Sending(c))
  {
    hide Has, HasOne, HasAt;
    if place[id] != Held(c) && p != Held(c) { OneOther(conn.held, place, Held(c), id, p); }
    if place[id] != ToOutput(c) && p != ToOutput(c) { HasOther(conn.outQueue, place, ToOutput(c), id, p); }
    if place[id] != Waiting(c) && p != Waiting(c) {
      AtOther(conn.buffer, conn.base, place, Waiting(c), sequenceOf, id, p);
    }
    if place[id] != Sending(c) && p != Sending(c) { OneOther(conn.sending, place, Sending(c), id, p); }
  }

  predicate Of(p: Place, c: nat) {
    p == Held(c) || p == ToOutput(c) || p == Waiting(c) || p == Sending(c)
  }

  /** A move that does not concern connection `c`. */
  lemma ConnUntouched(conn: Conn, c: nat, place: seq<Place>, sequenceOf: seq<nat>, id: Id, p: Place)
    requires ConnPlaces(conn, c, place, sequenceOf) && id < |place| && !Of(place[id], c) && !Of(p, c)
    ensures ConnPlaces(conn, c, place[id := p], sequenceOf)
  {
    hide Has, HasOne, HasAt;
    ConnOther(conn, c, place, sequenceOf, id, p);
  }

  lemma ConnAt(s: State, c: nat)
    requires Inv(s) && c < |s.conns|
    ensures ConnPlaces(s.conns[c], c, s.place, s.sequenceOf) && ConnNumbers(s.conns[c]) && ConnFlights(s, c)
  {}

  /** A move within the flight of a request, or outside it, keeps the numbering. */
  lemma FlightsKept(s: State, s': State, c: nat, id: Id, p: Place)
    requires |s.sequenceOf| == |s.connOf| == |s.place| && c < |s.conns| && |s'.conns| == |s.conns| && ConnFlights(s, c)
    requires s'.sequenceOf == s.sequenceOf && s'.connOf == s.connOf && id < |s.place| && s'.place == s.place[id := p]
    requires InFlight(s.place[id]) <==> InFlight(p)
    requires s'.conns[c].base == s.conns[c].base && s'.conns[c].sequence == s.conns[c].sequence
    requires s'.conns[c].numbered == s.conns[c].numbered
    ensures ConnFlights(s', c)
  {
    forall q: nat | s.conns[c].base <= q < |s.conns[c].numbered| ensures FlightAt(s', c, q) {
      assert FlightAt(s, c, q);
    }
    forall i: Id | i < |s.place| ensures FlightOf(s', c, i) {
      assert FlightOf(s, c, i);
    }
  }

  lemma StepGetFree(s: State, c: nat)
    requires Inv(s) && Enabled(s, GetFree(c))
    ensures Inv(Do(s, GetFree(c)))
  {
    hide Has, HasOne, HasAt, ConnFlights;
    var s' := Do(s, GetFree(c));
    var id := s.free[0];
    HasTake(s.free, s.place, Free, Held(c));
    SharedOther(s, id, Held(c));
    forall i | 0 <= i < |s.conns| ensures
      ConnPlaces(s'.conns[i], i, s'.place, s'.sequenceOf) && ConnNumbers(s'.conns[i]) && ConnFlights(s', i)
    {
      ConnAt(s, i);
      FlightsKept(s, s', i, id, Held(c));
      if i == c {
        ConnOther(s.conns[c], c, s.place, s.sequenceOf, id, Held(c));
        OnePut(s.place, Held(c), id);
      } else {
        ConnUntouched(s.conns[i], i, s.place, s.sequenceOf, id, Held(c));
      }
    }
  }

  lemma StepDecode(s: State, d: nat)
    requires Inv(s) && Enabled(s, Decode(d))
    ensures Inv(Do(s, Decode(d)))
  {
    hide Has, HasOne, HasAt, ConnFlights;
    var s' := Do(s, Decode(d));
    var id := s.decodeQueue[0];
    HasTake(s.decodeQueue, s.place, ToDecode, Decoding(d));
    SharedOther(s, id, Decoding(d));
    OnePut(s.place, Decoding(d), id);
    forall i | 0 <= i < |s.conns| ensures
      ConnPlaces(s'.conns[i], i, s'.place, s'.sequenceOf) && ConnNumbers(s'.conns[i]) && ConnFlights(s', i)
    {
      ConnAt(s, i);
      FlightsKept(s, s', i, id, Decoding(d));
      ConnUntouched(s.conns[i], i, s.place, s.sequenceOf, id, Decoding(d));
    }
  }

  lemma StepDecoded(s: State, d: nat)
    requires Inv(s) && Enabled(s, Decoded(d))
    ensures Inv(Do(s, Decoded(d)))
  {
    hide Has, HasOne, HasAt, ConnFlights;
    var s' := Do(s, Decoded(d));
    var id := s.decoders[d].value;
    var c := s.connOf[id];
    OneTake(id, s.place, Decoding(d), ToOutput(c));
    SharedOther(s, id, ToOutput(c));
    forall i | 0 <= i < |s.conns| ensures
      ConnPlaces(s'.conns[i], i, s'.place, s'.sequenceOf) && ConnNumbers(s'.conns[i]) && ConnFlights(s', i)
    {
      ConnAt(s, i);
      FlightsKept(s, s', i, id, ToOutput(c));
      if i == c {
        ConnOther(s.conns[c], c, s.place, s.sequenceOf, id, ToOutput(c));
        HasPut(s.conns[c].outQueue, s.place, ToOutput(c), id);
      } else {
        ConnUntouched(s.conns[i], i, s.place, s.sequenceOf, id, ToOutput(c));
      }
    }
  }

  lemma StepReceive(s: State, c: nat)
    requires Inv(s) && Enabled(s, Receive(c))
    ensures Inv(Do(s, Receive(c)))
    ensures s.sequenceOf[s.conns[c].outQueue[0]] >= s.conns[c].base
    ensures var at := s.sequenceOf[s.conns[c].outQueue[0]] - s.conns[c].base;
      at < |s.conns[c].buffer| ==> s.conns[c].buffer[at] == None
  {
    hide Has, HasOne, HasAt, ConnFlights;
    var s' := Do(s, Receive(c));
    var conn := s.conns[c];
    var id := conn.outQueue[0];
    ConnAt(s, c);
    HasTake(conn.outQueue, s.place, ToOutput(c), Waiting(c));
    SharedOther(s, id, Waiting(c));
    OnlyWithNumber(s, c, id);
    AtPut(conn.buffer, conn.base, s.place, Waiting(c), s.sequenceOf, id);
    forall i | 0 <= i < |s.conns| ensures
      ConnPlaces(s'.conns[i], i, s'.place, s'.sequenceOf) && ConnNumbers(s'.conns[i]) && ConnFlights(s', i)
    {
      ConnAt(s, i);
      FlightsKept(s, s', i, id, Waiting(c));
      if i == c {
        ConnOther(conn, c, s.place, s.sequenceOf, id, Waiting(c));
      } else {
        ConnUntouched(s.conns[i], i, s.place, s.sequenceOf, id, Waiting(c));
      }
    }
  }

  /** No two requests of a connection in flight have the same number, and the number is one not yet sent. */
  lemma OnlyWithNumber(s: State, c: nat, id: Id)
    requires Inv(s) && c < |s.conns| && id < |s.place| && InFlight(s.place[id]) && s.connOf[id] == c
    ensures s.conns[c].base <= s.sequenceOf[id] < s.conns[c].sequence
    ensures forall other: Id :: other < |s.place| && s.place[other] == Waiting(c) && other != id ==>
      s.sequenceOf[other] != s.sequenceOf[id]
  {
    hide Has, HasOne, HasAt;
    ConnAt(s, c);
    assert FlightOf(s, c, id);
    forall other: Id | other < |s.place| && s.place[other] == Waiting(c) && other != id
      ensures s.sequenceOf[other] != s.sequenceOf[id]
    {
      assert FlightOf(s, c, other);
    }
  }

  lemma StepSend(s: State, c: nat)
    requires Inv(s) && Enabled(s, Send(c))
    ensures Inv(Do(s, Send(c)))
  {
    hide Has, HasOne, HasAt, ConnFlights;
    var s' := Do(s, Send(c));
    var conn := s.conns[c];
    var id := conn.buffer[0].value;
    ConnAt(s, c);
    AtTake(conn.buffer, conn.base, s.place, Waiting(c), s.sequenceOf, Sending(c));
    SharedOther(s, id, Sending(c));
    OnlyWithNumber(s, c, id);
    forall i | 0 <= i < |s.conns| ensures
      ConnPlaces(s'.conns[i], i, s'.place, s'.sequenceOf) && ConnNumbers(s'.conns[i]) && ConnFlights(s', i)
    {
      ConnAt(s, i);
      FlightsSent(s, c, i);
      if i == c {
        ConnOther(conn, c, s.place, s.sequenceOf, id, Sending(c));
        OnePut(s.place, Sending(c), id);
      } else {
        ConnUntouched(s.conns[i], i, s.place, s.sequenceOf, id, Sending(c));
      }
    }
  }

  lemma FlightsSent(s: State, c: nat, i: nat)
    requires Inv(s) && Enabled(s, Send(c)) && i < |s.conns|
    requires var id := s.conns[c].buffer[0].value;
      s.place[id] == Waiting(c) && s.sequenceOf[id] == s.conns[c].base && s.connOf[id] == c
    ensures ConnFlights(Do(s, Send(c)), i)
    ensures s.conns[c].base < |s.conns[c].numbered|
    ensures s.conns[c].numbered[s.conns[c].base] == s.conns[c].buffer[0].value
  {
    hide Has, HasOne, HasAt;
    ConnAt(s, i);
    ConnAt(s, c);
    var id, s' := s.conns[c].buffer[0].value, Do(s, Send(c));
    assert FlightOf(s, c, id);
    forall q: nat | s'.conns[i].base <= q < |s'.conns[i].numbered| ensures FlightAt(s', i, q) {
      assert FlightAt(s, i, q);
    }
    forall other: Id | other < |s.place| ensures FlightOf(s', i, other) {
      assert FlightOf(s, i, other);
    }
  }

  lemma StepReturn(s: State, c: nat)
    requires Inv(s) && Enabled(s, Return(c))
    ensures Inv(Do(s, Return(c)))
  {
    hide Has, HasOne, HasAt, ConnFlights;
    var s' := Do(s, Return(c));
    var id := s.conns[c].sending.value;
    ConnAt(s, c);
    OneTake(id, s.place, Sending(c), Free);
    HasPut(s.free, s.place, Free, id);
    SharedOther(s, id, Free);
    forall i | 0 <= i < |s.conns| ensures
      ConnPlaces(s'.conns[i], i, s'.place, s'.sequenceOf) && ConnNumbers(s'.conns[i]) && ConnFlights(s', i)
    {
      ConnAt(s, i);
      FlightsKept(s, s', i, id, Free);
      if i == c {
        ConnOther(s.conns[c], c, s.place, s.sequenceOf, id, Free);
      } else {
        ConnUntouched(s.conns[i], i, s.place, s.sequenceOf, id, Free);
      }
    }
  }

  lemma StepSubmit(s: State, c: nat)
    requires Inv(s) && Enabled(s, Submit(c))
    ensures Inv(Do(s, Submit(c)))
  {
    hide Has, HasOne, HasAt, ConnFlights;
    var s' := Do(s, Submit(c));
    var conn := s.conns[c];
    var id := conn.held.value;
    ConnAt(s, c);
    OneTake(id, s.place, Held(c), ToDecode);
    HasPut(s.decodeQueue, s.place, ToDecode, id);
    SharedOther(s, id, ToDecode);
    forall i | 0 <= i < |s.conns| ensures
      ConnPlaces(s'.conns[i], i, s'.place, s'.sequenceOf) && ConnNumbers(s'.conns[i]) && ConnFlights(s', i)
    {
      ConnAt(s, i);
      FlightsNumbered(s, c, i);
      AtNumber(s.conns[i].buffer, s.conns[i].base, s.place, Waiting(i), s.sequenceOf, id, conn.sequence);
      if i == c {
        ConnOther(conn, c, s.place, s'.sequenceOf, id, ToDecode);
      } else {
        ConnUntouched(s.conns[i], i, s.place, s'.sequenceOf, id, ToDecode);
      }
    }
  }

  lemma FlightsNumbered(s: State, c: nat, i: nat)
    requires Inv(s) && Enabled(s, Submit(c)) && i < |s.conns| && s.place[s.conns[c].held.value] == Held(c)
    ensures ConnFlights(Do(s, Submit(c)), i)
  {
    hide Has, HasOne, HasAt;
    ConnAt(s, i);
    ConnAt(s, c);
    var id, s' := s.conns[c].held.value, Do(s, Submit(c));
    forall q: nat | s'.conns[i].base <= q < |s'.conns[i].numbered| ensures FlightAt(s', i, q) {
      if q < |s.conns[i].numbered| { assert FlightAt(s, i, q); }
    }
    forall other: Id | other < |s.place| ensures FlightOf(s', i, other) {
      assert FlightOf(s, i, other);
    }
  }

  /** Nothing but what the connection knows of its closing has changed. */
  lemma FlightsAlike(s: State, s': State, c: nat)
    requires |s.sequenceOf| == |s.connOf| == |s.place| && c < |s.conns| == |s'.conns| && ConnFlights(s, c)
    requires s'.sequenceOf == s.sequenceOf && s'.connOf == s.connOf && s'.place == s.place
    requires s'.conns[c].base == s.conns[c].base && s'.conns[c].sequence == s.conns[c].sequence
    requires s'.conns[c].numbered == s.conns[c].numbered
    ensures ConnFlights(s', c)
  {
    forall q: nat | s.conns[c].base <= q < |s.conns[c].numbered| ensures FlightAt(s', c, q) {
      assert FlightAt(s, c, q);
    }
    forall i: Id | i < |s.place| ensures FlightOf(s', c, i) {
      assert FlightOf(s, c, i);
    }
  }

  lemma StepClose(s: State, a: Action)
    requires Inv(s) && Enabled(s, a) && (a.Close? || a.Wait? || a.Post?)
    ensures Inv(Do(s, a))
  {
    hide Has, HasOne, HasAt, ConnFlights;
    var s' := Do(s, a);
    forall i | 0 <= i < |s.conns| ensures
      ConnPlaces(s'.conns[i], i, s'.place, s'.sequenceOf) && ConnNumbers(s'.conns[i]) && ConnFlights(s', i)
    {
      ConnAt(s, i);
      FlightsAlike(s, s', i);
    }
  }

  lemma FirstIn(q: seq<Id>)
    ensures q == [] || q[0] in q
  {}

  /** When a connection has waited for all its replies, the output backend is idle: the assertion in its reset holds,
      and so would one that its counter is zero. */
  lemma IdleWhenWaited(s: State, c: nat)
    requires Inv(s) && Enabled(s, Reopen(c))
    ensures var conn := s.conns[c];
      && conn.buffer == [] && conn.outQueue == [] && conn.counter == 0 && conn.sending == None && !conn.posting
      && conn.base == conn.sequence && conn.held == None
    ensures forall id :: 0 <= id < |s.place| && InFlight(s.place[id]) ==> s.connOf[id] != c
  {
    hide HasOne;
    ConnAt(s, c);
    var conn := s.conns[c];
    forall id: Id | id < |s.place| && InFlight(s.place[id]) ensures s.connOf[id] != c { assert FlightOf(s, c, id); }
    FirstIn(conn.outQueue);
  }

  lemma NoFlights(s: State, c: nat)
    requires |s.sequenceOf| == |s.connOf| == |s.place| && c < |s.conns|
    requires s.conns[c].numbered == [] && s.conns[c].sequence == 0
    requires forall id :: 0 <= id < |s.place| && InFlight(s.place[id]) ==> s.connOf[id] != c
    ensures ConnFlights(s, c)
  {}

  lemma StepReopen(s: State, c: nat)
    requires Inv(s) && Enabled(s, Reopen(c))
    ensures Inv(Do(s, Reopen(c)))
  {
    hide Has, HasOne, ConnFlights;
    var s' := Do(s, Reopen(c));
    IdleWhenWaited(s, c);
    forall i | 0 <= i < |s.conns| ensures
      ConnPlaces(s'.conns[i], i, s'.place, s'.sequenceOf) && ConnNumbers(s'.conns[i]) && ConnFlights(s', i)
    {
      ConnAt(s, i);
      if i == c { NoFlights(s', c); } else { FlightsAlike(s, s', i); }
    }
  }

  lemma StepInv(s: State, a: Action)
    requires Inv(s) && Enabled(s, a)
    ensures Inv(Do(s, a))
  {
    hide Inv, Enabled, Do;
    match a
    case GetFree(c) => StepGetFree(s, c);
    case Submit(c) => StepSubmit(s, c);
    case Decode(d) => StepDecode(s, d);
    case Decoded(d) => StepDecoded(s, d);
    case Receive(c) => StepReceive(s, c);
    case Send(c) => StepSend(s, c);
    case Return(c) => StepReturn(s, c);
    case Post(c) => StepClose(s, a);
    case Close(c) => StepClose(s, a);
    case Wait(c) => StepClose(s, a);
    case Reopen(c) => StepReopen(s, c);
  }

  // ----- every run

  ghost predicate Run(s: State, actions: seq<Action>, s': State)
    decreases |actions|
  {
    if actions == [] then s' == s
    else Enabled(s, actions[0]) && Run(Do(s, actions[0]), actions[1..], s')
  }

  lemma {:induction false} RunInv(s: State, actions: seq<Action>, s': State)
    requires Inv(s) && Run(s, actions, s')
    ensures Inv(s')
    decreases |actions|
  {
    hide Inv, Enabled, Do;
    if actions != [] {
      StepInv(s, actions[0]);
      RunInv(Do(s, actions[0]), actions[1..], s');
    }
  }

  /** No output queue holds more than it has room for. */
  ghost predicate Bounded(s: State) {
    forall c :: 0 <= c < |s.conns| ==> |s.conns[c].outQueue| <= s.outCapacity
  }

  lemma {:induction false} RunBounded(s: State, actions: seq<Action>, s': State)
    requires Bounded(s) && Run(s, actions, s')
    ensures Bounded(s')
    decreases |actions|
  {
    if actions != [] {
      assert Bounded(Do(s, actions[0]));
      RunBounded(Do(s, actions[0]), actions[1..], s');
    }
  }

  /** Whatever order decoding finishes in, each connection's replies have gone out for its requests in the order
      they were submitted, one each; and a connection that is done waiting has had a reply for every request. */
  lemma RepliesInOrder(s: State, actions: seq<Action>, s': State, c: nat)
    requires Init(s) && Run(s, actions, s') && c < |s'.conns|
    ensures var conn := s'.conns[c];
      && conn.base <= conn.sequence == |conn.numbered| && conn.sent == conn.numbered[..conn.base]
      && (Enabled(s', Reopen(c)) ==> conn.sent == conn.numbered) && |conn.outQueue| <= s'.outCapacity
  {
    RunBounded(s, actions, s');
    InitInv(s);
    RunInv(s, actions, s');
    ConnAt(s', c);
  }

  // ----- one place

  /** The request is in the container for this place. */
  ghost predicate In(s: State, id: Id, p: Place) {
    match p
    case Free => id in s.free
    case Held(c) => c < |s.conns| && s.conns[c].held == Some(id)
    case ToDecode => id in s.decodeQueue
    case Decoding(d) => d < |s.decoders| && s.decoders[d] == Some(id)
    case ToOutput(c) => c < |s.conns| && id in s.conns[c].outQueue
    case Waiting(c) => c < |s.conns| && Some(id) in s.conns[c].buffer
    case Sending(c) => c < |s.conns| && s.conns[c].sending == Some(id)
  }

  /** Each pooled request is in exactly one container. */
  lemma ExactlyOnePlace(s: State, id: Id, p: Place)
    requires Inv(s) && id < |s.place|
    ensures In(s, id, p) <==> p == s.place[id]
  {
    match p
    case Free =>
    case ToDecode =>
    case Decoding(d) => if d < |s.decoders| { assert HasOne(s.decoders[d], s.place, p); }
    case Held(c) => if c < |s.conns| { ConnAt(s, c); }
    case ToOutput(c) => if c < |s.conns| { ConnAt(s, c); }
    case Waiting(c) => if c < |s.conns| { ConnAt(s, c); }
    case Sending(c) => if c < |s.conns| { ConnAt(s, c); }
  }

  // ----- queues that never fill

  /** A queue that holds only requests, each once, and not all of them, has room for one more. */
  lemma RoomForOne(q: seq<Id>, place: seq<Place>, p: Place, id: Id)
    requires Has(q, place, p) && id < |place| && place[id] != p
    ensures |q| < |place|
  {
    DistinctSize(q);
    forall x | x in Elements(q) ensures x in Below(|place|) - {id} {
      assert x in q;
    }
    SubsetSize(Elements(q), Below(|place|) - {id});
  }

  /** Returning a request to the free queue never blocks, nor does submitting one to the decoders. */
  lemma NeverBlocks(s: State, c: nat)
    requires Inv(s) && c < |s.conns|
    ensures s.conns[c].sending.Some? ==> Enabled(s, Return(c))
    ensures s.conns[c].held.Some? ==> Enabled(s, Submit(c))
  {
    hide Has;
    ConnAt(s, c);
    if s.conns[c].sending.Some? { RoomForOne(s.free, s.place, Free, s.conns[c].sending.value); }
    if s.conns[c].held.Some? { RoomForOne(s.decodeQueue, s.place, ToDecode, s.conns[c].held.value); }
  }

  // ----- progress

  /** Steps of the decoders and of the output workers. */
  predicate Internal(a: Action) {
    a.Decode? || a.Decoded? || a.Receive? || a.Send? || a.Return? || a.Post?
  }

  /** An output worker with anything in its queue or ready can go on. */
  lemma OutputProgress(s: State, c: nat) returns (a: Action)
    requires Inv(s) && c < |s.conns|
    requires s.conns[c].outQueue != [] || FrontReady(s.conns[c]) || s.conns[c].sending.Some? || s.conns[c].posting
    ensures Enabled(s, a) && Internal(a)
  {
    ConnAt(s, c);
    var conn := s.conns[c];
    if conn.posting {
      a := Post(c);
    } else if conn.sending.Some? {
      NeverBlocks(s, c);
      a := Return(c);
    } else if FrontReady(conn) {
      a := Send(c);
    } else {
      assert conn.outQueue[0] in conn.outQueue;
      OnlyWithNumber(s, c, conn.outQueue[0]);
      a := Receive(c);
    }
  }

  lemma DecoderProgress(s: State, d: nat) returns (a: Action)
    requires Inv(s) && d < |s.decoders| && s.decoders[d].Some? && s.outCapacity > 0
    ensures Enabled(s, a) && Internal(a)
  {
    var id := s.decoders[d].value;
    assert HasOne(s.decoders[d], s.place, Decoding(d)) && s.decoders[d] == Some(id);
    var c := s.connOf[id];
    if |s.conns[c].outQueue| < s.outCapacity {
      a := Decoded(d);
    } else {
      a := OutputProgress(s, c);
    }
  }

  /** While some submitted request has no reply yet, some decoder or output worker can go on. */
  lemma NotStuck(s: State, c: nat) returns (a: Action)
    requires Inv(s) && c < |s.conns| && s.conns[c].base < s.conns[c].sequence
    requires |s.decoders| > 0 && s.outCapacity > 0
    ensures Enabled(s, a) && Internal(a)
  {
    var conn := s.conns[c];
    ConnAt(s, c);
    assert FlightAt(s, c, conn.base);
    var id := conn.numbered[conn.base];
    ExactlyOnePlace(s, id, s.place[id]);
    match s.place[id]
    case ToDecode =>
      if s.decoders[0].Some? {
        a := DecoderProgress(s, 0);
      } else {
        assert s.decodeQueue[0] in s.decodeQueue;
        a := Decode(0);
      }
    case Decoding(d) => a := DecoderProgress(s, d);
    case ToOutput(i) => a := OutputProgress(s, i);
    case Waiting(i) =>
      assert conn.buffer[s.sequenceOf[id]-conn.base] == Some(id);
      a := OutputProgress(s, c);
  }

  /** How far a request is from being free again, and its reply counted. */
  function Distance(p: Place): (steps: nat) {
    match p
    case ToDecode => 6
    case Decoding(_) => 5
    case ToOutput(_) => 4
    case Waiting(_) => 3
    case Sending(_) => 2
    case _ => 0
  }

  function Work(place: seq<Place>): (work: nat) {
    if place == [] then 0 else Distance(place[0]) + Work(place[1..])
  }

  lemma {:induction false} WorkMove(place: seq<Place>, id: Id, p: Place)
    requires id < |place|
    ensures Work(place[id := p]) + Distance(place[id]) == Work(place) + Distance(p)
  {
    if id == 0 {
      assert place[0 := p][1..] == place[1..];
    } else {
      WorkMove(place[1..], id - 1, p);
      assert place[id := p][1..] == place[1..][id - 1 := p];
    }
  }

  /** How many replies are still to be counted. */
  function Posts(conns: seq<Conn>): (count: nat) {
    if conns == [] then 0 else One(conns[0].posting) + Posts(conns[1..])
  }

  lemma {:induction false} PostsMove(conns: seq<Conn>, c: nat, conn: Conn)
    requires c < |conns|
    ensures Posts(conns[c := conn]) + One(conns[c].posting) == Posts(conns) + One(conn.posting)
  {
    if c == 0 {
      assert conns[0 := conn][1..] == conns[1..];
    } else {
      PostsMove(conns[1..], c - 1, conn);
      assert conns[c := conn][1..] == conns[1..][c - 1 := conn];
    }
  }

  function Todo(s: State): (steps: nat) {
    Work(s.place) + Posts(s.conns)
  }

  /** Returning a request adds a reply to count, and counting it takes it away. */
  lemma PostsAfter(s: State, a: Action)
    requires Enabled(s, a) && Internal(a)
    ensures Posts(Do(s, a).conns) + One(a.Post?) == Posts(s.conns) + One(a.Return?)
  {
    if !a.Decode? {
      var c := if a.Decoded? then s.connOf[s.decoders[a.d].value] else a.c;
      PostsMove(s.conns, c, Do(s, a).conns[c]);
    }
  }

  /** The step moves the request on to this place. */
  ghost predicate MovesOn(s: State, a: Action, id: Id, p: Place)
    requires Enabled(s, a)
  {
    && id < |s.place| && Do(s, a).place == s.place[id := p]
    && Distance(p) + 1 + One(a.Return?) == Distance(s.place[id])
  }

  lemma DecoderMoves(s: State, a: Action) returns (id: Id, p: Place)
    requires Inv(s) && Enabled(s, a) && (a.Decode? || a.Decoded?)
    ensures MovesOn(s, a, id, p)
  {
    hide HasAt, ConnFlights, ConnNumbers, ConnPlaces;
    match a
    case Decode(d) =>
      HasTake(s.decodeQueue, s.place, ToDecode, Decoding(d));
      id, p := s.decodeQueue[0], Decoding(d);
    case Decoded(d) =>
      id, p := s.decoders[d].value, ToOutput(s.connOf[s.decoders[d].value]);
      assert HasOne(s.decoders[d], s.place, Decoding(d)) && s.decoders[d] == Some(id);
  }

  lemma OutputMoves(s: State, a: Action) returns (id: Id, p: Place)
    requires Inv(s) && Enabled(s, a) && (a.Receive? || a.Send? || a.Return?)
    ensures MovesOn(s, a, id, p)
  {
    hide Has, HasOne, HasAt, ConnFlights, ConnNumbers;
    ConnAt(s, a.c);
    hide Inv;
    var conn := s.conns[a.c];
    match a
    case Receive(c) =>
      HasTake(conn.outQueue, s.place, ToOutput(c), Waiting(c));
      id, p := conn.outQueue[0], Waiting(c);
    case Send(c) =>
      AtTake(conn.buffer, conn.base, s.place, Waiting(c), s.sequenceOf, Sending(c));
      id, p := conn.buffer[0].value, Sending(c);
    case Return(c) =>
      OneTake(conn.sending.value, s.place, Sending(c), Free);
      id, p := conn.sending.value, Free;
  }

  /** Each such step but the last moves one request on. */
  lemma InternalMoves(s: State, a: Action) returns (id: Id, p: Place)
    requires Inv(s) && Enabled(s, a) && Internal(a) && !a.Post?
    ensures MovesOn(s, a, id, p)
  {
    hide Inv, Enabled, MovesOn;
    if a.Decode? || a.Decoded? { id, p := DecoderMoves(s, a); } else { id, p := OutputMoves(s, a); }
  }

  /** Each leaves one step less to do. */
  lemma InternalStepsEnd(s: State, a: Action)
    requires Inv(s) && Enabled(s, a) && Internal(a)
    ensures Todo(Do(s, a)) + 1 == Todo(s)
  {
    PostsAfter(s, a);
    hide Inv, Enabled;
    if !a.Post? {
      hide Do;
      var id, p := InternalMoves(s, a);
      WorkMove(s.place, id, p);
    }
  }

  lemma SameThreads(s: State, a: Action)
    requires Enabled(s, a)
    ensures |Do(s, a).decoders| == |s.decoders| && Do(s, a).outCapacity == s.outCapacity
  {}

  /** Without new requests the decoders and output workers come to an end, and once they cannot go on all replies have
      been sent. */
  lemma {:induction false} InternalRunsEnd(s: State, actions: seq<Action>, s': State)
    requires Inv(s) && Run(s, actions, s') && forall i :: 0 <= i < |actions| ==> Internal(actions[i])
    requires |s.decoders| > 0 && s.outCapacity > 0
    ensures |actions| + Todo(s') == Todo(s)
    ensures Stopped(s') ==> Todo(s') == 0 && forall c :: 0 <= c < |s'.conns| ==> AllSent(s'.conns[c])
    decreases |actions|
  {
    hide Inv, Enabled, Do, Internal, Stopped, Todo;
    if actions == [] {
      if Stopped(s) {
        NothingToDo(s);
        forall c: nat | c < |s.conns| ensures AllSent(s.conns[c]) { SentWhenStopped(s, c); }
      }
    } else {
      SameThreads(s, actions[0]);
      InternalStepsEnd(s, actions[0]);
      StepInv(s, actions[0]);
      InternalRunsEnd(Do(s, actions[0]), actions[1..], s');
    }
  }

  /** Every submitted request has had its reply, and all replies have been counted. */
  predicate AllSent(conn: Conn) {
    conn.sent == conn.numbered && conn.counter + conn.waited == conn.sequence
  }

  /** No decoder or output worker can go on. */
  ghost predicate Stopped(s: State) {
    forall a :: Internal(a) ==> !Enabled(s, a)
  }

  lemma SentWhenStopped(s: State, c: nat)
    requires Inv(s) && c < |s.conns| && |s.decoders| > 0 && s.outCapacity > 0 && Stopped(s)
    ensures AllSent(s.conns[c])
  {
    ConnAt(s, c);
    NeverBlocks(s, c);
    assert Internal(Return(c)) && Internal(Post(c));
    assert !s.conns[c].posting by { assert !Enabled(s, Post(c)); }
    if s.conns[c].base < s.conns[c].sequence {
      var a := NotStuck(s, c);
    }
  }

  lemma {:induction false} NoWork(place: seq<Place>)
    requires forall id :: 0 <= id < |place| ==> Distance(place[id]) == 0
    ensures Work(place) == 0
  {
    if place != [] { NoWork(place[1..]); }
  }

  lemma {:induction false} NoPosts(conns: seq<Conn>)
    requires forall c :: 0 <= c < |conns| ==> !conns[c].posting
    ensures Posts(conns) == 0
  {
    if conns != [] { NoPosts(conns[1..]); }
  }

  lemma NothingToDo(s: State)
    requires Inv(s) && |s.decoders| > 0 && s.outCapacity > 0 && Stopped(s)
    ensures Todo(s) == 0
  {
    forall c: nat | c < |s.conns| ensures !s.conns[c].posting {
      assert Internal(Post(c)) && !Enabled(s, Post(c));
    }
    NoPosts(s.conns);
    forall id: Id | id < |s.place| ensures Distance(s.place[id]) == 0 { AtRest(s, id); }
    NoWork(s.place);
  }

  lemma AtRest(s: State, id: Id)
    requires Inv(s) && |s.decoders| > 0 && s.outCapacity > 0 && Stopped(s) && id < |s.place|
    ensures Distance(s.place[id]) == 0
  {
    hide HasAt, Has;
    if InFlight(s.place[id]) {
      var c := s.connOf[id];
      OnlyWithNumber(s, c, id);
      SentWhenStopped(s, c);
    } else if s.place[id].Sending? {
      var c := s.place[id].c;
      SentWhenStopped(s, c);
      ConnAt(s, c);
    }
  }

  lemma IdleWhenStopped(s: State, c: nat)
    requires Inv(s) && c < |s.conns| && |s.decoders| > 0 && s.outCapacity > 0 && Stopped(s)
    ensures var conn := s.conns[c];
      && conn.buffer == [] && conn.outQueue == [] && conn.sending == None && !conn.posting
      && conn.counter + conn.waited == conn.sequence
  {
    SentWhenStopped(s, c);
    ConnAt(s, c);
    var conn := s.conns[c];
    if conn.outQueue != [] || conn.sending.Some? || conn.posting { var a := OutputProgress(s, c); }
  }

  /** Waiting once for each reply. */
  function Waits(c: nat, n: nat): (actions: seq<Action>) {
    seq(n, _ => Wait(c))
  }

  /** The connection after waiting for all replies that have been counted. */
  function Waited(conn: Conn): (after: Conn) {
    conn.(counter := 0, waited := conn.waited + conn.counter)
  }

  lemma {:induction false} WaitsRun(s: State, c: nat, n: nat)
    requires |s.sequenceOf| == |s.connOf| == |s.place| && c < |s.conns|
    requires s.conns[c].closing && s.conns[c].counter == n && s.conns[c].waited + n == s.conns[c].sequence
    ensures Run(s, Waits(c, n) + [Reopen(c)], Do(WithConn(s, c, Waited(s.conns[c])), Reopen(c)))
    decreases n
  {
    var actions := Waits(c, n) + [Reopen(c)];
    if n == 0 {
      assert WithConn(s, c, Waited(s.conns[c])) == s;
      assert actions == [Reopen(c)];
    } else {
      assert actions[0] == Wait(c) && actions[1..] == Waits(c, n - 1) + [Reopen(c)];
      var s' := Do(s, Wait(c));
      WaitsRun(s', c, n - 1);
      assert WithConn(s', c, Waited(s'.conns[c])) == WithConn(s, c, Waited(s.conns[c]));
    }
  }

  /** When the replies are out, a connection can be closed, wait for each reply and find the output backend as new. */
  lemma CloseToReopen(s: State, c: nat) returns (s': State)
    requires Inv(s) && Enabled(s, Close(c)) && |s.decoders| > 0 && s.outCapacity > 0 && Stopped(s)
    ensures Run(s, [Close(c)] + Waits(c, s.conns[c].counter) + [Reopen(c)], s')
    ensures s'.conns == s.conns[c := NewConn()]
  {
    var closed, n := Do(s, Close(c)), s.conns[c].counter;
    IdleWhenStopped(s, c);
    WaitsRun(closed, c, n);
    var waited := WithConn(closed, c, Waited(closed.conns[c]));
    s' := Do(waited, Reopen(c));
    var actions := [Close(c)] + Waits(c, n) + [Reopen(c)];
    assert actions[1..] == Waits(c, n) + [Reopen(c)];
  }
}
