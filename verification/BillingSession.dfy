/**
 The streaming billing service: handlers that own themselves and are driven by the completions of
 the operations they start.  `Step` is the effect of one completion on the whole service; the classes
 are the handler and the queues as the service runs them, proved to agree with it.
 */
module BillingSession {

  datatype Message =
    | ResourceRequest
    | BillAppend(appended: map<string, real>)
    | BillOverwrite(overwritten: map<string, real>)
    | ResourceFinish
    | NotSet

  datatype StreamConnectPhase = Initial | Accepted | Streaming

  datatype PendingOp = PendingRead | PendingWrite | PendingFinish

  datatype OpKind = AcceptOp | ReadOp | WriteOp | FinishOp

  /** An operation started by a handler; its completion comes back with the handler's address. */
  datatype Tag = Tag(id: nat, kind: OpKind)

  datatype HandlerState = HandlerState(
    phase: StreamConnectPhase, pending: PendingOp, bill: map<string, real>, owned: bool)

  /** Live handlers, operations not yet completed, and the history of destroyed handlers and started operations. */
  datatype World = World(
    handlers: map<nat, HandlerState>, nextId: nat, outstanding: multiset<Tag>,
    destroyed: seq<nat>, started: seq<Tag>)

  /** A completion: which operation, its ok flag, and what a read has read. */
  datatype Event = Event(tag: Tag, ok: bool, request: Message)

  // ---------------------------------------------------------------- one completion

  function ValueOr0(bill: map<string, real>, key: string): real {
    if key in bill then bill[key] else 0.0
  }

  function Appended(bill: map<string, real>, items: map<string, real>): map<string, real> {
    map key | key in bill.Keys + items.Keys :: ValueOr0(bill, key) + ValueOr0(items, key)
  }

  function Billed(bill: map<string, real>, request: Message): map<string, real> {
    match request
    case BillAppend(items) => Appended(bill, items)
    case BillOverwrite(items) => items
    case _ => bill
  }

  const FRESH_HANDLER: HandlerState := HandlerState(Accepted, PendingRead, map[], true)

  /** The service after its first handler has been primed. */
  const PRIMED: World :=
    World(map[0 := FRESH_HANDLER], 1, multiset{Tag(0, AcceptOp)}, [], [Tag(0, AcceptOp)])

  function Starts(w: World, id: nat, state: HandlerState, kind: OpKind): World {
    World(w.handlers[id := state], w.nextId, w.outstanding + multiset{Tag(id, kind)}, w.destroyed,
      w.started + [Tag(id, kind)])
  }

  function Destroys(w: World, id: nat): World {
    World(w.handlers - {id}, w.nextId, w.outstanding, w.destroyed + [id], w.started)
  }

  /** What a streaming handler does next, after the completion of its pending operation. */
  function NextState(h: HandlerState, ok: bool, request: Message): HandlerState {
    if !ok then h.(pending := PendingFinish)
    else if h.pending.PendingWrite? then h.(pending := PendingRead)
    else if request.ResourceFinish? then h.(pending := PendingFinish)
    else h.(pending := PendingWrite, bill := Billed(h.bill, request))
  }

  function OpOf(pending: PendingOp): OpKind {
    match pending
    case PendingRead => ReadOp
    case PendingWrite => WriteOp
    case PendingFinish => FinishOp
  }

  /** A completion that ends its handler: a failed accept, or the completion of its finish. */
  predicate Ends(h: HandlerState, ok: bool) {
    (h.phase.Accepted? && !ok) || (h.phase.Streaming? && h.pending.PendingFinish?)
  }

  /** A stream has come in: a new handler waits for the next one, and this one starts to read. */
  function Connected(v: World, id: nat): World
    requires id in v.handlers
  {
    var h := v.handlers[id];
    var cloned := Starts(v, v.nextId, FRESH_HANDLER, AcceptOp);
    Starts(cloned.(nextId := v.nextId + 1), id, HandlerState(Streaming, PendingRead, h.bill, h.owned), ReadOp)
  }

  /** What a handler that does not end makes of a completion. */
  function Processed(v: World, id: nat, ok: bool, request: Message): World
    requires id in v.handlers && !Ends(v.handlers[id], ok)
  {
    var h := v.handlers[id];
    match h.phase
    case Initial => Starts(v, id, HandlerState(Accepted, h.pending, h.bill, h.owned), AcceptOp)
    case Accepted => Connected(v, id)
    case Streaming =>
      var next := NextState(h, ok, request);
      Starts(v, id, next, OpOf(next.pending))
  }

  /** One completion of an operation of a live handler. */
  function Step(w: World, e: Event): World
    requires e.tag.id in w.handlers
  {
    var v := w.(outstanding := w.outstanding - multiset{e.tag});
    if Ends(w.handlers[e.tag.id], e.ok) then Destroys(v, e.tag.id)
    else Processed(v, e.tag.id, e.ok, e.request)
  }

  // ---------------------------------------------------------------- what every completion keeps

  /** The one operation a handler is waiting for. */
  function Awaited(h: HandlerState): OpKind {
    if h.phase.Streaming? then OpOf(h.pending) else AcceptOp
  }

  /** Live handlers own themselves and have been accepted or are streaming. */
  ghost predicate LiveOk(w: World) {
    forall id :: id in w.handlers ==> w.handlers[id].owned && !w.handlers[id].phase.Initial?
  }

  /** The operations outstanding are those the live handlers, but `idle`, are waiting for, each once. */
  ghost predicate TagsMatch(w: World, idle: set<nat>) {
    forall tag :: w.outstanding[tag] ==
      if tag.id in w.handlers && tag.id !in idle && tag.kind == Awaited(w.handlers[tag.id]) then 1 else 0
  }

  /** Each handler there ever was is either live or destroyed, once. */
  ghost predicate Accounted(w: World) {
    && (forall id: nat :: id < w.nextId <==> id in w.handlers || id in w.destroyed)
    && (forall id :: id in w.handlers ==> id !in w.destroyed)
    && (forall i, j :: 0 <= i < j < |w.destroyed| ==> w.destroyed[i] != w.destroyed[j])
  }

  /**
   Every live handler has exactly one operation outstanding, the one its state says; every
   outstanding operation belongs to a live handler; no handler is lost or destroyed twice.
   */
  ghost predicate Inv(w: World) {
    LiveOk(w) && TagsMatch(w, {}) && Accounted(w)
  }

  lemma PrimedInv()
    ensures Inv(PRIMED)
  {
  }

  lemma DestroysKeepsInv(v: World, id: nat)
    requires LiveOk(v) && TagsMatch(v, {id}) && Accounted(v) && id in v.handlers
    ensures Inv(Destroys(v, id))
  {
    var w := Destroys(v, id);
    forall i: nat
      ensures i < w.nextId <==> i in w.handlers || i in w.destroyed
    {
      assert i in w.destroyed <==> i in v.destroyed || i == id;
    }
  }

  lemma StartsKeepsInv(v: World, id: nat, h: HandlerState, kind: OpKind)
    requires LiveOk(v) && TagsMatch(v, {id}) && Accounted(v) && id in v.handlers
    requires h.owned && !h.phase.Initial? && kind == Awaited(h)
    ensures Inv(Starts(v, id, h, kind))
  {
  }

  lemma CloneKeepsInv(v: World, id: nat)
    requires LiveOk(v) && TagsMatch(v, {id}) && Accounted(v) && id in v.handlers
    ensures var w := Starts(v, v.nextId, FRESH_HANDLER, AcceptOp).(nextId := v.nextId + 1);
            LiveOk(w) && TagsMatch(w, {id}) && Accounted(w) && id in w.handlers
  {
    assert v.nextId !in v.handlers;
  }

  /** Every completion keeps the invariant, and finds its handler live. */
  lemma StepKeepsInv(w: World, e: Event)
    requires Inv(w) && e.tag in w.outstanding
    ensures e.tag.id in w.handlers && Inv(Step(w, e))
  {
    assert w.outstanding[e.tag] == 1;
    var id, h := e.tag.id, w.handlers[e.tag.id];
    var v := w.(outstanding := w.outstanding - multiset{e.tag});
    assert TagsMatch(v, {id});
    if Ends(h, e.ok) {
      DestroysKeepsInv(v, id);
    } else if h.phase.Accepted? {
      CloneKeepsInv(v, id);
      StartsKeepsInv(Starts(v, v.nextId, FRESH_HANDLER, AcceptOp).(nextId := v.nextId + 1), id,
                     HandlerState(Streaming, PendingRead, h.bill, h.owned), ReadOp);
    } else {
      var next := NextState(h, e.ok, e.request);
      StartsKeepsInv(v, id, next, OpOf(next.pending));
    }
  }

  /** A completion that can come: its handler is live and waits for it, and the next handler id is free. */
  predicate Fits(w: World, e: Event) {
    && e.tag.id in w.handlers && e.tag.id < w.nextId && w.nextId !in w.handlers
    && !w.handlers[e.tag.id].phase.Initial?
    && e.tag.kind == Awaited(w.handlers[e.tag.id])
  }

  lemma OutstandingFits(w: World, e: Event)
    requires Inv(w) && e.tag in w.outstanding
    ensures Fits(w, e)
  {
    assert w.outstanding[e.tag] == 1;
  }

  /** A run: each completion is of an operation outstanding at the time. */
  ghost predicate IsRun(w: World, events: seq<Event>, final: World)
    requires Inv(w)
    decreases |events|
  {
    if events == [] then w == final
    else
      && events[0].tag in w.outstanding
      && (StepKeepsInv(w, events[0]); IsRun(Step(w, events[0]), events[1..], final))
  }

  /** A run of the service, from its start. */
  ghost predicate IsServiceRun(events: seq<Event>, final: World) {
    PrimedInv(); IsRun(PRIMED, events, final)
  }

  /** The invariant holds at the end of every run, whatever order completions come in and whatever their ok flags. */
  lemma {:induction false} RunKeepsInv(w: World, events: seq<Event>, final: World)
    requires Inv(w) && IsRun(w, events, final)
    ensures Inv(final)
    decreases |events|
  {
    if events != [] {
      StepKeepsInv(w, events[0]);
      RunKeepsInv(Step(w, events[0]), events[1..], final);
    }
  }

  // ---------------------------------------------------------------- acceptors and destroyed handlers, over a run

  function Acceptors(w: World): set<nat> {
    set id | id in w.handlers && w.handlers[id].phase.Accepted?
  }

  /** No handler waits for a stream, or only the newest. */
  predicate OneAcceptorAtMost(w: World) {
    Acceptors(w) == {} || Acceptors(w) == {w.nextId - 1}
  }

  predicate AcceptFails(e: Event) {
    e.tag.kind.AcceptOp? && !e.ok
  }

  predicate SomeAcceptFails(events: seq<Event>) {
    exists i :: 0 <= i < |events| && AcceptFails(events[i])
  }

  lemma StepAcceptors(w: World, e: Event)
    requires Fits(w, e) && OneAcceptorAtMost(w)
    ensures var v := Step(w, e);
            Acceptors(v) == if Acceptors(w) == {} || AcceptFails(e) then {} else {v.nextId - 1}
  {
    if w.handlers[e.tag.id].phase.Accepted? {
      assert e.tag.id in Acceptors(w);
      AcceptedStep(w, e);
    } else {
      StreamingStep(w, e);
    }
  }

  lemma AcceptedStep(w: World, e: Event)
    requires e.tag.id in w.handlers && w.handlers[e.tag.id].phase.Accepted? && Acceptors(w) == {e.tag.id}
    requires e.tag.id < w.nextId
    ensures Acceptors(Step(w, e)) == if !e.ok then {} else {w.nextId}
    ensures Step(w, e).nextId == if e.ok then w.nextId + 1 else w.nextId
  {
    var v := Step(w, e);
    forall i
      ensures i in Acceptors(v) <==> e.ok && i == w.nextId
    {
      assert i in Acceptors(w) <==> i in w.handlers && w.handlers[i].phase.Accepted?;
    }
  }

  lemma StreamingStep(w: World, e: Event)
    requires e.tag.id in w.handlers && w.handlers[e.tag.id].phase.Streaming?
    ensures Acceptors(Step(w, e)) == Acceptors(w) && Step(w, e).nextId == w.nextId
  {
    var v := Step(w, e);
    forall i
      ensures i in Acceptors(v) <==> i in Acceptors(w)
    {
      assert i != e.tag.id ==> (i in v.handlers <==> i in w.handlers);
    }
  }

  lemma SomeAcceptFailsCons(events: seq<Event>)
    requires events != []
    ensures SomeAcceptFails(events) <==> AcceptFails(events[0]) || SomeAcceptFails(events[1..])
  {
    if SomeAcceptFails(events[1..]) {
      var i :| 0 <= i < |events[1..]| && AcceptFails(events[1..][i]);
      assert AcceptFails(events[i + 1]);
    }
    if SomeAcceptFails(events) {
      var i :| 0 <= i < |events| && AcceptFails(events[i]);
      assert i > 0 ==> AcceptFails(events[1..][i - 1]);
    }
  }

  lemma RunUnfolds(w: World, events: seq<Event>, final: World)
    requires Inv(w) && IsRun(w, events, final) && events != []
    ensures events[0].tag in w.outstanding && Fits(w, events[0])
    ensures Inv(Step(w, events[0])) && IsRun(Step(w, events[0]), events[1..], final)
  {
    OutstandingFits(w, events[0]);
    StepKeepsInv(w, events[0]);
  }

  lemma RunGoesOn(w: World, events: seq<Event>, i: nat, final: World)
    requires Inv(w) && i < |events| && IsRun(w, events[i..], final)
    ensures events[i].tag in w.outstanding && events[i].tag.id in w.handlers
    ensures Inv(Step(w, events[i])) && IsRun(Step(w, events[i]), events[i + 1..], final)
  {
    assert events[i..][0] == events[i] && events[i..][1..] == events[i + 1..];
    RunUnfolds(w, events[i..], final);
  }

  /** Exactly one acceptor, the newest handler, waits for a stream until an accept fails; after that there is none. */
  lemma {:induction false} OneAcceptorWaits(w: World, events: seq<Event>, final: World)
    requires Inv(w) && IsRun(w, events, final) && OneAcceptorAtMost(w)
    ensures Acceptors(final) == if Acceptors(w) == {} || SomeAcceptFails(events) then {} else {final.nextId - 1}
    decreases |events|
  {
    if events != [] {
      RunUnfolds(w, events, final);
      StepAcceptors(w, events[0]);
      OneAcceptorWaits(Step(w, events[0]), events[1..], final);
      SomeAcceptFailsCons(events);
    }
  }

  /** A completion after which handler `id` is destroyed. */
  predicate Finishes(e: Event, id: nat) {
    e.tag == Tag(id, FinishOp) || (e.tag == Tag(id, AcceptOp) && !e.ok)
  }

  predicate SomeFinishes(events: seq<Event>, id: nat) {
    exists i :: 0 <= i < |events| && Finishes(events[i], id)
  }

  lemma StepDestroys(w: World, e: Event, id: nat)
    requires Fits(w, e)
    ensures id in Step(w, e).destroyed <==> id in w.destroyed || Finishes(e, id)
  {
    StepDestroyed(w, e);
    EndsAt(w.handlers[e.tag.id], e);
  }

  lemma StepDestroyed(w: World, e: Event)
    requires Fits(w, e)
    ensures Step(w, e).destroyed == w.destroyed + if Ends(w.handlers[e.tag.id], e.ok) then [e.tag.id] else []
  {
  }

  lemma EndsAt(h: HandlerState, e: Event)
    requires !h.phase.Initial? && e.tag.kind == Awaited(h)
    ensures Ends(h, e.ok) <==> e.tag.kind.FinishOp? || (e.tag.kind.AcceptOp? && !e.ok)
  {
  }

  lemma SomeFinishesCons(events: seq<Event>, id: nat)
    requires events != []
    ensures SomeFinishes(events, id) <==> Finishes(events[0], id) || SomeFinishes(events[1..], id)
  {
    if SomeFinishes(events[1..], id) {
      var i :| 0 <= i < |events[1..]| && Finishes(events[1..][i], id);
      assert Finishes(events[i + 1], id);
    }
    if SomeFinishes(events, id) {
      var i :| 0 <= i < |events| && Finishes(events[i], id);
      assert i > 0 ==> Finishes(events[1..][i - 1], id);
    }
  }

  /** A handler is destroyed exactly when its finish has completed or its accept has failed; by the invariant, once. */
  lemma {:induction false} DestroyedExactly(w: World, events: seq<Event>, final: World, id: nat)
    requires Inv(w) && IsRun(w, events, final)
    ensures id in final.destroyed <==> id in w.destroyed || SomeFinishes(events, id)
    decreases |events|
  {
    if events != [] {
      RunUnfolds(w, events, final);
      StepDestroys(w, events[0], id);
      DestroyedExactly(Step(w, events[0]), events[1..], final, id);
      SomeFinishesCons(events, id);
    }
  }

  /**
   Every run of the service, from its start: each live handler has exactly the outstanding operation
   its state says, no handler is lost or destroyed twice, one acceptor waits until an accept fails,
   and the handlers destroyed are those whose finish has completed or whose accept has failed.
   */
  lemma ServiceRuns(events: seq<Event>, final: World)
    requires IsServiceRun(events, final)
    ensures Inv(final)
    ensures Acceptors(final) == if SomeAcceptFails(events) then {} else {final.nextId - 1}
    ensures forall id: nat :: id in final.destroyed <==> SomeFinishes(events, id)
  {
    PrimedInv();
    RunKeepsInv(PRIMED, events, final);
    assert Acceptors(PRIMED) == {0};
    OneAcceptorWaits(PRIMED, events, final);
    forall id: nat
      ensures id in final.destroyed <==> SomeFinishes(events, id)
    {
      DestroyedExactly(PRIMED, events, final, id);
    }
  }

  // ---------------------------------------------------------------- bills and acknowledgements, over a run

  /** The messages handler `id` has read, in order. */
  function MessagesRead(events: seq<Event>, id: nat): seq<Message> {
    if events == [] then []
    else
      ReadFrom(events[0], id) + MessagesRead(events[1..], id)
  }

  function BillAfter(bill: map<string, real>, messages: seq<Message>): map<string, real>
    decreases |messages|
  {
    if messages == [] then bill else BillAfter(Billed(bill, messages[0]), messages[1..])
  }

  function NonFinish(messages: seq<Message>): nat {
    if messages == [] then 0 else (if messages[0].ResourceFinish? then 0 else 1) + NonFinish(messages[1..])
  }

  /** The bill a handler has, or will start with. */
  function BillOf(w: World, id: nat): map<string, real> {
    BillIn(w.handlers, id)
  }

  /** What handler `id` reads from one completion. */
  function ReadFrom(e: Event, id: nat): seq<Message> {
    if e.tag == Tag(id, ReadOp) && e.ok then [e.request] else []
  }

  /** The live handlers after a completion. */
  function NextHandlers(handlers: map<nat, HandlerState>, nextId: nat, e: Event): map<nat, HandlerState>
    requires e.tag.id in handlers
  {
    var h := handlers[e.tag.id];
    if Ends(h, e.ok) then handlers - {e.tag.id}
    else if h.phase.Accepted? then
      handlers[nextId := FRESH_HANDLER][e.tag.id := HandlerState(Streaming, PendingRead, h.bill, h.owned)]
    else handlers[e.tag.id := NextState(h, e.ok, e.request)]
  }

  lemma StepHandlers(w: World, e: Event)
    requires Fits(w, e)
    ensures Step(w, e).handlers == NextHandlers(w.handlers, w.nextId, e)
  {
  }

  function BillIn(handlers: map<nat, HandlerState>, id: nat): map<string, real> {
    if id in handlers then handlers[id].bill else map[]
  }

  lemma NextBills(w: World, e: Event, id: nat, after: map<nat, HandlerState>)
    requires Fits(w, e) && after == NextHandlers(w.handlers, w.nextId, e) && id in after
    ensures id in w.handlers || id >= w.nextId
    ensures BillIn(after, id)
            == if ReadFrom(e, id) == [] then BillIn(w.handlers, id) else Billed(BillIn(w.handlers, id), e.request)
  {
    var h := w.handlers[e.tag.id];
    if id != e.tag.id {
      assert ReadFrom(e, id) == [];
    } else if h.phase.Accepted? {
      assert ReadFrom(e, id) == [] && e.ok;
    }
  }

  lemma StepBills(w: World, e: Event, id: nat)
    requires Fits(w, e) && id in Step(w, e).handlers
    ensures id in w.handlers || id >= w.nextId
    ensures BillOf(Step(w, e), id) == if ReadFrom(e, id) == [] then BillOf(w, id) else Billed(BillOf(w, id), e.request)
  {
    StepHandlers(w, e);
    NextBills(w, e, id, Step(w, e).handlers);
  }

  /** How many acknowledgements handler `id` has started to write. */
  function Acks(w: World, id: nat): nat {
    multiset(w.started)[Tag(id, WriteOp)]
  }

  lemma StartedCount(started: seq<Tag>, tag: Tag, other: Tag)
    ensures multiset(started + [tag])[other] == multiset(started)[other] + if tag == other then 1 else 0
  {
  }

  /** The operations started at one completion. */
  function NewTags(nextId: nat, h: HandlerState, e: Event): seq<Tag> {
    if Ends(h, e.ok) then []
    else if h.phase.Accepted? then [Tag(nextId, AcceptOp), Tag(e.tag.id, ReadOp)]
    else [Tag(e.tag.id, OpOf(NextState(h, e.ok, e.request).pending))]
  }

  lemma StepStarts(w: World, e: Event)
    requires Fits(w, e)
    ensures Step(w, e).started == w.started + NewTags(w.nextId, w.handlers[e.tag.id], e)
  {
  }

  /** An accept and a finish read nothing. */
  lemma NothingRead(h: HandlerState, e: Event, id: nat)
    requires !h.phase.Initial? && e.tag.kind == Awaited(h) && (h.phase.Accepted? || h.pending.PendingFinish?)
    ensures NonFinish(ReadFrom(e, id)) == 0
  {
    assert ReadFrom(e, id) == [];
  }

  lemma TwoStarted(started: seq<Tag>, a: Tag, b: Tag, other: Tag)
    requires a != other && b != other
    ensures multiset(started + [a, b])[other] == multiset(started)[other]
  {
    assert started + [a, b] == started + [a] + [b];
    StartedCount(started, a, other);
    StartedCount(started + [a], b, other);
  }

  /** When a stream comes in, the next handler waits for a stream before this one starts to read. */
  lemma NextAcceptsFirst(w: World, e: Event)
    requires Fits(w, e) && e.tag.kind.AcceptOp? && e.ok
    ensures Step(w, e).started == w.started + [Tag(w.nextId, AcceptOp), Tag(e.tag.id, ReadOp)]
    ensures w.nextId in Step(w, e).handlers && e.tag.id in Step(w, e).handlers
  {
    StepStarts(w, e);
    StepHandlers(w, e);
  }

  lemma TagsAcks(started: seq<Tag>, nextId: nat, h: HandlerState, e: Event, id: nat)
    requires !h.phase.Initial? && e.tag.kind == Awaited(h)
    ensures multiset(started + NewTags(nextId, h, e))[Tag(id, WriteOp)]
            == multiset(started)[Tag(id, WriteOp)] + NonFinish(ReadFrom(e, id))
  {
    if h.phase.Accepted? || h.pending.PendingFinish? {
      NothingRead(h, e, id);
      assert started + [] == started;
      TwoStarted(started, Tag(nextId, AcceptOp), Tag(e.tag.id, ReadOp), Tag(id, WriteOp));
    } else {
      StartedCount(started, Tag(e.tag.id, OpOf(NextState(h, e.ok, e.request).pending)), Tag(id, WriteOp));
      AckedRead(h, e, id);
    }
  }

  lemma StepAcks(w: World, e: Event, id: nat)
    requires Fits(w, e)
    ensures Acks(Step(w, e), id) == Acks(w, id) + NonFinish(ReadFrom(e, id))
  {
    StepStarts(w, e);
    TagsAcks(w.started, w.nextId, w.handlers[e.tag.id], e, id);
  }

  lemma AckedRead(h: HandlerState, e: Event, id: nat)
    requires h.phase.Streaming? && e.tag.kind == Awaited(h) && !h.pending.PendingFinish?
    ensures NonFinish(ReadFrom(e, id))
            == if e.tag.id == id && OpOf(NextState(h, e.ok, e.request).pending).WriteOp? then 1 else 0
  {
    if ReadFrom(e, id) != [] {
      assert ReadFrom(e, id)[1..] == [];
      assert NonFinish(ReadFrom(e, id))
             == (if e.request.ResourceFinish? then 0 else 1) + NonFinish(ReadFrom(e, id)[1..]);
    }
  }

  lemma {:induction false} BillAfterConcat(bill: map<string, real>, a: seq<Message>, b: seq<Message>)
    ensures BillAfter(bill, a + b) == BillAfter(BillAfter(bill, a), b)
    ensures NonFinish(a + b) == NonFinish(a) + NonFinish(b)
    decreases |a|
  {
    if a == [] {
      assert a + b == b;
    } else {
      BillAfterConcat(Billed(bill, a[0]), a[1..], b);
      assert (a + b)[1..] == a[1..] + b;
    }
  }

  /** Over every run, the bill of a live handler is what its messages make of the one it started with. */
  lemma {:induction false} RunBills(w: World, events: seq<Event>, final: World, id: nat)
    requires Inv(w) && IsRun(w, events, final) && id in final.handlers
    ensures id in w.handlers || id >= w.nextId
    ensures BillOf(final, id) == BillAfter(BillOf(w, id), MessagesRead(events, id))
    decreases |events|
  {
    if events != [] {
      var e, rest := events[0], MessagesRead(events[1..], id);
      RunUnfolds(w, events, final);
      RunBills(Step(w, e), events[1..], final, id);
      if id in Step(w, e).handlers {
        StepBills(w, e, id);
      } else {
        NewHandlerBills(w, e, id);
      }
      BillAfterConcat(BillOf(w, id), ReadFrom(e, id), rest);
      OneMessage(BillOf(w, id), e, id);
    }
  }

  lemma NewHandlerBills(w: World, e: Event, id: nat)
    requires Fits(w, e) && id !in Step(w, e).handlers && id >= Step(w, e).nextId
    requires forall i :: i in w.handlers ==> i < w.nextId
    ensures id !in w.handlers && id >= w.nextId && ReadFrom(e, id) == []
  {
  }

  lemma OneMessage(bill: map<string, real>, e: Event, id: nat)
    ensures BillAfter(bill, ReadFrom(e, id)) == if ReadFrom(e, id) == [] then bill else Billed(bill, e.request)
  {
    var read := ReadFrom(e, id);
    if read != [] {
      assert read[1..] == [];
      assert BillAfter(Billed(bill, e.request), read[1..]) == Billed(bill, e.request);
    }
  }

  /**
   Over every run, the acknowledgements a handler starts to write number the messages it reads that are
   not a finish.
   */
  lemma {:induction false} RunAcks(w: World, events: seq<Event>, final: World, id: nat)
    requires Inv(w) && IsRun(w, events, final)
    ensures Acks(final, id) == Acks(w, id) + NonFinish(MessagesRead(events, id))
    decreases |events|
  {
    if events != [] {
      var e := events[0];
      RunUnfolds(w, events, final);
      StepAcks(w, e, id);
      RunAcks(Step(w, e), events[1..], final, id);
      BillAfterConcat(map[], ReadFrom(e, id), MessagesRead(events[1..], id));
    }
  }

  function SumAppended(messages: seq<Message>, key: string): real {
    if messages == [] then 0.0
    else
      (if messages[0].BillAppend? then ValueOr0(messages[0].appended, key) else 0.0)
      + SumAppended(messages[1..], key)
  }

  predicate NoOverwrite(messages: seq<Message>) {
    forall i :: 0 <= i < |messages| ==> !messages[i].BillOverwrite?
  }

  lemma {:induction false} AppendsAddUp(bill: map<string, real>, messages: seq<Message>, key: string)
    requires NoOverwrite(messages)
    ensures ValueOr0(BillAfter(bill, messages), key) == ValueOr0(bill, key) + SumAppended(messages, key)
    decreases |messages|
  {
    if messages != [] {
      assert !messages[0].BillOverwrite?;
      AppendsAddUp(Billed(bill, messages[0]), messages[1..], key);
    }
  }

  /** What is stored under a key is its value in the last overwrite plus all that was appended since. */
  lemma BillConservation(bill: map<string, real>, before: seq<Message>, items: map<string, real>, after: seq<Message>,
      key: string)
    requires NoOverwrite(after)
    ensures ValueOr0(BillAfter(bill, before + [BillOverwrite(items)] + after), key)
            == ValueOr0(items, key) + SumAppended(after, key)
  {
    BillAfterConcat(bill, before + [BillOverwrite(items)], after);
    BillAfterConcat(bill, before, [BillOverwrite(items)]);
    assert [BillOverwrite(items)][1..] == [];
    AppendsAddUp(items, after, key);
  }

  /**
   From the start of the service: bills and acknowledgements of every handler, live ones having started
   with nothing.
   */
  lemma ServiceBills(events: seq<Event>, final: World, id: nat)
    requires IsServiceRun(events, final)
    ensures id in final.handlers ==> BillOf(final, id) == BillAfter(map[], MessagesRead(events, id))
    ensures Acks(final, id) == NonFinish(MessagesRead(events, id))
  {
    PrimedInv();
    if id in final.handlers {
      RunBills(PRIMED, events, final, id);
      assert BillOf(PRIMED, id) == map[];
    }
    RunAcks(PRIMED, events, final, id);
    assert PRIMED.started == [] + [Tag(0, AcceptOp)];
  }

  // ---------------------------------------------------------------- the protocol of one handler, over a run

  /** The operations handler `id` has started, in order. */
  function OpsOf(started: seq<Tag>, id: nat): seq<OpKind> {
    if started == [] then []
    else
      var tag := started[|started| - 1];
      OpsOf(started[..|started| - 1], id) + if tag.id == id then [tag.kind] else []
  }

  lemma OpsSnoc(started: seq<Tag>, tag: Tag, id: nat)
    ensures OpsOf(started + [tag], id) == OpsOf(started, id) + if tag.id == id then [tag.kind] else []
  {
    assert (started + [tag])[..|started|] == started;
  }

  /** An accept, then reads and acknowledgements in turn, then at most one finish, which is the last. */
  predicate FollowsProtocol(ops: seq<OpKind>) {
    forall i :: 0 <= i < |ops| ==>
      || ops[i] == (if i == 0 then AcceptOp else if i % 2 == 1 then ReadOp else WriteOp)
      || (ops[i] == FinishOp && i == |ops| - 1 && i >= 2)
  }

  /** Handler `id` has followed the protocol so far, and is waiting for the last operation it started. */
  ghost predicate HandlerFollows(w: World, id: nat) {
    var ops := OpsOf(w.started, id);
    && FollowsProtocol(ops)
    && (ops == [] <==> id >= w.nextId)
    && (id in w.handlers ==> id < w.nextId && ops[|ops| - 1] == Awaited(w.handlers[id]))
  }

  /** What a handler starts when an operation of its own completes. */
  function Response(e: Event): seq<OpKind> {
    match e.tag.kind
    case AcceptOp => if e.ok then [ReadOp] else []
    case ReadOp => if e.ok && !e.request.ResourceFinish? then [WriteOp] else [FinishOp]
    case WriteOp => if e.ok then [ReadOp] else [FinishOp]
    case FinishOp => []
  }

  /** What handler `id` starts at one completion; a new handler starts its accept. */
  function Starting(nextId: nat, e: Event, id: nat): seq<OpKind> {
    if e.tag.id == id then Response(e)
    else if id == nextId && e.tag.kind.AcceptOp? && e.ok then [AcceptOp]
    else []
  }

  lemma ResponseNext(h: HandlerState, e: Event)
    requires h.phase.Streaming? && e.tag.kind == Awaited(h) && !h.pending.PendingFinish?
    ensures Response(e) == [OpOf(NextState(h, e.ok, e.request).pending)]
  {
  }

  lemma TagsOps(started: seq<Tag>, nextId: nat, h: HandlerState, e: Event, id: nat)
    requires !h.phase.Initial? && e.tag.kind == Awaited(h) && e.tag.id < nextId
    ensures OpsOf(started + NewTags(nextId, h, e), id) == OpsOf(started, id) + Starting(nextId, e, id)
  {
    if Ends(h, e.ok) {
      assert started + [] == started && Response(e) == [];
    } else if h.phase.Accepted? {
      var accept, read := Tag(nextId, AcceptOp), Tag(e.tag.id, ReadOp);
      assert started + [accept, read] == started + [accept] + [read];
      OpsSnoc(started, accept, id);
      OpsSnoc(started + [accept], read, id);
    } else {
      ResponseNext(h, e);
      OpsSnoc(started, Tag(e.tag.id, OpOf(NextState(h, e.ok, e.request).pending)), id);
    }
  }

  lemma StepOps(w: World, e: Event, id: nat)
    requires Fits(w, e)
    ensures OpsOf(Step(w, e).started, id) == OpsOf(w.started, id) + Starting(w.nextId, e, id)
  {
    StepStarts(w, e);
    TagsOps(w.started, w.nextId, w.handlers[e.tag.id], e, id);
  }

  /** A live handler is waiting for what it has just started, or for what it was waiting for. */
  lemma NextAwaits(w: World, e: Event, id: nat, after: map<nat, HandlerState>)
    requires Fits(w, e) && after == NextHandlers(w.handlers, w.nextId, e) && id in after
    ensures id in w.handlers || Starting(w.nextId, e, id) == [AcceptOp]
    ensures Starting(w.nextId, e, id) == []
            || (|Starting(w.nextId, e, id)| == 1 && Starting(w.nextId, e, id)[0] == Awaited(after[id]))
    ensures Starting(w.nextId, e, id) == [] ==> Awaited(after[id]) == Awaited(w.handlers[id])
  {
    var h := w.handlers[e.tag.id];
    if id == e.tag.id && h.phase.Streaming? && !h.pending.PendingFinish? {
      ResponseNext(h, e);
    }
  }

  predicate MayFollow(a: OpKind, b: OpKind) {
    match a
    case AcceptOp => b.ReadOp?
    case ReadOp => b.WriteOp? || b.FinishOp?
    case WriteOp => b.ReadOp? || b.FinishOp?
    case FinishOp => false
  }

  lemma ProtocolNext(ops: seq<OpKind>, next: OpKind)
    requires FollowsProtocol(ops)
    requires if ops == [] then next.AcceptOp? else MayFollow(ops[|ops| - 1], next)
    ensures FollowsProtocol(ops + [next])
  {
  }

  lemma ResponseFollows(e: Event)
    ensures Response(e) == [] || (|Response(e)| == 1 && MayFollow(e.tag.kind, Response(e)[0]))
  {
  }

  /** What a handler starts carries its protocol on by one operation. */
  lemma NextStarted(w: World, e: Event, id: nat)
    requires Fits(w, e) && HandlerFollows(w, id)
    ensures var ops, more := OpsOf(w.started, id), Starting(w.nextId, e, id);
            more != [] ==> FollowsProtocol(ops + more) && |more| == 1
  {
    var ops, more := OpsOf(w.started, id), Starting(w.nextId, e, id);
    ResponseFollows(e);
    if more != [] {
      assert more == [more[0]];
      ProtocolNext(ops, more[0]);
    }
  }

  lemma NextNextId(w: World, e: Event)
    requires Fits(w, e)
    ensures Step(w, e).nextId == if e.tag.kind.AcceptOp? && e.ok then w.nextId + 1 else w.nextId
  {
  }

  lemma StepFollows(w: World, e: Event, id: nat)
    requires Fits(w, e) && HandlerFollows(w, id)
    ensures HandlerFollows(Step(w, e), id)
  {
    var v := Step(w, e);
    StepOps(w, e, id);
    StepHandlers(w, e);
    NextNextId(w, e);
    NextFollows(w, e, id, v);
  }

  lemma NextFollows(w: World, e: Event, id: nat, v: World)
    requires Fits(w, e) && HandlerFollows(w, id)
    requires OpsOf(v.started, id) == OpsOf(w.started, id) + Starting(w.nextId, e, id)
    requires v.handlers == NextHandlers(w.handlers, w.nextId, e)
    requires v.nextId == if e.tag.kind.AcceptOp? && e.ok then w.nextId + 1 else w.nextId
    ensures HandlerFollows(v, id)
  {
    NextStarted(w, e, id);
    if id in v.handlers {
      NextAwaits(w, e, id, v.handlers);
    }
  }

  /** Over every run each handler keeps to the protocol. */
  lemma {:induction false} RunFollows(w: World, events: seq<Event>, final: World, id: nat)
    requires Inv(w) && IsRun(w, events, final) && forall i: nat :: HandlerFollows(w, i)
    ensures HandlerFollows(final, id)
    decreases |events|
  {
    if events != [] {
      RunUnfolds(w, events, final);
      forall i: nat
        ensures HandlerFollows(Step(w, events[0]), i)
      {
        StepFollows(w, events[0], i);
      }
      RunFollows(Step(w, events[0]), events[1..], final, id);
    }
  }

  /** A completion after which handler `id` reads no more: a failed operation, or a finish message. */
  predicate Stops(e: Event, id: nat) {
    e.tag.id == id && (!e.ok || (e.tag.kind.ReadOp? && e.request.ResourceFinish?))
  }

  /** The handler is gone, or its finish is under way. */
  predicate Closing(w: World, id: nat) {
    id < w.nextId && (id in w.handlers ==> Awaited(w.handlers[id]) == FinishOp)
  }

  lemma NextClosing(w: World, e: Event, id: nat, after: map<nat, HandlerState>)
    requires Fits(w, e) && (Closing(w, id) || Stops(e, id)) && after == NextHandlers(w.handlers, w.nextId, e)
    ensures id < w.nextId && (id in after ==> Awaited(after[id]) == FinishOp)
    ensures Closing(w, id) ==> Starting(w.nextId, e, id) == []
  {
  }

  lemma StepClosing(w: World, e: Event, id: nat)
    requires Fits(w, e) && (Closing(w, id) || Stops(e, id))
    ensures Closing(Step(w, e), id)
    ensures Closing(w, id) ==> OpsOf(Step(w, e).started, id) == OpsOf(w.started, id)
  {
    StepOps(w, e, id);
    StepHandlers(w, e);
    NextNextId(w, e);
    NextClosing(w, e, id, Step(w, e).handlers);
  }

  lemma {:induction false} ClosingRun(w: World, events: seq<Event>, final: World, id: nat)
    requires Inv(w) && IsRun(w, events, final) && Closing(w, id)
    ensures OpsOf(final.started, id) == OpsOf(w.started, id)
    decreases |events|
  {
    if events != [] {
      RunUnfolds(w, events, final);
      StepClosing(w, events[0], id);
      ClosingRun(Step(w, events[0]), events[1..], final, id);
    }
  }

  /**
   However a run goes on after a failed operation or a finish message of handler `id`, the handler
   starts its finish, if it was reading or writing, and nothing else.
   */
  lemma StoppedStartsNoMore(w: World, events: seq<Event>, final: World, id: nat)
    requires Inv(w) && IsRun(w, events, final) && events != [] && Stops(events[0], id)
    ensures var kind := events[0].tag.kind;
            OpsOf(final.started, id)
            == OpsOf(w.started, id) + if kind.ReadOp? || kind.WriteOp? then [FinishOp] else []
  {
    RunUnfolds(w, events, final);
    StepOps(w, events[0], id);
    StepClosing(w, events[0], id);
    ClosingRun(Step(w, events[0]), events[1..], final, id);
  }

  /** A completion after which handler `id` must finish: a failed read or write, or a finish message. */
  predicate Breaks(e: Event, id: nat) {
    && e.tag.id == id
    && ((e.tag.kind.ReadOp? && (!e.ok || e.request.ResourceFinish?)) || (e.tag.kind.WriteOp? && !e.ok))
  }

  predicate SomeBreaks(events: seq<Event>, id: nat) {
    exists i :: 0 <= i < |events| && Breaks(events[i], id)
  }

  lemma SomeBreaksCons(events: seq<Event>, id: nat)
    requires events != []
    ensures SomeBreaks(events, id) <==> Breaks(events[0], id) || SomeBreaks(events[1..], id)
  {
    if SomeBreaks(events[1..], id) {
      var i :| 0 <= i < |events[1..]| && Breaks(events[1..][i], id);
      assert Breaks(events[i + 1], id);
    }
    if SomeBreaks(events, id) {
      var i :| 0 <= i < |events| && Breaks(events[i], id);
      assert i > 0 ==> Breaks(events[1..][i - 1], id);
    }
  }

  lemma FinishStarting(nextId: nat, e: Event, id: nat)
    ensures FinishOp in Starting(nextId, e, id) <==> Breaks(e, id)
  {
  }

  lemma {:induction false} RunFinishes(w: World, events: seq<Event>, final: World, id: nat)
    requires Inv(w) && IsRun(w, events, final)
    ensures FinishOp in OpsOf(final.started, id) <==> FinishOp in OpsOf(w.started, id) || SomeBreaks(events, id)
    decreases |events|
  {
    if events != [] {
      RunUnfolds(w, events, final);
      StepOps(w, events[0], id);
      FinishStarting(w.nextId, events[0], id);
      RunFinishes(Step(w, events[0]), events[1..], final, id);
      SomeBreaksCons(events, id);
    }
  }

  /** A handler starts its finish if and only if a read or a write of its own has failed or a finish message come. */
  lemma FinishStartedExactly(events: seq<Event>, final: World, id: nat)
    requires IsServiceRun(events, final)
    ensures FinishOp in OpsOf(final.started, id) <==> SomeBreaks(events, id)
  {
    PrimedInv();
    RunFinishes(PRIMED, events, final, id);
    PrimedOps(id);
  }

  /** How many operations of handler `id` have completed. */
  function Completed(events: seq<Event>, id: nat): nat {
    if events == [] then 0 else (if events[0].tag.id == id then 1 else 0) + Completed(events[1..], id)
  }

  /** The handler does not exist yet, or is live and not finishing. */
  predicate Serving(w: World, id: nat) {
    if id in w.handlers then Awaited(w.handlers[id]) != FinishOp else id >= w.nextId
  }

  lemma StepServes(w: World, e: Event, id: nat)
    requires Fits(w, e) && HandlerFollows(w, id) && Serving(w, id)
    requires !Breaks(e, id) && !(e.tag.id == id && AcceptFails(e))
    ensures Serving(Step(w, e), id)
    ensures |OpsOf(Step(w, e).started, id)|
            == |OpsOf(w.started, id)| + (if e.tag.id == id then 1 else 0)
               + if w.nextId <= id < Step(w, e).nextId then 1 else 0
  {
    StepOps(w, e, id);
    StepHandlers(w, e);
    NextNextId(w, e);
    NextServes(w, e, id, Step(w, e).handlers);
  }

  lemma NextServes(w: World, e: Event, id: nat, after: map<nat, HandlerState>)
    requires Fits(w, e) && HandlerFollows(w, id) && Serving(w, id) && after == NextHandlers(w.handlers, w.nextId, e)
    requires !Breaks(e, id) && !(e.tag.id == id && AcceptFails(e))
    ensures id in after ==> Awaited(after[id]) != FinishOp
    ensures id !in after ==> id >= w.nextId && !(id == w.nextId && e.tag.kind.AcceptOp? && e.ok)
    ensures |Starting(w.nextId, e, id)|
            == if e.tag.id == id || (id == w.nextId && e.tag.kind.AcceptOp? && e.ok) then 1 else 0
  {
  }

  predicate SomeAcceptOfFails(events: seq<Event>, id: nat) {
    exists i :: 0 <= i < |events| && events[i].tag.id == id && AcceptFails(events[i])
  }

  lemma {:induction false} RunServes(w: World, events: seq<Event>, final: World, id: nat)
    requires Inv(w) && IsRun(w, events, final) && (forall i: nat :: HandlerFollows(w, i)) && Serving(w, id)
    requires !SomeBreaks(events, id) && !SomeAcceptOfFails(events, id)
    ensures Serving(final, id) && w.nextId <= final.nextId
    ensures |OpsOf(final.started, id)|
            == |OpsOf(w.started, id)| + Completed(events, id) + if w.nextId <= id < final.nextId then 1 else 0
    decreases |events|
  {
    if events != [] {
      var v := Step(w, events[0]);
      RunUnfolds(w, events, final);
      assert !Breaks(events[0], id) && !(events[0].tag.id == id && AcceptFails(events[0]));
      StepServes(w, events[0], id);
      NextNextId(w, events[0]);
      forall i: nat
        ensures HandlerFollows(v, i)
      {
        StepFollows(w, events[0], i);
      }
      SomeBreaksCons(events, id);
      assert !SomeAcceptOfFails(events[1..], id) by {
        forall i | 0 <= i < |events[1..]|
          ensures !(events[1..][i].tag.id == id && AcceptFails(events[1..][i]))
        {
          assert events[1..][i] == events[i + 1];
        }
      }
      RunServes(v, events[1..], final, id);
    }
  }

  /**
   Over every run of the service, a handler with no such completion, and no failed accept, goes on: each
   of its completions has been followed by one operation, and the last one is outstanding.
   */
  lemma SessionGoesOn(events: seq<Event>, final: World, id: nat)
    requires IsServiceRun(events, final) && id < final.nextId
    requires !SomeBreaks(events, id) && !SomeAcceptOfFails(events, id)
    ensures id in final.handlers
    ensures var ops := OpsOf(final.started, id);
            && |ops| == 1 + Completed(events, id) && FollowsProtocol(ops) && FinishOp !in ops
            && Tag(id, ops[|ops| - 1]) in final.outstanding
  {
    PrimedInv();
    PrimedFollows();
    RunServes(PRIMED, events, final, id);
    RunKeepsInv(PRIMED, events, final);
    ServiceProtocol(events, final, id);
    FinishStartedExactly(events, final, id);
    PrimedOps(id);
    var ops := OpsOf(final.started, id);
    assert final.outstanding[Tag(id, ops[|ops| - 1])] == 1;
  }

  lemma PrimedOps(id: nat)
    ensures OpsOf(PRIMED.started, id) == if id == 0 then [AcceptOp] else []
  {
    assert PRIMED.started == [] + [Tag(0, AcceptOp)];
    OpsSnoc([], Tag(0, AcceptOp), id);
  }

  lemma PrimedFollows()
    ensures forall i: nat :: HandlerFollows(PRIMED, i)
  {
    forall i: nat
      ensures HandlerFollows(PRIMED, i)
    {
      PrimedOps(i);
    }
  }

  /** The protocol of every handler, over every run of the service from its start. */
  lemma ServiceProtocol(events: seq<Event>, final: World, id: nat)
    requires IsServiceRun(events, final)
    ensures FollowsProtocol(OpsOf(final.started, id))
    ensures id in final.handlers ==>
              && OpsOf(final.started, id) != []
              && OpsOf(final.started, id)[|OpsOf(final.started, id)| - 1] == Awaited(final.handlers[id])
  {
    PrimedInv();
    PrimedFollows();
    RunFollows(PRIMED, events, final, id);
  }

  // ---------------------------------------------------------------- the service as it runs

  lemma UpdatedTwice<T>(m: map<nat, T>, k: nat, x: T, n: nat, f: T, y: T)
    ensures m[k := x][n := f][k := y] == m[n := f][k := y]
  {
  }

  class Runtime {
    var handlers: map<nat, LimitHandler>
    var nextId: nat
    var outstanding: multiset<Tag>
    var deferred: seq<nat>
    var destroyed: seq<nat>
    var started: seq<Tag>

    constructor ()
      ensures handlers == map[] && nextId == 0 && outstanding == multiset{}
      ensures deferred == [] && destroyed == [] && started == []
    {
      handlers, nextId, outstanding := map[], 0, multiset{};
      deferred, destroyed, started := [], [], [];
    }

    /** Handlers are where their ids say, and handlers waiting to be destroyed are still there. */
    ghost predicate Valid()
      reads this`handlers, this`nextId, handlers.Values
    {
      forall id :: id in handlers ==> id < nextId && handlers[id].id == id && handlers[id].owned
    }

    /** Every handler was already there or is new. */
    twostate predicate OthersFresh()
      reads this`handlers
    {
      forall i :: i in handlers ==> (i in old(handlers) && handlers[i] == old(handlers[i])) || fresh(handlers[i])
    }

    function States(): map<nat, HandlerState>
      reads this`handlers, handlers.Values
    {
      map id | id in handlers :: handlers[id].State()
    }

    function View(): World
      reads this, handlers.Values
    {
      World(States(), nextId, outstanding, destroyed, started)
    }

    method Start(id: nat, kind: OpKind)
      modifies this`outstanding, this`started
      ensures outstanding == old(outstanding) + multiset{Tag(id, kind)}
      ensures started == old(started) + [Tag(id, kind)]
    {
      outstanding := outstanding + multiset{Tag(id, kind)};
      started := started + [Tag(id, kind)];
    }

    /** Destroys the handlers in the deferred queue, and clears it. */
    method RunDeferredDestroys()
      modifies this`handlers, this`deferred, this`destroyed
      ensures handlers == old(handlers) - (set id | id in old(deferred))
      ensures old(deferred) == [] ==> handlers == old(handlers) && View() == old(View())
      ensures States() == old(States()) - (set id | id in old(deferred))
      ensures destroyed == old(destroyed) + old(deferred) && deferred == []
    {
      var gone := set id | id in deferred;
      ghost var live := handlers;
      handlers := handlers - gone;
      destroyed := destroyed + deferred;
      deferred := [];
      assert forall i :: i in handlers ==> handlers[i] == live[i];
      assert States() == old(States()) - gone;
      NoneDeferred(live);
    }

    lemma NoneDeferred<T>(m: map<nat, T>)
      ensures m - (set id | id in []) == m
    {
    }

    lemma OneDeferred<T>(m: map<nat, T>, x: nat)
      ensures m - (set id | id in [x]) == m - {x}
    {
      assert (set id | id in [x]) == {x};
    }

    method Register(h: LimitHandler)
      requires h.id == nextId
      modifies this`handlers, this`nextId
      ensures handlers == old(handlers)[h.id := h] && nextId == old(nextId) + 1
    {
      handlers := handlers[h.id := h];
      nextId := nextId + 1;
    }

    /** The first handler of a new service is armed and processed once, which makes it wait for a stream. */
    method Prime()
      requires handlers == map[] && nextId == 0 && outstanding == multiset{}
      requires deferred == [] && destroyed == [] && started == []
      modifies this
      ensures Valid() && deferred == [] && View() == PRIMED && OthersFresh()
    {
      var h := new LimitHandler(0);
      Register(h);
      assert States() == map[0 := HandlerState(Initial, PendingRead, map[], true)];
      h.Process(this, true, NotSet);
      assert States() == map[0 := FRESH_HANDLER];
      RunDeferredDestroys();
    }

    /** All handlers are valid but the one about to be destroyed, which has given up its ownership of itself. */
    ghost predicate ValidBut(gone: nat)
      reads this`handlers, this`nextId, handlers.Values
    {
      forall id :: id in handlers ==> id < nextId && handlers[id].id == id && (id != gone ==> handlers[id].owned)
    }

    /** Takes a completion from the queue and has its handler process it. */
    method Dispatch(e: Event)
      requires Valid() && deferred == []
      requires e.tag in outstanding && e.tag.id in handlers
      modifies this, handlers.Values
      ensures OthersFresh()
      ensures Ends(old(handlers[e.tag.id].State()), e.ok) ==>
                && ValidBut(e.tag.id) && deferred == [e.tag.id]
                && View().(handlers := States() - {e.tag.id})
                   == old(View()).(handlers := old(States()) - {e.tag.id},
                                   outstanding := old(outstanding) - multiset{e.tag})
      ensures !Ends(old(handlers[e.tag.id].State()), e.ok) ==>
                && Valid() && deferred == []
                && View() == Processed(old(View()).(outstanding := old(outstanding) - multiset{e.tag}),
                                       e.tag.id, e.ok, e.request)
    {
      ghost var w := View();
      var h := handlers[e.tag.id];
      outstanding := outstanding - multiset{e.tag};
      assert View() == w.(outstanding := w.outstanding - multiset{e.tag});
      h.Process(this, e.ok, e.request);
      if Ends(w.handlers[e.tag.id], e.ok) {
        assert States() - {e.tag.id} == w.handlers - {e.tag.id};
      }
    }

    /** One turn of the main loop: process a completion, then run the deferred destroys. */
    method CompleteNext(e: Event)
      requires Valid() && deferred == []
      requires e.tag in outstanding && e.tag.id in handlers
      modifies this, handlers.Values
      ensures Valid() && deferred == [] && OthersFresh()
      ensures View() == Step(old(View()), e)
    {
      ghost var w := View();
      Dispatch(e);
      if Ends(w.handlers[e.tag.id], e.ok) {
        OneDeferred(States(), e.tag.id);
        OneDeferred(handlers, e.tag.id);
      }
      RunDeferredDestroys();
    }

    /** The main loop, for completions that come from the queue. */
    method Serve(events: seq<Event>, ghost final: World)
      requires handlers == map[] && nextId == 0 && outstanding == multiset{}
      requires deferred == [] && destroyed == [] && started == []
      requires IsServiceRun(events, final)
      modifies this
      ensures Valid() && deferred == [] && View() == final && Inv(final)
    {
      PrimedInv();
      Prime();
      for i := 0 to |events|
        invariant Valid() && deferred == [] && OthersFresh()
        invariant Inv(View()) && IsRun(View(), events[i..], final)
      {
        RunGoesOn(View(), events, i, final);
        CompleteNext(events[i]);
      }
      assert events[|events|..] == [];
    }
  }

  class LimitHandler {
    const id: nat
    var phase: StreamConnectPhase
    var pending: PendingOp
    var resRequest: map<string, real>
    var owned: bool

    /** A new handler, armed: it owns itself. */
    constructor (id: nat)
      ensures this.id == id && State() == HandlerState(Initial, PendingRead, map[], true)
    {
      this.id := id;
      phase, pending, resRequest, owned := Initial, PendingRead, map[], true;
    }

    function State(): HandlerState
      reads this
    {
      HandlerState(phase, pending, resRequest, owned)
    }

    /** Takes the handler's ownership of itself away and queues it to be destroyed. */
    method DeferDestroy(rt: Runtime)
      modifies this`owned, rt`deferred
      ensures !owned && rt.deferred == old(rt.deferred) + [id]
    {
      rt.deferred := rt.deferred + [id];
      owned := false;
    }

    method BillItems(items: map<string, real>)
      modifies this`resRequest
      ensures resRequest == Appended(old(resRequest), items)
    {
      var keys := items.Keys;
      while keys != {}
        invariant keys <= items.Keys
        invariant resRequest == Appended(old(resRequest), items - keys)
      {
        var key :| key in keys;
        resRequest := resRequest[key := ValueOr0(resRequest, key) + items[key]];
        keys := keys - {key};
      }
      assert items - keys == items;
    }

    /** The part of a handler's world it needs to be processed. */
    ghost predicate Registered(rt: Runtime)
      reads this, rt, rt.handlers.Values
    {
      rt.Valid() && rt.deferred == [] && id in rt.handlers && rt.handlers[id] == this
    }

    /** The handler has moved to state `next` and started an operation; nothing else has happened. */
    twostate predicate Started(rt: Runtime, next: HandlerState, kind: OpKind)
      reads this, rt, rt.handlers.Values
    {
      && Registered(rt) && State() == next && rt.handlers == old(rt.handlers) && rt.nextId == old(rt.nextId)
      && rt.outstanding == old(rt.outstanding) + multiset{Tag(id, kind)}
      && rt.started == old(rt.started) + [Tag(id, kind)]
      && rt.destroyed == old(rt.destroyed)
    }

    method HandleReadCompletion(rt: Runtime, ok: bool, request: Message)
      requires Registered(rt) && phase.Streaming? && pending.PendingRead?
      modifies this, rt
      ensures var next := NextState(old(State()), ok, request); Started(rt, next, OpOf(next.pending))
    {
      if !ok {
        pending := PendingFinish;
        rt.Start(id, FinishOp);
        return;
      }
      match request {
        case BillAppend(items) => BillItems(items);
        case BillOverwrite(items) =>
          resRequest := map[];
          BillItems(items);
          assert Appended(map[], items) == items;
        case ResourceFinish =>
          pending := PendingFinish;
          rt.Start(id, FinishOp);
          return;
        case _ =>
      }
      pending := PendingWrite;
      rt.Start(id, WriteOp);
    }

    method HandleWriteCompletion(rt: Runtime, ok: bool)
      requires Registered(rt) && phase.Streaming? && pending.PendingWrite?
      modifies this, rt
      ensures var next := NextState(old(State()), ok, NotSet); Started(rt, next, OpOf(next.pending))
    {
      if !ok {
        pending := PendingFinish;
        rt.Start(id, FinishOp);
        return;
      }
      pending := PendingRead;
      rt.Start(id, ReadOp);
    }

    /** The first time a handler is processed: it asks for a stream. */
    method Bind(rt: Runtime)
      requires Registered(rt) && phase.Initial?
      modifies this, rt
      ensures Started(rt, HandlerState(Accepted, old(pending), old(resRequest), old(owned)), AcceptOp)
    {
      phase := Accepted;
      rt.Start(id, AcceptOp);
    }

    /** A new handler waits for the next stream. */
    method CloneAcceptor(rt: Runtime)
      requires Registered(rt)
      modifies rt
      ensures Registered(rt) && rt.nextId == old(rt.nextId) + 1 && rt.destroyed == old(rt.destroyed)
      ensures old(rt.nextId) in rt.handlers && fresh(rt.handlers[old(rt.nextId)])
      ensures rt.handlers == old(rt.handlers)[old(rt.nextId) := rt.handlers[old(rt.nextId)]]
      ensures rt.States() == old(rt.States())[old(rt.nextId) := FRESH_HANDLER]
      ensures rt.outstanding == old(rt.outstanding) + multiset{Tag(old(rt.nextId), AcceptOp)}
      ensures rt.started == old(rt.started) + [Tag(old(rt.nextId), AcceptOp)]
    {
      var p := new LimitHandler(rt.nextId);
      rt.Register(p);
      p.Bind(rt);
      assert rt.States() == old(rt.States())[old(rt.nextId) := FRESH_HANDLER];
      rt.RunDeferredDestroys();
    }

    /** A stream has come in: the next one gets a handler of its own, and this one starts to read. */
    method AcceptStream(rt: Runtime)
      requires Registered(rt) && phase.Accepted?
      modifies this, rt
      ensures Continued(rt) && rt.View() == Connected(old(rt.View()), id)
    {
      ghost var w, n := rt.View(), rt.nextId;
      phase := Streaming;
      assert rt.States() == w.handlers[id := State()];
      CloneAcceptor(rt);
      OnStreamRpcConnected(rt);
      UpdatedTwice(w.handlers, id, HandlerState(Streaming, old(pending), old(resRequest), old(owned)),
                   n, FRESH_HANDLER, State());
    }

    /** The first read of a stream. */
    method OnStreamRpcConnected(rt: Runtime)
      requires Registered(rt)
      modifies this, rt
      ensures Started(rt, HandlerState(old(phase), PendingRead, old(resRequest), old(owned)), ReadOp)
      ensures rt.States() == old(rt.States())[id := State()]
    {
      pending := PendingRead;
      rt.Start(id, ReadOp);
      assert rt.States() == old(rt.States())[id := State()];
    }

    method HandleStreamConnect(rt: Runtime, running: bool)
      requires Registered(rt) && !phase.Streaming?
      modifies this, rt
      ensures Ends(old(State()), running) ==> Ended(rt)
      ensures !Ends(old(State()), running) ==>
                Continued(rt) && rt.View() == Processed(old(rt.View()), id, running, NotSet)
    {
      if phase == Initial {
        StartConnecting(rt);
      } else if !running {
        DeferDestroy(rt);
      } else {
        AcceptStream(rt);
      }
    }

    method StartConnecting(rt: Runtime)
      requires Registered(rt) && phase.Initial?
      modifies this, rt
      ensures Continued(rt)
      ensures rt.View()
              == Starts(old(rt.View()), id, HandlerState(Accepted, old(pending), old(resRequest), old(owned)), AcceptOp)
    {
      Bind(rt);
      assert rt.States() == old(rt.States())[id := State()];
    }

    /** The handler lives on, and any handler that was not there is new. */
    twostate predicate Continued(rt: Runtime)
      reads this, rt, rt.handlers.Values
    {
      Registered(rt) && rt.OthersFresh()
    }

    /** The handler waits to be destroyed; nothing else has happened. */
    twostate predicate Ended(rt: Runtime)
      reads this, rt
    {
      && rt.deferred == [id] && rt.handlers == old(rt.handlers) && rt.nextId == old(rt.nextId)
      && rt.outstanding == old(rt.outstanding) && rt.started == old(rt.started) && rt.destroyed == old(rt.destroyed)
    }

    method Process(rt: Runtime, running: bool, request: Message)
      requires Registered(rt)
      modifies this, rt
      ensures Ends(old(State()), running) ==> Ended(rt)
      ensures !Ends(old(State()), running) ==>
                Continued(rt) && rt.View() == Processed(old(rt.View()), id, running, request)
    {
      if phase != Streaming {
        HandleStreamConnect(rt, running);
        return;
      }
      match pending {
        case PendingRead =>
          HandleReadCompletion(rt, running, request);
        case PendingWrite =>
          HandleWriteCompletion(rt, running);
        case PendingFinish =>
          DeferDestroy(rt);
          return;
      }
      ghost var next := NextState(old(State()), running, request);
      assert rt.States() == old(rt.States())[id := next];
    }
  }
}
