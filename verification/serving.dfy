/** The gateway's receive loop, run over the sequence of things it observes:
    the stop flag, receive timeouts and datagrams. Each observation has an
    effect (a reply, nothing, or the end of the loop), and the loop is the
    fold of those effects. As written, the loop ends when the stop flag is
    seen and also on the first datagram shorter than a request header. */
module Serving {
  import opened Bytes
  import opened Proto
  import opened Server

  /** What one pass of the receive loop observes. */
  datatype Event =
    | Stop                                                // the stop flag is set when the pass begins
    | Timeout                                             // the receive times out
    | Datagram(data: Bytes, sender: Ip, outcome: Outcome) // a datagram, and what the backend would answer

  /** How a run over a finite sequence of events ends. */
  datatype Exit = Waiting | Stopped | Returned

  datatype Outgoing = Outgoing(to: Endpoint, payload: Bytes)

  /** What one pass of the loop does. */
  datatype Effect = Emit(out: Outgoing) | Quiet | End(exit: Exit)

  /** The replies sent, in order, and how the loop ended. */
  datatype Trace = Trace(sent: seq<Outgoing>, exit: Exit)

  // The fold of effects.

  /** The loop over a sequence of effects: replies are sent in order until the
      first `End`. */
  function Run(fs: seq<Effect>): (t: Trace)
    ensures |t.sent| <= |fs|
    decreases |fs|
  {
    if |fs| == 0 then Trace([], Waiting)
    else
      match fs[0]
      case End(exit) => Trace([], exit)
      case Quiet => Run(fs[1..])
      case Emit(out) =>
        var rest := Run(fs[1..]);
        Trace([out] + rest.sent, rest.exit)
  }

  /** Reference definition: every emitted reply, in order, built from the
      last effect backwards and ignoring `End`. */
  function Emitted(fs: seq<Effect>): (r: seq<Outgoing>)
    decreases |fs|
  {
    if |fs| == 0 then []
    else
      Emitted(fs[..|fs| - 1]) + Out(fs[|fs| - 1])
  }

  /** The reply one effect contributes. */
  function Out(f: Effect): (r: seq<Outgoing>)
    ensures |r| <= 1
  {
    if f.Emit? then [f.out] else []
  }

  /** Index of the first `End`, or `|fs|`. */
  function FirstEnd(fs: seq<Effect>): (i: nat)
    ensures i <= |fs|
    ensures forall j :: 0 <= j < i ==> !fs[j].End?
    ensures i < |fs| ==> fs[i].End?
  {
    if |fs| == 0 then 0
    else if fs[0].End? then 0
    else 1 + FirstEnd(fs[1..])
  }

  lemma {:induction false} EmittedCons(f: Effect, fs: seq<Effect>)
    ensures Emitted([f] + fs) == Out(f) + Emitted(fs)
    decreases |fs|
  {
    var all := [f] + fs;
    if |fs| == 0 {
      assert all[..0] == [];
    } else {
      var init, last := fs[..|fs| - 1], fs[|fs| - 1];
      assert all[..|all| - 1] == [f] + init;
      assert all[|all| - 1] == last;
      EmittedCons(f, init);
      var a, b, c := Out(f), Emitted(init), Out(last);
      assert Emitted(all) == a + b + c;
      assert a + b + c == a + (b + c);
    }
  }

  /** The loop sends exactly the replies emitted before the first `End`, and
      ends the way that `End` says (still waiting if there is none). */
  lemma {:induction false} RunUntilEnd(fs: seq<Effect>)
    ensures Run(fs).sent == Emitted(fs[..FirstEnd(fs)])
    ensures Run(fs).exit == if FirstEnd(fs) == |fs| then Waiting else fs[FirstEnd(fs)].exit
    decreases |fs|
  {
    if |fs| > 0 {
      var f, rest := fs[0], fs[1..];
      if f.End? {
        assert fs[..0] == [];
      } else {
        RunUntilEnd(rest);
        var n := FirstEnd(rest);
        assert fs[..n + 1] == [f] + rest[..n];
        EmittedCons(f, rest[..n]);
        if n < |rest| {
          assert fs[n + 1] == rest[n];
        }
      }
    }
  }

  /** Running the loop over two batches in turn: the second batch is
      processed only if the first one holds no `End`, and then its replies
      follow the first batch's. */
  lemma {:induction false} RunAppend(fs1: seq<Effect>, fs2: seq<Effect>)
    ensures FirstEnd(fs1) < |fs1| ==> Run(fs1 + fs2) == Run(fs1)
    ensures FirstEnd(fs1) == |fs1| ==> Run(fs1 + fs2) == Trace(Run(fs1).sent + Run(fs2).sent, Run(fs2).exit)
    decreases |fs1|
  {
    if |fs1| == 0 {
      assert fs1 + fs2 == fs2;
    } else {
      var all := fs1 + fs2;
      assert all[0] == fs1[0];
      assert all[1..] == fs1[1..] + fs2;
      RunAppend(fs1[1..], fs2);
      if fs1[0].Emit? {
        var s1, s2 := Run(fs1[1..]).sent, Run(fs2).sent;
        assert [fs1[0].out] + s1 + s2 == [fs1[0].out] + (s1 + s2);
      }
    }
  }

  /** `FirstEnd` is the only index before which no effect ends the loop and at
      which one does. */
  lemma {:induction false} FirstEndUnique(fs: seq<Effect>, i: nat)
    requires i <= |fs|
    requires forall j :: 0 <= j < i ==> !fs[j].End?
    requires i < |fs| ==> fs[i].End?
    ensures FirstEnd(fs) == i
    decreases |fs|
  {
    if 0 < i {
      assert !fs[0].End?;
      FirstEndUnique(fs[1..], i - 1);
    }
  }

  // The gateway's loop.

  /** An event whose backend error code, if any, fits the reply's result
      code field. */
  type Observed = e: Event | e.Datagram? ==> CodesInRange(e.outcome) witness Stop

  /** Whether the loop as written ends at this event. */
  predicate Halts(e: Event)
  {
    e.Stop? || (e.Datagram? && |e.data| < RecordSize(Request))
  }

  /** A well-formed reply: to the reply port, of at most one datagram, and
      opening with the system magic. */
  predicate WellFormedReply(cfg: Config, o: Outgoing)
  {
    && o.to.port == cfg.replyPort
    && RecordSize(Reply) <= |o.payload| <= RecvPacketSize
    && o.payload[..4] == SystemMagicOctets
  }

  /** One pass of `__request_processing_loop` as written: the loop ends when
      the stop flag is set or on an undersized datagram, goes round again on a
      timeout, and otherwise replies as `Step` says. */
  function EffectOf(cfg: Config, e: Event): (f: Effect)
    requires e.Datagram? ==> CodesInRange(e.outcome)
    ensures f.End? <==> Halts(e)
    ensures f.End? ==> f.exit == if e.Stop? then Stopped else Returned
  {
    match e
    case Stop => End(Stopped)
    case Timeout => Quiet
    case Datagram(data, sender, outcome) =>
      match Step(cfg, data, sender, outcome)
      case Return => End(Returned)
      case NoReply => Quiet
      case Send(to, payload) => Emit(Outgoing(to, payload))
  }

  /** One pass of the loop with an undersized datagram skipped (`continue`)
      rather than ending the loop. */
  function CorrectedEffectOf(cfg: Config, e: Event): (f: Effect)
    requires e.Datagram? ==> CodesInRange(e.outcome)
    ensures f.End? <==> e.Stop?
    ensures !Halts(e) ==> f == EffectOf(cfg, e)
    ensures Halts(e) && !e.Stop? ==> f == Quiet
  {
    if e.Datagram? && |e.data| < RecordSize(Request) then Quiet
    else EffectOf(cfg, e)
  }

  /** One value per event, in order. */
  function MapEvents<T>(f: Observed -> T, es: seq<Observed>): (r: seq<T>)
    ensures |r| == |es|
    ensures forall i :: 0 <= i < |es| ==> r[i] == f(es[i])
  {
    seq(|es|, i requires 0 <= i < |es| => f(es[i]))
  }

  lemma MapEventsAppend<T>(f: Observed -> T, es1: seq<Observed>, es2: seq<Observed>)
    ensures MapEvents(f, es1 + es2) == MapEvents(f, es1) + MapEvents(f, es2)
  {
    var r, r1, r2 := MapEvents(f, es1 + es2), MapEvents(f, es1), MapEvents(f, es2);
    forall i | 0 <= i < |r| ensures r[i] == (r1 + r2)[i] {
      if i < |es1| {
        assert (es1 + es2)[i] == es1[i];
      } else {
        assert (es1 + es2)[i] == es2[i - |es1|];
      }
    }
    assert r == r1 + r2;
  }

  function EffectFn(cfg: Config): Observed -> Effect
  {
    (e: Observed) => EffectOf(cfg, e)
  }

  function CorrectedEffectFn(cfg: Config): Observed -> Effect
  {
    (e: Observed) => CorrectedEffectOf(cfg, e)
  }

  function Effects(cfg: Config, es: seq<Observed>): (fs: seq<Effect>)
    ensures |fs| == |es|
  {
    MapEvents(EffectFn(cfg), es)
  }

  function CorrectedEffects(cfg: Config, es: seq<Observed>): (fs: seq<Effect>)
    ensures |fs| == |es|
  {
    MapEvents(CorrectedEffectFn(cfg), es)
  }

  /** `__request_processing_loop` as written, over a finite run of events. */
  function Serve(cfg: Config, es: seq<Observed>): (t: Trace)
    ensures |t.sent| <= |es|
  {
    Run(Effects(cfg, es))
  }

  /** The loop with the undersized datagram skipped; only the stop flag ends it. */
  function ServeCorrected(cfg: Config, es: seq<Observed>): (t: Trace)
    ensures |t.sent| <= |es|
  {
    Run(CorrectedEffects(cfg, es))
  }

  // The loop as a whole.

  /** Reference definition: the reply `Step` sends for one event, if any. */
  function AnswerOf(cfg: Config, e: Event): (r: seq<Outgoing>)
    requires e.Datagram? ==> CodesInRange(e.outcome)
    ensures |r| <= 1
    ensures |r| == 1 <==> e.Datagram? && Step(cfg, e.data, e.sender, e.outcome).Send?
  {
    match e
    case Datagram(data, sender, outcome) =>
      (match Step(cfg, data, sender, outcome)
       case Send(to, payload) => [Outgoing(to, payload)]
       case _ => [])
    case _ => []
  }

  function AnswerFn(cfg: Config): Observed -> seq<Outgoing>
  {
    (e: Observed) => AnswerOf(cfg, e)
  }

  /** The concatenation of `g`'s values over a run of events, built from the
      last event backwards. */
  function Collect(g: Observed -> seq<Outgoing>, es: seq<Observed>): (r: seq<Outgoing>)
    decreases |es|
  {
    if |es| == 0 then []
    else Collect(g, es[..|es| - 1]) + g(es[|es| - 1])
  }

  /** Reference definition: the replies `Step` sends for a run of events, in order. */
  function Replies(cfg: Config, es: seq<Observed>): (r: seq<Outgoing>)
  {
    Collect(AnswerFn(cfg), es)
  }

  /** Index of the first event at which the loop as written ends, or `|es|`. */
  function FirstHalt(es: seq<Observed>): (i: nat)
    ensures i <= |es|
    ensures forall j :: 0 <= j < i ==> !Halts(es[j])
    ensures i < |es| ==> Halts(es[i])
  {
    if |es| == 0 then 0
    else if Halts(es[0]) then 0
    else 1 + FirstHalt(es[1..])
  }

  /** Index of the first `Stop`, or `|es|`. */
  function FirstStop(es: seq<Observed>): (i: nat)
    ensures i <= |es|
    ensures forall j :: 0 <= j < i ==> !es[j].Stop?
    ensures i < |es| ==> es[i].Stop?
  {
    if |es| == 0 then 0
    else if es[0].Stop? then 0
    else 1 + FirstStop(es[1..])
  }

  /** Effects whose replies agree one by one with `g` emit exactly what `g`
      collects. */
  lemma {:induction false} EmittedCollect(fs: seq<Effect>, g: Observed -> seq<Outgoing>, es: seq<Observed>)
    requires |fs| == |es|
    requires forall i :: 0 <= i < |es| ==> Out(fs[i]) == g(es[i])
    ensures Emitted(fs) == Collect(g, es)
    decreases |es|
  {
    if |es| > 0 {
      var n := |es| - 1;
      assert forall i :: 0 <= i < n ==> fs[..n][i] == fs[i] && es[..n][i] == es[i];
      EmittedCollect(fs[..n], g, es[..n]);
      assert Out(fs[n]) == g(es[n]);
    }
  }

  /** A pass of the loop as written that does not end it sends exactly the
      reply `Step` sends. */
  lemma EffectOut(cfg: Config, e: Observed)
    requires !Halts(e)
    ensures Out(EffectOf(cfg, e)) == AnswerOf(cfg, e)
  {
  }

  /** A pass of the corrected loop sends exactly the reply `Step` sends. */
  lemma CorrectedOut(cfg: Config, e: Event)
    requires e.Datagram? ==> CodesInRange(e.outcome)
    ensures Out(CorrectedEffectOf(cfg, e)) == AnswerOf(cfg, e)
  {
    if e.Datagram? && |e.data| < RecordSize(Request) {
      assert Step(cfg, e.data, e.sender, e.outcome).Return?;
    }
  }

  /** The first effect that ends the loop as written comes from the first
      halting event. */
  lemma EffectsEndAtHalt(cfg: Config, es: seq<Observed>)
    ensures FirstEnd(Effects(cfg, es)) == FirstHalt(es)
    ensures forall j :: 0 <= j < |es| ==> Effects(cfg, es)[j] == EffectOf(cfg, es[j])
  {
    var fs := Effects(cfg, es);
    assert forall j :: 0 <= j < |fs| ==> fs[j] == EffectOf(cfg, es[j]);
    FirstEndUnique(fs, FirstHalt(es));
  }

  /** The first effect that ends the corrected loop comes from the first stop. */
  lemma CorrectedEffectsEndAtStop(cfg: Config, es: seq<Observed>)
    ensures FirstEnd(CorrectedEffects(cfg, es)) == FirstStop(es)
    ensures forall j :: 0 <= j < |es| ==> CorrectedEffects(cfg, es)[j] == CorrectedEffectOf(cfg, es[j])
  {
    var fs := CorrectedEffects(cfg, es);
    assert forall j :: 0 <= j < |fs| ==> fs[j] == CorrectedEffectOf(cfg, es[j]);
    FirstEndUnique(fs, FirstStop(es));
  }

  /** The loop as written sends `Step`'s replies to the events before the
      first stop or undersized datagram, in order, and nothing after; it
      returns at an undersized datagram, stops at the stop flag, and is still
      waiting when neither occurs. */
  lemma ServeAnswersUntilHalt(cfg: Config, es: seq<Observed>)
    ensures Serve(cfg, es).sent == Replies(cfg, es[..FirstHalt(es)])
    ensures Serve(cfg, es).exit
      == if FirstHalt(es) == |es| then Waiting
         else if es[FirstHalt(es)].Stop? then Stopped else Returned
  {
    var fs, n := Effects(cfg, es), FirstHalt(es);
    EffectsEndAtHalt(cfg, es);
    RunUntilEnd(fs);
    forall i | 0 <= i < n ensures Out(fs[..n][i]) == AnswerFn(cfg)(es[..n][i]) {
      EffectOut(cfg, es[i]);
    }
    EmittedCollect(fs[..n], AnswerFn(cfg), es[..n]);
  }

  /** The corrected loop sends `Step`'s replies to every event before the
      first stop, and stops there. */
  lemma ServeCorrectedAnswersUntilStop(cfg: Config, es: seq<Observed>)
    ensures ServeCorrected(cfg, es).sent == Replies(cfg, es[..FirstStop(es)])
    ensures ServeCorrected(cfg, es).exit == if FirstStop(es) == |es| then Waiting else Stopped
  {
    var fs, n := CorrectedEffects(cfg, es), FirstStop(es);
    CorrectedEffectsEndAtStop(cfg, es);
    RunUntilEnd(fs);
    forall i | 0 <= i < n ensures Out(fs[..n][i]) == AnswerFn(cfg)(es[..n][i]) {
      CorrectedOut(cfg, es[i]);
    }
    EmittedCollect(fs[..n], AnswerFn(cfg), es[..n]);
  }

  /** The loop keeps no state from one datagram to the next: serving two runs
      of events in turn, when the first neither stops nor returns, sends the
      first run's replies followed by the second's. */
  lemma ServeAppend(cfg: Config, es1: seq<Observed>, es2: seq<Observed>)
    requires FirstHalt(es1) == |es1|
    ensures Serve(cfg, es1 + es2) == Trace(Serve(cfg, es1).sent + Serve(cfg, es2).sent, Serve(cfg, es2).exit)
  {
    MapEventsAppend(EffectFn(cfg), es1, es2);
    EffectsEndAtHalt(cfg, es1);
    RunAppend(Effects(cfg, es1), Effects(cfg, es2));
  }

  /** As written, an undersized datagram ends the loop: nothing after it is
      answered. */
  lemma ShortDatagramEndsServe(cfg: Config, e: Observed, es: seq<Observed>)
    requires e.Datagram? && |e.data| < RecordSize(Request)
    ensures Serve(cfg, [e] + es) == Trace([], Returned)
  {
    assert Effects(cfg, [e] + es)[0] == End(Returned);
  }

  /** In the corrected loop, an undersized datagram is skipped and the loop
      carries on as if it had not arrived. */
  lemma ShortDatagramSkipped(cfg: Config, e: Observed, es: seq<Observed>)
    requires e.Datagram? && |e.data| < RecordSize(Request)
    ensures ServeCorrected(cfg, [e] + es) == ServeCorrected(cfg, es)
  {
    var fs := CorrectedEffects(cfg, [e] + es);
    assert fs[0] == Quiet;
    assert fs[1..] == CorrectedEffects(cfg, es);
  }

  /** The two loops differ only once an undersized datagram arrives before
      the stop flag: until then they send the same replies and end alike. */
  lemma ServeAgreesUntilShortDatagram(cfg: Config, es: seq<Observed>)
    requires FirstHalt(es) == FirstStop(es)
    ensures Serve(cfg, es) == ServeCorrected(cfg, es)
  {
    ServeAnswersUntilHalt(cfg, es);
    ServeCorrectedAnswersUntilStop(cfg, es);
  }

  /** A key-by-id request whose body is missing: a header alone. */
  const BareKeyByIdRequest: Bytes := SystemMagicOctets + [0, 0] + [0, 1] + Zeros(8)

  /** The gateway answers a bare key-by-id request (with an error reply). */
  lemma BareRequestAnswered(cfg: Config, sender: Ip)
    ensures |AnswerOf(cfg, Datagram(BareKeyByIdRequest, sender, Other([])))| == 1
  {
    var data := BareKeyByIdRequest;
    assert |data| == 16;
    assert data[..4] == SystemMagicOctets && data[6..8] == [0, 1];
    RepliesIffKnownCommand(cfg, data, sender, Other([]));
  }

  /** An empty datagram followed by a well-formed-header request: as written
      the loop returns at the empty datagram and never answers the request;
      corrected, it answers it. */
  lemma LostReplyExample(cfg: Config, sender: Ip)
    ensures var es: seq<Observed> := [Datagram([], sender, Other([])), Datagram(BareKeyByIdRequest, sender, Other([]))];
      && Serve(cfg, es) == Trace([], Returned)
      && |ServeCorrected(cfg, es).sent| == 1
      && ServeCorrected(cfg, es).exit == Waiting
  {
    var short: Observed, req: Observed := Datagram([], sender, Other([])), Datagram(BareKeyByIdRequest, sender, Other([]));
    var es := [short, req];
    BareRequestAnswered(cfg, sender);
    ShortDatagramEndsServe(cfg, short, [req]);
    assert [short] + [req] == es;
    ShortDatagramSkipped(cfg, short, [req]);
    ServeCorrectedAnswersUntilStop(cfg, [req]);
    assert [req][..1] == [req];
    assert Replies(cfg, [req]) == Replies(cfg, []) + AnswerOf(cfg, req);
  }

  /** Every reply `Step` sends over a run of events is well formed. */
  lemma {:induction false} RepliesWellFormed(cfg: Config, es: seq<Observed>)
    ensures forall k :: 0 <= k < |Replies(cfg, es)| ==> WellFormedReply(cfg, Replies(cfg, es)[k])
    decreases |es|
  {
    if |es| > 0 {
      var n := |es| - 1;
      RepliesWellFormed(cfg, es[..n]);
      AnswerWellFormed(cfg, es[n]);
      var init, last := Replies(cfg, es[..n]), AnswerOf(cfg, es[n]);
      assert Replies(cfg, es) == init + last;
      forall k | 0 <= k < |init + last| ensures WellFormedReply(cfg, (init + last)[k]) {
        if k < |init| {
          assert (init + last)[k] == init[k];
        } else {
          assert (init + last)[k] == last[0];
        }
      }
    }
  }

  lemma AnswerWellFormed(cfg: Config, e: Observed)
    ensures |AnswerOf(cfg, e)| == 1 ==> WellFormedReply(cfg, AnswerOf(cfg, e)[0])
  {
    if e.Datagram? {
      StepReplyShape(cfg, e.data, e.sender, e.outcome);
    }
  }

  /** Every reply the loop as written sends goes to the reply port, fits one
      datagram and opens with the system magic; the loop returns only after
      an undersized datagram. */
  lemma ServeWellFormed(cfg: Config, es: seq<Observed>)
    ensures forall k :: 0 <= k < |Serve(cfg, es).sent| ==> WellFormedReply(cfg, Serve(cfg, es).sent[k])
    ensures Serve(cfg, es).exit == Returned ==>
      exists i :: 0 <= i < |es| && es[i].Datagram? && |es[i].data| < RecordSize(Request)
  {
    ServeAnswersUntilHalt(cfg, es);
    RepliesWellFormed(cfg, es[..FirstHalt(es)]);
  }

  /** Every reply the corrected loop sends is well formed, and it never
      returns. */
  lemma ServeCorrectedWellFormed(cfg: Config, es: seq<Observed>)
    ensures forall k :: 0 <= k < |ServeCorrected(cfg, es).sent| ==> WellFormedReply(cfg, ServeCorrected(cfg, es).sent[k])
    ensures ServeCorrected(cfg, es).exit != Returned
  {
    ServeCorrectedAnswersUntilStop(cfg, es);
    RepliesWellFormed(cfg, es[..FirstStop(es)]);
  }
}
