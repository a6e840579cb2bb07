/** The service over time: the store is driven by webhook requests and timer
    ticks, one at a time.  Ticks overlapping each other or a request are not
    modelled; each event sees the store the previous one left.
 */
module Lifecycle {
  import opened Store
  import opened Ingress
  import opened Reconcile
  import opened Text

  /** One thing that happens to the service, stamped with the time (seconds)
      at which it reads the clock. */
  datatype Event =
    | WhatsappMessage(at: nat, message: Option<InboundText>)
    | VoiceCall(at: nat, from: string)
    | TimerTick(at: nat, ok: Oracle)

  /** `g` is `f` later on: same row, and a resolved row stays resolved. */
  predicate Evolves(f: Followup, g: Followup) {
    SameRow(f, g) && (f.done ==> g.done)
  }

  /** `t` is a later state of `s`: no row or message is deleted or altered,
      except that open follow-ups may become done. */
  predicate Extends(s: Store, t: Store) {
    && |s.followups| <= |t.followups|
    && (forall i :: 0 <= i < |s.followups| ==> Evolves(s.followups[i], t.followups[i]))
    && s.messages <= t.messages
    && s.nextId <= t.nextId
  }

  function Step(s: Store, e: Event): (r: Store)
    requires Valid(s)
    ensures Valid(r)
  {
    match e
    case WhatsappMessage(at, m) => MessageWebhook(s, m, at).store
    case VoiceCall(at, from) => VoiceWebhook(s, from, at).store
    case TimerTick(at, ok) =>
      TickPreservesValid(s, at, ok);
      Tick(s, at, ok).store
  }

  /** The store after the events `es`, in order. */
  function Run(s: Store, es: seq<Event>): (r: Store)
    requires Valid(s)
    ensures Valid(r)
    decreases |es|
  {
    if |es| == 0 then s else Run(Step(s, es[0]), es[1..])
  }

  lemma ExtendsTransitive(s: Store, t: Store, u: Store)
    requires Extends(s, t) && Extends(t, u)
    ensures Extends(s, u)
  {
    assert forall i :: 0 <= i < |s.followups| ==> Evolves(t.followups[i], u.followups[i]);
  }

  /** Every event only appends rows and resolves open follow-ups. */
  lemma StepExtends(s: Store, e: Event)
    requires Valid(s)
    ensures Extends(s, Step(s, e))
  {
    var r := Step(s, e);
    match e
    case WhatsappMessage(at, m) =>
      MessageExtends(s, m, at);
    case VoiceCall(at, from) =>
      assert forall i :: 0 <= i < |s.followups| ==> r.followups[i] == s.followups[i];
    case TimerTick(at, ok) =>
      TickFrame(s, at, ok);
  }

  /** Appending rows and messages, and raising the counter, extends a store. */
  lemma PrefixExtends(s: Store, t: Store)
    requires |s.followups| <= |t.followups| && t.followups[..|s.followups|] == s.followups
    requires s.messages <= t.messages && s.nextId <= t.nextId
    ensures Extends(s, t)
  {
    forall i | 0 <= i < |s.followups|
      ensures Evolves(s.followups[i], t.followups[i])
    {
      assert t.followups[i] == t.followups[..|s.followups|][i];
    }
  }

  lemma MessageExtends(s: Store, m: Option<InboundText>, at: nat)
    requires Valid(s)
    ensures Extends(s, MessageWebhook(s, m, at).store)
  {
    var r := MessageWebhook(s, m, at).store;
    if m.Some? {
      assert s.messages <= s.messages + [Message(m.value.from, BodyOf(m.value.text), at)];
      if IsTrigger(BodyOf(m.value.text)) {
        assert (s.followups + [Followup(s.nextId, m.value.from, at, false)])[..|s.followups|] == s.followups;
      } else {
        assert r.followups[..|s.followups|] == s.followups;
      }
    } else {
      assert r == s && s.followups[..|s.followups|] == s.followups;
    }
    PrefixExtends(s, r);
  }

  /** Follow-ups are never deleted, messages never removed, and a resolved
      follow-up is never reopened, whatever happens. */
  lemma {:induction false} RunExtends(s: Store, es: seq<Event>)
    requires Valid(s)
    ensures Extends(s, Run(s, es))
    decreases |es|
  {
    if |es| > 0 {
      var t := Step(s, es[0]);
      StepExtends(s, es[0]);
      RunExtends(t, es[1..]);
      ExtendsTransitive(s, t, Run(t, es[1..]));
    }
  }

  /** A follow-up opened by a call is left alone, and gets no reminder, by
      any tick in its first minute. */
  lemma FreshFollowupWaitsGrace(s: Store, from: string, now: nat, t: nat, ok: Oracle)
    requires Valid(s)
    requires t < now + GraceSeconds
    ensures
      var called := VoiceWebhook(s, from, now).store;
      var r := Tick(called, t, ok);
      && r.store.followups[|s.followups|] == Followup(s.nextId, from, now, false)
      && forall a :: a in r.attempts ==> a.followupId != s.nextId
  {
    var called := VoiceWebhook(s, from, now).store;
    var newRow := |s.followups|;
    assert called.followups[newRow] == Followup(s.nextId, from, now, false);
    TickFrame(called, t, ok);
    TickSendsOnlyUnanswered(called, t, ok);
    var r := Tick(called, t, ok);
    forall a | a in r.attempts
      ensures a.followupId != s.nextId
    {
      var i :| 0 <= i < |called.followups| && called.followups[i].id == a.followupId &&
               Eligible(called.followups[i], t);
      assert i != newRow;
    }
  }

  // ---------------------------------------------------------------------
  // Scenarios.  Times are seconds.
  // ---------------------------------------------------------------------

  const Caller: string := "33612345678"

  /** A missed call at 1000: a tick at 1030 leaves it alone; a tick at
      1060 sends one reminder and resolves it. */
  lemma ScenarioGraceWindow()
    ensures
      var s := VoiceWebhook(Empty, Caller, 1000).store;
      var early := Tick(s, 1030, k => true);
      var due := Tick(s, 1060, k => true);
      && early.attempts == [] && early.store == s
      && due.attempts == [Attempt(1, Caller, true)]
      && due.store.followups == [Followup(1, Caller, 1000, true)]
  {
    var s := VoiceWebhook(Empty, Caller, 1000).store;
    assert s.followups == [Followup(1, Caller, 1000, false)];
    assert SelectOpen(s.followups, 1030) == [];
    assert SelectOpen(s.followups, 1060) == s.followups;
  }

  /** A missed call at 1000 answered by "hello" at 1030: the tick at 1090
      resolves it without a send, whatever the transport would do. */
  lemma ScenarioReplied(ok: Oracle)
    ensures
      var called := VoiceWebhook(Empty, Caller, 1000).store;
      var s := MessageWebhook(called, Some(InboundText(Caller, Some("hello"))), 1030).store;
      var r := Tick(s, 1090, ok);
      && r.attempts == []
      && r.outcome == Completed
      && r.store.followups == [Followup(1, Caller, 1000, true)]
  {
    var called := VoiceWebhook(Empty, Caller, 1000).store;
    var s := MessageWebhook(called, Some(InboundText(Caller, Some("hello"))), 1030).store;
    assert !IsTrigger("hello") by {
      assert LowerAscii(Trim("hello")) != TriggerKeyword by {
        assert |Trim("hello")| <= 5;
      }
    }
    var f := Followup(1, Caller, 1000, false);
    assert s == Store([f], [Message(Caller, "hello", 1030)], 2);
    assert HasReply(s.messages, f);
    TickIsSweep(s, 1090, ok);
    assert [f][1..] == [] && Eligible(f, 1090);
    assert Sweep([], s.messages, 1090, ok, 0) == Pass([], [], Completed);
  }

  /** The first reminder fails and the follow-up stays open; the next tick
      retries it and succeeds: two sends in all. */
  lemma ScenarioRetry()
    ensures
      var s := VoiceWebhook(Empty, Caller, 1000).store;
      var first := Tick(s, 1060, k => false);
      var second := Tick(first.store, 1120, k => true);
      && first.attempts == [Attempt(1, Caller, false)]
      && first.outcome == Aborted(1)
      && first.store == s
      && second.attempts == [Attempt(1, Caller, true)]
      && second.store.followups == [Followup(1, Caller, 1000, true)]
  {
    var s := VoiceWebhook(Empty, Caller, 1000).store;
    assert s.followups == [Followup(1, Caller, 1000, false)];
    assert SelectOpen(s.followups, 1060) == s.followups;
    assert SelectOpen(s.followups, 1120) == s.followups;
  }

  /** Two calls from two numbers; the first reminder of the tick fails.  The
      second follow-up is neither sent to nor resolved by that tick. */
  lemma ScenarioFailureSkipsRestOfBatch()
    ensures
      var s := VoiceWebhook(VoiceWebhook(Empty, Caller, 1000).store, "33700000000", 1001).store;
      var r := Tick(s, 1100, k => k != 0);
      && r.attempts == [Attempt(1, Caller, false)]
      && r.store == s
      && !r.store.followups[1].done
  {
    var s := VoiceWebhook(VoiceWebhook(Empty, Caller, 1000).store, "33700000000", 1001).store;
    var ok: Oracle := k => k != 0;
    assert s.followups == [Followup(1, Caller, 1000, false), Followup(2, "33700000000", 1001, false)];
    TickIsSweep(s, 1100, ok);
    SweepFailsAt(s.followups, s.messages, 1100, ok, 0, 0);
  }

  /** Two follow-ups of one number, missed at `t1` and `t2`, with a message
      from it at `tm` in between.  A tick past both grace windows resolves
      the first silently (the message answers it) and sends a reminder for
      the second (the message predates it). */
  lemma ScenarioSameNumberIndependent(caller: string, body: string, t1: nat, tm: nat, t2: nat, now: nat)
    requires t1 < tm < t2 && t2 + GraceSeconds <= now && body != MissedCallSentinel
    ensures
      var s := Store([Followup(1, caller, t1, false), Followup(2, caller, t2, false)],
                     [Message(caller, body, tm)], 3);
      var r := Tick(s, now, k => true);
      && r.attempts == [Attempt(2, caller, true)]
      && r.outcome == Completed
      && r.store.followups == [Followup(1, caller, t1, true), Followup(2, caller, t2, true)]
  {
    var first := Followup(1, caller, t1, false);
    var second := Followup(2, caller, t2, false);
    var msgs := [Message(caller, body, tm)];
    var s := Store([first, second], msgs, 3);
    var ok: Oracle := k => true;
    assert HasReply(msgs, first);
    assert !HasReply(msgs, second);
    TickIsSweep(s, now, ok);
    var tail := Sweep([second], msgs, now, ok, 0);
    assert [second][1..] == [] && Eligible(second, now) && ok(0);
    assert Sweep([], msgs, now, ok, 1) == Pass([], [], Completed);
    assert tail == Pass([second.(done := true)], [Attempt(2, caller, true)], Completed);
    assert [first, second][1..] == [second];
    assert Sweep([first, second], msgs, now, ok, 0) ==
           Pass([first.(done := true)] + tail.followups, tail.attempts, tail.outcome);
  }

  /** The same phone written two ways: a message from "33612345678" sent
      after a call from "+33612345678" does not answer its follow-up, so the
      due tick still sends the reminder. */
  lemma ScenarioNumberFormatsDiffer(body: string, t1: nat, tm: nat, now: nat)
    requires t1 < tm && t1 + GraceSeconds <= now
    ensures
      var s := Store([Followup(1, "+33612345678", t1, false)], [Message("33612345678", body, tm)], 2);
      var r := Tick(s, now, k => true);
      && r.attempts == [Attempt(1, "+33612345678", true)]
      && r.store.followups == [Followup(1, "+33612345678", t1, true)]
  {
    var f := Followup(1, "+33612345678", t1, false);
    var msgs := [Message("33612345678", body, tm)];
    var s := Store([f], msgs, 2);
    var ok: Oracle := k => true;
    assert "33612345678" != "+33612345678" by {
      assert "33612345678"[0] != "+33612345678"[0];
    }
    assert !HasReply(msgs, f);
    TickIsSweep(s, now, ok);
    assert [f][1..] == [] && Eligible(f, now) && ok(0);
    assert Sweep([], msgs, now, ok, 1) == Pass([], [], Completed);
  }
}
