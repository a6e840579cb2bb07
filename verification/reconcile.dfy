/** The reconciliation tick run every minute by the service's timer.

    One tick selects the open follow-ups past the grace window, then walks
    that batch in order: a follow-up whose number has written back since the
    miss is marked done without a send; any other gets one WhatsApp reminder
    and is marked done once the send returns.  A failed send is not caught
    inside the loop: it ends the whole tick, leaving that follow-up and every
    later one of the batch open for the next tick.

    The WhatsApp transport is an oracle: `ok(k)` tells whether the `k`-th
    send of this tick (counting from 0) succeeds.
 */
module Reconcile {
  import opened Store

  /** Success of the k-th send attempted within one tick. */
  type Oracle = nat -> bool

  /** One reminder send: the follow-up it was for, the number it went to,
      and whether it returned successfully. */
  datatype Attempt = Attempt(followupId: nat, to: string, delivered: bool)

  /** How a tick ended: after the whole batch, or at the outer `catch`
      because the send for follow-up `failedId` threw. */
  datatype Outcome = Completed | Aborted(failedId: nat)

  /** The follow-up table after a pass, with the sends it made. */
  datatype Pass = Pass(followups: seq<Followup>, attempts: seq<Attempt>, outcome: Outcome)

  datatype TickResult = TickResult(store: Store, attempts: seq<Attempt>, outcome: Outcome)

  /** The loop over the selected batch, against the live table `fs`: each
      decision uses the batch snapshot, each update goes through the
      `UPDATE ... WHERE id = ?` of `MarkDone`.  `n` counts sends so far. */
  function RunBatch(batch: seq<Followup>, fs: seq<Followup>, msgs: seq<Message>, ok: Oracle, n: nat): (p: Pass)
    ensures |p.followups| == |fs|
    ensures forall i :: 0 <= i < |fs| ==> SameRow(fs[i], p.followups[i]) && (fs[i].done ==> p.followups[i].done)
    ensures p.outcome.Aborted? <==> |p.attempts| > 0 && !p.attempts[|p.attempts| - 1].delivered
    ensures forall k :: 0 <= k < |p.attempts| - 1 ==> p.attempts[k].delivered
    decreases |batch|
  {
    if |batch| == 0 then Pass(fs, [], Completed)
    else
      var f := batch[0];
      if HasReply(msgs, f) then
        RunBatch(batch[1..], MarkDone(fs, f.id), msgs, ok, n)
      else if ok(n) then
        var rest := RunBatch(batch[1..], MarkDone(fs, f.id), msgs, ok, n + 1);
        Pass(rest.followups, [Attempt(f.id, f.from, true)] + rest.attempts, rest.outcome)
      else
        Pass(fs, [Attempt(f.id, f.from, false)], Aborted(f.id))
  }

  /** One tick at time `now` (seconds). */
  function Tick(s: Store, now: nat, ok: Oracle): (r: TickResult)
    ensures r.store.messages == s.messages && r.store.nextId == s.nextId
    ensures |r.store.followups| == |s.followups|
    ensures r.outcome.Aborted? <==> |r.attempts| > 0 && !r.attempts[|r.attempts| - 1].delivered
    ensures forall k :: 0 <= k < |r.attempts| - 1 ==> r.attempts[k].delivered
  {
    var p := RunBatch(SelectOpen(s.followups, now), s.followups, s.messages, ok, 0);
    TickResult(s.(followups := p.followups), p.attempts, p.outcome)
  }

  // ---------------------------------------------------------------------
  // Reference semantics: the same tick, one table position at a time.
  // ---------------------------------------------------------------------

  /** What a completed tick does to one row. */
  function Resolve(f: Followup, now: nat): Followup {
    if Eligible(f, now) then f.(done := true) else f
  }

  /** Every row as a completed tick leaves it. */
  function ResolveAll(fs: seq<Followup>, now: nat): (r: seq<Followup>)
    ensures |r| == |fs|
    ensures forall i :: 0 <= i < |fs| ==> r[i] == Resolve(fs[i], now)
  {
    if |fs| == 0 then [] else [Resolve(fs[0], now)] + ResolveAll(fs[1..], now)
  }

  /** The rows a tick must send a reminder for, in row order. */
  function Notifiable(fs: seq<Followup>, msgs: seq<Message>, now: nat): seq<Followup>
  {
    if |fs| == 0 then []
    else if Eligible(fs[0], now) && !HasReply(msgs, fs[0]) then [fs[0]] + Notifiable(fs[1..], msgs, now)
    else Notifiable(fs[1..], msgs, now)
  }

  /** The rows owed a send are exactly the eligible rows without a reply. */
  lemma {:induction false} NotifiableMembers(fs: seq<Followup>, msgs: seq<Message>, now: nat)
    ensures forall f :: f in Notifiable(fs, msgs, now) <==> f in fs && Eligible(f, now) && !HasReply(msgs, f)
    decreases |fs|
  {
    if |fs| > 0 {
      NotifiableMembers(fs[1..], msgs, now);
      assert fs == [fs[0]] + fs[1..];
    }
  }

  /** Successful sends to each of `fs`, in order. */
  function Delivered(fs: seq<Followup>): (r: seq<Attempt>)
    ensures |r| == |fs|
    ensures forall k :: 0 <= k < |fs| ==> r[k] == Attempt(fs[k].id, fs[k].from, true)
  {
    if |fs| == 0 then [] else [Attempt(fs[0].id, fs[0].from, true)] + Delivered(fs[1..])
  }

  /** The tick walks the table in row order; sends are numbered from `n`. */
  function Sweep(fs: seq<Followup>, msgs: seq<Message>, now: nat, ok: Oracle, n: nat): Pass
  {
    if |fs| == 0 then Pass([], [], Completed)
    else
      var f := fs[0];
      if !Eligible(f, now) then
        var rest := Sweep(fs[1..], msgs, now, ok, n);
        Pass([f] + rest.followups, rest.attempts, rest.outcome)
      else if HasReply(msgs, f) then
        var rest := Sweep(fs[1..], msgs, now, ok, n);
        Pass([f.(done := true)] + rest.followups, rest.attempts, rest.outcome)
      else if ok(n) then
        var rest := Sweep(fs[1..], msgs, now, ok, n + 1);
        Pass([f.(done := true)] + rest.followups, [Attempt(f.id, f.from, true)] + rest.attempts, rest.outcome)
      else
        Pass(fs, [Attempt(f.id, f.from, false)], Aborted(f.id))
  }

  /** The tick stopped at row `j`: every row before it was processed, a send
      was owed to row `j` and failed, and nothing from `j` on was touched. */
  ghost predicate StoppedAt(fs: seq<Followup>, msgs: seq<Message>, now: nat, ok: Oracle, n: nat, p: Pass, j: nat)
    requires j < |fs|
  {
    var before := Notifiable(fs[..j], msgs, now);
    && p.outcome == Aborted(fs[j].id)
    && Eligible(fs[j], now) && !HasReply(msgs, fs[j])
    && (forall k :: n <= k < n + |before| ==> ok(k))
    && !ok(n + |before|)
    && p.followups == ResolveAll(fs[..j], now) + fs[j..]
    && p.attempts == Delivered(before) + [Attempt(fs[j].id, fs[j].from, false)]
  }

  /** The whole behaviour of a tick over rows `fs`, sends numbered from `n`:
      either every send owed succeeded and every eligible row is resolved,
      or the tick stopped at the first row whose send failed. */
  ghost predicate MeetsSpec(fs: seq<Followup>, msgs: seq<Message>, now: nat, ok: Oracle, n: nat, p: Pass) {
    match p.outcome
    case Completed =>
      var owed := Notifiable(fs, msgs, now);
      && (forall k :: n <= k < n + |owed| ==> ok(k))
      && p.followups == ResolveAll(fs, now)
      && p.attempts == Delivered(owed)
    case Aborted(_) =>
      exists j: nat :: j < |fs| && StoppedAt(fs, msgs, now, ok, n, p, j)
  }

  lemma Assoc<T>(a: seq<T>, b: seq<T>, c: seq<T>)
    ensures a + (b + c) == (a + b) + c
  {
  }

  lemma SliceCons(fs: seq<Followup>, j: nat)
    requires j + 1 < |fs|
    ensures fs[..j + 1] == [fs[0]] + fs[1..][..j]
    ensures fs[j + 1..] == fs[1..][j..]
    ensures fs[j + 1] == fs[1..][j]
  {
    assert forall k :: 0 <= k < j + 1 ==> fs[..j + 1][k] == ([fs[0]] + fs[1..][..j])[k];
    assert forall k :: 0 <= k < |fs| - j - 1 ==> fs[j + 1..][k] == fs[1..][j..][k];
  }

  lemma NotifiableCons(f: Followup, xs: seq<Followup>, msgs: seq<Message>, now: nat)
    ensures Notifiable([f] + xs, msgs, now) ==
      if Eligible(f, now) && !HasReply(msgs, f) then [f] + Notifiable(xs, msgs, now) else Notifiable(xs, msgs, now)
  {
    assert ([f] + xs)[1..] == xs;
  }

  lemma ResolveAllCons(f: Followup, xs: seq<Followup>, now: nat)
    ensures ResolveAll([f] + xs, now) == [Resolve(f, now)] + ResolveAll(xs, now)
  {
    assert ([f] + xs)[1..] == xs;
  }

  /** The walk passes over its first row without a send. */
  lemma SweepPassesOver(fs: seq<Followup>, msgs: seq<Message>, now: nat, ok: Oracle, n: nat, rest: Pass, p: Pass)
    requires |fs| > 0 && (!Eligible(fs[0], now) || HasReply(msgs, fs[0]))
    requires MeetsSpec(fs[1..], msgs, now, ok, n, rest)
    requires p == Pass([Resolve(fs[0], now)] + rest.followups, rest.attempts, rest.outcome)
    ensures MeetsSpec(fs, msgs, now, ok, n, p)
  {
    var f := fs[0];
    if rest.outcome.Completed? {
      assert fs == [f] + fs[1..];
      NotifiableCons(f, fs[1..], msgs, now);
      ResolveAllCons(f, fs[1..], now);
    } else {
      var j: nat :| j < |fs[1..]| && StoppedAt(fs[1..], msgs, now, ok, n, rest, j);
      SliceCons(fs, j);
      NotifiableCons(f, fs[1..][..j], msgs, now);
      ResolveAllCons(f, fs[1..][..j], now);
      StoppedAtPassesOver(fs, msgs, now, ok, n, rest, p, j);
    }
  }

  lemma StoppedAtPassesOver(fs: seq<Followup>, msgs: seq<Message>, now: nat, ok: Oracle, n: nat,
                            rest: Pass, p: Pass, j: nat)
    requires |fs| > 0
    requires j < |fs[1..]| && StoppedAt(fs[1..], msgs, now, ok, n, rest, j)
    requires fs[..j + 1] == [fs[0]] + fs[1..][..j] && fs[j + 1..] == fs[1..][j..] && fs[j + 1] == fs[1..][j]
    requires Notifiable(fs[..j + 1], msgs, now) == Notifiable(fs[1..][..j], msgs, now)
    requires ResolveAll(fs[..j + 1], now) == [Resolve(fs[0], now)] + ResolveAll(fs[1..][..j], now)
    requires p == Pass([Resolve(fs[0], now)] + rest.followups, rest.attempts, rest.outcome)
    ensures StoppedAt(fs, msgs, now, ok, n, p, j + 1)
  {
    var resolved := ResolveAll(fs[1..][..j], now);
    var untouched := fs[1..][j..];
    Assoc([Resolve(fs[0], now)], resolved, untouched);
  }

  /** The walk sends successfully to its first row. */
  lemma SweepSends(fs: seq<Followup>, msgs: seq<Message>, now: nat, ok: Oracle, n: nat, rest: Pass, p: Pass)
    requires |fs| > 0 && Eligible(fs[0], now) && !HasReply(msgs, fs[0]) && ok(n)
    requires MeetsSpec(fs[1..], msgs, now, ok, n + 1, rest)
    requires p == Pass([fs[0].(done := true)] + rest.followups,
                       [Attempt(fs[0].id, fs[0].from, true)] + rest.attempts, rest.outcome)
    ensures MeetsSpec(fs, msgs, now, ok, n, p)
  {
    var f := fs[0];
    var sent := Attempt(f.id, f.from, true);
    if rest.outcome.Completed? {
      var owed := Notifiable(fs[1..], msgs, now);
      assert fs == [f] + fs[1..];
      NotifiableCons(f, fs[1..], msgs, now);
      ResolveAllCons(f, fs[1..], now);
      assert Delivered([f] + owed) == [sent] + Delivered(owed) by {
        assert ([f] + owed)[1..] == owed;
      }
    } else {
      var j: nat :| j < |fs[1..]| && StoppedAt(fs[1..], msgs, now, ok, n + 1, rest, j);
      var before := Notifiable(fs[1..][..j], msgs, now);
      SliceCons(fs, j);
      NotifiableCons(f, fs[1..][..j], msgs, now);
      ResolveAllCons(f, fs[1..][..j], now);
      assert Delivered([f] + before) == [sent] + Delivered(before) by {
        assert ([f] + before)[1..] == before;
      }
      StoppedAtSends(fs, msgs, now, ok, n, rest, p, j);
    }
  }

  lemma StoppedAtSends(fs: seq<Followup>, msgs: seq<Message>, now: nat, ok: Oracle, n: nat,
                       rest: Pass, p: Pass, j: nat)
    requires |fs| > 0 && ok(n)
    requires j < |fs[1..]| && StoppedAt(fs[1..], msgs, now, ok, n + 1, rest, j)
    requires fs[..j + 1] == [fs[0]] + fs[1..][..j] && fs[j + 1..] == fs[1..][j..] && fs[j + 1] == fs[1..][j]
    requires Notifiable(fs[..j + 1], msgs, now) == [fs[0]] + Notifiable(fs[1..][..j], msgs, now)
    requires ResolveAll(fs[..j + 1], now) == [fs[0].(done := true)] + ResolveAll(fs[1..][..j], now)
    requires Delivered([fs[0]] + Notifiable(fs[1..][..j], msgs, now)) ==
             [Attempt(fs[0].id, fs[0].from, true)] + Delivered(Notifiable(fs[1..][..j], msgs, now))
    requires p == Pass([fs[0].(done := true)] + rest.followups,
                       [Attempt(fs[0].id, fs[0].from, true)] + rest.attempts, rest.outcome)
    ensures StoppedAt(fs, msgs, now, ok, n, p, j + 1)
  {
    var before := Notifiable(fs[1..][..j], msgs, now);
    Assoc([fs[0].(done := true)], ResolveAll(fs[1..][..j], now), fs[1..][j..]);
    Assoc([Attempt(fs[0].id, fs[0].from, true)], Delivered(before), [Attempt(fs[j + 1].id, fs[j + 1].from, false)]);
    assert |[fs[0]] + before| == 1 + |before|;
  }

  /** The reference walk meets the specification. */
  lemma {:induction false} SweepMeetsSpec(fs: seq<Followup>, msgs: seq<Message>, now: nat, ok: Oracle, n: nat)
    ensures MeetsSpec(fs, msgs, now, ok, n, Sweep(fs, msgs, now, ok, n))
    decreases |fs|
  {
    var p := Sweep(fs, msgs, now, ok, n);
    if |fs| > 0 {
      var f := fs[0];
      if !Eligible(f, now) || HasReply(msgs, f) {
        SweepMeetsSpec(fs[1..], msgs, now, ok, n);
        SweepPassesOver(fs, msgs, now, ok, n, Sweep(fs[1..], msgs, now, ok, n), p);
      } else if ok(n) {
        SweepMeetsSpec(fs[1..], msgs, now, ok, n + 1);
        SweepSends(fs, msgs, now, ok, n, Sweep(fs[1..], msgs, now, ok, n + 1), p);
      } else {
        SweepStopsAtHead(fs, msgs, now, ok, n);
      }
    }
  }

  /** The walk stops at its first row when that send fails. */
  lemma SweepStopsAtHead(fs: seq<Followup>, msgs: seq<Message>, now: nat, ok: Oracle, n: nat)
    requires |fs| > 0 && Eligible(fs[0], now) && !HasReply(msgs, fs[0]) && !ok(n)
    ensures StoppedAt(fs, msgs, now, ok, n, Sweep(fs, msgs, now, ok, n), 0)
  {
    assert fs[..0] == [] && fs[0..] == fs;
  }

  // ---------------------------------------------------------------------
  // The batch loop agrees with the reference walk.
  // ---------------------------------------------------------------------

  /** A row outside the batch is carried along untouched by the loop. */
  lemma {:induction false} RunBatchKeepsHead(batch: seq<Followup>, g: Followup, rest: seq<Followup>,
                                             msgs: seq<Message>, ok: Oracle, n: nat)
    requires forall b :: b in batch ==> b.id != g.id
    ensures
      var p := RunBatch(batch, rest, msgs, ok, n);
      RunBatch(batch, [g] + rest, msgs, ok, n) == Pass([g] + p.followups, p.attempts, p.outcome)
    decreases |batch|
  {
    if |batch| > 0 {
      var f := batch[0];
      assert MarkDone([g] + rest, f.id) == [g] + MarkDone(rest, f.id) by {
        assert ([g] + rest)[1..] == rest;
      }
      assert forall b :: b in batch[1..] ==> b in batch;
      if HasReply(msgs, f) {
        RunBatchKeepsHead(batch[1..], g, MarkDone(rest, f.id), msgs, ok, n);
      } else if ok(n) {
        RunBatchKeepsHead(batch[1..], g, MarkDone(rest, f.id), msgs, ok, n + 1);
      }
    }
  }

  lemma MarkDoneHead(fs: seq<Followup>)
    requires |fs| > 0 && UniqueIds(fs)
    ensures MarkDone(fs, fs[0].id) == [fs[0].(done := true)] + fs[1..]
  {
    var r := MarkDone(fs, fs[0].id);
    assert r[0] == fs[0].(done := true);
    forall i | 1 <= i < |fs|
      ensures r[i] == fs[i]
    {
      assert fs[0].id != fs[i].id;
    }
    assert r == [r[0]] + r[1..];
  }

  lemma HeadIdFresh(fs: seq<Followup>)
    requires |fs| > 0 && UniqueIds(fs)
    ensures UniqueIds(fs[1..])
    ensures forall b :: b in fs[1..] ==> b.id != fs[0].id
  {
    forall b | b in fs[1..]
      ensures b.id != fs[0].id
    {
      var k :| 0 <= k < |fs[1..]| && fs[1..][k] == b;
      assert fs[k + 1] == b;
    }
  }

  lemma {:induction false} BatchIsSweep(fs: seq<Followup>, msgs: seq<Message>, now: nat, ok: Oracle, n: nat)
    requires UniqueIds(fs)
    ensures RunBatch(SelectOpen(fs, now), fs, msgs, ok, n) == Sweep(fs, msgs, now, ok, n)
    decreases |fs|
  {
    if |fs| > 0 {
      var f := fs[0];
      var rest := fs[1..];
      var tail := SelectOpen(rest, now);
      HeadIdFresh(fs);
      assert fs == [f] + rest;
      assert forall b :: b in tail ==> b.id != f.id;
      if !Eligible(f, now) {
        RunBatchKeepsHead(tail, f, rest, msgs, ok, n);
        BatchIsSweep(rest, msgs, now, ok, n);
      } else {
        var batch := SelectOpen(fs, now);
        assert batch == [f] + tail;
        assert batch[1..] == tail;
        MarkDoneHead(fs);
        var f' := f.(done := true);
        assert forall b :: b in tail ==> b.id != f'.id;
        if HasReply(msgs, f) {
          RunBatchKeepsHead(tail, f', rest, msgs, ok, n);
          BatchIsSweep(rest, msgs, now, ok, n);
        } else if ok(n) {
          RunBatchKeepsHead(tail, f', rest, msgs, ok, n + 1);
          BatchIsSweep(rest, msgs, now, ok, n + 1);
        }
      }
    }
  }

  /** With distinct primary keys, the tick is the reference walk. */
  lemma TickIsSweep(s: Store, now: nat, ok: Oracle)
    requires UniqueIds(s.followups)
    ensures
      var r := Tick(s, now, ok);
      var p := Sweep(s.followups, s.messages, now, ok, 0);
      r.store.followups == p.followups && r.attempts == p.attempts && r.outcome == p.outcome
  {
    BatchIsSweep(s.followups, s.messages, now, ok, 0);
  }

  // ---------------------------------------------------------------------
  // Consequences of the specification, for any pass that meets it.
  // ---------------------------------------------------------------------

  lemma SpecStop(fs: seq<Followup>, msgs: seq<Message>, now: nat, ok: Oracle, n: nat, p: Pass) returns (j: nat)
    requires MeetsSpec(fs, msgs, now, ok, n, p) && p.outcome.Aborted?
    ensures j < |fs| && StoppedAt(fs, msgs, now, ok, n, p, j)
  {
    j :| j < |fs| && StoppedAt(fs, msgs, now, ok, n, p, j);
  }

  lemma SpecFrame(fs: seq<Followup>, msgs: seq<Message>, now: nat, ok: Oracle, n: nat, p: Pass)
    requires MeetsSpec(fs, msgs, now, ok, n, p)
    ensures |p.followups| == |fs|
    ensures forall i :: 0 <= i < |fs| ==>
              p.followups[i] == fs[i] || (Eligible(fs[i], now) && p.followups[i] == fs[i].(done := true))
  {
    if p.outcome.Aborted? {
      var j := SpecStop(fs, msgs, now, ok, n, p);
      forall i | 0 <= i < |fs|
        ensures p.followups[i] == fs[i] || (Eligible(fs[i], now) && p.followups[i] == fs[i].(done := true))
      {
        if i < j {
          assert p.followups[i] == ResolveAll(fs[..j], now)[i];
        } else {
          assert p.followups[i] == fs[j..][i - j];
        }
      }
    }
  }

  /** The rows the sends of a pass were for, in order. */
  lemma SpecOwed(fs: seq<Followup>, msgs: seq<Message>, now: nat, ok: Oracle, n: nat, p: Pass)
    returns (owed: seq<Followup>)
    requires MeetsSpec(fs, msgs, now, ok, n, p)
    ensures |owed| == |p.attempts|
    ensures forall k :: 0 <= k < |owed| ==>
              p.attempts[k].followupId == owed[k].id && p.attempts[k].to == owed[k].from
    ensures forall f :: f in owed ==> f in fs && Eligible(f, now) && !HasReply(msgs, f)
    ensures UniqueIds(fs) ==> UniqueIds(owed)
  {
    if p.outcome.Completed? {
      owed := Notifiable(fs, msgs, now);
      NotifiableMembers(fs, msgs, now);
      if UniqueIds(fs) {
        NotifiableUnique(fs, msgs, now);
      }
    } else {
      var j := SpecStop(fs, msgs, now, ok, n, p);
      owed := StoppedOwed(fs, msgs, now, ok, n, p, j);
    }
  }

  lemma StoppedOwed(fs: seq<Followup>, msgs: seq<Message>, now: nat, ok: Oracle, n: nat, p: Pass, j: nat)
    returns (owed: seq<Followup>)
    requires j < |fs| && StoppedAt(fs, msgs, now, ok, n, p, j)
    ensures |owed| == |p.attempts|
    ensures forall k :: 0 <= k < |owed| ==>
              p.attempts[k].followupId == owed[k].id && p.attempts[k].to == owed[k].from
    ensures forall f :: f in owed ==> f in fs && Eligible(f, now) && !HasReply(msgs, f)
    ensures UniqueIds(fs) ==> UniqueIds(owed)
  {
    var before := Notifiable(fs[..j], msgs, now);
    owed := before + [fs[j]];
    NotifiableMembers(fs[..j], msgs, now);
    assert forall f :: f in fs[..j] ==> f in fs;
    if UniqueIds(fs) {
      assert UniqueIds(fs[..j]);
      NotifiableUnique(fs[..j], msgs, now);
      forall q | 0 <= q < |before|
        ensures before[q].id != fs[j].id
      {
        assert before[q] in fs[..j];
        var m :| 0 <= m < j && fs[..j][m] == before[q];
        assert fs[m] == before[q];
      }
    }
  }

  lemma {:induction false} NotifiableUnique(fs: seq<Followup>, msgs: seq<Message>, now: nat)
    requires UniqueIds(fs)
    ensures UniqueIds(Notifiable(fs, msgs, now))
    decreases |fs|
  {
    if |fs| > 0 {
      HeadIdFresh(fs);
      NotifiableUnique(fs[1..], msgs, now);
      NotifiableMembers(fs[1..], msgs, now);
      var tail := Notifiable(fs[1..], msgs, now);
      if Eligible(fs[0], now) && !HasReply(msgs, fs[0]) {
        var r := [fs[0]] + tail;
        forall a, b | 0 <= a < b < |r|
          ensures r[a].id != r[b].id
        {
          if a == 0 {
            assert r[b] in tail;
          } else {
            assert r[a] == tail[a - 1] && r[b] == tail[b - 1];
          }
        }
      }
    }
  }

  lemma CompletedDelivers(fs: seq<Followup>, msgs: seq<Message>, now: nat, ok: Oracle, n: nat,
                          p: Pass, i: nat)
    requires MeetsSpec(fs, msgs, now, ok, n, p) && p.outcome.Completed?
    requires i < |fs| && Eligible(fs[i], now) && !HasReply(msgs, fs[i])
    ensures Attempt(fs[i].id, fs[i].from, true) in p.attempts
  {
    var owed := Notifiable(fs, msgs, now);
    NotifiableMembers(fs, msgs, now);
    assert fs[i] in owed;
    var k :| 0 <= k < |owed| && owed[k] == fs[i];
    assert p.attempts[k] == Attempt(fs[i].id, fs[i].from, true);
  }

  lemma StoppedAfterDelivers(fs: seq<Followup>, msgs: seq<Message>, now: nat, ok: Oracle, n: nat,
                             p: Pass, j: nat, i: nat)
    requires j < |fs| && StoppedAt(fs, msgs, now, ok, n, p, j) && UniqueIds(fs)
    requires i < j && Eligible(fs[i], now) && !HasReply(msgs, fs[i])
    ensures Attempt(fs[i].id, fs[i].from, true) in p.attempts
    ensures Attempt(fs[i].id, fs[i].from, false) !in p.attempts
  {
    var f := fs[i];
    var before := Notifiable(fs[..j], msgs, now);
    NotifiableMembers(fs[..j], msgs, now);
    assert fs[..j][i] == f;
    assert f in before;
    var k :| 0 <= k < |before| && before[k] == f;
    assert p.attempts[k] == Attempt(f.id, f.from, true);
    assert f.id != fs[j].id;
    assert p.attempts[|before|] == Attempt(fs[j].id, fs[j].from, false);
  }

  lemma SpecDoneOnlyAfterDelivery(fs: seq<Followup>, msgs: seq<Message>, now: nat, ok: Oracle, n: nat,
                                  p: Pass, i: nat)
    requires MeetsSpec(fs, msgs, now, ok, n, p) && UniqueIds(fs)
    requires i < |fs| && Eligible(fs[i], now) && !HasReply(msgs, fs[i])
    ensures |p.followups| == |fs|
    ensures p.followups[i].done ==> Attempt(fs[i].id, fs[i].from, true) in p.attempts
    ensures Attempt(fs[i].id, fs[i].from, false) in p.attempts ==> p.followups[i] == fs[i]
  {
    SpecFrame(fs, msgs, now, ok, n, p);
    if p.outcome.Completed? {
      CompletedDelivers(fs, msgs, now, ok, n, p, i);
    } else {
      var j := SpecStop(fs, msgs, now, ok, n, p);
      if i < j {
        StoppedAfterDelivers(fs, msgs, now, ok, n, p, j, i);
      } else {
        assert p.followups[i] == fs[j..][i - j];
      }
    }
  }

  // ---------------------------------------------------------------------
  // Properties of one tick.
  // ---------------------------------------------------------------------

  /** The complete behaviour of a tick on a store with distinct keys. */
  lemma TickSpec(s: Store, now: nat, ok: Oracle)
    requires UniqueIds(s.followups)
    ensures
      var r := Tick(s, now, ok);
      MeetsSpec(s.followups, s.messages, now, ok, 0, Pass(r.store.followups, r.attempts, r.outcome))
  {
    TickIsSweep(s, now, ok);
    SweepMeetsSpec(s.followups, s.messages, now, ok, 0);
  }

  /** A tick changes nothing but `done`, only from false to true, and only
      on rows past the grace window. */
  lemma TickFrame(s: Store, now: nat, ok: Oracle)
    requires UniqueIds(s.followups)
    ensures
      var fs := s.followups;
      var r := Tick(s, now, ok).store.followups;
      forall i :: 0 <= i < |fs| ==> r[i] == fs[i] || (Eligible(fs[i], now) && r[i] == fs[i].(done := true))
  {
    var r := Tick(s, now, ok);
    TickSpec(s, now, ok);
    SpecFrame(s.followups, s.messages, now, ok, 0, Pass(r.store.followups, r.attempts, r.outcome));
  }

  /** Each send goes to the number of a distinct eligible row without a reply. */
  ghost predicate SendsOnlyUnanswered(fs: seq<Followup>, msgs: seq<Message>, now: nat, attempts: seq<Attempt>) {
    && (forall a :: a in attempts ==>
          exists i :: 0 <= i < |fs| && fs[i].id == a.followupId && fs[i].from == a.to &&
                      Eligible(fs[i], now) && !HasReply(msgs, fs[i]))
    && (forall k, l :: 0 <= k < l < |attempts| ==> attempts[k].followupId != attempts[l].followupId)
  }

  lemma SpecSendsOnlyUnanswered(fs: seq<Followup>, msgs: seq<Message>, now: nat, ok: Oracle, n: nat, p: Pass)
    requires MeetsSpec(fs, msgs, now, ok, n, p) && UniqueIds(fs)
    ensures SendsOnlyUnanswered(fs, msgs, now, p.attempts)
  {
    var owed := SpecOwed(fs, msgs, now, ok, n, p);
    forall a | a in p.attempts
      ensures exists i :: 0 <= i < |fs| && fs[i].id == a.followupId && fs[i].from == a.to &&
                          Eligible(fs[i], now) && !HasReply(msgs, fs[i])
    {
      var k :| 0 <= k < |p.attempts| && p.attempts[k] == a;
      assert owed[k] in owed;
      var i :| 0 <= i < |fs| && fs[i] == owed[k];
    }
  }

  /** Every send of a tick goes to the number of an eligible follow-up that
      has no reply, and no follow-up gets two; so a follow-up with a reply
      never gets a send. */
  lemma TickSendsOnlyUnanswered(s: Store, now: nat, ok: Oracle)
    requires UniqueIds(s.followups)
    ensures SendsOnlyUnanswered(s.followups, s.messages, now, Tick(s, now, ok).attempts)
    ensures forall i, a ::
              0 <= i < |s.followups| && HasReply(s.messages, s.followups[i]) && a in Tick(s, now, ok).attempts
              ==> a.followupId != s.followups[i].id
  {
    var r := Tick(s, now, ok);
    TickSpec(s, now, ok);
    SpecSendsOnlyUnanswered(s.followups, s.messages, now, ok, 0, Pass(r.store.followups, r.attempts, r.outcome));
    RepliedNeverSent(s.followups, s.messages, now, r.attempts);
  }

  lemma RepliedNeverSent(fs: seq<Followup>, msgs: seq<Message>, now: nat, attempts: seq<Attempt>)
    requires UniqueIds(fs) && SendsOnlyUnanswered(fs, msgs, now, attempts)
    ensures forall i, a :: 0 <= i < |fs| && HasReply(msgs, fs[i]) && a in attempts ==> a.followupId != fs[i].id
  {
    forall i, a | 0 <= i < |fs| && HasReply(msgs, fs[i]) && a in attempts
      ensures a.followupId != fs[i].id
    {
      var i' :| 0 <= i' < |fs| && fs[i'].id == a.followupId && !HasReply(msgs, fs[i']);
      assert i' != i;
    }
  }

  /** `done` is set on a follow-up without a reply only after its send
      succeeded; a failed send leaves the row as it was. */
  lemma TickDoneOnlyAfterDelivery(s: Store, now: nat, ok: Oracle, i: nat)
    requires UniqueIds(s.followups)
    requires i < |s.followups|
    requires Eligible(s.followups[i], now) && !HasReply(s.messages, s.followups[i])
    ensures
      var f := s.followups[i];
      var r := Tick(s, now, ok);
      && (r.store.followups[i].done ==> Attempt(f.id, f.from, true) in r.attempts)
      && (Attempt(f.id, f.from, false) in r.attempts ==> r.store.followups[i] == f)
  {
    var r := Tick(s, now, ok);
    TickSpec(s, now, ok);
    SpecDoneOnlyAfterDelivery(s.followups, s.messages, now, ok, 0, Pass(r.store.followups, r.attempts, r.outcome), i);
  }

  /** A tick that completes resolves every eligible follow-up, and sends to
      exactly the ones without a reply, each send successful. */
  lemma TickCompleted(s: Store, now: nat, ok: Oracle)
    requires UniqueIds(s.followups)
    requires Tick(s, now, ok).outcome.Completed?
    ensures
      var fs := s.followups;
      var r := Tick(s, now, ok);
      && (forall i :: 0 <= i < |fs| && Eligible(fs[i], now) ==> r.store.followups[i].done)
      && (forall i :: 0 <= i < |fs| && Eligible(fs[i], now) && !HasReply(s.messages, fs[i]) ==>
            Attempt(fs[i].id, fs[i].from, true) in r.attempts)
      && (forall a :: a in r.attempts ==> a.delivered)
  {
    var fs := s.followups;
    var r := Tick(s, now, ok);
    var p := Pass(r.store.followups, r.attempts, r.outcome);
    TickSpec(s, now, ok);
    forall i | 0 <= i < |fs| && Eligible(fs[i], now) && !HasReply(s.messages, fs[i])
      ensures Attempt(fs[i].id, fs[i].from, true) in r.attempts
    {
      CompletedDelivers(fs, s.messages, now, ok, 0, p, i);
    }
  }

  /** A send failure ends the tick: the failing follow-up stays open (and is
      selected again by any later tick), every later row is untouched, and
      every earlier eligible row is resolved. */
  lemma TickAborted(s: Store, now: nat, ok: Oracle)
    requires UniqueIds(s.followups)
    requires Tick(s, now, ok).outcome.Aborted?
    ensures
      var fs := s.followups;
      var r := Tick(s, now, ok);
      exists j :: 0 <= j < |fs|
        && r.outcome == Aborted(fs[j].id)
        && r.attempts[|r.attempts| - 1] == Attempt(fs[j].id, fs[j].from, false)
        && (forall later :: later >= now ==> Eligible(r.store.followups[j], later))
        && (forall i :: j <= i < |fs| ==> r.store.followups[i] == fs[i])
        && (forall i :: 0 <= i < j && Eligible(fs[i], now) ==> r.store.followups[i].done)
  {
    var fs := s.followups;
    var r := Tick(s, now, ok);
    var p := Pass(r.store.followups, r.attempts, r.outcome);
    TickSpec(s, now, ok);
    var j := SpecStop(fs, s.messages, now, ok, 0, p);
    forall i | j <= i < |fs|
      ensures r.store.followups[i] == fs[i]
    {
      assert r.store.followups[i] == fs[j..][i - j];
    }
    forall i | 0 <= i < j && Eligible(fs[i], now)
      ensures r.store.followups[i].done
    {
      assert r.store.followups[i] == ResolveAll(fs[..j], now)[i];
    }
  }

  /** The walk skips rows that are not due and stops at the first due,
      unanswered row when its send fails, changing nothing. */
  lemma {:induction false} SweepFailsAt(fs: seq<Followup>, msgs: seq<Message>, now: nat, ok: Oracle, n: nat, j: nat)
    requires j < |fs| && forall i :: 0 <= i < j ==> !Eligible(fs[i], now)
    requires Eligible(fs[j], now) && !HasReply(msgs, fs[j]) && !ok(n)
    ensures Sweep(fs, msgs, now, ok, n) == Pass(fs, [Attempt(fs[j].id, fs[j].from, false)], Aborted(fs[j].id))
    decreases j
  {
    if j > 0 {
      SweepFailsAt(fs[1..], msgs, now, ok, n, j - 1);
      assert [fs[0]] + fs[1..] == fs;
    }
  }

  /** A walk over what a stopped tick left, whose first send fails, stops at
      the same row and changes nothing. */
  lemma StoppedAtBlocks(fs: seq<Followup>, msgs: seq<Message>, now: nat, ok: Oracle, n: nat, p: Pass,
                        j: nat, ok': Oracle)
    requires j < |fs| && StoppedAt(fs, msgs, now, ok, n, p, j) && !ok'(0)
    ensures Sweep(p.followups, msgs, now, ok', 0) == Pass(p.followups, [p.attempts[|p.attempts| - 1]], p.outcome)
  {
    var gs := p.followups;
    forall i | 0 <= i < j
      ensures !Eligible(gs[i], now)
    {
      assert gs[i] == ResolveAll(fs[..j], now)[i];
    }
    assert gs[j] == fs[j..][0];
    SweepFailsAt(gs, msgs, now, ok', 0, j);
  }

  /** The outer catch makes a failing row block the rest of the table: after
      a tick that aborts, a tick at the same time whose first send fails too
      stops at the same row, and again leaves every row as it was. */
  lemma FailingRowBlocksLaterRows(s: Store, now: nat, ok: Oracle, ok': Oracle)
    requires UniqueIds(s.followups)
    requires Tick(s, now, ok).outcome.Aborted? && !ok'(0)
    ensures
      var r1 := Tick(s, now, ok);
      var r2 := Tick(r1.store, now, ok');
      && r2.store == r1.store
      && r2.outcome == r1.outcome
      && r2.attempts == [r1.attempts[|r1.attempts| - 1]]
  {
    var r1 := Tick(s, now, ok);
    var p := Pass(r1.store.followups, r1.attempts, r1.outcome);
    TickSpec(s, now, ok);
    TickPreservesIds(s, now, ok);
    var j := SpecStop(s.followups, s.messages, now, ok, 0, p);
    StoppedAtBlocks(s.followups, s.messages, now, ok, 0, p, j, ok');
    TickIsSweep(r1.store, now, ok');
  }

  lemma TickPreservesIds(s: Store, now: nat, ok: Oracle)
    requires UniqueIds(s.followups)
    ensures UniqueIds(Tick(s, now, ok).store.followups)
  {
    var gs := Tick(s, now, ok).store.followups;
    assert forall i :: 0 <= i < |gs| ==> gs[i].id == s.followups[i].id;
  }

  /** Ticks keep the store invariant. */
  lemma TickPreservesValid(s: Store, now: nat, ok: Oracle)
    requires Valid(s)
    ensures Valid(Tick(s, now, ok).store)
  {
    TickFrame(s, now, ok);
  }

  /** After a tick that completed, another tick at the same time selects
      nothing: it sends nothing and changes nothing. */
  lemma TickCompletedIsQuiescent(s: Store, now: nat, ok: Oracle, ok': Oracle)
    requires UniqueIds(s.followups)
    requires Tick(s, now, ok).outcome.Completed?
    ensures
      var r := Tick(s, now, ok);
      Tick(r.store, now, ok') == TickResult(r.store, [], Completed)
  {
    var r := Tick(s, now, ok);
    TickFrame(s, now, ok);
    TickCompleted(s, now, ok);
    SelectOpenNone(r.store.followups, now);
  }
}
