/** The two tables the missed-call service keeps: the `followups` table of
    missed calls, each open until resolved, and the `messages` log of
    inbound WhatsApp messages.  Rows are immutable records;
    the only mutable column is the `done` flag of a follow-up.  Timestamps are
    whole seconds, the resolution of SQLite's `CURRENT_TIMESTAMP`.
 */
module Store {

  /** Minimum age, in seconds, of a follow-up before a tick may pick it up. */
  const GraceSeconds: nat := 60

  /** Body of a log entry written by the system itself; never a genuine reply. */
  const MissedCallSentinel: string := "__missed_call__"

  /** A row of `followups`.  `done` is the two-state machine: false while
      the follow-up is open, true once it has been resolved. */
  datatype Followup = Followup(id: nat, from: string, missedAt: nat, done: bool)

  /** A row of `messages`. */
  datatype Message = Message(from: string, body: string, createdAt: nat)

  /** Both tables, in insertion (row id) order, and the next AUTOINCREMENT id. */
  datatype Store = Store(followups: seq<Followup>, messages: seq<Message>, nextId: nat)

  /** The empty database: SQLite hands out AUTOINCREMENT ids from 1. */
  const Empty: Store := Store([], [], 1)

  /** `id` is the primary key of `followups`. */
  predicate UniqueIds(fs: seq<Followup>) {
    forall i, j :: 0 <= i < j < |fs| ==> fs[i].id != fs[j].id
  }

  /** The store invariant: primary keys are distinct and below the next id. */
  predicate Valid(s: Store) {
    && UniqueIds(s.followups)
    && forall i :: 0 <= i < |s.followups| ==> s.followups[i].id < s.nextId
  }

  /** Selection condition of a tick: `done = 0 AND missed_at <= now - 1 minute`. */
  predicate Eligible(f: Followup, now: nat) {
    !f.done && f.missedAt + GraceSeconds <= now
  }

  /** A message answers a follow-up when it comes from exactly the same
      number (no normalisation), strictly after the miss, and is not the
      sentinel. */
  predicate IsReplyTo(m: Message, f: Followup) {
    && m.from == f.from
    && m.createdAt > f.missedAt
    && m.body != MissedCallSentinel
  }

  /** The reply lookup of a tick (`SELECT 1 ... LIMIT 1`). */
  function HasReply(msgs: seq<Message>, f: Followup): (r: bool)
    ensures r <==> exists i :: 0 <= i < |msgs| && IsReplyTo(msgs[i], f)
  {
    if |msgs| == 0 then false
    else IsReplyTo(msgs[|msgs| - 1], f) || HasReply(msgs[..|msgs| - 1], f)
  }

  /** `f` and `g` are the same row, except possibly for `done`. */
  predicate SameRow(f: Followup, g: Followup) {
    g.id == f.id && g.from == f.from && g.missedAt == f.missedAt
  }

  /** `UPDATE followups SET done = 1 WHERE id = ?`. */
  function MarkDone(fs: seq<Followup>, id: nat): (r: seq<Followup>)
    ensures |r| == |fs|
    ensures forall i :: 0 <= i < |fs| ==> SameRow(fs[i], r[i])
    ensures forall i :: 0 <= i < |fs| && fs[i].id == id ==> r[i].done
    ensures forall i :: 0 <= i < |fs| && fs[i].id != id ==> r[i] == fs[i]
  {
    if |fs| == 0 then []
    else
      var f := if fs[0].id == id then fs[0].(done := true) else fs[0];
      [f] + MarkDone(fs[1..], id)
  }

  /** The SELECT of a tick: the open follow-ups past the grace window, in
      row order. */
  function SelectOpen(fs: seq<Followup>, now: nat): (r: seq<Followup>)
    ensures |r| <= |fs|
    ensures forall f :: f in r <==> f in fs && Eligible(f, now)
  {
    if |fs| == 0 then []
    else if Eligible(fs[0], now) then [fs[0]] + SelectOpen(fs[1..], now)
    else SelectOpen(fs[1..], now)
  }

  /** `INSERT INTO messages (from_number, body)`, stamped `now`. */
  function AppendMessage(s: Store, from: string, body: string, now: nat): (r: Store)
    ensures r.followups == s.followups && r.nextId == s.nextId
    ensures |r.messages| == |s.messages| + 1 && r.messages[..|s.messages|] == s.messages
    ensures r.messages[|s.messages|] == Message(from, body, now)
  {
    s.(messages := s.messages + [Message(from, body, now)])
  }

  /** `INSERT INTO followups (from_number)`: a fresh open row stamped `now`. */
  function CreateFollowup(s: Store, from: string, now: nat): (r: Store)
    requires Valid(s)
    ensures Valid(r)
    ensures r.messages == s.messages
    ensures |r.followups| == |s.followups| + 1 && r.followups[..|s.followups|] == s.followups
    ensures r.followups[|s.followups|] == Followup(s.nextId, from, now, false)
  {
    Store(s.followups + [Followup(s.nextId, from, now, false)], s.messages, s.nextId + 1)
  }

  /** Marking a row twice is the same as marking it once. */
  lemma MarkDoneIdempotent(fs: seq<Followup>, id: nat)
    ensures MarkDone(MarkDone(fs, id), id) == MarkDone(fs, id)
  {
    var once := MarkDone(fs, id);
    var twice := MarkDone(once, id);
    assert |twice| == |once|;
    forall i | 0 <= i < |once|
      ensures twice[i] == once[i]
    {
      if once[i].id == id {
        assert SameRow(once[i], twice[i]) && twice[i].done && once[i].done;
      }
    }
  }

  /** A late message never undoes an earlier reply, and a message can only
      create a reply for a follow-up it answers. */
  lemma HasReplyAppend(msgs: seq<Message>, m: Message, f: Followup)
    ensures HasReply(msgs + [m], f) <==> HasReply(msgs, f) || IsReplyTo(m, f)
  {
    var all := msgs + [m];
    assert all[..|all| - 1] == msgs;
  }

  /** The batch repeats no row more often than the table holds it, so with
      distinct ids every eligible row is selected exactly once. */
  lemma SelectOpenOnce(fs: seq<Followup>, now: nat)
    ensures multiset(SelectOpen(fs, now)) <= multiset(fs)
    ensures UniqueIds(fs) ==> forall f :: f in fs && Eligible(f, now) ==> multiset(SelectOpen(fs, now))[f] == 1
  {
    SelectOpenSubMultiset(fs, now);
    if UniqueIds(fs) {
      forall f | f in fs && Eligible(f, now)
        ensures multiset(SelectOpen(fs, now))[f] == 1
      {
        UniqueOnce(fs, f);
      }
    }
  }

  lemma {:induction false} SelectOpenSubMultiset(fs: seq<Followup>, now: nat)
    ensures multiset(SelectOpen(fs, now)) <= multiset(fs)
    decreases |fs|
  {
    if |fs| > 0 {
      SelectOpenSubMultiset(fs[1..], now);
      assert fs == [fs[0]] + fs[1..];
    }
  }

  /** With distinct ids a row occurs in the table once. */
  lemma {:induction false} UniqueOnce(fs: seq<Followup>, f: Followup)
    requires UniqueIds(fs) && f in fs
    ensures multiset(fs)[f] == 1
    decreases |fs|
  {
    assert fs == [fs[0]] + fs[1..];
    if fs[0] == f {
      assert f !in fs[1..] by {
        forall k | 0 <= k < |fs[1..]| ensures fs[1..][k] != f {
          assert fs[1..][k] == fs[k + 1];
        }
      }
    } else {
      UniqueOnce(fs[1..], f);
    }
  }

  /** A table with no eligible row yields an empty batch. */
  lemma {:induction false} SelectOpenNone(fs: seq<Followup>, now: nat)
    requires forall i :: 0 <= i < |fs| ==> !Eligible(fs[i], now)
    ensures SelectOpen(fs, now) == []
    decreases |fs|
  {
    if |fs| > 0 {
      SelectOpenNone(fs[1..], now);
    }
  }
}
