/** The webhook decisions that feed the follow-up tables: the WhatsApp
    verification handshake (`GET /webhook`), the WhatsApp message webhook
    (`POST /webhook`) and the Twilio voice webhook (`POST /twilio/voice`).
    Outbound WhatsApp sends are returned as data; their outcome never
    matters here, because in both handlers the send is the last effect and
    a failure is swallowed before the response.
 */
module Ingress {
  import opened Store
  import opened Text

  /** A query parameter, environment variable or payload field that may be
      absent (`undefined` in the handler). */
  datatype Option<T> = None | Some(value: T)

  /** Body that, after trimming and lower-casing, simulates a missed call. */
  const TriggerKeyword: string := "simulate_missed_call"

  /** The normalised-body test of the message webhook. */
  predicate IsTrigger(body: string) {
    LowerAscii(Trim(body)) == TriggerKeyword
  }

  /** JavaScript truthiness of an optional string: present and non-empty. */
  predicate Truthy(v: Option<string>) {
    v.Some? && v.value != ""
  }

  /** Answer to the verification handshake: 200 echoing the challenge, or 403. */
  datatype VerifyReply = Challenge(body: Option<string>) | Forbidden

  /** Which fixed text a send carries. */
  datatype Notice = AutoReply | SimulatedMissedCallNotice | MissedCallNotice

  /** One `sendWhatsappText(to, ...)` call. */
  datatype Outbound = Outbound(to: string, notice: Notice)

  /** The `messages[0]` entry of a WhatsApp payload: sender and optional text. */
  datatype InboundText = InboundText(from: string, text: Option<string>)

  datatype MessageResult = MessageResult(store: Store, sent: seq<Outbound>, status: nat)

  datatype VoiceResult = VoiceResult(store: Store, sent: seq<Outbound>)

  /** `message.text?.body ?? ""`. */
  function BodyOf(text: Option<string>): string {
    if text.Some? then text.value else ""
  }

  /** `GET /webhook`: the challenge is echoed exactly when the request
      subscribes with the configured, non-empty token. */
  function VerifyWebhook(mode: Option<string>, token: Option<string>, challenge: Option<string>,
                         verifyToken: Option<string>): (r: VerifyReply)
    ensures r.Challenge? <==> mode == Some("subscribe") && Truthy(token) && token == verifyToken
    ensures r.Challenge? ==> r.body == challenge
  {
    if Truthy(mode) && Truthy(token) && mode == Some("subscribe") && token == verifyToken then
      Challenge(challenge)
    else
      Forbidden
  }

  /** `POST /webhook`: log the message, open a follow-up for the trigger
      keyword, then send one reply; the provider always gets 200. */
  function MessageWebhook(s: Store, message: Option<InboundText>, now: nat): (r: MessageResult)
    requires Valid(s)
    ensures Valid(r.store) && r.status == 200
    ensures message.None? ==> r.store == s && r.sent == []
    ensures message.Some? ==>
      var from := message.value.from;
      var body := BodyOf(message.value.text);
      && r.store.messages == s.messages + [Message(from, body, now)]
      && (IsTrigger(body) ==>
            r.store.followups == s.followups + [Followup(s.nextId, from, now, false)] &&
            r.store.nextId == s.nextId + 1)
      && (!IsTrigger(body) ==> r.store.followups == s.followups && r.store.nextId == s.nextId)
      && r.sent == [Outbound(from, if IsTrigger(body) then SimulatedMissedCallNotice else AutoReply)]
  {
    match message
    case None => MessageResult(s, [], 200)
    case Some(m) =>
      var body := BodyOf(m.text);
      var logged := AppendMessage(s, m.from, body, now);
      if IsTrigger(body) then
        MessageResult(CreateFollowup(logged, m.from, now), [Outbound(m.from, SimulatedMissedCallNotice)], 200)
      else
        MessageResult(logged, [Outbound(m.from, AutoReply)], 200)
  }

  /** `POST /twilio/voice`: open a follow-up for the caller, then send the
      missed-call notice at once; the caller is always hung up on. */
  function VoiceWebhook(s: Store, from: string, now: nat): (r: VoiceResult)
    requires Valid(s)
    ensures Valid(r.store)
    ensures r.store.messages == s.messages
    ensures r.store.followups == s.followups + [Followup(s.nextId, from, now, false)]
    ensures r.store.nextId == s.nextId + 1
    ensures r.sent == [Outbound(from, MissedCallNotice)]
  {
    var created := CreateFollowup(s, from, now);
    assert created.followups == created.followups[..|s.followups|] + [created.followups[|s.followups|]];
    VoiceResult(created, [Outbound(from, MissedCallNotice)])
  }

  /** Without a configured, non-empty verify token every handshake fails. */
  lemma VerifyNeedsConfiguredToken(mode: Option<string>, token: Option<string>, challenge: Option<string>,
                                   verifyToken: Option<string>)
    requires !Truthy(verifyToken)
    ensures VerifyWebhook(mode, token, challenge, verifyToken) == Forbidden
  {
  }

  /** The keyword is recognised whatever whitespace surrounds it and
      whatever the case of its letters, and nothing else is. */
  lemma TriggerPadded(a: string, b: string, c: string)
    requires AllWhitespace(a) && AllWhitespace(c) && Tight(b)
    ensures IsTrigger(a + b + c) <==> LowerAscii(b) == TriggerKeyword
  {
    TrimPadded(a, b, c);
  }

  /** The logged message counts as a reply to exactly the open follow-ups
      of the same number that it postdates, unless it is the sentinel; in
      particular the trigger message never answers the follow-up it opens. */
  lemma MessageReplies(s: Store, m: InboundText, now: nat, f: Followup)
    requires Valid(s)
    ensures
      var r := MessageWebhook(s, Some(m), now);
      HasReply(r.store.messages, f) <==>
        HasReply(s.messages, f) || (m.from == f.from && f.missedAt < now && BodyOf(m.text) != MissedCallSentinel)
  {
    HasReplyAppend(s.messages, Message(m.from, BodyOf(m.text), now), f);
  }

  /** The follow-up opened by the trigger keyword is not answered by the
      message that opened it. */
  lemma TriggerIsNotItsOwnReply(s: Store, m: InboundText, now: nat)
    requires Valid(s) && IsTrigger(BodyOf(m.text))
    ensures
      var r := MessageWebhook(s, Some(m), now);
      var f := Followup(s.nextId, m.from, now, false);
      && r.store.followups == s.followups + [f]
      && (HasReply(r.store.messages, f) <==> HasReply(s.messages, f))
  {
    MessageReplies(s, m, now, Followup(s.nextId, m.from, now, false));
  }
}
