/** The anti-forgery token of the acronym forms. Rendering the create or edit
    form stores a fresh token in the session under `CSRF_TOKEN` and puts the same
    text into the form; submitting the form reads the stored token, clears it,
    and accepts the submission only when the supplied token equals the stored one. */
module Csrf {
  import opened Common
  import opened Store
  import Base64

  const CsrfKey: string := "CSRF_TOKEN"

  /** The comparison `expectedToken == data.csrfToken` of an optional stored
      token with the supplied one: a missing stored token never matches. */
  predicate Accepts(data: map<string, string>, supplied: string) {
    CsrfKey in data && data[CsrfKey] == supplied
  }

  /** Form render: the base64 text of the random bytes, written under `CSRF_TOKEN`
      over whatever was there, and returned for the form. */
  method MintToken(session: Session, random: seq<Common.byte>) returns (token: string)
    modifies session`data
    ensures token == Base64.Encode(random)
    ensures session.data == old(session.data)[CsrfKey := token]
    ensures Accepts(session.data, token)
    ensures session.data == Apply(old(session.data), Render(token))
  {
    token := Base64.Encode(random);
    session.Set(CsrfKey, Some(token));
  }

  /** Form submit: reads the stored token, clears it, then compares. The token is
      gone afterwards whether or not the comparison succeeds. */
  method ConsumeToken(session: Session, supplied: string) returns (ok: bool)
    modifies session`data
    ensures ok <==> Accepts(old(session.data), supplied)
    ensures session.data == old(session.data) - {CsrfKey}
    ensures !Accepts(session.data, supplied)
    ensures session.data == Apply(old(session.data), Submit(supplied))
  {
    var expected := session.Get(CsrfKey);
    session.Set(CsrfKey, None);
    ok := expected == Some(supplied);
  }

  /** What happens to one browser's session, request by request: a form render
      minting `token`, a form submit supplying `supplied`, or a write of some other
      session key (such as binding the logged-in user). */
  datatype SessionEvent = Render(token: string) | Submit(supplied: string) | Write(key: string, value: Option<string>)

  function Apply(data: map<string, string>, e: SessionEvent): map<string, string> {
    match e
    case Render(t) => data[CsrfKey := t]
    case Submit(_) => data - {CsrfKey}
    case Write(k, v) => Assign(data, k, v)
  }

  /** The session data after the events of `events`, in order. */
  function Run(data: map<string, string>, events: seq<SessionEvent>): map<string, string>
    decreases |events|
  {
    if |events| == 0 then data
    else Apply(Run(data, events[..|events| - 1]), events[|events| - 1])
  }

  predicate TouchesToken(e: SessionEvent) {
    e.Render? || e.Submit?
  }

  /** Only the form handlers write the token key. */
  ghost predicate NoDirectWrites(events: seq<SessionEvent>) {
    forall i :: 0 <= i < |events| && events[i].Write? ==> events[i].key != CsrfKey
  }

  /** Whatever token the session holds was minted by a render that no later
      render or submit has replaced or cleared. */
  lemma {:induction false} TokenOrigin(data: map<string, string>, events: seq<SessionEvent>)
    requires CsrfKey !in data && NoDirectWrites(events)
    ensures CsrfKey in Run(data, events) ==>
      exists j ::
        && 0 <= j < |events| && events[j] == Render(Run(data, events)[CsrfKey])
        && forall l :: j < l < |events| ==> !TouchesToken(events[l])
    decreases |events|
  {
    if |events| > 0 {
      var front := events[..|events| - 1];
      var last := events[|events| - 1];
      assert NoDirectWrites(front) by {
        forall i | 0 <= i < |front| && front[i].Write?
          ensures front[i].key != CsrfKey
        {
          assert front[i] == events[i];
        }
      }
      TokenOrigin(data, front);
      var before := Run(data, front);
      if CsrfKey in Run(data, events) && last.Write? {
        assert last.key != CsrfKey;
        assert Run(data, events)[CsrfKey] == before[CsrfKey];
        var j :| 0 <= j < |front| && front[j] == Render(before[CsrfKey])
          && forall l :: j < l < |front| ==> !TouchesToken(front[l]);
        assert events[j] == front[j];
        assert forall l :: j < l < |events| - 1 ==> events[l] == front[l];
      }
    }
  }

  /** A submit is accepted only when the last token event before it was the render
      of the very token it supplies. */
  lemma AcceptedSubmitFollowsRender(data: map<string, string>, events: seq<SessionEvent>, k: nat)
    requires CsrfKey !in data && NoDirectWrites(events)
    requires k < |events| && events[k].Submit?
    requires Accepts(Run(data, events[..k]), events[k].supplied)
    ensures exists j ::
      && 0 <= j < k && events[j] == Render(events[k].supplied)
      && forall l :: j < l < k ==> !TouchesToken(events[l])
  {
    var front := events[..k];
    assert NoDirectWrites(front) by {
      forall i | 0 <= i < |front| && front[i].Write?
        ensures front[i].key != CsrfKey
      {
        assert front[i] == events[i];
      }
    }
    TokenOrigin(data, front);
    var j :| 0 <= j < |front| && front[j] == Render(Run(data, front)[CsrfKey])
      && forall l :: j < l < |front| ==> !TouchesToken(front[l]);
    assert events[j] == front[j];
    assert forall l :: j < l < k ==> events[l] == front[l];
  }

  /** After a submit, no token is stored until the next render. */
  lemma {:induction false} NoTokenUntilRender(data: map<string, string>, events: seq<SessionEvent>, k: nat, n: nat)
    requires k < n <= |events| && events[k].Submit?
    requires forall i :: k < i < n ==> !events[i].Render?
    requires NoDirectWrites(events)
    ensures CsrfKey !in Run(data, events[..n])
    decreases n
  {
    assert events[..n][..n - 1] == events[..n - 1];
    if n > k + 1 {
      NoTokenUntilRender(data, events, k, n - 1);
      if events[n - 1].Write? {
        assert events[n - 1].key != CsrfKey;
      }
    }
  }

  /** Submitting again without rendering the form again is always rejected,
      whatever token is supplied: a replayed token never passes. */
  lemma ReplayRejected(data: map<string, string>, events: seq<SessionEvent>, k: nat, l: nat)
    requires k < l < |events| && events[k].Submit? && events[l].Submit?
    requires forall i :: k < i < l ==> !events[i].Render?
    requires NoDirectWrites(events)
    ensures !Accepts(Run(data, events[..l]), events[l].supplied)
  {
    NoTokenUntilRender(data, events, k, l);
  }
}
