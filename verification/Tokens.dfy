/** `healer/security.py` and the authorisation of form posts in `healer/api/server.py`.

HMAC-SHA256 and the JSON library are functions of the model; about JSON only that decoding
inverts encoding is ever assumed, about HMAC nothing.  Nonces and times are inputs. */
module Tokens {
  import opened Collections
  import opened Splitting
  import opened Base64Url

  const VERSION: string := "shv1"

  datatype Purpose = ActionToken | CsrfToken

  /** The claims of a token; `subject` is left out when it is empty. */
  datatype Claims = Claims(purpose: Purpose, ticket: string, action: string, expires: int, nonce: string,
                           subject: Option<string>)

  /** What `json.loads` makes of a payload. */
  datatype Payload = Unreadable | NotAnObject | Object(claims: Claims)

  datatype Crypto = Crypto(encode: Claims -> seq<Byte>, decode: seq<Byte> -> Payload,
                           mac: (string, string) -> seq<Byte>)
  {
    ghost predicate Ok() {
      forall c :: decode(encode(c)) == Object(c)
    }
  }

  datatype AuthError =
    | MalformedToken | BadSignature | MalformedPayload
    | WrongPurpose | WrongTicket | WrongAction | Expired
    | NotForThisActor | MissingCsrf | AlreadyUsed

  function Sign(k: Crypto, secret: string, message: string): string {
    Encode(k.mac(secret, message))
  }

  /** `_issue`, at time `now` with a fresh nonce. */
  function Issue(k: Crypto, purpose: Purpose, ticket: string, action: string, secret: string, now: int, ttl: int,
                 nonce: string, subject: string): string
  {
    var claims := Claims(purpose, ticket, action, now + ttl, nonce, if subject == "" then None else Some(subject));
    var signed := VERSION + "." + Encode(k.encode(claims));
    signed + "." + Sign(k, secret, signed)
  }

  /** `_verify` */
  function Verify(k: Crypto, token: string, purpose: Purpose, ticket: string, action: string, secret: string,
                  now: int): Result<Claims, AuthError>
  {
    var parts := Parts('.', token);
    if |parts| != 3 || parts[0] != VERSION then Err(MalformedToken)
    else if Sign(k, secret, parts[0] + "." + parts[1]) != parts[2] then Err(BadSignature)
    else
      var raw := Decode(parts[1]);
      if raw.None? then Err(MalformedPayload)
      else
        match k.decode(raw.value)
        case Unreadable => Err(MalformedPayload)
        case NotAnObject => Err(MalformedPayload)
        case Object(claims) =>
          if claims.purpose != purpose then Err(WrongPurpose)
          else if claims.ticket != ticket then Err(WrongTicket)
          else if claims.action != action then Err(WrongAction)
          else if claims.expires <= now then Err(Expired)
          else Ok(claims)
  }

  lemma NoDots(k: Crypto, secret: string, claims: Claims, message: string)
    ensures '.' !in VERSION && '.' !in Encode(k.encode(claims)) && '.' !in Sign(k, secret, message)
  {
    RoundTrip(k.encode(claims));
    RoundTrip(k.mac(secret, message));
  }

  /** An issued token always splits into its three parts. */
  lemma IssuedParts(k: Crypto, purpose: Purpose, ticket: string, action: string, secret: string, now: int, ttl: int,
                    nonce: string, subject: string)
    ensures var claims := Claims(purpose, ticket, action, now + ttl, nonce, if subject == "" then None else Some(subject));
      var payload := Encode(k.encode(claims));
      Parts('.', Issue(k, purpose, ticket, action, secret, now, ttl, nonce, subject))
      == [VERSION, payload, Sign(k, secret, VERSION + "." + payload)]
  {
    hide Encode, Sign;
    var claims := Claims(purpose, ticket, action, now + ttl, nonce, if subject == "" then None else Some(subject));
    var payload := Encode(k.encode(claims));
    var signature := Sign(k, secret, VERSION + "." + payload);
    NoDots(k, secret, claims, VERSION + "." + payload);
    assert VERSION + "." + payload + "." + signature == VERSION + "." + (payload + "." + signature);
    PartsOfPart('.', VERSION, payload + "." + signature);
    PartsOfPart('.', payload, signature);
    PartsOfPart('.', signature, "");
  }

  /** An issued token verifies exactly for its own purpose, ticket and action, before it
  expires, under a secret that signs its payload the same way; and then with its own claims. */
  lemma VerifiesExactly(k: Crypto, purpose: Purpose, ticket: string, action: string, secret: string, now: int,
                        ttl: int, nonce: string, subject: string,
                        purpose': Purpose, ticket': string, action': string, secret': string, later: int)
    requires k.Ok()
    ensures var claims := Claims(purpose, ticket, action, now + ttl, nonce, if subject == "" then None else Some(subject));
      var token := Issue(k, purpose, ticket, action, secret, now, ttl, nonce, subject);
      var message := VERSION + "." + Encode(k.encode(claims));
      var outcome := Verify(k, token, purpose', ticket', action', secret', later);
      && (outcome.Ok? <==>
            && k.mac(secret', message) == k.mac(secret, message)
            && purpose' == purpose && ticket' == ticket && action' == action && later < now + ttl)
      && (outcome.Ok? ==> outcome.value == claims)
  {
    hide Encode, Decode;
    var claims := Claims(purpose, ticket, action, now + ttl, nonce, if subject == "" then None else Some(subject));
    var message := VERSION + "." + Encode(k.encode(claims));
    IssuedParts(k, purpose, ticket, action, secret, now, ttl, nonce, subject);
    RoundTrip(k.encode(claims));
    if Sign(k, secret', message) == Sign(k, secret, message) {
      EncodeInjective(k.mac(secret', message), k.mac(secret, message));
    }
  }

  /** A token signed under `secret` over a payload that reads as `claims`. */
  ghost predicate SignedFor(k: Crypto, token: string, secret: string, claims: Claims) {
    exists payload :: SignedOver(k, token, secret, claims, payload)
  }

  ghost predicate SignedOver(k: Crypto, token: string, secret: string, claims: Claims, payload: string) {
    && '.' !in payload
    && token == VERSION + "." + payload + "." + Encode(k.mac(secret, VERSION + "." + payload))
    && Decode(payload).Some? && k.decode(Decode(payload).value) == Object(claims)
  }

  /** Of all tokens whatever, exactly those verify that are signed under the secret for this
  purpose, ticket and action and have not expired. */
  lemma OnlySignedVerify(k: Crypto, token: string, purpose: Purpose, ticket: string, action: string, secret: string,
                         now: int, claims: Claims)
    ensures Verify(k, token, purpose, ticket, action, secret, now) == Ok(claims)
      <==> && SignedFor(k, token, secret, claims) && claims.purpose == purpose && claims.ticket == ticket
           && claims.action == action && now < claims.expires
  {
    hide Encode, Decode;
    var parts := Parts('.', token);
    PartsRejoin('.', token);
    if Verify(k, token, purpose, ticket, action, secret, now) == Ok(claims) {
      assert Joined('.', parts) == parts[0] + "." + Joined('.', parts[1..]);
      assert Joined('.', parts[1..]) == parts[1] + "." + Joined('.', parts[1..][1..]);
      assert parts[1] in parts;
      assert token == VERSION + "." + parts[1] + "." + parts[2];
      assert SignedOver(k, token, secret, claims, parts[1]);
    }
    if payload :| SignedOver(k, token, secret, claims, payload) {
      var signature := Encode(k.mac(secret, VERSION + "." + payload));
      RoundTrip(k.mac(secret, VERSION + "." + payload));
      assert '.' !in VERSION;
      assert token == VERSION + "." + (payload + "." + signature);
      PartsOfPart('.', VERSION, payload + "." + signature);
      PartsOfPart('.', payload, signature);
      PartsOfPart('.', signature, "");
      assert parts == [VERSION, payload, signature];
    }
  }

  // ----- Actors and forms -----

  datatype Actor = Actor(kind: string, id: string, nonce: string) {
    function AuditId(): string {
      kind + ":" + id
    }

    /** Who the credential represents; a link stands for the person it was minted for. */
    function Principal(): string {
      if kind == "approval_link" then id else AuditId()
    }
  }

  predicate HasColon(s: string) {
    ':' in s
  }

  lemma ColonIsNoEarlier(a: string, x: string, b: string, y: string)
    requires !HasColon(b) && a + ":" + x == b + ":" + y
    ensures |b| <= |a|
  {
    var l, r := a + ":" + x, b + ":" + y;
    assert l[|a|] == ':';
    assert forall k :: 0 <= k < |b| ==> r[k] == b[k];
  }

  lemma PrefixBeforeColon(a: string, x: string, b: string, y: string)
    requires !HasColon(a) && !HasColon(b) && a + ":" + x == b + ":" + y
    ensures a == b && x == y
  {
    ColonIsNoEarlier(a, x, b, y);
    ColonIsNoEarlier(b, y, a, x);
    var l, r := a + ":" + x, b + ":" + y;
    assert l[..|a|] == a && r[..|b|] == b && l[|a| + 1..] == x && r[|b| + 1..] == y;
  }

  /** Actors other than links have one principal only when they are the same, and a link has the
  principal it was minted for. */
  lemma PrincipalsTellApart(a: Actor, b: Actor)
    requires !HasColon(a.kind) && !HasColon(b.kind)
    ensures a.kind != "approval_link" && b.kind != "approval_link" ==>
      (a.Principal() == b.Principal() <==> a.kind == b.kind && a.id == b.id)
    ensures a.kind == "approval_link" ==> a.Principal() == a.id
  {
    if a.AuditId() == b.AuditId() { PrefixBeforeColon(a.kind, a.id, b.kind, b.id); }
  }

  predicate LooksSigned(token: string) {
    |token| >= 5 && token[..5] == VERSION + "."
  }

  predicate FirstSigned(candidates: seq<string>, i: nat) {
    && i < |candidates| && LooksSigned(candidates[i])
    && forall j :: 0 <= j < i ==> !LooksSigned(candidates[j])
  }

  /** `SignedActionTokenAuthenticator.authenticate` over the non-empty candidate tokens. */
  method Authenticate(k: Crypto, candidates: seq<string>, ticket: string, action: string, secret: string, now: int)
    returns (r: Result<Option<Actor>, AuthError>)
    ensures (forall t <- candidates :: t == "" || !LooksSigned(t)) ==> r == Ok(None)
    ensures forall i: nat :: FirstSigned(candidates, i) ==>
      r == ActorOf(Verify(k, candidates[i], ActionToken, ticket, action, secret, now))
  {
    for i := 0 to |candidates|
      invariant forall j :: 0 <= j < i ==> !LooksSigned(candidates[j])
    {
      if candidates[i] == "" || !LooksSigned(candidates[i]) { continue; }
      assert candidates[i] in candidates;
      return ActorOf(Verify(k, candidates[i], ActionToken, ticket, action, secret, now));
    }
    r := Ok(None);
  }

  function ActorOf(verified: Result<Claims, AuthError>): Result<Option<Actor>, AuthError> {
    match verified
    case Err(e) => Err(e)
    case Ok(claims) =>
      Ok(Some(Actor("approval_link", if claims.subject.None? then "link" else claims.subject.value, claims.nonce)))
  }

  /** `verify_csrf_token` */
  function VerifyCsrf(k: Crypto, token: string, ticket: string, action: string, actor: Actor, secret: string, now: int)
    : Result<(), AuthError>
  {
    if token == "" then Err(MissingCsrf)
    else
      match Verify(k, token, CsrfToken, ticket, action, secret, now)
      case Err(e) => Err(e)
      case Ok(claims) =>
        if (if claims.subject.None? then "" else claims.subject.value) != actor.Principal() then Err(NotForThisActor)
        else Ok(())
  }

  /** The two hidden inputs of a page rendered for `actor`. */
  datatype Form = Form(csrf: string, token: string)

  function HiddenCredentials(k: Crypto, ticket: string, action: string, actor: Actor, secret: string,
                             csrfSecret: string, now: int, csrfTtl: int, nonces: (string, string)): Form
  {
    Form(Issue(k, CsrfToken, ticket, action, csrfSecret, now, csrfTtl, nonces.0, actor.Principal()),
         Issue(k, ActionToken, ticket, action, secret, now, 3600, nonces.1, actor.Principal()))
  }

  lemma IssuedLooksSigned(k: Crypto, purpose: Purpose, ticket: string, action: string, secret: string, now: int,
                          ttl: int, nonce: string, subject: string)
    ensures var token := Issue(k, purpose, ticket, action, secret, now, ttl, nonce, subject);
      LooksSigned(token) && token != ""
  {
    var token := Issue(k, purpose, ticket, action, secret, now, ttl, nonce, subject);
    assert token[..5] == VERSION + ".";
  }

  /** The form minted for one actor's page authenticates, when it is posted in time, as a link
  actor; the CSRF token then holds for that actor exactly when the first had a principal at
  all, which every authenticator sees to. */
  lemma FormIsHonoured(k: Crypto, ticket: string, action: string, actor: Actor, secret: string, csrfSecret: string,
                       now: int, csrfTtl: int, nonces: (string, string), later: int)
    requires k.Ok() && later < now + csrfTtl && later < now + 3600
    ensures var form := HiddenCredentials(k, ticket, action, actor, secret, csrfSecret, now, csrfTtl, nonces);
      var r := ActorOf(Verify(k, form.token, ActionToken, ticket, action, secret, later));
      && r.Ok? && r.value.Some?
      && (VerifyCsrf(k, form.csrf, ticket, action, r.value.value, csrfSecret, later).Ok? <==> actor.Principal() != "")
      && (actor.Principal() != "" ==> r.value.value.Principal() == actor.Principal())
  {
    hide Issue, Verify;
    VerifiesExactly(k, ActionToken, ticket, action, secret, now, 3600, nonces.1, actor.Principal(),
                    ActionToken, ticket, action, secret, later);
    VerifiesExactly(k, CsrfToken, ticket, action, csrfSecret, now, csrfTtl, nonces.0, actor.Principal(),
                    CsrfToken, ticket, action, csrfSecret, later);
    IssuedLooksSigned(k, CsrfToken, ticket, action, csrfSecret, now, csrfTtl, nonces.0, actor.Principal());
  }

  /** A CSRF token is good for exactly the actors of the same principal. */
  lemma CsrfIsBound(k: Crypto, ticket: string, action: string, minted: Actor, presented: Actor, secret: string,
                    now: int, ttl: int, nonce: string, later: int)
    requires k.Ok() && later < now + ttl
    ensures VerifyCsrf(k, Issue(k, CsrfToken, ticket, action, secret, now, ttl, nonce, minted.Principal()),
                       ticket, action, presented, secret, later).Ok?
      <==> presented.Principal() == minted.Principal()
  {
    hide Issue, Verify;
    VerifiesExactly(k, CsrfToken, ticket, action, secret, now, ttl, nonce, minted.Principal(),
                    CsrfToken, ticket, action, secret, later);
    IssuedLooksSigned(k, CsrfToken, ticket, action, secret, now, ttl, nonce, minted.Principal());
  }

  /** Of all tokens whatever, exactly those pass the CSRF check that are signed as CSRF tokens for
  this ticket, action and principal and have not expired. */
  lemma OnlyOwnCsrfPasses(k: Crypto, token: string, ticket: string, action: string, actor: Actor, secret: string,
                          now: int)
    ensures VerifyCsrf(k, token, ticket, action, actor, secret, now).Ok?
      <==> exists claims :: SignedFor(k, token, secret, claims) && claims.purpose == CsrfToken
             && claims.ticket == ticket && claims.action == action && now < claims.expires
             && actor.Principal() == if claims.subject.None? then "" else claims.subject.value
  {
    hide SignedFor, Encode, Decode;
    var r := Verify(k, token, CsrfToken, ticket, action, secret, now);
    if r.Ok? { OnlySignedVerify(k, token, CsrfToken, ticket, action, secret, now, r.value); }
    forall claims | SignedFor(k, token, secret, claims) && claims.purpose == CsrfToken
        && claims.ticket == ticket && claims.action == action && now < claims.expires
      ensures r == Ok(claims) && token != ""
    {
      OnlySignedVerify(k, token, CsrfToken, ticket, action, secret, now, claims);
      SignedIsNotEmpty(k, token, secret, claims);
    }
  }

  lemma SignedIsNotEmpty(k: Crypto, token: string, secret: string, claims: Claims)
    requires SignedFor(k, token, secret, claims)
    ensures token != ""
  {
  }

  /** An action token is never accepted where a CSRF token is asked for, nor the other way
  round, although both may be signed with the same secret. */
  lemma PurposesAreSeparate(k: Crypto, purpose: Purpose, ticket: string, action: string, secret: string, now: int,
                            ttl: int, nonce: string, subject: string, other: Purpose, later: int)
    requires k.Ok() && other != purpose
    ensures var token := Issue(k, purpose, ticket, action, secret, now, ttl, nonce, subject);
      Verify(k, token, other, ticket, action, secret, later) == Err(WrongPurpose)
  {
    hide Encode, Decode;
    IssuedParts(k, purpose, ticket, action, secret, now, ttl, nonce, subject);
    var claims := Claims(purpose, ticket, action, now + ttl, nonce, if subject == "" then None else Some(subject));
    RoundTrip(k.encode(claims));
  }

  // ----- _authorize -----

  /** One request of an authenticated actor for a changing action. */
  datatype Request = Request(actor: Actor, ambient: bool, formPost: bool, csrf: Result<(), AuthError>)

  /** CSRF first where it applies, then the nonce is burned; the used nonces come back. */
  function Authorize(used: set<string>, r: Request): (set<string>, Result<Actor, AuthError>) {
    if (r.ambient || r.formPost) && r.csrf.Err? then (used, Err(r.csrf.error))
    else if r.actor.nonce == "" then (used, Ok(r.actor))
    else if r.actor.nonce in used then (used, Err(AlreadyUsed))
    else (used + {r.actor.nonce}, Ok(r.actor))
  }

  function UsedAfter(used: set<string>, requests: seq<Request>): set<string> {
    if requests == [] then used
    else Authorize(UsedAfter(used, requests[..|requests| - 1]), requests[|requests| - 1]).0
  }

  function OutcomeAt(used: set<string>, requests: seq<Request>, i: nat): Result<Actor, AuthError>
    requires i < |requests|
  {
    Authorize(UsedAfter(used, requests[..i]), requests[i]).1
  }

  /** What has been used up is what some request got through with. */
  lemma {:induction false} UsedExactly(used: set<string>, requests: seq<Request>, nonce: string)
    ensures nonce in UsedAfter(used, requests) <==>
      nonce in used || (nonce != "" && exists i :: 0 <= i < |requests| && requests[i].actor.nonce == nonce
                                                   && OutcomeAt(used, requests, i).Ok?)
  {
    if requests != [] {
      var init := requests[..|requests| - 1];
      UsedExactly(used, init, nonce);
      forall i | 0 <= i < |init| ensures OutcomeAt(used, requests, i) == OutcomeAt(used, init, i) {
        assert requests[..i] == init[..i];
      }
      assert OutcomeAt(used, requests, |requests| - 1) == Authorize(UsedAfter(used, init), requests[|requests| - 1]).1;
    }
  }

  /** Over any sequence of requests, one gets through exactly when it passes the CSRF check where
  it needs to, and its link, if it has one, has not been used, neither before the sequence nor by
  an earlier request that got through.  It then acts as its own actor. */
  lemma DecidedExactly(used: set<string>, requests: seq<Request>, i: nat)
    requires i < |requests|
    ensures var r := requests[i];
      OutcomeAt(used, requests, i).Ok?
      <==> && (r.ambient || r.formPost ==> r.csrf.Ok?)
           && (r.actor.nonce == ""
               || (r.actor.nonce !in used
                   && forall k :: 0 <= k < i && requests[k].actor.nonce == r.actor.nonce
                        ==> OutcomeAt(used, requests, k).Err?))
    ensures OutcomeAt(used, requests, i).Ok? ==> OutcomeAt(used, requests, i).value == requests[i].actor
  {
    var nonce, before := requests[i].actor.nonce, requests[..i];
    UsedExactly(used, before, nonce);
    forall k | 0 <= k < i ensures OutcomeAt(used, before, k) == OutcomeAt(used, requests, k) {
      assert before[..k] == requests[..k];
    }
  }

  /** So a link gets through at most once, and a request refused for its CSRF token does not use
  it up. */
  lemma LinksAreSingleUse(used: set<string>, requests: seq<Request>, i: nat, j: nat)
    requires i < j < |requests| && requests[i].actor.nonce == requests[j].actor.nonce != ""
    ensures !(OutcomeAt(used, requests, i).Ok? && OutcomeAt(used, requests, j).Ok?)
    ensures requests[j].csrf.Ok? && requests[j].actor.nonce !in used ==>
      (OutcomeAt(used, requests, j).Ok? <==>
         forall k :: 0 <= k < j && requests[k].actor.nonce == requests[j].actor.nonce ==> OutcomeAt(used, requests, k).Err?)
  {
    DecidedExactly(used, requests, i);
    DecidedExactly(used, requests, j);
  }
}
