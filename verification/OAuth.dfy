/** `mcp/oauth.go`: the authorization-code and console-nonce state of the OAuth server. Every section
    under the mutex is one atomic operation; clock readings and random values are parameters. The
    hash comparison of nonces and the S256 transformation (section 4.6 of RFC 7636) are taken to be
    collision-free, respectively a parameter. */
module OAuth {
  import opened Wrappers

  type Code = string

  type Time = int  // nanoseconds

  const CODE_TTL: Time := 120_000_000_000
  const NONCE_TTL: Time := 60_000_000_000
  const MAX_CODES: nat := 256

  datatype AuthCode = AuthCode(redirectURI: string, expiry: Time, codeChallenge: string)

  /** The console approval code; the empty one never matches. */
  datatype Console = Console(nonce: string, at: Time)

  datatype Server = Server(codes: map<Code, AuthCode>, console: Console)

  /** A form post to the authorize endpoint, with the random code drawn for it and the three clock
      readings of its lock section. Readings that are not taken repeat the one before. */
  datatype Approval = Approval(nonce: string, redirectURI: string, codeChallenge: string, code: Code,
                               checkedAt: Time, sweptAt: Time, issuedAt: Time)

  datatype Posted = WrongNonce | TooMany | Issued

  datatype Verdict = Granted | NotFoundOrExpired | RedirectMismatch | VerifierMismatch

  predicate Expired(ac: AuthCode, t: Time) { t > ac.expiry }

  predicate Active(c: Console, t: Time) { c.nonce != "" && t - c.at <= NONCE_TTL }

  predicate NonceMatches(c: Console, got: string, t: Time) { Active(c, t) && got == c.nonce }

  function Challenged(c: Console, checkedAt: Time, printedAt: Time, random: Option<string>): (Console, Option<string>) {
    if Active(c, checkedAt) then (c, None)
    else if random.None? then (c.(nonce := ""), None)
    else (Console(random.value, printedAt), random)
  }

  function Swept(codes: map<Code, AuthCode>, t: Time): map<Code, AuthCode> {
    map c | c in codes && !Expired(codes[c], t) :: codes[c]
  }

  function NewCode(a: Approval): AuthCode { AuthCode(a.redirectURI, a.issuedAt + CODE_TTL, a.codeChallenge) }

  function Issue(s: Server, a: Approval): (Server, Posted) {
    if !NonceMatches(s.console, a.nonce, a.checkedAt) then (s, WrongNonce)
    else
      var swept := Swept(s.codes, a.sweptAt);
      if |swept| >= MAX_CODES then (s.(codes := swept), TooMany)
      else (Server(swept[a.code := NewCode(a)], s.console.(nonce := "")), Issued)
  }

  function Claim(s: Server, code: Code): (Server, Option<AuthCode>) {
    if code in s.codes then (s.(codes := s.codes - {code}), Some(s.codes[code])) else (s, None)
  }

  /** The part of `authCodeGrant` after the lock: expiry, then sections 4.1.3 of RFC 6749 and 4.6 of
      RFC 7636. */
  function Judge(claim: Option<AuthCode>, redirectURI: string, verifier: string, at: Time, s256: string -> string): Verdict {
    if claim.None? || Expired(claim.value, at) then NotFoundOrExpired
    else if claim.value.redirectURI != redirectURI then RedirectMismatch
    else if claim.value.codeChallenge != "" && s256(verifier) != claim.value.codeChallenge then VerifierMismatch
    else Granted
  }

  class OAuthServer {
    var codes: map<Code, AuthCode>
    var nonce: string
    var nonceAt: Time

    ghost function State(): Server
      reads this
    {
      Server(codes, Console(nonce, nonceAt))
    }

    constructor ()
      ensures State() == Server(map[], Console("", 0))
    {
      codes := map[];
      nonce := "";
      nonceAt := 0;
    }

    /** `ensureChallengeLocked`: answers the nonce it printed, if it printed one. */
    method EnsureChallenge(checkedAt: Time, printedAt: Time, random: Option<string>) returns (printed: Option<string>)
      modifies this`nonce, this`nonceAt
      ensures (Console(nonce, nonceAt), printed) == Challenged(old(State()).console, checkedAt, printedAt, random)
    {
      if nonce != "" && checkedAt - nonceAt <= NONCE_TTL {
        return None;
      }
      if random.None? {
        nonce := "";
        return None;
      }
      nonce := random.value;
      nonceAt := printedAt;
      return random;
    }

    /** `checkNonceLocked`. */
    method CheckNonce(got: string, now: Time) returns (ok: bool)
      ensures ok == NonceMatches(Console(nonce, nonceAt), got, now)
    {
      if nonce == "" || now - nonceAt > NONCE_TTL {
        return false;
      }
      return got == nonce;
    }

    /** `sweepExpiredLocked`: deletes while ranging over the map, in no particular order. */
    method SweepExpired(now: Time)
      modifies this`codes
      ensures codes == Swept(old(codes), now)
    {
      var todo := codes.Keys;
      while todo != {}
        invariant todo <= codes.Keys <= old(codes).Keys
        invariant forall c :: c in codes ==> codes[c] == old(codes)[c]
        invariant forall c :: c in old(codes) && c !in todo ==> (c in codes <==> !Expired(old(codes)[c], now))
        decreases todo
      {
        var c :| c in todo;
        if Expired(codes[c], now) {
          codes := codes - {c};
        }
        todo := todo - {c};
      }
    }

    /** The lock section of `issueCode`. */
    method IssueCode(a: Approval) returns (outcome: Posted)
      modifies this
      ensures (State(), outcome) == Issue(old(State()), a)
    {
      var ok := CheckNonce(a.nonce, a.checkedAt);
      if !ok {
        return WrongNonce;
      }
      SweepExpired(a.sweptAt);
      if |codes| >= MAX_CODES {
        return TooMany;
      }
      codes := codes[a.code := AuthCode(a.redirectURI, a.issuedAt + CODE_TTL, a.codeChallenge)];
      nonce := "";
      return Issued;
    }

    /** The lock section of `authCodeGrant`. */
    method ClaimCode(code: Code) returns (claim: Option<AuthCode>)
      modifies this`codes
      ensures (State(), claim) == Claim(old(State()), code)
    {
      if code !in codes {
        return None;
      }
      claim := Some(codes[code]);
      codes := codes - {code};
    }
  }

  // ----- interleaved requests

  /** The atomic steps of all requests: consent pages, form posts, and token requests, which first
      claim their code under the lock and are judged later. */
  datatype Event =
    | Page(checkedAt: Time, printedAt: Time, random: Option<string>)
    | Post(approval: Approval)
    | Present(request: nat, code: Code)
    | Decide(request: nat, redirectURI: string, verifier: string, at: Time)

  datatype Response = Shown(printed: Option<string>) | Answered(outcome: Posted) | Silent | Judged(verdict: Verdict)

  /** The server, and what each token request in flight has claimed. */
  datatype Running = Running(server: Server, flights: map<nat, Option<AuthCode>>)

  const FRESH_CONSOLE := Console("", 0)

  function Start(): Running { Running(Server(map[], FRESH_CONSOLE), map[]) }

  function Step(a: Running, e: Event, s256: string -> string): (Running, Response) {
    match e
    case Page(t1, t2, random) =>
      var (console, printed) := Challenged(a.server.console, t1, t2, random);
      (a.(server := a.server.(console := console)), Shown(printed))
    case Post(approval) =>
      var (server, outcome) := Issue(a.server, approval);
      (a.(server := server), Answered(outcome))
    case Present(request, code) =>
      var (server, claim) := Claim(a.server, code);
      (Running(server, a.flights[request := claim]), Silent)
    case Decide(request, redirectURI, verifier, at) =>
      var claim := if request in a.flights then a.flights[request] else None;
      (a.(flights := a.flights - {request}), Judged(Judge(claim, redirectURI, verifier, at, s256)))
  }

  // ----- the reference: a log of codes that is never swept, deleted from or capped

  /** Every code ever issued, the codes presented so far, and the code each token request in flight
      was the first to present. */
  datatype Log = Log(now: Time, console: Console, issued: map<Code, AuthCode>, presented: set<Code>,
                     flights: map<nat, Option<Code>>)

  function StartLog(now: Time): Log { Log(now, FRESH_CONSOLE, map[], {}, map[]) }

  /** Issued, never presented, and not expired. */
  function Live(b: Log, t: Time): set<Code> {
    set c | c in b.issued && c !in b.presented && !Expired(b.issued[c], t)
  }

  function ClaimOf(b: Log, request: nat): Option<AuthCode> {
    if request in b.flights && b.flights[request].Some? && b.flights[request].value in b.issued
    then Some(b.issued[b.flights[request].value])
    else None
  }

  function LogStep(b: Log, e: Event, s256: string -> string): (Log, Response) {
    match e
    case Page(t1, t2, random) =>
      var (console, printed) := Challenged(b.console, t1, t2, random);
      (b.(now := t2, console := console), Shown(printed))
    case Post(a) =>
      var later := b.(now := a.issuedAt);
      if !NonceMatches(b.console, a.nonce, a.checkedAt) then (later, Answered(WrongNonce))
      else if |Live(b, a.sweptAt)| >= MAX_CODES then (later, Answered(TooMany))
      else (later.(issued := b.issued[a.code := NewCode(a)], console := b.console.(nonce := "")), Answered(Issued))
    case Present(request, code) =>
      var first := code in b.issued && code !in b.presented;
      (b.(presented := if first then b.presented + {code} else b.presented,
          flights := b.flights[request := if first then Some(code) else None]), Silent)
    case Decide(request, redirectURI, verifier, at) =>
      (b.(now := at, flights := b.flights - {request}),
       Judged(Judge(ClaimOf(b, request), redirectURI, verifier, at, s256)))
  }

  /** The clock never goes back, random codes are new and random nonces nonempty, and a token request
      presents one code and is judged once. */
  predicate Allowed(b: Log, e: Event) {
    match e
    case Page(t1, t2, random) => b.now <= t1 <= t2 && (random.Some? ==> random.value != "")
    case Post(a) => b.now <= a.checkedAt <= a.sweptAt <= a.issuedAt && a.code !in b.issued
    case Present(request, code) => request !in b.flights
    case Decide(request, _, _, at) => request in b.flights && b.now <= at
  }

  predicate AllowedRun(b: Log, es: seq<Event>, s256: string -> string)
    decreases |es|
  {
    es == [] || (Allowed(b, es[0]) && AllowedRun(LogStep(b, es[0], s256).0, es[1..], s256))
  }

  function Responses(a: Running, es: seq<Event>, s256: string -> string): (rs: seq<Response>)
    ensures |rs| == |es|
    decreases |es|
  {
    if es == [] then [] else [Step(a, es[0], s256).1] + Responses(Step(a, es[0], s256).0, es[1..], s256)
  }

  function LogResponses(b: Log, es: seq<Event>, s256: string -> string): seq<Response>
    decreases |es|
  {
    if es == [] then [] else [LogStep(b, es[0], s256).1] + LogResponses(LogStep(b, es[0], s256).0, es[1..], s256)
  }

  /** What a run leads to. */
  function Final(a: Running, es: seq<Event>, s256: string -> string): Running
    decreases |es|
  {
    if es == [] then a else Final(Step(a, es[0], s256).0, es[1..], s256)
  }

  function FinalLog(b: Log, es: seq<Event>, s256: string -> string): Log
    decreases |es|
  {
    if es == [] then b else FinalLog(LogStep(b, es[0], s256).0, es[1..], s256)
  }
}
