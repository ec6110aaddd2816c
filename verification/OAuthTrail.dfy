/** What a run of the OAuth server leaves behind: console codes printed, approvals that used them up,
    and token grants. Every grant goes back to one code, one approval and one console code. */
module OAuthTrail {
  import opened Wrappers
  import opened Collections
  import opened OAuth
  import opened OAuthProofs

  datatype Print = Print(nonce: string, at: Time)

  /** An approval, and which console code it used up. */
  datatype Approved = Approved(approval: Approval, from: int)

  datatype Grant = Grant(code: Code, redirectURI: string, verifier: string, at: Time)

  datatype Trail = Trail(printed: seq<Print>, approved: map<Code, Approved>, grants: seq<Grant>)

  const EMPTY_TRAIL := Trail([], map[], [])

  function Record(tr: Trail, b: Log, e: Event, response: Response): Trail {
    match e
    case Page(_, printedAt, _) =>
      if response.Shown? && response.printed.Some? then
        tr.(printed := tr.printed + [Print(response.printed.value, printedAt)])
      else tr
    case Post(approval) =>
      if response == Answered(Issued) then
        tr.(approved := tr.approved[approval.code := Approved(approval, |tr.printed| - 1)])
      else tr
    case Present(_, _) => tr
    case Decide(request, redirectURI, verifier, at) =>
      if response == Judged(Granted) && request in b.flights && b.flights[request].Some? then
        tr.(grants := tr.grants + [Grant(b.flights[request].value, redirectURI, verifier, at)])
      else tr
  }

  /** The approval that issued `code`, and the console code that it used up, typed in time. */
  ghost predicate UsesUp(code: Code, approved: Approved, issued: map<Code, AuthCode>, printed: seq<Print>) {
    var a := approved.approval;
    && 0 <= approved.from < |printed|
    && a.code == code && a.nonce == printed[approved.from].nonce
    && a.checkedAt - printed[approved.from].at <= NONCE_TTL
    && code in issued && issued[code] == NewCode(a)
  }

  /** No two codes go back to one console code. */
  ghost predicate OneEach(approved: map<Code, Approved>) {
    forall c, d :: c in approved && d in approved && approved[c].from == approved[d].from ==> c == d
  }

  /** The current console code is the last one printed, and not used up. */
  ghost predicate Unused(console: Console, tr: Trail) {
    console.nonce != "" ==>
      && tr.printed != [] && tr.printed[|tr.printed| - 1] == Print(console.nonce, console.at)
      && forall c :: c in tr.approved ==> tr.approved[c].from < |tr.printed| - 1
  }

  ghost predicate Traced(issued: map<Code, AuthCode>, console: Console, tr: Trail) {
    && tr.approved.Keys == issued.Keys
    && (forall c :: c in tr.approved ==> UsesUp(c, tr.approved[c], issued, tr.printed))
    && OneEach(tr.approved) && Unused(console, tr)
    && |tr.approved| + (if console.nonce != "" then 1 else 0) <= |tr.printed|
  }

  lemma PrintTraced(issued: map<Code, AuthCode>, console: Console, tr: Trail, nonce: string, at: Time)
    requires Traced(issued, console, tr)
    ensures Traced(issued, Console(nonce, at), tr.(printed := tr.printed + [Print(nonce, at)]))
  {
    hide NewCode;
    forall c | c in tr.approved ensures UsesUp(c, tr.approved[c], issued, tr.printed + [Print(nonce, at)]) {
      assert UsesUp(c, tr.approved[c], issued, tr.printed);
    }
  }

  lemma ClearTraced(issued: map<Code, AuthCode>, console: Console, tr: Trail)
    requires Traced(issued, console, tr)
    ensures Traced(issued, console.(nonce := ""), tr)
  {
    hide UsesUp;
  }

  lemma OneMoreKey<T>(m: map<Code, T>, code: Code, value: T)
    requires code !in m
    ensures |m[code := value]| == |m| + 1
  {
    assert m[code := value].Keys == m.Keys + {code};
  }

  lemma ApproveTraced(issued: map<Code, AuthCode>, console: Console, tr: Trail, a: Approval)
    requires Traced(issued, console, tr) && NonceMatches(console, a.nonce, a.checkedAt) && a.code !in issued
    ensures Traced(issued[a.code := NewCode(a)], console.(nonce := ""),
                   tr.(approved := tr.approved[a.code := Approved(a, |tr.printed| - 1)]))
  {
    hide NewCode;
    var later := issued[a.code := NewCode(a)];
    OneMoreKey(tr.approved, a.code, Approved(a, |tr.printed| - 1));
    forall c | c in tr.approved ensures UsesUp(c, tr.approved[c], later, tr.printed) {
      assert UsesUp(c, tr.approved[c], issued, tr.printed);
    }
    assert UsesUp(a.code, Approved(a, |tr.printed| - 1), later, tr.printed);
  }

  lemma StepTraced(b: Log, tr: Trail, e: Event, s256: string -> string)
    requires Traced(b.issued, b.console, tr) && Allowed(b, e)
    ensures var (b', response) := LogStep(b, e, s256); Traced(b'.issued, b'.console, Record(tr, b, e, response))
  {
    hide Traced, NewCode, Live, NonceMatches, Judge, ClaimOf;
    match e
    case Page(_, printedAt, random) =>
      ClearTraced(b.issued, b.console, tr);
      if random.Some? {
        PrintTraced(b.issued, b.console, tr, random.value, printedAt);
      }
    case Post(a) =>
      if NonceMatches(b.console, a.nonce, a.checkedAt) {
        ApproveTraced(b.issued, b.console, tr, a);
      }
    case Present(_, _) =>
    case Decide(_, _, _, _) => GrantsIdle(b.issued, b.console, tr, Record(tr, b, e, LogStep(b, e, s256).1).grants);
  }

  lemma GrantsIdle(issued: map<Code, AuthCode>, console: Console, tr: Trail, grants: seq<Grant>)
    requires Traced(issued, console, tr)
    ensures Traced(issued, console, tr.(grants := grants))
  {
    hide UsesUp, OneEach;
  }

  // ----- single use

  function InFlight<T>(flights: map<nat, Option<T>>): set<nat> {
    set r | r in flights && flights[r].Some?
  }

  /** Section 4.1.3 of RFC 6749 and section 4.6 of RFC 7636, for one grant. */
  ghost predicate SoundGrant(g: Grant, ac: AuthCode, s256: string -> string) {
    && g.redirectURI == ac.redirectURI && g.at <= ac.expiry
    && (ac.codeChallenge != "" ==> s256(g.verifier) == ac.codeChallenge)
  }

  ghost predicate SoundGrants(issued: map<Code, AuthCode>, grants: seq<Grant>, s256: string -> string) {
    forall i :: 0 <= i < |grants| ==> grants[i].code in issued && SoundGrant(grants[i], issued[grants[i].code], s256)
  }

  predicate Carries(flights: map<nat, Option<Code>>, request: nat, code: Code) {
    request in flights && flights[request] == Some(code)
  }

  /** A presented code is in flight in at most one request or granted at most once, never both. */
  ghost predicate SingleUse(presented: set<Code>, flights: map<nat, Option<Code>>, grants: seq<Grant>) {
    && (forall r, c :: Carries(flights, r, c) ==> c in presented)
    && (forall r, q, c :: Carries(flights, r, c) && Carries(flights, q, c) ==> r == q)
    && (forall i :: 0 <= i < |grants| ==> grants[i].code in presented)
    && (forall i, r :: 0 <= i < |grants| ==> !Carries(flights, r, grants[i].code))
    && (forall i, k :: 0 <= i < k < |grants| ==> grants[i].code != grants[k].code)
  }

  /** Codes are neither made nor lost: those granted, in flight and unpresented were all issued. */
  ghost predicate Counted(b: Log, grants: seq<Grant>) {
    && b.presented <= b.issued.Keys
    && |grants| + |InFlight(b.flights)| + |b.issued.Keys - b.presented| <= |b.issued|
  }

  ghost predicate Accounted(b: Log, tr: Trail, s256: string -> string) {
    && SoundGrants(b.issued, tr.grants, s256)
    && SingleUse(b.presented, b.flights, tr.grants)
    && Counted(b, tr.grants)
  }

  lemma PresentSingleUse(presented: set<Code>, flights: map<nat, Option<Code>>, grants: seq<Grant>,
                         request: nat, code: Option<Code>)
    requires SingleUse(presented, flights, grants) && request !in flights && (code.Some? ==> code.value !in presented)
    ensures SingleUse(if code.Some? then presented + {code.value} else presented, flights[request := code], grants)
  {
    var later := flights[request := code];
    forall r, c ensures Carries(later, r, c) <==> Carries(flights, r, c) || (r == request && code == Some(c)) {
    }
    hide Carries;
  }

  lemma OneMoreInFlight(flights: map<nat, Option<Code>>, request: nat, code: Option<Code>)
    requires request !in flights
    ensures |InFlight(flights[request := code])| == |InFlight(flights)| + (if code.Some? then 1 else 0)
  {
    assert InFlight(flights[request := code]) == InFlight(flights) + (if code.Some? then {request} else {});
  }

  lemma DecideSingleUse(presented: set<Code>, flights: map<nat, Option<Code>>, grants: seq<Grant>, request: nat, g: Grant)
    requires SingleUse(presented, flights, grants) && request in flights
    ensures SingleUse(presented, flights - {request}, grants)
    ensures flights[request] == Some(g.code) ==> SingleUse(presented, flights - {request}, grants + [g])
    ensures |InFlight(flights - {request})| == |InFlight(flights)| - (if flights[request].Some? then 1 else 0)
  {
    var later := flights - {request};
    forall r, c ensures Carries(later, r, c) <==> Carries(flights, r, c) && r != request {
    }
    if flights[request] == Some(g.code) {
      assert Carries(flights, request, g.code);
    }
    assert InFlight(later) == InFlight(flights) - {request};
  }

  lemma StepAccounted(b: Log, tr: Trail, e: Event, s256: string -> string)
    requires Accounted(b, tr, s256) && Allowed(b, e)
    ensures var (b', response) := LogStep(b, e, s256); Accounted(b', Record(tr, b, e, response), s256)
  {
    hide Accounted, Judge, ClaimOf;
    match e
    case Page(_, t2, _) =>
      var (b', response) := LogStep(b, e, s256);
      ConsoleIdle(b, tr, t2, b'.console, Record(tr, b, e, response).printed, s256);
    case Post(a) =>
      ConsoleIdle(b, tr, a.issuedAt, b.console, tr.printed, s256);
      PostAccounted(b, tr, a, b.console.(nonce := ""), Record(tr, b, e, Answered(Issued)).approved, s256);
    case Present(request, code) => PresentAccounted(b, tr, request, code, s256);
    case Decide(request, redirectURI, verifier, at) => DecideAccounted(b, tr, request, redirectURI, verifier, at, s256);
  }

  lemma ConsoleIdle(b: Log, tr: Trail, now: Time, console: Console, printed: seq<Print>, s256: string -> string)
    requires Accounted(b, tr, s256)
    ensures Accounted(b.(now := now, console := console), tr.(printed := printed), s256)
  {
    hide SoundGrants, SingleUse, InFlight;
  }

  lemma PostAccounted(b: Log, tr: Trail, a: Approval, console: Console, approved: map<Code, Approved>,
                      s256: string -> string)
    requires Accounted(b, tr, s256) && Allowed(b, Post(a))
    ensures Accounted(b.(now := a.issuedAt, issued := b.issued[a.code := NewCode(a)], console := console),
                      tr.(approved := approved), s256)
  {
    hide NewCode, SingleUse, SoundGrants, InFlight;
    OneMoreKey(b.issued, a.code, NewCode(a));
    OneMoreUnpresented(b, a);
    StillSound(b.issued, tr.grants, a, s256);
  }

  lemma StillSound(issued: map<Code, AuthCode>, grants: seq<Grant>, a: Approval, s256: string -> string)
    requires SoundGrants(issued, grants, s256) && a.code !in issued
    ensures SoundGrants(issued[a.code := NewCode(a)], grants, s256)
  {
    hide SoundGrant, NewCode;
  }

  lemma PresentAccounted(b: Log, tr: Trail, request: nat, code: Code, s256: string -> string)
    requires Accounted(b, tr, s256) && request !in b.flights
    ensures Accounted(LogStep(b, Present(request, code), s256).0, tr, s256)
  {
    hide SingleUse, SoundGrants, InFlight;
    var first := code in b.issued && code !in b.presented;
    PresentSingleUse(b.presented, b.flights, tr.grants, request, if first then Some(code) else None);
    OneMoreInFlight(b.flights, request, if first then Some(code) else None);
    if first {
      var left := b.issued.Keys - b.presented;
      assert b.issued.Keys - (b.presented + {code}) == left - {code} && code in left;
    }
  }

  lemma DecideAccounted(b: Log, tr: Trail, request: nat, redirectURI: string, verifier: string, at: Time,
                        s256: string -> string)
    requires Accounted(b, tr, s256) && request in b.flights
    ensures var (b', response) := LogStep(b, Decide(request, redirectURI, verifier, at), s256);
      Accounted(b', Record(tr, b, Decide(request, redirectURI, verifier, at), response), s256)
  {
    hide SingleUse, SoundGrant, InFlight, Judge, ClaimOf;
    var code := if b.flights[request].Some? then b.flights[request].value else "";
    var g := Grant(code, redirectURI, verifier, at);
    DecideSingleUse(b.presented, b.flights, tr.grants, request, g);
    GrantedIsSound(b, request, g, s256);
  }

  lemma OneMoreUnpresented(b: Log, a: Approval)
    requires a.code !in b.issued && b.presented <= b.issued.Keys
    ensures |b.issued[a.code := NewCode(a)].Keys - b.presented| == |b.issued.Keys - b.presented| + 1
  {
    assert b.issued[a.code := NewCode(a)].Keys - b.presented == (b.issued.Keys - b.presented) + {a.code};
  }

  lemma GrantedIsSound(b: Log, request: nat, g: Grant, s256: string -> string)
    requires request in b.flights && (b.flights[request].Some? ==> b.flights[request].value == g.code)
    ensures Judge(ClaimOf(b, request), g.redirectURI, g.verifier, g.at, s256) == Granted ==>
      b.flights[request] == Some(g.code) && g.code in b.issued && SoundGrant(g, b.issued[g.code], s256)
  {
  }

  // ----- whole runs

  /** A run, with what it leaves behind; the responses recorded are those of the server. */
  function After(a: Running, b: Log, tr: Trail, es: seq<Event>, s256: string -> string): (Running, Log, Trail)
    decreases |es|
  {
    if es == [] then (a, b, tr)
    else
      var (a', response) := Step(a, es[0], s256);
      After(a', LogStep(b, es[0], s256).0, Record(tr, b, es[0], response), es[1..], s256)
  }

  ghost predicate Consistent(a: Running, b: Log, tr: Trail, s256: string -> string) {
    Refines(a, b) && Traced(b.issued, b.console, tr) && Accounted(b, tr, s256)
  }

  function GrantedIn(responses: seq<Response>): nat {
    if responses == [] then 0
    else (if responses[0] == Judged(Granted) then 1 else 0) + GrantedIn(responses[1..])
  }

  /** No granted response goes unrecorded. */
  lemma GrantRecorded(a: Running, b: Log, tr: Trail, e: Event, s256: string -> string)
    requires Refines(a, b) && Allowed(b, e)
    ensures var response := Step(a, e, s256).1;
      |Record(tr, b, e, response).grants| == |tr.grants| + (if response == Judged(Granted) then 1 else 0)
  {
    hide Challenged, Issue, HoldsLive;
    if e.Decide? {
      assert SameClaim(a.flights[e.request], b.flights[e.request], b);
    }
  }

  lemma {:induction false} RunConsistent(a: Running, b: Log, tr: Trail, es: seq<Event>, s256: string -> string)
    requires Consistent(a, b, tr, s256) && AllowedRun(b, es, s256)
    ensures var (a', b', tr') := After(a, b, tr, es, s256);
      Consistent(a', b', tr', s256) && |tr'.grants| == |tr.grants| + GrantedIn(Responses(a, es, s256))
    decreases |es|
  {
    hide Refines, Traced, Accounted, Step, LogStep, Record, Allowed;
    if es != [] {
      var (a', response) := Step(a, es[0], s256);
      StepRefines(a, b, es[0], s256);
      StepTraced(b, tr, es[0], s256);
      StepAccounted(b, tr, es[0], s256);
      GrantRecorded(a, b, tr, es[0], s256);
      assert ([response] + Responses(a', es[1..], s256))[1..] == Responses(a', es[1..], s256);
      RunConsistent(a', LogStep(b, es[0], s256).0, Record(tr, b, es[0], response), es[1..], s256);
    }
  }

  lemma StartConsistent(now: Time, s256: string -> string)
    ensures Consistent(Start(), StartLog(now), EMPTY_TRAIL, s256)
  {
    assert InFlight(StartLog(now).flights) == {};
  }

  /** In every interleaving from a fresh server: codes inserted, plus one while a console code is
      unused, never exceed console codes printed; each code used up a console code of its own, typed
      within its lifetime. Grants, claims in flight and stored codes together never exceed codes
      inserted, and at most 256 are stored. */
  lemma EveryRunCounts(now: Time, es: seq<Event>, s256: string -> string)
    requires AllowedRun(StartLog(now), es, s256)
    ensures var (a, b, tr) := After(Start(), StartLog(now), EMPTY_TRAIL, es, s256);
      && |a.server.codes| <= MAX_CODES
      && |tr.approved| + (if a.server.console.nonce != "" then 1 else 0) <= |tr.printed|
      && |tr.grants| + |InFlight(a.flights)| + |a.server.codes| <= |tr.approved|
      && OneEach(tr.approved)
      && (forall c :: c in tr.approved ==> UsesUp(c, tr.approved[c], b.issued, tr.printed))
  {
    hide Step, LogStep, Record, AllowedRun, UsesUp, OneEach, Responses, GrantedIn;
    StartConsistent(now, s256);
    RunConsistent(Start(), StartLog(now), EMPTY_TRAIL, es, s256);
    var (a, b, tr) := After(Start(), StartLog(now), EMPTY_TRAIL, es, s256);
    SubsetSize(a.server.codes.Keys, b.issued.Keys - b.presented);
    SubsetSize(InFlight(a.flights), InFlight(b.flights));
    assert |tr.approved| == |tr.approved.Keys| == |b.issued.Keys| == |b.issued|;
  }

  /** What makes a grant good: the approval that issued its code allows it. */
  ghost predicate GrantAllowed(g: Grant, a: Approval, s256: string -> string) {
    && g.redirectURI == a.redirectURI && g.at <= a.issuedAt + CODE_TTL
    && (a.codeChallenge != "" ==> s256(g.verifier) == a.codeChallenge)
  }

  /** In every interleaving from a fresh server: every grant presents the redirect URI and, if there
      was a challenge, the verifier of the approval that issued its code, before the code expires;
      and no code is granted twice. The grants are all those among the server's responses. */
  lemma EveryGrantIsAllowed(now: Time, es: seq<Event>, s256: string -> string)
    requires AllowedRun(StartLog(now), es, s256)
    ensures var grants, approved := After(Start(), StartLog(now), EMPTY_TRAIL, es, s256).2.grants,
                                    After(Start(), StartLog(now), EMPTY_TRAIL, es, s256).2.approved;
      && |grants| == GrantedIn(Responses(Start(), es, s256))
      && (forall i :: 0 <= i < |grants| ==>
            grants[i].code in approved && GrantAllowed(grants[i], approved[grants[i].code].approval, s256))
      && (forall i, k :: 0 <= i < k < |grants| ==> grants[i].code != grants[k].code)
  {
    hide Step, LogStep, Record, AllowedRun, After, Refines, Responses, GrantedIn;
    StartConsistent(now, s256);
    RunConsistent(Start(), StartLog(now), EMPTY_TRAIL, es, s256);
    var (a, b, tr) := After(Start(), StartLog(now), EMPTY_TRAIL, es, s256);
    forall i | 0 <= i < |tr.grants|
      ensures tr.grants[i].code in tr.approved
              && GrantAllowed(tr.grants[i], tr.approved[tr.grants[i].code].approval, s256)
    {
      var c := tr.grants[i].code;
      assert UsesUp(c, tr.approved[c], b.issued, tr.printed);
    }
  }

  /** A token request is granted exactly when it was the first to present an issued code, the code
      has not expired, and redirect URI and verifier match; the first of these that fails is the
      answer. */
  lemma GrantedExactly(a: Running, b: Log, request: nat, redirectURI: string, verifier: string, at: Time,
                       s256: string -> string)
    requires Refines(a, b) && Allowed(b, Decide(request, redirectURI, verifier, at))
    ensures var verdict := Step(a, Decide(request, redirectURI, verifier, at), s256).1.verdict;
      if b.flights[request].None? || Expired(b.issued[b.flights[request].value], at) then verdict == NotFoundOrExpired
      else
        var ac := b.issued[b.flights[request].value];
        && (verdict == RedirectMismatch <==> redirectURI != ac.redirectURI)
        && (verdict == Granted <==> SoundGrant(Grant(b.flights[request].value, redirectURI, verifier, at), ac, s256))
  {
    assert SameClaim(a.flights[request], b.flights[request], b);
  }

  // ----- console codes last, and honest flows are granted

  /** A consent page prints a new console code if and only if a random value is there and the current
      code is used up or older than a minute. Until then it changes nothing. */
  lemma PrintsExactly(a: Running, t1: Time, t2: Time, random: Option<string>, s256: string -> string)
    ensures var console := a.server.console;
      var (a', response) := Step(a, Page(t1, t2, random), s256);
      && response.Shown? && a'.server.codes == a.server.codes && a'.flights == a.flights
      && (response.printed.Some? <==> random.Some? && (console.nonce == "" || t1 - console.at > 60_000_000_000))
      && (response.printed.Some? ==> response.printed == random && a'.server.console == Console(random.value, t2))
      && (console.nonce != "" && t1 - console.at <= 60_000_000_000 ==> a' == a)
  {
  }

  /** A console code lasts: through any steps of any requests, until it is used up or too old. */
  lemma {:induction false} ConsoleStays(b: Log, es: seq<Event>, until: Time, s256: string -> string)
    requires AllowedRun(b, es, s256) && Answered(Issued) !in LogResponses(b, es, s256)
    requires b.console.nonce != "" && FinalLog(b, es, s256).now <= until && until - b.console.at <= NONCE_TTL
    ensures FinalLog(b, es, s256).console == b.console
    ensures FinalLog(b, es, s256).issued == b.issued && b.presented <= FinalLog(b, es, s256).presented
    decreases |es|
  {
    hide Live, ClaimOf, Judge;
    if es != [] {
      var (b', response) := LogStep(b, es[0], s256);
      var rest := LogResponses(b', es[1..], s256);
      ClockRuns(b', es[1..], s256);
      assert response == LogResponses(b, es, s256)[0] && rest == LogResponses(b, es, s256)[1..];
      ConsoleStays(b', es[1..], until, s256);
    }
  }

  /** So does the server's, whatever the interleaving. */
  lemma PrintedCodeStays(a: Running, b: Log, es: seq<Event>, until: Time, s256: string -> string)
    requires Refines(a, b) && AllowedRun(b, es, s256) && Answered(Issued) !in Responses(a, es, s256)
    requires a.server.console.nonce != "" && FinalLog(b, es, s256).now <= until
    requires until - a.server.console.at <= NONCE_TTL
    ensures Final(a, es, s256).server.console == a.server.console
  {
    hide AllowedRun, Responses, LogResponses, Final, FinalLog;
    AnswersLikeLog(a, b, es, s256);
    RunRefines(a, b, es, s256);
    ConsoleStays(b, es, until, s256);
  }

  lemma {:induction false} UnclaimedStays(b: Log, es: seq<Event>, code: Code, s256: string -> string)
    requires AllowedRun(b, es, s256) && code in b.issued && code !in b.presented
    requires forall k :: 0 <= k < |es| && es[k].Present? ==> es[k].code != code
    ensures var b' := FinalLog(b, es, s256);
      code in b'.issued && b'.issued[code] == b.issued[code] && code !in b'.presented
    decreases |es|
  {
    hide Live, ClaimOf, Judge, NonceMatches, Challenged;
    if es != [] {
      UnclaimedStays(LogStep(b, es[0], s256).0, es[1..], code, s256);
    }
  }

  lemma {:induction false} ClaimStays(b: Log, es: seq<Event>, request: nat, code: Code, s256: string -> string)
    requires AllowedRun(b, es, s256) && Carries(b.flights, request, code) && code in b.issued
    requires forall k :: 0 <= k < |es| && es[k].Decide? ==> es[k].request != request
    ensures var b' := FinalLog(b, es, s256);
      Carries(b'.flights, request, code) && code in b'.issued && b'.issued[code] == b.issued[code]
    decreases |es|
  {
    hide Live, ClaimOf, Judge, NonceMatches, Challenged;
    if es != [] {
      ClaimStays(LogStep(b, es[0], s256).0, es[1..], request, code, s256);
    }
  }

  /** What other requests do before the operator types the code, before the client presents the code it
      got, and before that request is judged. */
  datatype Others = Others(typing: seq<Event>, presenting: seq<Event>, judging: seq<Event>)

  /** The flow that an honest operator and client follow, between the steps of others: open the consent
      page, type the current console code, and redeem the code. */
  function HonestFlow(a: Running, t1: Time, t2: Time, random: string, p: Approval, request: nat, verifier: string,
                      at: Time, others: Others): seq<Event>
  {
    var console := Challenged(a.server.console, t1, t2, Some(random)).0;
    [Page(t1, t2, Some(random))] + (others.typing
      + ([Post(p.(nonce := console.nonce))] + (others.presenting
      + ([Present(request, p.code)] + (others.judging
      + [Decide(request, p.redirectURI, verifier, at)])))))
  }

  /** Nobody uses up the console code, presents the code, or judges the request in between. */
  predicate Undisturbed(a: Running, code: Code, request: nat, others: Others, s256: string -> string) {
    && Answered(Issued) !in Responses(a, others.typing, s256)
    && (forall k :: 0 <= k < |others.presenting| && others.presenting[k].Present? ==> others.presenting[k].code != code)
    && (forall k :: 0 <= k < |others.judging| && others.judging[k].Decide? ==> others.judging[k].request != request)
  }

  lemma CutStep(a: Running, b: Log, e: Event, rest: seq<Event>, s256: string -> string)
    requires Refines(a, b) && AllowedRun(b, [e] + rest, s256)
    ensures var (a', b') := (Step(a, e, s256).0, LogStep(b, e, s256).0);
      && Allowed(b, e) && AllowedRun(b', rest, s256) && Refines(a', b')
      && Responses(a, [e] + rest, s256) == [Step(a, e, s256).1] + Responses(a', rest, s256)
  {
    hide Refines, Step, LogStep, Allowed;
    assert ([e] + rest)[1..] == rest;
    StepRefines(a, b, e, s256);
  }

  lemma CutGap(a: Running, b: Log, gap: seq<Event>, rest: seq<Event>, s256: string -> string)
    requires Refines(a, b) && AllowedRun(b, gap + rest, s256)
    ensures var (a', b') := (Final(a, gap, s256), FinalLog(b, gap, s256));
      && AllowedRun(b, gap, s256) && AllowedRun(b', rest, s256) && Refines(a', b')
      && Responses(a, gap + rest, s256) == Responses(a, gap, s256) + Responses(a', rest, s256)
      && Responses(a, gap, s256) == LogResponses(b, gap, s256)
  {
    hide Refines, Step, LogStep, Allowed, AllowedRun, Responses, LogResponses, Final, FinalLog;
    AllowedAppend(b, gap, rest, s256);
    ResponsesAppend(a, gap, rest, s256);
    RunRefines(a, b, gap, s256);
    AnswersLikeLog(a, b, gap, s256);
  }

  lemma SameConsole(a: Running, b: Log)
    requires Refines(a, b)
    ensures a.server.console == b.console && b.presented <= b.issued.Keys
  {
  }

  lemma FewerLive(b: Log, later: Log, t: Time)
    requires later.issued == b.issued && b.presented <= later.presented
    ensures |Live(later, t)| <= |Live(b, t)|
  {
    SubsetSize(Live(later, t), Live(b, t));
  }

  /** From every state that a run can reach, and whatever other requests do in between, short of using
      up the console code or taking the code or the request over: the honest flow is granted, as long as
      code and console code are not too old and fewer than 256 codes are pending. */
  lemma HonestFlowIsGranted(
    a: Running, b: Log, t1: Time, t2: Time, random: string, p: Approval, request: nat, verifier: string, at: Time,
    others: Others, s256: string -> string)
    requires Refines(a, b) && AllowedRun(b, HonestFlow(a, t1, t2, random, p, request, verifier, at, others), s256)
    requires Undisturbed(Step(a, Page(t1, t2, Some(random)), s256).0, p.code, request, others, s256)
    requires p.checkedAt - Challenged(a.server.console, t1, t2, Some(random)).0.at <= NONCE_TTL
    requires |Live(b, p.sweptAt)| < MAX_CODES && at <= p.issuedAt + CODE_TTL
    requires p.codeChallenge != "" ==> s256(verifier) == p.codeChallenge
    ensures var rs := Responses(a, HonestFlow(a, t1, t2, random, p, request, verifier, at, others), s256);
      |rs| > 0 && rs[|rs| - 1] == Judged(Granted)
  {
    hide Refines, Live, Responses, LogResponses, AllowedRun, FinalLog, Final, NewCode;
    SameConsole(a, b);
    var page := Page(t1, t2, Some(random));
    var a1, b1 := Step(a, page, s256).0, LogStep(b, page, s256).0;
    var typed := p.(nonce := b1.console.nonce);
    var present, decide := Present(request, p.code), Decide(request, p.redirectURI, verifier, at);
    var tail2 := [present] + (others.judging + [decide]);
    var tail1 := [Post(typed)] + (others.presenting + tail2);
    assert HonestFlow(a, t1, t2, random, p, request, verifier, at, others) == [page] + (others.typing + tail1);
    CutStep(a, b, page, others.typing + tail1, s256);
    SameLive(b, b1, p.sweptAt);
    Typed(a1, b1, typed, others.typing, others.presenting + tail2, s256);
    var a3 := Step(Final(a1, others.typing, s256), Post(typed), s256).0;
    var b3 := LogStep(FinalLog(b1, others.typing, s256), Post(typed), s256).0;
    SameCode(p, b1.console.nonce);
    Redeemed(a3, b3, p, request, verifier, at, others, s256);
  }

  lemma SameCode(p: Approval, nonce: string)
    ensures NewCode(p.(nonce := nonce)) == NewCode(p)
  {
  }

  lemma SameLive(b: Log, later: Log, t: Time)
    requires later.issued == b.issued && later.presented == b.presented
    ensures Live(later, t) == Live(b, t)
  {
  }

  /** The first half: a console code that is typed in time is accepted. */
  lemma Typed(a: Running, b: Log, p: Approval, typing: seq<Event>, rest: seq<Event>, s256: string -> string)
    requires Refines(a, b) && AllowedRun(b, typing + ([Post(p)] + rest), s256)
    requires Answered(Issued) !in Responses(a, typing, s256)
    requires p.nonce == b.console.nonce != "" && p.checkedAt - b.console.at <= NONCE_TTL
    requires |Live(b, p.sweptAt)| < MAX_CODES
    ensures var (a2, b2) := (Final(a, typing, s256), FinalLog(b, typing, s256));
      var (a3, b3) := (Step(a2, Post(p), s256).0, LogStep(b2, Post(p), s256).0);
      && Refines(a3, b3) && AllowedRun(b3, rest, s256)
      && Responses(a, typing + ([Post(p)] + rest), s256)
         == Responses(a, typing, s256) + ([Step(a2, Post(p), s256).1] + Responses(a3, rest, s256))
      && p.code in b3.issued && b3.issued[p.code] == NewCode(p) && p.code !in b3.presented
  {
    hide Refines, Live, Responses, LogResponses, AllowedRun, FinalLog, Final, NewCode;
    CutGap(a, b, typing, [Post(p)] + rest, s256);
    var a2, b2 := Final(a, typing, s256), FinalLog(b, typing, s256);
    SameConsole(a2, b2);
    CutStep(a2, b2, Post(p), rest, s256);
    ConsoleStays(b, typing, p.checkedAt, s256);
    FewerLive(b, b2, p.sweptAt);
  }

  /** The second half: a code that was issued and not presented is redeemed. */
  lemma Redeemed(a: Running, b: Log, p: Approval, request: nat, verifier: string, at: Time, others: Others,
                 s256: string -> string)
    requires var decide := Decide(request, p.redirectURI, verifier, at);
      Refines(a, b) && AllowedRun(b, others.presenting + ([Present(request, p.code)] + (others.judging + [decide])), s256)
    requires Undisturbed(a, p.code, request, others.(typing := []), s256)
    requires p.code in b.issued && b.issued[p.code] == NewCode(p) && p.code !in b.presented
    requires at <= p.issuedAt + CODE_TTL && (p.codeChallenge != "" ==> s256(verifier) == p.codeChallenge)
    ensures var decide := Decide(request, p.redirectURI, verifier, at);
      var rs := Responses(a, others.presenting + ([Present(request, p.code)] + (others.judging + [decide])), s256);
      |rs| > 0 && rs[|rs| - 1] == Judged(Granted)
  {
    hide Refines, Responses, AllowedRun, FinalLog, Final;
    var present, decide := Present(request, p.code), Decide(request, p.redirectURI, verifier, at);
    CutGap(a, b, others.presenting, [present] + (others.judging + [decide]), s256);
    UnclaimedStays(b, others.presenting, p.code, s256);
    var a4, b4 := Final(a, others.presenting, s256), FinalLog(b, others.presenting, s256);
    CutStep(a4, b4, present, others.judging + [decide], s256);
    var a5, b5 := Step(a4, present, s256).0, LogStep(b4, present, s256).0;
    CutGap(a5, b5, others.judging, [decide], s256);
    ClaimStays(b5, others.judging, request, p.code, s256);
    var a6, b6 := Final(a5, others.judging, s256), FinalLog(b5, others.judging, s256);
    assert [decide] + [] == [decide];
    CutStep(a6, b6, decide, [], s256);
    GrantedExactly(a6, b6, request, p.redirectURI, verifier, at, s256);
  }
}
