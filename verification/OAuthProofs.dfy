/** The OAuth server's bounded, swept map answers like an unbounded log of codes, and every grant can
    be traced back to one approval on the console. */
module OAuthProofs {
  import opened Wrappers
  import opened Collections
  import opened OAuth

  /** A claim of the server stands for the one of the log, unless the code was swept before: then the
      log's claim has expired. */
  ghost predicate SameClaim(mapped: Option<AuthCode>, logged: Option<Code>, b: Log) {
    && (logged.Some? ==> logged.value in b.issued)
    && (mapped.Some? ==> logged.Some? && mapped.value == b.issued[logged.value])
    && (mapped.None? && logged.Some? ==> Expired(b.issued[logged.value], b.now))
  }

  /** The map holds every live code, and nothing that was presented. */
  ghost predicate HoldsLive(codes: map<Code, AuthCode>, b: Log) {
    && b.presented <= b.issued.Keys
    && (forall c :: c in codes ==> c in b.issued && c !in b.presented && codes[c] == b.issued[c])
    && (forall c :: c in b.issued && c !in b.presented && c !in codes ==> Expired(b.issued[c], b.now))
  }

  ghost predicate SameClaims(flights: map<nat, Option<AuthCode>>, b: Log) {
    flights.Keys == b.flights.Keys && forall r :: r in b.flights ==> SameClaim(flights[r], b.flights[r], b)
  }

  ghost predicate Refines(a: Running, b: Log) {
    && a.server.console == b.console && |a.server.codes| <= MAX_CODES
    && HoldsLive(a.server.codes, b) && SameClaims(a.flights, b)
  }

  /** After sweeping, the map holds exactly the live codes. */
  lemma SweptIsLive(a: Running, b: Log, t: Time)
    requires Refines(a, b) && b.now <= t
    ensures Swept(a.server.codes, t).Keys == Live(b, t)
    ensures |Swept(a.server.codes, t)| == |Live(b, t)| <= MAX_CODES
  {
    assert Swept(a.server.codes, t).Keys == Live(b, t);
    SubsetSize(Swept(a.server.codes, t).Keys, a.server.codes.Keys);
  }

  lemma StepRefines(a: Running, b: Log, e: Event, s256: string -> string)
    requires Refines(a, b) && Allowed(b, e)
    ensures Refines(Step(a, e, s256).0, LogStep(b, e, s256).0)
    ensures Step(a, e, s256).1 == LogStep(b, e, s256).1
  {
    match e
    case Page(_, _, _) =>
    case Post(approval) => PostRefines(a, b, approval, s256);
    case Present(request, code) => PresentRefines(a, b, request, code, s256);
    case Decide(request, _, _, _) =>
      assert SameClaim(a.flights[request], b.flights[request], b);
  }

  lemma PostRefines(a: Running, b: Log, approval: Approval, s256: string -> string)
    requires Refines(a, b) && Allowed(b, Post(approval))
    ensures Refines(Step(a, Post(approval), s256).0, LogStep(b, Post(approval), s256).0)
    ensures Step(a, Post(approval), s256).1 == LogStep(b, Post(approval), s256).1
  {
    hide Swept, Live, NewCode, NonceMatches, HoldsLive, SameClaims;
    SweptIsLive(a, b, approval.sweptAt);
    SweepKeeps(a.server.codes, b, approval, b.console.(nonce := ""));
    ClaimsAge(a.flights, b, approval, b.console.(nonce := ""));
    AtMostOneMore(Swept(a.server.codes, approval.sweptAt), approval.code, NewCode(approval));
  }

  lemma AtMostOneMore(codes: map<Code, AuthCode>, code: Code, ac: AuthCode)
    ensures |codes[code := ac]| <= |codes| + 1
  {
    assert codes[code := ac].Keys == codes.Keys + {code};
  }

  lemma SweepKeeps(codes: map<Code, AuthCode>, b: Log, a: Approval, console: Console)
    requires HoldsLive(codes, b) && Allowed(b, Post(a))
    ensures var swept, later := Swept(codes, a.sweptAt), b.(now := a.issuedAt);
      && HoldsLive(codes, later) && HoldsLive(swept, later)
      && HoldsLive(swept[a.code := NewCode(a)], later.(issued := b.issued[a.code := NewCode(a)], console := console))
  {
  }

  lemma ClaimsAge(flights: map<nat, Option<AuthCode>>, b: Log, a: Approval, console: Console)
    requires SameClaims(flights, b) && Allowed(b, Post(a))
    ensures var later := b.(now := a.issuedAt);
      && SameClaims(flights, later)
      && SameClaims(flights, later.(issued := b.issued[a.code := NewCode(a)], console := console))
  {
  }

  lemma PresentRefines(a: Running, b: Log, request: nat, code: Code, s256: string -> string)
    requires Refines(a, b) && Allowed(b, Present(request, code))
    ensures Refines(Step(a, Present(request, code), s256).0, LogStep(b, Present(request, code), s256).0)
  {
    hide Expired;
    RemovalShrinks(a.server.codes, code);
    ClaimKeeps(a.server, b, request, code, s256);
    ClaimsGrow(a, b, request, code, s256);
  }

  lemma ClaimKeeps(s: Server, b: Log, request: nat, code: Code, s256: string -> string)
    requires HoldsLive(s.codes, b)
    ensures HoldsLive(Claim(s, code).0.codes, LogStep(b, Present(request, code), s256).0)
  {
    hide HoldsLive;
    KeysOnly(s.codes, b, code);
    var b' := LogStep(b, Present(request, code), s256).0;
    if code in b.issued && code !in b.presented {
      PresentedLeaves(s.codes, b, code, b'.flights);
    } else {
      FlightsIdle(s.codes, b, b'.flights);
    }
  }

  lemma KeysOnly(codes: map<Code, AuthCode>, b: Log, code: Code)
    requires HoldsLive(codes, b)
    ensures code in codes ==> code in b.issued && code !in b.presented
    ensures code !in codes ==> codes - {code} == codes
  {
  }

  lemma PresentedLeaves(codes: map<Code, AuthCode>, b: Log, code: Code, flights: map<nat, Option<Code>>)
    requires HoldsLive(codes, b) && code in b.issued
    ensures HoldsLive(codes - {code}, b.(presented := b.presented + {code}, flights := flights))
  {
    hide Expired;
  }

  lemma FlightsIdle(codes: map<Code, AuthCode>, b: Log, flights: map<nat, Option<Code>>)
    requires HoldsLive(codes, b)
    ensures HoldsLive(codes, b.(flights := flights))
  {
    hide Expired;
  }

  lemma RemovalShrinks(codes: map<Code, AuthCode>, code: Code)
    ensures |codes - {code}| <= |codes|
  {
    var left := codes - {code};
    assert left.Keys == codes.Keys - {code};
    SubsetSize(left.Keys, codes.Keys);
  }

  lemma ClaimsGrow(a: Running, b: Log, request: nat, code: Code, s256: string -> string)
    requires HoldsLive(a.server.codes, b) && SameClaims(a.flights, b) && Allowed(b, Present(request, code))
    ensures SameClaims(Step(a, Present(request, code), s256).0.flights, LogStep(b, Present(request, code), s256).0)
  {
    hide Expired;
    var flights, b' := Step(a, Present(request, code), s256).0.flights, LogStep(b, Present(request, code), s256).0;
    assert SameClaim(flights[request], b'.flights[request], b');
    forall r | r in b.flights ensures SameClaim(flights[r], b'.flights[r], b') {
      assert SameClaim(a.flights[r], b.flights[r], b);
    }
  }

  /** Every interleaving gets, step for step, the answers of the unbounded log. */
  lemma {:induction false} AnswersLikeLog(a: Running, b: Log, es: seq<Event>, s256: string -> string)
    requires Refines(a, b) && AllowedRun(b, es, s256)
    ensures Responses(a, es, s256) == LogResponses(b, es, s256)
    decreases |es|
  {
    hide Refines, Step, LogStep, Allowed;
    if es != [] {
      StepRefines(a, b, es[0], s256);
      AnswersLikeLog(Step(a, es[0], s256).0, LogStep(b, es[0], s256).0, es[1..], s256);
    }
  }

  lemma StartAnswersLikeLog(now: Time, es: seq<Event>, s256: string -> string)
    requires AllowedRun(StartLog(now), es, s256)
    ensures Responses(Start(), es, s256) == LogResponses(StartLog(now), es, s256)
  {
    AnswersLikeLog(Start(), StartLog(now), es, s256);
  }

  /** An insertion is refused for capacity exactly when the console code is right and 256 codes are
      neither presented nor expired; for the console code exactly when that is not the current one, or
      too old. Being refused does not use the console code up. */
  lemma RefusedExactly(a: Running, b: Log, approval: Approval, s256: string -> string)
    requires Refines(a, b) && Allowed(b, Post(approval))
    ensures Step(a, Post(approval), s256).1 == Answered(TooMany)
            <==> NonceMatches(b.console, approval.nonce, approval.checkedAt) && |Live(b, approval.sweptAt)| == MAX_CODES
    ensures Step(a, Post(approval), s256).1 == Answered(WrongNonce)
            <==> || approval.nonce == "" || approval.nonce != a.server.console.nonce
                 || approval.checkedAt - a.server.console.at > 60_000_000_000
    ensures Step(a, Post(approval), s256).1 != Answered(Issued) ==>
      Step(a, Post(approval), s256).0.server.console == a.server.console
  {
    SweptIsLive(a, b, approval.sweptAt);
  }

  // ----- runs, cut into parts

  lemma {:induction false} RunRefines(a: Running, b: Log, es: seq<Event>, s256: string -> string)
    requires Refines(a, b) && AllowedRun(b, es, s256)
    ensures Refines(Final(a, es, s256), FinalLog(b, es, s256))
    decreases |es|
  {
    hide Refines, Step, LogStep, Allowed;
    if es != [] {
      StepRefines(a, b, es[0], s256);
      RunRefines(Step(a, es[0], s256).0, LogStep(b, es[0], s256).0, es[1..], s256);
    }
  }

  lemma {:induction false} ResponsesAppend(a: Running, xs: seq<Event>, ys: seq<Event>, s256: string -> string)
    ensures Responses(a, xs + ys, s256) == Responses(a, xs, s256) + Responses(Final(a, xs, s256), ys, s256)
    ensures Final(a, xs + ys, s256) == Final(Final(a, xs, s256), ys, s256)
    decreases |xs|
  {
    hide Step;
    if xs == [] {
      assert xs + ys == ys;
    } else {
      assert (xs + ys)[1..] == xs[1..] + ys;
      ResponsesAppend(Step(a, xs[0], s256).0, xs[1..], ys, s256);
    }
  }

  lemma {:induction false} AllowedAppend(b: Log, xs: seq<Event>, ys: seq<Event>, s256: string -> string)
    ensures AllowedRun(b, xs + ys, s256) <==> AllowedRun(b, xs, s256) && AllowedRun(FinalLog(b, xs, s256), ys, s256)
    ensures FinalLog(b, xs + ys, s256) == FinalLog(FinalLog(b, xs, s256), ys, s256)
    decreases |xs|
  {
    hide LogStep, Allowed;
    if xs == [] {
      assert xs + ys == ys;
    } else {
      assert (xs + ys)[1..] == xs[1..] + ys;
      AllowedAppend(LogStep(b, xs[0], s256).0, xs[1..], ys, s256);
    }
  }

  lemma {:induction false} ClockRuns(b: Log, es: seq<Event>, s256: string -> string)
    requires AllowedRun(b, es, s256)
    ensures b.now <= FinalLog(b, es, s256).now
    decreases |es|
  {
    if es != [] {
      ClockRuns(LogStep(b, es[0], s256).0, es[1..], s256);
    }
  }
}
