/**
  The bearer-token gate in front of every route, the only client of the shared rate limiter. Each
  request carries the clock and the token list in force when it is handled; the run theorems say when
  an address is answered 429, and for how long.
 */
module RemoteAuthGate {
  import opened Wrappers
  import opened OrderedMap
  import opened RateLimit
  import opened RateLimitExact
  import opened TokenStore

  datatype Request = Request(ip: string, verb: string, path: string, authorization: Option<string>,
                             tokens: seq<Token>, at: int)

  datatype Reply = Next(matched: Option<string>) | TooManyAttempts | Unauthorized

  predicate IsLocalhost(ip: string) {
    ip == "127.0.0.1" || ip == "::1" || ip == "::ffff:127.0.0.1" || ip == "localhost"
  }

  predicate IsPublicPath(verb: string, path: string) {
    (verb == "GET" && path == "/health") || verb == "OPTIONS"
  }

  /** The requests let through before the limiter is asked. */
  predicate Ungated(req: Request) {
    req.tokens == [] || IsPublicPath(req.verb, req.path) || IsLocalhost(req.ip)
  }

  function Provided(req: Request): Option<string> {
    if req.authorization.Some? && "Bearer " < req.authorization.value then Some(req.authorization.value[7..]) else None
  }

  function Matched(req: Request): Option<string> {
    if Provided(req).Some? then MatchLabel(req.tokens, Provided(req).value) else None
  }

  function Answer(cfg: Config, m: Windows, req: Request): Reply {
    if Ungated(req) then Next(None)
    else if Limited(cfg, m, req.ip, req.at) then TooManyAttempts
    else if Matched(req).None? then Unauthorized
    else Next(Matched(req))
  }

  /** The limiter calls one request makes. */
  function CallsOf(cfg: Config, m: Windows, req: Request): History {
    match Answer(cfg, m, req)
    case Unauthorized => [Check(req.ip, req.at), Fail(req.ip, req.at)]
    case TooManyAttempts => [Check(req.ip, req.at)]
    case Next(_) => if Ungated(req) then [] else [Check(req.ip, req.at)]
  }

  function After(cfg: Config, m: Windows, calls: History): Windows
    decreases |calls|
  {
    if calls == [] then m else After(cfg, Step(cfg, m, calls[0]), calls[1..])
  }

  lemma AfterTwo(cfg: Config, m: Windows, a: Call, b: Call)
    ensures After(cfg, m, [a, b]) == Step(cfg, Step(cfg, m, a), b)
    ensures After(cfg, m, [a]) == Step(cfg, m, a)
  {
    assert [a, b][1..] == [b] && [b][1..] == [] && [a][1..] == [];
    assert After(cfg, m, [a, b]) == After(cfg, Step(cfg, m, a), [b]);
    assert After(cfg, Step(cfg, m, a), [b]) == After(cfg, Step(cfg, Step(cfg, m, a), b), []);
    assert After(cfg, m, [a]) == After(cfg, Step(cfg, m, a), []);
  }

  method RemoteAuth(limiter: RateLimiter, req: Request) returns (reply: Reply)
    modifies limiter
    ensures reply == Answer(limiter.cfg, old(limiter.failed), req)
    ensures limiter.failed == After(limiter.cfg, old(limiter.failed), CallsOf(limiter.cfg, old(limiter.failed), req))
  {
    if |req.tokens| == 0 { return Next(None); }
    if IsPublicPath(req.verb, req.path) { return Next(None); }
    if IsLocalhost(req.ip) { return Next(None); }
    ghost var m := limiter.failed;
    var limited := limiter.IsLimited(req.ip, req.at);
    assert limiter.failed == Step(limiter.cfg, m, Check(req.ip, req.at));
    if limited { return TooManyAttempts; }
    var provided := if req.authorization.Some? && "Bearer " <= req.authorization.value
                    then Some(req.authorization.value[7..]) else None;
    var matched := if provided.Some? && provided.value != "" then MatchLabel(req.tokens, provided.value) else None;
    if matched.None? {
      limiter.RecordFailure(req.ip, req.at);
      AfterTwo(limiter.cfg, m, Check(req.ip, req.at), Fail(req.ip, req.at));
      return Unauthorized;
    }
    return Next(matched);
  }

  // ---------- who is let through ----------

  /** The header carries `t`, as a bearer token. */
  predicate Presents(req: Request, t: string) {
    t != "" && req.authorization == Some("Bearer " + t)
  }

  /** `name` is the label of the first configured token that is `t`. */
  ghost predicate FirstWith(tokens: seq<Token>, t: string, name: string) {
    exists i | 0 <= i < |tokens| ::
      tokens[i] == Token(name, t) && forall j :: 0 <= j < i ==> tokens[j].token != t
  }

  lemma PresentedIsProvided(req: Request, t: string)
    ensures t != "" ==> (Presents(req, t) <==> Provided(req) == Some(t))
  {
    var bearer := "Bearer ";
    assert |bearer| == 7;
    assert (bearer + t)[..7] == bearer && (bearer + t)[7..] == t;
    if req.authorization.Some? && bearer <= req.authorization.value {
      assert req.authorization.value == bearer + req.authorization.value[7..];
    }
  }

  lemma ProvidedIsNotEmpty(req: Request)
    ensures Provided(req) != Some("")
  {
  }

  lemma MatchedIff(req: Request, name: string)
    ensures Matched(req) == Some(name) <==> exists t :: Presents(req, t) && FirstWith(req.tokens, t, name)
  {
    ProvidedIsNotEmpty(req);
    if exists t :: Presents(req, t) && FirstWith(req.tokens, t, name) {
      var t :| Presents(req, t) && FirstWith(req.tokens, t, name);
      PresentedIsProvided(req, t);
      MatchIsFirstEqual(req.tokens, t);
    }
    if Matched(req) == Some(name) {
      var t := Provided(req).value;
      PresentedIsProvided(req, t);
      MatchIsFirstEqual(req.tokens, t);
      assert FirstWith(req.tokens, t, name);
    }
  }

  /**
   * A gated request within its limit is let through under the label `name` if and only if its header carries, as a
   * non-empty bearer token, one of the configured tokens, and `name` is the label of the first of them; in all other
   * cases it is answered 401.
   */
  lemma AdmittedIff(cfg: Config, m: Windows, req: Request, name: string)
    requires !Ungated(req) && !Limited(cfg, m, req.ip, req.at)
    ensures Answer(cfg, m, req) == Next(Some(name)) <==> exists t :: Presents(req, t) && FirstWith(req.tokens, t, name)
    ensures Answer(cfg, m, req) == Unauthorized || exists l :: Answer(cfg, m, req) == Next(Some(l))
  {
    MatchedIff(req, name);
    assert Matched(req).Some? ==> Answer(cfg, m, req) == Next(Some(Matched(req).value));
  }

  /**
   * A request passes without a label if and only if no token is configured, it asks for the health page or is a CORS
   * preflight, or it comes from this machine; whatever it carries and however often its address has failed.
   */
  lemma UngatedIff(cfg: Config, m: Windows, req: Request)
    ensures Answer(cfg, m, req) == Next(None) <==>
      || |req.tokens| == 0
      || req.verb == "OPTIONS" || (req.verb == "GET" && req.path == "/health")
      || req.ip in {"127.0.0.1", "::1", "::ffff:127.0.0.1", "localhost"}
    ensures Answer(cfg, m, req) == Next(None) ==> CallsOf(cfg, m, req) == []
  {
  }

  // ---------- runs ----------

  function State(cfg: Config, reqs: seq<Request>): Windows {
    if reqs == [] then []
    else
      var m := State(cfg, reqs[..|reqs| - 1]);
      After(cfg, m, CallsOf(cfg, m, reqs[|reqs| - 1]))
  }

  function ReplyTo(cfg: Config, reqs: seq<Request>, i: nat): Reply
    requires i < |reqs|
  {
    Answer(cfg, State(cfg, reqs[..i]), reqs[i])
  }

  predicate Counted(cfg: Config, reqs: seq<Request>, i: nat, ip: string)
    requires i < |reqs|
  {
    reqs[i].ip == ip && ReplyTo(cfg, reqs, i) == Unauthorized
  }

  /** How many requests of `ip` from index `from` on were answered 401. */
  function CountedSince(cfg: Config, reqs: seq<Request>, from: nat, ip: string): nat {
    if |reqs| <= from then 0
    else CountedSince(cfg, reqs[..|reqs| - 1], from, ip) + (if Counted(cfg, reqs, |reqs| - 1, ip) then 1 else 0)
  }

  /**
   * Request `i` was the first 401 of a window of `ip` that request times up to `until` are inside of, and holds
   * `count` of them.
   */
  ghost predicate OpensWindow(cfg: Config, reqs: seq<Request>, i: nat, ip: string, until: int, count: nat) {
    && i < |reqs| && Counted(cfg, reqs, i, ip)
    && until == reqs[i].at + cfg.windowMs
    && CountedSince(cfg, reqs, i, ip) == count
    && CountedBy(cfg, reqs, i, ip, until)
  }

  /** Every counted request from `from` on came at `until` or before. */
  ghost predicate CountedBy(cfg: Config, reqs: seq<Request>, from: nat, ip: string, until: int) {
    forall j: nat | from <= j < |reqs| :: Counted(cfg, reqs, j, ip) ==> reqs[j].at <= until
  }

  lemma CountedInPrefix(cfg: Config, reqs: seq<Request>, j: nat, ip: string)
    requires j < |reqs| - 1
    ensures Counted(cfg, reqs, j, ip) == Counted(cfg, reqs[..|reqs| - 1], j, ip)
  {
    assert reqs[..|reqs| - 1][..j] == reqs[..j];
  }

  lemma {:induction false} StateBounded(cfg: Config, reqs: seq<Request>)
    requires cfg.maxKeys > 0
    ensures Bounded(cfg, State(cfg, reqs))
  {
    if reqs != [] {
      var m := State(cfg, reqs[..|reqs| - 1]);
      StateBounded(cfg, reqs[..|reqs| - 1]);
      AfterBounded(cfg, m, CallsOf(cfg, m, reqs[|reqs| - 1]));
    }
  }

  lemma {:induction false} AfterBounded(cfg: Config, m: Windows, calls: History)
    requires cfg.maxKeys > 0 && Bounded(cfg, m)
    ensures Bounded(cfg, After(cfg, m, calls))
    decreases |calls|
  {
    if calls != [] {
      StepWithinCap(cfg, m, calls[0]);
      AfterBounded(cfg, Step(cfg, m, calls[0]), calls[1..]);
    }
  }

  /** What one request can make of the entry of an address: nothing new unless it answers that address 401. */
  lemma RequestEntry(cfg: Config, m: Windows, req: Request, ip: string)
    requires cfg.maxKeys > 0 && Bounded(cfg, m)
    ensures var before, after := Get(m, ip), Get(After(cfg, m, CallsOf(cfg, m, req)), ip);
      if Answer(cfg, m, req) == Unauthorized && req.ip == ip then
        after == Some(if LiveAt(before, req.at).Some? then RateLimit.Entry(before.value.count + 1, before.value.resetAt)
                      else RateLimit.Entry(1, req.at + cfg.windowMs))
      else after == before || after == None
  {
    if !Ungated(req) {
      var check, fail := Check(req.ip, req.at), Fail(req.ip, req.at);
      var m1 := Step(cfg, m, check);
      AfterTwo(cfg, m, check, fail);
      StepEntry(cfg, m, check, ip);
      StepWithinCap(cfg, m, check);
      StepEntry(cfg, m1, fail, ip);
      GetIsMember(m, req.ip);
      RemoveSpec(m, req.ip);
    }
  }

  /** The last request extends what was known of the ones before it. */
  lemma CountedByExtends(cfg: Config, reqs: seq<Request>, from: nat, ip: string, until: int)
    requires reqs != [] && CountedBy(cfg, reqs[..|reqs| - 1], from, ip, until)
    requires Counted(cfg, reqs, |reqs| - 1, ip) ==> reqs[|reqs| - 1].at <= until
    ensures CountedBy(cfg, reqs, from, ip, until)
  {
    forall j: nat | from <= j < |reqs| && Counted(cfg, reqs, j, ip) ensures reqs[j].at <= until {
      if j < |reqs| - 1 { CountedInPrefix(cfg, reqs, j, ip); }
    }
  }

  lemma WindowExtends(cfg: Config, reqs: seq<Request>, i: nat, ip: string, until: int, count: nat)
    requires reqs != [] && OpensWindow(cfg, reqs[..|reqs| - 1], i, ip, until, count)
    requires Counted(cfg, reqs, |reqs| - 1, ip) ==> reqs[|reqs| - 1].at <= until
    ensures OpensWindow(cfg, reqs, i, ip, until, count + if Counted(cfg, reqs, |reqs| - 1, ip) then 1 else 0)
  {
    CountedInPrefix(cfg, reqs, i, ip);
    CountedByExtends(cfg, reqs, i, ip, until);
  }

  lemma WindowOpens(cfg: Config, reqs: seq<Request>, ip: string)
    requires reqs != [] && Counted(cfg, reqs, |reqs| - 1, ip)
    ensures OpensWindow(cfg, reqs, |reqs| - 1, ip, reqs[|reqs| - 1].at + cfg.windowMs, 1)
  {
  }

  /** `e` is the window some request of the run opened. */
  ghost predicate IsWindow(cfg: Config, reqs: seq<Request>, ip: string, e: RateLimit.Entry) {
    exists i: nat | i < |reqs| :: OpensWindow(cfg, reqs, i, ip, e.resetAt, e.count)
  }

  lemma WindowContinues(cfg: Config, reqs: seq<Request>, ip: string, before: RateLimit.Entry, after: RateLimit.Entry)
    requires reqs != [] && IsWindow(cfg, reqs[..|reqs| - 1], ip, before) && after.resetAt == before.resetAt
    requires Counted(cfg, reqs, |reqs| - 1, ip) ==> reqs[|reqs| - 1].at <= before.resetAt
    requires after.count == before.count + if Counted(cfg, reqs, |reqs| - 1, ip) then 1 else 0
    ensures IsWindow(cfg, reqs, ip, after)
  {
    var i: nat :| i < |reqs| - 1 && OpensWindow(cfg, reqs[..|reqs| - 1], i, ip, before.resetAt, before.count);
    WindowExtends(cfg, reqs, i, ip, before.resetAt, before.count);
  }

  /**
   * In every run, a stored entry counts exactly the 401 answers its address got since its window opened, all inside
   * that window.
   */
  lemma {:induction false} EntryCountsRefusals(cfg: Config, reqs: seq<Request>, ip: string)
    requires cfg.maxKeys > 0 && Get(State(cfg, reqs), ip).Some?
    ensures IsWindow(cfg, reqs, ip, Get(State(cfg, reqs), ip).value)
  {
    var rest, req := reqs[..|reqs| - 1], reqs[|reqs| - 1];
    var m := State(cfg, rest);
    StateBounded(cfg, rest);
    RequestEntry(cfg, m, req, ip);
    if Counted(cfg, reqs, |rest|, ip) && LiveAt(Get(m, ip), req.at).None? {
      WindowOpens(cfg, reqs, ip);
    } else {
      EntryCountsRefusals(cfg, rest, ip);
      WindowContinues(cfg, reqs, ip, Get(m, ip).value, Get(State(cfg, reqs), ip).value);
    }
  }

  /** In every run no stored count exceeds the limit: a limited address is refused before it can be counted again. */
  lemma {:induction false} CountNeverExceedsLimit(cfg: Config, reqs: seq<Request>, ip: string)
    requires cfg.maxKeys > 0 && cfg.maxAttempts > 0 && Get(State(cfg, reqs), ip).Some?
    ensures Get(State(cfg, reqs), ip).value.count <= cfg.maxAttempts
  {
    var rest, req := reqs[..|reqs| - 1], reqs[|reqs| - 1];
    var m := State(cfg, rest);
    StateBounded(cfg, rest);
    RequestEntry(cfg, m, req, ip);
    if Get(m, ip).Some? { CountNeverExceedsLimit(cfg, rest, ip); }
  }

  /** A refusal changes nothing: the window is neither extended nor counted into. */
  lemma RefusalLeavesWindows(cfg: Config, m: Windows, req: Request)
    requires Answer(cfg, m, req) == TooManyAttempts
    ensures After(cfg, m, CallsOf(cfg, m, req)) == m
  {
    AfterTwo(cfg, m, Check(req.ip, req.at), Check(req.ip, req.at));
  }

  /**
   * Every 429 is backed by exactly `maxAttempts` 401 answers to that address, the first of them at most `windowMs`
   * before it.
   */
  lemma RefusalIsBacked(cfg: Config, reqs: seq<Request>, req: Request)
    requires cfg.maxKeys > 0 && cfg.maxAttempts > 0
    requires Answer(cfg, State(cfg, reqs), req) == TooManyAttempts
    ensures exists e :: IsWindow(cfg, reqs, req.ip, e) && e.count == cfg.maxAttempts && req.at <= e.resetAt
  {
    CountNeverExceedsLimit(cfg, reqs, req.ip);
    EntryCountsRefusals(cfg, reqs, req.ip);
  }

  lemma RefusalIsRecent(cfg: Config, reqs: seq<Request>, req: Request)
    requires cfg.maxKeys > 0 && cfg.maxAttempts > 0
    requires Answer(cfg, State(cfg, reqs), req) == TooManyAttempts
    ensures exists i: nat | i < |reqs| :: Counted(cfg, reqs, i, req.ip) && req.at <= reqs[i].at + cfg.windowMs
  {
    RefusalIsBacked(cfg, reqs, req);
    var e :| IsWindow(cfg, reqs, req.ip, e) && e.count == cfg.maxAttempts && req.at <= e.resetAt;
    var i: nat :| i < |reqs| && OpensWindow(cfg, reqs, i, req.ip, e.resetAt, e.count);
  }

  /** A lockout ends by itself: once every 401 answer to an address is older than `windowMs`, it is not refused. */
  lemma LockoutEnds(cfg: Config, reqs: seq<Request>, req: Request)
    requires cfg.maxKeys > 0 && cfg.maxAttempts > 0
    requires forall i :: 0 <= i < |reqs| && Counted(cfg, reqs, i, req.ip) ==> reqs[i].at + cfg.windowMs < req.at
    ensures Answer(cfg, State(cfg, reqs), req) != TooManyAttempts
  {
    if Answer(cfg, State(cfg, reqs), req) == TooManyAttempts {
      RefusalIsRecent(cfg, reqs, req);
    }
  }

  // ---------- agreement with unbounded counting ----------

  function AllCalls(cfg: Config, reqs: seq<Request>): History {
    if reqs == [] then []
    else AllCalls(cfg, reqs[..|reqs| - 1]) + CallsOf(cfg, State(cfg, reqs[..|reqs| - 1]), reqs[|reqs| - 1])
  }

  lemma {:induction false} ReplayAppend(cfg: Config, h: History, calls: History)
    ensures Replay(cfg, h + calls) == After(cfg, Replay(cfg, h), calls)
    decreases |calls|
  {
    if calls == [] {
      assert h + calls == h;
    } else {
      assert (h + [calls[0]])[..|h|] == h;
      assert h + calls == (h + [calls[0]]) + calls[1..];
      ReplayAppend(cfg, h + [calls[0]], calls[1..]);
    }
  }

  lemma {:induction false} StateIsReplay(cfg: Config, reqs: seq<Request>)
    ensures State(cfg, reqs) == Replay(cfg, AllCalls(cfg, reqs))
  {
    if reqs != [] {
      var rest := reqs[..|reqs| - 1];
      StateIsReplay(cfg, rest);
      ReplayAppend(cfg, AllCalls(cfg, rest), CallsOf(cfg, State(cfg, rest), reqs[|reqs| - 1]));
    }
  }

  lemma {:induction false} CallsMonotone(cfg: Config, reqs: seq<Request>, now: int)
    requires forall i, j :: 0 <= i < j < |reqs| ==> reqs[i].at <= reqs[j].at
    requires reqs != [] ==> reqs[|reqs| - 1].at <= now
    ensures Monotone(AllCalls(cfg, reqs))
    ensures forall i :: 0 <= i < |AllCalls(cfg, reqs)| ==> AllCalls(cfg, reqs)[i].at <= now
  {
    if reqs != [] {
      CallsMonotone(cfg, reqs[..|reqs| - 1], reqs[|reqs| - 1].at);
    }
  }

  /**
   * As long as no 401 answer leaves more than `maxKeys` addresses with a live window, a gated request is answered 429
   * exactly when plain windowed counting over the whole run says so.
   */
  lemma RefusedExactlyByCounting(cfg: Config, reqs: seq<Request>, req: Request)
    requires cfg.maxKeys > 0 && !Ungated(req)
    requires forall i, j :: 0 <= i < j < |reqs| ==> reqs[i].at <= reqs[j].at
    requires reqs != [] ==> reqs[|reqs| - 1].at <= req.at
    requires Fits(cfg, AllCalls(cfg, reqs))
    ensures Answer(cfg, State(cfg, reqs), req) == TooManyAttempts <==>
      var window := Current(Unbounded(cfg, AllCalls(cfg, reqs), req.ip), req.at);
      window.Some? && window.value.count >= cfg.maxAttempts
  {
    StateIsReplay(cfg, reqs);
    CallsMonotone(cfg, reqs, req.at);
    LimitedIsWindowedCount(cfg, AllCalls(cfg, reqs), req.ip, req.at);
  }
}
