/**
 * The HTTP trigger endpoint: guards (HTTPS, empty body, bearer token,
 * fixed-window rate limit) in that order, then one file synchronisation,
 * through the files-synchroniser service when it offers a known API and
 * through the console command otherwise. Any exception becomes a 500.
 */
module Trigger {
  import opened Wrappers
  import opened Text
  import opened Entity
  import opened Matching
  import Verifier
  import FixedWindow

  /** A JSON response: HTTP status code, `status` and `message` fields. */
  datatype Response = Response(code: int, status: string, message: string)

  const BadRequest := Response(400, "error", "Invalid request.")
  const Unauthorized := Response(401, "error", "Invalid token.")
  const TooManyRequests := Response(429, "error", "Rate limit exceeded.")
  const Synchronized := Response(200, "success", "File synchronized.")
  const ServerError := Response(500, "error", "Internal server error.")

  /** The endpoint answers with one of five fixed bodies and nothing else. */
  predicate Known(r: Response) {
    r in {BadRequest, Unauthorized, TooManyRequests, Synchronized, ServerError}
  }

  /**
   * What the container and the file system offer: whether the
   * `contao.files_synchronizer` service exists, is an object, and has a
   * `synchronize` or a `sync` method; whether calling it succeeds; which
   * paths are executable files; and which console runs of
   * `contao:files:sync` succeed.
   */
  datatype SyncEnv = SyncEnv(
    hasService: bool,
    isObject: bool,
    hasSynchronize: bool,
    hasSync: bool,
    serviceSucceeds: bool,
    usable: string -> bool,
    runs: string -> bool)

  /** The console locations, in order of preference. */
  function ConsoleCandidates(projectDir: string): (c: seq<string>)
    ensures |c| == 2
  {
    [projectDir + "/vendor/bin/contao-console", projectDir + "/bin/console"]
  }

  /** The CLI fallback succeeds: the preferred usable console exists and its run succeeds. */
  ghost predicate CliSucceeds(projectDir: string, env: SyncEnv) {
    var vendor := ConsoleCandidates(projectDir)[0];
    var bin := ConsoleCandidates(projectDir)[1];
    (env.usable(vendor) && env.runs(vendor)) || (!env.usable(vendor) && env.usable(bin) && env.runs(bin))
  }

  /** The synchronisation succeeds, by the service when its API is known, by the CLI otherwise. */
  ghost predicate SyncSucceeds(projectDir: string, env: SyncEnv) {
    if env.hasService && env.isObject && (env.hasSynchronize || env.hasSync) then env.serviceSucceeds
    else CliSucceeds(projectDir, env)
  }

  /** The first candidate that is an executable file; `at` is its position. */
  method FindConsole(candidates: seq<string>, usable: string -> bool) returns (console: Option<string>, ghost at: nat)
    ensures console.None? <==> forall i :: 0 <= i < |candidates| ==> !usable(candidates[i])
    ensures console.Some? ==>
              at < |candidates| && console.value == candidates[at] && usable(console.value)
              && forall i :: 0 <= i < at ==> !usable(candidates[i])
  {
    var i := 0;
    while i < |candidates|
      invariant 0 <= i <= |candidates|
      invariant forall j :: 0 <= j < i ==> !usable(candidates[j])
    {
      if usable(candidates[i]) {
        return Some(candidates[i]), i;
      }
      i := i + 1;
    }
    return None, 0;
  }

  /** `runCliSync`: run `contao:files:sync` with the preferred console; false where `runCliSync` throws. */
  method RunCliSync(projectDir: string, env: SyncEnv) returns (ok: bool)
    ensures ok <==> CliSucceeds(projectDir, env)
  {
    var console, at := FindConsole(ConsoleCandidates(projectDir), env.usable);
    if console.None? {
      return false;
    }
    ok := env.runs(console.value);
  }

  /** The route the synchronisation takes. */
  datatype SyncRoute = ServiceSynchronize | ServiceSync | CliFallback

  /** The synchronisation step of `trigger`; `ok` is false where it throws. */
  method Synchronize(projectDir: string, env: SyncEnv) returns (route: SyncRoute, ok: bool)
    ensures route == ServiceSynchronize <==> env.hasService && env.isObject && env.hasSynchronize
    ensures route == ServiceSync <==> env.hasService && env.isObject && !env.hasSynchronize && env.hasSync
    ensures ok <==> SyncSucceeds(projectDir, env)
  {
    if env.hasService && env.isObject && env.hasSynchronize {
      return ServiceSynchronize, env.serviceSucceeds;
    } else if env.hasService && env.isObject && env.hasSync {
      return ServiceSync, env.serviceSucceeds;
    }
    route := CliFallback;
    ok := RunCliSync(projectDir, env);
  }

  /** The request passes the HTTPS and empty-body checks. */
  predicate WellFormed(secure: bool, body: string) {
    secure && Trim(body) == ""
  }

  /** The request passes every guard before the rate limiter. */
  ghost predicate Authenticated(secure: bool, body: string, header: string, entries: seq<FilesyncToken>,
                                storeFault: bool, matches: Matcher)
    reads entries
  {
    WellFormed(secure, body) && !storeFault && Verifier.RequestVerified(header, entries, matches) != null
  }

  /**
   * The token guard of `trigger`: `verifyRequest` on the Authorization
   * header. `matched` is the verified token, or null with `refusal` the
   * response the request ends with. `entries` is the token table and
   * `storeFault` says that reading it raises. `presented` is the token
   * handed to `verify` (None when `verify` is not reached) and `compared`
   * the hashes `password_verify` was called with.
   */
  method CheckToken(header: string, entries: seq<FilesyncToken>, storeFault: bool, dummyHash: string, matches: Matcher)
    returns (matched: FilesyncToken?, refusal: Response, ghost presented: Option<string>, ghost compared: seq<string>)
    ensures matched != null <==> !storeFault && Verifier.RequestVerified(header, entries, matches) != null
    ensures matched != null ==> matched == Verifier.RequestVerified(header, entries, matches)
    ensures Verifier.ParseBearer(header).None? ==> refusal == Unauthorized
    ensures Verifier.ParseBearer(header).Some? && storeFault ==> refusal == ServerError
    ensures !storeFault && Verifier.RequestVerified(header, entries, matches) == null ==> refusal == Unauthorized
    ensures presented == Verifier.ParseBearer(header)
    ensures presented.None? || storeFault ==> compared == []
    ensures presented.Some? && !storeFault && entries != [] ==> |compared| == |entries|
    ensures |compared| <= |entries|
    ensures forall i :: 0 <= i < |compared| ==>
              compared[i] == if entries[i].tokenHash == "" then dummyHash else entries[i].tokenHash
  {
    // Reading the table happens inside `verify`, reached only for a non-blank bearer token.
    if storeFault && Verifier.ParseBearer(header).Some? {
      return null, ServerError, Verifier.ParseBearer(header), [];
    }
    matched, presented, compared := Verifier.VerifyRequest(header, entries, dummyHash, matches);
    refusal := Unauthorized;
  }

  /**
   * The guards of `trigger` before the rate limiter: HTTPS, an empty body
   * and a verified bearer token, in that order. `matched` is the verified
   * token, or null with `refusal` the response the request ends with;
   * `presented` and `compared` are as in `CheckToken`, and record that
   * nothing is verified for a malformed request.
   */
  method Authenticate(secure: bool, body: string, header: string,
                      entries: seq<FilesyncToken>, storeFault: bool, dummyHash: string, matches: Matcher)
    returns (matched: FilesyncToken?, refusal: Response, ghost presented: Option<string>, ghost compared: seq<string>)
    ensures matched != null <==> Authenticated(secure, body, header, entries, storeFault, matches)
    ensures matched != null ==> matched == Verifier.RequestVerified(header, entries, matches)
    ensures !WellFormed(secure, body) ==> refusal == BadRequest
    ensures WellFormed(secure, body) && Verifier.ParseBearer(header).None? ==> refusal == Unauthorized
    ensures WellFormed(secure, body) && Verifier.ParseBearer(header).Some? && storeFault ==> refusal == ServerError
    ensures WellFormed(secure, body) && !storeFault && Verifier.RequestVerified(header, entries, matches) == null ==>
              refusal == Unauthorized
    ensures !WellFormed(secure, body) ==> presented == None && compared == []
    ensures WellFormed(secure, body) ==> presented == Verifier.ParseBearer(header)
    ensures presented.None? || storeFault ==> compared == []
    ensures presented.Some? && !storeFault && entries != [] ==> |compared| == |entries|
    ensures |compared| <= |entries|
    ensures forall i :: 0 <= i < |compared| ==>
              compared[i] == if entries[i].tokenHash == "" then dummyHash else entries[i].tokenHash
  {
    if !secure || Trim(body) != "" {
      return null, BadRequest, None, [];
    }
    matched, refusal, presented, compared := CheckToken(header, entries, storeFault, dummyHash, matches);
  }

  /**
   * `trigger`. After `Authenticate`, `limiterFault` says that the rate
   * limiter's database raises. The ghost results record the effects:
   * `presented` and `compared` as in `Authenticate`, `limited` whether
   * `consume` was called, and `synced` whether the synchronisation was
   * started.
   */
  method Trigger(secure: bool, body: string, header: string,
                 entries: seq<FilesyncToken>, storeFault: bool, dummyHash: string, matches: Matcher,
                 limiter: FixedWindow.RateLimiter, now: int, limiterFault: bool,
                 projectDir: string, env: SyncEnv)
    returns (resp: Response, ghost presented: Option<string>, ghost compared: seq<string>,
             ghost limited: bool, ghost synced: bool)
    modifies limiter
    ensures Known(resp)
    ensures !WellFormed(secure, body) ==> resp == BadRequest
    ensures WellFormed(secure, body) && Verifier.ParseBearer(header).None? ==> resp == Unauthorized
    ensures WellFormed(secure, body) && Verifier.ParseBearer(header).Some? && storeFault ==> resp == ServerError
    ensures WellFormed(secure, body) && !storeFault && Verifier.RequestVerified(header, entries, matches) == null ==>
              resp == Unauthorized
    ensures !WellFormed(secure, body) ==> presented == None && compared == []
    ensures WellFormed(secure, body) ==> presented == Verifier.ParseBearer(header)
    ensures presented.None? || storeFault ==> compared == []
    ensures presented.Some? && !storeFault && entries != [] ==> |compared| == |entries|
    ensures |compared| <= |entries|
    ensures forall i :: 0 <= i < |compared| ==>
              compared[i] == if entries[i].tokenHash == "" then dummyHash else entries[i].tokenHash
    ensures limited <==> old(Authenticated(secure, body, header, entries, storeFault, matches))
    ensures !limited ==> limiter.rows == old(limiter.rows)
    ensures limited && limiterFault ==> resp == ServerError && limiter.rows == old(limiter.rows)
    ensures limited && !limiterFault ==>
              var id := old(IdAsInt(Verifier.RequestVerified(header, entries, matches).id));
              var s := FixedWindow.ConsumeStep(FixedWindow.Lookup(old(limiter.rows), id), now);
              && limiter.rows == old(limiter.rows)[id := s.row]
              && (synced <==> s.admitted)
              && (!s.admitted ==> resp == TooManyRequests)
              && (s.admitted ==> resp == (if SyncSucceeds(projectDir, env) then Synchronized else ServerError))
    ensures synced ==> limited && !limiterFault
    ensures old(limiter.Valid()) ==> limiter.Valid()
  {
    var matched, refusal;
    matched, refusal, presented, compared := Authenticate(secure, body, header, entries, storeFault, dummyHash, matches);
    limited, synced := false, false;
    if matched == null {
      resp := refusal;
      return;
    }
    limited := true;
    var outcome := limiter.Consume(IdAsInt(matched.id), now, limiterFault);
    if outcome == FixedWindow.DbError {
      resp := ServerError;
      return;
    }
    if outcome == FixedWindow.LimitExceeded {
      resp := TooManyRequests;
      return;
    }
    synced := true;
    var route, ok := Synchronize(projectDir, env);
    resp := if ok then Synchronized else ServerError;
  }
}
