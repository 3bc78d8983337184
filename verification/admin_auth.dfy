/**
 * The `admin-auth` handler: one admin password, stored as the hex SHA-256 of
 * its UTF-8 text in the `admin_passwords` table, with the actions
 * `check-setup`, `setup` and `login`.
 *
 * SHA-256 of a text (after TextEncoder) is the parameter `sha256`; the clock,
 * `Math.random()` and the id the database assigns to a new row are parameters
 * too. An absent `password` or `newPassword` is the empty text, because
 * TextEncoder encodes `undefined` as no bytes.
 */
module AdminAuth {
  import opened Hex
  import opened Http
  import Decimal

  datatype Credential = Credential(id: string, passwordHash: string)

  /** The rows of `admin_passwords`, in the order the database returns them. */
  type CredentialTable = seq<Credential>

  datatype AuthRequest = AuthRequest(action: string, password: string, newPassword: string)

  /** The outside inputs of one call. */
  datatype AuthEnv = AuthEnv(sha256: string -> Digest, now: nat, random: string, freshId: string)

  datatype AuthBody =
    | SetupStatus(isSetup: bool)   // { isSetup }
    | SetupDone                    // { success: true }
    | LoggedIn(token: string)      // { success: true, token }

  const AlreadySetUp: string := "Admin password already set up"
  const NotSetUp: string := "Admin not set up"
  const InvalidPassword: string := "Invalid password"

  /** The stored form of a password: the lower-case hex of its SHA-256. */
  function HashHex(sha256: string -> Digest, text: string): (h: string)
    ensures |h| == 64
  {
    DigestHexLength(sha256(text));
    Encode(sha256(text))
  }

  /** The text hashed into a session token: `${Date.now()}-${Math.random()}`. */
  function TokenSeed(now: nat, random: string): string {
    Decimal.FromNat(now) + "-" + random
  }

  /** `check-setup`: whether a credential row exists. */
  function CheckSetup(table: CredentialTable): (r: Response<AuthBody>)
    ensures r.Ok? && r.body.SetupStatus?
    ensures r.body.isSetup <==> |table| > 0
  {
    Ok(SetupStatus(|table| > 0))
  }

  /** `setup`: store the first password; refused once one exists. */
  function Setup(table: CredentialTable, newPassword: string, env: AuthEnv): (out: (CredentialTable, Response<AuthBody>))
    ensures |table| > 0 ==> out.0 == table && out.1 == Fail(BadRequest, AlreadySetUp)
    ensures |table| == 0 ==> out.1 == Ok(SetupDone) && |out.0| == 1
                             && out.0[0].passwordHash == Encode(env.sha256(newPassword))
  {
    if |table| > 0 then (table, Fail(BadRequest, AlreadySetUp))
    else (table + [Credential(env.freshId, HashHex(env.sha256, newPassword))], Ok(SetupDone))
  }

  /** `login`: compare the hash of `password` with the first row's hash only. */
  function Login(table: CredentialTable, password: string, env: AuthEnv): (r: Response<AuthBody>)
    ensures |table| == 0 ==> r == Fail(BadRequest, NotSetUp)
    ensures |table| > 0 ==> (r.Ok? <==> Encode(env.sha256(password)) == table[0].passwordHash)
    ensures |table| > 0 && !r.Ok? ==> r == Fail(Unauthorized, InvalidPassword)
    ensures r.Ok? ==> r.body.LoggedIn? && |r.body.token| == 64
                      && r.body.token == Encode(env.sha256(TokenSeed(env.now, env.random)))
  {
    if |table| == 0 then Fail(BadRequest, NotSetUp)
    else if table[0].passwordHash == HashHex(env.sha256, password) then
      Ok(LoggedIn(HashHex(env.sha256, TokenSeed(env.now, env.random))))
    else Fail(Unauthorized, InvalidPassword)
  }

  /** The whole handler: dispatch on `action`. Only `setup` can change the table. */
  function Handle(table: CredentialTable, req: AuthRequest, env: AuthEnv): (out: (CredentialTable, Response<AuthBody>))
    ensures req.action == "check-setup" ==> out.0 == table && out.1.Ok? && (out.1.body == SetupStatus(|table| > 0))
    ensures req.action == "login" ==> out.0 == table
    ensures req.action == "login" && |table| > 0 ==>
              (out.1.Ok? <==> Encode(env.sha256(req.password)) == table[0].passwordHash)
    ensures req.action == "setup" && |table| == 0 ==>
              out.0 == [Credential(env.freshId, Encode(env.sha256(req.newPassword)))] && out.1 == Ok(SetupDone)
    ensures req.action !in {"check-setup", "setup", "login"} ==> out == (table, Fail(BadRequest, InvalidAction))
    ensures |table| > 0 ==> out.0 == table
    ensures |out.0| <= 1 + |table| && (|table| <= 1 ==> |out.0| <= 1)
  {
    if req.action == "check-setup" then (table, CheckSetup(table))
    else if req.action == "setup" then Setup(table, req.newPassword, env)
    else if req.action == "login" then (table, Login(table, req.password, env))
    else (table, Fail(BadRequest, InvalidAction))
  }

  // ---------------------------------------------------------------------------
  // Properties over several calls
  // ---------------------------------------------------------------------------

  /** Before any setup the handler reports not set up; after one setup it reports set up. */
  lemma SetupThenCheckSetup(newPassword: string, env: AuthEnv)
    ensures Handle([], AuthRequest("check-setup", "", ""), env).1 == Ok(SetupStatus(false))
    ensures var t := Handle([], AuthRequest("setup", "", newPassword), env).0;
            Handle(t, AuthRequest("check-setup", "", ""), env).1 == Ok(SetupStatus(true))
  {
  }

  /** A second setup is refused whatever password it carries, and the first password stays. */
  lemma SetupTwiceFails(first: string, second: string, env1: AuthEnv, env2: AuthEnv)
    ensures var t := Handle([], AuthRequest("setup", "", first), env1).0;
            Handle(t, AuthRequest("setup", "", second), env2) == (t, Fail(BadRequest, AlreadySetUp))
  {
  }

  /**
   * After setup with `p`, login with `q` succeeds exactly when `q` has the same
   * SHA-256 as `p` — in particular with `p` itself — and then yields a 64-digit token.
   */
  lemma LoginAfterSetup(p: string, q: string, setupEnv: AuthEnv, loginEnv: AuthEnv)
    requires setupEnv.sha256 == loginEnv.sha256
    ensures var t := Handle([], AuthRequest("setup", "", p), setupEnv).0;
            var r := Handle(t, AuthRequest("login", q, ""), loginEnv).1;
            (r.Ok? <==> setupEnv.sha256(q) == setupEnv.sha256(p))
            && (r.Ok? ==> |r.body.token| == 64)
            && (!r.Ok? ==> r == Fail(Unauthorized, InvalidPassword))
  {
    var sha := setupEnv.sha256;
    if Encode(sha(q)) == Encode(sha(p)) {
      EncodeInjective(sha(q), sha(p));
    }
  }

  /** Whatever sequence of requests arrives, the table never holds more than one credential. */
  lemma {:induction false} AtMostOneCredential(reqs: seq<AuthRequest>, envs: seq<AuthEnv>, table: CredentialTable)
    requires |reqs| == |envs|
    requires |table| <= 1
    ensures |Replay(table, reqs, envs)| <= 1
    decreases |reqs|
  {
    if |reqs| > 0 {
      AtMostOneCredential(reqs[1..], envs[1..], Handle(table, reqs[0], envs[0]).0);
    }
  }

  /** The table after handling `reqs` in order. */
  function Replay(table: CredentialTable, reqs: seq<AuthRequest>, envs: seq<AuthEnv>): CredentialTable
    requires |reqs| == |envs|
    decreases |reqs|
  {
    if |reqs| == 0 then table else Replay(Handle(table, reqs[0], envs[0]).0, reqs[1..], envs[1..])
  }
}
