/**
 * The secret checks in front of the API and webhook routes. Each middleware either answers
 * 401 or calls `next()`; what it does is recorded as the list of its effects. The secrets
 * are parameters (what the environment held at start-up), and the GitHub signature check
 * (an HMAC over the body) is the oracle `verify`.
 */
module Password {
  import opened Wrappers
  import opened Handlers

  /** What a middleware does with a request. */
  datatype Effect = CallNext | Respond(status: int)

  /** `(key, body, signature)`: whether `signature` is the HMAC of `body` under `key`. */
  type Verifier = (string, string, string) -> bool

  /** `RE_WEBHOOK_SECRET || ""`: an unset variable reads as "". */
  function WebhookSecret(env: Option<string>): string
  {
    env.GetOr("")
  }

  /** The key the signature verifier is built with: the secret, or "NO_SECRET" when it is "". */
  function VerifierKey(secret: string): (key: string)
    ensures key != ""
    ensures secret != "" ==> key == secret
  {
    if secret == "" then "NO_SECRET" else secret
  }

  /** The header's value when it is present and non-empty (a truthy header). */
  function Truthy(headers: Headers, name: string): Option<string>
  {
    if name in headers && headers[name] != "" then Some(headers[name]) else None
  }

  /** How many times an effect list calls `next()`. */
  function NextCalls(effects: seq<Effect>): nat
  {
    if |effects| == 0 then 0 else (if effects[0] == CallNext then 1 else 0) + NextCalls(effects[1..])
  }

  /**
   * `checkApiSecret`. `apiSecret` is `RE_API_SECRET` as read (`None` when unset); the header is
   * compared with `!==`, so an unset secret matches only a request without the header.
   */
  function CheckApiSecret(apiSecret: Option<string>, headers: Headers): seq<Effect>
  {
    if apiSecret == Some("") then [CallNext]
    else
      var given := if "x-api-secret" in headers then Some(headers["x-api-secret"]) else None;
      if given != apiSecret then [Respond(401)] else [CallNext]
  }

  /**
   * An empty API secret lets everything through; otherwise a request passes exactly when its
   * `x-api-secret` header is the secret, or when both are absent. Passing calls `next()`
   * once; failing answers 401 and never calls it.
   */
  lemma CheckApiSecretDecision(apiSecret: Option<string>, headers: Headers)
    ensures var effects := CheckApiSecret(apiSecret, headers);
      var passes := apiSecret == Some("")
        || (apiSecret.Some? && "x-api-secret" in headers && headers["x-api-secret"] == apiSecret.value)
        || (apiSecret.None? && "x-api-secret" !in headers);
      && (passes ==> effects == [CallNext] && NextCalls(effects) == 1)
      && (!passes ==> effects == [Respond(401)] && NextCalls(effects) == 0)
  {
  }

  /** `checkGitHubSignature(signature, body)` */
  function CheckGitHubSignature(secret: string, verify: Verifier, signature: string, body: string): bool
  {
    secret == "" || verify(VerifierKey(secret), body, signature)
  }

  /** `checkGitLabToken(token)` */
  function CheckGitLabToken(secret: string, token: string): bool
  {
    secret == "" || token == secret
  }

  /**
   * `checkWebhookSecret`. `body` is `JSON.stringify(req.body)`. Each present header is
   * checked, the signature first, and any failure answers 401.
   */
  function CheckWebhookSecret(secret: string, verify: Verifier, headers: Headers, body: string): seq<Effect>
  {
    if secret == "" then [CallNext]
    else
      var signature := Truthy(headers, "x-hub-signature-256");
      var token := Truthy(headers, "x-gitlab-token");
      var valid :=
        && (signature.Some? ==> CheckGitHubSignature(secret, verify, signature.value, body))
        && (token.Some? ==> CheckGitLabToken(secret, token.value));
      if !valid then [Respond(401)] else [CallNext]
  }

  /** Whether a webhook request may pass, stated header by header. */
  predicate WebhookPasses(secret: string, verify: Verifier, headers: Headers, body: string)
  {
    || secret == ""
    || (&& (Truthy(headers, "x-hub-signature-256").Some? ==> verify(secret, body, headers["x-hub-signature-256"]))
        && (Truthy(headers, "x-gitlab-token").Some? ==> headers["x-gitlab-token"] == secret))
  }

  /**
   * A webhook request passes exactly when the secret is empty, or every present credential
   * checks out: the signature verifies under the secret and the token equals the secret.
   * Passing calls `next()` once; failing answers 401 and never calls it.
   */
  lemma CheckWebhookSecretDecision(secret: string, verify: Verifier, headers: Headers, body: string)
    ensures var effects := CheckWebhookSecret(secret, verify, headers, body);
      && (WebhookPasses(secret, verify, headers, body) ==> effects == [CallNext] && NextCalls(effects) == 1)
      && (!WebhookPasses(secret, verify, headers, body) ==> effects == [Respond(401)] && NextCalls(effects) == 0)
  {
  }

  /** With a secret set, a request carrying neither credential header passes. */
  lemma NoCredentialsPass(secret: string, verify: Verifier, headers: Headers, body: string)
    requires "x-hub-signature-256" !in headers && "x-gitlab-token" !in headers
    ensures CheckWebhookSecret(secret, verify, headers, body) == [CallNext]
  {
  }

  /** A signature that fails verification is refused even when the GitLab token matches. */
  lemma BadSignatureRefused(secret: string, verify: Verifier, headers: Headers, body: string)
    requires secret != ""
    requires Truthy(headers, "x-hub-signature-256").Some?
    requires !verify(secret, body, headers["x-hub-signature-256"])
    requires Truthy(headers, "x-gitlab-token") == Some(secret)
    ensures CheckWebhookSecret(secret, verify, headers, body) == [Respond(401)]
  {
  }
}
