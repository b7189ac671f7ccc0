/**
 * The two servers side by side, each given the same abstract `Request` and the same
 * environment variable: both body parsers are taken to have left the same Buffer, or
 * neither to have left one. Real deliveries need not meet that: server.cjs keeps a Buffer
 * for every content type, server_new.js only for JSON. On one such Request the servers
 * agree on ordinary text secrets and part ways on the empty secret and on a body that is
 * not a Buffer.
 */
module Variants {
  import opened Js
  import opened Platform
  import opened Http
  import ServerCjs
  import ServerNew

  /** For a non-empty secret that does not look like hex, both servers reject the same abstract Buffer-bodied Requests. */
  lemma TextSecretsAgree(p: Primitives, env: Option<string>, db: ServerCjs.Database, req: Request)
    requires Truthy(env) && !ServerNew.IsHexSecret(env.value)
    requires req.rawBody.Some?
    ensures HasStatus(ServerCjs.OrdersPaid(p, ServerCjs.ConfiguredSecret(env), db, req).reply, Unauthorized)
            <==> ServerNew.OrdersPaid(p, env, req).reply == ServerNew.Rejected
  {
  }

  /** With no secret configured server.cjs refuses everything, while server_new.js accepts a header signed under the empty key. */
  lemma EmptySecretSplitsVariants(p: Primitives, env: Option<string>, db: ServerCjs.Database, req: Request)
    requires !Truthy(env) && req.rawBody.Some?
    requires req.hmacHeader == Some(Signature(p, [], req.rawBody.value))
    requires Signature(p, [], req.rawBody.value) != ""
    ensures ServerCjs.OrdersPaid(p, ServerCjs.ConfiguredSecret(env), db, req).reply == Reply(Unauthorized, "Invalid signature")
    ensures ServerNew.OrdersPaid(p, env, req).reply == ServerNew.Acknowledged
  {
    ServerNew.EmptySecretAccepted(p, env, req);
  }

  /** A body that is not a Buffer escapes server.cjs as a TypeError but is a 401 in server_new.js. */
  lemma UnbufferedBodySplitsVariants(p: Primitives, env: Option<string>, db: ServerCjs.Database, req: Request)
    requires Truthy(env) && Truthy(req.hmacHeader) && req.rawBody.None?
    ensures ServerCjs.OrdersPaid(p, ServerCjs.ConfiguredSecret(env), db, req).reply == Uncaught(TypeError)
    ensures ServerNew.OrdersPaid(p, env, req).reply == ServerNew.Rejected
  {
  }
}
