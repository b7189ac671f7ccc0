/**
 * server.cjs: the CommonJS server. `/webhooks/shopify` bodies are captured raw, the
 * orders-paid handler authenticates with `verifyShopifyHmac`, then parses, then pings the
 * database, and acknowledges with 200 whatever the database does.
 */
module ServerCjs {
  import opened Js
  import opened Utf8
  import opened Platform
  import opened Http

  /** `process.env.SHOPIFY_WEBHOOK_SECRET || ""`: an unset and an empty variable both mean no secret. */
  function ConfiguredSecret(env: Option<string>): (secret: string)
    ensures secret == "" <==> !Truthy(env)
    ensures Truthy(env) ==> secret == env.value
  {
    OrEmpty(env)
  }

  /**
   * The database as the handler meets it: no pool configured, or a pool whose query
   * succeeds, throws, or never settles (the pool sets no connection or query time-out).
   */
  datatype QueryResult = Rows | QueryFails | Pending
  datatype Database = NoPool | Pool(query: QueryResult)

  /** A verdict of `verifyShopifyHmac`, or the exception it lets escape, with the work it did. */
  datatype Verification = Verification(result: Outcome<bool>, steps: seq<Step>)

  /**
   * The sender's side of the contract: a non-empty secret, a Buffer body, and a header that
   * is the base64 HMAC-SHA256 of that body under the secret's UTF-8 bytes.
   */
  predicate Authentic(p: Primitives, secret: string, req: Request)
  {
    && secret != ""
    && req.rawBody.Some?
    && Truthy(req.hmacHeader)
    && req.hmacHeader.value == Signature(p, Encode(secret), req.rawBody.value)
  }

  /** The one case `verifyShopifyHmac` does not turn into a verdict: a MAC over a non-Buffer body. */
  predicate Unhashable(secret: string, req: Request)
  {
    Truthy(req.hmacHeader) && secret != "" && req.rawBody.None?
  }

  function VerifyShopifyHmac(p: Primitives, secret: string, req: Request): (v: Verification)
    // fails closed: true exactly for an authentic request
    ensures v.result == Returned(true) <==> Authentic(p, secret, req)
    // only Hmac.update on a non-Buffer body throws, and that throw is not caught
    ensures v.result.Threw? <==> Unhashable(secret, req)
    ensures v.result.Threw? ==> v.result.error == TypeError
    // a missing header or secret is refused before any digest is computed
    ensures !Truthy(req.hmacHeader) || secret == "" ==> v == Verification(Returned(false), [])
    // a header of the wrong byte length is a plain false, not an escaped RangeError
    ensures Truthy(req.hmacHeader) && secret != "" && req.rawBody.Some?
            && |Encode(req.hmacHeader.value)| != |Encode(Signature(p, Encode(secret), req.rawBody.value))|
            ==> v.result == Returned(false)
    ensures ReadsOnlyBody(v.steps, req.rawBody)
    ensures forall i :: 0 <= i < |v.steps| && v.steps[i].Digest? ==> v.steps[i].key == Encode(secret)
    ensures NeverParsed(v.steps) && NeverQueried(v.steps)
    // a true verdict rests on a comparison that found the header and digest bytes equal
    ensures v.result == Returned(true) ==>
              |v.steps| == 2 && v.steps[1].Compare? && v.steps[1].left == v.steps[1].right
  {
    if !Truthy(req.hmacHeader) || secret == "" then
      Verification(Returned(false), [])
    else
      var key := Encode(secret);
      var header := req.hmacHeader.value;
      match HmacDigestBase64(p, key, req.rawBody)
      case Threw(e) => Verification(Threw(e), [Digest(key, req.rawBody)])
      case Returned(digest) =>
        var steps := [Digest(key, req.rawBody), Compare(Encode(header), Encode(digest))];
        match TimingSafeEqual(Encode(header), Encode(digest))
        case Threw(_) => Verification(Returned(false), steps)
        case Returned(same) =>
          EncodeEqualIff(header, digest);
          Verification(Returned(same), steps)
  }

  /** `JSON.parse(body.toString('utf8'))` succeeds. */
  predicate Parses(p: Primitives, body: Bytes)
  {
    p.jsonParses(p.utf8Decode(body))
  }

  /** The awaited `pool.query` never settles, so the handler never gets to reply. */
  predicate Hangs(db: Database)
  {
    db == Pool(Pending)
  }

  /** The `/webhooks/shopify/orders-paid` handler. */
  function OrdersPaid(p: Primitives, secret: string, db: Database, req: Request): (run: Run)
    // status mapping
    ensures run.reply.Uncaught? <==> Unhashable(secret, req)
    ensures HasStatus(run.reply, Unauthorized) <==> !Authentic(p, secret, req) && !Unhashable(secret, req)
    ensures HasStatus(run.reply, BadRequest) <==> Authentic(p, secret, req) && !Parses(p, req.rawBody.value)
    ensures HasStatus(run.reply, Ok) <==> Authentic(p, secret, req) && Parses(p, req.rawBody.value) && !Hangs(db)
    ensures run.reply == Unanswered <==> Authentic(p, secret, req) && Parses(p, req.rawBody.value) && Hangs(db)
    ensures run.reply.Reply? ==>
              run.reply in {Reply(Unauthorized, "Invalid signature"), Reply(BadRequest, "Bad Request"), Reply(Ok, "ok")}
    // gate ordering: a rejected request is never parsed, and nothing touches the database before a parse
    ensures HasStatus(run.reply, Unauthorized) ==> NeverParsed(run.steps) && NeverQueried(run.steps)
    ensures ParsesOnlyAfterMatch(run.steps)
    ensures QueriesOnlyAfterParse(run.steps)
    // the buffer fed to the MAC is the very buffer that is parsed
    ensures ReadsOnlyBody(run.steps, req.rawBody)
    // the database is pinged exactly on the acknowledged path with a pool configured
    ensures !NeverQueried(run.steps) <==> (HasStatus(run.reply, Ok) || run.reply == Unanswered) && db.Pool?
  {
    var v := VerifyShopifyHmac(p, secret, req);
    match v.result
    case Threw(e) => Run(Uncaught(e), v.steps)
    case Returned(ok) =>
      if !ok then
        Run(Reply(Unauthorized, "Invalid signature"), v.steps)
      else
        var body := req.rawBody.value;
        var parsed := v.steps + [Parse(body)];
        ParseAfterMatch(v.steps, 1, body);
        if !p.jsonParses(p.utf8Decode(body)) then
          Run(Reply(BadRequest, "Bad Request"), parsed)
        else
          // a pool query that throws is caught and logged: the reply is the same
          if db.Pool? then
            QueryAfterParse(parsed, 2);
            var queried := parsed + [Query];
            assert queried[3].Query?;
            Run(if Hangs(db) then Unanswered else Reply(Ok, "ok"), queried)
          else
            Run(Reply(Ok, "ok"), parsed)
  }

  /**
   * Whatever the database does, the reply is the one given without a pool, except that a
   * query that never settles leaves the acknowledgement unsent.
   */
  lemma DatabaseNeverChangesReply(p: Primitives, secret: string, req: Request, db: Database)
    ensures var settled := OrdersPaid(p, secret, NoPool, req).reply;
            OrdersPaid(p, secret, db, req).reply
            == if Hangs(db) && HasStatus(settled, Ok) then Unanswered else settled
  {
  }
}
