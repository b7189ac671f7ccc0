/**
 * server_new.js: the `verifyHmac` middleware in front of the orders-paid handler. The
 * secret is read as hex when it looks like 64 hex digits and as UTF-8 otherwise; an empty
 * secret is not refused, and every exception during verification becomes a 401.
 */
module ServerNew {
  import opened Js
  import opened Utf8
  import opened Platform
  import opened Http

  const Rejected := Reply(Unauthorized, "unauthorized")
  const Acknowledged := Reply(Ok, "ok")

  /** A character of the class `[0-9a-f]` under the `i` flag. */
  predicate IsHexDigit(ch: char)
  {
    ('0' <= ch <= '9') || ('a' <= ch <= 'f') || ('A' <= ch <= 'F')
  }

  /** The secret matches `/^[0-9a-f]{64}$/i`: exactly 64 hex digits, in either case. */
  predicate IsHexSecret(secret: string)
  {
    |secret| == 64 && forall i :: 0 <= i < |secret| ==> IsHexDigit(secret[i])
  }

  /** ASCII lower-casing, the folding the `i` flag applies to the letters of the class. */
  function LowerAscii(ch: char): char
  {
    if 'A' <= ch <= 'Z' then (ch as int + 32) as char else ch
  }

  /** The same pattern without the `i` flag: `/^[0-9a-f]{64}$/`. */
  predicate IsLowerHexSecret(secret: string)
  {
    |secret| == 64 && forall i :: 0 <= i < |secret| ==> ('0' <= secret[i] <= '9') || ('a' <= secret[i] <= 'f')
  }

  /** A string with its ASCII letters lower-cased. */
  function Lowered(s: string): string
  {
    seq(|s|, i requires 0 <= i < |s| => LowerAscii(s[i]))
  }

  /** The case-insensitive test accepts a secret exactly when its lower-cased form passes the case-sensitive one. */
  lemma HexTestIgnoresCase(secret: string)
    ensures IsHexSecret(secret) <==> IsLowerHexSecret(Lowered(secret))
  {
    var lower := Lowered(secret);
    if IsLowerHexSecret(lower) {
      forall i | 0 <= i < |secret|
        ensures IsHexDigit(secret[i])
      {
        assert lower[i] == LowerAscii(secret[i]);
      }
    }
  }

  /**
   * An executable form of `IsHexSecret`, the predicate `HmacKey` tests: a left-to-right scan
   * that stops at the first non-digit, as `/^[0-9a-f]{64}$/i.test(secret)` does.
   */
  method TestHexSecret(secret: string) returns (matched: bool)
    ensures matched <==> IsHexSecret(secret)
  {
    if |secret| != 64 {
      return false;
    }
    var i := 0;
    while i < |secret|
      invariant i <= |secret|
      invariant forall k :: 0 <= k < i ==> IsHexDigit(secret[k])
    {
      if !IsHexDigit(secret[i]) {
        return false;
      }
      i := i + 1;
    }
    return true;
  }

  /**
   * `Buffer.from(secret, hex-looking ? 'hex' : 'utf8')`: a secret whose lower-cased form is
   * 64 lower-case hex digits is hex-decoded; every other secret, the empty one included, is
   * keyed by its UTF-8 bytes.
   */
  function HmacKey(p: Primitives, secret: string): (key: Bytes)
    ensures key == if IsLowerHexSecret(Lowered(secret)) then p.hexDecode(secret) else Encode(secret)
    ensures secret == "" ==> key == []
  {
    HexTestIgnoresCase(secret);
    if IsHexSecret(secret) then p.hexDecode(secret) else Encode(secret)
  }

  /** What lets a request through: a Buffer body and a non-empty header equal to its signature under the key. */
  predicate Accepts(p: Primitives, secret: string, req: Request)
  {
    && req.rawBody.Some?
    && Truthy(req.hmacHeader)
    && req.hmacHeader.value == Signature(p, HmacKey(p, secret), req.rawBody.value)
  }

  /** Where the middleware sends the request: on to the route handler, or back with a reply. */
  datatype Decision = Next | Respond(reply: Reply)
  datatype Middleware = Middleware(decision: Decision, steps: seq<Step>)

  /** The `verifyHmac` middleware, with the secret taken from the environment as `env || ''`. */
  function VerifyHmac(p: Primitives, env: Option<string>, req: Request): (m: Middleware)
    // next() is reached exactly when the digest bytes equal the header bytes
    ensures m.decision == Next <==> Accepts(p, OrEmpty(env), req)
    // every other outcome, thrown or not, is the same 401
    ensures m.decision.Respond? ==> m.decision.reply == Rejected
    // the digest is computed first, from the raw body, even when the header is missing
    ensures |m.steps| >= 1 && m.steps[0] == Digest(HmacKey(p, OrEmpty(env)), req.rawBody)
    ensures ReadsOnlyBody(m.steps, req.rawBody)
    ensures NeverParsed(m.steps) && NeverQueried(m.steps)
    // a header of the wrong byte length makes timingSafeEqual throw; the catch answers 401
    ensures Truthy(req.hmacHeader) && req.rawBody.Some?
            && |Encode(req.hmacHeader.value)| != |Encode(Signature(p, HmacKey(p, OrEmpty(env)), req.rawBody.value))|
            ==> m.decision == Respond(Rejected)
  {
    var secret := OrEmpty(env);
    var header := OrEmpty(req.hmacHeader);
    var key := HmacKey(p, secret);
    match HmacDigestBase64(p, key, req.rawBody)
    case Threw(_) => Middleware(Respond(Rejected), [Digest(key, req.rawBody)])
    case Returned(digest) =>
      if header == "" then
        // `valid` is the empty header itself, which is falsy
        Middleware(Respond(Rejected), [Digest(key, req.rawBody)])
      else
        var steps := [Digest(key, req.rawBody), Compare(Encode(digest), Encode(header))];
        match TimingSafeEqual(Encode(digest), Encode(header))
        case Threw(_) => Middleware(Respond(Rejected), steps)
        case Returned(same) =>
          EncodeEqualIff(digest, header);
          if same then Middleware(Next, steps) else Middleware(Respond(Rejected), steps)
  }

  /** The `/webhooks/shopify/orders-paid` route: `verifyHmac`, then a handler that only logs `id` and acknowledges. */
  function OrdersPaid(p: Primitives, env: Option<string>, req: Request): (run: Run)
    ensures run.reply == Acknowledged <==> Accepts(p, OrEmpty(env), req)
    ensures run.reply == Acknowledged || run.reply == Rejected
    ensures NeverParsed(run.steps) && NeverQueried(run.steps)
    ensures ReadsOnlyBody(run.steps, req.rawBody)
  {
    var m := VerifyHmac(p, env, req);
    match m.decision
    case Next => Run(Acknowledged, m.steps)
    case Respond(reply) => Run(reply, m.steps)
  }

  /** An empty secret is not refused: a header signed under the empty key gets through. */
  lemma EmptySecretAccepted(p: Primitives, env: Option<string>, req: Request)
    requires !Truthy(env) && req.rawBody.Some?
    requires req.hmacHeader == Some(Signature(p, [], req.rawBody.value))
    requires Signature(p, [], req.rawBody.value) != ""
    ensures OrdersPaid(p, env, req).reply == Acknowledged
  {
    assert HmacKey(p, OrEmpty(env)) == [];
  }
}
