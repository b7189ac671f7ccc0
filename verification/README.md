# Shopify orders-paid webhook: authentication and reply decision

This project models how the re4-voucher-ms webhook servers decide what to answer to a
Shopify `orders/paid` notification. Two variants are modelled separately, each as written:

- `server.cjs`. `verifyShopifyHmac` refuses outright when the `x-shopify-hmac-sha256`
  header or the configured secret is empty. Otherwise it computes
  base64(HMAC-SHA256(secret, raw body)) and compares it with the header through
  `crypto.timingSafeEqual`. A length mismatch throws, and the throw becomes `false`. The
  orders-paid handler then answers 401, or parses the body and answers 400, or answers 200
  (after pinging the database with `select 1` when a pool is configured). A query that
  succeeds or throws never changes the 200; a query that never settles leaves the request
  unanswered.
- `server_new.js`. The `verifyHmac` middleware reads the secret as hex when it matches
  `/^[0-9a-f]{64}$/i` and as UTF-8 otherwise. It does not refuse an empty secret. It always
  computes the digest first and turns every exception into 401. It calls `next()` only when
  the digest bytes equal the header bytes. The route handler then always answers 200 `ok`.

HMAC-SHA256 (RFC 2104 over FIPS 180-4), base64 (RFC 4648 section 4), hex decoding,
`Buffer.toString('utf8')` and `JSON.parse` are uninterpreted. They are fields of a
`Platform.Primitives` value, and every property holds whatever functions they are.
`Buffer.from(string)` is modelled concretely as UTF-8 encoding (RFC 3629) of a sequence of
Unicode scalar values (`Utf8.Encode`). This encoding is proved injective, so "the header
bytes equal the digest bytes" is the same as "the header string equals the signature".
Every handler returns its reply together with a trace of the library work it did
(`Http.Step`: digest, compare, parse, query). The gate ordering is stated over that trace.

Files:

- `js.dfy`: undefined-able values, thrown exceptions, truthiness.
- `utf8.dfy`: UTF-8 encoding and its injectivity.
- `platform.dfy`: the oracles, `timingSafeEqual`, and a constant-time comparison loop.
- `http.dfy`: requests, replies and steps.
- `server_cjs.dfy` and `server_new.dfy`: the two servers.
- `variants.dfy`: the two servers compared on the same request.

What the servers do not do, and one behaviour worth knowing:

- Neither server has a deduplicating store: server.cjs's only database call is `select 1`
  (server.cjs:59), and server_new.js has none.
- Neither server has a method or content-type gate answering 405 or 415.
- Neither server extracts an event id or dispatches a downstream write.
- server_new.js chooses the secret's encoding by a pattern test, not by a configuration switch.
- In `server.cjs`, a body that is not a Buffer makes `Hmac.update` throw outside the `try`.
  The exception escapes the handler (`Http.Reply.Uncaught`) instead of becoming a 401.

## Model

| member | source | states |
|---|---|---|
| Utf8.Encode | server.cjs:36 | `Buffer.from(string)`: at least one byte per character, empty exactly for the empty string, and an ASCII string (a base64 digest) gives one byte per character equal to its code. |
| Utf8.EncodeInjective | server.cjs:36 | Two strings whose `Buffer.from` bytes are equal are the same string. |
| Utf8.EncodeEqualIff | server_new.js:41-44 | Comparing the UTF-8 buffers of two strings is the same as comparing the strings. |
| Platform.HmacDigestBase64 | server.cjs:31-34 | `createHmac(...).update(data).digest('base64')` throws TypeError exactly when the data is not a Buffer, and otherwise returns the base64 HMAC of the data under the key. |
| Platform.TimingSafeEqual | server_new.js:41-44 | `crypto.timingSafeEqual` throws RangeError exactly when the byte lengths differ, and otherwise returns true exactly when the buffers agree at every position. |
| Platform.CompareConstantTime | server.cjs:35-39 | Buffers of unequal length raise RangeError. Buffers of equal length give their byte equality. The comparison examines every byte pair and never stops at the first difference. |
| ServerCjs.ConfiguredSecret | server.cjs:10 | The secret is empty exactly when the environment variable is unset or empty, and is the variable's value otherwise. |
| ServerCjs.VerifyShopifyHmac | server.cjs:28-40 | Fails closed. The verdict is true exactly for a non-empty secret, a Buffer body, and a non-empty header equal to base64(HMAC(UTF-8 secret, body)). A missing header or secret gives false with no digest computed. A wrong-length header gives false, not an escaped RangeError. The only throw is the TypeError for a non-Buffer body. The MAC key is the secret's UTF-8 bytes and the MAC input is the raw body. |
| ServerCjs.OrdersPaid | server.cjs:42-65 | Unauthentic requests get 401 "Invalid signature" and are never parsed or queried. Authentic requests whose body does not parse get 400 "Bad Request". Authentic, parsable requests get 200 "ok", unless the pool's query never settles, in which case they get no reply. Parsing happens only after an equal comparison, and querying only after parsing. The parsed buffer is the hashed buffer. The database is queried exactly on the authentic, parsable path with a pool. |
| ServerCjs.DatabaseNeverChangesReply | server.cjs:58-64 | Under every database outcome the reply is the one given without a pool: a succeeding or throwing query changes nothing, and only a query that never settles turns the 200 into no reply. |
| ServerNew.TestHexSecret | server_new.js:33 | An executable scan of the predicate the key choice tests: it answers true exactly for secrets of 64 characters from `[0-9a-fA-F]`. |
| ServerNew.HexTestIgnoresCase | server_new.js:33 | The `i` flag: a secret passes exactly when its ASCII lower-cased form passes `/^[0-9a-f]{64}$/`. |
| ServerNew.HmacKey | server_new.js:31-34 | The key is hex-decoded exactly when the ASCII lower-cased secret is 64 characters of `[0-9a-f]`, and is the secret's UTF-8 bytes otherwise. The empty secret gives the empty key. |
| ServerNew.VerifyHmac | server_new.js:22-57 | `next()` is reached exactly for a Buffer body and a non-empty header equal to the base64 MAC under the key. Every other path, thrown or not, answers 401 "unauthorized". The digest over the raw body is always computed first, even without a header. A wrong-length header is a 401. |
| ServerNew.OrdersPaid | server_new.js:59-67 | Accepted requests get 200 "ok" and all others get 401 "unauthorized". No other reply exists, and the handler itself parses nothing. |
| ServerNew.EmptySecretAccepted | server_new.js:24-37 | With the secret unset or empty, a header equal to the signature under the empty key gets 200. |
| Variants.TextSecretsAgree | server_new.js:28-37 | Given the same abstract Request with a Buffer body (both parsers left the same bytes) and a non-empty secret that is not 64 hex digits, both servers answer 401 to exactly the same Requests. |
| Variants.EmptySecretSplitsVariants | server.cjs:30 | Given the same abstract Request with a Buffer body and no secret, server.cjs answers 401 where server_new.js answers 200 to the empty-key signature. |
| Variants.UnbufferedBodySplitsVariants | server.cjs:31-34 | Given the same abstract Request with a header and a secret but no Buffer body in either server, server.cjs lets a TypeError escape, while server_new.js answers 401. |

## Left out

- Variants.TextSecretsAgree: compares the servers on one abstract Request, not on one delivery. server.cjs keeps a Buffer for every content type (`bodyParser.raw({ type: '*/*' })`), while server_new.js keeps `rawBody` only for JSON content. So a correctly signed `text/plain` delivery is authentic for server.cjs (200 or 400) and a 401 for server_new.js. The declared content type is not modelled, so neither is this difference. The same holds for the other two `Variants` lemmas.
- server.js: it reads the raw body and answers 200 or 500, with verification left undone. It has no decision logic.
- HMAC-SHA256, base64, hex decoding, `Buffer.toString('utf8')` and `JSON.parse` internals: these are library routines, kept as uninterpreted functions.
- Timing of `timingSafeEqual`: execution time cannot be stated in this model. `Platform.CompareConstantTime` only shows that every byte pair is examined.
- Express routing, and the body parsers' internals. A body that is not a Buffer is one input case (`rawBody` absent), not the parser's rules for producing it.
- server_new.js's global `bodyParser.json` (lines 10-16): it may answer 400 before `verifyHmac` runs. That is framework behaviour.
- What Express does with an exception that escapes an async handler: the Express version is not part of this model.
- The `pg` pool's connection and query execution: a query is only its outcome (`ServerCjs.Database`: rows, a throw, or never settling). `axios` is imported but unused.
- Logging, including the logged order `id`, the health routes, `app.listen` and PORT handling.
- UTF-16 lone surrogates in strings: Dafny strings here are Unicode scalar values. Node header values are Latin-1 strings, so these cannot occur in the header.
- A deduplicating store, a method or content-type gate, and a downstream dispatch: neither server has them, so there is nothing to model.
