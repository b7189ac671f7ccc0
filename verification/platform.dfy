/**
 * The Node library routines the webhook handlers call. HMAC-SHA256 (RFC 2104 over
 * FIPS 180-4), base64 (RFC 4648 section 4), hex decoding, `Buffer.toString('utf8')` and
 * `JSON.parse` are uninterpreted: a `Primitives` value supplies them, and every property
 * below holds whatever they compute. `crypto.timingSafeEqual` is given its full meaning.
 */
module Platform {
  import opened Js
  import opened Utf8

  datatype Primitives = Primitives(
    hmacSha256: (Bytes, Bytes) -> Bytes,      // (key, message) to the 32-byte MAC
    base64: Bytes -> string,                  // `digest('base64')`
    hexDecode: string -> Bytes,               // `Buffer.from(s, 'hex')`
    utf8Decode: Bytes -> string,              // `buf.toString('utf8')`
    jsonParses: string -> bool)               // `JSON.parse` returns rather than throws

  /** The header value a sender holding `key` attaches to `body`: base64(HMAC-SHA256(key, body)). */
  function Signature(p: Primitives, key: Bytes, body: Bytes): string
  {
    p.base64(p.hmacSha256(key, body))
  }

  /**
   * `crypto.createHmac('sha256', key).update(data).digest('base64')`. `update` throws a
   * TypeError when `data` is not a Buffer (here: absent).
   */
  function HmacDigestBase64(p: Primitives, key: Bytes, data: Option<Bytes>): (d: Outcome<string>)
    ensures d.Threw? <==> data.None?
    ensures d.Threw? ==> d.error == TypeError
    ensures d.Returned? ==> d.value == Signature(p, key, data.value)
  {
    match data
    case None => Threw(TypeError)
    case Some(message) => Returned(Signature(p, key, message))
  }

  /** `crypto.timingSafeEqual(a, b)`: a RangeError for unequal byte lengths, else byte equality. */
  function TimingSafeEqual(a: Bytes, b: Bytes): (r: Outcome<bool>)
    ensures r.Threw? <==> |a| != |b|
    ensures r.Threw? ==> r.error == RangeError
    ensures r.Returned? ==> (r.value <==> forall i :: 0 <= i < |a| ==> a[i] == b[i])
  {
    if |a| != |b| then Threw(RangeError) else Returned(a == b)
  }

  /**
   * The comparison as a constant-time loop: it folds the XOR of every byte pair into one
   * accumulator and never leaves early, so the number of bytes it examines depends only on
   * the lengths, not on where the buffers first differ.
   */
  method CompareConstantTime(a: Bytes, b: Bytes) returns (r: Outcome<bool>, examined: nat)
    ensures |a| != |b| ==> r == Threw(RangeError) && examined == 0
    ensures |a| == |b| ==> r == Returned(a == b) && examined == |a|
    ensures r == TimingSafeEqual(a, b)
  {
    if |a| != |b| {
      return Threw(RangeError), 0;
    }
    var acc: bv8 := 0;
    examined := 0;
    while examined < |a|
      invariant examined <= |a|
      invariant acc == 0 <==> forall k :: 0 <= k < examined ==> a[k] == b[k]
    {
      acc := acc | ((a[examined] as bv8) ^ (b[examined] as bv8));
      examined := examined + 1;
    }
    r := Returned(acc == 0);
  }
}
