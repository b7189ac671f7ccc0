/**
 * Requests, replies and the observable steps a webhook handler takes. A handler run returns
 * its reply together with the trace of library work it did, so that the order of the gates
 * (authenticate, then parse, then touch the database) can be stated about the trace.
 */
module Http {
  import opened Js
  import opened Utf8

  const Ok := 200
  const BadRequest := 400
  const Unauthorized := 401

  /**
   * What the handlers look at: the `x-shopify-hmac-sha256` header (undefined when absent)
   * and the unparsed body bytes, absent when no raw-body parser left a Buffer behind.
   */
  datatype Request = Request(hmacHeader: Option<string>, rawBody: Option<Bytes>)

  /**
   * `res.status(status).send(text)`; or an exception that escaped the handler; or no reply
   * at all, because the handler is left waiting on a promise that never settles.
   */
  datatype Reply = Reply(status: int, text: string) | Uncaught(error: JsError) | Unanswered

  datatype Step =
    | Digest(key: Bytes, message: Option<Bytes>)  // createHmac(key).update(message).digest
    | Compare(left: Bytes, right: Bytes)          // timingSafeEqual(left, right)
    | Parse(input: Bytes)                         // JSON.parse(input.toString('utf8'))
    | Query                                       // pool.query('select 1;')

  datatype Run = Run(reply: Reply, steps: seq<Step>)

  predicate HasStatus(r: Reply, status: int)
  {
    r.Reply? && r.status == status
  }

  predicate NeverParsed(steps: seq<Step>)
  {
    forall i :: 0 <= i < |steps| ==> !steps[i].Parse?
  }

  predicate NeverQueried(steps: seq<Step>)
  {
    forall i :: 0 <= i < |steps| ==> !steps[i].Query?
  }

  /** Every MAC and every parse in the trace works on exactly the request's unparsed bytes. */
  predicate ReadsOnlyBody(steps: seq<Step>, body: Option<Bytes>)
  {
    forall i :: 0 <= i < |steps| ==>
      && (steps[i].Digest? ==> steps[i].message == body)
      && (steps[i].Parse? ==> Some(steps[i].input) == body)
  }

  /** Every parse comes after a comparison that found its two buffers equal. */
  predicate ParsesOnlyAfterMatch(steps: seq<Step>)
  {
    forall i :: 0 <= i < |steps| && steps[i].Parse? ==>
      exists j :: 0 <= j < i && steps[j].Compare? && steps[j].left == steps[j].right
  }

  /** Every database query comes after a parse. */
  predicate QueriesOnlyAfterParse(steps: seq<Step>)
  {
    forall i :: 0 <= i < |steps| && steps[i].Query? ==>
      exists j :: 0 <= j < i && steps[j].Parse?
  }

  /** A parse appended after an equal comparison keeps parses behind a match. */
  lemma ParseAfterMatch(steps: seq<Step>, j: nat, input: Bytes)
    requires NeverParsed(steps)
    requires j < |steps| && steps[j].Compare? && steps[j].left == steps[j].right
    ensures ParsesOnlyAfterMatch(steps + [Parse(input)])
  {
    var s := steps + [Parse(input)];
    forall i | 0 <= i < |s| && s[i].Parse?
      ensures exists k :: 0 <= k < i && s[k].Compare? && s[k].left == s[k].right
    {
      assert i == |steps|;
      assert s[j] == steps[j];
    }
  }

  /** A query appended after a parse keeps queries behind a parse, and parses where they were. */
  lemma QueryAfterParse(steps: seq<Step>, j: nat)
    requires NeverQueried(steps) && ParsesOnlyAfterMatch(steps)
    requires j < |steps| && steps[j].Parse?
    ensures QueriesOnlyAfterParse(steps + [Query])
    ensures ParsesOnlyAfterMatch(steps + [Query])
  {
    var s := steps + [Query];
    forall i | 0 <= i < |s| && s[i].Query?
      ensures exists k :: 0 <= k < i && s[k].Parse?
    {
      assert i == |steps|;
      assert s[j] == steps[j];
    }
    forall i | 0 <= i < |s| && s[i].Parse?
      ensures exists k :: 0 <= k < i && s[k].Compare? && s[k].left == s[k].right
    {
      assert s[i] == steps[i];
      var k :| 0 <= k < i && steps[k].Compare? && steps[k].left == steps[k].right;
      assert s[k] == steps[k];
    }
  }
}
