/** The translation of exceptions into HTTP responses. */
module GlobalExceptionHandler {
  import opened Wrappers
  import opened Exceptions
  import opened Text

  /** An HTTP status and a JSON object of string (or null) values. */
  datatype Response = Response(status: int, body: map<string, Option<string>>)

  const BAD_REQUEST := 400
  const NOT_FOUND := 404
  const METHOD_NOT_ALLOWED := 405
  const INTERNAL_SERVER_ERROR := 500

  const MESSAGE_KEY := "message"
  const RESOURCE_NOT_FOUND_PREFIX := "Resource not found: "
  const METHOD_NOT_ALLOWED_PREFIX := "Method not allowed: "
  const UNEXPECTED_PREFIX := "An unexpected error occurred: "
  const SUBSCRIPTION_WORD := "subscription"
  const COVERAGE_PHRASE := "cover the entire borrowing period"
  const SUBSCRIPTION_EXPLANATION :=
    "Borrowing failed: You probably do not have an active subscription, or the end date you specified for returning the book is after your subscription expires."

  /** No error after position `k` concerns the same field as error `k`. */
  predicate LastForField(errors: seq<Violation>, k: int)
    requires 0 <= k < |errors|
  {
    forall j :: k < j < |errors| ==> errors[j].field != errors[k].field
  }

  /** `body` maps each field that has an error to the message of the last
      error for that field, and holds no other key. */
  ghost predicate IsErrorMap(errors: seq<Violation>, body: map<string, Option<string>>) {
    && (forall f :: f in body <==> exists k :: 0 <= k < |errors| && errors[k].field == f)
    && (forall k :: 0 <= k < |errors| && LastForField(errors, k) ==>
          errors[k].field in body && body[errors[k].field] == errors[k].message)
  }

  /** Putting one more error into the map of the earlier ones gives the map
      of all of them. */
  lemma PutStep(errors: seq<Violation>, body: map<string, Option<string>>, v: Violation)
    requires IsErrorMap(errors, body)
    ensures IsErrorMap(errors + [v], body[v.field := v.message])
  {
    var es := errors + [v];
    var b := body[v.field := v.message];
    forall f ensures f in b <==> exists k :: 0 <= k < |es| && es[k].field == f {
      if f in body && f != v.field {
        var k :| 0 <= k < |errors| && errors[k].field == f;
        assert es[k].field == f;
      }
      if f == v.field {
        assert es[|errors|].field == f;
      }
      if exists k :: 0 <= k < |es| && es[k].field == f {
        var k :| 0 <= k < |es| && es[k].field == f;
        if k < |errors| {
          assert errors[k].field == f;
        }
      }
    }
    forall k | 0 <= k < |es| && LastForField(es, k)
      ensures es[k].field in b && b[es[k].field] == es[k].message
    {
      if k < |errors| {
        assert es[|errors|].field != es[k].field;
        assert LastForField(errors, k) by {
          forall j | k < j < |errors| ensures errors[j].field != errors[k].field {
            assert es[j] == errors[j];
          }
        }
      }
    }
  }

  /** The `forEach` that puts each error's message under its field; a later
      error for a field overwrites an earlier one. */
  method PutAll(errors: seq<Violation>) returns (body: map<string, Option<string>>)
    ensures IsErrorMap(errors, body)
  {
    body := map[];
    for i := 0 to |errors|
      invariant IsErrorMap(errors[..i], body)
    {
      PutStep(errors[..i], body, errors[i]);
      assert errors[..i + 1] == errors[..i] + [errors[i]];
      body := body[errors[i].field := errors[i].message];
    }
    assert errors[..|errors|] == errors;
  }

  /** `handleValidationExceptions`: 400 with the field-to-message map. */
  method HandleValidationExceptions(fieldErrors: seq<Violation>) returns (r: Response)
    ensures r.status == BAD_REQUEST && IsErrorMap(fieldErrors, r.body)
  {
    var body := PutAll(fieldErrors);
    r := Response(BAD_REQUEST, body);
  }

  /** `handleConstraintViolationExceptions`: 400 with the property-path-to-message map. */
  method HandleConstraintViolationExceptions(violations: seq<Violation>) returns (r: Response)
    ensures r.status == BAD_REQUEST && IsErrorMap(violations, r.body)
  {
    var body := PutAll(violations);
    r := Response(BAD_REQUEST, body);
  }

  /** A response whose body holds only a message. */
  function MessageResponse(status: int, message: Option<string>): (r: Response)
    ensures r.status == status && r.body.Keys == {MESSAGE_KEY} && r.body[MESSAGE_KEY] == message
  {
    Response(status, map[MESSAGE_KEY := message])
  }

  /** `handleResourceNotFoundException`: 404, "Resource not found: " and the message. */
  function HandleResourceNotFoundException(message: Option<string>): (r: Response)
    ensures r.status == NOT_FOUND && r.body.Keys == {MESSAGE_KEY}
    ensures r.body[MESSAGE_KEY] == Some(Concat(RESOURCE_NOT_FOUND_PREFIX, message))
  {
    MessageResponse(NOT_FOUND, Some(Concat(RESOURCE_NOT_FOUND_PREFIX, message)))
  }

  /** `handleHttpRequestMethodNotSupportedException`: 405, "Method not allowed: " and the message. */
  function HandleHttpRequestMethodNotSupportedException(message: Option<string>): (r: Response)
    ensures r.status == METHOD_NOT_ALLOWED && r.body.Keys == {MESSAGE_KEY}
    ensures r.body[MESSAGE_KEY] == Some(Concat(METHOD_NOT_ALLOWED_PREFIX, message))
  {
    MessageResponse(METHOD_NOT_ALLOWED, Some(Concat(METHOD_NOT_ALLOWED_PREFIX, message)))
  }

  /** `handleInternalServerError`: 500, "An unexpected error occurred: " and the message. */
  function HandleInternalServerError(message: Option<string>): (r: Response)
    ensures r.status == INTERNAL_SERVER_ERROR && r.body.Keys == {MESSAGE_KEY}
    ensures r.body[MESSAGE_KEY] == Some(Concat(UNEXPECTED_PREFIX, message))
  {
    MessageResponse(INTERNAL_SERVER_ERROR, Some(Concat(UNEXPECTED_PREFIX, message)))
  }

  /** The message speaks of a subscription problem: it contains the word
      "subscription" (lower case) or the phrase about covering the borrowing
      period somewhere. */
  ghost predicate MentionsSubscription(message: string) {
    (exists i: nat :: OccursAt(message, SUBSCRIPTION_WORD, i))
    || (exists i: nat :: OccursAt(message, COVERAGE_PHRASE, i))
  }

  /** `handleIllegalStateException`: always 400; a message about the
      subscription is replaced by the fixed explanation, any other message
      (null included) is passed through unchanged. */
  function HandleIllegalStateException(message: Option<string>): (r: Response)
    ensures r.status == BAD_REQUEST && r.body.Keys == {MESSAGE_KEY}
    ensures message.Some? && MentionsSubscription(message.value) ==>
      r.body[MESSAGE_KEY] == Some(SUBSCRIPTION_EXPLANATION)
    ensures message.None? || !MentionsSubscription(message.value) ==>
      r.body[MESSAGE_KEY] == message
  {
    if message.Some?
       && (Contains(message.value, SUBSCRIPTION_WORD) || Contains(message.value, COVERAGE_PHRASE))
    then
      if Contains(message.value, SUBSCRIPTION_WORD) then
        ContainsWitness(message.value, SUBSCRIPTION_WORD);
        MessageResponse(BAD_REQUEST, Some(SUBSCRIPTION_EXPLANATION))
      else
        ContainsWitness(message.value, COVERAGE_PHRASE);
        MessageResponse(BAD_REQUEST, Some(SUBSCRIPTION_EXPLANATION))
    else
      assert message.Some? ==> !MentionsSubscription(message.value) by {
        if message.Some? {
          forall i: nat | OccursAt(message.value, SUBSCRIPTION_WORD, i) ensures false {
            ContainsAt(message.value, SUBSCRIPTION_WORD, i);
          }
          forall i: nat | OccursAt(message.value, COVERAGE_PHRASE, i) ensures false {
            ContainsAt(message.value, COVERAGE_PHRASE, i);
          }
        }
      }
      MessageResponse(BAD_REQUEST, message)
  }

  /** Which handler Spring picks for each exception kind: the one declared for
      the most specific matching class. Illegal-argument and other runtime
      exceptions have no handler of their own and fall to the generic one, so
      a lookup of an unknown borrowing id surfaces as a 500. */
  method HandleException(ex: Exception) returns (r: Response)
    ensures ex.MethodArgumentNotValid? ==> r.status == BAD_REQUEST && IsErrorMap(ex.fieldErrors, r.body)
    ensures ex.ConstraintViolation? ==> r.status == BAD_REQUEST && IsErrorMap(ex.violations, r.body)
    ensures ex.ResourceNotFound? ==> r == HandleResourceNotFoundException(ex.message)
    ensures ex.MethodNotSupported? ==> r == HandleHttpRequestMethodNotSupportedException(ex.message)
    ensures ex.IllegalState? ==> r == HandleIllegalStateException(ex.message)
    ensures ex.IllegalArgument? || ex.Runtime? || ex.TransactionSystem? ==> r == HandleInternalServerError(ex.message)
    ensures r.status == BAD_REQUEST <==> ex.MethodArgumentNotValid? || ex.ConstraintViolation? || ex.IllegalState?
    ensures r.status == INTERNAL_SERVER_ERROR <==> ex.IllegalArgument? || ex.Runtime? || ex.TransactionSystem?
  {
    match ex
    case MethodArgumentNotValid(errors) => r := HandleValidationExceptions(errors);
    case ConstraintViolation(violations) => r := HandleConstraintViolationExceptions(violations);
    case ResourceNotFound(message) => r := HandleResourceNotFoundException(message);
    case MethodNotSupported(message) => r := HandleHttpRequestMethodNotSupportedException(message);
    case IllegalState(message) => r := HandleIllegalStateException(message);
    case IllegalArgument(message) => r := HandleInternalServerError(message);
    case Runtime(message) => r := HandleInternalServerError(message);
    case TransactionSystem(message, _) => r := HandleInternalServerError(message);
  }

  /** Matching is case-sensitive and literal: "No active subscription found"
      gets the explanation, "Subscription" (capital S, no phrase) is passed
      through, and a null message stays null. */
  lemma IllegalStateExamples()
    ensures HandleIllegalStateException(Some("No active subscription found")).body[MESSAGE_KEY]
      == Some(SUBSCRIPTION_EXPLANATION)
    ensures HandleIllegalStateException(Some("Subscription")).body[MESSAGE_KEY]
      == Some("Subscription")
    ensures HandleIllegalStateException(None).body[MESSAGE_KEY] == None
  {
    assert OccursAt("No active subscription found", SUBSCRIPTION_WORD, 10);
    var m := "Subscription";
    assert !exists i: nat :: OccursAt(m, SUBSCRIPTION_WORD, i) by {
      forall i: nat | OccursAt(m, SUBSCRIPTION_WORD, i) ensures i == 0 && m[0] != SUBSCRIPTION_WORD[0] {
      }
    }
  }
}
