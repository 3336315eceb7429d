/**
 * Request and response shapes (app/schemas.py): the rules a webhook body
 * must satisfy to become a canonical message record, and the records the
 * list and stats queries return.
 */
module Schemas {
  import opened Wrappers
  import opened Text
  import Models

  // ---------------------------------------------------------------------------
  // The parsed request body. Only the distinction the validator draws is kept
  // for a field's value: a JSON string, JSON null, or anything else (number,
  // boolean, array, object).
  // ---------------------------------------------------------------------------

  datatype Json = JString(str: string) | JNull | JOther

  /** A decoded body as the payload model receives it. */
  datatype Body =
    | NotObject                           // empty, not an object, or not sent as JSON
    | Object(fields: map<string, Json>)

  datatype Field = WholeBody | MessageId | From | To | Ts | TextField

  datatype ErrorKind = JsonInvalid | NotAnObject | Missing | NotAString | TooShort | TooLong | NotE164

  /** One entry of the structured rejection: the offending field and why. */
  datatype FieldError = FieldError(field: Field, kind: ErrorKind)

  /** The canonical record a valid webhook body yields. */
  datatype WebhookPayload = WebhookPayload(
    messageId: string,
    fromMsisdn: string,
    toMsisdn: string,
    ts: string,
    text: Option<string>)

  const MaxTextLength: nat := 4096

  // ---------------------------------------------------------------------------
  // Phone numbers.
  // ---------------------------------------------------------------------------

  /** E.164: `+` followed by one or more digits. */
  predicate IsE164(s: string) {
    |s| >= 2 && s[0] == '+' && forall i :: 1 <= i < |s| ==> IsAsciiDigit(s[i])
  }

  /**
   * What `re.match(r"^\+\d+$", v)` accepts: Python's `$` also matches just
   * before a final newline, so an E.164 number followed by one `\n` passes.
   */
  predicate MsisdnAccepted(s: string) {
    IsE164(s) || (|s| >= 1 && s[|s| - 1] == '\n' && IsE164(s[..|s| - 1]))
  }

  /** End of the longest run of digits in `s` starting at `i`. */
  function DigitRun(s: string, i: nat): (j: nat)
    requires i <= |s|
    ensures i <= j <= |s|
    ensures forall k :: i <= k < j ==> IsAsciiDigit(s[k])
    ensures j < |s| ==> !IsAsciiDigit(s[j])
    decreases |s| - i
  {
    if i < |s| && IsAsciiDigit(s[i]) then DigitRun(s, i + 1) else i
  }

  /**
   * The regular-expression match step by step: a `+`, a greedy run of at
   * least one digit, then the end of the string or a final newline.
   */
  predicate MatchesMsisdnPattern(s: string) {
    && |s| >= 1
    && s[0] == '+'
    && var j := DigitRun(s, 1);
       j > 1 && (j == |s| || (j == |s| - 1 && s[j] == '\n'))
  }

  lemma MsisdnPatternMeaning(s: string)
    ensures MatchesMsisdnPattern(s) <==> MsisdnAccepted(s)
  {
    if |s| >= 1 && s[0] == '+' {
      var j := DigitRun(s, 1);
      if |s| >= 2 && s[|s| - 1] == '\n' && IsE164(s[..|s| - 1]) {
        assert forall k :: 1 <= k < |s| - 1 ==> s[..|s| - 1][k] == s[k];
      }
      if j == |s| - 1 && j > 1 && s[j] == '\n' {
        assert forall k :: 1 <= k < |s| - 1 ==> s[..|s| - 1][k] == s[k];
      }
    }
  }

  /** `validate_msisdn`: an accepted number is returned unchanged. */
  function ValidateMsisdn(v: string): (r: Result<string, ErrorKind>)
    ensures r.Success? <==> MsisdnAccepted(v)
    ensures r.Success? ==> r.value == v
    ensures r.Failure? ==> r.error == NotE164
  {
    MsisdnPatternMeaning(v);
    if MatchesMsisdnPattern(v) then Success(v) else Failure(NotE164)
  }

  lemma MsisdnExamples()
    ensures ValidateMsisdn("+919876543210") == Success("+919876543210")
    ensures ValidateMsisdn("919876543210").Failure?
    ensures ValidateMsisdn("+").Failure?
    ensures ValidateMsisdn("+91a").Failure?
  {
    assert "+"[0] == '+';
    assert "+91a"[3] == 'a';
  }

  // ---------------------------------------------------------------------------
  // Field rules.
  // ---------------------------------------------------------------------------

  /**
   * The value supplied for a field. `from` and `to` carry an alias; since
   * fields may also be populated by name, the alias is looked up first and the
   * field's own name second.
   */
  function Lookup(fields: map<string, Json>, alias: string, name: string): (v: Option<Json>)
    ensures alias in fields ==> v == Some(fields[alias])
    ensures alias !in fields && name in fields ==> v == Some(fields[name])
    ensures alias !in fields && name !in fields ==> v == None
  {
    if alias in fields then Some(fields[alias])
    else if name in fields then Some(fields[name])
    else None
  }

  /** `message_id: str = Field(..., min_length=1)`. */
  function CheckMessageId(v: Option<Json>): (r: Result<string, ErrorKind>)
    ensures r.Success? <==> v.Some? && v.value.JString? && |v.value.str| >= 1
    ensures r.Success? ==> r.value == v.value.str
    ensures v.None? ==> r == Failure(Missing)
    ensures v == Some(JString("")) ==> r == Failure(TooShort)
  {
    match v
    case None => Failure(Missing)
    case Some(JString(s)) => if |s| >= 1 then Success(s) else Failure(TooShort)
    case Some(_) => Failure(NotAString)
  }

  /** A required string field checked by `validate_msisdn`. */
  function CheckMsisdn(v: Option<Json>): (r: Result<string, ErrorKind>)
    ensures r.Success? <==> v.Some? && v.value.JString? && MsisdnAccepted(v.value.str)
    ensures r.Success? ==> r.value == v.value.str
    ensures v.None? ==> r == Failure(Missing)
  {
    match v
    case None => Failure(Missing)
    case Some(JString(s)) => ValidateMsisdn(s)
    case Some(_) => Failure(NotAString)
  }

  /** `ts: str`: any string, with no format check. */
  function CheckTs(v: Option<Json>): (r: Result<string, ErrorKind>)
    ensures r.Success? <==> v.Some? && v.value.JString?
    ensures r.Success? ==> r.value == v.value.str
    ensures v.None? ==> r == Failure(Missing)
  {
    match v
    case None => Failure(Missing)
    case Some(JString(s)) => Success(s)
    case Some(_) => Failure(NotAString)
  }

  /** `text: Optional[str] = Field(None, max_length=4096)`. */
  function CheckText(v: Option<Json>): (r: Result<Option<string>, ErrorKind>)
    ensures v.None? || v == Some(JNull) ==> r == Success(None)
    ensures v.Some? && v.value.JString? ==>
      (|v.value.str| <= MaxTextLength <==> r == Success(Some(v.value.str)))
    ensures v.Some? && v.value.JString? && |v.value.str| > MaxTextLength ==> r == Failure(TooLong)
    ensures v == Some(JOther) ==> r == Failure(NotAString)
  {
    match v
    case None => Success(None)
    case Some(JNull) => Success(None)
    case Some(JString(s)) => if |s| <= MaxTextLength then Success(Some(s)) else Failure(TooLong)
    case Some(JOther) => Failure(NotAString)
  }

  function IdValue(fields: map<string, Json>): Option<Json> {
    Lookup(fields, "message_id", "message_id")
  }

  function FromValue(fields: map<string, Json>): Option<Json> {
    Lookup(fields, "from", "from_msisdn")
  }

  function ToValue(fields: map<string, Json>): Option<Json> {
    Lookup(fields, "to", "to_msisdn")
  }

  function TsValue(fields: map<string, Json>): Option<Json> {
    Lookup(fields, "ts", "ts")
  }

  function TextValue(fields: map<string, Json>): Option<Json> {
    Lookup(fields, "text", "text")
  }

  /** The errors one field contributes: none, or one naming the field. */
  function ErrorsOf<T>(field: Field, r: Result<T, ErrorKind>): seq<FieldError> {
    if r.Success? then [] else [FieldError(field, r.error)]
  }

  /**
   * The rejection entries for a JSON object, one per failing field, in the
   * order the fields are declared (every field is checked, not just the first
   * failing one).
   */
  function FieldErrors(fields: map<string, Json>): seq<FieldError> {
    ErrorsOf(MessageId, CheckMessageId(IdValue(fields)))
    + ErrorsOf(From, CheckMsisdn(FromValue(fields)))
    + ErrorsOf(To, CheckMsisdn(ToValue(fields)))
    + ErrorsOf(Ts, CheckTs(TsValue(fields)))
    + ErrorsOf(TextField, CheckText(TextValue(fields)))
  }

  /** Whether the value supplied for `field` passes that field's rule. */
  predicate FieldAccepted(fields: map<string, Json>, field: Field) {
    match field
    case WholeBody => true
    case MessageId => CheckMessageId(IdValue(fields)).Success?
    case From => CheckMsisdn(FromValue(fields)).Success?
    case To => CheckMsisdn(ToValue(fields)).Success?
    case Ts => CheckTs(TsValue(fields)).Success?
    case TextField => CheckText(TextValue(fields)).Success?
  }

  /** Some entry of `errors` names `field`. */
  predicate Mentions(errors: seq<FieldError>, field: Field) {
    exists k :: 0 <= k < |errors| && errors[k].field == field
  }

  lemma MentionsConcat(a: seq<FieldError>, b: seq<FieldError>, field: Field)
    ensures Mentions(a + b, field) <==> Mentions(a, field) || Mentions(b, field)
  {
    if Mentions(a + b, field) {
      var k :| 0 <= k < |a + b| && (a + b)[k].field == field;
      if k >= |a| {
        assert b[k - |a|].field == field;
      }
    }
    if Mentions(a, field) {
      var k :| 0 <= k < |a| && a[k].field == field;
      assert (a + b)[k].field == field;
    }
    if Mentions(b, field) {
      var k :| 0 <= k < |b| && b[k].field == field;
      assert (a + b)[|a| + k].field == field;
    }
  }

  lemma MentionsErrorsOf<T>(field: Field, r: Result<T, ErrorKind>, f: Field)
    ensures Mentions(ErrorsOf(field, r), f) <==> f == field && r.Failure?
  {
    if r.Failure? && f == field {
      assert ErrorsOf(field, r)[0].field == f;
    }
  }

  /** The rejection list names a field exactly when that field fails its rule. */
  lemma FieldErrorsNameFailures(fields: map<string, Json>)
    ensures forall f: Field :: Mentions(FieldErrors(fields), f) <==> !FieldAccepted(fields, f)
  {
    var e1 := ErrorsOf(MessageId, CheckMessageId(IdValue(fields)));
    var e2 := ErrorsOf(From, CheckMsisdn(FromValue(fields)));
    var e3 := ErrorsOf(To, CheckMsisdn(ToValue(fields)));
    var e4 := ErrorsOf(Ts, CheckTs(TsValue(fields)));
    var e5 := ErrorsOf(TextField, CheckText(TextValue(fields)));
    assert FieldErrors(fields) == (((e1 + e2) + e3) + e4) + e5;
    forall f: Field
      ensures Mentions(FieldErrors(fields), f) <==> !FieldAccepted(fields, f)
    {
      MentionsConcat(((e1 + e2) + e3) + e4, e5, f);
      MentionsConcat((e1 + e2) + e3, e4, f);
      MentionsConcat(e1 + e2, e3, f);
      MentionsConcat(e1, e2, f);
      MentionsErrorsOf(MessageId, CheckMessageId(IdValue(fields)), f);
      MentionsErrorsOf(From, CheckMsisdn(FromValue(fields)), f);
      MentionsErrorsOf(To, CheckMsisdn(ToValue(fields)), f);
      MentionsErrorsOf(Ts, CheckTs(TsValue(fields)), f);
      MentionsErrorsOf(TextField, CheckText(TextValue(fields)), f);
    }
  }

  /**
   * `WebhookPayload` validation: the canonical record, or the list of
   * failing fields.
   */
  function Validate(body: Body): (r: Result<WebhookPayload, seq<FieldError>>)
    ensures body.NotObject? ==> r == Failure([FieldError(WholeBody, NotAnObject)])
    ensures body.Object? ==>
      (r.Success? <==> forall f: Field :: FieldAccepted(body.fields, f))
    ensures r.Failure? ==> |r.error| > 0
    ensures body.Object? && r.Failure? ==>
      forall f: Field :: Mentions(r.error, f) <==> !FieldAccepted(body.fields, f)
    ensures r.Success? ==>
      && Some(JString(r.value.messageId)) == IdValue(body.fields)
      && Some(JString(r.value.fromMsisdn)) == FromValue(body.fields)
      && Some(JString(r.value.toMsisdn)) == ToValue(body.fields)
      && Some(JString(r.value.ts)) == TsValue(body.fields)
      && (r.value.text.Some? <==> TextValue(body.fields).Some? && TextValue(body.fields).value.JString?)
      && (r.value.text.Some? ==> TextValue(body.fields) == Some(JString(r.value.text.value)))
  {
    match body
    case NotObject => Failure([FieldError(WholeBody, NotAnObject)])
    case Object(fields) =>
      var id := CheckMessageId(IdValue(fields));
      var from := CheckMsisdn(FromValue(fields));
      var to := CheckMsisdn(ToValue(fields));
      var ts := CheckTs(TsValue(fields));
      var text := CheckText(TextValue(fields));
      if id.Success? && from.Success? && to.Success? && ts.Success? && text.Success? then
        Success(WebhookPayload(id.value, from.value, to.value, ts.value, text.value))
      else
        FieldErrorsNameFailures(fields);
        assert !FieldAccepted(fields, MessageId) || !FieldAccepted(fields, From) || !FieldAccepted(fields, To)
          || !FieldAccepted(fields, Ts) || !FieldAccepted(fields, TextField);
        Failure(FieldErrors(fields))
  }

  // ---------------------------------------------------------------------------
  // Response shapes of the list and stats queries.
  // ---------------------------------------------------------------------------

  /** A listed message: the row without its `created_at`. */
  datatype MessageSchema = MessageSchema(
    messageId: string,
    fromMsisdn: string,
    toMsisdn: string,
    ts: string,
    text: Option<string>)

  datatype MessageListResponse = MessageListResponse(data: seq<MessageSchema>, total: int, limit: int, offset: int)

  datatype StatsResponse = StatsResponse(totalMessages: int, uniqueSenders: int, uniqueRecipients: int)

  /** The serialised form of a row (read from its attributes). */
  function ToSchema(m: Models.Message): (v: MessageSchema)
    ensures v.messageId == m.messageId && v.fromMsisdn == m.fromMsisdn && v.toMsisdn == m.toMsisdn
    ensures v.ts == m.ts && v.text == m.text
  {
    MessageSchema(m.messageId, m.fromMsisdn, m.toMsisdn, m.ts, m.text)
  }
}
