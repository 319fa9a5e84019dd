/** Errors of a recipient command, and what is done to them before they are shown. */
module RecipientErrors {
  import opened Wrappers
  import opened Replacement
  import opened Redaction

  datatype ValidationError = ValidationError(path: string, message: string, extra: seq<Field>)

  datatype Problem = Problem(
    kind: string, title: string, status: int, detail: string, instance: string,
    errors: Option<seq<ValidationError>>, extra: seq<Field>)

  datatype CliError =
    | ServerProblem(problem: Problem)
    | Usage(detail: string, errors: Option<seq<ValidationError>>)
    | Config(detail: string)
    | Network(detail: string)
    | Timeout(detail: string)
    | ResponseTooLarge(limit: nat, received: Option<nat>)
    | RedirectRefused(location: string)
    | Io(detail: string)
    | JsonError(detail: string)

  predicate ValidationErrorHolds(e: ValidationError, token: string) {
    Contains(e.path, token) || Contains(e.message, token) || FieldsHoldToken(e.extra, token)
  }

  predicate ValidationErrorsHold(errors: Option<seq<ValidationError>>, token: string) {
    errors.Some? && exists i :: 0 <= i < |errors.value| && ValidationErrorHolds(errors.value[i], token)
  }

  /** True when a token stands in any text of an error. */
  predicate ErrorHolds(err: CliError, token: string) {
    match err
    case ServerProblem(p) =>
      || Contains(p.kind, token) || Contains(p.title, token) || Contains(p.detail, token) || Contains(p.instance, token)
      || ValidationErrorsHold(p.errors, token) || FieldsHoldToken(p.extra, token)
    case Usage(detail, errors) => Contains(detail, token) || ValidationErrorsHold(errors, token)
    case Config(detail) => Contains(detail, token)
    case Network(detail) => Contains(detail, token)
    case Timeout(detail) => Contains(detail, token)
    case ResponseTooLarge(_, _) => false
    case RedirectRefused(location) => Contains(location, token)
    case Io(detail) => Contains(detail, token)
    case JsonError(detail) => Contains(detail, token)
  }

  function RedactValidationError(e: ValidationError, token: string): ValidationError {
    ValidationError(Redact(e.path, token), Redact(e.message, token), RedactFields(e.extra, token))
  }

  function RedactValidationErrors(errors: seq<ValidationError>, token: string): (r: seq<ValidationError>)
    ensures |r| == |errors| && forall i :: 0 <= i < |errors| ==> r[i] == RedactValidationError(errors[i], token)
  {
    seq(|errors|, i requires 0 <= i < |errors| => RedactValidationError(errors[i], token))
  }

  function RedactProblem(p: Problem, token: string): Problem {
    Problem(
      Redact(p.kind, token), Redact(p.title, token), p.status, Redact(p.detail, token), Redact(p.instance, token),
      match p.errors case None => None case Some(errors) => Some(RedactValidationErrors(errors, token)),
      RedactFields(p.extra, token))
  }

  /** The error as it may be shown; the nested errors of a usage error and three local kinds are passed on. */
  function Sanitized(err: CliError, token: string): CliError {
    match err
    case ServerProblem(p) => ServerProblem(RedactProblem(p, token))
    case RedirectRefused(location) => RedirectRefused(Redact(location, token))
    case Network(detail) => Network(Redact(detail, token))
    case Timeout(detail) => Timeout(Redact(detail, token))
    case Usage(detail, errors) => Usage(Redact(detail, token), errors)
    case other => other
  }

  method RedactExtra(original: seq<Field>, token: string) returns (extra: seq<Field>)
    ensures extra == RedactFields(original, token)
  {
    hide Redact, RedactJson;
    extra := [];
    for i := 0 to |original|
      invariant extra == RedactFields(original[..i], token)
    {
      var value := RedactTree(original[i].value, token);
      extra := Insert(extra, Redact(original[i].key, token), value);
      assert original[..i + 1][..i] == original[..i];
    }
    assert original[..|original|] == original;
  }

  // ----- It stays the same error -----

  /** The token's occurrences in a text replaced by the mark. */
  predicate IsReplaced(text: string, shown: string, token: string) {
    shown == Replace(text, token, "[REDACTED]")
  }

  predicate ValidationErrorReplaced(e: ValidationError, shown: ValidationError, token: string) {
    && IsReplaced(e.path, shown.path, token) && IsReplaced(e.message, shown.message, token)
    && shown.extra == RedactFields(e.extra, token)
  }

  predicate ValidationErrorsReplaced(errors: Option<seq<ValidationError>>, shown: Option<seq<ValidationError>>,
                                     token: string)
  {
    match errors
    case None => shown.None?
    case Some(es) =>
      && shown.Some? && |shown.value| == |es|
      && forall i :: 0 <= i < |es| ==> ValidationErrorReplaced(es[i], shown.value[i], token)
  }

  predicate ProblemReplaced(p: Problem, shown: Problem, token: string) {
    && IsReplaced(p.kind, shown.kind, token) && IsReplaced(p.title, shown.title, token)
    && IsReplaced(p.detail, shown.detail, token) && IsReplaced(p.instance, shown.instance, token)
    && shown.status == p.status && ValidationErrorsReplaced(p.errors, shown.errors, token)
    && shown.extra == RedactFields(p.extra, token)
  }

  /** Each text of the shown error is the same field's text with the token replaced, or is passed on. */
  predicate ErrorReplaced(err: CliError, shown: CliError, token: string) {
    match err
    case ServerProblem(p) => shown.ServerProblem? && ProblemReplaced(p, shown.problem, token)
    case Usage(detail, errors) =>
      shown.Usage? && IsReplaced(detail, shown.detail, token) && shown.errors == errors
    case Network(detail) => shown.Network? && IsReplaced(detail, shown.detail, token)
    case Timeout(detail) => shown.Timeout? && IsReplaced(detail, shown.detail, token)
    case RedirectRefused(location) => shown.RedirectRefused? && IsReplaced(location, shown.location, token)
    case other => shown == other
  }

  predicate ProperFields(fields: seq<Field>) {
    UniqueKeys(fields) && forall i :: 0 <= i < |fields| ==> Proper(fields[i].value)
  }

  /** Every JSON object in a server problem has each key once, as every object in memory does. */
  predicate ProperError(err: CliError) {
    err.ServerProblem? ==>
      && ProperFields(err.problem.extra)
      && (err.problem.errors.Some? ==>
            forall i :: 0 <= i < |err.problem.errors.value| ==> ProperFields(err.problem.errors.value[i].extra))
  }

  lemma SanitizedReplaces(err: CliError, token: string)
    ensures ErrorReplaced(err, Sanitized(err, token), token)
  {
    hide Redact, Replace, RedactFields;
    match err
    case ServerProblem(p) => ProblemIsReplaced(p, token);
    case Usage(detail, _) => RedactReplaces(detail, token);
    case Network(detail) => RedactReplaces(detail, token);
    case Timeout(detail) => RedactReplaces(detail, token);
    case RedirectRefused(location) => RedactReplaces(location, token);
    case _ =>
  }

  lemma ProblemIsReplaced(p: Problem, token: string)
    ensures ProblemReplaced(p, RedactProblem(p, token), token)
  {
    hide Redact, Replace, RedactFields;
    RedactReplaces(p.kind, token);
    RedactReplaces(p.title, token);
    RedactReplaces(p.detail, token);
    RedactReplaces(p.instance, token);
    if p.errors.Some? {
      forall i | 0 <= i < |p.errors.value|
        ensures ValidationErrorReplaced(p.errors.value[i], RedactValidationError(p.errors.value[i], token), token)
      {
        RedactReplaces(p.errors.value[i].path, token);
        RedactReplaces(p.errors.value[i].message, token);
      }
    }
  }

  /** An error that does not hold the token comes back unchanged. */
  lemma CleanErrorUnchanged(err: CliError, shown: CliError, token: string)
    requires ErrorReplaced(err, shown, token) && ProperError(err) && !ErrorHolds(err, token)
    ensures shown == err
  {
    hide Contains, Replace, RedactFields, FieldsHoldToken, ProperFields;
    match err
    case ServerProblem(p) => CleanProblemUnchanged(p, shown.problem, token);
    case Usage(detail, _) => CleanTextUnchanged(detail, token);
    case Network(detail) => CleanTextUnchanged(detail, token);
    case Timeout(detail) => CleanTextUnchanged(detail, token);
    case RedirectRefused(location) => CleanTextUnchanged(location, token);
    case _ =>
  }

  lemma CleanTextUnchanged(text: string, token: string)
    requires !Contains(text, token)
    ensures Replace(text, token, "[REDACTED]") == text
  {
    RedactReplaces(text, token);
  }

  lemma CleanExtraUnchanged(fields: seq<Field>, token: string)
    requires ProperFields(fields) && !FieldsHoldToken(fields, token)
    ensures RedactFields(fields, token) == fields
  {
    hide FieldsHoldToken, Proper;
    CleanFieldsUnchanged(fields, token);
  }

  lemma CleanProblemUnchanged(p: Problem, shown: Problem, token: string)
    requires ProblemReplaced(p, shown, token) && ProperError(ServerProblem(p)) && !ErrorHolds(ServerProblem(p), token)
    ensures shown == p
  {
    hide Contains, Replace, RedactFields, FieldsHoldToken, ProperFields;
    CleanTextUnchanged(p.kind, token);
    CleanTextUnchanged(p.title, token);
    CleanTextUnchanged(p.detail, token);
    CleanTextUnchanged(p.instance, token);
    CleanExtraUnchanged(p.extra, token);
    if p.errors.Some? {
      forall i | 0 <= i < |p.errors.value|
        ensures shown.errors.value[i] == p.errors.value[i]
      {
        var e := p.errors.value[i];
        assert !ValidationErrorHolds(e, token) && ValidationErrorReplaced(e, shown.errors.value[i], token);
        CleanTextUnchanged(e.path, token);
        CleanTextUnchanged(e.message, token);
        CleanExtraUnchanged(e.extra, token);
      }
      assert shown.errors.value == p.errors.value;
    }
  }

  /** Rewrites the texts of an error one by one. */
  method SanitizeRecipientError(err: CliError, token: string) returns (result: CliError)
    ensures result == Sanitized(err, token)
    ensures Leakproof(token, MARK) ==> (ErrorHolds(result, token) <==> Untouched(err, token))
    ensures ErrorReplaced(err, result, token)
    ensures ProperError(err) && !ErrorHolds(err, token) ==> result == err
  {
    hide Redact, RedactFields, Leakproof, ErrorHolds, Untouched, ErrorReplaced, ProperError;
    SanitizedReplaces(err, token);
    if ProperError(err) && !ErrorHolds(err, token) { CleanErrorUnchanged(err, Sanitized(err, token), token); }
    if Leakproof(token, MARK) { SanitizedHoldsExactlyWhen(err, token); }
    result := err;
    match err
    case ServerProblem(original) =>
      var problem := original;
      problem := problem.(kind := Redact(problem.kind, token));
      problem := problem.(title := Redact(problem.title, token));
      problem := problem.(detail := Redact(problem.detail, token));
      problem := problem.(instance := Redact(problem.instance, token));
      if problem.errors.Some? {
        var errors := problem.errors.value;
        for i := 0 to |errors|
          invariant |errors| == |original.errors.value|
          invariant forall k :: 0 <= k < i ==> errors[k] == RedactValidationError(original.errors.value[k], token)
          invariant forall k :: i <= k < |errors| ==> errors[k] == original.errors.value[k]
        {
          var error := errors[i];
          error := error.(path := Redact(error.path, token));
          error := error.(message := Redact(error.message, token));
          var extra := RedactExtra(error.extra, token);
          error := error.(extra := extra);
          errors := errors[i := error];
        }
        assert errors == RedactValidationErrors(original.errors.value, token);
        problem := problem.(errors := Some(errors));
      }
      var extra := RedactExtra(problem.extra, token);
      problem := problem.(extra := extra);
      result := ServerProblem(problem);
    case RedirectRefused(location) => result := RedirectRefused(Redact(location, token));
    case Network(detail) => result := Network(Redact(detail, token));
    case Timeout(detail) => result := Timeout(Redact(detail, token));
    case Usage(detail, errors) => result := Usage(Redact(detail, token), errors);
    case _ =>
  }

  // ----- What is left of the token -----

  /** The places the code does not rewrite: a usage error's nested errors, and three local kinds of error. */
  predicate Untouched(err: CliError, token: string) {
    match err
    case Usage(_, errors) => ValidationErrorsHold(errors, token)
    case Config(detail) => Contains(detail, token)
    case Io(detail) => Contains(detail, token)
    case JsonError(detail) => Contains(detail, token)
    case _ => false
  }

  lemma ValidationErrorClean(e: ValidationError, token: string)
    requires Leakproof(token, MARK)
    ensures !ValidationErrorHolds(RedactValidationError(e, token), token)
  {
    hide Leakproof, Redact, Contains, RedactFields, FieldsHoldToken;
    RedactedClean(e.path, token);
    RedactedClean(e.message, token);
    FieldsClean(e.extra, token);
  }

  lemma ProblemClean(p: Problem, token: string)
    requires Leakproof(token, MARK)
    ensures !ErrorHolds(ServerProblem(RedactProblem(p, token)), token)
  {
    hide Leakproof, Redact, Contains, RedactFields, FieldsHoldToken, ValidationErrorHolds, RedactValidationError;
    RedactedClean(p.kind, token);
    RedactedClean(p.title, token);
    RedactedClean(p.detail, token);
    RedactedClean(p.instance, token);
    FieldsClean(p.extra, token);
    if p.errors.Some? {
      forall i | 0 <= i < |p.errors.value|
        ensures !ValidationErrorHolds(RedactValidationErrors(p.errors.value, token)[i], token)
      {
        ValidationErrorClean(p.errors.value[i], token);
      }
    }
  }

  /** A sanitized error holds the token exactly where the code does not rewrite; server problems never do. */
  lemma SanitizedHoldsExactlyWhen(err: CliError, token: string)
    requires Leakproof(token, MARK)
    ensures ErrorHolds(Sanitized(err, token), token) <==> Untouched(err, token)
  {
    hide Leakproof, Redact, Contains, RedactProblem, ValidationErrorsHold;
    match err
    case ServerProblem(p) => ProblemClean(p, token);
    case RedirectRefused(location) => RedactedClean(location, token);
    case Network(detail) => RedactedClean(detail, token);
    case Timeout(detail) => RedactedClean(detail, token);
    case Usage(detail, _) => RedactedClean(detail, token);
    case _ =>
  }

  // ----- Capability tokens -----

  predicate IsTokenChar(c: char) {
    'A' <= c <= 'Z' || 'a' <= c <= 'z' || '0' <= c <= '9' || c == '_' || c == '-'
  }

  /** `skr1_` and 43 letters, digits, underscores and dashes. */
  predicate IsCapability(token: string) {
    |token| == 48 && token[..5] == "skr1_" && forall i :: 5 <= i < 48 ==> IsTokenChar(token[i])
  }

  /** Every capability token is leakproof, so nothing of the kind above can hold it. */
  lemma CapabilityLeakproof(token: string)
    requires IsCapability(token)
    ensures Leakproof(token, MARK)
  {
    forall i | 0 <= i < |token|
      ensures token[i] != '[' && token[i] != ']'
    {
      if i < 5 { assert token[i] == token[..5][i]; }
    }
    assert MARK == "[" + WORD + "]";
    BracketFreeLeakproof(token, WORD);
  }
}
