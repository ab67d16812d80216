/** The validation hook: asks the API for a project's validation report and keeps three pieces
    of state, whether a request is running, the last error message, and the last report. */
module UseTranslationValidation {
  import opened Wrappers
  import opened Text

  /** One entry of the report, as the client reads it. */
  datatype ValidationResult = ValidationResult(
    key: string,
    category: string,
    missingInterpolations: map<string, seq<string>>,
    inconsistentInterpolations: map<string, seq<string>>)

  /** A value thrown inside the `try`: an `Error` with its message, or anything else. */
  datatype Thrown = ErrorObject(message: string) | NonError

  /** How the awaited calls end: `fetch` rejects, or a response arrives whose body
      `response.json()` either parses or rejects. */
  datatype Reply =
    | Rejects(thrown: Thrown)
    | Responds(ok: bool, status: nat, body: Body)

  datatype Body = Parses(results: seq<ValidationResult>) | ParseThrows(thrown: Thrown)

  const MissingIdMessage: string := "Project ID is required"
  const FallbackMessage: string := "An error occurred during validation"
  const HttpErrorPrefix: string := "HTTP error! status: "

  /** `HTTP error! status: ${response.status}`. */
  function HttpErrorMessage(status: nat): string {
    HttpErrorPrefix + Decimal(status)
  }

  /** The status can be read back from the message, so different statuses give different
      messages. */
  lemma HttpErrorMessageNamesStatus(status: nat)
    ensures HttpErrorMessage(status)[..|HttpErrorPrefix|] == HttpErrorPrefix
    ensures var digits := HttpErrorMessage(status)[|HttpErrorPrefix|..];
      (forall i :: 0 <= i < |digits| ==> '0' <= digits[i] <= '9') && ParseDecimal(digits) == status
  {
    assert HttpErrorMessage(status)[|HttpErrorPrefix|..] == Decimal(status);
    DecimalRoundTrip(status);
  }

  /** `err instanceof Error ? err.message : fallback`. */
  function MessageOf(t: Thrown): string {
    match t
    case ErrorObject(m) => m
    case NonError => FallbackMessage
  }

  /** What the `try` block ends with: the parsed report, or the message the `catch` records. */
  function Settle(reply: Reply): (r: Result<seq<ValidationResult>, string>)
    ensures r.Success? <==> reply.Responds? && reply.ok && reply.body.Parses?
    ensures r.Success? ==> r.value == reply.body.results
    ensures reply.Responds? && !reply.ok ==> r == Failure(HttpErrorMessage(reply.status))
    ensures reply.Rejects? ==> r == Failure(MessageOf(reply.thrown))
    ensures reply.Responds? && reply.ok && reply.body.ParseThrows? ==> r == Failure(MessageOf(reply.body.thrown))
  {
    match reply
    case Rejects(t) => Failure(MessageOf(t))
    case Responds(ok, status, body) =>
      if !ok then Failure(HttpErrorMessage(status))
      else match body
        case Parses(results) => Success(results)
        case ParseThrows(t) => Failure(MessageOf(t))
  }

  /** A failure reported as an HTTP error names the status that caused it, and never reads as
      the fallback message. */
  lemma HttpFailureDistinct(s1: nat, s2: nat)
    requires HttpErrorMessage(s1) == HttpErrorMessage(s2)
    ensures s1 == s2
    ensures HttpErrorMessage(s1) != FallbackMessage && HttpErrorMessage(s1) != MissingIdMessage
  {
    HttpErrorMessageNamesStatus(s1);
    HttpErrorMessageNamesStatus(s2);
    assert HttpErrorMessage(s1)[0] == 'H';
    assert FallbackMessage[0] == 'A' && MissingIdMessage[0] == 'P';
  }

  class ValidationHook {
    var isValidating: bool
    var error: Option<string>
    var validationResults: Option<seq<ValidationResult>>
    /** The project ids a report was requested for, oldest first. */
    ghost var requested: seq<string>

    constructor ()
      ensures !isValidating && error == None && validationResults == None && requested == []
    {
      isValidating := false;
      error := None;
      validationResults := None;
      requested := [];
    }

    /** `validateProject` up to the `await`: an empty id only records the error; any other id
        marks the hook busy, clears the error and sends the request. */
    method Start(projectId: string) returns (started: bool)
      modifies this
      ensures started <==> projectId != ""
      ensures !started ==> error == Some(MissingIdMessage) && isValidating == old(isValidating)
                           && validationResults == old(validationResults) && requested == old(requested)
      ensures started ==> isValidating && error == None && validationResults == old(validationResults)
                          && requested == old(requested) + [projectId]
    {
      if projectId == "" {
        error := Some(MissingIdMessage);
        return false;
      }
      isValidating := true;
      error := None;
      requested := requested + [projectId];
      return true;
    }

    /** The rest of `validateProject`: store the report or the message and the null report,
        then, in `finally`, stop being busy. */
    method Finish(reply: Reply)
      modifies this`isValidating, this`error, this`validationResults
      ensures !isValidating
      ensures Settle(reply).Success? ==> validationResults == Some(Settle(reply).value) && error == old(error)
      ensures Settle(reply).Failure? ==> validationResults == None && error == Some(Settle(reply).error)
    {
      var outcome := Settle(reply);
      if outcome.Success? {
        validationResults := Some(outcome.value);
      } else {
        error := Some(outcome.error);
        validationResults := None;
      }
      isValidating := false;
    }

    /** One whole call, with nothing else happening while it is awaited. */
    method ValidateProject(projectId: string, reply: Reply)
      modifies this
      ensures !isValidating || (projectId == "" && isValidating == old(isValidating))
      ensures projectId == "" ==>
        (error == Some(MissingIdMessage) && validationResults == old(validationResults)
         && requested == old(requested))
      ensures projectId != "" ==> requested == old(requested) + [projectId]
      ensures projectId != "" && Settle(reply).Success? ==>
        (error == None && validationResults == Some(Settle(reply).value))
      ensures projectId != "" && Settle(reply).Failure? ==>
        (error == Some(Settle(reply).error) && validationResults == None)
    {
      var started := Start(projectId);
      if started {
        Finish(reply);
      }
    }
  }
}
