/** The translate button's single-flight state (script.js,
    `translationInProgress`, `abortController`, `stopTranslation`,
    `updateTranslationState` and the frame of `handleTranslation`): one
    translation at a time, each with its own abort controller, and the
    state reset whatever the request's outcome. */
module Session {
  import opened Wrappers
  import opened Seqs
  import opened Text
  import opened Stream
  import Prompt
  import Api

  /** The part of an `AbortController` the page relies on: whether `abort()`
      has been called on it. */
  class AbortController {
    var aborted: bool

    constructor()
      ensures !aborted
    {
      aborted := false;
    }

    method Abort()
      modifies this
      ensures aborted
    {
      aborted := true;
    }
  }

  /** What `handleTranslation` ends with, as the status line reports it. */
  datatype Outcome =
    | Busy                        // a translation was already running: nothing happens
    | Rejected(message: string)   // the form was refused before any request
    | Completed(translation: string)
    | Stopped                     // the request was aborted
    | Failed(message: string)     // any other error, reported with its message

  /** The `catch` block: an `AbortError` reports a stop, every other error
      its message. */
  function Report(r: Result<string, JsError>): (o: Outcome)
    ensures o.Completed? <==> r.Success?
    ensures o == Stopped <==> r == Failure(AbortError)
    ensures r.Success? ==> o.translation == r.value
    ensures r.Failure? && r.error.Error? ==> o == Failed(r.error.message)
    ensures !o.Busy? && !o.Rejected?
  {
    match r
    case Success(t) => Completed(t)
    case Failure(AbortError) => Stopped
    case Failure(Error(m)) => Failed(m)
  }

  /** The outcome of pressing the button on an idle page: the form is
      checked and turned into a prompt, the request is made with a stream
      callback exactly when streaming is on, and its result is reported. */
  function Handled<Num>(f: Prompt.Form, model: string, temperature: Num, enableStream: bool,
                        groqApiKey: string, deepseekApiKey: string, parse: string -> Payload,
                        reply: Api.Reply): Outcome
  {
    match Prompt.PreparePrompt(f)
    case Failure(m) => Rejected(m)
    case Success(prompt) =>
      Report(Api.GetTranslation(prompt, model, temperature, enableStream, enableStream,
                                groqApiKey, deepseekApiKey, parse, reply))
  }

  /** An empty text is refused with the page's warning whatever the network
      would have done, and no request is made. */
  lemma BlankTextRejected<Num>(f: Prompt.Form, model: string, temperature: Num, enableStream: bool,
                               groqApiKey: string, deepseekApiKey: string, parse: string -> Payload,
                               reply: Api.Reply)
    requires Blank(f.text, JsSpace)
    ensures Handled(f, model, temperature, enableStream, groqApiKey, deepseekApiKey, parse, reply)
         == Rejected("Please enter text to translate.")
  {
  }

  /** A text that is not blank always reaches a request: the outcome is
      the request's, and an abort is reported as a stop, never as an error. */
  lemma TextReachesRequest<Num>(f: Prompt.Form, model: string, temperature: Num, enableStream: bool,
                                groqApiKey: string, deepseekApiKey: string, parse: string -> Payload,
                                reply: Api.Reply)
    requires !Blank(f.text, JsSpace)
    ensures var o := Handled(f, model, temperature, enableStream, groqApiKey, deepseekApiKey, parse, reply);
            var prompt := Prompt.PreparePrompt(f).value;
            var r := Api.GetTranslation(prompt, model, temperature, enableStream, enableStream,
                                        groqApiKey, deepseekApiKey, parse, reply);
      && Prompt.PreparePrompt(f).Success?
      && Contains(prompt, Trim(f.text, JsSpace))
      && (o == Stopped <==> r == Failure(AbortError))
      && (o.Completed? <==> r.Success?)
      && (o.Completed? ==> Api.Ready(prompt, model, groqApiKey, deepseekApiKey))
  {
  }

  /** The page's translation state. */
  class TranslationSession {
    var translationInProgress: bool
    var abortController: AbortController?

    /** A controller exists exactly while a translation runs. */
    predicate Valid()
      reads this
    {
      translationInProgress <==> abortController != null
    }

    constructor()
      ensures Valid() && !translationInProgress && abortController == null
    {
      translationInProgress := false;
      abortController := null;
    }

    /** The flag part of `updateTranslationState`; the buttons it enables
        and disables are not modelled. */
    method UpdateTranslationState(isTranslating: bool)
      modifies this
      ensures translationInProgress == isTranslating
      ensures abortController == old(abortController)
    {
      translationInProgress := isTranslating;
    }

    /** `stopTranslation`: the running request's controller is aborted and
        dropped, and the page is idle. */
    method StopTranslation()
      modifies this, abortController
      ensures old(abortController) != null ==> old(abortController).aborted
      ensures Valid() && !translationInProgress && abortController == null
    {
      if abortController != null {
        abortController.Abort();
        abortController := null;
      }
      UpdateTranslationState(false);
    }

    /** The part of `handleTranslation` before the request, given what
        `PreparePrompt` made of the form: refused while a translation runs
        or when the form was refused, both leaving the state as it was;
        otherwise the prompt is returned and the page is busy with a new
        controller that has not been aborted. */
    method Begin(prepared: Result<string, string>) returns (r: Result<string, Outcome>)
      requires Valid()
      modifies this
      ensures Valid()
      ensures old(translationInProgress) ==> r == Failure(Busy) && unchanged(this)
      ensures !old(translationInProgress) && prepared.Failure? ==>
                r == Failure(Rejected(prepared.error)) && unchanged(this)
      ensures !old(translationInProgress) && prepared.Success? ==>
                && r == Success(prepared.value)
                && translationInProgress && fresh(abortController) && !abortController.aborted
    {
      if translationInProgress {
        return Failure(Busy);
      }
      if prepared.Failure? {
        return Failure(Rejected(prepared.error));
      }
      UpdateTranslationState(true);
      abortController := new AbortController();
      return Success(prepared.value);
    }

    /** The `finally` block: the page is idle again, whatever the request
        did. */
    method Finish()
      modifies this
      ensures Valid() && !translationInProgress && abortController == null
    {
      UpdateTranslationState(false);
      abortController := null;
    }

    /** `handleTranslation` with the request's reply given: a press while a
        translation runs does nothing; otherwise the outcome is the one
        `Handled` describes and the page ends idle. */
    method HandleTranslation<Num>(f: Prompt.Form, model: string, temperature: Num, enableStream: bool,
                                  groqApiKey: string, deepseekApiKey: string, parse: string -> Payload,
                                  reply: Api.Reply)
      returns (outcome: Outcome)
      requires Valid()
      modifies this
      ensures Valid()
      ensures old(translationInProgress) ==> outcome == Busy && unchanged(this)
      ensures !old(translationInProgress) ==>
                && outcome == Handled(f, model, temperature, enableStream, groqApiKey, deepseekApiKey, parse, reply)
                && !translationInProgress && abortController == null
    {
      var started := Begin(Prompt.PreparePrompt(f));
      if started.Failure? {
        return started.error;
      }
      var translation := Api.GetTranslation(started.value, model, temperature, enableStream, enableStream,
                                            groqApiKey, deepseekApiKey, parse, reply);
      outcome := Report(translation);
      Finish();
    }
  }
}
