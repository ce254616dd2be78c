/**
 The "Generate STD" action as a transition on the session's list of test
 cases. The chat service and the JSON reader are outside the model: they come
 in as functions, the chat service possibly failing (`None`), the reader
 possibly rejecting its input (`None`).
 */
module Session {
  import opened Wrappers
  import opened Records
  import Prompt
  import Extract

  /** The three models offered in the sidebar. */
  datatype ModelChoice = Gpt4oMini | Gpt4 | Gpt35Turbo

  function ModelName(m: ModelChoice): string {
    match m
    case Gpt4oMini => "gpt-4o-mini"
    case Gpt4 => "gpt-4"
    case Gpt35Turbo => "gpt-3.5-turbo"
  }

  const SystemInstruction: string := "You are a test case generator."
  const Temperature: real := 0.3
  const MaxTokens: nat := 1500

  /** One chat-completion call: model, system message, user message and sampling settings. */
  datatype ChatRequest = ChatRequest(model: string, system: string, user: string, temperature: real, maxTokens: nat)

  /** The sidebar inputs at the moment the button is pressed. */
  datatype Form = Form(
    featureName: string,
    characterization: string,
    upload: Option<string>,
    captions: seq<string>,
    model: ModelChoice)

  /** How a generate action ended. */
  datatype Status = InputMissing | TransportFailed | ParseFailed(raw: string) | Replaced

  datatype Outcome = Outcome(tests: seq<TestCase>, status: Status)

  /** The specification text: the uploaded file whenever there is one, else the text area. */
  function SpecText(form: Form): string {
    match form.upload
    case Some(contents) => contents
    case None => form.characterization
  }

  /** The request sent for a form. */
  function Request(form: Form): ChatRequest {
    ChatRequest(ModelName(form.model), SystemInstruction,
      Prompt.Build(Prompt.Testmo, form.featureName, SpecText(form), form.captions), Temperature, MaxTokens)
  }

  /** What a generate action for `form` installs in the session, if anything; it does not depend on the session. */
  function Installed(form: Form, chat: ChatRequest -> Option<string>, read: string -> Option<seq<TestCase>>)
    : Option<seq<TestCase>>
  {
    if form.featureName == "" || SpecText(form) == "" then None
    else
      match chat(Request(form))
      case None => None
      case Some(raw) => read(Extract.ExtractJsonArray(raw))
  }

  /** Pressing "Generate STD" with session list `tests`. */
  function Generate(tests: seq<TestCase>, form: Form,
                    chat: ChatRequest -> Option<string>, read: string -> Option<seq<TestCase>>): (o: Outcome)
    ensures o.status == InputMissing <==> form.featureName == "" || SpecText(form) == ""
    ensures o.status == TransportFailed <==>
      form.featureName != "" && SpecText(form) != "" && chat(Request(form)).None?
    ensures o.status.ParseFailed? ==>
      && chat(Request(form)) == Some(o.status.raw)
      && read(Extract.ExtractJsonArray(o.status.raw)).None?
    ensures o.status == Replaced <==> Installed(form, chat, read).Some?
    ensures o.status == Replaced ==> Installed(form, chat, read) == Some(o.tests)
    ensures o.status != Replaced ==> o.tests == tests
  {
    var spec := SpecText(form);
    if form.featureName == "" || spec == "" then Outcome(tests, InputMissing)
    else
      match chat(Request(form))
      case None => Outcome(tests, TransportFailed)
      case Some(raw) =>
        match read(Extract.ExtractJsonArray(raw))
        case Some(records) => Outcome(records, Replaced)
        case None => Outcome(tests, ParseFailed(raw))
  }

  /** A successful generate replaces the list wholesale: the previous list plays no part. */
  lemma ReplaceIgnoresPreviousList(tests1: seq<TestCase>, tests2: seq<TestCase>, form: Form,
                                   chat: ChatRequest -> Option<string>, read: string -> Option<seq<TestCase>>)
    requires Generate(tests1, form, chat, read).status == Replaced
    ensures Generate(tests2, form, chat, read) == Generate(tests1, form, chat, read)
  {
  }

  /** With a file uploaded, the text area is ignored, even when the file is empty. */
  lemma UploadOverridesTextArea(tests: seq<TestCase>, form: Form, other: string,
                                chat: ChatRequest -> Option<string>, read: string -> Option<seq<TestCase>>)
    requires form.upload.Some?
    ensures Generate(tests, form.(characterization := other), chat, read) == Generate(tests, form, chat, read)
    ensures form.upload == Some("") ==> Generate(tests, form, chat, read) == Outcome(tests, InputMissing)
  {
    assert Request(form.(characterization := other)) == Request(form);
  }

  /** One press of the button with its form and the chat service's behaviour at that moment. */
  datatype Attempt = Attempt(form: Form, chat: ChatRequest -> Option<string>)

  /** The session list after a run of generate actions. */
  function Run(tests: seq<TestCase>, attempts: seq<Attempt>, read: string -> Option<seq<TestCase>>): seq<TestCase>
  {
    if |attempts| == 0 then tests
    else
      var last := attempts[|attempts| - 1];
      Generate(Run(tests, attempts[..|attempts| - 1], read), last.form, last.chat, read).tests
  }

  /** What each attempt of a run would install, in order. */
  function Installs(attempts: seq<Attempt>, read: string -> Option<seq<TestCase>>): (r: seq<Option<seq<TestCase>>>)
    ensures |r| == |attempts|
  {
    seq(|attempts|, k requires 0 <= k < |attempts| => Installed(attempts[k].form, attempts[k].chat, read))
  }

  /** The value of the latest `Some` among `installs`, else `initial`. */
  function Latest<T>(initial: T, installs: seq<Option<T>>): T
  {
    if |installs| == 0 then initial
    else
      match installs[|installs| - 1]
      case Some(v) => v
      case None => Latest(initial, installs[..|installs| - 1])
  }

  /** The session always holds what the latest successful generate installed: lists are never merged. */
  lemma {:induction false} RunHoldsLatestInstalled(tests: seq<TestCase>, attempts: seq<Attempt>,
                                                   read: string -> Option<seq<TestCase>>)
    ensures Run(tests, attempts, read) == Latest(tests, Installs(attempts, read))
  {
    if |attempts| > 0 {
      var n := |attempts| - 1;
      RunHoldsLatestInstalled(tests, attempts[..n], read);
      assert Installs(attempts, read)[..n] == Installs(attempts[..n], read);
    }
  }

  /** Once any attempt has installed records, the starting list no longer matters. */
  lemma RunForgetsInitialList(tests1: seq<TestCase>, tests2: seq<TestCase>,
                              attempts: seq<Attempt>, read: string -> Option<seq<TestCase>>, k: nat)
    requires k < |attempts|
    requires Installed(attempts[k].form, attempts[k].chat, read).Some?
    ensures Run(tests1, attempts, read) == Run(tests2, attempts, read)
  {
    RunHoldsLatestInstalled(tests1, attempts, read);
    RunHoldsLatestInstalled(tests2, attempts, read);
    LatestIgnoresInitial(tests1, tests2, Installs(attempts, read), k);
  }

  /** After a `Some`, the starting value is forgotten. */
  lemma {:induction false} LatestIgnoresInitial<T>(a: T, b: T, installs: seq<Option<T>>, k: nat)
    requires k < |installs| && installs[k].Some?
    ensures Latest(a, installs) == Latest(b, installs)
  {
    var n := |installs| - 1;
    if k < n && installs[n].None? {
      assert installs[..n][k] == installs[k];
      LatestIgnoresInitial(a, b, installs[..n], k);
    }
  }
}
