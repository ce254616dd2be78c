/**
 Facts that follow one generate action through to the review page.
 */
module Pipeline {
  import opened Wrappers
  import opened Records
  import Session
  import Export

  /**
   A reply whose objects lack `title` is not rejected by generation: the
   reader accepts it, the session list is replaced, and the review page can no
   longer produce a file. When every case before the untitled one renders, the
   page stops on the missing key.
   */
  lemma MissingTitleReplacesThenStopsRender(
    tests: seq<TestCase>, form: Session.Form,
    chat: Session.ChatRequest -> Option<string>, read: string -> Option<seq<TestCase>>,
    selectAll: bool, stored: map<int, bool>, k: nat)
    requires Session.Installed(form, chat, read).Some?
    requires k < |Session.Installed(form, chat, read).value|
    requires Session.Installed(form, chat, read).value[k].title.Absent?
    ensures Session.Generate(tests, form, chat, read).status == Session.Replaced
    ensures !Export.DownloadCsv(Session.Generate(tests, form, chat, read).tests, selectAll, stored, form.featureName).Csv?
    ensures Export.RendersBefore(Session.Installed(form, chat, read).value, k) ==>
      Export.DownloadCsv(Session.Generate(tests, form, chat, read).tests, selectAll, stored, form.featureName)
        == Export.KeyError("title")
  {
    var after := Session.Generate(tests, form, chat, read).tests;
    assert !Export.Renders(after[k]);
  }

  /** A generate that fails leaves the review page exactly as it was. */
  lemma FailedGenerateKeepsDownload(
    tests: seq<TestCase>, form: Session.Form,
    chat: Session.ChatRequest -> Option<string>, read: string -> Option<seq<TestCase>>,
    selectAll: bool, stored: map<int, bool>, feature: string)
    requires Session.Installed(form, chat, read).None?
    ensures Export.DownloadCsv(Session.Generate(tests, form, chat, read).tests, selectAll, stored, feature)
      == Export.DownloadCsv(tests, selectAll, stored, feature)
  {
  }
}
