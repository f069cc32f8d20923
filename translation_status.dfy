/** What the status line of the document page shows for a status and the
    current error message. */
module TranslationStatus {
  import opened App

  /** The status's name as the page spells it. */
  function StatusName(s: Status): (r: string)
    ensures r != []
  {
    match s
    case Idle => "idle"
    case Uploading => "uploading"
    case Translating => "translating"
    case Downloading => "downloading"
    case Completed => "completed"
    case Error => "error"
  }

  /** Different statuses have different names, so their labels differ. */
  lemma StatusNamesDistinct(a: Status, b: Status)
    requires a != b
    ensures StatusName(a) != StatusName(b)
  {
  }

  /** Nothing, the error message in the error style, or a locale label. */
  datatype Rendered = Nothing | ErrorText(message: string) | Label(key: string)

  /** An error with a message shows the message; idle and completed show
      nothing; every other status, an error without a message included,
      shows the label `status.<name>`. */
  function Render(status: Status, errorMessage: string): (r: Rendered)
    ensures status == Error && errorMessage != "" ==> r == ErrorText(errorMessage)
    ensures status == Error && errorMessage == "" ==> r == Label("status.error")
    ensures status in {Idle, Completed} <==> r == Nothing
    ensures status in {Uploading, Translating, Downloading} ==> r == Label("status." + StatusName(status))
    ensures r.ErrorText? ==> status == Error
  {
    assert "status." + StatusName(Error) == "status.error";
    if status == Error && errorMessage != "" then ErrorText(errorMessage)
    else if status == Idle || status == Completed then Nothing
    else Label("status." + StatusName(status))
  }

  /** The message passed in is shown only for an error, and a running job
      always shows which phase it is in. */
  lemma RenderMeaning(status: Status, errorMessage: string)
    ensures Render(status, errorMessage).ErrorText? <==> status == Error && errorMessage != ""
    ensures InputsDisabled(status) ==> Render(status, errorMessage).Label?
  {
  }
}
