/** The HTTP handlers of the PDF tool (app.py), each as a pure step from the
    usage file to a response and the next usage file. The PDF library and the
    upload saving it depends on are one opaque outcome, `pdfOk`: true when the
    output file was written, false when anything on the way raised. */
module Handlers {
  import opened Wrappers
  import opened UsageStore
  import opened QuotaGate

  /** The shared secret the reset endpoint compares against. */
  const ADMIN_KEY: string := "admin123"

  /** An incoming request, reduced to what the handlers inspect. For the
      protect form, `pdf` is the file name of the uploaded `pdf` field and
      `password` the `password` field; None means the field was not sent. */
  datatype Request =
    | Home
    | MergeForm
    | MergeSubmit
    | ProtectForm
    | ProtectSubmit(pdf: Option<string>, password: Option<string>)
    | ResetRequest(key: Option<string>)

  /** What a successful action streams back as an attachment. */
  datatype Artifact = MergedPdf | ProtectedPdf

  datatype Response =
    | Landing                 // the home page
    | Form(remaining: int)    // a merge or protect form showing the quota left
    | Download(artifact: Artifact)
    | LimitReached            // the daily-limit refusal
    | MissingInput            // protect without a file name or password
    | BadRequest              // a required form field was not sent at all
    | Unauthorized            // reset with the wrong key
    | ResetDone
    | ServerError             // an exception escaped the handler

  /** One handled request: the response and the usage file left behind. */
  datatype Step = Step(response: Response, file: UsageFile)

  /** The HTTP status each response is sent with. The missing-input message
      goes out as 200, like a success. */
  function Status(r: Response): int
  {
    match r
    case LimitReached => 403
    case Unauthorized => 403
    case BadRequest => 400
    case ServerError => 500
    case _ => 200
  }

  /** The plain-text body of the responses that carry one. */
  function Message(r: Response): Option<string>
  {
    match r
    case LimitReached => Some("\U{274C} Daily usage limit reached (5 actions/day). Upgrade to continue.")
    case MissingInput => Some("Please upload a PDF and enter a password.")
    case Unauthorized => Some("Unauthorized")
    case ResetDone => Some("\U{2705} Usage reset successfully for today.")
    case _ => None
  }

  /** The tail both actions share once the output file exists: count the
      action, then send the file. */
  function Commit(f: UsageFile, today: Date, a: Artifact): (st: Step)
    ensures st.response.Download? <==> !f.Malformed?
    ensures st.response.Download? ==> st.response.artifact == a && IncrementedOn(f, st.file, today)
    ensures !st.response.Download? ==> st == Step(ServerError, f)
  {
    match UpdateUsageCount(f, today)
    case None => Step(ServerError, f)
    case Some(g) => Step(Download(a), g)
  }

  /** POST /merge: the quota gate, then the merge, then one increment. No
      check is made on the uploaded files; an empty or unreadable upload is
      whatever the PDF library makes of it, folded into `pdfOk`. */
  function MergeSubmitStep(f: UsageFile, today: Date, pdfOk: bool): (st: Step)
    ensures f.Malformed? ==> st == Step(ServerError, f)
    ensures GetUsageCount(f, today).Some? && !Allowed(GetUsageCount(f, today).value) ==>
              st == Step(LimitReached, f)
    ensures GetUsageCount(f, today).Some? && Allowed(GetUsageCount(f, today).value) && !pdfOk ==>
              st == Step(ServerError, f)
    ensures st.response.Download? <==>
              GetUsageCount(f, today).Some? && Allowed(GetUsageCount(f, today).value) && pdfOk
    ensures st.response.Download? ==> st.response == Download(MergedPdf) && IncrementedOn(f, st.file, today)
    ensures !st.response.Download? ==> st.file == f
  {
    match GetUsageCount(f, today)
    case None => Step(ServerError, f)
    case Some(count) =>
      if !Allowed(count) then Step(LimitReached, f)
      else if !pdfOk then Step(ServerError, f)
      else Commit(f, today, MergedPdf)
  }

  /** The validation the protect handler runs after the gate: both fields must
      be sent, and neither the file name nor the password may be empty. */
  function ValidateProtect(pdf: Option<string>, password: Option<string>): (r: Option<Response>)
    ensures r == None <==> pdf.Some? && password.Some? && pdf.value != "" && password.value != ""
    ensures r.Some? ==> r.value == (if pdf.None? || password.None? then BadRequest else MissingInput)
  {
    if pdf.None? || password.None? then Some(BadRequest)
    else if pdf.value == "" || password.value == "" then Some(MissingInput)
    else None
  }

  /** POST /protect: the quota gate, then input validation, then encryption,
      then one increment. A refused or invalid request leaves the file alone. */
  function ProtectSubmitStep(f: UsageFile, today: Date, pdf: Option<string>, password: Option<string>,
                             pdfOk: bool): (st: Step)
    ensures f.Malformed? ==> st == Step(ServerError, f)
    ensures GetUsageCount(f, today).Some? && !Allowed(GetUsageCount(f, today).value) ==>
              st == Step(LimitReached, f)
    ensures GetUsageCount(f, today).Some? && Allowed(GetUsageCount(f, today).value)
            && ValidateProtect(pdf, password).Some? ==>
              st == Step(ValidateProtect(pdf, password).value, f)
    ensures GetUsageCount(f, today).Some? && Allowed(GetUsageCount(f, today).value)
            && ValidateProtect(pdf, password).None? && !pdfOk ==>
              st == Step(ServerError, f)
    ensures st.response.Download? <==>
              GetUsageCount(f, today).Some? && Allowed(GetUsageCount(f, today).value)
              && ValidateProtect(pdf, password).None? && pdfOk
    ensures st.response.Download? ==> st.response == Download(ProtectedPdf) && IncrementedOn(f, st.file, today)
    ensures !st.response.Download? ==> st.file == f
  {
    match GetUsageCount(f, today)
    case None => Step(ServerError, f)
    case Some(count) =>
      if !Allowed(count) then Step(LimitReached, f)
      else match ValidateProtect(pdf, password)
        case Some(rejection) => Step(rejection, f)
        case None =>
          if !pdfOk then Step(ServerError, f)
          else Commit(f, today, ProtectedPdf)
  }

  /** GET /merge and GET /protect: render the form with the quota left today.
      Reading never writes. */
  function FormStep(f: UsageFile, today: Date): (st: Step)
    ensures st.file == f
    ensures f.Malformed? <==> st.response == ServerError
    ensures !f.Malformed? ==> st.response == Form(USAGE_LIMIT - GetUsageCount(f, today).value)
  {
    match GetUsageCount(f, today)
    case None => Step(ServerError, f)
    case Some(count) => Step(Form(USAGE_LIMIT - count), f)
  }

  /** POST /reset-usage: a wrong or missing key is refused before the file is
      read; the right key zeroes today's entry if there is one and reports
      success either way. */
  function ResetStep(f: UsageFile, today: Date, key: Option<string>): (st: Step)
    ensures key != Some(ADMIN_KEY) ==> st == Step(Unauthorized, f)
    ensures key == Some(ADMIN_KEY) && f.Malformed? ==> st == Step(ServerError, f)
    ensures key == Some(ADMIN_KEY) && !f.Malformed? ==>
              st.response == ResetDone && AgreeExcept(f, st.file, today)
    ensures key == Some(ADMIN_KEY) && !f.Malformed? && today in LoadUsage(f).value ==>
              st.file.Written? && today in st.file.data && GetUsageCount(st.file, today) == Some(0)
    ensures key == Some(ADMIN_KEY) && !f.Malformed? && today !in LoadUsage(f).value ==>
              st.file == f
  {
    if key != Some(ADMIN_KEY) then Step(Unauthorized, f)
    else match ResetUsage(f, today)
      case None => Step(ServerError, f)
      case Some(g) => Step(ResetDone, g)
  }

  /** Routes a request to its handler. Whatever the request, the file keeps
      reading alike and no date other than today changes. */
  function Handle(f: UsageFile, today: Date, req: Request, pdfOk: bool): (st: Step)
    ensures AgreeExcept(f, st.file, today)
    ensures st.file.Malformed? <==> f.Malformed?
  {
    match req
    case Home => Step(Landing, f)
    case MergeForm => FormStep(f, today)
    case MergeSubmit => MergeSubmitStep(f, today, pdfOk)
    case ProtectForm => FormStep(f, today)
    case ProtectSubmit(pdf, password) => ProtectSubmitStep(f, today, pdf, password, pdfOk)
    case ResetRequest(key) => ResetStep(f, today, key)
  }

  /** Merge and protect spend one budget: a valid protect and a merge under the
      same conditions both succeed or both fail, and leave the same file. */
  lemma SharedBudget(f: UsageFile, today: Date, name: string, password: string, pdfOk: bool)
    requires name != "" && password != ""
    ensures var m := MergeSubmitStep(f, today, pdfOk);
            var p := ProtectSubmitStep(f, today, Some(name), Some(password), pdfOk);
            m.file == p.file && (m.response.Download? <==> p.response.Download?)
  {
  }

  /** Only a successful action or an authorised reset can change the usage
      file; every refusal, validation failure, error and page view leaves it
      exactly as it was. */
  lemma OnlySuccessWrites(f: UsageFile, today: Date, req: Request, pdfOk: bool)
    ensures var st := Handle(f, today, req, pdfOk);
            st.file != f ==> st.response.Download? || st.response == ResetDone
  {
  }

  /** The plain-text replies and their statuses: 403 with the quota message
      or "Unauthorized" for the two refusals, while the missing-input message
      and the reset confirmation are sent as 200. */
  lemma RefusalStatuses()
    ensures Status(LimitReached) == 403
    ensures Message(LimitReached)
              == Some("\U{274C} Daily usage limit reached (5 actions/day). Upgrade to continue.")
    ensures Status(Unauthorized) == 403 && Message(Unauthorized) == Some("Unauthorized")
    ensures Status(MissingInput) == 200
    ensures Message(MissingInput) == Some("Please upload a PDF and enter a password.")
    ensures Status(ResetDone) == 200
    ensures Message(ResetDone) == Some("\U{2705} Usage reset successfully for today.")
  {
  }
}
