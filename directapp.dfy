/** app.py: the Flask server that validates the print form and prints the job at once, waiting
    for print_job to finish. */
module DirectApp {
  import opened Common
  import opened FormCheck

  /** The answer to a request. `printCompletes` stands for the Bluetooth side of print_job
      (connecting, loading the images, writing); print_job also raises on a density outside
      0 .. 255. A raise inside the handler makes Flask answer 500. */
  function Answer(m: RequestMethod, form: Form, printCompletes: bool): (r: Response)
    ensures m == Get ==> r == Page([], None)
    ensures r == BadRequest <==> m == Post && (form.counts.None? || (ParseIndexList(form.counts.value).Some? && form.order.None?))
    ensures r.Page? && r.successMessage.Some? ==>
              && r.errorMessages == []
              && printCompletes && Dispatch(m, form).Some? && 0 <= Dispatch(m, form).value.density < 256
    ensures Dispatch(m, form).Some? && !printCompletes ==> r == InternalError
  {
    match Dispatch(m, form)
    case Some(job) =>
      if printCompletes && 0 <= job.density < 256 then Reply(m, form, "Print job dispatched!") else InternalError
    case None => Reply(m, form, "Print job dispatched!")
  }

  /** index(): a GET renders the empty page; a POST is validated and, when there are no errors,
      the job is printed before the page is rendered. `printed` is the job handed to print_job. */
  method Index(m: RequestMethod, form: Form, printCompletes: bool) returns (response: Response, printed: Option<Job>)
    ensures printed == Dispatch(m, form)
    ensures response == Answer(m, form, printCompletes)
  {
    if m == Get {
      return Page([], None), None;
    }
    var v := CheckForm(form);
    match v
    case MissingField =>
      response, printed := BadRequest, None;
    case IntRaised =>
      response, printed := InternalError, None;
    case Validated(errors, paths, counts, order, density) =>
      if errors == [] {
        assert !NoPrinterGiven(form.printerAddress);
        var job := Job(form.printerAddress.value, paths, counts, order, density);
        assert Dispatch(m, form) == Some(job);
        printed := Some(job);
        if printCompletes && 0 <= density < 256 {
          response := Page([], Some("Print job dispatched!"));
        } else {
          response := InternalError;
        }
      } else {
        response, printed := Page(Messages(errors), None), None;
      }
  }

  /** The page says "Print job dispatched!" exactly when the form is valid, the density is a
      byte and printing completes; a valid form whose printing raises gets a 500. */
  lemma {:induction false} DispatchedIff(form: Form, printCompletes: bool)
    ensures Answer(Post, form, printCompletes) == Page([], Some("Print job dispatched!")) <==>
              Dispatch(Post, form).Some? && printCompletes && 0 <= Dispatch(Post, form).value.density < 256
    ensures Dispatch(Post, form).Some? && !(printCompletes && 0 <= Dispatch(Post, form).value.density < 256) ==>
              Answer(Post, form, printCompletes) == InternalError
  {
    ReplySuccessIff(form, "Print job dispatched!");
  }
}
