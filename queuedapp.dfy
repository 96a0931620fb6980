/** backend/app.py: the Flask server that validates the print form and puts the job on a queue
    for a background worker, keeping counters of what it has accepted. */
module QueuedApp {
  import opened Common
  import opened FormCheck

  /** The server's state that index() updates: the job queue and the `total_jobs` and
      `queue_length` metrics. The worker thread that takes jobs off the queue is not part of
      this model, so the queue only grows here. */
  class Server {
    var jobQueue: seq<Job>
    var totalJobs: nat
    var queueLength: nat

    /** Every accepted job is on the queue, and `queue_length` was read from it. */
    ghost predicate Valid()
      reads this
    {
      totalJobs == |jobQueue| && queueLength == |jobQueue|
    }

    /** Start-up: an empty queue and zeroed metrics. */
    constructor ()
      ensures Valid()
      ensures jobQueue == [] && totalJobs == 0 && queueLength == 0
    {
      jobQueue := [];
      totalJobs := 0;
      queueLength := 0;
    }

    /** index(): a GET renders the empty page; a POST is validated and, when there are no
        errors, its job is queued, `total_jobs` grows by one, `queue_length` is refreshed and
        the page says "Print job queued!". Otherwise nothing changes and the page lists the
        errors (or Flask answers 400 or 500 when a field is missing or the density is not a
        number). */
    method Index(m: RequestMethod, form: Form) returns (response: Response)
      requires Valid()
      modifies this
      ensures Valid()
      ensures response == Reply(m, form, "Print job queued!")
      ensures Dispatch(m, form).Some? ==>
                && jobQueue == old(jobQueue) + [Dispatch(m, form).value]
                && totalJobs == old(totalJobs) + 1
      ensures Dispatch(m, form).None? ==> jobQueue == old(jobQueue) && totalJobs == old(totalJobs)
      ensures queueLength == |jobQueue|
    {
      if m == Get {
        return Page([], None);
      }
      var v := CheckForm(form);
      match v
      case MissingField =>
        response := BadRequest;
      case IntRaised =>
        response := InternalError;
      case Validated(errors, paths, counts, order, density) =>
        if errors == [] {
          assert !NoPrinterGiven(form.printerAddress);
          var job := Job(form.printerAddress.value, paths, counts, order, density);
          jobQueue := jobQueue + [job];
          totalJobs := totalJobs + 1;
          queueLength := |jobQueue|;
          response := Page([], Some("Print job queued!"));
        } else {
          response := Page(Messages(errors), None);
        }
    }
  }
}
