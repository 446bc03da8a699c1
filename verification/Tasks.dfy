/** One job: from the request to the reply. */
module Tasks {
  import opened Wrappers
  import opened Messages
  import opened MessageBus

  /** What a job's `run` did: it returned, having filled the output or not, or it threw `job::Error`
      and left part of the output behind. */
  datatype JobResult =
    | Finished(out: Option<string>)
    | Threw(partial: Option<string>, text: string)

  /** A kind of job: how its payload is parsed, what it does, and how an output that was never filled
      is written ("[]", "{}" or nothing). */
  datatype Job = Job(decode: string -> Option<string>, run: string -> JobResult, emptyText: string)

  const PAYLOAD_EMPTY := "Wrong input data: payload is empty"
  const PAYLOAD_INCORRECT := "Wrong input data: format of payload is incorrect"

  const NO_META := Meta("", "", "", "", StatusOk, "", "")

  /** `Response`: filled step by step while the job runs. */
  class Response {
    var error: string
    var status: Status
    var out: Option<string>

    constructor ()
      ensures error == "" && status == StatusOk && out == None
    {
      error, status, out := "", StatusOk, None;
    }

    method SetError(errMsg: string)
      modifies this`error, this`status
      ensures error == errMsg && status == StatusError
    {
      error := errMsg;
      status := StatusError;
    }

    /** The conversion to a message. */
    method ToMessage(emptyText: string) returns (msg: Message)
      ensures fresh(msg) && msg.meta == NO_META.(status := status)
      ensures msg.userData == if status == StatusError then error else if out.Some? then out.value else emptyText
    {
      msg := new Message(Packet(NO_META.(status := status), ""));
      if status == StatusOk {
        if out.Some? {
          msg.userData := out.value;
        } else {
          msg.userData := emptyText;
        }
      } else {
        msg.userData := error;
      }
    }
  }

  /** How a job on this payload ends: the text of its value, or of its error. */
  function Outcome(job: Job, payload: string): Expected<string> {
    if payload == "" then Err(PAYLOAD_EMPTY)
    else match (job.decode)(payload)
      case None => Err(PAYLOAD_INCORRECT)
      case Some(cmd) =>
        match (job.run)(cmd)
        case Threw(_, text) => Err(text)
        case Finished(out) => Ok(if out.Some? then out.value else job.emptyText)
  }

  /** The packet says how the job on this payload ends: an empty or an unreadable payload and what the job
      threw are errors with their text, what a job that returned left is a value. */
  ghost predicate Carries(job: Job, payload: string, p: Packet) {
    && (payload == "" ==> p.meta.status == StatusError && p.userData == PAYLOAD_EMPTY)
    && (payload != "" ==>
          match (job.decode)(payload)
          case None => p.meta.status == StatusError && p.userData == PAYLOAD_INCORRECT
          case Some(cmd) =>
            match (job.run)(cmd)
            case Threw(_, text) => p.meta.status == StatusError && p.userData == text
            case Finished(Some(text)) => p.meta.status == StatusOk && p.userData == text
            case Finished(None) => p.meta.status == StatusOk && p.userData == job.emptyText)
  }

  /** The reply to a request. */
  function ReplyTo(req: Packet, job: Job): Packet {
    var outcome := Outcome(job, req.userData);
    Packet(
      Answering(NO_META.(status := if outcome.Ok? then StatusOk else StatusError), req.meta),
      match outcome case Ok(text) => text case Err(text) => text)
  }

  /** `Task::operator()`: whatever happens to the job, one reply is handed to the bus, once. */
  method Work(input: Message, bus: Bus, job: Job, posted: Expected<()>)
    modifies bus
    ensures bus.replied == old(bus.replied) + [ToWire(ReplyTo(input.View(), job))]
    ensures bus.requested == old(bus.requested)
    ensures var p := ReplyTo(input.View(), job);
            && p.meta.correlationId == input.meta.correlationId
            && p.meta.to == input.meta.from && p.meta.from == input.meta.to
            && Carries(job, input.userData, p)
  {
    var response := new Response();
    var thrown := RunJob(input, job, response);
    if thrown.None? {
      response.status := StatusOk;
      var answ := response.ToMessage(job.emptyText);
      var res := bus.Reply(input, answ, posted);
    } else {
      response.SetError(thrown.value);
      var answ := response.ToMessage(job.emptyText);
      var res := bus.Reply(input, answ, posted);
    }
  }

  /** The `try` block: the text that was thrown, if any. */
  method RunJob(input: Message, job: Job, response: Response) returns (thrown: Option<string>)
    modifies response`out
    ensures input.userData == "" ==> thrown == Some(PAYLOAD_EMPTY)
    ensures input.userData != "" && (job.decode)(input.userData).None? ==> thrown == Some(PAYLOAD_INCORRECT)
    ensures input.userData != "" && (job.decode)(input.userData).Some? ==>
            match (job.run)((job.decode)(input.userData).value)
            case Finished(out) => thrown == None && response.out == out
            case Threw(_, text) => thrown == Some(text)
    ensures match Outcome(job, input.userData)
            case Err(text) => thrown == Some(text)
            case Ok(text) => thrown == None && text == if response.out.Some? then response.out.value else job.emptyText
  {
    if input.userData == "" {
      return Some(PAYLOAD_EMPTY);
    }
    var cmd := (job.decode)(input.userData);
    if cmd.None? {
      return Some(PAYLOAD_INCORRECT);
    }
    match (job.run)(cmd.value) {
      case Finished(out) =>
        response.out := out;
        return None;
      case Threw(partial, text) =>
        response.out := partial;
        return Some(text);
    }
  }

  /** From the job to the client, whatever the meta data of the request are: an empty payload and one that
      cannot be read give the client exactly these errors; otherwise it gets a value exactly when the job
      returned, with the text of its output, and exactly the text that was thrown when it did not. */
  lemma FaithfulResult(req: Packet, job: Job)
    ensures var got := ClientResult(Ok(ToWire(ReplyTo(req, job))));
            && (req.userData == "" ==> got == Err(PAYLOAD_EMPTY))
            && (req.userData != "" ==>
                  match (job.decode)(req.userData)
                  case None => got == Err(PAYLOAD_INCORRECT)
                  case Some(cmd) =>
                    match (job.run)(cmd)
                    case Finished(Some(text)) => got.Ok? && got.value.userData == text
                    case Finished(None) => got.Ok? && got.value.userData == job.emptyText
                    case Threw(_, text) => got == Err(text))
  {
    WireRoundTrip(ReplyTo(req, job));
  }
}
