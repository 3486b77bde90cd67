/**
 * The part of an HTTP exchange the server reads and writes. A response writer follows
 * net/http: the header map stays live until the status line is written; writing the status
 * sends a snapshot of the header map, later changes to the map are not sent, only the first
 * status written counts, and writing a body first writes status 200 if none was written.
 */
module Http {
  import opened Base

  /** The fields of an incoming request the server reads; contentType is "" when absent. */
  datatype Request = Request(remoteAddr: string, verb: string, contentType: string, body: string)

  /** A response writer's state: live header map, status once written, header sent with it, body. */
  datatype Response = Response(
    header: map<string, string>,
    status: Option<int>,
    sent: map<string, string>,
    body: string)

  /** The state of the writer handed to a handler. */
  const Fresh := Response(map[], None, map[], "")

  const PlainText := "text/plain; charset=utf-8"

  /** w.Header().Set(key, value) */
  function HeaderSet(w: Response, key: string, value: string): Response
  {
    w.(header := w.header[key := value])
  }

  /** w.WriteHeader(code) */
  function HeaderWritten(w: Response, code: int): (r: Response)
    ensures r.status == (if w.status.Some? then w.status else Some(code))
    ensures r.sent == (if w.status.Some? then w.sent else w.header)
    ensures r.header == w.header && r.body == w.body
  {
    if w.status.Some? then w else w.(status := Some(code), sent := w.header)
  }

  /** w.Write(data) */
  function BodyWritten(w: Response, data: string): (r: Response)
    ensures r.status == (if w.status.Some? then w.status else Some(200))
    ensures r.sent == (if w.status.Some? then w.sent else w.header)
    ensures r.body == w.body + data && r.header == w.header
  {
    var h := HeaderWritten(w, 200);
    h.(body := h.body + data)
  }

  /** What a collaborator (a codec writing its response) does to a writer, in this order. */
  datatype Effects = Effects(header: map<string, string>, status: Option<int>, body: Option<string>)

  function Performed(w: Response, e: Effects): Response
  {
    var w1 := w.(header := w.header + e.header);
    var w2 := if e.status.Some? then HeaderWritten(w1, e.status.value) else w1;
    if e.body.Some? then BodyWritten(w2, e.body.value) else w2
  }

  /**
   * writeError as the source writes it: the status first, then the Content-Type header.
   * The header sent is the one the writer held before the call, so the plain-text
   * Content-Type reaches only the live header map; the message is appended to the body.
   */
  function ErrorWrittenAsWritten(w: Response, status: int, msg: string): (r: Response)
    ensures r.status == (if w.status.Some? then w.status else Some(status))
    ensures r.sent == (if w.status.Some? then w.sent else w.header)
    ensures r.header == w.header["Content-Type" := PlainText] && r.body == w.body + msg
  {
    BodyWritten(HeaderSet(HeaderWritten(w, status), "Content-Type", PlainText), msg)
  }

  /** writeError with the Content-Type header set before the status is written. */
  function ErrorWritten(w: Response, status: int, msg: string): Response
  {
    BodyWritten(HeaderWritten(HeaderSet(w, "Content-Type", PlainText), status), msg)
  }

  /**
   * As written, writeError sets its Content-Type only after the header has been sent, so
   * the header sent with a fresh writer's status does not carry it.
   */
  lemma ErrorAsWrittenSendsNoContentType(status: int, msg: string)
    ensures ErrorWrittenAsWritten(Fresh, status, msg).status == Some(status)
    ensures "Content-Type" !in ErrorWrittenAsWritten(Fresh, status, msg).sent
  {
  }

  /**
   * The corrected writeError on a writer whose status is not yet written sends the given
   * status with the plain-text Content-Type beside every header already set, and appends
   * the message to the body. On a writer whose status was already written it changes
   * neither the status nor the header sent: it only appends the message.
   */
  lemma ErrorWrittenSendsPlainText(w: Response, status: int, msg: string)
    ensures var r := ErrorWritten(w, status, msg);
      r.body == w.body + msg &&
      (w.status.None? ==> r.status == Some(status) && r.sent == w.header["Content-Type" := PlainText]) &&
      (w.status.Some? ==> r.status == w.status && r.sent == w.sent)
  {
  }

  /** http.ResponseWriter */
  class ResponseWriter {
    var header: map<string, string>
    var status: Option<int>
    var sent: map<string, string>
    var body: string

    function State(): Response
      reads this
    {
      Response(header, status, sent, body)
    }

    constructor ()
      ensures State() == Fresh
    {
      header, status, sent, body := map[], None, map[], "";
    }

    method SetHeader(key: string, value: string)
      modifies this
      ensures State() == HeaderSet(old(State()), key, value)
    {
      header := header[key := value];
    }

    method WriteHeader(code: int)
      modifies this
      ensures State() == HeaderWritten(old(State()), code)
    {
      if status.None? {
        status := Some(code);
        sent := header;
      }
    }

    method Write(data: string)
      modifies this
      ensures State() == BodyWritten(old(State()), data)
    {
      WriteHeader(200);
      body := body + data;
    }

    /** Lets a collaborator set headers, write a status and write a body. */
    method Perform(e: Effects)
      modifies this
      ensures State() == Performed(old(State()), e)
    {
      header := header + e.header;
      if e.status.Some? {
        WriteHeader(e.status.value);
      }
      if e.body.Some? {
        Write(e.body.value);
      }
    }
  }

  /** writeError(w, status, msg) in the source's order: status, then Content-Type, then message. */
  method WriteErrorAsWritten(w: ResponseWriter, status: int, msg: string)
    modifies w
    ensures w.State() == ErrorWrittenAsWritten(old(w.State()), status, msg)
  {
    w.WriteHeader(status);
    w.SetHeader("Content-Type", PlainText);
    w.Write(msg);
  }

  /** writeError(w, status, msg), with the header order corrected. */
  method WriteError(w: ResponseWriter, status: int, msg: string)
    modifies w
    ensures w.State() == ErrorWritten(old(w.State()), status, msg)
  {
    w.SetHeader("Content-Type", PlainText);
    w.WriteHeader(status);
    w.Write(msg);
  }
}
