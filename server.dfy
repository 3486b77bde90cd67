/**
 * The RPC server: a codec table keyed by media type, a service registry, and an allow
 * list of client IP addresses, together with the per-request handler that admits a
 * client, selects a codec, resolves the method, decodes its argument, invokes it and lets
 * the codec write the response.
 */
module Rpc {
  import opened Base
  import opened ContentType
  import opened NetIP
  import opened Http

  const ErrEmptyBindLocal := "rpc: local address list is empty"
  const ErrMalformedRemoteIp := "rpc: remote client rejected, cannot read its IP"
  const ErrRemoteNotAllowed := "rpc: remote client rejected, not allowed by the server"

  /** The header that stops browsers from sniffing a response's content type. */
  const NoSniffHeader := "x-content-type-options"

  /** Why a client was refused admission. */
  datatype ClientError =
    | Malformed(cause: Option<string>)   // the address could not be split (cause) or its host is no IP
    | NotAllowed

  /**
   * The text of a refusal, which the 403 response carries: a malformed address is told
   * apart from a refused one by its prefix, and a splitting error follows that prefix.
   */
  function ClientErrorText(e: ClientError): (t: string)
    ensures e.Malformed? <==> ErrMalformedRemoteIp <= t
    ensures e == NotAllowed ==> t == ErrRemoteNotAllowed
    ensures e == Malformed(None) ==> t == ErrMalformedRemoteIp
    ensures e.Malformed? && e.cause.Some? ==>
      |t| == |ErrMalformedRemoteIp| + 2 + |e.cause.value| &&
      t[|ErrMalformedRemoteIp|..|ErrMalformedRemoteIp| + 2] == ": " &&
      t[|ErrMalformedRemoteIp| + 2..] == e.cause.value
  {
    match e
    case Malformed(None) => ErrMalformedRemoteIp
    case Malformed(Some(cause)) => ErrMalformedRemoteIp + ": " + cause
    case NotAllowed =>
      assert ErrRemoteNotAllowed[29] != ErrMalformedRemoteIp[29];
      ErrRemoteNotAllowed
  }

  /** A value of a registered argument or reply type: its type name and its integer fields. */
  datatype Value = Value(typ: string, fields: map<string, int>)

  /** reflect.New(t): a fresh zero value of type t (every field absent reads as 0). */
  function Zero(typ: string): Value
  {
    Value(typ, map[])
  }

  /**
   * A registered method: its argument and reply types and the call on its receiver, which
   * takes the request, the argument and a zero reply and gives the filled reply and the
   * error the method returned.
   */
  datatype MethodSpec = MethodSpec(
    argsType: string,
    replyType: string,
    call: (Request, Value, Value) -> (Value, Option<string>))

  /** The service registry: get resolves a "Service.Method" name or gives its error. */
  datatype Registry = Registry(get: string -> Result<MethodSpec>)

  /** A codec's session for one request. */
  datatype CodecRequest = CodecRequest(
    methodName: Result<string>,                                    // Method()
    readRequest: Value -> Result<Value>,                           // ReadRequest(args)
    writeResponse: (Value, Option<string>) -> (Effects, Option<string>))  // WriteResponse(w, reply, err)

  datatype Codec = Codec(newRequest: Request -> CodecRequest)

  /** Some entry of the allow list is equal to ip. */
  predicate Listed(allow: seq<IP>, ip: IP)
  {
    exists i :: 0 <= i < |allow| && Equal(allow[i], ip)
  }

  /** The admission decision for a client address (None admits it). */
  function Admission(allow: seq<IP>, remoteAddr: string, net: Resolver): Option<ClientError>
  {
    if |allow| == 0 then None
    else match net.splitHostPort(remoteAddr)
      case Err(e) => Some(Malformed(Some(e)))
      case Ok(hostPort) =>
        match net.parseIP(hostPort.0)
        case None => Some(Malformed(None))
        case Some(ip) => if Listed(allow, ip) then None else Some(NotAllowed)
  }

  /** The IPs of the *net.IPNet entries of an interface address list, in order. */
  function LocalIPs(addrs: seq<Addr>): (ips: seq<IP>)
    ensures |ips| <= |addrs|
    ensures ips == [] <==> forall i :: 0 <= i < |addrs| ==> !addrs[i].IPNet?
  {
    if addrs == [] then []
    else
      var last := addrs[|addrs| - 1];
      LocalIPs(addrs[..|addrs| - 1]) + (if last.IPNet? then [last.ip] else [])
  }

  /** Where a request's checks end: at the first failing one, or ready to invoke. */
  datatype Decision =
    | Stop(status: int, message: string)
    | Proceed(codecReq: CodecRequest, spec: MethodSpec, args: Value)

  /** The checks of a request, in order: admission, verb, codec, method name, lookup, argument. */
  function Decide(codecs: map<string, Codec>, allow: seq<IP>, services: Registry, net: Resolver, r: Request): (d: Decision)
    ensures d.Stop? ==> d.status in {400, 403, 405, 415}
    ensures d.Stop? && d.status == 403 <==> Admission(allow, r.remoteAddr, net).Some?
  {
    match Admission(allow, r.remoteAddr, net)
    case Some(e) => Stop(403, ClientErrorText(e))
    case None =>
      if r.verb != "POST" then Stop(405, "rpc: POST method required, received " + r.verb)
      else match Lookup(codecs, r.contentType)
        case None => Stop(415, "rpc: unrecognized Content-Type: " + MediaType(r.contentType))
        case Some(codec) =>
          var codecReq := codec.newRequest(r);
          match codecReq.methodName
          case Err(e) => Stop(400, e)
          case Ok(name) =>
            match services.get(name)
            case Err(e) => Stop(400, e)
            case Ok(spec) =>
              match codecReq.readRequest(Zero(spec.argsType))
              case Err(e) => Stop(400, e)
              case Ok(args) => Proceed(codecReq, spec, args)
  }

  /** The response a fresh writer holds once the server has handled r. */
  function Serve(codecs: map<string, Codec>, allow: seq<IP>, services: Registry, net: Resolver, r: Request): Response
  {
    match Decide(codecs, allow, services, net, r)
    case Stop(status, msg) => ErrorWrittenAsWritten(Fresh, status, msg)
    case Proceed(codecReq, spec, args) =>
      var (reply, errResult) := spec.call(r, args, Zero(spec.replyType));
      var (effects, errWrite) := codecReq.writeResponse(reply, errResult);
      var w := Performed(HeaderSet(Fresh, NoSniffHeader, "nosniff"), effects);
      if errWrite.Some? then ErrorWrittenAsWritten(w, 400, errWrite.value) else w
  }

  class Server {
    var codecs: map<string, Codec>
    var services: Registry
    var allow: seq<IP>

    /** NewServer, around the service registry it will dispatch to. */
    constructor (services: Registry)
      ensures codecs == map[] && allow == [] && this.services == services
    {
      this.codecs := map[];
      this.services := services;
      this.allow := [];
    }

    /** Stores codec under the lower-cased content type, replacing any codec stored there. */
    method RegisterCodec(codec: Codec, contentType: string)
      modifies this`codecs
      ensures codecs == old(codecs)[ToLower(contentType) := codec]
      ensures services == old(services) && allow == old(allow)
    {
      codecs := codecs[ToLower(contentType) := codec];
    }

    /** The dotted method name resolves in the registry. */
    function HasMethod(name: string): bool
      reads this
    {
      services.get(name).Ok?
    }

    /** Replaces the allow list with exactly ips. */
    method Bind(ips: seq<IP>)
      modifies this`allow
      ensures allow == ips
      ensures codecs == old(codecs) && services == old(services)
    {
      allow := ips;
    }

    /**
     * Allows exactly the interface addresses of the host (the result of enumerating them
     * is the parameter). Fails, leaving the allow list as it was, when enumeration failed
     * or gave no *net.IPNet address.
     */
    method BindLocal(interfaceAddrs: Result<seq<Addr>>) returns (err: Option<string>)
      modifies this`allow
      ensures interfaceAddrs.Err? ==> err == Some(interfaceAddrs.error) && allow == old(allow)
      ensures interfaceAddrs.Ok? && LocalIPs(interfaceAddrs.value) == [] ==>
        err == Some(ErrEmptyBindLocal) && allow == old(allow)
      ensures interfaceAddrs.Ok? && LocalIPs(interfaceAddrs.value) != [] ==>
        err == None && allow == LocalIPs(interfaceAddrs.value)
      ensures codecs == old(codecs) && services == old(services)
    {
      if interfaceAddrs.Err? {
        return Some(interfaceAddrs.error);
      }
      var addrs := interfaceAddrs.value;
      var local: seq<IP> := [];
      for i := 0 to |addrs|
        invariant local == LocalIPs(addrs[..i])
      {
        assert addrs[..i + 1][..i] == addrs[..i];
        if addrs[i].IPNet? {
          local := local + [addrs[i].ip];
        }
      }
      assert addrs[..|addrs|] == addrs;
      if |local| == 0 {
        return Some(ErrEmptyBindLocal);
      }
      Bind(local);
      return None;
    }

    /** clientAllowed: admits the client at remoteAddr, or says why not. */
    method ClientAllowed(remoteAddr: string, net: Resolver) returns (err: Option<ClientError>)
      ensures err == Admission(allow, remoteAddr, net)
    {
      if |allow| == 0 {
        return None;
      }
      var split := net.splitHostPort(remoteAddr);
      if split.Err? {
        return Some(Malformed(Some(split.error)));
      }
      var ip := net.parseIP(split.value.0);
      if ip.None? {
        return Some(Malformed(None));
      }
      for i := 0 to |allow|
        invariant forall j :: 0 <= j < i ==> !Equal(allow[j], ip.value)
      {
        if Equal(allow[i], ip.value) {
          return None;
        }
      }
      return Some(NotAllowed);
    }

    /** Handles one request, writing its response to the fresh writer w. */
    method ServeHTTP(w: ResponseWriter, r: Request, net: Resolver)
      requires w.State() == Fresh
      modifies w
      ensures w.State() == Serve(codecs, allow, services, net, r)
    {
      var errAllowed := ClientAllowed(r.remoteAddr, net);
      if errAllowed.Some? {
        WriteErrorAsWritten(w, 403, ClientErrorText(errAllowed.value));
        return;
      }
      if r.verb != "POST" {
        WriteErrorAsWritten(w, 405, "rpc: POST method required, received " + r.verb);
        return;
      }
      var contentType := r.contentType;
      var idx := IndexOf(contentType, ';');
      if idx != -1 {
        contentType := contentType[..idx];
      }
      var key := ToLower(contentType);
      if key !in codecs {
        WriteErrorAsWritten(w, 415, "rpc: unrecognized Content-Type: " + contentType);
        return;
      }
      var codecReq := codecs[key].newRequest(r);
      var name := codecReq.methodName;
      if name.Err? {
        WriteErrorAsWritten(w, 400, name.error);
        return;
      }
      var spec := services.get(name.value);
      if spec.Err? {
        WriteErrorAsWritten(w, 400, spec.error);
        return;
      }
      var args := codecReq.readRequest(Zero(spec.value.argsType));
      if args.Err? {
        WriteErrorAsWritten(w, 400, args.error);
        return;
      }
      var result := spec.value.call(r, args.value, Zero(spec.value.replyType));
      w.SetHeader(NoSniffHeader, "nosniff");
      var written := codecReq.writeResponse(result.0, result.1);
      w.Perform(written.0);
      if written.1.Some? {
        WriteErrorAsWritten(w, 400, written.1.value);
      }
    }
  }
}
