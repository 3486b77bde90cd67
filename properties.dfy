/** What the server promises about admission, binding and the handling of one request. */
module ServerProperties {
  import opened Base
  import opened ContentType
  import opened NetIP
  import opened Http
  import opened Rpc

  /** The resolver splits addr into a host and a port and parses the host as ip. */
  predicate Resolves(net: Resolver, addr: string, ip: IP)
  {
    net.splitHostPort(addr).Ok? && net.parseIP(net.splitHostPort(addr).value.0) == Some(ip)
  }

  // ---------------------------------------------------------------------------
  // Admission
  // ---------------------------------------------------------------------------

  /**
   * With an empty allow list every address is admitted, even one that cannot be split or
   * parsed, and no request is answered 403 by the server itself.
   */
  lemma EmptyAllowListAdmitsAll(codecs: map<string, Codec>, services: Registry, net: Resolver, r: Request)
    ensures Admission([], r.remoteAddr, net) == None
    ensures Decide(codecs, [], services, net, r).Stop? ==> Decide(codecs, [], services, net, r).status != 403
  {
  }

  /**
   * With a non-empty allow list, a well-formed address is admitted exactly when its IP is
   * byte-for-byte equal, in canonical 16-byte form, to some entry; otherwise it is refused
   * as not allowed.
   */
  lemma AdmittedIffCanonicallyListed(allow: seq<IP>, remoteAddr: string, net: Resolver, ip: IP)
    requires |allow| > 0 && Resolves(net, remoteAddr, ip)
    ensures Admission(allow, remoteAddr, net) == None <==>
      exists i :: 0 <= i < |allow| && Canonical(allow[i]) == Canonical(ip)
    ensures Admission(allow, remoteAddr, net) != None ==> Admission(allow, remoteAddr, net) == Some(NotAllowed)
  {
    forall i | 0 <= i < |allow| {
      EqualIffSameCanonical(allow[i], ip);
    }
  }

  /**
   * With a non-empty allow list, an address that cannot be split, or whose host is not an
   * IP literal, is refused as malformed (with the splitting error as its cause).
   */
  lemma MalformedAddressRefused(allow: seq<IP>, remoteAddr: string, net: Resolver)
    requires |allow| > 0
    requires net.splitHostPort(remoteAddr).Err? || net.parseIP(net.splitHostPort(remoteAddr).value.0).None?
    ensures Admission(allow, remoteAddr, net).Some?
    ensures Admission(allow, remoteAddr, net).value.Malformed?
    ensures net.splitHostPort(remoteAddr).Err? <==> Admission(allow, remoteAddr, net).value.cause.Some?
  {
  }

  /**
   * Admission depends only on which addresses the allow list covers, not on the order of
   * its entries, their duplicates, or which of the equal forms of an address is listed.
   */
  lemma AdmissionDependsOnlyOnCoveredAddresses(a: seq<IP>, b: seq<IP>, remoteAddr: string, net: Resolver)
    requires |a| > 0 && |b| > 0
    requires forall i :: 0 <= i < |a| ==> Listed(b, a[i])
    requires forall j :: 0 <= j < |b| ==> Listed(a, b[j])
    ensures Admission(a, remoteAddr, net) == Admission(b, remoteAddr, net)
  {
    if net.splitHostPort(remoteAddr).Ok? && net.parseIP(net.splitHostPort(remoteAddr).value.0).Some? {
      var ip := net.parseIP(net.splitHostPort(remoteAddr).value.0).value;
      CoveredTransfers(a, b, ip);
      CoveredTransfers(b, a, ip);
    }
  }

  /** An address listed in a is listed in b when b lists every entry of a. */
  lemma CoveredTransfers(a: seq<IP>, b: seq<IP>, ip: IP)
    requires forall i :: 0 <= i < |a| ==> Listed(b, a[i])
    ensures Listed(a, ip) ==> Listed(b, ip)
  {
    if Listed(a, ip) {
      var i :| 0 <= i < |a| && Equal(a[i], ip);
      var j :| 0 <= j < |b| && Equal(b[j], a[i]);
      EqualIsEquivalence(b[j], a[i], ip);
    }
  }

  /** Adding entries to a non-empty allow list never refuses a client it admitted. */
  lemma WideningKeepsAdmitted(a: seq<IP>, b: seq<IP>, remoteAddr: string, net: Resolver)
    requires |a| > 0 && Admission(a, remoteAddr, net) == None
    ensures Admission(a + b, remoteAddr, net) == None
  {
    var ip := net.parseIP(net.splitHostPort(remoteAddr).value.0).value;
    var i :| 0 <= i < |a| && Equal(a[i], ip);
    assert (a + b)[i] == a[i];
  }

  /**
   * The allow list of server_test.go's TestBind: 233.100.100.33 and 198.65.22.33 are
   * admitted (the latter on every request), 127.0.0.1, 198.65.43.43 and 123.32.33.33 are not.
   */
  lemma BindTable(net: Resolver)
    requires Resolves(net, "127.0.0.1:8082", IPv4(127, 0, 0, 1))
    requires Resolves(net, "198.65.43.43:7900", IPv4(198, 65, 43, 43))
    requires Resolves(net, "233.100.100.33:8082", IPv4(233, 100, 100, 33))
    requires Resolves(net, "198.65.22.33:7900", IPv4(198, 65, 22, 33))
    requires Resolves(net, "123.32.33.33:8080", IPv4(123, 32, 33, 33))
    ensures var allow := [IPv4(233, 100, 100, 33), IPv4(198, 65, 22, 33)];
      Admission(allow, "127.0.0.1:8082", net) == Some(NotAllowed) &&
      Admission(allow, "198.65.43.43:7900", net) == Some(NotAllowed) &&
      Admission(allow, "233.100.100.33:8082", net) == None &&
      Admission(allow, "198.65.22.33:7900", net) == None &&
      Admission(allow, "123.32.33.33:8080", net) == Some(NotAllowed)
  {
    var allow := [IPv4(233, 100, 100, 33), IPv4(198, 65, 22, 33)];
    assert Equal(allow[0], IPv4(233, 100, 100, 33));
    assert Equal(allow[1], IPv4(198, 65, 22, 33));
    assert !Listed(allow, IPv4(127, 0, 0, 1)) by {
      assert allow[0][12] != 127 && allow[1][12] != 127;
    }
    assert !Listed(allow, IPv4(198, 65, 43, 43)) by {
      assert allow[0][12] != 198 && allow[1][14] != 43;
    }
    assert !Listed(allow, IPv4(123, 32, 33, 33)) by {
      assert allow[0][12] != 123 && allow[1][12] != 123;
    }
  }

  /**
   * TestBind's requests through ServeHTTP on a server with no codec: the refused
   * addresses get 403, the admitted ones get past admission and stop at 415.
   */
  lemma BindTableStatuses(net: Resolver, services: Registry)
    requires Resolves(net, "198.65.43.43:7900", IPv4(198, 65, 43, 43))
    requires Resolves(net, "233.100.100.33:8082", IPv4(233, 100, 100, 33))
    requires Resolves(net, "198.65.22.33:7900", IPv4(198, 65, 22, 33))
    requires Resolves(net, "127.0.0.1:8082", IPv4(127, 0, 0, 1))
    requires Resolves(net, "123.32.33.33:8080", IPv4(123, 32, 33, 33))
    ensures var allow := [IPv4(233, 100, 100, 33), IPv4(198, 65, 22, 33)];
      Serve(map[], allow, services, net, Request("198.65.43.43:7900", "POST", "", "request")).status == Some(403) &&
      Serve(map[], allow, services, net, Request("233.100.100.33:8082", "POST", "", "request")).status == Some(415) &&
      Serve(map[], allow, services, net, Request("198.65.22.33:7900", "POST", "", "request")).status == Some(415) &&
      Serve(map[], allow, services, net, Request("127.0.0.1:8082", "POST", "", "request")).status == Some(403) &&
      Serve(map[], allow, services, net, Request("123.32.33.33:8080", "POST", "", "request")).status == Some(403)
  {
    BindTable(net);
  }

  // ---------------------------------------------------------------------------
  // BindLocal
  // ---------------------------------------------------------------------------

  /** The local IPs are exactly the addresses of the *net.IPNet entries. */
  lemma {:induction false} LocalIPsMembers(addrs: seq<Addr>, ip: IP)
    ensures ip in LocalIPs(addrs) <==> exists i :: 0 <= i < |addrs| && addrs[i].IPNet? && addrs[i].ip == ip
  {
    if addrs != [] {
      var init := addrs[..|addrs| - 1];
      LocalIPsMembers(init, ip);
      if ip in LocalIPs(addrs) && ip !in LocalIPs(init) {
        assert addrs[|addrs| - 1].IPNet? && addrs[|addrs| - 1].ip == ip;
      }
      if ip in LocalIPs(init) {
        var i :| 0 <= i < |init| && init[i].IPNet? && init[i].ip == ip;
        assert addrs[i] == init[i];
      }
      if exists i :: 0 <= i < |addrs| && addrs[i].IPNet? && addrs[i].ip == ip {
        var i :| 0 <= i < |addrs| && addrs[i].IPNet? && addrs[i].ip == ip;
        if i < |init| {
          assert init[i] == addrs[i];
        }
      }
    }
  }

  /**
   * Once BindLocal has succeeded on an enumeration, a well-formed address is admitted
   * exactly when its IP equals the address of one of the enumeration's *net.IPNet entries.
   */
  lemma BindLocalAdmitsExactlyLocal(addrs: seq<Addr>, remoteAddr: string, net: Resolver, ip: IP)
    requires LocalIPs(addrs) != [] && Resolves(net, remoteAddr, ip)
    ensures Admission(LocalIPs(addrs), remoteAddr, net) == None <==>
      exists i :: 0 <= i < |addrs| && addrs[i].IPNet? && Equal(addrs[i].ip, ip)
  {
    var local := LocalIPs(addrs);
    if Listed(local, ip) {
      var k :| 0 <= k < |local| && Equal(local[k], ip);
      LocalIPsMembers(addrs, local[k]);
    }
    if exists i :: 0 <= i < |addrs| && addrs[i].IPNet? && Equal(addrs[i].ip, ip) {
      var i :| 0 <= i < |addrs| && addrs[i].IPNet? && Equal(addrs[i].ip, ip);
      LocalIPsMembers(addrs, addrs[i].ip);
      var k :| 0 <= k < |local| && local[k] == addrs[i].ip;
    }
  }

  /**
   * server_test.go's TestBindLocal: when the interfaces report 127.0.0.1 and ::1 and
   * nothing equal to 32.32.33.33, BindLocal succeeds, 127.0.0.1 and [::1] are admitted and
   * 32.32.33.33 is refused.
   */
  lemma BindLocalTable(addrs: seq<Addr>, net: Resolver, i: nat, j: nat)
    requires i < |addrs| && addrs[i].IPNet? && addrs[i].ip == IPv4(127, 0, 0, 1)
    requires j < |addrs| && addrs[j].IPNet? && addrs[j].ip == IPv6Loopback
    requires forall k :: 0 <= k < |addrs| && addrs[k].IPNet? ==> !Equal(addrs[k].ip, IPv4(32, 32, 33, 33))
    requires Resolves(net, "127.0.0.1:8083", IPv4(127, 0, 0, 1))
    requires Resolves(net, "32.32.33.33:8081", IPv4(32, 32, 33, 33))
    requires Resolves(net, "[::1]:8084", IPv6Loopback)
    ensures LocalIPs(addrs) != []
    ensures Admission(LocalIPs(addrs), "127.0.0.1:8083", net) == None
    ensures Admission(LocalIPs(addrs), "32.32.33.33:8081", net) == Some(NotAllowed)
    ensures Admission(LocalIPs(addrs), "[::1]:8084", net) == None
  {
    LocalIPsMembers(addrs, IPv6Loopback);
    BindLocalAdmitsExactlyLocal(addrs, "127.0.0.1:8083", net, IPv4(127, 0, 0, 1));
    BindLocalAdmitsExactlyLocal(addrs, "32.32.33.33:8081", net, IPv4(32, 32, 33, 33));
    BindLocalAdmitsExactlyLocal(addrs, "[::1]:8084", net, IPv6Loopback);
  }

  // ---------------------------------------------------------------------------
  // Handling one request
  // ---------------------------------------------------------------------------

  /**
   * A request that fails a check is answered with that check's status (403, 405, 415 or
   * 400) and the error text as its body. The status goes out with an empty header: the
   * plain-text Content-Type is set only after it, so it stays in the live header map,
   * and no nosniff header is set.
   */
  lemma RejectedRequestResponse(codecs: map<string, Codec>, allow: seq<IP>, services: Registry, net: Resolver, r: Request)
    requires Decide(codecs, allow, services, net, r).Stop?
    ensures var d := Decide(codecs, allow, services, net, r);
      var w := Serve(codecs, allow, services, net, r);
      d.status in {400, 403, 405, 415} &&
      w.status == Some(d.status) && w.sent == map[] &&
      w.header == map["Content-Type" := PlainText] &&
      w.body == d.message && NoSniffHeader !in w.header
  {
  }

  /**
   * The checks run in a fixed order and the first that fails decides the status:
   * admission (403), then the POST verb (405), then a codec for the media type (415), then
   * the method name, its lookup and the decoding of its argument (400).
   */
  lemma FirstFailedCheckDecidesStatus(codecs: map<string, Codec>, allow: seq<IP>, services: Registry, net: Resolver, r: Request)
    ensures Admission(allow, r.remoteAddr, net).Some? ==>
      Serve(codecs, allow, services, net, r).status == Some(403)
    ensures Admission(allow, r.remoteAddr, net) == None && r.verb != "POST" ==>
      Serve(codecs, allow, services, net, r).status == Some(405)
    ensures Admission(allow, r.remoteAddr, net) == None && r.verb == "POST" && Lookup(codecs, r.contentType).None? ==>
      Serve(codecs, allow, services, net, r).status == Some(415)
    ensures Admission(allow, r.remoteAddr, net) == None && r.verb == "POST" && Lookup(codecs, r.contentType).Some? ==>
      (var cr := Lookup(codecs, r.contentType).value.newRequest(r);
       var status := Serve(codecs, allow, services, net, r).status;
       (cr.methodName.Err? ==> status == Some(400)) &&
       (cr.methodName.Ok? && services.get(cr.methodName.value).Err? ==> status == Some(400)) &&
       ((cr.methodName.Ok? && services.get(cr.methodName.value).Ok? &&
         cr.readRequest(Zero(services.get(cr.methodName.value).value.argsType)).Err?) ==> status == Some(400)))
  {
  }

  /** A refused client's response depends on nothing but the allow list and its address. */
  lemma RefusedClientIgnoresEverythingElse(allow: seq<IP>, net: Resolver,
      c1: map<string, Codec>, s1: Registry, r1: Request, c2: map<string, Codec>, s2: Registry, r2: Request)
    requires r1.remoteAddr == r2.remoteAddr && Admission(allow, r1.remoteAddr, net).Some?
    ensures Serve(c1, allow, s1, net, r1) == Serve(c2, allow, s2, net, r2)
  {
  }

  /** A request with the wrong verb is answered without consulting codecs or services. */
  lemma WrongVerbIgnoresCodecsAndServices(allow: seq<IP>, net: Resolver,
      c1: map<string, Codec>, s1: Registry, c2: map<string, Codec>, s2: Registry, r: Request)
    requires Admission(allow, r.remoteAddr, net) == None && r.verb != "POST"
    ensures Serve(c1, allow, s1, net, r) == Serve(c2, allow, s2, net, r)
  {
  }

  /** A request without a registered codec is answered without consulting the services. */
  lemma UnknownCodecIgnoresServices(codecs: map<string, Codec>, allow: seq<IP>, net: Resolver,
      s1: Registry, s2: Registry, r: Request)
    requires Lookup(codecs, r.contentType).None?
    ensures Serve(codecs, allow, s1, net, r) == Serve(codecs, allow, s2, net, r)
  {
  }

  /**
   * A request that passes every check is dispatched and answered by the codec: nosniff is
   * set before the codec writes, and the header sent with the status is nosniff plus the
   * headers the codec set. The method's own error does not make the server answer with an
   * error status: the status is the one the codec writes (200 once it writes a body). When
   * the codec fails to write, the server answers 400 only if the codec wrote no status and
   * no body, sends that 400 with the codec's headers (its Content-Type included), and
   * appends the error text to the body; the plain-text Content-Type reaches only the live
   * header map.
   */
  lemma DispatchedRequestResponse(codecs: map<string, Codec>, allow: seq<IP>, services: Registry, net: Resolver, r: Request)
    requires Decide(codecs, allow, services, net, r).Proceed?
    ensures var d := Decide(codecs, allow, services, net, r);
      var (reply, errResult) := d.spec.call(r, d.args, Zero(d.spec.replyType));
      var (effects, errWrite) := d.codecReq.writeResponse(reply, errResult);
      var w := Serve(codecs, allow, services, net, r);
      var codecStatus := if effects.status.Some? then effects.status else if effects.body.Some? then Some(200) else None;
      var codecBody := if effects.body.Some? then effects.body.value else "";
      NoSniffHeader in w.header &&
      (w.status.Some? ==> w.sent == map[NoSniffHeader := "nosniff"] + effects.header) &&
      (errWrite.None? ==> w.status == codecStatus && w.body == codecBody) &&
      (errWrite.Some? ==>
        w.status == (if codecStatus.Some? then codecStatus else Some(400)) &&
        w.body == codecBody + errWrite.value &&
        w.header["Content-Type"] == PlainText &&
        ("Content-Type" in w.sent <==> "Content-Type" in effects.header))
  {
  }

  /** The nosniff header is set exactly on the requests that pass every check. */
  lemma NoSniffExactlyWhenDispatched(codecs: map<string, Codec>, allow: seq<IP>, services: Registry, net: Resolver, r: Request)
    ensures NoSniffHeader in Serve(codecs, allow, services, net, r).header <==>
      Decide(codecs, allow, services, net, r).Proceed?
  {
    if Decide(codecs, allow, services, net, r).Proceed? {
      DispatchedRequestResponse(codecs, allow, services, net, r);
    } else {
      RejectedRequestResponse(codecs, allow, services, net, r);
    }
  }

  /**
   * HasMethod predicts the lookup step: for an admitted POST whose codec decodes the
   * method name, a name HasMethod rejects is answered 400 with the registry's error, and
   * a name it accepts is dispatched exactly when its argument decodes.
   */
  lemma HasMethodPredictsLookup(s: Server, net: Resolver, r: Request, name: string)
    requires Admission(s.allow, r.remoteAddr, net) == None && r.verb == "POST"
    requires Lookup(s.codecs, r.contentType).Some?
    requires Lookup(s.codecs, r.contentType).value.newRequest(r).methodName == Ok(name)
    ensures !s.HasMethod(name) ==>
      Decide(s.codecs, s.allow, s.services, net, r) == Stop(400, s.services.get(name).error)
    ensures s.HasMethod(name) ==>
      (Decide(s.codecs, s.allow, s.services, net, r).Proceed? <==>
       Lookup(s.codecs, r.contentType).value.newRequest(r).readRequest(Zero(s.services.get(name).value.argsType)).Ok?)
  {
  }

  // ---------------------------------------------------------------------------
  // End to end, with the service and requests of the tests
  // ---------------------------------------------------------------------------

  /** A field of a value; an absent field reads as its zero value. */
  function Field(v: Value, f: string): int
  {
    if f in v.fields then v.fields[f] else 0
  }

  /** Service1.Multiply of the tests: Result is A times B, and no error. */
  function Multiply(r: Request, args: Value, reply: Value): (Value, Option<string>)
  {
    (reply.(fields := reply.fields["Result" := Field(args, "A") * Field(args, "B")]), None)
  }

  /** A registry holding only Service1.Multiply. */
  function Service1(): Registry
  {
    Registry((name: string) =>
      if name == "Service1.Multiply" then Ok(MethodSpec("Service1Request", "Service1Response", Multiply))
      else Err("unknown method " + name))
  }

  /**
   * A codec for the examples: every request names Service1.Multiply; the body
   * {"A":4,"B":2} decodes to A = 4, B = 2 and any other body fails to decode; the reply
   * is written as a body.
   */
  function ExampleCodec(): Codec
  {
    Codec((r: Request) => CodecRequest(
      Ok("Service1.Multiply"),
      (args: Value) =>
        if r.body == "{\"A\":4,\"B\":2}" then Ok(args.(fields := map["A" := 4, "B" := 2]))
        else Err("cannot decode the argument"),
      (reply: Value, err: Option<string>) => (Effects(map["Content-Type" := "application/json"], None, Some("reply")), None)))
  }

  /** The content type the tests register their codec under and send. */
  const ExampleKey := "application/json"

  /** A request as the tests send it: POST, Content-Type application/json. */
  function ExampleRequest(body: string): Request
  {
    Request("192.0.2.1:1234", "POST", ExampleKey, body)
  }

  /** "application/json" is its own codec key. */
  lemma ExampleKeys()
    ensures CodecKey(ExampleKey) == ExampleKey
  {
    ExampleKeyHasNoParameters();
    ExampleKeyIsLowerCase();
  }

  lemma ExampleKeyHasNoParameters()
    ensures MediaType(ExampleKey) == ExampleKey
  {
    assert ';' !in ExampleKey;
  }

  lemma ExampleKeyIsLowerCase()
    ensures ToLower(ExampleKey) == ExampleKey
  {
    assert forall i :: 0 <= i < |ExampleKey| ==> !('A' <= ExampleKey[i] <= 'Z');
    LowerCaseIsFixed(ExampleKey);
  }

  /** Multiplying A = 4 by B = 2 through the server gives Result = 8 and status 200. */
  lemma MultiplyEndToEnd(net: Resolver)
    ensures var codecs := map[ExampleKey := ExampleCodec()];
      var r := ExampleRequest("{\"A\":4,\"B\":2}");
      var d := Decide(codecs, [], Service1(), net, r);
      d.Proceed? && Field(d.spec.call(r, d.args, Zero(d.spec.replyType)).0, "Result") == 8 &&
      Serve(codecs, [], Service1(), net, r).status == Some(200)
  {
    ExampleKeys();
    var codecs := map[ExampleKey := ExampleCodec()];
    var r := ExampleRequest("{\"A\":4,\"B\":2}");
    assert Lookup(codecs, r.contentType) == Some(ExampleCodec());
    var cr := ExampleCodec().newRequest(r);
    assert cr.methodName == Ok("Service1.Multiply");
    var spec := MethodSpec("Service1Request", "Service1Response", Multiply);
    assert Service1().get("Service1.Multiply") == Ok(spec);
    var args := Value("Service1Request", map["A" := 4, "B" := 2]);
    assert cr.readRequest(Zero("Service1Request")) == Ok(args);
    assert Decide(codecs, [], Service1(), net, r) == Proceed(cr, spec, args);
    assert Field(Multiply(r, args, Zero("Service1Response")).0, "Result") == 8;
  }

  /** A body that does not decode as the argument type gives 400. */
  lemma ExampleUndecodableBody(net: Resolver)
    ensures Serve(map[ExampleKey := ExampleCodec()], [], Service1(), net, ExampleRequest("{}")).status == Some(400)
  {
    ExampleKeys();
    var codecs := map[ExampleKey := ExampleCodec()];
    var r := ExampleRequest("{}");
    assert Lookup(codecs, r.contentType) == Some(ExampleCodec());
    var cr := ExampleCodec().newRequest(r);
    assert cr.methodName == Ok("Service1.Multiply");
    assert Service1().get("Service1.Multiply") == Ok(MethodSpec("Service1Request", "Service1Response", Multiply));
    assert |r.body| == 2;
    assert cr.readRequest(Zero("Service1Request")) == Err("cannot decode the argument");
    assert Decide(codecs, [], Service1(), net, r) == Stop(400, "cannot decode the argument");
  }

  /** A GET gives 405. */
  lemma ExampleWrongVerb(net: Resolver)
    ensures Serve(map[ExampleKey := ExampleCodec()], [], Service1(), net, ExampleRequest("").(verb := "GET")).status == Some(405)
  {
  }

  /** An unregistered content type gives 415. */
  lemma ExampleUnknownContentType(net: Resolver)
    ensures Serve(map[ExampleKey := ExampleCodec()], [], Service1(), net, ExampleRequest("").(contentType := "text/xml")).status == Some(415)
  {
    assert |CodecKey("text/xml")| == 8;
  }
}
