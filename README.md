# rpc Server: request gating and dispatch, in Dafny

This project models the `Server` of the x-formation/rpc package, an RPC server carried over HTTP. The server keeps three pieces of state:

- a table of codecs keyed by lower-cased content type;
- a service registry;
- an allow list of client IP addresses.

For each HTTP request `ServeHTTP` runs a fixed sequence of checks. It admits the client, insists on POST, selects a codec from the Content-Type header, asks the codec for the dotted method name, resolves it, and decodes the argument. Only after all of these does it invoke the method, set `x-content-type-options: nosniff` and let the codec write the response. The first check that fails answers with 403, 405, 415 or 400 and ends the request.

Modules:

- `Base` (base.dfy): `Option`, and `Result` whose error is the text Go's `Error()` returns.
- `ContentType` (contenttype.dfy): the Content-Type normalisation. The header is cut at the first `;` (`IndexOf` models `strings.Index`, `MediaType` the cut) and lower-cased (`ToLower`). `CodecKey` is the key looked up, and `Lookup` is the codec-table lookup. Media types compare without regard to case, and parameters follow a `;` (section 3.1.1.1 of RFC 7231).
- `NetIP` (netip.dfy): an IP is a byte sequence (Go uses lengths 4 and 16; the type admits any length, and `Equal` treats every length as Go does). `Equal` is `net.IP.Equal`, under which an IPv4 address equals its IPv4-mapped 16-byte form. The module also holds the `Addr` kinds that interface enumeration reports and a `Resolver` that stands for `net.SplitHostPort` and `net.ParseIP`.
- `Http` (http.dfy): the request fields the server reads, and a response writer.
  - The writer keeps a live header map, the header snapshot sent with the status, the status and the body. Only the first status written counts, and writing a body first writes 200.
  - `ResponseWriter` is the class. `HeaderSet`, `HeaderWritten`, `BodyWritten` and `Performed` are its transitions as functions.
  - `WriteErrorAsWritten` is the server's `writeError`, in its order: status, then Content-Type, then message. The handler uses it.
  - `WriteError` is the corrected `writeError` of the finding below, which sets the Content-Type before the status.
- `Rpc` (server.dfy):
  - the class `Server` with fields `codecs`, `services` and `allow`, and its methods `RegisterCodec`, `HasMethod`, `Bind`, `BindLocal`, `ClientAllowed` and `ServeHTTP`;
  - the functions that specify them: `Admission` (the admission decision), `LocalIPs` (the addresses `BindLocal` keeps), `Decide` (where the checks of a request stop) and `Serve` (the response a fresh writer holds afterwards).
- `ServerProperties` (properties.dfy): lemmas about admission, binding and the handling of a request, and the scenarios of the repository's tests.

The collaborators are values of function type that the model cannot look into:

- the codec (`Codec.newRequest`, and `CodecRequest` with `methodName`, `readRequest` and `writeResponse`);
- the service registry's `get`;
- the invoked method (`MethodSpec.call`);
- `Resolver`.

Each of them returns either a value or an error. Interface enumeration is the parameter of `BindLocal`.

Two behaviours of the code worth knowing:

- With an empty allow list, every address is admitted, including one that cannot be split or parsed.
- `BindLocal` keeps only the `*net.IPNet` interface addresses; an address of any other kind is skipped.

## Model

| member | source | states |
|---|---|---|
| ContentType.IndexOf | server.go:139 | the result is -1 exactly when there is no `;`; otherwise it is the position of the first `;` |
| ContentType.ToLower | server.go:69 | the result has the same length and each character is lower-cased |
| ContentType.MediaType | server.go:138-142 | the cut header has no `;`, is a prefix of the header, and is followed in the header by the first `;`; a header without `;` is kept whole |
| ContentType.CodecKey | server.go:138-143 | the key a Content-Type header is looked up under; `CodecKeyHasNoParameters`, `CodecKeyIdempotent` and `CodecKeyOfVariant` state its properties |
| ContentType.Lookup | server.go:143-147 | the codec stored under a header's key; `RegisteredCodecSelected` relates it to registration |
| ContentType.ToLowerIdempotent | server.go:143 | lower-casing a lower-cased key changes nothing |
| ContentType.LowerCaseIsFixed | server.go:143 | a text without upper-case letters is its own lower-cased form |
| ContentType.CaseVariantsLowerAlike | server.go:143 | texts that differ only in letter case give the same key |
| ContentType.LoweringKeepsSemicolons | server.go:69 | lower-casing neither adds nor removes `;` |
| ContentType.MediaTypeIgnoresParameters | server.go:138-142 | whatever follows the first `;` does not change the media type |
| ContentType.CodecKeyHasNoParameters | server.go:138-143 | no lookup key contains `;` |
| ContentType.CodecKeyIdempotent | server.go:138-143 | normalising a normalised header gives the same key |
| ContentType.CodecKeyOfVariant | server.go:138-143 | every case variant of a parameter-free content type, with or without parameters, is looked up under the key that type is registered with |
| ContentType.KeyWithParametersUnreachable | server.go:69 | a codec registered under a content type that contains `;` is never selected by any request |
| ContentType.RegisteredCodecSelected | server.go:68-70 | after registering c under t, every case variant of t with or without parameters selects c, and headers with any other key select what they selected before |
| NetIP.IPv4 | server_test.go:88-91 | `net.IPv4` gives a 16-byte address that `IP.Equal` holds with the 4-byte a.b.c.d, and whose canonical form is that of a.b.c.d |
| NetIP.Equal | server.go:205 | `IP.Equal`, defined after Go's rule; `NetIP.EqualIffSameCanonical` and `NetIP.EqualIsEquivalence` state its meaning |
| NetIP.EqualIffSameCanonical | server.go:205 | `IP.Equal` holds exactly when the canonical 16-byte forms are byte-for-byte equal |
| NetIP.EqualIsEquivalence | server.go:205 | `IP.Equal` is reflexive, symmetric and transitive |
| NetIP.LoopbacksDistinct | server_test.go:103-114 | 127.0.0.1 and ::1 are distinct addresses; the 4-byte and 16-byte forms of 127.0.0.1 are equal |
| Http.HeaderWritten | server.go:213 | the first status written stays, and it goes out with the live header as its snapshot; a later status changes neither; the header map and body are untouched |
| Http.BodyWritten | server.go:215 | writing a body keeps an earlier status and its sent header, or else writes 200 and sends the live header; it appends to the body and leaves the live header alone |
| Http.ResponseWriter.constructor | server.go:129 | a handler starts with an empty writer |
| Http.ResponseWriter.SetHeader | server.go:183 | sets one entry of the live header map |
| Http.ResponseWriter.WriteHeader | server.go:213 | writes the status and sends the header snapshot, unless a status was written already |
| Http.ResponseWriter.Write | server.go:215 | appends to the body, writing status 200 first if none was written |
| Http.ResponseWriter.Perform | server.go:185 | applies what the codec does to the writer: set headers, write a status, write a body |
| Http.ErrorWrittenAsWritten | server.go:212-216 | `writeError` in the source's order: an earlier status and its sent header stay, else the status goes out with the header held before the call; the plain-text Content-Type reaches only the live header; the message is appended |
| Http.WriteErrorAsWritten | server.go:212-216 | the writer ends in the state `ErrorWrittenAsWritten` describes |
| Http.WriteError | server.go:212-216 | the corrected `writeError`: the writer ends in the state `ErrorWritten` describes (not used by the handler) |
| Http.ErrorAsWrittenSendsNoContentType | server.go:212-216 | as written, the status goes out without the plain-text Content-Type |
| Http.ErrorWrittenSendsPlainText | server.go:212-216 | on a writer with no status yet, the corrected `writeError` sends that status with the plain-text Content-Type added to the headers already set, and appends the message; on a writer that already has a status it changes neither the status nor the sent header |
| Rpc.ClientErrorText | server.go:198-209 | the 403 body of each refusal: the malformed text, with ": " and the splitting error appended when splitting failed, or the not-allowed text; a text starts with the malformed text exactly when the address was malformed |
| Rpc.Admission | server.go:190-210 | the admission decision `clientAllowed` makes; `ServerProperties.EmptyAllowListAdmitsAll`, `AdmittedIffCanonicallyListed` and `MalformedAddressRefused` state its cases |
| Rpc.LocalIPs | server.go:115-120 | the addresses `BindLocal` collects: no more than the entries, and none exactly when no entry is a `*net.IPNet` |
| Rpc.Decide | server.go:130-166 | where the checks of a request stop: any stop has status 400, 403, 405 or 415, and the stop is 403 exactly when admission refuses the client |
| Rpc.Serve | server.go:129-188 | the response a fresh writer holds after the handler; `ServerProperties.RejectedRequestResponse` and `DispatchedRequestResponse` state it |
| Rpc.Server.constructor | server.go:48-54 | a new server has no codecs and an empty allow list |
| Rpc.Server.RegisterCodec | server.go:68-70 | stores the codec under the lower-cased content type, replacing any earlier codec there; nothing else changes |
| Rpc.Server.HasMethod | server.go:95-100 | the registry resolves the name; `ServerProperties.HasMethodPredictsLookup` ties it to the handler's lookup step |
| Rpc.Server.Bind | server.go:104-106 | the allow list becomes exactly the given list; codecs and services are unchanged |
| Rpc.Server.BindLocal | server.go:110-126 | if enumeration fails, returns its error; if it yields no `*net.IPNet`, returns `ErrEmptyBindLocal`; in both cases the allow list is unchanged; otherwise the list becomes the IPNet addresses in enumeration order |
| Rpc.Server.ClientAllowed | server.go:190-210 | the search loop returns exactly the `Admission` decision; it changes no state |
| Rpc.Server.ServeHTTP | server.go:129-188 | a fresh writer ends in exactly the response `Serve` describes, errors written in the source's `writeError` order |
| ServerProperties.EmptyAllowListAdmitsAll | server.go:191-193 | an empty allow list admits every address, even an unparsable one, and the server never answers 403 itself |
| ServerProperties.AdmittedIffCanonicallyListed | server.go:204-209 | with a non-empty list, a well-formed address is admitted exactly when its IP matches some entry byte-for-byte in canonical form; otherwise the result is `ErrRemoteNotAllowed` |
| ServerProperties.MalformedAddressRefused | server.go:198-203 | with a non-empty list, an address that cannot be split, or whose host is not an IP, is refused as malformed; the cause is attached exactly when splitting failed |
| ServerProperties.AdmissionDependsOnlyOnCoveredAddresses | server.go:204-209 | two non-empty lists that cover each other decide every address alike: order and duplicates do not matter |
| ServerProperties.CoveredTransfers | server.go:204-209 | an address matched by one list is matched by any list that covers it |
| ServerProperties.WideningKeepsAdmitted | server.go:204-209 | appending entries to a non-empty allow list never refuses an admitted client |
| ServerProperties.BindTable | server_test.go:86-101 | TestBind's table: 233.100.100.33 and 198.65.22.33 are admitted, and admission is a function, so the duplicated row gets the same answer; 127.0.0.1, 198.65.43.43 and 123.32.33.33 are refused |
| ServerProperties.BindTableStatuses | server_test.go:65-83 | with no codec registered, the three refused clients get 403 and the two admitted POSTs get 415 |
| ServerProperties.LocalIPsMembers | server.go:115-120 | the addresses `BindLocal` collects are exactly those of the `*net.IPNet` entries |
| ServerProperties.BindLocalAdmitsExactlyLocal | server.go:110-126 | after a successful `BindLocal`, a well-formed address is admitted exactly when it equals an interface's IPNet address |
| ServerProperties.BindLocalTable | server_test.go:103-120 | TestBindLocal: with 127.0.0.1 and ::1 among the interfaces, those two are admitted and 32.32.33.33 is refused |
| ServerProperties.RejectedRequestResponse | server.go:130-166 | a request that fails a check gets that check's status (403, 405, 415 or 400) sent with an empty header, the error text as body, the plain-text Content-Type only in the live header, and no nosniff header |
| ServerProperties.FirstFailedCheckDecidesStatus | server.go:130-166 | checks run in the order admission (403), POST (405), codec (415), method name (400), lookup (400), argument decoding (400), and the first failure decides the status |
| ServerProperties.RefusedClientIgnoresEverythingElse | server.go:130-133 | a refused client's response depends only on the allow list and its address; no later step runs |
| ServerProperties.WrongVerbIgnoresCodecsAndServices | server.go:134-137 | a non-POST from an admitted client is answered without consulting codecs or services |
| ServerProperties.UnknownCodecIgnoresServices | server.go:138-147 | a request with no matching codec is answered without consulting the registry |
| ServerProperties.DispatchedRequestResponse | server.go:167-187 | once every check passes, nosniff is set and the sent header is nosniff plus the codec's headers. The method's own error never yields a server error status; the status is the one the codec writes (200 once it writes a body). A failed write yields 400 only if the codec wrote nothing before failing, keeps the codec's Content-Type in the sent header and appends the error text to the body |
| ServerProperties.NoSniffExactlyWhenDispatched | server.go:181-183 | the nosniff header is set exactly on requests that pass every check |
| ServerProperties.HasMethodPredictsLookup | server.go:95-100 | a name `HasMethod` rejects is answered 400 with the registry's error; a name it accepts is dispatched exactly when its argument decodes |
| ServerProperties.ExampleKeys | json/json_test.go:94 | "application/json" is its own codec key |
| ServerProperties.MultiplyEndToEnd | json/json_test.go:94-102 | registering Service1.Multiply and posting A=4, B=2 gives Result 8 and status 200 |
| ServerProperties.ExampleUndecodableBody | json/json_test.go:115-117 | a body that does not decode as the argument gives 400 |
| ServerProperties.ExampleWrongVerb | server.go:134-137 | a GET gives 405 |
| ServerProperties.ExampleUnknownContentType | server.go:143-147 | an unregistered content type gives 415 |

## Left out

- `RegisterService` (server.go:88-90) only delegates to `serviceMap.register`, and the service registry's source (map.go) is not part of this model. The registry is represented by its `get` operation, a function from a dotted name to a method or an error. Method discovery, the five signature rules, inferred names and overwrite on re-registration are therefore not modelled.
- Reflection (`reflect.New`, `Func.Call`, the cast to `error`) is reduced to `Zero` (a fresh zero value of the declared type) and `MethodSpec.call`.
- Codec internals (`NewRequest`, `Method`, `ReadRequest`, `WriteResponse`) and the JSON codec of json/error.go are oracles. The effect of `WriteResponse` on the writer is limited to setting headers, then optionally writing a status, then optionally writing a body.
- `net.SplitHostPort` and `net.ParseIP` come from a `Resolver`, and `net.InterfaceAddrs` is `BindLocal`'s parameter. `net.IP.Equal` follows Go's documented rule; it is part of Go's standard library, not of this repository.
- `addrToIP` (server_unix.go, server_windows.go) is not called by server.go.
- ContentType.ToLower: lower-cases ASCII letters only. Go's `strings.ToLower` also maps non-ASCII letters, and some of those change the UTF-8 length.
- `Request.contentType` is the single value `Header.Get("Content-Type")` returns, "" when absent. Header-name canonicalisation and repeated header values are not modelled. Response header names are stored as written.
- Several parts of `net/http` are not modelled: content sniffing of an unset Content-Type, status codes the server rejects, trailers and 1xx responses. A response whose status is still absent when the handler returns is one that `net/http` completes with 200.
- `Bind` in Go keeps the caller's slice, so a caller that later changes that slice changes the allow list. The model stores a copy (`seq`).
- Registering a nil codec, which Go would treat like an absent one (415), is not modelled. Codec values are never nil.
- Error values are represented by their message text. In the source the application error reaches the codec unchanged, so the codec decides how its structure is encoded; the model keeps only its text.
- Concurrency is not modelled: registration and binding are assumed to finish before requests are served, and the model is sequential.
- The HTTP body written by `writeError` is the message text; `fmt.Fprint` formatting is not modelled further.

## Findings

| source | as written | input that shows it | evidently intended | confidence | as-written member | corrected member |
|---|---|---|---|---|---|---|
| server.go:212-216 | `writeError` calls `WriteHeader(status)` before `Header().Set("Content-Type", ...)`, so the header map is already sent and the plain-text Content-Type is not among the sent headers | any request refused before dispatch, e.g. a GET on a fresh writer (405) | set the Content-Type, then write the status and message; the handler model keeps the order as written | medium, not executed (net/http may still fill in a text type by sniffing the body) | Http.ErrorAsWrittenSendsNoContentType | Http.ErrorWrittenSendsPlainText |
