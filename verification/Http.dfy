/** The data model and the error values shared by every protocol step. */
module Http {
  import opened Bytes

  datatype Option<+T> = None | Some(value: T)

  datatype Result<+T> = Ok(value: T) | Err(error: PolyguardError) {
    predicate IsFailure() { Err? }
    function PropagateFailure<U>(): Result<U> requires Err? { Err(error) }
    function Extract(): T requires Ok? { value }

    /** The accepted value, forgetting which error a rejection reports. */
    function Accepted(): Option<T> { if Ok? then Some(value) else None }
  }

  /** The bounded quantities; each name stands for the text the error carries. */
  datatype Limit =
    | RequestLineBytes | HeaderSectionBytes | HeaderNameBytes | HeaderValueBytes | ContentLengthLimit
    | ChunkLineBytes | ChunkSize | ChunkExtensions | TrailerBytes | TargetBytes | RouteCount | CanonicalHeadBytes

  /** The fixed reason categories of rejected input. */
  datatype Reason =
    | BareLineEnding | ControlCharacter | InvalidSpacing
    | InvalidName | WhitespaceBeforeColon | InvalidValueByte | ObsFold | InvalidConnectionToken
    | NonVisibleAscii | FragmentNotAllowed | BackslashNotAllowed | EmptyTarget | InvalidTargetByte
    | AsteriskMethod | ConnectRequiresAuthority | AuthorityMethod
    | InvalidPath | InvalidPercentEncoding | EncodedSeparator | EncodedControl | PathTraversal
    | InvalidLineEndingOrControl | InvalidSize | InvalidExtensionName | InvalidExtensionValue | InvalidQuotedString
    | TrailingBytes | InvalidTerminator
    | InvalidDeclaration | ForbiddenField | DuplicateDeclaration | TooManyFields | UndeclaredField | DuplicateField
    | NameTooLong | ValueTooLong
    | InvalidRouteTarget | InvalidHost | InvalidPathPrefix | InvalidUpstream | DuplicateDeclarationOrder

  datatype PolyguardError =
    | Incomplete
    | LimitExceeded(limit: Limit, max: nat, actual: nat)
    | InvalidRequestLine(reason: Reason)
    | UnsupportedVersion
    | InvalidMethod
    | InvalidTarget(reason: Reason)
    | InvalidHeader(index: nat, reason: Reason)
    | TooManyHeaders
    | InvalidContentLength
    | ConflictingContentLength
    | InvalidTransferEncoding
    | AmbiguousFraming
    | InvalidChunk(reason: Reason)
    | InvalidTrailer(reason: Reason)
    | InvalidAuthority
    | InvalidRoute(reason: Reason)
    | NoRoute
    | SerializationInvariant

  datatype HeaderField = HeaderField(name: Bytes, value: Bytes)

  datatype HeaderBlock = HeaderBlock(fields: seq<HeaderField>, bytesConsumed: nat)

  datatype RequestLine = RequestLine(verb: Bytes, target: Bytes, bytesConsumed: nat)

  datatype BodyFraming = NoBody | ContentLength(length: nat) | Chunked

  datatype TargetForm = Origin | Absolute | Authority | Asterisk

  datatype NormalizedTarget = NormalizedTarget(
    form: TargetForm,
    scheme: Option<Bytes>,
    authority: Option<Bytes>,
    pathAndQuery: Bytes,
    routingPath: Bytes)

  datatype EffectiveAuthority = EffectiveAuthority(host: Bytes, port: Option<nat>)

  datatype SanitizedHeaders = SanitizedHeaders(fields: seq<HeaderField>, removedNames: seq<Bytes>)

  datatype ForwardingResult = ForwardingResult(
    forwarded: Bytes,
    xForwardedFor: Bytes,
    xForwardedProto: Bytes,
    xForwardedHost: Bytes)

  /** What ends a connection's work: a protocol error or a failure of its surroundings. */
  datatype Fault =
    | ClientClosed
    | ClientIo
    | Timeout
    | TooLarge
    | Busy
    | Internal
    | Protocol(error: PolyguardError)

  datatype Outcome<+T> = Done(value: T) | Failed(fault: Fault) {
    predicate IsFailure() { Failed? }
    function PropagateFailure<U>(): Outcome<U> requires Failed? { Outcome.Failed(fault) }
    function Extract(): T requires Done? { value }
  }

  /** Which texts are IPv6 addresses. */
  type Ipv6 = Bytes -> bool

  // ---------- host names in canonical spelling ----------

  predicate LowerDnsLabel(part: Bytes) {
    && 1 <= |part| <= 63 && part[0] != '-' && part[|part| - 1] != '-'
    && forall i :: 0 <= i < |part| ==> IsLower(part[i]) || IsDigit(part[i]) || part[i] == '-'
  }

  predicate LowerDnsName(text: Bytes) {
    && 1 <= |text| <= 253 && text[|text| - 1] != '.'
    && forall part :: part in Split(text, '.') ==> LowerDnsLabel(part)
  }
}
