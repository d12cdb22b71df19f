/** Error codes carried in exception text, as `src/error/rpc.rs` writes and reads them. */
module WireText {
  import opened Bytes

  const WIRE_PREFIX: string := "[ogurpchik:"

  datatype WireCode =
    Unauthenticated | PermissionDenied | InvalidArgument | NotFound | Unavailable | LimitExceeded | Internal | Unknown

  function Slug(code: WireCode): string {
    match code
    case Unauthenticated => "unauthenticated"
    case PermissionDenied => "permission-denied"
    case InvalidArgument => "invalid-argument"
    case NotFound => "not-found"
    case Unavailable => "unavailable"
    case LimitExceeded => "limit-exceeded"
    case Internal => "internal"
    case Unknown => "unknown"
  }

  function FromSlug(slug: string): WireCode {
    if slug == "unauthenticated" then Unauthenticated
    else if slug == "permission-denied" then PermissionDenied
    else if slug == "invalid-argument" then InvalidArgument
    else if slug == "not-found" then NotFound
    else if slug == "unavailable" then Unavailable
    else if slug == "limit-exceeded" then LimitExceeded
    else if slug == "internal" then Internal
    else Unknown
  }

  function Encode(code: Option<WireCode>, message: string): string {
    match code
    case Some(c) => WIRE_PREFIX + Slug(c) + "] " + message
    case None => message
  }

  /** Where `c` first stands in `s`. */
  function Find(s: string, c: char): (r: Option<nat>)
    ensures r.Some? ==> r.value < |s| && s[r.value] == c
    ensures r.None? <==> c !in s
  {
    if s == [] then None
    else if s[0] == c then Some(0)
    else match Find(s[1..], c)
         case None => None
         case Some(i) => Some(i + 1)
  }

  datatype Text = Text(code: Option<WireCode>, message: string)

  function Decode(extra: string): Text {
    if !(WIRE_PREFIX <= extra) then Text(None, extra)
    else
      var rest := extra[|WIRE_PREFIX|..];
      match Find(rest, ']')
      case None => Text(None, extra)
      case Some(end) =>
        var after := rest[end + 1..];
        var message := if " " <= after then after[1..] else after;
        Text(Some(FromSlug(rest[..end])), message)
  }

  lemma SlugRoundTrip(code: WireCode)
    ensures FromSlug(Slug(code)) == code && ']' !in Slug(code)
  {
  }

  /** A coded message comes back with its code and its text, whatever the text is. */
  lemma CodedRoundTrip(code: WireCode, message: string)
    ensures Decode(Encode(Some(code), message)) == Text(Some(code), message)
  {
    SlugRoundTrip(code);
    hide Slug, FromSlug, Decode;
    DecodeOfParts(Slug(code), message);
    assert Encode(Some(code), message) == WIRE_PREFIX + (Slug(code) + ("] " + message));
  }

  lemma DecodeOfParts(slug: string, message: string)
    requires ']' !in slug
    ensures Decode(WIRE_PREFIX + (slug + ("] " + message))) == Text(Some(FromSlug(slug)), message)
  {
    hide FromSlug, Find;
    var rest := slug + ("] " + message);
    Stripped(WIRE_PREFIX, rest);
    assert rest[..|slug|] == slug;
    FindIs(rest, ']', |slug|);
    assert rest[|slug| + 1..] == " " + message;
  }

  lemma Stripped(prefix: string, rest: string)
    ensures prefix <= prefix + rest && (prefix + rest)[|prefix|..] == rest
  {
  }

  lemma {:induction false} FindIs(s: string, c: char, k: nat)
    requires k < |s| && s[k] == c && c !in s[..k]
    ensures Find(s, c) == Some(k)
  {
    if k > 0 {
      assert s[0] in s[..k];
      assert s[1..][..k - 1] == s[..k][1..];
      FindIs(s[1..], c, k - 1);
    }
  }

  /** A message without a code comes back as it is, unless it looks like a coded one itself. */
  lemma UncodedRoundTrip(message: string)
    ensures Decode(Encode(None, message)) == Text(None, message)
       <==> !(WIRE_PREFIX <= message && ']' in message[|WIRE_PREFIX|..])
  {
  }

  /** The names codes go by, and that no other name stands for a code this side knows. */
  lemma SlugsAre(slug: string)
    ensures FromSlug("unauthenticated") == Unauthenticated && FromSlug("permission-denied") == PermissionDenied
    ensures FromSlug("invalid-argument") == InvalidArgument && FromSlug("not-found") == NotFound
    ensures FromSlug("unavailable") == Unavailable && FromSlug("limit-exceeded") == LimitExceeded
    ensures FromSlug("internal") == Internal
    ensures FromSlug(slug) == Unknown
       <==> slug !in {"unauthenticated", "permission-denied", "invalid-argument", "not-found", "unavailable",
                      "limit-exceeded", "internal"}
  {
  }

  /** A code of a peer that knows more of them arrives as unknown, with its message. */
  lemma UnrecognisedSlug(slug: string, message: string)
    requires ']' !in slug && FromSlug(slug) == Unknown
    ensures Decode("[ogurpchik:" + (slug + ("] " + message))) == Text(Some(Unknown), message)
  {
    DecodeOfParts(slug, message);
  }

  // ---- errors received and passed on ----------------------------------------------------------------------------

  /** Error kinds of the RPC layer; `Special` stands for all those this code does not name. */
  datatype Kind = Failed | Overloaded | Disconnected | Unimplemented | Special

  datatype Exception = Exception(kind: Kind, extra: string)

  datatype RpcError = Setup | Remote(kind: Kind, code: Option<WireCode>) | Handler | NotImplemented | OverLimit

  function KindName(kind: Kind): string {
    match kind
    case Failed => "Failed"
    case Overloaded => "Overloaded"
    case Disconnected => "Disconnected"
    case Unimplemented => "Unimplemented"
    case Special => "Other"
  }

  function Show(e: RpcError): string {
    match e
    case Setup => "failed to establish rpc connection"
    case Remote(kind, Some(code)) => "remote rpc error (" + KindName(kind) + ", " + Slug(code) + ")"
    case Remote(kind, None) => "remote rpc error (" + KindName(kind) + ")"
    case Handler => "local handler failed"
    case NotImplemented => "method not implemented"
    case OverLimit => "message exceeded configured limits"
  }

  /** A report: the text of its context, the RPC error in it if there is one, and what is attached to it. */
  datatype Report = Report(shown: string, rpc: Option<RpcError>, code: Option<WireCode>, wireMessage: Option<string>,
                           remoteMessage: Option<string>)

  function CodeKind(code: WireCode): Kind {
    if code.Unavailable? then Overloaded else Failed
  }

  function FromException(err: Exception): Report {
    var text := Decode(err.extra);
    var e := Remote(err.kind, text.code);
    Report(Show(e), Some(e), None, None, Some(text.message))
  }

  function ToException(report: Report): Exception {
    var message := if report.wireMessage.Some? then report.wireMessage.value else report.shown;
    var kind := match (report.code, report.rpc)
      case (Some(code), _) => CodeKind(code)
      case (None, Some(NotImplemented)) => Unimplemented
      case (None, Some(Remote(_, _))) => Disconnected
      case _ => Failed;
    Exception(kind, Encode(report.code, message))
  }

  /** A code attached to a report reaches the peer, with the text that goes with it. */
  lemma AttachedCodeArrives(report: Report)
    requires report.code.Some?
    ensures var got := FromException(ToException(report));
            && got.rpc == Some(Remote(CodeKind(report.code.value), report.code))
            && got.remoteMessage
            == Some(if report.wireMessage.Some? then report.wireMessage.value else report.shown)
  {
    CodedRoundTrip(report.code.value,
                   if report.wireMessage.Some? then report.wireMessage.value else report.shown);
    hide Decode, Encode;
  }

  /** Which kind of exception a report becomes. */
  lemma KindsSent(report: Report)
    ensures ToException(report).kind == Overloaded <==> report.code == Some(Unavailable)
    ensures ToException(report).kind == Unimplemented <==> report.code.None? && report.rpc == Some(NotImplemented)
    ensures ToException(report).kind == Disconnected
       <==> report.code.None? && report.rpc.Some? && report.rpc.value.Remote?
    ensures ToException(report).kind != Special
  {
  }

  /** A report without a code arrives as one, with its text, exactly when the text does not look like a coded one. */
  lemma UncodedArrives(report: Report)
    requires report.code.None?
    ensures var text := if report.wireMessage.Some? then report.wireMessage.value else report.shown;
            var got := FromException(ToException(report));
            && (got.rpc == Some(Remote(ToException(report).kind, None)) && got.remoteMessage == Some(text)
                <==> !("[ogurpchik:" <= text && ']' in text[11..]))
            && ToException(report).extra == text
  {
    UncodedRoundTrip(if report.wireMessage.Some? then report.wireMessage.value else report.shown);
    hide Decode, Show;
  }

  /** What a peer passes on `hops` times, attaching nothing. */
  function Relayed(err: Exception, hops: nat): Exception {
    if hops == 0 then err else ToException(FromException(Relayed(err, hops - 1)))
  }

  /** A received error that is passed on without a new attachment never decodes to a code again, and counts as a
      disconnection, however often it is passed on and whatever the first peer wrote. */
  lemma RelayedNeverCoded(err: Exception, hops: nat)
    requires hops > 0
    ensures Decode(Relayed(err, hops).extra).code == None
    ensures Decode(Relayed(err, hops).extra).message == Relayed(err, hops).extra
    ensures Relayed(err, hops).kind == Disconnected
  {
    var report := FromException(Relayed(err, hops - 1));
    assert report.shown[0] == 'r';
    assert Relayed(err, hops).extra == report.shown;
  }
}
