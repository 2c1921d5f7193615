/** The per-request metadata and headers of the stateless protocol. */
module StatelessProtocol {
  import opened Options
  import opened Json
  import opened Base64
  import opened HeaderValue

  const LATEST_PROTOCOL_VERSION := "2026-07-28"
  const META := "_meta"
  const META_PROTOCOL_VERSION := "io.modelcontextprotocol/protocolVersion"
  const META_CLIENT_INFO := "io.modelcontextprotocol/clientInfo"
  const META_CLIENT_CAPABILITIES := "io.modelcontextprotocol/clientCapabilities"

  /** The protocol version that a message names in `params._meta`. */
  function MetaVersion(message: Value): Option<string> {
    match Get(message, "params")
    case None => None
    case Some(params) =>
      match Get(params, META)
      case None => None
      case Some(meta) => GetStr(meta, META_PROTOCOL_VERSION)
  }

  function WithMeta(meta: map<string, Value>, clientInfo: Value): map<string, Value> {
    var versioned := meta[META_PROTOCOL_VERSION := Str(LATEST_PROTOCOL_VERSION)];
    var capable := if META_CLIENT_CAPABILITIES in versioned then versioned
                   else versioned[META_CLIENT_CAPABILITIES := Obj(map[])];
    if META_CLIENT_INFO in capable then capable else capable[META_CLIENT_INFO := clientInfo]
  }

  /** Adds the metadata of a stateless request; a message whose shape leaves no room
      for it is returned as it is. */
  function InsertMeta(message: Value, clientInfo: Value): Value {
    if !message.Obj? then message
    else
      var params := if "params" in message.fields then message.fields["params"] else Obj(map[]);
      if !params.Obj? then message
      else
        var meta := if META in params.fields then params.fields[META] else Obj(map[]);
        if !meta.Obj? then message
        else Obj(message.fields["params" := Obj(params.fields[META := Obj(WithMeta(meta.fields, clientInfo))])])
  }

  /** `params` and `_meta` are objects where they are present. */
  predicate CanCarryMeta(message: Value) {
    && message.Obj?
    && ("params" in message.fields ==>
          && message.fields["params"].Obj?
          && (META in message.fields["params"].fields ==> message.fields["params"].fields[META].Obj?))
  }

  /** Afterwards the message names the latest version exactly when it could carry
      metadata at all; otherwise nothing has changed. */
  lemma InsertedVersionIsReadable(message: Value, clientInfo: Value)
    ensures CanCarryMeta(message) ==> MetaVersion(InsertMeta(message, clientInfo)) == Some(LATEST_PROTOCOL_VERSION)
    ensures !CanCarryMeta(message) ==> InsertMeta(message, clientInfo) == message && MetaVersion(message) == None
  {
  }

  /** No entry of the message, of its parameters or of its metadata is lost or
      changed, other than the protocol version. */
  lemma InsertPreservesEntries(message: Value, clientInfo: Value, key: string)
    requires CanCarryMeta(message)
    ensures key != "params" ==> Get(InsertMeta(message, clientInfo), key) == Get(message, key)
    ensures var params' := Get(InsertMeta(message, clientInfo), "params").value;
            && ("params" in message.fields && key != META ==> Get(params', key) == Get(message.fields["params"], key))
            && ("params" in message.fields && META in message.fields["params"].fields && key != META_PROTOCOL_VERSION
                && key in message.fields["params"].fields[META].fields ==>
                  Get(Get(params', META).value, key) == Some(message.fields["params"].fields[META].fields[key]))
  {
  }

  /** Afterwards the metadata has all that a stateless request needs: the latest version,
      and capabilities and client information, those of the client if it gave any. */
  lemma InsertedMetaIsComplete(message: Value, clientInfo: Value)
    requires CanCarryMeta(message)
    ensures var meta' := Get(Get(InsertMeta(message, clientInfo), "params").value, "_meta").value;
            && Get(meta', "io.modelcontextprotocol/protocolVersion") == Some(Str("2026-07-28"))
            && Get(meta', "io.modelcontextprotocol/clientCapabilities").Some?
            && Get(meta', "io.modelcontextprotocol/clientInfo").Some?
            && (GivenMeta(message, "io.modelcontextprotocol/clientCapabilities").None? ==>
                  Get(meta', "io.modelcontextprotocol/clientCapabilities") == Some(Obj(map[])))
            && (GivenMeta(message, "io.modelcontextprotocol/clientInfo").None? ==>
                  Get(meta', "io.modelcontextprotocol/clientInfo") == Some(clientInfo))
  {
  }

  /** An entry of `params._meta`. */
  function GivenMeta(message: Value, key: string): Option<Value> {
    match Get(message, "params")
    case None => None
    case Some(params) =>
      match Get(params, "_meta")
      case None => None
      case Some(meta) => Get(meta, key)
  }

  // ---------------------------------------------------------------- preparing a message

  predicate IsRequest(payload: Value) {
    GetStr(payload, "method").Some? && Get(payload, "id").Some?
  }

  /** What goes upstream, and the protocol version for its headers if it goes there
      on the stateless protocol. */
  function PrepareUpstream(payload: Value, legacy: bool, clientInfo: Value): (Value, Option<string>) {
    var method_ := GetStr(payload, "method");
    if legacy || method_ == Some("initialize") || method_ == Some("notifications/initialized") then (payload, None)
    else
      var upstream := if IsRequest(payload) && MetaVersion(payload).None? then InsertMeta(payload, clientInfo)
                      else payload;
      (upstream, Some(match MetaVersion(upstream) case Some(v) => v case None => LATEST_PROTOCOL_VERSION))
  }

  /** The header and the body of a stateless message never name different versions; a
      version that the client chose is kept; and preparing twice changes nothing. */
  lemma PreparedMessageIsCoherent(payload: Value, clientInfo: Value)
    ensures var (upstream, version) := PrepareUpstream(payload, false, clientInfo);
            && (version.Some? && MetaVersion(upstream).Some? ==> version == MetaVersion(upstream))
            && (version.Some? && IsRequest(payload) && CanCarryMeta(payload) ==> MetaVersion(upstream).Some?)
            && (MetaVersion(payload).Some? ==> upstream == payload)
            && (!IsRequest(payload) ==> upstream == payload)
            && (IsRequest(payload) && CanCarryMeta(payload) && MetaVersion(payload).None? && version.Some? ==>
                  version == Some("2026-07-28"))
            && (version.None? <==>
                  GetStr(payload, "method") == Some("initialize")
                  || GetStr(payload, "method") == Some("notifications/initialized"))
            && (version.None? ==> upstream == payload)
            && (version.Some? && MetaVersion(payload).Some? ==> version == MetaVersion(payload))
            && PrepareUpstream(upstream, false, clientInfo) == (upstream, version)
  {
    InsertedVersionIsReadable(payload, clientInfo);
    if CanCarryMeta(payload) {
      InsertPreservesEntries(payload, clientInfo, "method");
      InsertPreservesEntries(payload, clientInfo, "id");
    }
  }

  // ---------------------------------------------------------------- headers

  /** `MCP-Protocol-Version`, `Mcp-Method` and `Mcp-Name`. */
  datatype HeaderName = ProtocolVersion | Method | Name

  datatype Header = Header(name: HeaderName, value: string)

  /** The parameter that names the target of a method. */
  function NameKey(method_: string): Option<string> {
    if method_ == "tools/call" || method_ == "prompts/get" then Some("name")
    else if method_ == "resources/read" then Some("uri")
    else None
  }

  function TargetName(message: Value): Option<string> {
    match (GetStr(message, "method"), Get(message, "params"))
    case (Some(m), Some(params)) => (match NameKey(m) case Some(key) => GetStr(params, key) case None => None)
    case _ => None
  }

  function ParamStr(message: Value, key: string): Option<string> {
    match Get(message, "params")
    case None => None
    case Some(params) => GetStr(params, key)
  }

  function HeaderNamed(headers: seq<Header>, name: HeaderName): Option<string> {
    if headers == [] then None
    else if headers[0].name == name then Some(headers[0].value)
    else HeaderNamed(headers[1..], name)
  }

  lemma {:induction false} HeaderAppended(headers: seq<Header>, h: Header, name: HeaderName)
    ensures HeaderNamed(headers + [h], name)
         == match HeaderNamed(headers, name)
            case Some(v) => Some(v)
            case None => if h.name == name then Some(h.value) else None
  {
    if headers != [] {
      HeaderAppended(headers[1..], h, name);
      assert (headers + [h])[1..] == headers[1..] + [h];
    }
  }

  /** `utf8` gives the bytes of a text. The receiver gets back the version, the method
      and the bytes of the target's name, and no name header without a target. */
  method StatelessRequestHeaders(message: Value, version: string, utf8: string -> seq<Byte>)
    returns (headers: seq<Header>)
    ensures HeaderNamed(headers, ProtocolVersion) == Some(version)
    ensures HeaderNamed(headers, Method) == GetStr(message, "method")
    ensures GetStr(message, "method") == Some("tools/call") || GetStr(message, "method") == Some("prompts/get") ==>
              TargetName(message) == ParamStr(message, "name")
    ensures GetStr(message, "method") == Some("resources/read") ==> TargetName(message) == ParamStr(message, "uri")
    ensures GetStr(message, "method") !in {Some("tools/call"), Some("prompts/get"), Some("resources/read")} ==>
              TargetName(message) == None
    ensures TargetName(message).None? ==> HeaderNamed(headers, Name) == None
    ensures TargetName(message).Some? ==>
              HeaderNamed(headers, Name).Some?
              && DecodeHeaderValue(HeaderNamed(headers, Name).value) == Some(utf8(TargetName(message).value))
  {
    headers := [Header(ProtocolVersion, version)];
    var method_ := GetStr(message, "method");
    if method_.None? {
      return;
    }
    forall name ensures HeaderNamed(headers + [Header(Method, method_.value)], name)
                     == if name == ProtocolVersion then Some(version) else if name == Method then method_ else None {
      HeaderAppended(headers, Header(Method, method_.value), name);
    }
    headers := headers + [Header(Method, method_.value)];
    var name := TargetName(message);
    if name.Some? {
      var encoded := EncodeHeaderValue(utf8(name.value));
      assert DecodeHeaderValue(encoded) == Some(utf8(name.value)) by {
        HeaderValuesRoundTrip(utf8(name.value));
      }
      HeaderAppended(headers, Header(Name, encoded), ProtocolVersion);
      HeaderAppended(headers, Header(Name, encoded), Method);
      HeaderAppended(headers, Header(Name, encoded), Name);
      headers := headers + [Header(Name, encoded)];
    }
  }
}
