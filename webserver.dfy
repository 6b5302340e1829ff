/**
 * The HTTP control plane of the attack firmware: the `/reset`, `/ap-list`,
 * `/run-attack` and `/status` handlers. The HTTP server and the default
 * event loop are replaced by one ordered log (`Server.trace`) of what the
 * handlers send to the client and what they post to the event loop.
 */
module Webserver {
  import opened CString
  import opened Json
  import opened Bssid
  import opened WifiTypes

  /** Size of the `ssid` buffer of `attack_request_t` (attack.h is not part of this model). */
  const SSID_BOUND: nat := 33

  const TYPE_JSON: string := "application/json"      // HTTPD_TYPE_JSON
  const TYPE_OCTET: string := "application/octet-stream"  // HTTPD_TYPE_OCTET
  const TYPE_TEXT: string := "text/plain"

  const ACK_TEXT: string := "Attack request received successfully"
  const ACK_BODY: seq<byte> := Ascii(ACK_TEXT)

  /** The bytes of an ASCII text. */
  function Ascii(s: string): (b: seq<byte>)
    requires forall i :: 0 <= i < |s| ==> s[i] as int < 256
    ensures |b| == |s|
  {
    seq(|s|, i requires 0 <= i < |s| => s[i] as int)
  }

  /** The attack command the engine receives (`attack_request_t`). */
  datatype AttackRequest = AttackRequest(
    ssid: seq<byte>,    // char ssid[SSID_BOUND]
    attackType: int,
    attackMethod: int,
    timeout: int)

  /** The events of `WEBSERVER_EVENTS`, with their payloads. */
  datatype WebserverEvent =
    | AttackReset                               // WEBSERVER_EVENT_ATTACK_RESET, no payload
    | AttackRequested(request: AttackRequest)   // WEBSERVER_EVENT_ATTACK_REQUEST, a copy of the request

  /** What a handler does towards the client or the event loop, in order. */
  datatype Action =
    | SetType(contentType: string)   // httpd_resp_set_type
    | Send(body: seq<byte>)          // httpd_resp_send
    | SendJson(doc: JsonValue)       // httpd_resp_send of cJSON_Print(doc)
    | SendChunk(chunk: seq<byte>)    // httpd_resp_send_chunk
    | Send500                        // httpd_resp_send_500
    | Post(event: WebserverEvent)    // esp_event_post

  datatype EspErr = EspOk | EspFail

  /** The events posted in a log, in posting order. */
  function Posted(trace: seq<Action>): seq<WebserverEvent>
  {
    if trace == [] then []
    else (if trace[0].Post? then [trace[0].event] else []) + Posted(trace[1..])
  }

  /** Posting is a log: the events of two consecutive stretches are those of each, in order. */
  lemma {:induction false} PostedAppend(a: seq<Action>, b: seq<Action>)
    ensures Posted(a + b) == Posted(a) + Posted(b)
  {
    if a == [] {
      assert a + b == b;
    } else {
      assert (a + b)[0] == a[0];
      assert (a + b)[1..] == a[1..] + b;
      PostedAppend(a[1..], b);
    }
  }

  // ---------------------------------------------------------------- /reset

  /** The log of one `HEAD /reset`: post the reset event, then an empty response. */
  function ResetActions(): seq<Action> { [Post(AttackReset), Send([])] }

  /** One `/reset` posts the reset event and nothing else. */
  lemma ResetPostsReset()
    ensures Posted(ResetActions()) == [AttackReset]
  {
  }

  /** `n` requests to `/reset` post exactly `n` reset events and nothing else. */
  lemma {:induction false} ResetsPostOneEach(n: nat)
    ensures Posted(Repeat(ResetActions(), n)) == seq(n, _ => AttackReset)
  {
    if n > 0 {
      ResetsPostOneEach(n - 1);
      PostedAppend(ResetActions(), Repeat(ResetActions(), n - 1));
      ResetPostsReset();
      assert [AttackReset] + seq(n - 1, _ => AttackReset) == seq(n, _ => AttackReset);
    }
  }

  /** `n` copies of a log stretch, one after the other. */
  function Repeat(a: seq<Action>, n: nat): seq<Action>
  {
    if n == 0 then [] else a + Repeat(a, n - 1)
  }

  // ------------------------------------------------------------ /run-attack

  /**
   * The `content_len + 1` bytes of the malloc'd buffer after the body is
   * received and terminated: the received bytes at the start, whatever the
   * allocator left in the bytes that were not received, and a NUL at
   * index `content_len`.
   */
  function ReceiveBuffer(heap: seq<byte>, data: seq<byte>, contentLen: nat): seq<byte>
    requires |heap| == contentLen + 1 && |data| <= contentLen
  {
    data + heap[|data|..contentLen] + [NUL]
  }

  /**
   * cJSON reads no further than the terminator at `content_len`: it sees
   * the received bytes up to their first NUL, and when they hold none, the
   * bytes that were never received too, up to the first NUL among them.
   */
  lemma ParserSeesReceivedBody(heap: seq<byte>, data: seq<byte>, contentLen: nat)
    requires |heap| == contentLen + 1 && |data| <= contentLen
    ensures |CStr(ReceiveBuffer(heap, data, contentLen))| <= contentLen
    ensures CStr(ReceiveBuffer(heap, data, contentLen)) ==
            if NUL in data then CStr(data) else data + CStr(heap[|data|..contentLen])
  {
    var unreceived := heap[|data|..contentLen];
    assert ReceiveBuffer(heap, data, contentLen) == data + (unreceived + [NUL]);
    CStrAppend(data, unreceived + [NUL]);
    CStrThenNul(unreceived);
  }

  /**
   * The `ssid` buffer of the request: `strncpy` of the JSON string into the
   * first `SSID_BOUND - 1` bytes; the last byte is never written and keeps
   * whatever the uninitialised stack held (`residue`).
   */
  function SsidField(valuestring: seq<byte>, residue: byte): seq<byte>
  {
    Strncpy(valuestring, SSID_BOUND - 1) + [residue]
  }

  /**
   * The SSID the engine reads is a prefix of the requested one, cut to
   * `SSID_BOUND - 1` bytes. It is terminated exactly when the requested
   * SSID is shorter than that; otherwise no NUL is written and only the
   * indeterminate last byte follows the copied bytes.
   */
  lemma SsidFieldReadsBack(valuestring: seq<byte>, residue: byte)
    ensures |SsidField(valuestring, residue)| == SSID_BOUND
    ensures var copied := SsidField(valuestring, residue)[..SSID_BOUND - 1];
            && CStr(copied) <= CStr(valuestring)
            && |CStr(copied)| == Min(|CStr(valuestring)|, SSID_BOUND - 1)
            && (NUL in copied <==> |CStr(valuestring)| < SSID_BOUND - 1)
    ensures |CStr(valuestring)| < SSID_BOUND - 1 ==> CStr(SsidField(valuestring, residue)) == CStr(valuestring)
    ensures SsidField(valuestring, residue)[SSID_BOUND - 1] == residue
  {
    StrncpyReadsBack(valuestring, SSID_BOUND - 1);
    StrncpyThenByte(valuestring, SSID_BOUND - 1, residue);
  }

  /**
   * The schema check and the copy into `attack_request_t`: `ssid` must be a
   * string and `attack_type`, `attack_method` and `timeout` numbers; other
   * members (`bssid`, `ap_record_id`, ...) are not read.
   */
  function ValidateAttackRequest(root: JsonValue, residue: byte): (r: Option<AttackRequest>)
    ensures r.Some? ==> |r.value.ssid| == SSID_BOUND && r.value.ssid[SSID_BOUND - 1] == residue
  {
    var ssid := GetObjectItem(root, "ssid");
    var attackType := GetObjectItem(root, "attack_type");
    var attackMethod := GetObjectItem(root, "attack_method");
    var timeout := GetObjectItem(root, "timeout");
    if !IsString(ssid) || !IsNumber(attackType) || !IsNumber(attackMethod) || !IsNumber(timeout) then None
    else Some(AttackRequest(SsidField(ssid.value.valuestring, residue),
                            attackType.value.valueint, attackMethod.value.valueint, timeout.value.valueint))
  }

  /** `cJSON_IsString` of a lookup holds exactly when the first member with the name is a string. */
  lemma LookupIsString(root: JsonValue, name: string)
    ensures IsString(GetObjectItem(root, name)) <==>
            root.JObject? && exists k :: 0 <= k < |root.members| && FirstNamed(root.members, name, k) && root.members[k].value.JString?
  {
    if root.JObject? && exists k :: 0 <= k < |root.members| && FirstNamed(root.members, name, k) && root.members[k].value.JString? {
      var k :| 0 <= k < |root.members| && FirstNamed(root.members, name, k) && root.members[k].value.JString?;
      GetObjectItemFirst(root, name, k);
    }
  }

  /** `cJSON_IsNumber` of a lookup holds exactly when the first member with the name is a number. */
  lemma LookupIsNumber(root: JsonValue, name: string)
    ensures IsNumber(GetObjectItem(root, name)) <==>
            root.JObject? && exists k :: 0 <= k < |root.members| && FirstNamed(root.members, name, k) && root.members[k].value.JNumber?
  {
    if root.JObject? && exists k :: 0 <= k < |root.members| && FirstNamed(root.members, name, k) && root.members[k].value.JNumber? {
      var k :| 0 <= k < |root.members| && FirstNamed(root.members, name, k) && root.members[k].value.JNumber?;
      GetObjectItemFirst(root, name, k);
    }
  }

  /**
   * The schema the validator enforces, stated over the members themselves:
   * an object whose first `ssid` member is a string and whose first
   * `attack_type`, `attack_method` and `timeout` members are numbers (later
   * members with the same name are never looked at).
   */
  predicate HasRequiredFields(root: JsonValue)
  {
    && root.JObject?
    && (exists k :: 0 <= k < |root.members| && FirstNamed(root.members, "ssid", k) && root.members[k].value.JString?)
    && (exists k :: 0 <= k < |root.members| && FirstNamed(root.members, "attack_type", k) && root.members[k].value.JNumber?)
    && (exists k :: 0 <= k < |root.members| && FirstNamed(root.members, "attack_method", k) && root.members[k].value.JNumber?)
    && (exists k :: 0 <= k < |root.members| && FirstNamed(root.members, "timeout", k) && root.members[k].value.JNumber?)
  }

  /** The validator accepts a document exactly when it has the required schema. */
  lemma ValidateAcceptsSchema(root: JsonValue, residue: byte)
    ensures ValidateAttackRequest(root, residue).Some? <==> HasRequiredFields(root)
  {
    LookupIsString(root, "ssid");
    LookupIsNumber(root, "attack_type");
    LookupIsNumber(root, "attack_method");
    LookupIsNumber(root, "timeout");
  }

  /**
   * With a repeated name only the first member counts: a numeric `ssid`
   * followed by a string `ssid` is rejected.
   */
  lemma FirstDuplicateDecides(residue: byte)
    ensures var doc := JObject([Member("ssid", JNumber(1)), Member("ssid", JString([65])),
                                Member("attack_type", JNumber(1)), Member("attack_method", JNumber(2)),
                                Member("timeout", JNumber(30))]);
            ValidateAttackRequest(doc, residue).None?
  {
    var doc := JObject([Member("ssid", JNumber(1)), Member("ssid", JString([65])),
                        Member("attack_type", JNumber(1)), Member("attack_method", JNumber(2)),
                        Member("timeout", JNumber(30))]);
    assert FirstMember(doc.members, "ssid") == 0;
  }

  /** The request carries the parsed numbers unchanged and the bounded copy of the SSID. */
  lemma ValidatedRequestFields(root: JsonValue, residue: byte)
    requires ValidateAttackRequest(root, residue).Some?
    ensures var r := ValidateAttackRequest(root, residue).value;
            && GetObjectItem(root, "ssid").Some?
            && r.ssid == SsidField(GetObjectItem(root, "ssid").value.valuestring, residue)
            && GetObjectItem(root, "attack_type") == Some(JNumber(r.attackType))
            && GetObjectItem(root, "attack_method") == Some(JNumber(r.attackMethod))
            && GetObjectItem(root, "timeout") == Some(JNumber(r.timeout))
    ensures HasRequiredFields(root)
  {
  }

  /** The outcome of one `POST /run-attack`. */
  datatype PostOutcome = Rejected | Accepted(request: AttackRequest)

  /**
   * The handler's decision: allocation failure, a receive that returns no
   * bytes (`received` is `None` for an error, an empty sequence for a
   * closed connection), a body cJSON does not parse, or a failed schema
   * check all reject; otherwise the request built from the document.
   */
  function RunAttack(contentLen: nat, allocOk: bool, heap: seq<byte>, received: Option<seq<byte>>,
                     parse: seq<byte> -> Option<JsonValue>, residue: byte): (r: PostOutcome)
    requires |heap| == contentLen + 1
    requires received.Some? ==> |received.value| <= contentLen
    ensures r.Accepted? ==> |r.request.ssid| == SSID_BOUND && r.request.ssid[SSID_BOUND - 1] == residue
  {
    if !allocOk || received.None? || |received.value| == 0 then Rejected
    else
      var doc := parse(CStr(ReceiveBuffer(heap, received.value, contentLen)));
      if doc.None? then Rejected
      else match ValidateAttackRequest(doc.value, residue)
        case None => Rejected
        case Some(request) => Accepted(request)
  }

  /** The log a `/run-attack` request leaves behind. */
  function RunAttackActions(outcome: PostOutcome): seq<Action>
  {
    match outcome
    case Rejected => [Send500]
    case Accepted(request) => [SetType(TYPE_TEXT), Send(ACK_BODY), Post(AttackRequested(request))]
  }

  /**
   * Every failure path answers 500 and posts nothing; a request is accepted
   * exactly when allocation and receive succeed, the body parses and the
   * first member of each required name has its type.
   */
  lemma RunAttackAcceptance(contentLen: nat, allocOk: bool, heap: seq<byte>, received: Option<seq<byte>>,
                            parse: seq<byte> -> Option<JsonValue>, residue: byte)
    requires |heap| == contentLen + 1
    requires received.Some? ==> |received.value| <= contentLen
    ensures var o := RunAttack(contentLen, allocOk, heap, received, parse, residue);
            o.Accepted? <==>
              && allocOk && received.Some? && |received.value| > 0
              && var doc := parse(CStr(ReceiveBuffer(heap, received.value, contentLen)));
              && doc.Some?
              && HasRequiredFields(doc.value)
    ensures var o := RunAttack(contentLen, allocOk, heap, received, parse, residue);
            o.Rejected? ==> RunAttackActions(o) == [Send500] && Posted(RunAttackActions(o)) == []
  {
    if allocOk && received.Some? && |received.value| > 0 {
      var doc := parse(CStr(ReceiveBuffer(heap, received.value, contentLen)));
      if doc.Some? {
        ValidateAcceptsSchema(doc.value, residue);
      }
    }
  }

  /**
   * An accepted request posts exactly one `ATTACK_REQUEST` carrying the
   * request, and the acknowledgement is sent before the event is posted.
   */
  lemma AcceptedPostsOnceAfterAck(request: AttackRequest)
    ensures Posted(RunAttackActions(Accepted(request))) == [AttackRequested(request)]
    ensures var a := RunAttackActions(Accepted(request));
            exists i, j :: 0 <= i < j < |a| && a[i] == Send(ACK_BODY) && a[j] == Post(AttackRequested(request))
  {
    var a := RunAttackActions(Accepted(request));
    assert a[1] == Send(ACK_BODY) && a[2] == Post(AttackRequested(request));
    assert a[1..] == [a[1], a[2]];
    assert a[1..][1..] == [a[2]];
    assert a[1..][1..][1..] == [];
    assert Posted(a[1..][1..]) == [AttackRequested(request)];
    assert Posted(a[1..]) == [AttackRequested(request)];
  }

  // ---------------------------------------------------------------- /status

  datatype AttackState = Ready | Running | Finished | Timeout

  /**
   * The engine's `attack_status_t`, read as one value: its first four bytes (the
   * header, sent as they are), the state, and `content_size` bytes of
   * `content`.
   */
  datatype AttackStatus = AttackStatus(header: seq<byte>, state: AttackState, contentSize: nat, content: seq<byte>)

  predicate WellFormedStatus(s: AttackStatus)
  {
    |s.header| == 4 && s.contentSize <= |s.content|
  }

  /** A finished or timed-out attack with a non-empty result. */
  predicate HasResult(s: AttackStatus)
  {
    (s.state == Finished || s.state == Timeout) && s.contentSize > 0
  }

  /** The chunks of the `/status` response, the terminating empty chunk last. */
  function StatusChunks(s: AttackStatus): (c: seq<seq<byte>>)
    requires WellFormedStatus(s)
    ensures |c| == if HasResult(s) then 3 else 2
    ensures c[0] == s.header && c[|c| - 1] == []
    ensures HasResult(s) ==> c[1] == s.content[..s.contentSize]
  {
    [s.header] + (if HasResult(s) then [s.content[..s.contentSize]] else []) + [[]]
  }

  function Concat(chunks: seq<seq<byte>>): seq<byte>
  {
    if chunks == [] then [] else chunks[0] + Concat(chunks[1..])
  }

  /**
   * The response body is the 4-byte header, followed by the result exactly
   * when the attack finished or timed out with content; only the last chunk
   * is empty, so the response ends there and nowhere earlier.
   */
  lemma StatusResponseBody(s: AttackStatus)
    requires WellFormedStatus(s)
    ensures Concat(StatusChunks(s)) == s.header + (if HasResult(s) then s.content[..s.contentSize] else [])
    ensures |Concat(StatusChunks(s))| > 4 <==> HasResult(s)
    ensures Concat(StatusChunks(s))[..4] == s.header
    ensures var c := StatusChunks(s); c[|c| - 1] == [] && forall i :: 0 <= i < |c| - 1 ==> c[i] != []
  {
    var c: seq<seq<byte>> := StatusChunks(s);
    var empty: seq<byte> := [];
    if HasResult(s) {
      var result := s.content[..s.contentSize];
      assert c == [s.header, result, empty];
      assert c[1..] == [result, empty];
      assert c[1..][1..] == [empty];
      assert c[1..][1..][1..] == [];
      assert Concat(c[1..][1..]) == empty;
      assert Concat(c[1..]) == result;
    } else {
      assert c == [s.header, empty];
      assert c[1..] == [empty];
      assert c[1..][1..] == [];
      assert Concat(c[1..]) == empty;
    }
  }

  // --------------------------------------------------------------- /ap-list

  /** The JSON object for one scan record: SSID, BSSID text and RSSI, in that order. */
  function ApObject(r: ApRecord): (o: JsonValue)
    requires ValidApRecord(r)
    ensures o.JObject? && |o.members| == 3
    ensures o.members[0] == Member("ssid", JString(CStr(r.ssid)))
    ensures o.members[1].name == "bssid" && o.members[1].value.JString?
    ensures |o.members[1].value.valuestring| + 1 == BSSID_STR_SIZE
    ensures o.members[2] == Member("rssi", JNumber(r.rssi))
  {
    JObject([Member("ssid", JString(CStr(r.ssid))),
             Member("bssid", JString(FormatBssid(r.bssid))),
             Member("rssi", JNumber(r.rssi))])
  }

  /** The `/ap-list` document: one object per scan record, in record order. */
  function ApListJson(records: seq<ApRecord>): (doc: JsonValue)
    requires forall i :: 0 <= i < |records| ==> ValidApRecord(records[i])
    ensures doc.JArray? && |doc.items| == |records|
    ensures forall i :: 0 <= i < |records| ==> doc.items[i] == ApObject(records[i])
  {
    JArray(seq(|records|, i requires 0 <= i < |records| => ApObject(records[i])))
  }

  /**
   * The array has one element per record; element `i` names record `i`'s
   * SSID (as the driver's C string), its RSSI, and a BSSID text that reads
   * back as record `i`'s six bytes.
   */
  lemma ApListDescribesRecords(records: seq<ApRecord>, i: nat)
    requires forall j :: 0 <= j < |records| ==> ValidApRecord(records[j])
    requires i < |records|
    ensures |ApListJson(records).items| == |records|
    ensures var item := ApListJson(records).items[i];
            && GetObjectItem(item, "ssid") == Some(JString(CStr(records[i].ssid)))
            && GetObjectItem(item, "rssi") == Some(JNumber(records[i].rssi))
            && GetObjectItem(item, "bssid").Some?
            && GetObjectItem(item, "bssid").value.JString?
            && ParseBssid(GetObjectItem(item, "bssid").value.valuestring) == Some(records[i].bssid)
  {
    var item := ApListJson(records).items[i];
    assert item == ApObject(records[i]);
    var ms := item.members;
    assert ms[1..][0] == ms[1] && ms[1..][1..][0] == ms[2];
    assert FirstMember(ms, "ssid") == 0;
    assert FirstMember(item.members, "bssid") == 1;
    assert FirstMember(item.members, "rssi") == 2;
    ParseFormatBssid(records[i].bssid);
  }

  /** A successful `malloc`: a fresh buffer holding whatever bytes the allocator left there. */
  method Allocate(heap: seq<byte>) returns (buf: array<byte>)
    ensures fresh(buf) && buf[..] == heap
  {
    buf := new byte[|heap|](i requires 0 <= i < |heap| => heap[i]);
  }

  /**
   * `httpd_req_recv` writing the received bytes to the start of the
   * buffer, and the terminator written at index `content_len`.
   */
  method StoreBody(buf: array<byte>, heap: seq<byte>, data: seq<byte>, contentLen: nat)
    requires buf.Length == contentLen + 1 && buf[..] == heap && |data| <= contentLen
    modifies buf
    ensures buf[..] == ReceiveBuffer(heap, data, contentLen)
  {
    forall i | 0 <= i < |data| {
      buf[i] := data[i];
    }
    buf[contentLen] := NUL;
  }

  // ----------------------------------------------------------------- server

  /** The server as the handlers see it: everything sent and posted so far. */
  class Server {
    var trace: seq<Action>

    constructor ()
      ensures trace == []
    {
      trace := [];
    }

    /** `HEAD /reset`: post `ATTACK_RESET` with no payload, then answer with an empty body. */
    method ResetHead() returns (err: EspErr)
      modifies this
      ensures trace == old(trace) + ResetActions()
      ensures err == EspOk
    {
      trace := trace + [Post(AttackReset)];
      trace := trace + [Send([])];
      err := EspOk;
    }

    /** `GET /ap-list` over the records of the scan it triggers. */
    method ApListGet(records: seq<ApRecord>) returns (err: EspErr)
      requires forall i :: 0 <= i < |records| ==> ValidApRecord(records[i])
      modifies this
      ensures trace == old(trace) + [SetType(TYPE_JSON), SendJson(ApListJson(records))]
      ensures err == EspOk
    {
      var items: seq<JsonValue> := [];
      var i := 0;
      while i < |records|
        invariant 0 <= i <= |records|
        invariant |items| == i
        invariant forall j :: 0 <= j < i ==> items[j] == ApObject(records[j])
      {
        var r := records[i];
        var bssidStr := FormatBssid(r.bssid);
        var apObject := JObject([]);
        apObject := JObject(apObject.members + [Member("ssid", JString(CStr(r.ssid)))]);
        apObject := JObject(apObject.members + [Member("bssid", JString(bssidStr))]);
        apObject := JObject(apObject.members + [Member("rssi", JNumber(r.rssi))]);
        assert apObject == ApObject(r);
        items := items + [apObject];
        i := i + 1;
      }
      var root := JArray(items);
      assert root == ApListJson(records);
      trace := trace + [SetType(TYPE_JSON), SendJson(root)];
      err := EspOk;
    }

    /**
     * `POST /run-attack`. The environment supplies what the C code gets
     * from outside: whether `malloc` succeeded, the bytes it returned
     * (`heap`), what `httpd_req_recv` delivered, cJSON's parser, and the
     * indeterminate last byte of the stack-allocated request.
     */
    method RunAttackPost(contentLen: nat, allocOk: bool, heap: seq<byte>, received: Option<seq<byte>>,
                         parse: seq<byte> -> Option<JsonValue>, residue: byte) returns (err: EspErr)
      requires |heap| == contentLen + 1
      requires received.Some? ==> |received.value| <= contentLen
      modifies this
      ensures var outcome := RunAttack(contentLen, allocOk, heap, received, parse, residue);
              && trace == old(trace) + RunAttackActions(outcome)
              && err == (if outcome.Rejected? then EspFail else EspOk)
    {
      if !allocOk {
        trace := trace + [Send500];
        return EspFail;
      }
      var jsonBuffer := Allocate(heap);
      if received.None? || |received.value| == 0 {
        trace := trace + [Send500];
        return EspFail;
      }
      StoreBody(jsonBuffer, heap, received.value, contentLen);

      var doc := parse(CStr(jsonBuffer[..]));
      if doc.None? {
        trace := trace + [Send500];
        return EspFail;
      }
      var validated := ValidateAttackRequest(doc.value, residue);
      if validated.None? {
        trace := trace + [Send500];
        return EspFail;
      }
      var request := validated.value;

      // the acknowledgement first, then the event
      trace := trace + [SetType(TYPE_TEXT), Send(ACK_BODY), Post(AttackRequested(request))];
      err := EspOk;
    }

    /** `GET /status` on the engine's status, assumed not to change while the handler reads it. */
    method StatusGet(status: AttackStatus) returns (err: EspErr)
      requires WellFormedStatus(status)
      modifies this
      ensures trace == old(trace) + [SetType(TYPE_OCTET)] + ChunkActions(StatusChunks(status))
      ensures err == EspOk
    {
      trace := trace + [SetType(TYPE_OCTET)];
      trace := trace + [SendChunk(status.header)];
      if (status.state == Finished || status.state == Timeout) && status.contentSize > 0 {
        trace := trace + [SendChunk(status.content[..status.contentSize])];
      }
      trace := trace + [SendChunk([])];
      err := EspOk;
    }
  }

  /** One `httpd_resp_send_chunk` per chunk, in order. */
  function ChunkActions(chunks: seq<seq<byte>>): seq<Action>
  {
    seq(|chunks|, i requires 0 <= i < |chunks| => SendChunk(chunks[i]))
  }
}
