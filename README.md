# ESP32 Wi-Fi penetration tool: control plane and Wi-Fi controller in Dafny

This project models two parts of the firmware of an ESP32 Wi-Fi security-testing device and proves properties of them.

1. **The HTTP control plane (`components/webserver/webserver.c`).** It has four handlers:
   - `HEAD /reset` posts `ATTACK_RESET` to the default event loop.
   - `POST /run-attack` reads a JSON body, checks its four required members and copies them into an `attack_request_t`. It acknowledges the request and then posts `ATTACK_REQUEST`.
   - `GET /status` sends the first 4 bytes of the engine's status structure. When the attack finished or timed out with a non-empty result, it also sends the result.
   - `GET /ap-list` serialises the scan records to a JSON array.

   The HTTP server and the event loop become one ordered log, `Server.trace`. The log records what each handler sends and what it posts, in order.
2. **The Wi-Fi controller (`components/wifi_controller/wifi_controller.c`).** The class `Controller` holds:
   - the two module globals, `wifi_init` and `original_mac_ap`;
   - the driver state those entry points change: mode, AP MAC, AP and STA configurations, channel and the connect request;
   - a log of every driver call.

   `Valid()` is the invariant that every entry point keeps. The driver is initialised at most once, exactly when `wifi_init` is set. `original_mac_ap` is the AP MAC read during that initialisation, and all zeros before it.

Files:
- `cstring.dfy`: bytes and the C string functions the code uses (`strlen`, `strncpy`, copies of a terminated string).
- `json.dfy`: the cJSON tree, as an abstract value, and the member lookup.
- `bssid.dfy`: the `%02X:…` BSSID text and a reader for it.
- `wifi_types.dfy`: the scan record.
- `webserver.dfy`: the handlers.
- `wifi_controller.dfy`: the controller.

Some inputs come from outside the code. Each one is a parameter of the method that uses it:
- whether `malloc` succeeds, and the bytes it returns;
- what `httpd_req_recv` delivers: an error, a closed connection or some bytes;
- cJSON's parser, as a function from the terminated text to a document;
- the indeterminate last byte of the stack-allocated `attack_request_t.ssid`;
- the status structure that `attack_get_status` points to, taken as one value;
- the scan records;
- the build-time management AP settings;
- the factory AP MAC.

A few facts about the code shape the model:
- Of the request's members, only `ssid` is copied with a bound. `bssid` and `ap_record_id` are never read.
- `/status` always answers with the status structure's header, then its result when there is one.
- AP-list objects carry only `ssid`, `bssid` and `rssi`.
- An accepted request is acknowledged before its event is posted.
- With a repeated member name, cJSON's lookup returns the first member. So the first `ssid` decides whether a request is accepted (`FirstDuplicateDecides`).

The model keeps two behaviours of the code as they are:
- When the requested SSID has `SSID_BOUND - 1` bytes or more, `strncpy` writes no terminator into the request (`SsidFieldReadsBack`).
- When `httpd_req_recv` returns fewer bytes than `content_len`, the parser also reads the heap bytes that were never received (`ParserSeesReceivedBody`).

## Model

| member | source | states |
|---|---|---|
| `CString.CStr` | components/wifi_controller/wifi_controller.c:151 | the C string of a buffer is a NUL-free prefix of it, ended by the buffer's first NUL or by its end (its length is `strlen`) |
| `CString.CStrAppend` | components/webserver/webserver.c:180-183 | reading `a + b` as a C string stops inside `a` when `a` holds a NUL, and otherwise reads all of `a` and then `b` up to its first NUL |
| `CString.Strncpy` | components/webserver/webserver.c:206 | `strncpy(dst, src, n)` writes exactly `n` bytes |
| `CString.StrncpyIsPaddedPrefix` | components/webserver/webserver.c:206 | `strncpy(dst, src, n)` writes the first `min(strlen(src), n)` bytes of the string and then NUL padding up to `n` |
| `CString.StrncpyReadsBack` | components/webserver/webserver.c:206 | the copied bytes read back as a prefix of the source string of length `min(strlen, n)`; a NUL is written exactly when the string is shorter than `n` |
| `CString.StrncpyThenByte` | components/webserver/webserver.c:205-206 | an `n + 1`-byte buffer whose first `n` bytes come from `strncpy` reads back as the source string when that string is shorter than `n`, whatever its last byte holds |
| `Json.GetObjectItem` | components/webserver/webserver.c:192-195 | lookup by name returns the value of a member with that name such that no earlier member has that name; it returns nothing for a non-object document or when no member has that name |
| `Json.GetObjectItemFirst` | components/webserver/webserver.c:192-195 | whenever member `k` is the first one with the name, the lookup returns exactly its value |
| `Bssid.FormatBssid` | components/webserver/webserver.c:111-115 | the printed BSSID has 17 characters, one fewer than `bssidStr` |
| `Bssid.FormatBssidWellFormed` | components/webserver/webserver.c:111-115 | the BSSID text is 17 bytes: six upper-case two-digit hex groups joined by ':'; with its terminator it fills `bssidStr[18]` exactly, so `snprintf` never truncates it |
| `Bssid.ParseFormatBssid` | components/webserver/webserver.c:111-115 | reading the printed BSSID back recovers the six original bytes, in order |
| `Bssid.FormatParseBssid` | components/webserver/webserver.c:111-115 | every text the reader accepts is exactly the printed form of the bytes it yields, so the printing is a bijection onto well-formed texts |
| `Webserver.PostedAppend` | components/webserver/webserver.c:64 | posting appends to the event log: the events of two consecutive stretches of the log are those of each, in order |
| `Webserver.ResetPostsReset` | components/webserver/webserver.c:63-66 | one reset posts `ATTACK_RESET` with no payload and no other event |
| `Webserver.ResetsPostOneEach` | components/webserver/webserver.c:63-66 | `n` resets post exactly `n` `ATTACK_RESET` events and nothing else |
| `Webserver.Server.ResetHead` | components/webserver/webserver.c:63-66 | the handler reads no input; it posts `ATTACK_RESET` and then sends an empty body |
| `Webserver.ParserSeesReceivedBody` | components/webserver/webserver.c:164-183 | cJSON never reads past the terminator at `content_len`; it sees the received bytes up to their first NUL, and when they hold none, it also sees the unreceived heap bytes up to the first NUL among them |
| `Webserver.SsidFieldReadsBack` | components/webserver/webserver.c:205-206 | the request's SSID is a prefix of the requested one of length `min(strlen, SSID_BOUND - 1)`; it is terminated exactly when the requested SSID is shorter than that, and then it reads back as the requested SSID; the last byte is never written |
| `Webserver.LookupIsString` | components/webserver/webserver.c:192-198 | `cJSON_IsString` of the `ssid` lookup holds exactly when the object's first member with that name is a string |
| `Webserver.LookupIsNumber` | components/webserver/webserver.c:193-198 | `cJSON_IsNumber` of a lookup holds exactly when the object's first member with that name is a number |
| `Webserver.ValidateAttackRequest` | components/webserver/webserver.c:192-209 | a validated request's `ssid` buffer has `SSID_BOUND` bytes, and its last byte is the one the stack held (it is never written) |
| `Webserver.ValidateAcceptsSchema` | components/webserver/webserver.c:192-202 | the validator accepts a document exactly when it is an object whose first `ssid` is a string and whose first `attack_type`, `attack_method` and `timeout` are numbers |
| `Webserver.FirstDuplicateDecides` | components/webserver/webserver.c:192-198 | a document whose first `ssid` is a number is rejected, even when a later `ssid` is a string |
| `Webserver.ValidatedRequestFields` | components/webserver/webserver.c:192-209 | a validated request carries the parsed `attack_type`, `attack_method` and `timeout` unchanged and the bounded copy of `ssid`; validation requires all four members with their types |
| `Webserver.RunAttack` | components/webserver/webserver.c:167-209 | an accepted request's `ssid` buffer has `SSID_BOUND` bytes, and its last byte is the one the stack held |
| `Webserver.RunAttackAcceptance` | components/webserver/webserver.c:167-202 | a request is accepted exactly when allocation succeeds, the receive returns bytes, the body parses, and the first `ssid` is a string and the first of each other required member a number; every rejection answers 500 and posts nothing |
| `Webserver.AcceptedPostsOnceAfterAck` | components/webserver/webserver.c:213-219 | an accepted request posts exactly one `ATTACK_REQUEST`, carrying the built request, and the acknowledgement text is sent before it is posted |
| `Webserver.StoreBody` | components/webserver/webserver.c:173-180 | after the receive and the terminator, the buffer holds the received bytes, then the allocator's bytes up to `content_len`, then a NUL |
| `Webserver.Server.RunAttackPost` | components/webserver/webserver.c:159-222 | the handler's log and result are those of the decision above: 500 and `ESP_FAIL` on each failure path; otherwise `text/plain`, the acknowledgement, then the posted request, and `ESP_OK` |
| `Webserver.StatusChunks` | components/webserver/webserver.c:248-253 | the response is the header chunk, then the result chunk exactly when there is a result, then the empty chunk |
| `Webserver.StatusResponseBody` | components/webserver/webserver.c:248-253 | the body is the 4-byte header, followed by `content[0..content_size)` exactly when the state is FINISHED or TIMEOUT and `content_size > 0`; only the last chunk is empty, so the response ends there and nowhere earlier |
| `Webserver.Server.StatusGet` | components/webserver/webserver.c:241-254 | the handler sets the octet-stream type and sends the status chunks in order, ending with the empty chunk |
| `Webserver.ApObject` | components/webserver/webserver.c:108-120 | the object for a record has three members in order: `ssid` with the record's SSID as a C string, `bssid` with a 17-character text that fits `bssidStr[18]` with its terminator, and `rssi` with the record's RSSI |
| `Webserver.ApListJson` | components/webserver/webserver.c:105-124 | the document is an array with one element per record, element `i` being record `i`'s object |
| `Webserver.ApListDescribesRecords` | components/webserver/webserver.c:107-124 | the array has one element per scan record; element `i` has record `i`'s SSID (as the driver's C string) and RSSI, and a BSSID text that reads back as record `i`'s six bytes |
| `Webserver.Server.ApListGet` | components/webserver/webserver.c:99-135 | the loop builds one object per record, in record order, with members `ssid`, `bssid` and `rssi`; the handler then sends the array as JSON |
| `WifiController.InitCalls` | components/wifi_controller/wifi_controller.c:30-49 | `wifi_init_apsta` makes nine driver calls, the eighth reading the AP MAC |
| `WifiController.InitCountAppend` | components/wifi_controller/wifi_controller.c:38 | driver initialisations in consecutive stretches of the call log add up |
| `WifiController.InitCallsInitialiseOnce` | components/wifi_controller/wifi_controller.c:30-49 | `wifi_init_apsta` initialises the driver exactly once |
| `WifiController.Controller.constructor` | components/wifi_controller/wifi_controller.c:18-19 | at boot `wifi_init` is false, `original_mac_ap` is zero, the driver is neither in a mode nor started, and no driver call has been made |
| `WifiController.Controller.InitApsta` | components/wifi_controller/wifi_controller.c:30-49 | it may only run while `wifi_init` is false; it makes the initialisation calls in order, saves the AP MAC it reads into `original_mac_ap`, leaves the driver in AP+STA mode and started, and sets `wifi_init` |
| `WifiController.Controller.ApStart` | components/wifi_controller/wifi_controller.c:51-59 | it initialises only when `wifi_init` is false, then applies the AP configuration; the driver stays initialised exactly once |
| `WifiController.MgmtApConfig` | components/wifi_controller/wifi_controller.c:121-131 | the management AP configuration uses WPA2-PSK; its `ssid_len` covers exactly the configured SSID, and SSID and password read back as configured |
| `WifiController.Controller.MgmtApStart` | components/wifi_controller/wifi_controller.c:121-132 | it starts the AP with the management configuration, initialising on first use and then saving the AP MAC as `original_mac_ap`; the AP MAC, STA configuration, channel and connect request are unchanged |
| `WifiController.StoppedApConfig` | components/wifi_controller/wifi_controller.c:112-116 | the stop configuration is all zeros: empty SSID and password, `ssid_len` 0 and `max_connection` 0 |
| `WifiController.Controller.ApStop` | components/wifi_controller/wifi_controller.c:110-119 | it reconfigures the AP with an all-zero configuration whose `max_connection` is 0 and changes nothing else, `started` included |
| `WifiController.StaConfigFor` | components/wifi_controller/wifi_controller.c:140-156 | no configuration exactly when the password's `strlen` is 64 or more; otherwise the channel is the record's primary channel, the SSID is the record's first 32 bytes, fast scan is used and PMF is off |
| `WifiController.StaPassword` | components/wifi_controller/wifi_controller.c:150-156 | the password field has 64 bytes; it holds the accepted password followed by a NUL, or only zeros when no password is given |
| `WifiController.StaPasswordReadsBack` | components/wifi_controller/wifi_controller.c:150-156 | the configured password reads back as the accepted password; a NULL password leaves the zeroed field, which reads as the empty string |
| `WifiController.BuildStaConfig` | components/wifi_controller/wifi_controller.c:140-156 | the configuration built step by step (zeroed, record SSID and channel, password copied with its terminator, or no configuration for a password of 64 bytes or more) is exactly `StaConfigFor` |
| `WifiController.Controller.StaConnectToAp` | components/wifi_controller/wifi_controller.c:134-163 | it initialises only when `wifi_init` is false; a too-long password then returns without configuring or connecting; otherwise it sets the STA configuration and then connects |
| `WifiController.Controller.SetApMac` | components/wifi_controller/wifi_controller.c:169-172 | it sets the AP MAC with one driver call and changes nothing else: `original_mac_ap`, mode, `started`, configurations and channel are as they were |
| `WifiController.Controller.RestoreApMac` | components/wifi_controller/wifi_controller.c:178-181 | the AP MAC becomes `original_mac_ap`, the MAC read at initialisation, whatever was set in between; nothing else changes |
| `WifiController.Controller.SetPrimaryChannel` | components/wifi_controller/wifi_controller.c:187-193 | a channel from 1 to 13 is set with one driver call; 0 and values above 13 make no driver call and change nothing |

## Left out

- The index page (`uri_root_get_handler`), the `/capture.pcap` and `/capture.hccapx` passthroughs and handler registration (`webserver_run`) are not modelled. They only forward buffers from components that are not part of this model.
- Logging (`ESP_LOGD`, `ESP_LOGI`, `ESP_LOGE`) is not modelled. This includes the error lines for a channel out of range (wifi_controller.c:189) and a too-long password (wifi_controller.c:152). They only produce output.
- HTTP transport errors are not modelled. Every send succeeds, so the handlers' results reflect only the paths the code chooses.
- Driver and event-loop errors are not modelled, and every driver call and every post succeeds here. Most of these calls are wrapped in `ESP_ERROR_CHECK`, which aborts the process on an error. The model also covers calls made before initialisation, which the real driver rejects.
- SetPrimaryChannel: the result of `esp_wifi_set_channel` (wifi_controller.c:192) is not checked by the source. On a driver error the source returns normally with the channel unchanged. The model assumes the call succeeds and ensures `channel == primary`.
- StatusGet: the handler keeps the pointer from `attack_get_status` (webserver.c:243-244). It reads the live structure three times: the header, then `state` and `content_size`, then the content. The model takes the structure as one `AttackStatus` value, so it assumes the attack task does not update the structure while the handler reads it.
- `esp_event_post` is modelled as appending to a log. Queueing, blocking with `portMAX_DELAY`, delivery to the attack task and all concurrency are not modelled.
- The cJSON grammar and `cJSON_Print` formatting are not modelled. The parser is a parameter, and the `/ap-list` response carries the document itself.
- Numbers are modelled as cJSON's `valueint`, an integer; the floating-point value and its saturation are not modelled. `rssi` is modelled as an integer.
- Allocation failures inside cJSON while building the AP list are not modelled.
- `attack.h` is not part of this model:
  - The status header is four opaque bytes.
  - `SSID_BOUND` (33) is an assumed size of `attack_request_t.ssid`; the lemmas hold for that constant.
  - The field widths of `attack_type`, `attack_method` and `timeout` are unknown, so any narrowing of `valueint` on assignment is not modelled.
- Scanning (`wifictl_scan_nearby_aps`, `wifictl_get_ap_records`) is not modelled. The records are an input.
- Only `bssid`, `ssid`, `primary` and `rssi` of `wifi_ap_record_t` are modelled.
- `print_connected_clients`, `wifictl_station_start`, `wifictl_sta_disconnect`, `wifictl_get_ap_mac` and `wifictl_get_sta_mac` are left out. They are plain driver calls or output.
- The network-interface objects and the (empty) Wi-Fi event handler appear only as entries in the call log.
- The configuration fields the controller never sets are not modelled. In the configurations the controller builds itself (wifi_controller.c:112-116, 122-130, 140-147) they stay zero.
- ApStart: the `wifi_config_t` that callers pass to `wifictl_ap_start` (wifi_controller.c:51) is modelled by `ApConfig`. That covers five of its fields: SSID, password, `ssid_len`, auth mode and `max_connection`. Any other field a caller sets is not represented.
- The build-time management AP settings (`CONFIG_MGMT_AP_*`) are parameters of `MgmtApStart`.
- `main/main.c` (bootstrap and an HTTP client that only prints) is not part of this model.
