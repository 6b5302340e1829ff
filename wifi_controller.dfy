/**
 * The Wi-Fi controller: the two module globals `wifi_init` and
 * `original_mac_ap`, the guarded entry points around them, and the part of
 * the ESP-IDF Wi-Fi driver they drive, as one object. Every driver call the
 * controller makes is appended to `calls`, so the order and the number of
 * calls can be stated.
 */
module WifiController {
  import opened CString
  import opened WifiTypes

  const SSID_SIZE: nat := 32       // uint8_t ssid[32] of the AP and STA configurations
  const PASSWORD_SIZE: nat := 64   // uint8_t password[64]
  const MIN_CHANNEL: nat := 1
  const MAX_CHANNEL: nat := 13

  datatype WifiMode = ModeNull | ModeSta | ModeAp | ModeApSta
  datatype WifiInterface = IfSta | IfAp
  datatype WifiStorage = StorageFlash | StorageRam
  /** Only the authentication modes this controller sets; `AuthOpen` is the value of a zeroed field. */
  datatype AuthMode = AuthOpen | AuthWpa2Psk
  /** `WifiFastScan` is the value of a zeroed field. */
  datatype ScanMethod = WifiFastScan | WifiAllChannelScan

  /** `wifi_ap_config_t`, the fields this controller sets; the others stay zero. */
  datatype ApConfig = ApConfig(
    ssid: seq<byte>,
    password: seq<byte>,
    ssidLen: nat,
    authmode: AuthMode,
    maxConnection: nat)

  /** `wifi_sta_config_t`, the fields this controller sets; the others stay zero. */
  datatype StaConfig = StaConfig(
    ssid: seq<byte>,
    password: seq<byte>,
    scanMethod: ScanMethod,
    channel: byte,
    pmfCapable: bool,
    pmfRequired: bool)

  predicate ValidApConfig(c: ApConfig)
  {
    |c.ssid| == SSID_SIZE && |c.password| == PASSWORD_SIZE
  }

  /** One call into the network interface layer or the Wi-Fi driver. */
  datatype DriverCall =
    | NetifInit
    | CreateDefaultWifiAp
    | CreateDefaultWifiSta
    | WifiInit
    | SetStorage(storage: WifiStorage)
    | SetMode(mode: WifiMode)
    | RegisterEventHandler
    | GetMac(ifx: WifiInterface, mac: seq<byte>)
    | Start
    | SetApConfig(ap: ApConfig)
    | SetStaConfig(sta: StaConfig)
    | Connect
    | SetMac(ifx: WifiInterface, mac: seq<byte>)
    | SetChannel(primary: byte)

  /** The calls of `wifi_init_apsta`, in order, when the AP interface has MAC `apMac`. */
  function InitCalls(apMac: seq<byte>): (r: seq<DriverCall>)
    ensures |r| == 9 && r[7] == GetMac(IfAp, apMac)
  {
    [NetifInit, CreateDefaultWifiAp, CreateDefaultWifiSta, WifiInit, SetStorage(StorageRam),
     SetMode(ModeApSta), RegisterEventHandler, GetMac(IfAp, apMac), Start]
  }

  /** How many times the driver was initialised (`esp_wifi_init`) in a call log. */
  function InitCount(calls: seq<DriverCall>): nat
  {
    if calls == [] then 0
    else (if calls[0] == WifiInit then 1 else 0) + InitCount(calls[1..])
  }

  lemma {:induction false} InitCountAppend(a: seq<DriverCall>, b: seq<DriverCall>)
    ensures InitCount(a + b) == InitCount(a) + InitCount(b)
  {
    if a == [] {
      assert a + b == b;
    } else {
      assert (a + b)[0] == a[0];
      assert (a + b)[1..] == a[1..] + b;
      InitCountAppend(a[1..], b);
    }
  }

  lemma {:induction false} InitCountWithoutInit(a: seq<DriverCall>)
    requires WifiInit !in a
    ensures InitCount(a) == 0
  {
    if a != [] {
      assert a[0] in a;
      assert forall i :: 0 <= i < |a[1..]| ==> a[1..][i] == a[i + 1];
      InitCountWithoutInit(a[1..]);
    }
  }

  /** `wifi_init_apsta` initialises the driver exactly once. */
  lemma InitCallsInitialiseOnce(apMac: seq<byte>)
    ensures InitCount(InitCalls(apMac)) == 1
  {
    var before := [NetifInit, CreateDefaultWifiAp, CreateDefaultWifiSta];
    var after := [SetStorage(StorageRam), SetMode(ModeApSta), RegisterEventHandler, GetMac(IfAp, apMac), Start];
    assert InitCalls(apMac) == before + ([WifiInit] + after);
    InitCountWithoutInit(before);
    InitCountWithoutInit(after);
    InitCountAppend(before, [WifiInit] + after);
    InitCountAppend([WifiInit], after);
    assert InitCount([WifiInit]) == 1 + InitCount([]);
  }

  /** A log without initialisation, followed by `wifi_init_apsta`'s calls, initialises once and reads the AP MAC. */
  lemma InitialisedLog(before: seq<DriverCall>, apMac: seq<byte>)
    requires InitCount(before) == 0
    ensures InitCount(before + InitCalls(apMac)) == 1
    ensures GetMac(IfAp, apMac) in before + InitCalls(apMac)
  {
    InitCountAppend(before, InitCalls(apMac));
    InitCallsInitialiseOnce(apMac);
    assert (before + InitCalls(apMac))[|before| + 7] == GetMac(IfAp, apMac);
  }

  /** Calls that do not initialise the driver keep an initialised log initialised once. */
  lemma InitialisedLogExtended(log: seq<DriverCall>, extra: seq<DriverCall>, apMac: seq<byte>)
    requires InitCount(log) == 1 && GetMac(IfAp, apMac) in log && WifiInit !in extra
    ensures InitCount(log + extra) == 1
    ensures GetMac(IfAp, apMac) in log + extra
  {
    InitCountAppend(log, extra);
    InitCountWithoutInit(extra);
  }

  /** `n` bytes holding `s` followed by zeros, as a string literal fills a larger array. */
  function Padded(s: seq<byte>, n: nat): seq<byte>
    requires |s| <= n
  {
    s + Zeros(n - |s|)
  }

  /**
   * The configuration `wifictl_mgmt_ap_start` gives the management AP, from
   * the build-time SSID, password and connection limit: WPA2-PSK, and an
   * `ssid_len` that covers exactly the configured SSID.
   */
  function MgmtApConfig(ssid: seq<byte>, password: seq<byte>, maxConnection: byte): (c: ApConfig)
    requires |ssid| <= SSID_SIZE && |password| <= PASSWORD_SIZE
    requires NUL !in ssid && NUL !in password
    ensures ValidApConfig(c)
    ensures c.authmode == AuthWpa2Psk
    ensures c.ssidLen <= SSID_SIZE && c.ssid[..c.ssidLen] == ssid
    ensures CStr(c.ssid) == ssid && CStr(c.password) == password
    ensures c.maxConnection == maxConnection
  {
    var c := ApConfig(Padded(ssid, SSID_SIZE), Padded(password, PASSWORD_SIZE), |ssid|, AuthWpa2Psk, maxConnection);
    PaddedReadsBack(ssid, SSID_SIZE);
    PaddedReadsBack(password, PASSWORD_SIZE);
    c
  }

  lemma PaddedReadsBack(s: seq<byte>, n: nat)
    requires |s| <= n && NUL !in s
    ensures Padded(s, n)[..|s|] == s
    ensures CStr(Padded(s, n)) == s
  {
    if |s| < n {
      assert Padded(s, n) == s + [NUL] + Zeros(n - |s| - 1);
      CStrOfTerminated(s, Zeros(n - |s| - 1));
    } else {
      assert Padded(s, n) == s;
      CStrOfUnterminated(s);
    }
  }

  /** The all-zero AP configuration except `max_connection = 0`, which `wifictl_ap_stop` applies. */
  function StoppedApConfig(): (c: ApConfig)
    ensures ValidApConfig(c) && c.maxConnection == 0 && c.ssidLen == 0
    ensures CStr(c.ssid) == [] && CStr(c.password) == []
  {
    ApConfig(Zeros(SSID_SIZE), Zeros(PASSWORD_SIZE), 0, AuthOpen, 0)
  }

  /**
   * The password field of the STA configuration: zeros, over which an
   * accepted password is copied together with its terminator.
   */
  function StaPassword(password: Option<seq<byte>>): (r: seq<byte>)
    requires password.Some? ==> |CStr(password.value)| < PASSWORD_SIZE
    ensures |r| == PASSWORD_SIZE
    ensures password.Some? ==> r[..|CStr(password.value)|] == CStr(password.value) && r[|CStr(password.value)|] == NUL
    ensures password.None? ==> r == Zeros(PASSWORD_SIZE)
  {
    if password.None? then Zeros(PASSWORD_SIZE)
    else
      var text := CStr(password.value);
      text + [NUL] + Zeros(PASSWORD_SIZE - |text| - 1)
  }

  /**
   * The STA configuration `wifictl_sta_connect_to_ap` builds, or `None`
   * when the password is 64 bytes long or longer and nothing is configured.
   */
  function StaConfigFor(record: ApRecord, password: Option<seq<byte>>): (r: Option<StaConfig>)
    requires ValidApRecord(record)
    ensures r.None? <==> password.Some? && |CStr(password.value)| >= PASSWORD_SIZE
    ensures r.Some? ==> && r.value.channel == record.primary
                        && r.value.ssid == record.ssid[..SSID_SIZE]
                        && |r.value.password| == PASSWORD_SIZE
                        && r.value.scanMethod == WifiFastScan
                        && !r.value.pmfCapable && !r.value.pmfRequired
  {
    if password.Some? && |CStr(password.value)| >= PASSWORD_SIZE then None
    else Some(StaConfig(record.ssid[..SSID_SIZE], StaPassword(password), WifiFastScan, record.primary, false, false))
  }

  /**
   * The driver reads back the password it was given: the accepted password
   * as a C string, or the empty string when none was passed.
   */
  lemma StaPasswordReadsBack(record: ApRecord, password: Option<seq<byte>>)
    requires ValidApRecord(record)
    requires StaConfigFor(record, password).Some?
    ensures CStr(StaConfigFor(record, password).value.password) ==
            if password.Some? then CStr(password.value) else []
  {
    var pw := StaConfigFor(record, password).value.password;
    if password.Some? {
      CStrOfTerminated(CStr(password.value), Zeros(PASSWORD_SIZE - |CStr(password.value)| - 1));
    } else {
      assert pw[0] == NUL;
    }
  }

  /**
   * The configuration step of `wifictl_sta_connect_to_ap`: a zeroed STA
   * configuration, the record's SSID and channel, and the password copied
   * with its terminator; `None` when the password is too long.
   */
  method BuildStaConfig(record: ApRecord, password: Option<seq<byte>>) returns (config: Option<StaConfig>)
    requires ValidApRecord(record)
    ensures config == StaConfigFor(record, password)
  {
    var ssid := record.ssid[..SSID_SIZE];
    var staPassword := Zeros(PASSWORD_SIZE);
    if password.Some? {
      var text := CStr(password.value);
      if |text| >= PASSWORD_SIZE {
        return None;
      }
      staPassword := text + [NUL] + staPassword[|text| + 1..];
      assert Zeros(PASSWORD_SIZE)[|text| + 1..] == Zeros(PASSWORD_SIZE - |text| - 1);
    }
    config := Some(StaConfig(ssid, staPassword, WifiFastScan, record.primary, false, false));
  }

  /** The controller's globals together with the driver state it changes. */
  class Controller {
    // module globals of wifi_controller.c
    var wifiInit: bool
    var originalMacAp: seq<byte>

    // driver state
    var mode: WifiMode
    var started: bool
    var apMac: seq<byte>
    var apConfig: ApConfig
    var staConfig: StaConfig
    var channel: byte
    var connecting: bool
    var calls: seq<DriverCall>

    /**
     * The driver is initialised once, exactly when `wifi_init` is set, and
     * then runs in AP+STA mode; `original_mac_ap` is the AP MAC read during
     * that initialisation, and all zeros before it, when the driver is
     * neither configured for a mode nor started.
     */
    ghost predicate Valid()
      reads this
    {
      && |originalMacAp| == 6 && |apMac| == 6
      && InitCount(calls) == (if wifiInit then 1 else 0)
      && (wifiInit ==> mode == ModeApSta && started && GetMac(IfAp, originalMacAp) in calls)
      && (!wifiInit ==> originalMacAp == Zeros(6) && mode == ModeNull && !started)
    }

    /** State at boot: globals zeroed, driver untouched, the AP interface with its factory MAC. */
    constructor (factoryApMac: seq<byte>)
      requires |factoryApMac| == 6
      ensures Valid() && !wifiInit && calls == []
      ensures apMac == factoryApMac && mode == ModeNull && !started && !connecting
    {
      wifiInit := false;
      originalMacAp := Zeros(6);
      mode := ModeNull;
      started := false;
      apMac := factoryApMac;
      apConfig := ApConfig(Zeros(SSID_SIZE), Zeros(PASSWORD_SIZE), 0, AuthOpen, 0);
      staConfig := StaConfig(Zeros(SSID_SIZE), Zeros(PASSWORD_SIZE), WifiFastScan, 0, false, false);
      channel := 0;
      connecting := false;
      calls := [];
    }

    /** `wifi_init_apsta`: bring the driver up in AP+STA mode and remember the AP MAC. */
    method InitApsta()
      requires Valid() && !wifiInit
      modifies this
      ensures Valid() && wifiInit
      ensures calls == old(calls) + InitCalls(old(apMac))
      ensures originalMacAp == old(apMac)
      ensures mode == ModeApSta && started
      ensures apMac == old(apMac) && apConfig == old(apConfig) && staConfig == old(staConfig)
      ensures channel == old(channel) && connecting == old(connecting)
    {
      InitialisedLog(calls, apMac);
      calls := calls + [NetifInit, CreateDefaultWifiAp, CreateDefaultWifiSta, WifiInit, SetStorage(StorageRam),
                        SetMode(ModeApSta), RegisterEventHandler, GetMac(IfAp, apMac), Start];
      mode := ModeApSta;
      originalMacAp := apMac;
      started := true;
      wifiInit := true;
    }

    /** `wifictl_ap_start`: initialise on first use, then apply the AP configuration. */
    method ApStart(config: ApConfig)
      requires Valid()
      modifies this
      ensures Valid() && wifiInit
      ensures calls == old(calls) + (if old(wifiInit) then [] else InitCalls(old(apMac))) + [SetApConfig(config)]
      ensures apConfig == config
      ensures originalMacAp == if old(wifiInit) then old(originalMacAp) else old(apMac)
      ensures apMac == old(apMac) && staConfig == old(staConfig)
      ensures channel == old(channel) && connecting == old(connecting)
    {
      if !wifiInit {
        InitApsta();
      }
      ghost var afterInit := calls;
      calls := calls + [SetApConfig(config)];
      apConfig := config;
      InitCountAppend(afterInit, [SetApConfig(config)]);
    }

    /** `wifictl_mgmt_ap_start`: start the management AP from the build-time settings. */
    method MgmtApStart(ssid: seq<byte>, password: seq<byte>, maxConnection: byte)
      requires Valid()
      requires |ssid| <= SSID_SIZE && |password| <= PASSWORD_SIZE
      requires NUL !in ssid && NUL !in password
      modifies this
      ensures Valid() && wifiInit
      ensures apConfig == MgmtApConfig(ssid, password, maxConnection)
      ensures apConfig.authmode == AuthWpa2Psk && apConfig.ssidLen == |ssid|
      ensures calls == old(calls) + (if old(wifiInit) then [] else InitCalls(old(apMac))) + [SetApConfig(apConfig)]
      ensures originalMacAp == if old(wifiInit) then old(originalMacAp) else old(apMac)
      ensures apMac == old(apMac) && staConfig == old(staConfig)
      ensures channel == old(channel) && connecting == old(connecting)
    {
      var mgmtWifiConfig := ApConfig(Padded(ssid, SSID_SIZE), Padded(password, PASSWORD_SIZE), |ssid|,
                                     AuthWpa2Psk, maxConnection);
      ApStart(mgmtWifiConfig);
    }

    /** `wifictl_ap_stop`: reconfigure the AP to accept no station. */
    method ApStop()
      requires Valid()
      modifies this
      ensures Valid()
      ensures apConfig == StoppedApConfig() && apConfig.maxConnection == 0
      ensures calls == old(calls) + [SetApConfig(StoppedApConfig())]
      ensures wifiInit == old(wifiInit) && originalMacAp == old(originalMacAp)
      ensures apMac == old(apMac) && staConfig == old(staConfig) && channel == old(channel)
      ensures mode == old(mode) && started == old(started) && connecting == old(connecting)
    {
      var wifiConfig := ApConfig(Zeros(SSID_SIZE), Zeros(PASSWORD_SIZE), 0, AuthOpen, 0);
      calls := calls + [SetApConfig(wifiConfig)];
      apConfig := wifiConfig;
      InitCountAppend(old(calls), [SetApConfig(wifiConfig)]);
    }

    /**
     * `wifictl_sta_connect_to_ap`: initialise on first use, then, unless the
     * password is too long, configure the station for the AP of `record`
     * and start connecting. `password` is `None` for a NULL pointer.
     */
    method StaConnectToAp(record: ApRecord, password: Option<seq<byte>>)
      requires Valid() && ValidApRecord(record)
      modifies this
      ensures Valid() && wifiInit
      ensures originalMacAp == if old(wifiInit) then old(originalMacAp) else old(apMac)
      ensures apMac == old(apMac) && apConfig == old(apConfig) && channel == old(channel)
      ensures var init := if old(wifiInit) then [] else InitCalls(old(apMac));
              match StaConfigFor(record, password)
              case None =>
                calls == old(calls) + init && staConfig == old(staConfig) && connecting == old(connecting)
              case Some(config) =>
                calls == old(calls) + init + [SetStaConfig(config), Connect] && staConfig == config && connecting
    {
      if !wifiInit {
        InitApsta();
      }
      var built := BuildStaConfig(record, password);
      if built.None? {
        return;
      }
      var staWifiConfig := built.value;
      InitialisedLogExtended(calls, [SetStaConfig(staWifiConfig), Connect], originalMacAp);
      calls := calls + [SetStaConfig(staWifiConfig), Connect];
      staConfig := staWifiConfig;
      connecting := true;
    }

    /** `wifictl_set_ap_mac`: give the AP interface a new MAC; the saved original is kept. */
    method SetApMac(mac: seq<byte>)
      requires Valid() && |mac| == 6
      modifies this
      ensures Valid()
      ensures apMac == mac && calls == old(calls) + [SetMac(IfAp, mac)]
      ensures wifiInit == old(wifiInit) && originalMacAp == old(originalMacAp)
      ensures mode == old(mode) && started == old(started)
      ensures apConfig == old(apConfig) && staConfig == old(staConfig)
      ensures channel == old(channel) && connecting == old(connecting)
    {
      calls := calls + [SetMac(IfAp, mac)];
      apMac := mac;
      InitCountAppend(old(calls), [SetMac(IfAp, mac)]);
    }

    /** `wifictl_restore_ap_mac`: put back the AP MAC saved at initialisation, whatever was set since. */
    method RestoreApMac()
      requires Valid()
      modifies this
      ensures Valid()
      ensures apMac == originalMacAp && calls == old(calls) + [SetMac(IfAp, originalMacAp)]
      ensures wifiInit == old(wifiInit) && originalMacAp == old(originalMacAp)
      ensures mode == old(mode) && started == old(started)
      ensures apConfig == old(apConfig) && staConfig == old(staConfig)
      ensures channel == old(channel) && connecting == old(connecting)
    {
      calls := calls + [SetMac(IfAp, originalMacAp)];
      apMac := originalMacAp;
      InitCountAppend(old(calls), [SetMac(IfAp, originalMacAp)]);
    }

    /** `wifictl_set_channel`: switch the primary channel, only to a channel from 1 to 13. */
    method SetPrimaryChannel(primary: byte)
      requires Valid()
      modifies this
      ensures Valid()
      ensures if MIN_CHANNEL <= primary <= MAX_CHANNEL
              then channel == primary && calls == old(calls) + [SetChannel(primary)]
              else channel == old(channel) && calls == old(calls)
      ensures wifiInit == old(wifiInit) && originalMacAp == old(originalMacAp) && apMac == old(apMac)
      ensures mode == old(mode) && started == old(started)
      ensures apConfig == old(apConfig) && staConfig == old(staConfig)
      ensures connecting == old(connecting)
    {
      if primary == 0 || primary > MAX_CHANNEL {
        return;
      }
      calls := calls + [SetChannel(primary)];
      channel := primary;
      InitCountAppend(old(calls), [SetChannel(primary)]);
    }
  }
}
