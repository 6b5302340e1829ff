/**
 * The part of the Wi-Fi driver's scan record (`wifi_ap_record_t`) that the
 * web server and the Wi-Fi controller read.
 */
module WifiTypes {
  import opened CString

  /** One access point found by a scan, as the driver reports it. */
  datatype ApRecord = ApRecord(
    bssid: seq<byte>,   // uint8_t bssid[6]
    ssid: seq<byte>,    // uint8_t ssid[33], NUL-terminated by the driver
    primary: byte,      // primary channel
    rssi: int)          // int8_t signal strength

  predicate ValidApRecord(r: ApRecord)
  {
    |r.bssid| == 6 && |r.ssid| == 33 && NUL in r.ssid && -128 <= r.rssi < 128
  }
}
