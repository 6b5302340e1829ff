/**
 * Text form of a 6-byte BSSID as the AP list writes it with
 * `snprintf("%02X:%02X:%02X:%02X:%02X:%02X")`, and a reader for that form.
 */
module Bssid {
  import opened CString

  const COLON: byte := 58   // ':'

  /** Size of the `char bssidStr[18]` buffer the text is printed into. */
  const BSSID_STR_SIZE: nat := 18

  /** An ASCII digit or an upper-case letter A to F. */
  predicate IsUpperHex(c: byte) { 48 <= c <= 57 || 65 <= c <= 70 }

  /** The `%X` digit for a nibble. */
  function HexDigit(d: int): (c: byte)
    requires 0 <= d < 16
    ensures IsUpperHex(c)
  {
    if d < 10 then 48 + d else 55 + d
  }

  /** The nibble an upper-case hex digit stands for. */
  function HexValue(c: byte): (d: int)
    requires IsUpperHex(c)
    ensures 0 <= d < 16
    ensures HexDigit(d) == c
  {
    if c <= 57 then c - 48 else c - 55
  }

  /** `%02X` of one byte: the high nibble's digit, then the low nibble's. */
  function Hex2(b: byte): seq<byte> { [HexDigit(b / 16), HexDigit(b % 16)] }

  /** `%02X:%02X:%02X:%02X:%02X:%02X` of the six bytes: 17 characters, no terminator. */
  function FormatBssid(mac: seq<byte>): (r: seq<byte>)
    requires |mac| == 6
    ensures |r| == BSSID_STR_SIZE - 1
  {
    Hex2(mac[0]) + [COLON] + Hex2(mac[1]) + [COLON] + Hex2(mac[2]) + [COLON] +
    Hex2(mac[3]) + [COLON] + Hex2(mac[4]) + [COLON] + Hex2(mac[5])
  }

  /** The shape of a BSSID text: 17 bytes, six two-digit groups joined by ':'. */
  predicate WellFormedBssid(s: seq<byte>)
  {
    && |s| == 17
    && (forall k :: 0 <= k < 5 ==> s[3 * k + 2] == COLON)
    && (forall k :: 0 <= k < 6 ==> IsUpperHex(s[3 * k]) && IsUpperHex(s[3 * k + 1]))
  }

  /** Reads a BSSID text back into its six bytes; rejects any other shape. */
  function ParseBssid(s: seq<byte>): Option<seq<byte>>
  {
    if WellFormedBssid(s) then
      Some(seq(6, k requires 0 <= k < 6 => HexValue(s[3 * k]) * 16 + HexValue(s[3 * k + 1])))
    else None
  }

  /** Where each byte of the MAC lands in the text. */
  lemma FormatBssidAt(mac: seq<byte>, k: nat)
    requires |mac| == 6 && k < 6
    ensures |FormatBssid(mac)| == 17
    ensures FormatBssid(mac)[3 * k] == HexDigit(mac[k] / 16)
    ensures FormatBssid(mac)[3 * k + 1] == HexDigit(mac[k] % 16)
    ensures k < 5 ==> FormatBssid(mac)[3 * k + 2] == COLON
  {
  }

  /**
   * The text is 17 bytes of upper-case hex pairs separated by ':', so it
   * fits `bssidStr[18]` together with its terminator and is never truncated.
   */
  lemma FormatBssidWellFormed(mac: seq<byte>)
    requires |mac| == 6
    ensures WellFormedBssid(FormatBssid(mac))
    ensures |FormatBssid(mac)| + 1 == BSSID_STR_SIZE
    ensures NUL !in FormatBssid(mac)
  {
    var s := FormatBssid(mac);
    forall k | 0 <= k < 6
      ensures IsUpperHex(s[3 * k]) && IsUpperHex(s[3 * k + 1]) && (k < 5 ==> s[3 * k + 2] == COLON)
    {
      FormatBssidAt(mac, k);
    }
  }

  /** The two `%X` digits of a byte decode back to that byte. */
  lemma HexPairRoundTrip(b: byte)
    ensures HexValue(HexDigit(b / 16)) * 16 + HexValue(HexDigit(b % 16)) == b
  {
  }

  /** Reading the printed BSSID back recovers the original six bytes. */
  lemma {:induction false} ParseFormatBssid(mac: seq<byte>)
    requires |mac| == 6
    ensures ParseBssid(FormatBssid(mac)) == Some(mac)
  {
    var s := FormatBssid(mac);
    FormatBssidWellFormed(mac);
    var m := ParseBssid(s).value;
    forall k | 0 <= k < 6 ensures m[k] == mac[k] {
      FormatBssidAt(mac, k);
      HexPairRoundTrip(mac[k]);
    }
    assert m == mac;
  }

  lemma HexPairDecode(hi: int, lo: int)
    requires 0 <= hi < 16 && 0 <= lo < 16
    ensures (hi * 16 + lo) / 16 == hi && (hi * 16 + lo) % 16 == lo
  {
  }

  /** Group `k` of an accepted text is what the formatter prints for byte `k` of the result. */
  lemma FormatParseGroup(s: seq<byte>, mac: seq<byte>, k: nat)
    requires ParseBssid(s) == Some(mac) && k < 6
    ensures |mac| == 6
    ensures FormatBssid(mac)[3 * k] == s[3 * k] && FormatBssid(mac)[3 * k + 1] == s[3 * k + 1]
    ensures k < 5 ==> FormatBssid(mac)[3 * k + 2] == s[3 * k + 2]
  {
    FormatBssidAt(mac, k);
    HexPairDecode(HexValue(s[3 * k]), HexValue(s[3 * k + 1]));
  }

  /** Every text the reader accepts is exactly what the formatter prints for its result. */
  lemma {:induction false} FormatParseBssid(s: seq<byte>)
    requires ParseBssid(s).Some?
    ensures |ParseBssid(s).value| == 6
    ensures FormatBssid(ParseBssid(s).value) == s
  {
    var mac := ParseBssid(s).value;
    var t := FormatBssid(mac);
    FormatBssidAt(mac, 0);
    forall i | 0 <= i < 17 ensures t[i] == s[i] {
      var k := if i < 3 then 0 else if i < 6 then 1 else if i < 9 then 2
               else if i < 12 then 3 else if i < 15 then 4 else 5;
      FormatParseGroup(s, mac, k);
    }
  }
}
