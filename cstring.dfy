/**
 * C byte buffers and the C string functions the firmware relies on
 * (strlen, strncpy, memcpy of a terminated string), stated over sequences.
 */
module CString {

  /** One byte of a C buffer (`uint8_t` / `char`). */
  type byte = x: int | 0 <= x < 256

  datatype Option<+T> = None | Some(value: T)

  const NUL: byte := 0

  function Min(a: int, b: int): int { if a <= b then a else b }

  /** `n` zero bytes: a zero-initialised C buffer. */
  function Zeros(n: nat): seq<byte> { seq(n, _ => NUL) }

  /**
   * What a C string function sees in the buffer `s`: every byte before the
   * first NUL (all of `s` when it holds none). `|CStr(s)|` is `strlen`.
   */
  function CStr(s: seq<byte>): (r: seq<byte>)
    ensures r <= s
    ensures NUL !in r
    ensures |r| < |s| ==> s[|r|] == NUL
  {
    if s == [] || s[0] == NUL then [] else [s[0]] + CStr(s[1..])
  }

  /** A buffer whose bytes hold no NUL is read in full. */
  lemma CStrOfUnterminated(s: seq<byte>)
    requires NUL !in s
    ensures CStr(s) == s
  {
  }

  /** A NUL-free text followed by a terminator reads back as that text, whatever follows. */
  lemma CStrOfTerminated(text: seq<byte>, rest: seq<byte>)
    requires NUL !in text
    ensures CStr(text + [NUL] + rest) == text
  {
    var s := text + [NUL] + rest;
    assert s[..|text|] == text;
    assert s[|text|] == NUL;
  }

  /** A C string function reading `a + b` stops inside `a` if `a` holds a NUL, and otherwise reads on into `b`. */
  lemma {:induction false} CStrAppend(a: seq<byte>, b: seq<byte>)
    ensures CStr(a + b) == if NUL in a then CStr(a) else a + CStr(b)
  {
    if a == [] {
      assert a + b == b;
    } else {
      assert (a + b)[0] == a[0];
      assert (a + b)[1..] == a[1..] + b;
      if a[0] != NUL {
        CStrAppend(a[1..], b);
        assert NUL in a <==> NUL in a[1..];
      }
    }
  }

  /** A terminator appended to a buffer does not change the string it holds. */
  lemma CStrThenNul(s: seq<byte>)
    ensures CStr(s + [NUL]) == CStr(s)
  {
    CStrAppend(s, [NUL]);
    if NUL !in s {
      CStrOfUnterminated(s);
    }
  }

  /**
   * The `n` bytes that `strncpy(dst, src, n)` writes into `dst`: the bytes
   * of `src` up to its first NUL, then NUL padding up to `n`. When `src`
   * holds `n` or more non-NUL bytes, no terminator is written.
   */
  function Strncpy(src: seq<byte>, n: nat): (r: seq<byte>)
    ensures |r| == n
  {
    if n == 0 then []
    else if src == [] || src[0] == NUL then Zeros(n)
    else [src[0]] + Strncpy(src[1..], n - 1)
  }

  /** strncpy writes the first `min(strlen(src), n)` bytes of the string, then zeros. */
  lemma {:induction false} StrncpyIsPaddedPrefix(src: seq<byte>, n: nat)
    ensures var k := Min(|CStr(src)|, n);
            Strncpy(src, n) == CStr(src)[..k] + Zeros(n - k)
  {
    if n != 0 && src != [] && src[0] != NUL {
      StrncpyIsPaddedPrefix(src[1..], n - 1);
      var k := Min(|CStr(src[1..])|, n - 1);
      assert CStr(src) == [src[0]] + CStr(src[1..]);
      assert CStr(src)[..k + 1] == [src[0]] + CStr(src[1..])[..k];
    }
  }

  /**
   * What a reader of the `n` copied bytes sees: a prefix of the source
   * string of length `min(strlen(src), n)`; and the bytes are terminated
   * exactly when the source string is shorter than `n`.
   */
  lemma StrncpyReadsBack(src: seq<byte>, n: nat)
    ensures CStr(Strncpy(src, n)) <= CStr(src)
    ensures |CStr(Strncpy(src, n))| == Min(|CStr(src)|, n)
    ensures NUL in Strncpy(src, n) <==> |CStr(src)| < n
  {
  }

  /**
   * A buffer of `n + 1` bytes whose first `n` are written by strncpy and
   * whose last keeps an arbitrary byte `last`: when the string is shorter
   * than `n` the buffer reads back as the string, whatever `last` is.
   */
  lemma StrncpyThenByte(src: seq<byte>, n: nat, last: byte)
    ensures |Strncpy(src, n) + [last]| == n + 1
    ensures (Strncpy(src, n) + [last])[..n] == Strncpy(src, n)
    ensures (Strncpy(src, n) + [last])[n] == last
    ensures |CStr(src)| < n ==> CStr(Strncpy(src, n) + [last]) == CStr(src)
  {
    var s := CStr(src);
    var k := |s|;
    if k < n {
      StrncpyIsPaddedPrefix(src, n);
      assert s[..k] == s;
      assert Strncpy(src, n) + [last] == s + [NUL] + (Zeros(n - k - 1) + [last]);
      CStrOfTerminated(s, Zeros(n - k - 1) + [last]);
    }
  }
}
