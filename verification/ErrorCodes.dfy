/** WebTransport error codes inside the HTTP/3 error space (draft-ietf-webtrans-http3, "Resetting Data Streams"). */
module ErrorCodes {
  import opened Bytes
  import opened Frames

  const ERROR_FIRST: u64 := 0x52e4_a40f_a8db
  const ERROR_LAST: u64 := 0x52e5_ac98_3162

  /** The cast to 32 bits keeps the low bits. */
  function FromHttp3(code: u64): Option<u32> {
    if code < ERROR_FIRST || code > ERROR_LAST then None
    else
      var offset := code - ERROR_FIRST;
      Some((offset - offset / 0x1f) % TWO_32)
  }

  function ToHttp3(code: u32): u64 {
    ERROR_FIRST + code + code / 0x1e
  }

  predicate InWindow(code: u64) {
    ERROR_FIRST <= code <= ERROR_LAST
  }

  /** In the window the reserved codes are those 30 above a multiple of 31 from its start. */
  lemma GreaseInWindow(code: u64)
    requires InWindow(code)
    ensures IsGrease(code) <==> (code - ERROR_FIRST) % 0x1f == 30
  {
  }

  /** The images of the 32-bit codes are exactly the codes of the window that are not reserved. */
  lemma ImageIsUnreservedWindow(code: u64)
    ensures (exists c: u32 :: ToHttp3(c) == code) <==> InWindow(code) && !IsGrease(code)
  {
    if InWindow(code) && !IsGrease(code) {
      GreaseInWindow(code);
      NeverTruncates(code);
      assert ToHttp3(FromHttp3(code).value) == code;
    }
    forall c: u32 | ToHttp3(c) == code ensures InWindow(code) && !IsGrease(code) {
      MapsIntoWindow(c);
    }
  }

  /** Every code maps into the window, past the reserved ones; the ends of the window are the ends of the range. */
  lemma MapsIntoWindow(code: u32)
    ensures InWindow(ToHttp3(code)) && !IsGrease(ToHttp3(code))
    ensures ToHttp3(0) == ERROR_FIRST && ToHttp3(TWO_32 - 1) == ERROR_LAST
  {
  }

  lemma StrictlyIncreasing(a: u32, b: u32)
    ensures a < b <==> ToHttp3(a) < ToHttp3(b)
  {
  }

  /** The map back undoes the map. */
  lemma RoundTrip(code: u32)
    ensures FromHttp3(ToHttp3(code)) == Some(code)
  {
  }

  /** The map back answers exactly inside the window, reserved codes included. */
  lemma AnswersExactlyInWindow(code: u64)
    ensures FromHttp3(code).Some? <==> 0x52e4_a40f_a8db <= code <= 0x52e5_ac98_3162
    ensures FromHttp3(code).None? <==> code < ToHttp3(0) || ToHttp3(TWO_32 - 1) < code
  {
  }

  /** Nothing is cut off by the cast to 32 bits. */
  lemma NeverTruncates(code: u64)
    requires InWindow(code)
    ensures var offset := code - ERROR_FIRST; FromHttp3(code) == Some(offset - offset / 0x1f)
  {
  }

  lemma QuotientGrows(x: nat, y: nat)
    requires x < y
    ensures x - x / 0x1f <= y - y / 0x1f
    ensures x - x / 0x1f == y - y / 0x1f <==> x % 0x1f == 30 && y == x + 1
  {
    if y > x + 1 {
      assert y - 1 - (y - 1) / 0x1f >= x - x / 0x1f;
    }
  }

  /**
   * On the whole window the map back never decreases, and it confuses only a reserved code with the code after it.
   */
  lemma ReservedReadsAsNext(a: u64, b: u64)
    requires InWindow(a) && InWindow(b) && a < b
    ensures FromHttp3(a).value <= FromHttp3(b).value
    ensures FromHttp3(a) == FromHttp3(b) <==> IsGrease(a) && b == a + 1
  {
    NeverTruncates(a);
    NeverTruncates(b);
    GreaseInWindow(a);
    QuotientGrows(a - ERROR_FIRST, b - ERROR_FIRST);
    hide FromHttp3, IsGrease;
  }
}
