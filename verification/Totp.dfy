/** Time-based one-time codes: RFC 4226 values over 30-second counters, checked with one period of tolerance. */
module Totp {
  import opened Wrappers
  import opened Numerals
  import opened BigEndian

  const DIGITS := 6
  const WINDOW := 1
  const COUNTER_LIMIT: nat := 0x1_0000_0000_0000_0000

  /** An HMAC-SHA-1 tag. */
  type Digest = d: Bytes | |d| == 20 witness seq(20, _ => 0)

  datatype Verdict = Accepted | Rejected | Raises

  /** The four bytes at the offset that the digest's last nibble names, without the top bit. */
  function Truncate(digest: Digest): nat {
    var offset := digest[19] % 16;
    FromBytes(digest[offset..offset + 4]) % 0x8000_0000
  }

  /** The counter as eight bytes. */
  function Message(counter: int): Bytes
    requires 0 <= counter < COUNTER_LIMIT
  {
    EightBytes();
    ToBytes(counter, 8)
  }

  /** The code of a counter; packing a counter into eight bytes raises outside 0 .. 2^64 - 1. */
  function Hotp(mac: Bytes -> Digest, counter: int): Option<string> {
    if 0 <= counter < COUNTER_LIMIT then Some(Padded(Truncate(mac(Message(counter))) % 1_000_000, DIGITS))
    else None
  }

  function Counter(time: real): int {
    (time / 30.0).Floor
  }

  function Generate(mac: Bytes -> Digest, time: real): Option<string> {
    Hotp(mac, Counter(time))
  }

  /** str.isdigit also accepts digits outside ASCII; which ones is a parameter. */
  predicate IsDigitText(foreign: char -> bool, code: string) {
    forall i :: 0 <= i < |code| ==> IsDigit(code[i]) || (code[i] as int >= 128 && foreign(code[i]))
  }

  /** The generator under any(): offsets in order, stopping at the first match. Comparing a code with
      characters outside ASCII raises. */
  function TryFrom(mac: Bytes -> Digest, counter: int, offset: int, code: string): Verdict
    decreases WINDOW + 1 - offset
  {
    if offset > WINDOW then Rejected
    else
      var candidate := Hotp(mac, counter + offset);
      if candidate.None? || !AllDigits(code) then Raises
      else if candidate.value == code then Accepted
      else TryFrom(mac, counter, offset + 1, code)
  }

  function Verify(mac: Bytes -> Digest, foreign: char -> bool, code: string, time: real): Verdict {
    if code == "" || !IsDigitText(foreign, code) || |code| != DIGITS then Rejected
    else TryFrom(mac, Counter(time), 0 - WINDOW, code)
  }

  // ---------- the values ----------

  lemma EightBytes()
    ensures Power256(8) == COUNTER_LIMIT
  {
  }

  function Word(a: int, b: int, c: int, d: int): int {
    a * 0x100_0000 + b * 0x1_0000 + c * 0x100 + d
  }

  /** Dynamic truncation never leaves the digest, and is the number that section 5.3 of RFC 4226 writes with
      shifts and masks. */
  lemma TruncateIsRfc(digest: Digest)
    ensures
      var o := digest[19] % 16;
      && o + 3 < |digest|
      && Truncate(digest)
         == Word(digest[o] % 0x80, digest[o + 1], digest[o + 2], digest[o + 3])
  {
    var o := digest[19] % 16;
    FourBytes(digest[o..o + 4]);
    WordWithoutTopBit(digest[o], digest[o + 1], digest[o + 2], digest[o + 3]);
    hide Word, FromBytes;
  }

  lemma WordWithoutTopBit(a: Byte, b: Byte, c: Byte, d: Byte)
    ensures Word(a, b, c, d) % 0x8000_0000 == Word(a % 0x80, b, c, d)
  {
  }

  lemma {:induction false} FourBytes(b: Bytes)
    requires |b| == 4
    ensures FromBytes(b) == Word(b[0], b[1], b[2], b[3])
  {
    assert b[..3][..2] == b[..2] && b[..2][..1] == b[..1] && b[..1][..0] == [];
    assert FromBytes(b[..1]) == b[0];
    assert FromBytes(b[..2]) == Word(0, 0, b[0], b[1]);
    assert FromBytes(b[..3]) == Word(0, b[0], b[1], b[2]);
  }

  /** A code is there for exactly the 64-bit counters, always six ASCII digits, and reads back as the truncated
      value modulo 10^6. */
  lemma CodesAreSixDigits(mac: Bytes -> Digest, counter: int)
    ensures Hotp(mac, counter).Some? <==> 0 <= counter < COUNTER_LIMIT
    ensures 0 <= counter < COUNTER_LIMIT ==>
      var code := Hotp(mac, counter).value;
      |code| == DIGITS && AllDigits(code) && ParseNat(code) == Some(Truncate(mac(Message(counter))) % 1_000_000)
  {
    if 0 <= counter < COUNTER_LIMIT {
      var n := Truncate(mac(Message(counter))) % 1_000_000;
      SixDigits();
      PaddedWidth(n, DIGITS);
      PaddedParses(n, DIGITS);
    }
  }

  lemma SixDigits()
    ensures Power10(DIGITS) == 1_000_000
  {
  }

  /** A period lasts thirty seconds: the counter of a time is the number of whole periods since the epoch. */
  lemma PeriodIsThirtySeconds(time: real, c: int)
    ensures Counter(time) == c <==> (30 * c) as real <= time < (30 * c + 30) as real
  {
    assert Counter(time) == c <==> c as real <= time / 30.0 < c as real + 1.0;
  }

  /** The counter is sent as eight bytes, the most significant one first. */
  lemma {:induction false} MessageIsBigEndian(counter: int)
    requires 0 <= counter < COUNTER_LIMIT
    ensures
      var m := Message(counter);
      |m| == 8 && counter == Word(m[0], m[1], m[2], m[3]) * 0x1_0000_0000 + Word(m[4], m[5], m[6], m[7])
  {
    EightBytes();
    NumberRoundTrip(counter, 8);
    var m := Message(counter);
    FourBytes(m[..4]);
    FourMoreBytes(m);
  }

  lemma {:induction false} FourMoreBytes(b: Bytes)
    requires |b| == 8
    ensures FromBytes(b) == FromBytes(b[..4]) * 0x1_0000_0000 + Word(b[4], b[5], b[6], b[7])
  {
    assert b[..7] == b[..|b| - 1] && b[..7][..6] == b[..6] && b[..6][..5] == b[..5] && b[..5][..4] == b[..4];
    assert FromBytes(b[..5]) == 256 * FromBytes(b[..4]) + b[4];
    assert FromBytes(b[..6]) == 256 * FromBytes(b[..5]) + b[5];
    assert FromBytes(b[..7]) == 256 * FromBytes(b[..6]) + b[6];
    assert FromBytes(b) == 256 * FromBytes(b[..7]) + b[7];
  }

  // ---------- the window ----------

  predicate Matches(mac: Bytes -> Digest, counter: int, code: string) {
    Hotp(mac, counter) == Some(code)
  }

  /** Whatever the text, only the codes of the three counters around the clock are ever accepted. */
  lemma AcceptsOnlyTheWindow(mac: Bytes -> Digest, foreign: char -> bool, code: string, time: real)
    ensures
      var c := Counter(time);
      Verify(mac, foreign, code, time) == Accepted
      ==> Matches(mac, c - 1, code) || Matches(mac, c, code) || Matches(mac, c + 1, code)
  {
    WindowUnfolds(mac, Counter(time), code);
  }

  lemma WindowUnfolds(mac: Bytes -> Digest, c: int, code: string)
    ensures TryFrom(mac, c, 2, code) == Rejected
    ensures TryFrom(mac, c, 1, code)
      == if Hotp(mac, c + 1).None? || !AllDigits(code) then Raises
         else if Matches(mac, c + 1, code) then Accepted else Rejected
    ensures TryFrom(mac, c, 0, code)
      == if Hotp(mac, c).None? || !AllDigits(code) then Raises
         else if Matches(mac, c, code) then Accepted else TryFrom(mac, c, 1, code)
    ensures TryFrom(mac, c, 0 - 1, code)
      == if Hotp(mac, c - 1).None? || !AllDigits(code) then Raises
         else if Matches(mac, c - 1, code) then Accepted else TryFrom(mac, c, 0, code)
  {
  }

  /** From the second period on, and short of the counter's end, a code is accepted exactly when it is one of the
      three. */
  lemma AcceptsExactlyTheWindow(mac: Bytes -> Digest, foreign: char -> bool, code: string, time: real)
    requires 1 <= Counter(time) < COUNTER_LIMIT - 1
    ensures
      var c := Counter(time);
      Verify(mac, foreign, code, time) == Accepted
      <==> Matches(mac, c - 1, code) || Matches(mac, c, code) || Matches(mac, c + 1, code)
  {
    var c := Counter(time);
    WindowUnfolds(mac, c, code);
    CodesAreSixDigits(mac, c - 1);
    CodesAreSixDigits(mac, c);
    CodesAreSixDigits(mac, c + 1);
    hide Hotp;
  }

  lemma CountersStayClose(t: real, u: real)
    requires -30.0 <= t - u <= 30.0
    ensures -1 <= Counter(t) - Counter(u) <= 1
  {
  }

  lemma StartsAtZero(t: real, u: real)
    requires t >= 0.0 && u >= 30.0
    ensures Counter(t) >= 0 && Counter(u) >= 1
  {
  }

  /** A code generated at t is accepted by a clock that is up to thirty seconds away, from its second period on. */
  lemma DriftOfOnePeriodIsAccepted(mac: Bytes -> Digest, foreign: char -> bool, t: real, u: real)
    requires t >= 0.0 && u >= 30.0 && -30.0 <= t - u <= 30.0
    requires Counter(u) < COUNTER_LIMIT - 1
    ensures Generate(mac, t).Some? && Verify(mac, foreign, Generate(mac, t).value, u) == Accepted
  {
    hide Hotp, Verify, Counter;
    CountersStayClose(t, u);
    StartsAtZero(t, u);
    CodesAreSixDigits(mac, Counter(t));
    AcceptsExactlyTheWindow(mac, foreign, Generate(mac, t).value, u);
  }

  /** Six digits, of ASCII or foreign. */
  predicate WellFormed(foreign: char -> bool, code: string) {
    |code| == 6 && forall c :: c in code ==> '0' <= c <= '9' || (c as int > 127 && foreign(c))
  }

  /** The verdict in full, up to the counter's end. Malformed text is rejected; well-formed text makes the check raise
      exactly in the first period (or before the epoch), or when a digit is outside ASCII; otherwise it is accepted
      exactly if it is one of the three codes. */
  lemma VerdictExactly(mac: Bytes -> Digest, foreign: char -> bool, code: string, time: real)
    requires Counter(time) < COUNTER_LIMIT - 1
    ensures !WellFormed(foreign, code) ==> Verify(mac, foreign, code, time) == Rejected
    ensures Verify(mac, foreign, code, time) == Raises
      <==> WellFormed(foreign, code) && (time < 30.0 || !AllDigits(code))
    ensures
      var c := Counter(time);
      Verify(mac, foreign, code, time) == Accepted
      <==> time >= 30.0 && (Matches(mac, c - 1, code) || Matches(mac, c, code) || Matches(mac, c + 1, code))
  {
    var c := Counter(time);
    WellFormedExactly(foreign, code);
    assert time < 30.0 <==> c < 1 by {
      assert time < 30.0 <==> time / 30.0 < 1.0;
    }
    WindowUnfolds(mac, c, code);
    CodesAreSixDigits(mac, c - 1);
    CodesAreSixDigits(mac, c);
    CodesAreSixDigits(mac, c + 1);
    hide Hotp, Counter, AllDigits, IsDigitText, TryFrom, WellFormed;
  }

  lemma WellFormedExactly(foreign: char -> bool, code: string)
    ensures WellFormed(foreign, code) <==> |code| == DIGITS && IsDigitText(foreign, code)
  {
    if WellFormed(foreign, code) {
      forall i | 0 <= i < |code| ensures IsDigit(code[i]) || (code[i] as int >= 128 && foreign(code[i])) {
        assert code[i] in code;
      }
    }
  }
}
