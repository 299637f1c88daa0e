/** The sonification message the installation emits when a cell is revealed
    (`sendOSCMessage` / `simulateOSCSend`): an OSC address
    "/gaza/cell/<gridX>/<gridY>" and four arguments, the cell's column and
    row as integers, its brightness normalised to [0, 1] as a float, and a
    millisecond timestamp as an integer. */
module Osc {
  import opened Options

  /** A typed OSC argument: type tag 'i' or 'f'. */
  datatype Arg = IntArg(i: int) | FloatArg(f: real)

  datatype Message = Message(address: string, args: seq<Arg>)

  /** What a reveal message reports: the cell, its brightness on the 0..255
      luminance scale and the time of sending. */
  datatype Reveal = Reveal(gridX: nat, gridY: nat, brightness: real, timestamp: int)

  const AddressPrefix: string := "/gaza/cell/"

  /** brightness / 255: the brightness on a 0..1 scale. */
  function Normalize(brightness: real): (r: real)
    ensures r * 255.0 == brightness
    ensures 0.0 <= brightness <= 255.0 ==> 0.0 <= r <= 1.0
  {
    brightness / 255.0
  }

  // ---------------------------------------------------------------------------
  // Decimal numerals, as a template literal formats a non-negative integer

  predicate IsDigit(c: char) {
    '0' <= c <= '9'
  }

  function DigitChar(d: nat): char
    requires d < 10
  {
    "0123456789"[d]
  }

  function DigitValue(c: char): nat
    requires IsDigit(c)
  {
    (c as int - '0' as int) as nat
  }

  /** The shortest decimal numeral of n. */
  function Decimal(n: nat): (s: string)
    ensures |s| > 0 && forall k :: 0 <= k < |s| ==> IsDigit(s[k])
  {
    if n < 10 then [DigitChar(n)] else Decimal(n / 10) + [DigitChar(n % 10)]
  }

  /** The value of a numeral, read left to right. */
  function NumeralValue(s: string): nat
    requires forall k :: 0 <= k < |s| ==> IsDigit(s[k])
  {
    if |s| == 0 then 0 else 10 * NumeralValue(s[..|s| - 1]) + DigitValue(s[|s| - 1])
  }

  lemma DigitRoundTrip(d: nat)
    requires d < 10
    ensures IsDigit(DigitChar(d)) && DigitValue(DigitChar(d)) == d
  {
  }

  /** Reading back a formatted numeral gives the number. */
  lemma {:induction false} DecimalRoundTrip(n: nat)
    ensures NumeralValue(Decimal(n)) == n
  {
    DigitRoundTrip(n % 10);
    if n >= 10 {
      DecimalRoundTrip(n / 10);
      var s := Decimal(n);
      assert s[..|s| - 1] == Decimal(n / 10);
    }
  }

  /** Parses a non-empty all-digit string. */
  function ParseNumeral(s: string): Option<nat> {
    if |s| > 0 && forall k :: 0 <= k < |s| ==> IsDigit(s[k]) then Some(NumeralValue(s)) else None
  }

  // ---------------------------------------------------------------------------
  // Addresses

  /** "/gaza/cell/<gridX>/<gridY>". */
  function Address(gridX: nat, gridY: nat): string {
    AddressPrefix + Decimal(gridX) + "/" + Decimal(gridY)
  }

  /** Position of the first occurrence of c in s. */
  function IndexOf(s: string, c: char): (r: Option<nat>)
    ensures r.Some? ==> r.value < |s| && s[r.value] == c && forall k :: 0 <= k < r.value ==> s[k] != c
    ensures r.None? ==> forall k :: 0 <= k < |s| ==> s[k] != c
  {
    if |s| == 0 then None
    else if s[0] == c then Some(0)
    else match IndexOf(s[1..], c)
      case None => None
      case Some(k) => Some(k + 1)
  }

  /** The cell an address names, or None when it is not a cell address. */
  function ParseAddress(s: string): Option<(nat, nat)> {
    if |s| < |AddressPrefix| || s[..|AddressPrefix|] != AddressPrefix then None
    else
      var rest := s[|AddressPrefix|..];
      match IndexOf(rest, '/')
      case None => None
      case Some(k) =>
        match (ParseNumeral(rest[..k]), ParseNumeral(rest[k + 1..]))
        case (Some(x), Some(y)) => Some((x, y))
        case _ => None
  }

  /** An address names the cell it was built from. */
  lemma AddressRoundTrip(gridX: nat, gridY: nat)
    ensures ParseAddress(Address(gridX, gridY)) == Some((gridX, gridY))
  {
    var s := Address(gridX, gridY);
    var dx := Decimal(gridX);
    var dy := Decimal(gridY);
    assert s[..|AddressPrefix|] == AddressPrefix;
    var rest := s[|AddressPrefix|..];
    assert rest == dx + "/" + dy;
    assert forall k :: 0 <= k < |dx| ==> rest[k] != '/';
    assert rest[|dx|] == '/';
    assert IndexOf(rest, '/') == Some(|dx|);
    assert rest[..|dx|] == dx;
    assert rest[|dx| + 1..] == dy;
    DecimalRoundTrip(gridX);
    DecimalRoundTrip(gridY);
  }

  // ---------------------------------------------------------------------------
  // Messages

  /** The message `simulateOSCSend` builds for a reveal. */
  function Encode(e: Reveal): Message {
    Message(Address(e.gridX, e.gridY),
            [IntArg(e.gridX), IntArg(e.gridY), FloatArg(Normalize(e.brightness)), IntArg(e.timestamp)])
  }

  /** A receiver's reading of a reveal message: the cell from the address
      (which must agree with the two integer arguments), the brightness
      scaled back to 0..255, and the timestamp. */
  function Decode(m: Message): Option<Reveal> {
    if |m.args| != 4 || !m.args[0].IntArg? || !m.args[1].IntArg? || !m.args[2].FloatArg? || !m.args[3].IntArg? then None
    else match ParseAddress(m.address)
      case None => None
      case Some((x, y)) =>
        if m.args[0].i == x && m.args[1].i == y then Some(Reveal(x, y, m.args[2].f * 255.0, m.args[3].i))
        else None
  }

  /** Every reveal survives encoding: the receiver recovers the cell, the
      brightness and the timestamp. */
  lemma EncodeRoundTrip(e: Reveal)
    ensures Decode(Encode(e)) == Some(e)
  {
    AddressRoundTrip(e.gridX, e.gridY);
  }

  /** `sendOSCMessage`: nothing when OSC is disabled, otherwise the encoded
      reveal of (gridX, gridY) with its brightness and the current time. */
  function SendOscMessage(oscEnabled: bool, gridX: nat, gridY: nat, brightness: real, now: int): (m: Option<Message>)
    ensures m.Some? <==> oscEnabled
    ensures m.Some? ==> Decode(m.value) == Some(Reveal(gridX, gridY, brightness, now))
  {
    if !oscEnabled then None
    else
      EncodeRoundTrip(Reveal(gridX, gridY, brightness, now));
      Some(Encode(Reveal(gridX, gridY, brightness, now)))
  }
}
