/** The decisions taken in the keyboard demo's endpoint interrupt
    (Demos/KeyboardViaInt/KeyboardViaInt.c): which key code a joystick
    position sends, that the report is cleared once sent, and which board
    LEDs the host's lock-key report lights. The board's `JOY_*` and
    `LEDS_LED*` masks are not visible to this model and are parameters. */
module KeyboardIsr {

  /** A status bit `mask` is set in `status`. */
  predicate Has(status: bv8, mask: bv8)
  {
    status & mask != 0
  }

  /** The board's `JOY_*` masks. */
  datatype JoystickMasks = JoystickMasks(up: bv8, down: bv8, left: bv8, right: bv8, press: bv8)
  {
    /** ASSUMPTION about the board: the five masks are non-zero and no two
        share a bit, as distinct single-bit masks are. */
    predicate WellFormed()
    {
      && up != 0 && down != 0 && left != 0 && right != 0 && press != 0
      && up & down == 0 && up & left == 0 && up & right == 0 && up & press == 0
      && down & left == 0 && down & right == 0 && down & press == 0
      && left & right == 0 && left & press == 0
      && right & press == 0
    }
  }

  /** Usage IDs of the letters 'a' to 'e' on the Keyboard/Keypad page of the
      USB HID Usage Tables. */
  const KeyA: bv8 := 0x04
  const KeyB: bv8 := 0x05
  const KeyC: bv8 := 0x06
  const KeyD: bv8 := 0x07
  const KeyE: bv8 := 0x08

  /** The key code the interrupt leaves in the report for joystick status
      `status`, when the report held `current` before. As in the source, the
      up/down choice is made first, left/right overrides it, and press
      overrides both; with nothing held the code is left as it was. */
  function SelectKeyCode(current: bv8, status: bv8, j: JoystickMasks): (k: bv8)
    ensures Has(status, j.press) ==> k == KeyE
    ensures !Has(status, j.press) && Has(status, j.left) ==> k == KeyC
    ensures !Has(status, j.press) && !Has(status, j.left) && Has(status, j.right) ==> k == KeyD
    ensures (!Has(status, j.press) && !Has(status, j.left) && !Has(status, j.right)
             && Has(status, j.up)) ==> k == KeyA
    ensures (!Has(status, j.press) && !Has(status, j.left) && !Has(status, j.right)
             && !Has(status, j.up) && Has(status, j.down)) ==> k == KeyB
    ensures (!Has(status, j.press) && !Has(status, j.left) && !Has(status, j.right)
             && !Has(status, j.up) && !Has(status, j.down)) ==> k == current
  {
    var vertical := if Has(status, j.up) then KeyA else if Has(status, j.down) then KeyB else current;
    var horizontal := if Has(status, j.left) then KeyC else if Has(status, j.right) then KeyD else vertical;
    if Has(status, j.press) then KeyE else horizontal
  }

  /** A reference reading of the key choice: scan (held, key) rules in
      priority order and take the key of the first rule whose mask is held. */
  function FirstHeld(rules: seq<(bool, bv8)>, otherwise: bv8): bv8
  {
    if |rules| == 0 then otherwise
    else if rules[0].0 then rules[0].1
    else FirstHeld(rules[1..], otherwise)
  }

  /** The joystick rules for `status`, highest priority first. */
  function Priority(status: bv8, j: JoystickMasks): seq<(bool, bv8)>
  {
    [(Has(status, j.press), KeyE), (Has(status, j.left), KeyC), (Has(status, j.right), KeyD),
     (Has(status, j.up), KeyA), (Has(status, j.down), KeyB)]
  }

  /** The source's three overriding if-chains are exactly a priority scan
      press > left > right > up > down. */
  lemma SelectKeyCodeIsPriorityScan(current: bv8, status: bv8, j: JoystickMasks)
    ensures SelectKeyCode(current, status, j) == FirstHeld(Priority(status, j), current)
  {
    var r0 := Priority(status, j);
    var r1, r2, r3, r4 := r0[1..], r0[2..], r0[3..], r0[4..];
    assert r0[1..] == r1 && r1[1..] == r2 && r2[1..] == r3 && r3[1..] == r4 && r4[1..] == [];
    assert FirstHeld(r4, current) == if r4[0].0 then KeyB else current;
    assert FirstHeld(r3, current) == if r3[0].0 then KeyA else FirstHeld(r4, current);
    assert FirstHeld(r2, current) == if r2[0].0 then KeyD else FirstHeld(r3, current);
    assert FirstHeld(r1, current) == if r1[0].0 then KeyC else FirstHeld(r2, current);
  }

  /** The five joystick positions the source tests. */
  datatype Direction = Up | Down | Left | Right | Press

  function Mask(j: JoystickMasks, d: Direction): bv8
  {
    match d
    case Up => j.up
    case Down => j.down
    case Left => j.left
    case Right => j.right
    case Press => j.press
  }

  function KeyOf(d: Direction): bv8
  {
    match d
    case Up => KeyA
    case Down => KeyB
    case Left => KeyC
    case Right => KeyD
    case Press => KeyE
  }

  /** With the board's masks well formed, every one of the five keys is
      reachable: holding a single direction sends its own key. */
  lemma EachDirectionSendsItsKey(current: bv8, j: JoystickMasks, d: Direction)
    requires j.WellFormed()
    ensures SelectKeyCode(current, Mask(j, d), j) == KeyOf(d)
  {
    match d
    case Up => UpSendsA(current, j);
    case Down => DownSendsB(current, j);
    case Left => LeftSendsC(current, j);
    case Right => RightSendsD(current, j);
    case Press => PressSendsE(current, j);
  }

  lemma UpSendsA(current: bv8, j: JoystickMasks)
    requires j.WellFormed()
    ensures SelectKeyCode(current, j.up, j) == KeyA
  {
    Held(j.up);
    NotHeld(j.up, j.press);
    NotHeld(j.up, j.left);
    NotHeld(j.up, j.right);
  }

  lemma DownSendsB(current: bv8, j: JoystickMasks)
    requires j.WellFormed()
    ensures SelectKeyCode(current, j.down, j) == KeyB
  {
    Held(j.down);
    NotHeld(j.down, j.press);
    NotHeld(j.down, j.left);
    NotHeld(j.down, j.right);
    NotHeld(j.down, j.up);
  }

  lemma LeftSendsC(current: bv8, j: JoystickMasks)
    requires j.WellFormed()
    ensures SelectKeyCode(current, j.left, j) == KeyC
  {
    Held(j.left);
    NotHeld(j.left, j.press);
  }

  lemma RightSendsD(current: bv8, j: JoystickMasks)
    requires j.WellFormed()
    ensures SelectKeyCode(current, j.right, j) == KeyD
  {
    Held(j.right);
    NotHeld(j.right, j.press);
    NotHeld(j.right, j.left);
  }

  lemma PressSendsE(current: bv8, j: JoystickMasks)
    requires j.WellFormed()
    ensures SelectKeyCode(current, j.press, j) == KeyE
  {
    Held(j.press);
  }

  lemma Held(m: bv8)
    requires m != 0
    ensures Has(m, m)
  {
  }

  lemma NotHeld(m: bv8, other: bv8)
    requires m & other == 0
    ensures !Has(m, other)
  {
  }

  /** `USB_KeyboardReport_Data_t`, as far as the source uses it. */
  datatype KeyboardReport = KeyboardReport(modifier: bv8, keyCode: bv8)

  /** The report's initial value, and its value after every send. */
  const EmptyReport := KeyboardReport(0, 0)

  /** One keyboard-endpoint interrupt: the report written to the endpoint,
      and the report left behind for the next interrupt. */
  function KeyboardInterrupt(report: KeyboardReport, status: bv8, j: JoystickMasks)
    : (r: (KeyboardReport, KeyboardReport))
    ensures r.0.modifier == report.modifier
    ensures r.0.keyCode == SelectKeyCode(report.keyCode, status, j)
    ensures r.1 == EmptyReport
  {
    var sent := report.(keyCode := SelectKeyCode(report.keyCode, status, j));
    (sent, EmptyReport)
  }

  /** The reports sent by successive interrupts for a sequence of joystick
      readings, starting from `report`. */
  function SentReports(report: KeyboardReport, statuses: seq<bv8>, j: JoystickMasks)
    : (sent: seq<KeyboardReport>)
    ensures |sent| == |statuses|
    decreases |statuses|
  {
    if |statuses| == 0 then []
    else
      var r := KeyboardInterrupt(report, statuses[0], j);
      [r.0] + SentReports(r.1, statuses[1..], j)
  }

  /** No key code carries over: from the initial report, every report sent
      carries modifier 0 and the key chosen by that interrupt's reading
      alone, so a released joystick sends key code 0. */
  lemma {:induction false} NoCarryOver(statuses: seq<bv8>, j: JoystickMasks)
    ensures forall i | 0 <= i < |statuses| ::
      SentReports(EmptyReport, statuses, j)[i] == KeyboardReport(0, SelectKeyCode(0, statuses[i], j))
  {
    if |statuses| > 0 {
      NoCarryOver(statuses[1..], j);
      var sent := SentReports(EmptyReport, statuses, j);
      assert sent[1..] == SentReports(EmptyReport, statuses[1..], j);
      forall i | 1 <= i < |statuses|
        ensures sent[i] == KeyboardReport(0, SelectKeyCode(0, statuses[i], j))
      {
        assert sent[i] == sent[1..][i - 1];
        assert statuses[i] == statuses[1..][i - 1];
      }
    }
  }

  /** The board's `LEDS_LED*` masks. */
  datatype LedMasks = LedMasks(led1: bv8, led2: bv8, led3: bv8, led4: bv8)
  {
    /** ASSUMPTION about the board: the four masks are non-zero and no two
        share a bit, as distinct single-bit masks are. */
    predicate WellFormed()
    {
      && led1 != 0 && led2 != 0 && led3 != 0 && led4 != 0
      && led1 & led2 == 0 && led1 & led3 == 0 && led1 & led4 == 0
      && led2 & led3 == 0 && led2 & led4 == 0
      && led3 & led4 == 0
    }
  }

  /** Lock-key bits of the boot keyboard's LED output report (Appendix B.1
      of the HID 1.11 specification). */
  const NumLock: bv8 := 0x01
  const CapsLock: bv8 := 0x02
  const ScrollLock: bv8 := 0x04

  /** `mask` when `on`, no LED otherwise. */
  function LitIf(on: bool, mask: bv8): bv8
  {
    if on then mask else 0
  }

  /** The LEDs lit for the host's LED report: LED2 always, and LED1, LED3
      and LED4 when Num, Caps and Scroll Lock are on. Each conditional
      `LEDMask |= LEDS_LEDn` of the source is one `LitIf` term. */
  function LedMask(status: bv8, l: LedMasks): (m: bv8)
    ensures m & l.led2 == l.led2
    ensures Has(status, NumLock) ==> m & l.led1 == l.led1
    ensures Has(status, CapsLock) ==> m & l.led3 == l.led3
    ensures Has(status, ScrollLock) ==> m & l.led4 == l.led4
  {
    l.led2 | LitIf(Has(status, NumLock), l.led1) | LitIf(Has(status, CapsLock), l.led3)
      | LitIf(Has(status, ScrollLock), l.led4)
  }

  /* With well-formed masks, each of LED1, LED3 and LED4 is lit exactly when
     its lock bit is set in the host's report. */

  lemma LedMaskTracksNumLock(status: bv8, l: LedMasks)
    requires l.WellFormed()
    ensures Has(LedMask(status, l), l.led1) <==> Has(status, NumLock)
  {
    var n, c, s := Has(status, NumLock), Has(status, CapsLock), Has(status, ScrollLock);
    LedMaskUnfold(status, l);
    FirstLit(l.led2, l.led1, l.led3, l.led4, n, c, s);
  }

  lemma LedMaskTracksCapsLock(status: bv8, l: LedMasks)
    requires l.WellFormed()
    ensures Has(LedMask(status, l), l.led3) <==> Has(status, CapsLock)
  {
    var n, c, s := Has(status, NumLock), Has(status, CapsLock), Has(status, ScrollLock);
    LedMaskUnfold(status, l);
    SecondLit(l.led2, l.led1, l.led3, l.led4, n, c, s);
  }

  lemma LedMaskTracksScrollLock(status: bv8, l: LedMasks)
    requires l.WellFormed()
    ensures Has(LedMask(status, l), l.led4) <==> Has(status, ScrollLock)
  {
    var n, c, s := Has(status, NumLock), Has(status, CapsLock), Has(status, ScrollLock);
    LedMaskUnfold(status, l);
    ThirdLit(l.led2, l.led1, l.led3, l.led4, n, c, s);
  }

  lemma LedMaskUnfold(status: bv8, l: LedMasks)
    ensures LedMask(status, l) == l.led2 | LitIf(Has(status, NumLock), l.led1) | LitIf(Has(status, CapsLock), l.led3) | LitIf(Has(status, ScrollLock), l.led4)
  {
  }

  /* The three positions of a `LedMask`-shaped mask `b | x? | y? | z?`, each
     lit exactly when its switch is on if it shares no bit with the others. */

  lemma FirstLit(b: bv8, x: bv8, y: bv8, z: bv8, n: bool, c: bool, s: bool)
    requires x != 0 && x & b == 0 && x & y == 0 && x & z == 0
    ensures Has(b | LitIf(n, x) | LitIf(c, y) | LitIf(s, z), x) <==> n
  {
  }

  lemma SecondLit(b: bv8, x: bv8, y: bv8, z: bv8, n: bool, c: bool, s: bool)
    requires y != 0 && y & b == 0 && y & x == 0 && y & z == 0
    ensures Has(b | LitIf(n, x) | LitIf(c, y) | LitIf(s, z), y) <==> c
  {
  }

  lemma ThirdLit(b: bv8, x: bv8, y: bv8, z: bv8, n: bool, c: bool, s: bool)
    requires z != 0 && z & b == 0 && z & x == 0 && z & y == 0
    ensures Has(b | LitIf(n, x) | LitIf(c, y) | LitIf(s, z), z) <==> s
  {
  }

  /** No LED outside LED1 to LED4 is ever lit. */
  lemma LedMaskOnlyBoardLeds(status: bv8, l: LedMasks)
    ensures LedMask(status, l) & !(l.led1 | l.led2 | l.led3 | l.led4) == 0
  {
  }

  /** Only the three lock bits of the host's report matter. */
  lemma LedMaskIgnoresOtherBits(status: bv8, l: LedMasks)
    ensures LedMask(status, l) == LedMask(status & (NumLock | CapsLock | ScrollLock), l)
  {
  }
}
