/** Keystrokes with their shift and toggle states, and the conversions that AddKey and ReadKeyStroke make. */
module Keys {

  const SHIFT_STATE_VALID: bv32 := 0x8000_0000
  const RIGHT_SHIFT: bv32 := 0x0001
  const LEFT_SHIFT: bv32 := 0x0002
  const RIGHT_CONTROL: bv32 := 0x0004
  const LEFT_CONTROL: bv32 := 0x0008
  const RIGHT_ALT: bv32 := 0x0010
  const LEFT_ALT: bv32 := 0x0020
  const RIGHT_LOGO: bv32 := 0x0040
  const LEFT_LOGO: bv32 := 0x0080
  const MENU_KEY: bv32 := 0x0100
  const SYS_REQ: bv32 := 0x0200

  const TOGGLE_STATE_VALID: bv8 := 0x80
  const KEY_STATE_EXPOSED: bv8 := 0x40
  const SCROLL_LOCK: bv8 := 0x01
  const NUM_LOCK: bv8 := 0x02
  const CAPS_LOCK: bv8 := 0x04

  const UPPER_A: nat := 65
  const LOWER_A: nat := 97
  const LETTERS: nat := 26

  /** EFI_KEY_DATA. */
  datatype KeyData = KeyData(scanCode: nat, unicodeChar: nat, shiftState: bv32, toggleState: bv8)

  const ZERO_KEY: KeyData := KeyData(0, 0, 0, 0)

  /** A keystroke of a shift or toggle key alone. */
  predicate Partial(key: KeyData) {
    key.scanCode == 0 && key.unicodeChar == 0
  }

  /** The keys that are held down and the locks that are on. */
  datatype Flags = Flags(
    leftShift: bool, rightShift: bool, leftAlt: bool, rightAlt: bool, leftCtrl: bool, rightCtrl: bool,
    leftLogo: bool, rightLogo: bool, menu: bool, sysReq: bool,
    capsLock: bool, numLock: bool, scrollLock: bool)
  {
    predicate Ctrl() {
      leftCtrl || rightCtrl
    }

    predicate Shift() {
      leftShift || rightShift
    }
  }

  const NO_FLAGS: Flags :=
    Flags(false, false, false, false, false, false, false, false, false, false, false, false, false)

  predicate IsLower(c: nat) {
    LOWER_A <= c < LOWER_A + LETTERS
  }

  predicate IsUpper(c: nat) {
    UPPER_A <= c < UPPER_A + LETTERS
  }

  predicate IsLetter(c: nat) {
    IsLower(c) || IsUpper(c)
  }

  predicate IsControl(c: nat) {
    1 <= c <= LETTERS
  }

  /** The letter for a control character that is typed with Ctrl; other characters stay. */
  function ToLetter(flags: Flags, c: nat): nat {
    if flags.Ctrl() && IsControl(c)
    then (if flags.Shift() == flags.capsLock then c + LOWER_A - 1 else c + UPPER_A - 1)
    else c
  }

  /** The control character for a letter. */
  function ToControl(c: nat): nat {
    if IsLower(c) then c - LOWER_A + 1 else if IsUpper(c) then c - UPPER_A + 1 else c
  }

  /** `bits` says exactly which of the ten shift keys are held down, except that a letter carries no Shift. */
  predicate ShiftBits(flags: Flags, letter: bool, bits: bv32) {
    && (bits & LEFT_SHIFT != 0 <==> flags.leftShift && !letter)
    && (bits & RIGHT_SHIFT != 0 <==> flags.rightShift && !letter)
    && (bits & LEFT_CONTROL != 0 <==> flags.leftCtrl)
    && (bits & RIGHT_CONTROL != 0 <==> flags.rightCtrl)
    && (bits & LEFT_ALT != 0 <==> flags.leftAlt)
    && (bits & RIGHT_ALT != 0 <==> flags.rightAlt)
    && (bits & LEFT_LOGO != 0 <==> flags.leftLogo)
    && (bits & RIGHT_LOGO != 0 <==> flags.rightLogo)
    && (bits & MENU_KEY != 0 <==> flags.menu)
    && (bits & SYS_REQ != 0 <==> flags.sysReq)
    && bits & SHIFT_STATE_VALID != 0
    && bits & 0x7FFF_FC00 == 0
  }

  /** `bits` says exactly which locks are on and whether partial keystrokes are reported. */
  predicate ToggleBits(flags: Flags, support: bool, bits: bv8) {
    && (bits & CAPS_LOCK != 0 <==> flags.capsLock)
    && (bits & NUM_LOCK != 0 <==> flags.numLock)
    && (bits & SCROLL_LOCK != 0 <==> flags.scrollLock)
    && (bits & KEY_STATE_EXPOSED != 0 <==> support)
    && bits & TOGGLE_STATE_VALID != 0
    && bits & 0x38 == 0
  }

  /** `key` is what the keyboard driver makes of a scan code and a character. */
  predicate Stamped(flags: Flags, support: bool, scanCode: nat, unicodeChar: nat, key: KeyData) {
    && key.scanCode == scanCode
    && key.unicodeChar == ToLetter(flags, unicodeChar)
    && ShiftBits(flags, IsLetter(key.unicodeChar), key.shiftState)
    && ToggleBits(flags, support, key.toggleState)
  }

  /** What ReadKeyStroke makes of a keystroke of the queue. */
  function Converted(key: KeyData): KeyData {
    if key.shiftState & (LEFT_CONTROL | RIGHT_CONTROL) != 0
    then key.(unicodeChar := ToControl(key.unicodeChar))
    else key
  }

  /** `bits` with the bits of `mask` set as well, if `on`. */
  function Marked(bits: bv32, mask: bv32, on: bool): bv32 {
    bits | (if on then mask else 0)
  }

  /** All the bits of the held keys. */
  function HeldKeys(flags: Flags): bv32 {
    var ctrl := Marked(Marked(SHIFT_STATE_VALID, LEFT_CONTROL, flags.leftCtrl), RIGHT_CONTROL, flags.rightCtrl);
    var alt := Marked(Marked(ctrl, LEFT_ALT, flags.leftAlt), RIGHT_ALT, flags.rightAlt);
    var shift := Marked(Marked(alt, LEFT_SHIFT, flags.leftShift), RIGHT_SHIFT, flags.rightShift);
    var logo := Marked(Marked(shift, LEFT_LOGO, flags.leftLogo), RIGHT_LOGO, flags.rightLogo);
    Marked(Marked(logo, MENU_KEY, flags.menu), SYS_REQ, flags.sysReq)
  }

  lemma {:induction false} HeldKeysAreExact(flags: Flags)
    ensures ShiftBits(flags, false, HeldKeys(flags))
  {
    assert HeldKeys(flags) & LEFT_SHIFT != 0 <==> flags.leftShift;
    assert HeldKeys(flags) & RIGHT_SHIFT != 0 <==> flags.rightShift;
    assert HeldKeys(flags) & SHIFT_STATE_VALID != 0;
    assert HeldKeys(flags) & 0x7FFF_FC00 == 0;
  }

  lemma {:induction false} WithoutShift(flags: Flags, bits: bv32)
    requires ShiftBits(flags, false, bits)
    ensures ShiftBits(flags, true, bits & !(LEFT_SHIFT | RIGHT_SHIFT))
  {
  }

  method ShiftState(flags: Flags, letter: bool) returns (bits: bv32)
    ensures ShiftBits(flags, letter, bits)
  {
    hide Marked, ShiftBits;
    bits := SHIFT_STATE_VALID;
    bits := Marked(bits, LEFT_CONTROL, flags.leftCtrl);
    bits := Marked(bits, RIGHT_CONTROL, flags.rightCtrl);
    bits := Marked(bits, LEFT_ALT, flags.leftAlt);
    bits := Marked(bits, RIGHT_ALT, flags.rightAlt);
    bits := Marked(bits, LEFT_SHIFT, flags.leftShift);
    bits := Marked(bits, RIGHT_SHIFT, flags.rightShift);
    bits := Marked(bits, LEFT_LOGO, flags.leftLogo);
    bits := Marked(bits, RIGHT_LOGO, flags.rightLogo);
    bits := Marked(bits, MENU_KEY, flags.menu);
    bits := Marked(bits, SYS_REQ, flags.sysReq);
    HeldKeysAreExact(flags);
    if letter {
      WithoutShift(flags, bits);
      bits := bits & !(LEFT_SHIFT | RIGHT_SHIFT);
    }
  }

  method ToggleState(flags: Flags, support: bool) returns (bits: bv8)
    ensures ToggleBits(flags, support, bits)
  {
    bits := TOGGLE_STATE_VALID;
    if flags.capsLock { bits := bits | CAPS_LOCK; }
    if flags.numLock { bits := bits | NUM_LOCK; }
    if flags.scrollLock { bits := bits | SCROLL_LOCK; }
    if support { bits := bits | KEY_STATE_EXPOSED; }
  }

  lemma {:induction false} ToggleBitsOf(flags: Flags, support: bool, bits: bv8)
    requires bits & TOGGLE_STATE_VALID == TOGGLE_STATE_VALID
    requires flags.capsLock == (bits & CAPS_LOCK == CAPS_LOCK)
    requires flags.numLock == (bits & NUM_LOCK == NUM_LOCK)
    requires flags.scrollLock == (bits & SCROLL_LOCK == SCROLL_LOCK)
    requires support == (bits & KEY_STATE_EXPOSED == KEY_STATE_EXPOSED)
    ensures ToggleBits(flags, support, bits & 0xC7)
  {
  }

  lemma {:induction false} ToggleBitsUnique(flags: Flags, support: bool, a: bv8, b: bv8)
    requires ToggleBits(flags, support, a) && ToggleBits(flags, support, b)
    ensures a == b
  {
    assert a & 0x01 == b & 0x01 && a & 0x02 == b & 0x02 && a & 0x04 == b & 0x04;
    assert a & 0x40 == b & 0x40 && a & 0x80 == b & 0x80 && a & 0x38 == b & 0x38;
  }

  /** The next keystroke carries the toggle state that was set, except for the three bits without a meaning. */
  lemma {:induction false} SetStateIsStamped(
    flags: Flags, support: bool, state: bv8, scanCode: nat, c: nat, key: KeyData)
    requires ToggleBits(flags, support, state & 0xC7)
    requires Stamped(flags, support, scanCode, c, key)
    ensures key.toggleState == state & 0xC7
  {
    ToggleBitsUnique(flags, support, key.toggleState, state & 0xC7);
  }

  lemma {:induction false} CtrlBits(flags: Flags, letter: bool, bits: bv32)
    requires ShiftBits(flags, letter, bits)
    ensures bits & (LEFT_CONTROL | RIGHT_CONTROL) != 0 <==> flags.Ctrl()
  {
    assert bits & (LEFT_CONTROL | RIGHT_CONTROL) != 0 <==> bits & LEFT_CONTROL != 0 || bits & RIGHT_CONTROL != 0;
  }

  /** A character comes back from ReadKeyStroke as it was typed, except for a letter with Ctrl. */
  lemma {:induction false} CharacterSurvivesIff(flags: Flags, support: bool, scanCode: nat, c: nat, key: KeyData)
    requires Stamped(flags, support, scanCode, c, key)
    ensures Converted(key).scanCode == scanCode
    ensures Converted(key).unicodeChar == c <==> !(flags.Ctrl() && IsLetter(c))
  {
    CtrlBits(flags, IsLetter(key.unicodeChar), key.shiftState);
  }

  /** Ctrl with 1 to 26 is queued as a letter, upper case exactly when one of Shift and CapsLock is on, without the
      Shift bits, and ReadKeyStroke gives the control character back. */
  lemma {:induction false} ControlCharacterReturns(flags: Flags, support: bool, scanCode: nat, c: nat, key: KeyData)
    requires Stamped(flags, support, scanCode, c, key)
    requires flags.Ctrl() && IsControl(c)
    ensures Converted(key).unicodeChar == c
    ensures IsLetter(key.unicodeChar)
    ensures IsUpper(key.unicodeChar) <==> flags.Shift() != flags.capsLock
    ensures key.shiftState & (LEFT_SHIFT | RIGHT_SHIFT) == 0
  {
    CharacterSurvivesIff(flags, support, scanCode, c, key);
    assert key.shiftState & LEFT_SHIFT == 0 && key.shiftState & RIGHT_SHIFT == 0;
  }

  /** Ctrl with A to Z, in either case, is read as 1 to 26, and queued as typed. */
  lemma {:induction false} CtrlLetterIsRead(flags: Flags, support: bool, scanCode: nat, n: nat, c: nat, key: KeyData)
    requires Stamped(flags, support, scanCode, c, key) && flags.Ctrl()
    requires 1 <= n <= 26 && (c == n + 64 || c == n + 96)
    ensures key.unicodeChar == c && Converted(key).unicodeChar == n
  {
    CtrlBits(flags, IsLetter(key.unicodeChar), key.shiftState);
    hide ShiftBits, ToggleBits;
  }

  /** Ctrl with 1 to 26 is queued as a to z if Shift and CapsLock agree, and as A to Z otherwise. */
  lemma {:induction false} CtrlNumberIsQueued(flags: Flags, support: bool, scanCode: nat, n: nat, key: KeyData)
    requires Stamped(flags, support, scanCode, n, key) && flags.Ctrl() && 1 <= n <= 26
    ensures key.unicodeChar == if (flags.leftShift || flags.rightShift) == flags.capsLock then n + 96 else n + 64
  {
    hide ShiftBits, ToggleBits;
  }

  lemma {:induction false} ShiftBitsUnique(flags: Flags, letter: bool, a: bv32, b: bv32)
    requires ShiftBits(flags, letter, a) && ShiftBits(flags, letter, b)
    ensures a == b
  {
    assert a & 0x001 == b & 0x001 && a & 0x002 == b & 0x002 && a & 0x004 == b & 0x004 && a & 0x008 == b & 0x008;
    assert a & 0x010 == b & 0x010 && a & 0x020 == b & 0x020 && a & 0x040 == b & 0x040 && a & 0x080 == b & 0x080;
    assert a & 0x100 == b & 0x100 && a & 0x200 == b & 0x200 && a & 0x8000_0000 == b & 0x8000_0000;
  }

  /** The shift state of a keystroke, bit by bit: the valid bit, Ctrl, Alt, Shift unless the character is a letter,
      Logo, Menu and SysReq. */
  lemma {:induction false} StampedShiftState(flags: Flags, support: bool, scanCode: nat, c: nat, key: KeyData)
    requires Stamped(flags, support, scanCode, c, key)
    ensures var letter := 65 <= key.unicodeChar <= 90 || 97 <= key.unicodeChar <= 122;
            key.shiftState
            == 0x8000_0000
               | (if flags.leftCtrl then 0x008 else 0) | (if flags.rightCtrl then 0x004 else 0)
               | (if flags.leftAlt then 0x020 else 0) | (if flags.rightAlt then 0x010 else 0)
               | (if flags.leftShift && !letter then 0x002 else 0) | (if flags.rightShift && !letter then 0x001 else 0)
               | (if flags.leftLogo then 0x080 else 0) | (if flags.rightLogo then 0x040 else 0)
               | (if flags.menu then 0x100 else 0) | (if flags.sysReq then 0x200 else 0)
  {
    var letter := IsLetter(key.unicodeChar);
    var held := if letter then flags.(leftShift := false, rightShift := false) else flags;
    HeldKeysAreExact(held);
    SameShiftBits(flags, letter, HeldKeys(held));
    hide ShiftBits, ToggleBits;
    ShiftBitsUnique(flags, letter, key.shiftState, HeldKeys(held));
  }

  lemma {:induction false} SameShiftBits(flags: Flags, letter: bool, bits: bv32)
    requires ShiftBits(if letter then flags.(leftShift := false, rightShift := false) else flags, false, bits)
    ensures ShiftBits(flags, letter, bits)
  {
  }

  /** The toggle state of a keystroke: the valid bit, the locks, and whether partial keystrokes are supported. */
  lemma {:induction false} StampedToggleState(flags: Flags, support: bool, scanCode: nat, c: nat, key: KeyData)
    requires Stamped(flags, support, scanCode, c, key)
    ensures key.toggleState
         == 0x80 | (if flags.scrollLock then 0x01 else 0) | (if flags.numLock then 0x02 else 0)
            | (if flags.capsLock then 0x04 else 0) | (if support then 0x40 else 0)
  {
    hide ShiftBits;
    var bits: bv8 := 0x80 | (if flags.scrollLock then 0x01 else 0) | (if flags.numLock then 0x02 else 0)
                     | (if flags.capsLock then 0x04 else 0) | (if support then 0x40 else 0);
    assert ToggleBits(flags, support, bits);
    ToggleBitsUnique(flags, support, key.toggleState, bits);
  }
}
