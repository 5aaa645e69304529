/** The keycode resolver of libkdt.c (`keycode_to_ascii`) and the press-time
    comparator used to order a session (`compare_keystrokes`).  Key codes
    carry the values of the Linux input-event-codes header; the proofs use
    only that they are distinct and lie within [0, KEY_MAX]. */
module Keycodes {
  import opened Kdt

  const KEY_1: int := 2
  const KEY_2: int := 3
  const KEY_3: int := 4
  const KEY_4: int := 5
  const KEY_5: int := 6
  const KEY_6: int := 7
  const KEY_7: int := 8
  const KEY_8: int := 9
  const KEY_9: int := 10
  const KEY_0: int := 11
  const KEY_BACKSPACE: int := 14
  const KEY_Q: int := 16
  const KEY_W: int := 17
  const KEY_E: int := 18
  const KEY_R: int := 19
  const KEY_T: int := 20
  const KEY_Y: int := 21
  const KEY_U: int := 22
  const KEY_I: int := 23
  const KEY_O: int := 24
  const KEY_P: int := 25
  const KEY_ENTER: int := 28
  const KEY_A: int := 30
  const KEY_S: int := 31
  const KEY_D: int := 32
  const KEY_F: int := 33
  const KEY_G: int := 34
  const KEY_H: int := 35
  const KEY_J: int := 36
  const KEY_K: int := 37
  const KEY_L: int := 38
  const KEY_LEFTSHIFT: int := 42
  const KEY_Z: int := 44
  const KEY_X: int := 45
  const KEY_C: int := 46
  const KEY_V: int := 47
  const KEY_B: int := 48
  const KEY_N: int := 49
  const KEY_M: int := 50
  const KEY_RIGHTSHIFT: int := 54
  const KEY_SPACE: int := 57
  const KEY_CAPSLOCK: int := 58
  const KEY_MAX: int := 0x2ff

  /** A slot of `lower_map`, the unshifted table (digits, letters, space,
      enter, backspace); 0 for a key the table does not list. */
  function LowerMap(code: int): int {
    if code == KEY_1 then '1' as int
    else if code == KEY_2 then '2' as int
    else if code == KEY_3 then '3' as int
    else if code == KEY_4 then '4' as int
    else if code == KEY_5 then '5' as int
    else if code == KEY_6 then '6' as int
    else if code == KEY_7 then '7' as int
    else if code == KEY_8 then '8' as int
    else if code == KEY_9 then '9' as int
    else if code == KEY_0 then '0' as int
    else if code == KEY_Q then 'q' as int
    else if code == KEY_W then 'w' as int
    else if code == KEY_E then 'e' as int
    else if code == KEY_R then 'r' as int
    else if code == KEY_T then 't' as int
    else if code == KEY_Y then 'y' as int
    else if code == KEY_U then 'u' as int
    else if code == KEY_I then 'i' as int
    else if code == KEY_O then 'o' as int
    else if code == KEY_P then 'p' as int
    else if code == KEY_A then 'a' as int
    else if code == KEY_S then 's' as int
    else if code == KEY_D then 'd' as int
    else if code == KEY_F then 'f' as int
    else if code == KEY_G then 'g' as int
    else if code == KEY_H then 'h' as int
    else if code == KEY_J then 'j' as int
    else if code == KEY_K then 'k' as int
    else if code == KEY_L then 'l' as int
    else if code == KEY_Z then 'z' as int
    else if code == KEY_X then 'x' as int
    else if code == KEY_C then 'c' as int
    else if code == KEY_V then 'v' as int
    else if code == KEY_B then 'b' as int
    else if code == KEY_N then 'n' as int
    else if code == KEY_M then 'm' as int
    else if code == KEY_SPACE then ' ' as int
    else if code == KEY_ENTER then '\n' as int
    else if code == KEY_BACKSPACE then ASCII_BS
    else 0
  }

  /** A slot of `upper_map`, the shifted table (shifted digits, capital
      letters, space, enter, backspace); 0 for a key the table does not list. */
  function UpperMap(code: int): int {
    if code == KEY_1 then '!' as int
    else if code == KEY_2 then '@' as int
    else if code == KEY_3 then '#' as int
    else if code == KEY_4 then '$' as int
    else if code == KEY_5 then '%' as int
    else if code == KEY_6 then '^' as int
    else if code == KEY_7 then '&' as int
    else if code == KEY_8 then '*' as int
    else if code == KEY_9 then '(' as int
    else if code == KEY_0 then ')' as int
    else if code == KEY_Q then 'Q' as int
    else if code == KEY_W then 'W' as int
    else if code == KEY_E then 'E' as int
    else if code == KEY_R then 'R' as int
    else if code == KEY_T then 'T' as int
    else if code == KEY_Y then 'Y' as int
    else if code == KEY_U then 'U' as int
    else if code == KEY_I then 'I' as int
    else if code == KEY_O then 'O' as int
    else if code == KEY_P then 'P' as int
    else if code == KEY_A then 'A' as int
    else if code == KEY_S then 'S' as int
    else if code == KEY_D then 'D' as int
    else if code == KEY_F then 'F' as int
    else if code == KEY_G then 'G' as int
    else if code == KEY_H then 'H' as int
    else if code == KEY_J then 'J' as int
    else if code == KEY_K then 'K' as int
    else if code == KEY_L then 'L' as int
    else if code == KEY_Z then 'Z' as int
    else if code == KEY_X then 'X' as int
    else if code == KEY_C then 'C' as int
    else if code == KEY_V then 'V' as int
    else if code == KEY_B then 'B' as int
    else if code == KEY_N then 'N' as int
    else if code == KEY_M then 'M' as int
    else if code == KEY_SPACE then ' ' as int
    else if code == KEY_ENTER then '\n' as int
    else if code == KEY_BACKSPACE then ASCII_BS
    else 0
  }

  predicate IsLowerLetter(c: int) {
    'a' as int <= c <= 'z' as int
  }

  predicate IsUpperLetter(c: int) {
    'A' as int <= c <= 'Z' as int
  }

  /** `keycode_to_ascii`: the character a key produces under the shift and
      caps-lock flags (C truth values: non-zero means set), or 0. */
  function KeycodeToAscii(code: int, shift: int, capsLock: int): (c: int)
    ensures 0 <= c < 128
    ensures c != 0 ==> 0 <= code <= KEY_MAX
  {
    if code < 0 || code > KEY_MAX then 0
    else if capsLock != 0 && shift != 0 then
      (if IsLowerLetter(LowerMap(code)) then LowerMap(code) else UpperMap(code))
    else if capsLock != 0 then
      (if IsLowerLetter(LowerMap(code)) then UpperMap(code) else LowerMap(code))
    else if shift != 0 then UpperMap(code)
    else LowerMap(code)
  }

  /** The table covers exactly the letters, digits, space, enter and
      backspace; every other key is 0 in both tables. */
  predicate InTable(code: int) {
    LowerMap(code) != 0
  }

  /** A key whose base character is a letter; exactly these keys are letter keys. */
  predicate IsLetterKey(code: int) {
    IsLowerLetter(LowerMap(code))
  }

  /** Both tables list the same keys; a letter key's shifted character is its
      capital, and no other key has a capital in the shifted table. */
  lemma TablesAgree(code: int)
    ensures LowerMap(code) == 0 <==> UpperMap(code) == 0
    ensures LowerMap(code) != 0 ==> 0 <= code <= KEY_MAX
    ensures IsLetterKey(code) ==> UpperMap(code) == LowerMap(code) - 32 && IsUpperLetter(UpperMap(code))
    ensures !IsLetterKey(code) ==> !IsUpperLetter(UpperMap(code))
  {
  }

  /** Out-of-range codes, and codes in neither table, give 0 under every modifier combination. */
  lemma UnknownKeysGiveZero(code: int, shift: int, capsLock: int)
    requires code < 0 || code > KEY_MAX || !InTable(code)
    ensures KeycodeToAscii(code, shift, capsLock) == 0
  {
  }

  /** A table key always resolves to a non-zero character. */
  lemma TableKeysResolve(code: int, shift: int, capsLock: int)
    requires InTable(code)
    ensures KeycodeToAscii(code, shift, capsLock) != 0
  {
  }

  /** The modifier rules the resolver's comments describe: caps lock and
      shift cancel on letters (exactly one of them gives the capital,
      both or neither the small letter), and caps lock never changes any
      other key. */
  lemma ModifierCombinations(code: int, shift: int, capsLock: int)
    ensures IsLetterKey(code) && ((capsLock != 0) != (shift != 0)) ==>
      var r := KeycodeToAscii(code, shift, capsLock);
      IsUpperLetter(r) && r == LowerMap(code) - 32
    ensures IsLetterKey(code) && ((capsLock != 0) == (shift != 0)) ==>
      var r := KeycodeToAscii(code, shift, capsLock);
      IsLowerLetter(r) && r == LowerMap(code)
    ensures !IsLetterKey(code) ==> KeycodeToAscii(code, shift, capsLock) == KeycodeToAscii(code, shift, 0)
  {
    TablesAgree(code);
  }

  /** Concrete entries: letters, shifted digits and the backspace key. */
  lemma SampleResolutions()
    ensures KeycodeToAscii(KEY_A, 0, 0) == 'a' as int
    ensures KeycodeToAscii(KEY_A, 1, 0) == 'A' as int
    ensures KeycodeToAscii(KEY_A, 0, 1) == 'A' as int
    ensures KeycodeToAscii(KEY_A, 1, 1) == 'a' as int
    ensures KeycodeToAscii(KEY_1, 1, 1) == '!' as int
    ensures KeycodeToAscii(KEY_1, 0, 1) == '1' as int
    ensures KeycodeToAscii(KEY_BACKSPACE, 0, 0) == ASCII_BS
    ensures KeycodeToAscii(KEY_LEFTSHIFT, 0, 0) == 0
  {
  }

  /** `compare_keystrokes`: -1, 0 or 1 by press seconds, then press nanoseconds. */
  function CompareKeystrokes(a: Keystroke, b: Keystroke): int {
    if a.press.sec < b.press.sec then -1
    else if a.press.sec > b.press.sec then 1
    else if a.press.nsec < b.press.nsec then -1
    else if a.press.nsec > b.press.nsec then 1
    else 0
  }

  /** The comparator is the lexicographic order on press times: it answers
      0 exactly for equal press times, is antisymmetric, and agrees with
      `NotAfter`. */
  lemma CompareIsLexicographic(a: Keystroke, b: Keystroke)
    ensures CompareKeystrokes(a, b) in {-1, 0, 1}
    ensures CompareKeystrokes(a, b) == 0 <==> a.press == b.press
    ensures CompareKeystrokes(a, b) == -CompareKeystrokes(b, a)
    ensures CompareKeystrokes(a, b) <= 0 <==> NotAfter(a.press, b.press)
  {
  }

  /** "Not after" by the comparator is transitive. */
  lemma CompareTransitive(a: Keystroke, b: Keystroke, c: Keystroke)
    requires CompareKeystrokes(a, b) <= 0 && CompareKeystrokes(b, c) <= 0
    ensures CompareKeystrokes(a, c) <= 0
  {
  }
}
