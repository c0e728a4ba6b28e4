/** The key symbol resolver: a total map from virtual-key codes to labels. */
module KeyNames {
  import opened Events

  /** The digit character for value d: '0'..'9' then upper-case 'A'..'F'. */
  function DigitChar(d: nat): (c: char)
    requires d < 16
    ensures DigitValue(c) == d
  {
    if d < 10 then ('0' as int + d) as char else ('A' as int + d - 10) as char
  }

  /** The value of a digit character; 0 for anything that is not a digit. */
  function DigitValue(c: char): nat
  {
    if '0' <= c <= '9' then c as int - '0' as int
    else if 'A' <= c <= 'F' then c as int - 'A' as int + 10
    else 0
  }

  predicate IsDigitOf(c: char, base: nat)
  {
    ('0' <= c <= '9' || 'A' <= c <= 'F') && DigitValue(c) < base
  }

  /** `n` written in `base` (10 for `{}`, 16 for `{:X}`) without leading zeros. */
  function Numeral(n: nat, base: nat): (s: string)
    requires 2 <= base <= 16
    ensures |s| >= 1
    ensures forall i :: 0 <= i < |s| ==> IsDigitOf(s[i], base)
    ensures n > 0 ==> s[0] != '0'
    decreases n
  {
    if n < base then [DigitChar(n)]
    else
      DivStep(n, base);
      Numeral(n / base, base) + [DigitChar(n % base)]
  }

  /** One step of positional notation: the quotient is smaller and non-zero,
      and quotient and remainder give back n. */
  lemma DivStep(n: nat, base: nat)
    requires 2 <= base <= n
    ensures 0 < n / base < n && n % base < base
    ensures (n / base) * base + n % base == n
  {
  }

  /** Reads a digit string in `base`, most significant digit first. */
  function NumeralValue(s: string, base: nat): nat
  {
    if s == [] then 0 else NumeralValue(s[..|s| - 1], base) * base + DigitValue(s[|s| - 1])
  }

  lemma {:induction false} NumeralRoundTrip(n: nat, base: nat)
    requires 2 <= base <= 16
    ensures NumeralValue(Numeral(n, base), base) == n
    decreases n
  {
    var s := Numeral(n, base);
    if n < base {
      assert s[..|s| - 1] == [];
    } else {
      DivStep(n, base);
      NumeralRoundTrip(n / base, base);
      assert s[..|s| - 1] == Numeral(n / base, base);
    }
  }

  /** `{:02X}`: upper-case hexadecimal padded with zeros to at least two digits. */
  function Hex2(n: nat): (s: string)
    ensures |s| >= 2
    ensures forall i :: 0 <= i < |s| ==> IsDigitOf(s[i], 16)
  {
    if n < 16 then "0" + Numeral(n, 16) else Numeral(n, 16)
  }

  lemma Hex2RoundTrip(n: nat)
    ensures NumeralValue(Hex2(n), 16) == n
  {
    var s := Hex2(n);
    if n < 16 {
      assert s == ['0', DigitChar(n)];
      assert s[..1] == ['0'] && s[..1][..0] == [];
      assert NumeralValue(['0'], 16) == 0;
      assert NumeralValue(s, 16) == NumeralValue(s[..1], 16) * 16 + DigitValue(DigitChar(n));
    } else {
      NumeralRoundTrip(n, 16);
    }
  }

  /** Label of a virtual-key code: letters and digits as themselves, keypad
      digits as NUM0..NUM9, function keys as F1..F24, a fixed table of named
      keys, and "VK_" with the code in hexadecimal for everything else. */
  function KeyName(vk: u32): string
  {
    if 0x41 <= vk <= 0x5A then [vk as char]
    else if 0x30 <= vk <= 0x39 then [vk as char]
    else if 0x60 <= vk <= 0x69 then "NUM" + Numeral(vk - 0x60, 10)
    else if 0x70 <= vk <= 0x87 then "F" + Numeral(vk - 0x6F, 10)
    else match FixedName(vk)
      case Some(name) => name
      case None => "VK_" + Hex2(vk)
  }

  /** The keys that have a fixed name. */
  function FixedName(vk: u32): Option<string>
  {
    match vk
    case 0x10 => Some("SHIFT")
    case 0x11 => Some("CTRL")
    case 0x12 => Some("ALT")
    case 0xA0 => Some("LSHIFT")
    case 0xA1 => Some("RSHIFT")
    case 0xA2 => Some("LCTRL")
    case 0xA3 => Some("RCTRL")
    case 0xA4 => Some("LALT")
    case 0xA5 => Some("RALT")
    case 0x20 => Some("SPACE")
    case 0x0D => Some("ENTER")
    case 0x08 => Some("BACKSPACE")
    case 0x09 => Some("TAB")
    case 0x1B => Some("ESC")
    case 0x01 => Some("LBUTTON")
    case 0x02 => Some("RBUTTON")
    case 0x04 => Some("MBUTTON")
    case _ => None
  }

  /** Inverse of the fixed-name table. */
  function FixedCode(name: string): Option<u32>
  {
    if name == "SHIFT" then Some(0x10)
    else if name == "CTRL" then Some(0x11)
    else if name == "ALT" then Some(0x12)
    else if name == "LSHIFT" then Some(0xA0)
    else if name == "RSHIFT" then Some(0xA1)
    else if name == "LCTRL" then Some(0xA2)
    else if name == "RCTRL" then Some(0xA3)
    else if name == "LALT" then Some(0xA4)
    else if name == "RALT" then Some(0xA5)
    else if name == "SPACE" then Some(0x20)
    else if name == "ENTER" then Some(0x0D)
    else if name == "BACKSPACE" then Some(0x08)
    else if name == "TAB" then Some(0x09)
    else if name == "ESC" then Some(0x1B)
    else if name == "LBUTTON" then Some(0x01)
    else if name == "RBUTTON" then Some(0x02)
    else if name == "MBUTTON" then Some(0x04)
    else None
  }

  /** Reads a label back into the code it names. */
  function KeyCodeOf(name: string): Option<u32>
  {
    if |name| == 1 then Some(name[0] as int % U32_LIMIT)
    else if |name| > 3 && name[..3] == "VK_" then
      var v := NumeralValue(name[3..], 16);
      if v < U32_LIMIT then Some(v) else None
    else if |name| == 4 && name[..3] == "NUM" then Some(0x60 + DigitValue(name[3]))
    else if |name| >= 2 && name[0] == 'F' && NumeralValue(name[1..], 10) <= 24 then
      Some(0x6F + NumeralValue(name[1..], 10))
    else FixedCode(name)
  }

  lemma FixedNameRoundTrip(vk: u32)
    requires FixedName(vk).Some?
    ensures FixedCode(FixedName(vk).value) == Some(vk)
  {
  }

  /** No fixed name is a single character or starts like a generated one. */
  lemma FixedNameShape(vk: u32)
    requires FixedName(vk).Some?
    ensures |FixedName(vk).value| >= 3
    ensures FixedName(vk).value[0] !in {'F', 'N', 'V'}
  {
  }

  lemma FixedNameReadBack(vk: u32)
    requires !(0x41 <= vk <= 0x5A || 0x30 <= vk <= 0x39 || 0x60 <= vk <= 0x69 || 0x70 <= vk <= 0x87)
    requires FixedName(vk).Some?
    ensures KeyCodeOf(KeyName(vk)) == Some(vk)
  {
    var name := FixedName(vk).value;
    FixedNameShape(vk);
    FixedNameRoundTrip(vk);
    assert KeyName(vk) == name;
    assert name[..3][0] == name[0];
    assert KeyCodeOf(name) == FixedCode(name);
  }

  lemma KeypadNameRoundTrip(vk: u32)
    requires 0x60 <= vk <= 0x69
    ensures KeyCodeOf(KeyName(vk)) == Some(vk)
  {
    assert KeyName(vk) == ['N', 'U', 'M', DigitChar(vk - 0x60)];
  }

  lemma FunctionKeyNameRoundTrip(vk: u32)
    requires 0x70 <= vk <= 0x87
    ensures KeyCodeOf(KeyName(vk)) == Some(vk)
  {
    var name := KeyName(vk);
    var digits := Numeral(vk - 0x6F, 10);
    NumeralRoundTrip(vk - 0x6F, 10);
    assert name == "F" + digits && name[1..] == digits;
    assert |digits| <= 2 by {
      if vk - 0x6F >= 10 { assert (vk - 0x6F) / 10 < 10; }
    }
    assert name[0] == 'F';
  }

  lemma FallbackNameRoundTrip(vk: u32)
    requires !(0x41 <= vk <= 0x5A || 0x30 <= vk <= 0x39 || 0x60 <= vk <= 0x69 || 0x70 <= vk <= 0x87)
    requires FixedName(vk).None?
    ensures KeyCodeOf(KeyName(vk)) == Some(vk)
  {
    var name := KeyName(vk);
    Hex2RoundTrip(vk);
    assert name == "VK_" + Hex2(vk);
    assert name[..3] == "VK_" && name[3..] == Hex2(vk);
  }

  lemma CharacterNameRoundTrip(vk: u32)
    requires 0x41 <= vk <= 0x5A || 0x30 <= vk <= 0x39
    ensures KeyCodeOf(KeyName(vk)) == Some(vk)
  {
    assert KeyName(vk) == [vk as char];
  }

  /** Every label reads back to the code it was made from. */
  lemma KeyNameRoundTrip(vk: u32)
    ensures KeyCodeOf(KeyName(vk)) == Some(vk)
  {
    if 0x41 <= vk <= 0x5A || 0x30 <= vk <= 0x39 {
      CharacterNameRoundTrip(vk);
    } else if 0x60 <= vk <= 0x69 {
      KeypadNameRoundTrip(vk);
    } else if 0x70 <= vk <= 0x87 {
      FunctionKeyNameRoundTrip(vk);
    } else if FixedName(vk).Some? {
      FixedNameReadBack(vk);
    } else {
      FallbackNameRoundTrip(vk);
    }
  }

  /** Distinct codes get distinct labels, so grouping by label is grouping by key. */
  lemma KeyNameInjective(a: u32, b: u32)
    ensures KeyName(a) == KeyName(b) ==> a == b
  {
    KeyNameRoundTrip(a);
    KeyNameRoundTrip(b);
  }

  /** A letter or digit key, and only such a key, gets a one-character label,
      and that character is the code itself. */
  lemma SingleCharacterNames(vk: u32)
    ensures |KeyName(vk)| == 1 <==> 0x41 <= vk <= 0x5A || 0x30 <= vk <= 0x39
    ensures |KeyName(vk)| == 1 ==> KeyName(vk)[0] as int == vk
  {
    if 0x70 <= vk <= 0x87 {
      assert |KeyName(vk)| >= 2;
    }
  }

  /** A code outside every named range is shown as "VK_" and at least two
      upper-case hexadecimal digits that spell the code. */
  lemma FallbackNameSpellsCode(vk: u32)
    requires !(0x41 <= vk <= 0x5A || 0x30 <= vk <= 0x39 || 0x60 <= vk <= 0x69 || 0x70 <= vk <= 0x87)
    requires FixedName(vk).None?
    ensures |KeyName(vk)| >= 5 && KeyName(vk)[..3] == "VK_"
    ensures forall i :: 3 <= i < |KeyName(vk)| ==> IsDigitOf(KeyName(vk)[i], 16)
    ensures NumeralValue(KeyName(vk)[3..], 16) == vk
  {
    var name := KeyName(vk);
    assert name[3..] == Hex2(vk);
    Hex2RoundTrip(vk);
    forall i | 3 <= i < |name| ensures IsDigitOf(name[i], 16) {
      assert name[i] == Hex2(vk)[i - 3];
    }
  }

  /** Keypad keys are NUM followed by one decimal digit, function keys F and
      their number 1..24. */
  lemma NumberedNames(vk: u32)
    ensures 0x60 <= vk <= 0x69 ==> KeyName(vk) == "NUM" + [DigitChar(vk - 0x60)]
    ensures 0x70 <= vk <= 0x87 ==> KeyName(vk)[0] == 'F' && NumeralValue(KeyName(vk)[1..], 10) == vk - 0x6F
  {
    if 0x70 <= vk <= 0x87 {
      NumeralRoundTrip(vk - 0x6F, 10);
      assert KeyName(vk)[1..] == Numeral(vk - 0x6F, 10);
    }
  }
}
