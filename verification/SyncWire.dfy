/** The byte format of the adb sync protocol (core/adb/file_sync_service.h) and the
    text a SEND request carries: path, comma, mode in decimal. */
module SyncWire {
  import opened Bytes

  type Text = seq<Byte>

  const DATA_MAX: nat := 65536
  const NAME_MAX: nat := 1024

  // The ids, as the four bytes that go over the wire.
  const ID_STAT: Text := [0x53, 0x54, 0x41, 0x54]
  const ID_SEND: Text := [0x53, 0x45, 0x4E, 0x44]
  const ID_RECV: Text := [0x52, 0x45, 0x43, 0x56]
  const ID_DONE: Text := [0x44, 0x4F, 0x4E, 0x45]
  const ID_DATA: Text := [0x44, 0x41, 0x54, 0x41]
  const ID_OKAY: Text := [0x4F, 0x4B, 0x41, 0x59]
  const ID_FAIL: Text := [0x46, 0x41, 0x49, 0x4C]
  const ID_DENT: Text := [0x44, 0x45, 0x4E, 0x54]
  const ID_LIST: Text := [0x4C, 0x49, 0x53, 0x54]
  const ID_QUIT: Text := [0x51, 0x55, 0x49, 0x54]

  /** An id followed by one 32-bit word: requests, data, done and status all start so. */
  function Head(id: Text, word: nat): (r: Text)
    requires |id| == 4
    ensures |r| == 8
  {
    id + Le(word, 4)
  }

  function HeadId(s: Text): (r: Text)
    requires |s| >= 8
  {
    s[..4]
  }

  function HeadWord(s: Text): nat
    requires |s| >= 8
  {
    UnLe(s[4..8])
  }

  /** A head read back from the front of a stream. */
  lemma HeadRoundTrip(id: Text, word: nat, rest: Text)
    requires |id| == 4 && word < U32
    ensures var s := Head(id, word) + rest;
            HeadId(s) == id && HeadWord(s) == word && s[8..] == rest
  {
    var s := Head(id, word) + rest;
    assert s[4..8] == Le(word, 4);
    Pow256Values();
    LeRoundTrip(word, 4);
  }

  // ------------------------------------------------------------------- decimal text

  function Decimal(n: nat): (r: Text)
    ensures r != [] && forall b :: b in r ==> 0x30 <= b <= 0x39
  {
    if n < 10 then [0x30 + n] else Decimal(n / 10) + [0x30 + n % 10]
  }

  /** The value of a character as a digit in `base`, or -1. */
  function DigitValue(b: Byte, base: nat): int {
    var v := if 0x30 <= b <= 0x39 then b - 0x30
             else if 0x61 <= b <= 0x7A then b - 0x61 + 10
             else if 0x41 <= b <= 0x5A then b - 0x41 + 10
             else 99;
    if v < base then v else -1
  }

  /** The value of the digits at the front of `s`, after digits worth `acc`. */
  function Digits(s: Text, base: nat, acc: nat): nat
    decreases |s|
  {
    if s == [] || DigitValue(s[0], base) < 0 then acc
    else Digits(s[1..], base, acc * base + DigitValue(s[0], base))
  }

  function SkipSpaces(s: Text): Text
    decreases |s|
  {
    if s != [] && (s[0] == 0x20 || 0x09 <= s[0] <= 0x0D) then SkipSpaces(s[1..]) else s
  }

  /** The number at the front of `u`: hexadecimal behind 0x, octal behind another 0, else decimal. */
  function Magnitude(u: Text): nat {
    if |u| >= 2 && u[0] == 0x30 && (u[1] == 0x78 || u[1] == 0x58) then Digits(u[2..], 16, 0)
    else if u != [] && u[0] == 0x30 then Digits(u, 8, 0)
    else Digits(u, 10, 0)
  }

  /** strtoul(s, NULL, 0) with a 32-bit unsigned long; None when it sets errno. */
  function StrToUl(s: Text): Option<nat> {
    var t := SkipSpaces(s);
    var signed := t != [] && (t[0] == 0x2D || t[0] == 0x2B);
    var v := Magnitude(if signed then t[1..] else t);
    if v >= U32 then None
    else if signed && t[0] == 0x2D then Some((U32 - v) % U32)
    else Some(v)
  }

  lemma {:induction false} DigitsAppend(s: Text, b: Byte, base: nat, acc: nat)
    requires forall x :: x in s ==> DigitValue(x, base) >= 0
    requires DigitValue(b, base) >= 0
    ensures Digits(s + [b], base, acc) == Digits(s, base, acc) * base + DigitValue(b, base)
    decreases |s|
  {
    if s == [] {
      assert s + [b] == [b];
    } else {
      assert (s + [b])[1..] == s[1..] + [b];
      DigitsAppend(s[1..], b, base, acc * base + DigitValue(s[0], base));
    }
  }

  lemma {:induction false} DigitsOfDecimal(n: nat)
    ensures Digits(Decimal(n), 10, 0) == n
    ensures n > 0 ==> Decimal(n)[0] != 0x30
    ensures n == 0 ==> Decimal(n) == [0x30]
    decreases n
  {
    if n >= 10 {
      DigitsOfDecimal(n / 10);
      DigitsAppend(Decimal(n / 10), 0x30 + n % 10, 10, 0);
    }
  }

  /** A printed number is parsed back: it has no octal or hexadecimal prefix. */
  lemma DecimalRoundTrip(n: nat)
    requires n < U32
    ensures StrToUl(Decimal(n)) == Some(n)
  {
    DigitsOfDecimal(n);
    var d := Decimal(n);
    assert SkipSpaces(d) == d;
    if n == 0 {
      assert Digits([0x30], 8, 0) == 0;
    }
  }

  // ------------------------------------------------ what strtoul reads, in every notation

  function DigitChar(v: nat, upper: bool): Byte
    requires v < 16
  {
    if v < 10 then 0x30 + v else if upper then 0x41 + v - 10 else 0x61 + v - 10
  }

  /** A number written in some base, in capital or small letters. */
  function Numeral(n: nat, base: nat, upper: bool): (r: Text)
    requires 2 <= base <= 16
    ensures r != []
    decreases n
  {
    if n < base then [DigitChar(n, upper)] else Numeral(n / base, base, upper) + [DigitChar(n % base, upper)]
  }

  lemma {:induction false} DigitsOfNumeral(n: nat, base: nat, upper: bool)
    requires 2 <= base <= 16
    ensures Digits(Numeral(n, base, upper), base, 0) == n
    ensures forall x :: x in Numeral(n, base, upper) ==> DigitValue(x, base) >= 0
    ensures n > 0 ==> Numeral(n, base, upper)[0] != 0x30
    decreases n
  {
    hide DigitChar, DigitValue, Digits;
    if n < base {
      DigitCharValue(n, base, upper);
      OneDigit(DigitChar(n, upper), base);
    } else {
      var front := Numeral(n / base, base, upper);
      DigitCharValue(n % base, base, upper);
      Divided(n, base);
      DigitsOfNumeral(n / base, base, upper);
      DigitsAppend(front, DigitChar(n % base, upper), base, 0);
    }
  }

  lemma DigitCharValue(v: nat, base: nat, upper: bool)
    requires v < base <= 16
    ensures DigitValue(DigitChar(v, upper), base) == v && (v > 0 ==> DigitChar(v, upper) != 0x30)
  {
  }

  lemma OneDigit(b: Byte, base: nat)
    requires DigitValue(b, base) >= 0
    ensures Digits([b], base, 0) == DigitValue(b, base)
  {
    hide DigitValue;
    assert [b][1..] == [];
  }

  lemma Divided(n: nat, base: nat)
    requires 2 <= base <= n
    ensures 0 < n / base < n && n / base * base + n % base == n
  {
  }

  /** The same with the prefix that names the base. */
  function Notation(n: nat, base: nat, upper: bool): Text
    requires base == 8 || base == 10 || base == 16
  {
    if base == 16 then [0x30, if upper then 0x58 else 0x78] + Numeral(n, 16, upper)
    else if base == 8 then [0x30] + Numeral(n, 8, upper) else Numeral(n, 10, upper)
  }

  lemma MagnitudeReads(n: nat, base: nat, upper: bool)
    requires base == 8 || base == 10 || base == 16
    ensures var u := Notation(n, base, upper); u != [] && 0x30 <= u[0] <= 0x39 && Magnitude(u) == n
  {
    var u, d := Notation(n, base, upper), Numeral(n, base, upper);
    DigitsOfNumeral(n, base, upper);
    assert d[0] in d;
    if base == 16 {
      assert u[2..] == d;
    } else if base == 8 {
      assert u[1..] == d && u[1] == d[0];
    } else if n == 0 {
      assert Digits([0x30], 8, 0) == 0;
    }
  }

  predicate Blank(s: Text) { forall i :: 0 <= i < |s| ==> s[i] == 0x20 || 0x09 <= s[i] <= 0x0D }

  lemma {:induction false} SkipBlank(space: Text, t: Text)
    requires Blank(space)
    ensures SkipSpaces(space + t) == SkipSpaces(t)
    decreases |space|
  {
    if space == [] {
      assert space + t == t;
    } else {
      assert (space + t)[1..] == space[1..] + t;
      SkipBlank(space[1..], t);
    }
  }

  /** A number in decimal, octal or hexadecimal notation, behind blanks and a sign, is read as what it says if it has 32
      bits; a minus sign negates it modulo 2^32. */
  lemma NotationRead(space: Text, n: nat, base: nat, upper: bool)
    requires Blank(space) && (base == 8 || base == 10 || base == 16)
    ensures var u := Notation(n, base, upper);
      && StrToUl(space + u) == StrToUl(space + ([0x2B] + u)) == (if n < U32 then Some(n) else None)
      && StrToUl(space + ([0x2D] + u)) == if n < U32 then Some((U32 - n) % U32) else None
  {
    hide Notation, Magnitude;
    var u := Notation(n, base, upper);
    MagnitudeReads(n, base, upper);
    SkipBlank(space, u);
    SkipBlank(space, [0x2B] + u);
    SkipBlank(space, [0x2D] + u);
    assert ([0x2B] + u)[1..] == u && ([0x2D] + u)[1..] == u;
  }

  lemma {:induction false} DecimalShort(n: nat, digits: nat, limit: nat)
    requires n < limit && digits > 0 && limit == Pow10(digits)
    ensures |Decimal(n)| <= digits
    decreases digits
  {
    if n >= 10 {
      DecimalShort(n / 10, digits - 1, limit / 10);
    }
  }

  function Pow10(k: nat): nat { if k == 0 then 1 else 10 * Pow10(k - 1) }

  // ---------------------------------------------------------------------- path, mode

  /** strrchr(s, ','): the index of the last comma, or -1. */
  function LastComma(s: Text): (r: int)
    ensures -1 <= r < |s|
    ensures r >= 0 ==> s[r] == 0x2C
    ensures forall i :: r < i < |s| ==> s[i] != 0x2C
    decreases |s|
  {
    if s == [] then -1
    else if s[|s| - 1] == 0x2C then |s| - 1
    else LastComma(s[..|s| - 1])
  }

  /** The comma before the mode is the last one, whatever commas the path has. */
  lemma {:induction false} LastCommaUnique(s: Text, k: nat)
    requires k < |s| && s[k] == 0x2C && forall i :: k < i < |s| ==> s[i] != 0x2C
    ensures LastComma(s) == k
  {
  }

  lemma {:induction false} LastCommaIsSuffix(path: Text, n: nat)
    ensures LastComma(path + [0x2C] + Decimal(n)) == |path|
  {
    hide LastComma, Decimal;
    var d := Decimal(n);
    var s := path + [0x2C] + d;
    forall i | |path| < i < |s| ensures s[i] != 0x2C {
      assert s[i] == d[i - |path| - 1];
      assert d[i - |path| - 1] in d;
    }
    LastCommaUnique(s, |path|);
  }

  /** Permission bits of the created file: user bits copied to group, then group to others. */
  function DeriveMode(m: bv16): bv16 {
    var a := m & 0x1FF;
    var b := a | ((a >> 3) & 0x38);
    b | ((b >> 3) & 0x07)
  }

  /** The same from a number, of which the mode is the low half. */
  function DerivedMode(m: nat): bv16 { DeriveMode((m % 65536) as bv16) }

  /** What a created file permits when `mode` was sent: the user what it says, the group what it says of the group or
      the user, others what it says of others or the group is permitted, and nothing else. */
  predicate Permits(got: bv16, mode: nat) {
    var m := (mode % 65536) as bv16;
    && got & 0x1C0 == m & 0x1C0
    && got & 0x38 == (m & 0x38) | ((m >> 3) & 0x38)
    && got & 0x07 == (m & 0x07) | ((got >> 3) & 0x07)
    && got & 0xFE00 == 0
  }

  lemma DeriveModeBits(mode: nat)
    ensures Permits(DerivedMode(mode), mode)
  {
    DeriveBits((mode % 65536) as bv16);
  }

  lemma DeriveBits(m: bv16)
    ensures var d := DeriveMode(m);
            && d & 0x1C0 == m & 0x1C0
            && d & 0x38 == (m & 0x38) | ((m >> 3) & 0x38)
            && d & 0x07 == (m & 0x07) | ((d >> 3) & 0x07)
            && d & 0xFE00 == 0
  {
  }

  /** There is only one such mode. */
  lemma PermitsOne(a: bv16, b: bv16, mode: nat)
    requires Permits(a, mode) && Permits(b, mode)
    ensures a == b
  {
    BitsOne(a, b, (mode % 65536) as bv16);
  }

  lemma BitsOne(a: bv16, b: bv16, m: bv16)
    requires a & 0x1C0 == m & 0x1C0 && b & 0x1C0 == m & 0x1C0
    requires a & 0x38 == (m & 0x38) | ((m >> 3) & 0x38) && b & 0x38 == (m & 0x38) | ((m >> 3) & 0x38)
    requires a & 0x07 == (m & 0x07) | ((a >> 3) & 0x07) && b & 0x07 == (m & 0x07) | ((b >> 3) & 0x07)
    requires a & 0xFE00 == 0 && b & 0xFE00 == 0
    ensures a == b
  {
  }

  /** The file type of a 16-bit mode, and S_ISREG and S_ISLNK of it. */
  function TypeOf(m: nat): (r: nat)
    ensures r < 16
  {
    (m / 4096) % 16
  }

  predicate IsReg(m: nat) { TypeOf(m) == 8 }
  predicate IsLnk(m: nat) { TypeOf(m) == 10 }
}
