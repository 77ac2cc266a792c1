/** Block positions (`Position` in the source): three signed coordinates and the
    protocol version that selects how they are packed into one 64-bit value.
    Before 1.14.2 the layout is x (26 bits) | y (12 bits) | z (26 bits), from
    1.14.2 on x (26 bits) | z (26 bits) | y (12 bits), most significant first. */
module Positions {
  import opened Bits
  import opened Wire

  const P11: int := 0x800
  const P12: int := 0x1000
  const P25: int := 0x200_0000
  const P26: int := 0x400_0000
  const P38: int := 0x40_0000_0000
  const TWO_63: int := 0x8000_0000_0000_0000

  /** A position; `GetX`, `GetY` and `GetZ` are its fields. */
  datatype Position = Position(x: S64, y: S64, z: S64, version: int)

  /** `Position(version)`: the origin. */
  function NewPosition(version: int): (p: Position)
    ensures p.x == 0 && p.y == 0 && p.z == 0 && p.version == version
  {
    Position(0, 0, 0, version)
  }

  /** `Position(x, y, z, version)`: the 32-bit coordinates widened to 64 bits. */
  function MakePosition(x: S32, y: S32, z: S32, version: int): (p: Position)
    ensures p.x == x && p.y == y && p.z == z && p.version == version
    ensures -0x8000_0000 <= p.x < 0x8000_0000 && -0x8000_0000 <= p.y < 0x8000_0000
    ensures -0x8000_0000 <= p.z < 0x8000_0000
  {
    Position(x, y, z, version)
  }

  /** The version before which the legacy layout is used. */
  predicate Legacy(version: int) {
    version < Minecraft_1_14_2
  }

  // ---------------------------------------------------------------------
  // Encoding (Position::Encode64)

  /** The 64-bit pattern `Encode64` builds. `c & 0x3FFFFFF` on a two's
      complement `c` is `c % 2^26`, and the fields are disjoint, so OR-ing the
      shifted fields adds them. */
  function Pattern(p: Position): U64 {
    if Legacy(p.version) then (p.x % P26) * P38 + (p.y % P12) * P26 + p.z % P26
    else (p.x % P26) * P38 + (p.z % P26) * P12 + p.y % P12
  }

  /** The `u64` pattern read as an `s64`. */
  function ToSigned(v: U64): (r: S64)
    ensures r % TWO_64 == v
  {
    if v >= TWO_63 then v - TWO_64 else v
  }

  /** `Encode64`: the pattern as the `s64` the source returns. */
  function Encode64(p: Position): (r: S64)
    ensures r % TWO_64 == Pattern(p)
  {
    ToSigned(Pattern(p))
  }

  /** Bits `lo .. lo + width - 1` of `v`. */
  function Bitfield(v: nat, lo: nat, width: nat): nat {
    (v / Pow2(lo)) % Pow2(width)
  }

  lemma Pow2Constants()
    ensures Pow2(0) == 1 && Pow2(12) == P12 && Pow2(26) == P26 && Pow2(38) == P38
  {
    Pow2Byte();
    Pow2Add(8, 4);
    Pow2Add(12, 12);
    Pow2Add(24, 2);
    Pow2Add(26, 12);
  }

  /** The fields of a legacy pattern built from parts below their widths. */
  lemma LegacyFields(a: int, b: int, c: int)
    requires 0 <= a < P26 && 0 <= b < P12 && 0 <= c < P26
    ensures var v := a * P38 + b * P26 + c;
      v / P38 == a && (v / P26) % P12 == b && v % P26 == c
  {
    var v := a * P38 + b * P26 + c;
    DivModUnique(v, P26, a * P12 + b, c);
    DivModUnique(a * P12 + b, P12, a, b);
    DivModUnique(v, P38, a, b * P26 + c);
  }

  /** The fields of a newer pattern built from parts below their widths. */
  lemma NewFields(a: int, b: int, c: int)
    requires 0 <= a < P26 && 0 <= b < P26 && 0 <= c < P12
    ensures var v := a * P38 + b * P12 + c;
      v / P38 == a && (v / P12) % P26 == b && v % P12 == c
  {
    var v := a * P38 + b * P12 + c;
    DivModUnique(v, P12, a * P26 + b, c);
    DivModUnique(a * P26 + b, P26, a, b);
    DivModUnique(v, P38, a, b * P12 + c);
  }

  /** The legacy layout: x mod 2^26 in bits 38..63, y mod 2^12 in bits 26..37,
      z mod 2^26 in bits 0..25. */
  lemma LegacyLayout(p: Position)
    requires Legacy(p.version)
    ensures Bitfield(Pattern(p), 38, 26) == p.x % P26
    ensures Bitfield(Pattern(p), 26, 12) == p.y % P12
    ensures Bitfield(Pattern(p), 0, 26) == p.z % P26
  {
    var v := Pattern(p);
    LegacyFields(p.x % P26, p.y % P12, p.z % P26);
    DivModUnique(v / P38, P26, 0, v / P38);
    Pow2Constants();
    assert Bitfield(v, 38, 26) == (v / P38) % P26;
    assert Bitfield(v, 26, 12) == (v / P26) % P12;
    assert Bitfield(v, 0, 26) == v % P26;
  }

  /** The layout from 1.14.2 on: x mod 2^26 in bits 38..63, z mod 2^26 in bits
      12..37, y mod 2^12 in bits 0..11. */
  lemma NewLayout(p: Position)
    requires !Legacy(p.version)
    ensures Bitfield(Pattern(p), 38, 26) == p.x % P26
    ensures Bitfield(Pattern(p), 12, 26) == p.z % P26
    ensures Bitfield(Pattern(p), 0, 12) == p.y % P12
  {
    var v := Pattern(p);
    NewFields(p.x % P26, p.z % P26, p.y % P12);
    DivModUnique(v / P38, P26, 0, v / P38);
    Pow2Constants();
    assert Bitfield(v, 38, 26) == (v / P38) % P26;
    assert Bitfield(v, 12, 26) == (v / P12) % P26;
    assert Bitfield(v, 0, 12) == v % P12;
  }

  lemma ModOfDifference(a: int, b: int, m: int)
    requires m > 0 && (a - b) % m == 0
    ensures a % m == b % m
  {
    var k := (a - b) / m;
    assert a - b == m * k;
    DivModUnique(a, m, b / m + k, b % m);
  }

  /** `Encode64` depends on each coordinate only modulo its field's width. */
  lemma EncodeModInvariant(p: Position, q: Position)
    requires p.version == q.version
    requires (p.x - q.x) % P26 == 0 && (p.y - q.y) % P12 == 0 && (p.z - q.z) % P26 == 0
    ensures Encode64(p) == Encode64(q)
  {
    ModOfDifference(p.x, q.x, P26);
    ModOfDifference(p.y, q.y, P12);
    ModOfDifference(p.z, q.z, P26);
  }

  /** `operator<<`: the buffer receives `Encode64()`, as its 64-bit pattern. */
  method WritePosition(buffer: Cursor, p: Position)
    modifies buffer
    ensures buffer.fields == old(buffer.fields) + [U64Field(Encode64(p) % TWO_64)]
    ensures buffer.offset == old(buffer.offset)
  {
    buffer.WriteU64(Encode64(p) % TWO_64);
  }

  // ---------------------------------------------------------------------
  // Decoding (operator>>)

  /** Whether a position's coordinates fit the fields: x and z in
      [-2^25, 2^25), y in [-2^11, 2^11). */
  predicate InRange(p: Position) {
    -P25 <= p.x < P25 && -P11 <= p.y < P11 && -P25 <= p.z < P25
  }

  /** A field value read back as a signed number of `2 * half` values. */
  function SignExtend(v: int, half: int): int {
    if v >= half then v - 2 * half else v
  }

  /** What `operator>>` makes of `v` for a position of `version`: the fields
      of the layout that version selects, sign-extended. */
  function Decode(v: U64, version: int): (p: Position)
    ensures InRange(p) && p.version == version
  {
    if Legacy(version) then
      Position(SignExtend(v / P38, P25), SignExtend((v / P26) % P12, P11), SignExtend(v % P26, P25), version)
    else
      Position(SignExtend(v / P38, P25), SignExtend(v % P12, P11), SignExtend((v / P12) % P26, P25), version)
  }

  /** `val << 38 >> 38` on a `u64` keeps the low 26 bits. */
  lemma ShiftLowField(v: U64)
    ensures ((v * P38) % TWO_64) / P38 == v % P26
  {
    // The steps spell out the argument.
    var q, r := v / P26, v % P26;
    assert v * P38 == q * TWO_64 + r * P38;
    DivModUnique(v * P38, TWO_64, q, r * P38);
    DivModUnique(r * P38, P38, r, 0);
  }

  /** `val << 26 >> 38` on a `u64` keeps bits 12 to 37. */
  lemma ShiftMiddleField(v: U64)
    ensures ((v * P26) % TWO_64) / P38 == (v / P12) % P26
  {
    var q, r := v / P38, v % P38;
    assert v * P26 == q * TWO_64 + r * P26;
    DivModUnique(v * P26, TWO_64, q, r * P26);
    var q', r' := r / P12, r % P12;
    assert r * P26 == q' * P38 + r' * P26;
    DivModUnique(r * P26, P38, q', r' * P26);
    assert v == (q * P26 + q') * P12 + r';
    DivModUnique(v, P12, q * P26 + q', r');
    DivModUnique(q * P26 + q', P26, q, q');
  }

  /** `operator>>`: reads one `u64` and overwrites the coordinates of `pos`
      from the layout of `pos`'s own version, then sign-extends each field in
      place. The version is kept; when no `u64` is left the read fails. */
  method ReadPosition(buffer: Cursor, pos: Position) returns (ok: bool, result: Position)
    modifies buffer
    ensures buffer.fields == old(buffer.fields)
    ensures var v := U64At(old(buffer.fields), old(buffer.offset));
      ok == v.Some? && (ok ==> result == Decode(v.value, pos.version) && buffer.offset == old(buffer.offset) + 1)
    ensures !ok ==> result == pos && buffer.offset == old(buffer.offset)
    ensures result.version == pos.version
  {
    var read := buffer.ReadU64();
    if read.None? {
      return false, pos;
    }
    var v := read.value;
    var x: int, y: int, z: int;
    if Legacy(pos.version) {
      x := v / P38;
      y := (v / P26) % P12;
      z := ((v * P38) % TWO_64) / P38;
      ShiftLowField(v);
    } else {
      x := v / P38;
      y := v % P12;
      z := ((v * P26) % TWO_64) / P38;
      ShiftMiddleField(v);
    }
    assert Decode(v, pos.version) == Position(SignExtend(x, P25), SignExtend(y, P11), SignExtend(z, P25), pos.version);
    if x >= P25 {
      x := x - P26;
    }
    if y >= P11 {
      y := y - P12;
    }
    if z >= P25 {
      z := z - P26;
    }
    return true, Position(x, y, z, pos.version);
  }

  // ---------------------------------------------------------------------
  // Round trips

  /** Sign extension undoes the reduction modulo the field width for every
      value in the signed range. */
  lemma SignExtendMod(c: int, half: int)
    requires half >= 1 && -half <= c < half
    ensures SignExtend(c % (2 * half), half) == c
  {
    if c < 0 {
      DivModUnique(c, 2 * half, -1, c + 2 * half);
    } else {
      DivModUnique(c, 2 * half, 0, c);
    }
  }

  /** Decoding `Encode64()` with the same version gives the position back, for
      coordinates that fit the fields. */
  lemma DecodeEncode(p: Position)
    requires InRange(p)
    ensures Decode(Encode64(p) % TWO_64, p.version) == p
  {
    var v := Encode64(p) % TWO_64;
    assert v == Pattern(p);
    if Legacy(p.version) {
      LegacyFields(p.x % P26, p.y % P12, p.z % P26);
    } else {
      NewFields(p.x % P26, p.z % P26, p.y % P12);
    }
    SignExtendMod(p.x, P25);
    SignExtendMod(p.y, P11);
    SignExtendMod(p.z, P25);
  }

  /** Conversely, every 64-bit value is the encoding of what it decodes to. */
  lemma EncodeDecode(v: U64, version: int)
    ensures Pattern(Decode(v, version)) == v
  {
    var p := Decode(v, version);
    var a := v / P38;
    DivModUnique(p.x, P26, if a >= P25 then -1 else 0, a);
    if Legacy(version) {
      var q1 := v / P26;
      var b, c := q1 % P12, v % P26;
      DivModUnique(p.y, P12, if b >= P11 then -1 else 0, b);
      DivModUnique(p.z, P26, if c >= P25 then -1 else 0, c);
      assert v == (q1 / P12) * P38 + b * P26 + c;
      DivModUnique(v, P38, q1 / P12, b * P26 + c);
    } else {
      var q1 := v / P12;
      var b, c := v % P12, q1 % P26;
      DivModUnique(p.y, P12, if b >= P11 then -1 else 0, b);
      DivModUnique(p.z, P26, if c >= P25 then -1 else 0, c);
      assert v == (q1 / P26) * P38 + c * P12 + b;
      DivModUnique(v, P38, q1 / P26, c * P12 + b);
    }
  }

  /** Writing a position and reading it back into a position of the same
      version gives the same position. */
  lemma WriteThenRead(fields: seq<Field>, p: Position)
    requires InRange(p)
    ensures var f := fields + [U64Field(Encode64(p) % TWO_64)];
      U64At(f, |fields|).Some? && Decode(U64At(f, |fields|).value, p.version) == p
  {
    DecodeEncode(p);
  }

  // ---------------------------------------------------------------------
  // to_string

  /** The digits of `n`, most significant first. */
  function Digits(n: nat): (s: string)
    ensures |s| >= 1 && forall k :: 0 <= k < |s| ==> '0' <= s[k] <= '9'
  {
    if n < 10 then [Digit(n)] else Digits(n / 10) + [Digit(n % 10)]
  }

  function Digit(d: nat): (c: char)
    requires d < 10
    ensures '0' <= c <= '9'
  {
    "0123456789"[d]
  }

  /** `ss << n` for an integer: a minus sign for a negative one, then the digits. */
  function Decimal(n: int): string {
    if n < 0 then "-" + Digits(-n) else Digits(n)
  }

  /** `to_string(pos)`. */
  function ToString(p: Position): string {
    "(" + Decimal(p.x) + ", " + Decimal(p.y) + ", " + Decimal(p.z) + ")"
  }

  /** The number a digit string stands for. */
  function DigitsValue(s: string): nat
    requires forall k :: 0 <= k < |s| ==> '0' <= s[k] <= '9'
  {
    if s == [] then 0 else 10 * DigitsValue(s[..|s| - 1]) + (s[|s| - 1] as int - '0' as int)
  }

  /** The number a `Decimal` string stands for. */
  function DecimalValue(s: string): int
    requires DecimalForm(s)
  {
    if s[0] == '-' then -(DigitsValue(s[1..]) as int) else DigitsValue(s)
  }

  lemma {:induction false} DigitsRoundTrip(n: nat)
    ensures DigitsValue(Digits(n)) == n
  {
    if n >= 10 {
      DigitsRoundTrip(n / 10);
      var s := Digits(n);
      assert s[..|s| - 1] == Digits(n / 10);
    }
  }

  /** An optional minus sign or a digit, then digits. */
  predicate DecimalForm(s: string) {
    s != [] && (s[0] == '-' || '0' <= s[0] <= '9') &&
    forall k :: 1 <= k < |s| ==> '0' <= s[k] <= '9'
  }

  /** A minus sign and digits read back as the negated digits' value. */
  lemma SignedDigits(d: string)
    requires d != [] && forall k :: 0 <= k < |d| ==> '0' <= d[k] <= '9'
    ensures DecimalForm("-" + d) && DecimalValue("-" + d) == -(DigitsValue(d) as int)
  {
    var s := "-" + d;
    assert s[1..] == d;
    assert forall k :: 1 <= k < |s| ==> s[k] == d[k - 1];
  }

  /** Digits alone read back as their value. */
  lemma UnsignedDigits(d: string)
    requires d != [] && forall k :: 0 <= k < |d| ==> '0' <= d[k] <= '9'
    ensures DecimalForm(d) && DecimalValue(d) == DigitsValue(d)
  {
  }

  /** `Decimal` writes the number in base ten. */
  lemma DecimalRoundTrip(n: int)
    ensures DecimalForm(Decimal(n)) && DecimalValue(Decimal(n)) == n
  {
    var m: nat := if n < 0 then -n else n;
    var d := Digits(m);
    DigitsRoundTrip(m);
    if n < 0 {
      SignedDigits(d);
    } else {
      UnsignedDigits(d);
    }
  }

  /** Different numbers have different decimal strings. */
  lemma DecimalInjective(a: int, b: int)
    requires Decimal(a) == Decimal(b)
    ensures a == b
  {
    DecimalRoundTrip(a);
    DecimalRoundTrip(b);
  }

  /** A decimal string holds no comma. */
  predicate NoComma(s: string) {
    forall k :: 0 <= k < |s| ==> s[k] != ','
  }

  lemma DecimalNoComma(n: int)
    ensures NoComma(Decimal(n))
  {
  }

  /** The index of the first comma in `s` from `i` on, or `|s|`. */
  function CommaFrom(s: string, i: nat): (j: nat)
    requires i <= |s|
    ensures i <= j <= |s|
    decreases |s| - i
  {
    if i == |s| then |s| else if s[i] == ',' then i else CommaFrom(s, i + 1)
  }

  /** A field of `n` comma-free characters followed by a comma ends at the
      first comma. */
  lemma {:induction false} CommaAfterField(s: string, i: nat, n: nat)
    requires i + n < |s| && s[i + n] == ','
    requires forall k :: i <= k < i + n ==> s[k] != ','
    ensures CommaFrom(s, i) == i + n
    decreases n
  {
    if n > 0 {
      CommaAfterField(s, i + 1, n - 1);
    }
  }

  /** Where three fields and the separators sit in `"(" x ", " y ", " z ")"`. */
  lemma FramedLayout(x: string, y: string, z: string)
    ensures var s := "(" + x + ", " + y + ", " + z + ")";
      |s| == |x| + |y| + |z| + 6 &&
      (forall k :: 0 <= k < |x| ==> s[1 + k] == x[k]) && s[1 + |x|] == ',' &&
      (forall k :: 0 <= k < |y| ==> s[|x| + 3 + k] == y[k]) && s[|x| + 3 + |y|] == ',' &&
      (forall k :: 0 <= k < |z| ==> s[|x| + |y| + 5 + k] == z[k])
  {
    var e := "(" + x;
    var d := e + ", ";
    var c := d + y;
    var b := c + ", ";
    var a := b + z;
    assert forall k :: 0 <= k < |x| ==> e[1 + k] == x[k];
    assert forall k :: 0 <= k < |y| ==> c[|x| + 3 + k] == y[k];
    assert forall k :: 0 <= k < |z| ==> a[|x| + |y| + 5 + k] == z[k];
  }

  /** Where the coordinates and the separators sit in `to_string`. */
  lemma ToStringLayout(p: Position)
    ensures var s, x, y, z := ToString(p), Decimal(p.x), Decimal(p.y), Decimal(p.z);
      |s| == |x| + |y| + |z| + 6 &&
      (forall k :: 0 <= k < |x| ==> s[1 + k] == x[k]) && s[1 + |x|] == ',' &&
      (forall k :: 0 <= k < |y| ==> s[|x| + 3 + k] == y[k]) && s[|x| + 3 + |y|] == ',' &&
      (forall k :: 0 <= k < |z| ==> s[|x| + |y| + 5 + k] == z[k])
  {
    FramedLayout(Decimal(p.x), Decimal(p.y), Decimal(p.z));
  }

  /** The framed text determines its fields when the first two hold no comma. */
  lemma FramedFields(x: string, y: string, z: string, x': string, y': string, z': string)
    requires NoComma(x) && NoComma(y) && NoComma(x') && NoComma(y')
    requires "(" + x + ", " + y + ", " + z + ")" == "(" + x' + ", " + y' + ", " + z' + ")"
    ensures x == x' && y == y' && z == z'
  {
    var s := "(" + x + ", " + y + ", " + z + ")";
    FramedLayout(x, y, z);
    FramedLayout(x', y', z');
    SameField(s, 1, x, x');
    assert |x| == |x'|;
    SameField(s, |x| + 3, y, y');
    assert |y| == |y'|;
    LastField(s, |x| + |y| + 5, z, z');
  }

  /** Equal `to_string` texts hold equal coordinate texts. */
  lemma ToStringFields(p: Position, q: Position)
    requires ToString(p) == ToString(q)
    ensures Decimal(p.x) == Decimal(q.x) && Decimal(p.y) == Decimal(q.y) && Decimal(p.z) == Decimal(q.z)
  {
    DecimalNoComma(p.x);
    DecimalNoComma(q.x);
    DecimalNoComma(p.y);
    DecimalNoComma(q.y);
    FramedFields(Decimal(p.x), Decimal(p.y), Decimal(p.z), Decimal(q.x), Decimal(q.y), Decimal(q.z));
  }

  /** `to_string` tells positions apart by their coordinates: the three
      decimal numbers can be read back from it. */
  lemma ToStringInjective(p: Position, q: Position)
    requires ToString(p) == ToString(q)
    ensures p.x == q.x && p.y == q.y && p.z == q.z
  {
    ToStringFields(p, q);
    DecimalInjective(p.x, q.x);
    DecimalInjective(p.y, q.y);
    DecimalInjective(p.z, q.z);
  }

  /** Two comma-free fields at the same place, each followed by a comma, agree. */
  lemma SameField(s: string, i: nat, u: string, u': string)
    requires NoComma(u) && i + |u| < |s| && s[i + |u|] == ','
    requires NoComma(u') && i + |u'| < |s| && s[i + |u'|] == ','
    requires forall k :: 0 <= k < |u| ==> s[i + k] == u[k]
    requires forall k :: 0 <= k < |u'| ==> s[i + k] == u'[k]
    ensures u == u'
  {
    FieldAt(s, i, u);
    FieldAt(s, i, u');
  }

  /** Two fields at the same place, each followed by exactly one character, agree. */
  lemma LastField(s: string, i: nat, u: string, u': string)
    requires |s| == i + |u| + 1 && |s| == i + |u'| + 1
    requires forall k :: 0 <= k < |u| ==> s[i + k] == u[k]
    requires forall k :: 0 <= k < |u'| ==> s[i + k] == u'[k]
    ensures u == u'
  {
    assert forall k :: 0 <= k < |u| ==> u[k] == s[i + k] == u'[k];
  }

  /** A comma-free field followed by a comma is the slice up to the first comma. */
  lemma FieldAt(s: string, i: nat, u: string)
    requires NoComma(u) && i + |u| < |s| && s[i + |u|] == ','
    requires forall k :: 0 <= k < |u| ==> s[i + k] == u[k]
    ensures CommaFrom(s, i) == i + |u| && u == s[i..i + |u|]
  {
    forall k | i <= k < i + |u|
      ensures s[k] != ','
    {
      assert s[i + (k - i)] == u[k - i];
    }
    CommaAfterField(s, i, |u|);
  }
}
