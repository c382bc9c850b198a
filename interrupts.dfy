/**
 * Interrupt kinds, the canonical-address check, the textual form of an
 * interrupt and the 16-byte interrupt descriptor record, as shared by the
 * simulator and the older tree.
 */
module Interrupts {
  import opened Bits

  /**
   * The interrupt kinds. `Irq` exists only in the simulator; the older tree's
   * enum is the `LegacyInterrupt` subset below.
   */
  datatype Interrupt =
    | GeneralProtection
    | PageFault(errorCode: u32, cr2: u64)
    | Undefined
    | DoubleFault
    | Irq(line: u8)

  type LegacyInterrupt = i: Interrupt | !i.Irq? witness GeneralProtection

  /** `Result<T, Interrupt>`: the `?`-propagated fault of every memory access. */
  datatype Result<+T> = Ok(value: T) | Err(fault: Interrupt)

  // ---- Canonical addresses ----

  /** Bits 63..47 of the address, i.e. `address >> 47`. */
  function HighBits(address: u64): nat { Shr64(address, 47) }

  /** `is_cannonical`: the address is accepted iff bits 63..47 are all zero or all one. */
  function IsCanonical(address: u64): (r: Result<()>)
    ensures r.Err? ==> r.fault == GeneralProtection
  {
    var shifted := HighBits(address);
    if shifted == 0 || shifted == 0x1FFFF then Ok(()) else Err(GeneralProtection)
  }

  /** Sign extension of the low 48 bits to 64 bits: the reference notion of a canonical address. */
  function SignExtend48(address: u64): u64 {
    var low := address % 0x1_0000_0000_0000;
    if low < 0x8000_0000_0000 then low else low + 0xFFFF_0000_0000_0000
  }

  lemma HighBitsIsQuotient(address: u64)
    ensures HighBits(address) == address / 0x8000_0000_0000
  {
    Pow2Of47();
  }

  /** The check accepts exactly the addresses that equal the sign extension of their low 48 bits. */
  lemma IsCanonicalIffSignExtended(address: u64)
    ensures IsCanonical(address).Ok? <==> SignExtend48(address) == address
  {
    HighBitsIsQuotient(address);
    QuotientHalves(address);
    SignExtendedHalves(address);
  }

  /** Bits 63..47 are all zero below 2^47 and all one from 0xFFFF_8000_0000_0000 up. */
  lemma QuotientHalves(address: u64)
    ensures address / 0x8000_0000_0000 == 0 <==> address < 0x8000_0000_0000
    ensures address / 0x8000_0000_0000 == 0x1FFFF <==> address >= 0xFFFF_8000_0000_0000
  {}

  lemma SignExtendedHalves(address: u64)
    ensures SignExtend48(address) == address <==> address < 0x8000_0000_0000 || address >= 0xFFFF_8000_0000_0000
  {}

  /** The boundaries of the two canonical halves. */
  lemma CanonicalBoundaries()
    ensures IsCanonical(0x0000_7FFF_FFFF_FFFF).Ok?
    ensures IsCanonical(0xFFFF_8000_0000_0000).Ok?
    ensures IsCanonical(0x0000_8000_0000_0000) == Err(GeneralProtection)
    ensures IsCanonical(0xFFFF_7FFF_FFFF_FFFF) == Err(GeneralProtection)
  {
    HighBitsIsQuotient(0x0000_7FFF_FFFF_FFFF);
    HighBitsIsQuotient(0xFFFF_8000_0000_0000);
    HighBitsIsQuotient(0x0000_8000_0000_0000);
    HighBitsIsQuotient(0xFFFF_7FFF_FFFF_FFFF);
  }

  // ---- Display ----

  function HexDigit(d: nat): char
    requires d < 16
  {
    "0123456789ABCDEF"[d]
  }

  function HexValue(c: char): nat {
    if '0' <= c <= '9' then c as int - '0' as int
    else if 'A' <= c <= 'F' then c as int - 'A' as int + 10
    else 0
  }

  predicate IsHexDigit(c: char) { '0' <= c <= '9' || 'A' <= c <= 'F' }

  /** `{:X}`: upper-case hexadecimal without leading zeros. */
  function Hex(n: nat): (s: string)
    ensures |s| >= 1
    ensures forall i :: 0 <= i < |s| ==> IsHexDigit(s[i])
    ensures n >= 16 ==> s[0] != '0'
  {
    if n < 16 then [HexDigit(n)] else Hex(n / 16) + [HexDigit(n % 16)]
  }

  function ParseHex(s: string): nat {
    if |s| == 0 then 0 else 16 * ParseHex(s[..|s| - 1]) + HexValue(s[|s| - 1])
  }

  lemma {:induction false} ParseHexOfHex(n: nat)
    ensures ParseHex(Hex(n)) == n
  {
    if n < 16 {
      HexValueOfDigit(n);
    } else {
      var s := Hex(n);
      assert s[..|s| - 1] == Hex(n / 16);
      ParseHexOfHex(n / 16);
      HexValueOfDigit(n % 16);
    }
  }

  lemma HexValueOfDigit(d: nat)
    requires d < 16
    ensures HexValue(HexDigit(d)) == d
  {}

  /** `Display for Interrupt` (the older tree's enum has no `Irq`). */
  function Display(i: LegacyInterrupt): string {
    match i
    case GeneralProtection => "GP"
    case PageFault(code, cr2) => "PF(" + Hex(code) + ", " + Hex(cr2) + ")"
    case Undefined => "UD"
    case DoubleFault => "DF"
  }

  function IndexOfComma(s: string): (r: nat)
    ensures r <= |s|
    ensures r < |s| ==> s[r] == ','
    ensures forall k :: 0 <= k < r ==> s[k] != ','
  {
    if |s| == 0 then 0 else if s[0] == ',' then 0 else 1 + IndexOfComma(s[1..])
  }

  /** The inverse of `Display`: recovers the interrupt from its text. */
  function ParseDisplay(s: string): Option<LegacyInterrupt> {
    if s == "GP" then Some(GeneralProtection)
    else if s == "UD" then Some(Undefined)
    else if s == "DF" then Some(DoubleFault)
    else ParsePageFault(s)
  }

  /** `PF(<code>, <cr2>)`. */
  function ParsePageFault(s: string): Option<LegacyInterrupt> {
    if |s| >= 4 && s[..3] == "PF(" && s[|s| - 1] == ')' then ParseFields(s[3..|s| - 1]) else None
  }

  /** `<code>, <cr2>`, both in hexadecimal and within their widths. */
  function ParseFields(body: string): Option<LegacyInterrupt> {
    var j := IndexOfComma(body);
    if j + 2 <= |body| && body[j..j + 2] == ", " then
      var code := ParseHex(body[..j]);
      var cr2 := ParseHex(body[j + 2..]);
      if code < 0x1_0000_0000 && cr2 < TWO_64 then Some(PageFault(code, cr2)) else None
    else None
  }

  datatype Option<+T> = None | Some(value: T)

  lemma CommaAfterHex(a: string, rest: string)
    requires forall i :: 0 <= i < |a| ==> IsHexDigit(a[i])
    requires |rest| >= 1 && rest[0] == ','
    ensures IndexOfComma(a + rest) == |a|
  {
    if |a| > 0 {
      assert (a + rest)[1..] == a[1..] + rest;
      CommaAfterHex(a[1..], rest);
    } else {
      assert a + rest == rest;
    }
  }

  /** The text of an interrupt determines it: `ParseDisplay` inverts `Display`. */
  lemma ParseDisplayOfDisplay(i: LegacyInterrupt)
    ensures ParseDisplay(Display(i)) == Some(i)
  {
    if i.PageFault? {
      ParseDisplayOfPageFault(i.errorCode, i.cr2);
    }
  }

  lemma ParseDisplayOfPageFault(code: u32, cr2: u64)
    ensures ParseDisplay(Display(PageFault(code, cr2))) == Some(PageFault(code, cr2))
  {
    var a, b := Hex(code), Hex(cr2);
    var body := a + (", " + b);
    DisplayPageFault(code, cr2);
    PageFaultShape(body);
    FieldsOfHex(code, cr2);
  }

  lemma DisplayPageFault(code: u32, cr2: u64)
    ensures Display(PageFault(code, cr2)) == "PF(" + (Hex(code) + (", " + Hex(cr2))) + ")"
  {
    var a, b := Hex(code), Hex(cr2);
    assert "PF(" + a + ", " + b + ")" == "PF(" + (a + (", " + b)) + ")";
  }

  lemma PageFaultShape(body: string)
    ensures ParseDisplay("PF(" + body + ")") == ParseFields(body)
  {
    var s := "PF(" + body + ")";
    assert |s| == |body| + 4;
    assert s[..3] == "PF(";
    assert s[3..|s| - 1] == body;
  }

  lemma FieldsOfHex(code: u32, cr2: u64)
    ensures ParseFields(Hex(code) + (", " + Hex(cr2))) == Some(PageFault(code, cr2))
  {
    var a, b := Hex(code), Hex(cr2);
    CommaAfterHex(a, ", " + b);
    BodySlices(a, b);
    ParseHexOfHex(code);
    ParseHexOfHex(cr2);
    ParseFieldsAt(a + (", " + b), |a|, code, cr2);
  }

  lemma BodySlices(a: string, b: string)
    ensures var body := a + (", " + b);
      |a| + 2 <= |body| && body[|a|..|a| + 2] == ", " && body[..|a|] == a && body[|a| + 2..] == b
  {
    var body := a + (", " + b);
    assert body[|a|..|a| + 2] == ", ";
    assert body[..|a|] == a;
    assert body[|a| + 2..] == b;
  }

  lemma ParseFieldsAt(body: string, j: nat, code: u32, cr2: u64)
    requires IndexOfComma(body) == j && j + 2 <= |body| && body[j..j + 2] == ", "
    requires ParseHex(body[..j]) == code && ParseHex(body[j + 2..]) == cr2
    ensures ParseFields(body) == Some(PageFault(code, cr2))
  {}

  lemma DisplayInjective(i: LegacyInterrupt, j: LegacyInterrupt)
    requires Display(i) == Display(j)
    ensures i == j
  {
    ParseDisplayOfDisplay(i);
    ParseDisplayOfDisplay(j);
  }

  // ---- Interrupt descriptor entry ----

  /**
   * `InteruptDescriptorEntry`, a `repr(C)` record of 16 bytes: `present` at
   * byte 0, `disable_interrupt` at byte 1, `rpl` (i8) at byte 2, five padding
   * bytes, and `service_routine` (u64, little-endian) at bytes 8..15.
   */
  datatype DescriptorEntry = DescriptorEntry(present: bool, disableInterrupt: bool, rpl: i8, serviceRoutine: u64)

  const DESCRIPTOR_SIZE: nat := 16

  /** The `transmute` of 16 bytes; a bool byte reads as true iff it is nonzero. */
  function DecodeDescriptor(data: seq<u8>): DescriptorEntry
    requires |data| == DESCRIPTOR_SIZE
  {
    assert FromLe(data[8..16]) < TWO_64 by { Pow256Table(); }
    DescriptorEntry(data[0] != 0, data[1] != 0, AsI8(data[2]), FromLe(data[8..16]))
  }

  function BoolByte(b: bool): u8 { if b then 1 else 0 }
  function I8Byte(x: i8): u8 { if x >= 0 then x else x + 0x100 }

  /** The byte image of an entry, with zero padding. */
  function EncodeDescriptor(e: DescriptorEntry): (data: seq<u8>)
    ensures |data| == DESCRIPTOR_SIZE
  {
    [BoolByte(e.present), BoolByte(e.disableInterrupt), I8Byte(e.rpl), 0, 0, 0, 0, 0] + ToLe(e.serviceRoutine, 8)
  }

  lemma DecodeEncodeDescriptor(e: DescriptorEntry)
    ensures DecodeDescriptor(EncodeDescriptor(e)) == e
  {
    var data := EncodeDescriptor(e);
    assert data[8..16] == ToLe(e.serviceRoutine, 8);
    Pow256Table();
    FromLeToLe(e.serviceRoutine, 8);
  }

  /** The padding bytes 3..7 do not affect the decoded entry. */
  lemma DescriptorIgnoresPadding(d1: seq<u8>, d2: seq<u8>)
    requires |d1| == DESCRIPTOR_SIZE && |d2| == DESCRIPTOR_SIZE
    requires d1[..3] == d2[..3] && d1[8..] == d2[8..]
    ensures DecodeDescriptor(d1) == DecodeDescriptor(d2)
  {
    assert d1[0] == d1[..3][0] && d1[1] == d1[..3][1] && d1[2] == d1[..3][2];
    assert d2[0] == d2[..3][0] && d2[1] == d2[..3][1] && d2[2] == d2[..3][2];
    assert d1[8..16] == d1[8..] && d2[8..16] == d2[8..];
  }

  // ---- Vector selection ----

  /** The vector number and error code pushed for each interrupt kind. */
  function VectorAndError(i: Interrupt): (r: (u64, u64))
    ensures i.Irq? ==> r == (i.line, 0)
    ensures i.PageFault? ==> r == (0x0E, i.errorCode)
    ensures !i.PageFault? ==> r.1 == 0
  {
    match i
    case Undefined => (0x06, 0x00)
    case DoubleFault => (0x08, 0x00)
    case GeneralProtection => (0x0D, 0x00)
    case PageFault(code, _) => (0x0E, code)
    case Irq(line) => (line, 0x00)
  }
}
