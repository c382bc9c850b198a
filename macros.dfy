/**
 * The instruction-table procedural macro of the simulator: how one line of
 * the opcode table is parsed into an encoding, which opcode bytes an
 * encoding is registered under, and the rules by which the generated decoder
 * picks an encoding among those sharing an opcode.
 */
module Macros {
  import opened Bits
  import opened Interrupts

  /** `OperandEncoding`: where an operand comes from. */
  datatype OperandEncoding =
    | SuffixReg
    | ModReg
    | ModRM
    | Immediate(bits: u8)
    | Implicit

  /** `InstructionEncoding`: one parsed line of the table. */
  datatype InstructionEncoding = InstructionEncoding(
    name: string,
    opcode0: u8,
    opcode1: u8,
    opcode2: u8,
    modrmOnlyReg: bool,
    modrmOnlyMem: bool,
    operand0: OperandEncoding,
    operand1: OperandEncoding,
    sizeOverride: bool,
    wide: bool)

  /** `suffix_reg`: the register is encoded in the low three bits of the opcode. */
  predicate HasSuffixReg(e: InstructionEncoding) {
    e.operand0.SuffixReg? || e.operand1.SuffixReg?
  }

  predicate UsesModrm(o: OperandEncoding) { o.ModRM? || o.ModReg? }

  /**
   * `needs_modrm`: an operand comes from the ModR/M byte and the opcode is
   * not a reg-field extension (a two-byte opcode, or no second opcode byte).
   */
  predicate NeedsModrm(e: InstructionEncoding) {
    (UsesModrm(e.operand0) || UsesModrm(e.operand1)) && (e.opcode0 == 0x0F || e.opcode1 == 0xFF)
  }

  /** `immediate_size`: the byte width of the first immediate operand, or 0. */
  function ImmediateSize(e: InstructionEncoding): (r: u8)
    ensures e.operand0.Immediate? ==> r == e.operand0.bits / 8
    ensures !e.operand0.Immediate? && e.operand1.Immediate? ==> r == e.operand1.bits / 8
    ensures !e.operand0.Immediate? && !e.operand1.Immediate? ==> r == 0
  {
    if e.operand0.Immediate? then e.operand0.bits / 8
    else if e.operand1.Immediate? then e.operand1.bits / 8
    else 0
  }

  // ---- Parsing one table line ----

  /** `parse_operand`; `None` stands for the `unreachable!()` panic on an unknown token. */
  function ParseOperand(src: Option<string>): Option<OperandEncoding> {
    match src
    case None => Some(Implicit)
    case Some(s) =>
      match s
      case "R" => Some(ModReg)
      case "RM" => Some(ModRM)
      case "SR" => Some(SuffixReg)
      case "Imm8" => Some(Immediate(8))
      case "Imm16" => Some(Immediate(16))
      case "Imm32" => Some(Immediate(32))
      case "Imm64" => Some(Immediate(64))
      case _ => None
  }

  /** The token an operand encoding is written as; `Implicit` is an absent token. */
  function OperandText(o: OperandEncoding): Option<string>
    requires o.Immediate? ==> o.bits in {8, 16, 32, 64}
  {
    match o
    case SuffixReg => Some("SR")
    case ModReg => Some("R")
    case ModRM => Some("RM")
    case Immediate(bits) =>
      if bits == 8 then Some("Imm8") else if bits == 16 then Some("Imm16")
      else if bits == 32 then Some("Imm32") else Some("Imm64")
    case Implicit => None
  }

  /** `char::is_whitespace` on the ASCII range. */
  predicate IsSpace(c: char) {
    c == ' ' || c == '\t' || c == '\n' || c == '\r' || c as int == 0x0B || c as int == 0x0C
  }

  predicate NoSpace(w: string) { forall i :: 0 <= i < |w| ==> !IsSpace(w[i]) }

  /** The length of the word at the start of `s`. */
  function WordLength(s: string): (n: nat)
    ensures n <= |s| && NoSpace(s[..n])
    ensures n < |s| ==> IsSpace(s[n])
  {
    if s == [] || IsSpace(s[0]) then 0
    else
      var n := WordLength(s[1..]);
      assert s[..n + 1] == [s[0]] + s[1..][..n];
      n + 1
  }

  /** `split_whitespace`: the maximal runs of non-space characters, in order. */
  function Words(s: string): (ws: seq<string>)
    ensures forall i :: 0 <= i < |ws| ==> ws[i] != [] && NoSpace(ws[i])
    decreases |s|
  {
    if s == [] then []
    else if IsSpace(s[0]) then Words(s[1..])
    else
      var n := WordLength(s);
      [s[..n]] + Words(s[n..])
  }

  /** The `i`-th item of a token iterator, if there is one. */
  function Token(ws: seq<string>, i: nat): Option<string> {
    if i < |ws| then Some(ws[i]) else None
  }

  /** `split_once(c)`: the text before and after the first `c`. */
  function SplitOnce(s: string, c: char): (r: Option<(string, string)>)
    ensures r.None? <==> c !in s
    ensures r.Some? ==> s == r.value.0 + [c] + r.value.1 && c !in r.value.0
  {
    if s == [] then None
    else if s[0] == c then Some(([], s[1..]))
    else
      match SplitOnce(s[1..], c)
      case None => None
      case Some((before, after)) => Some(([s[0]] + before, after))
  }

  /** A digit of radix 16, either case, as `from_str_radix` accepts it. */
  function HexDigitValue(c: char): Option<nat> {
    if '0' <= c <= '9' then Some(c as int - '0' as int)
    else if 'a' <= c <= 'f' then Some(c as int - 'a' as int + 10)
    else if 'A' <= c <= 'F' then Some(c as int - 'A' as int + 10)
    else None
  }

  /**
   * `u8::from_str_radix(s, 16)` on a two-character slice: two hex digits, or
   * a `+` sign and one digit; `None` stands for the `unwrap` panic.
   */
  function HexByte(s: string): (r: Option<u8>)
    requires |s| == 2
  {
    if s[0] == '+' then
      match HexDigitValue(s[1])
      case None => None
      case Some(d) => Some(d)
    else
      match (HexDigitValue(s[0]), HexDigitValue(s[1]))
      case (Some(h), Some(l)) => Some(16 * h + l)
      case _ => None
  }

  /** `opcode.get(lo..lo+2).map(from_str_radix).unwrap_or(default)`. */
  function OpcodeByte(opcode: string, lo: nat, default: u8): Option<u8> {
    if lo + 2 <= |opcode| then HexByte(opcode[lo..lo + 2]) else Some(default)
  }

  /**
   * The encoding built from the words before the colon and the modifier
   * words after it (`None` for a panic): the name and opcode are the first two
   * words, the next two words are the operands, and the modifiers `so` and
   * `w` set the size-override and wide flags.
   */
  function Assemble(tokens: seq<string>, mods: seq<string>): Option<InstructionEncoding> {
    if |tokens| < 2 then None
    else
      var o0, o1, o2 := OpcodeByte(tokens[1], 0, 0), OpcodeByte(tokens[1], 2, 0xFF), OpcodeByte(tokens[1], 4, 0);
      var a, b := ParseOperand(Token(tokens, 2)), ParseOperand(Token(tokens, 3));
      if o0.None? || o1.None? || o2.None? || a.None? || b.None? then None
      else Some(InstructionEncoding(tokens[0], o0.value, o1.value, o2.value, false, false, a.value, b.value,
                                    "so" in mods, "w" in mods))
  }

  /** What `parse_instruction` yields for a table line: split at the first colon, then assemble. */
  function EncodingOf(src: string): Option<InstructionEncoding> {
    match SplitOnce(src, ':')
    case None => None
    case Some((base, modifiers)) => Assemble(Words(base), Words(modifiers))
  }

  /**
   * `parse_instruction`: the fields are computed first and the flags are then
   * set by a loop over the modifier words.
   */
  method ParseInstruction(src: string) returns (r: Option<InstructionEncoding>)
    ensures r == EncodingOf(src)
  {
    var split := SplitOnce(src, ':');
    if split.None? {
      return None;
    }
    var (base, modifiers) := split.value;
    var tokens := Words(base);
    if |tokens| < 2 {
      return None;
    }
    var opcode := tokens[1];
    var o0, o1, o2 := OpcodeByte(opcode, 0, 0), OpcodeByte(opcode, 2, 0xFF), OpcodeByte(opcode, 4, 0);
    var a, b := ParseOperand(Token(tokens, 2)), ParseOperand(Token(tokens, 3));
    if o0.None? || o1.None? || o2.None? || a.None? || b.None? {
      return None;
    }
    var instruction := InstructionEncoding(tokens[0], o0.value, o1.value, o2.value, false, false, a.value, b.value, false, false);
    var mods := Words(modifiers);
    var i := 0;
    while i < |mods|
      invariant 0 <= i <= |mods|
      invariant instruction == InstructionEncoding(tokens[0], o0.value, o1.value, o2.value, false, false,
        a.value, b.value, "so" in mods[..i], "w" in mods[..i])
    {
      assert mods[..i + 1] == mods[..i] + [mods[i]];
      if mods[i] == "so" {
        instruction := instruction.(sizeOverride := true);
      } else if mods[i] == "w" {
        instruction := instruction.(wide := true);
      }
      i := i + 1;
    }
    assert mods[..i] == mods;
    return Some(instruction);
  }

  // ---- Lines written as words ----

  /** Words joined by single spaces. */
  function Unwords(ws: seq<string>): string {
    if |ws| == 0 then "" else if |ws| == 1 then ws[0] else ws[0] + " " + Unwords(ws[1..])
  }

  /** A table line: the words before the colon, then the modifier words after it. */
  function Line(words: seq<string>, modifiers: seq<string>): string {
    Unwords(words) + " :" + (if modifiers == [] then "" else " " + Unwords(modifiers))
  }

  /** A word that can stand in a table line: non-empty, no space, no colon. */
  predicate IsWord(w: string) { w != [] && NoSpace(w) && ':' !in w }

  lemma {:induction false} WordLengthOf(w: string, s: string)
    requires NoSpace(w) && (s == [] || IsSpace(s[0]))
    ensures WordLength(w + s) == |w|
    decreases |w|
  {
    if w != [] {
      assert (w + s)[1..] == w[1..] + s;
      assert !IsSpace(w[0]);
      WordLengthOf(w[1..], s);
    } else {
      assert w + s == s;
    }
  }

  /** A word in front of a space or of nothing is the first word. */
  lemma WordsCons(w: string, s: string)
    requires w != [] && NoSpace(w) && (s == [] || IsSpace(s[0]))
    ensures Words(w + s) == [w] + Words(s)
  {
    WordLengthOf(w, s);
    assert (w + s)[..|w|] == w && (w + s)[|w|..] == s;
  }

  /** `split_whitespace` recovers the words of a single-space join. */
  lemma {:induction false} WordsOfUnwords(ws: seq<string>, tail: string)
    requires forall i :: 0 <= i < |ws| ==> ws[i] != [] && NoSpace(ws[i])
    requires tail == [] || IsSpace(tail[0])
    ensures Words(Unwords(ws) + tail) == ws + Words(tail)
    decreases |ws|
  {
    if |ws| == 1 {
      WordsCons(ws[0], tail);
    } else if |ws| > 1 {
      WordsOfUnwords(ws[1..], tail);
      WordsOfUnwordsStep(ws, tail, Unwords(ws[1..]) + tail);
    } else {
      assert Unwords(ws) + tail == tail;
    }
  }

  lemma WordsOfUnwordsStep(ws: seq<string>, tail: string, rest: string)
    requires |ws| > 1 && ws[0] != [] && NoSpace(ws[0])
    requires rest == Unwords(ws[1..]) + tail
    requires Words(rest) == ws[1..] + Words(tail)
    ensures Words(Unwords(ws) + tail) == ws + Words(tail)
  {
    assert Unwords(ws) + tail == ws[0] + (" " + rest);
    WordsCons(ws[0], " " + rest);
    assert (" " + rest)[1..] == rest;
    assert ws == [ws[0]] + ws[1..];
  }

  lemma {:induction false} NoColonInUnwords(ws: seq<string>)
    requires forall i :: 0 <= i < |ws| ==> ':' !in ws[i]
    ensures ':' !in Unwords(ws)
    decreases |ws|
  {
    if |ws| > 1 { NoColonInUnwords(ws[1..]); }
  }

  lemma {:induction false} SplitOnceAt(a: string, b: string, c: char)
    requires c !in a
    ensures SplitOnce(a + [c] + b, c) == Some((a, b))
    decreases |a|
  {
    if a == [] {
      assert a + [c] + b == [c] + b && ([c] + b)[1..] == b;
    } else {
      var s := a + [c] + b;
      assert s[0] == a[0] != c;
      assert s[1..] == a[1..] + [c] + b;
      SplitOnceAt(a[1..], b, c);
      assert [a[0]] + a[1..] == a;
    }
  }

  /** The words after the colon of a line are its modifiers. */
  lemma ModifierWords(modifiers: seq<string>)
    requires forall i :: 0 <= i < |modifiers| ==> modifiers[i] != [] && NoSpace(modifiers[i])
    ensures Words(if modifiers == [] then "" else " " + Unwords(modifiers)) == modifiers
  {
    if modifiers != [] {
      WordsOfUnwords(modifiers, "");
      assert Unwords(modifiers) + "" == Unwords(modifiers);
      assert Words(" " + Unwords(modifiers)) == Words(Unwords(modifiers));
    }
  }

  /**
   * Parsing a line splits it at its colon, takes the name and the opcode from
   * the first two words, the operands from the next two and the flags from
   * the modifier words.
   */
  lemma LineFields(words: seq<string>, modifiers: seq<string>)
    requires |words| >= 2 && forall i :: 0 <= i < |words| ==> IsWord(words[i])
    requires forall i :: 0 <= i < |modifiers| ==> modifiers[i] != [] && NoSpace(modifiers[i])
    ensures SplitOnce(Line(words, modifiers), ':').Some?
    ensures Words(SplitOnce(Line(words, modifiers), ':').value.0) == words
    ensures Words(SplitOnce(Line(words, modifiers), ':').value.1) == modifiers
  {
    var after := if modifiers == [] then "" else " " + Unwords(modifiers);
    NoColonInUnwords(words);
    assert ':' !in Unwords(words) + " ";
    assert Line(words, modifiers) == (Unwords(words) + " ") + [':'] + after;
    SplitOnceAt(Unwords(words) + " ", after, ':');
    WordsOfUnwords(words, " ");
    assert Words(" ") == [];
    ModifierWords(modifiers);
  }

  /** A line of words parses to the encoding assembled from those words. */
  lemma EncodingOfLine(words: seq<string>, modifiers: seq<string>)
    requires |words| >= 2 && forall i :: 0 <= i < |words| ==> IsWord(words[i])
    requires forall i :: 0 <= i < |modifiers| ==> modifiers[i] != [] && NoSpace(modifiers[i])
    ensures EncodingOf(Line(words, modifiers)) == Assemble(words, modifiers)
  {
    LineFields(words, modifiers);
  }

  // ---- The table ----

  /** The table lines of the simulator's instruction set: the words before the colon, then the modifiers. */
  const TABLE_SOURCE: seq<(seq<string>, seq<string>)> := [
    (["In8", "E4", "Imm8"], []),
    (["In16", "E5", "Imm8"], ["so"]),
    (["In32", "E5", "Imm8"], []),
    (["In8D", "EC"], []),
    (["In16D", "ED"], ["so"]),
    (["In32D", "ED"], []),
    (["IncRM8", "FE00", "RM"], []),
    (["IncRM16", "FF00", "RM"], ["so"]),
    (["IncRM32", "FF00", "RM"], []),
    (["IncRM64", "FF00", "RM"], ["w"]),
    (["Iret", "CF"], []),
    (["JmpRel8", "EB", "Imm8"], []),
    (["JmpRel32", "E9", "Imm32"], []),
    (["MovReg8Imm", "B0", "SR", "Imm8"], []),
    (["MovReg16Imm", "B8", "SR", "Imm16"], ["so"]),
    (["MovReg32Imm", "B8", "SR", "Imm32"], []),
    (["MovReg64Imm", "B8", "SR", "Imm64"], ["w"]),
    (["MovReg8RM", "8A", "R", "RM"], []),
    (["MovReg16RM", "8B", "R", "RM"], ["so"]),
    (["MovReg32RM", "8B", "R", "RM"], []),
    (["MovReg64RM", "8B", "R", "RM"], ["w"]),
    (["MovRM8Reg", "88", "RM", "R"], []),
    (["MovRM16Reg", "89", "RM", "R"], ["so"]),
    (["MovRM32Reg", "89", "RM", "R"], []),
    (["MovRM64Reg", "89", "RM", "R"], ["w"]),
    (["Out8", "E6", "Imm8"], []),
    (["Out16", "E7", "Imm8"], ["so"]),
    (["Out32", "E7", "Imm8"], []),
    (["Swi4", "3F01", "RM"], []),
    (["Wrcr", "3F00", "Imm8", "RM"], [])
  ]

  function Enc(name: string, opcode0: u8, opcode1: u8, operand0: OperandEncoding, operand1: OperandEncoding,
               sizeOverride: bool, wide: bool): InstructionEncoding
  {
    InstructionEncoding(name, opcode0, opcode1, 0, false, false, operand0, operand1, sizeOverride, wide)
  }

  /** The encodings the table lines parse to, in table order. */
  const TABLE: seq<InstructionEncoding> := [
    Enc("In8", 0xE4, 0xFF, Immediate(8), Implicit, false, false),
    Enc("In16", 0xE5, 0xFF, Immediate(8), Implicit, true, false),
    Enc("In32", 0xE5, 0xFF, Immediate(8), Implicit, false, false),
    Enc("In8D", 0xEC, 0xFF, Implicit, Implicit, false, false),
    Enc("In16D", 0xED, 0xFF, Implicit, Implicit, true, false),
    Enc("In32D", 0xED, 0xFF, Implicit, Implicit, false, false),
    Enc("IncRM8", 0xFE, 0x00, ModRM, Implicit, false, false),
    Enc("IncRM16", 0xFF, 0x00, ModRM, Implicit, true, false),
    Enc("IncRM32", 0xFF, 0x00, ModRM, Implicit, false, false),
    Enc("IncRM64", 0xFF, 0x00, ModRM, Implicit, false, true),
    Enc("Iret", 0xCF, 0xFF, Implicit, Implicit, false, false),
    Enc("JmpRel8", 0xEB, 0xFF, Immediate(8), Implicit, false, false),
    Enc("JmpRel32", 0xE9, 0xFF, Immediate(32), Implicit, false, false),
    Enc("MovReg8Imm", 0xB0, 0xFF, SuffixReg, Immediate(8), false, false),
    Enc("MovReg16Imm", 0xB8, 0xFF, SuffixReg, Immediate(16), true, false),
    Enc("MovReg32Imm", 0xB8, 0xFF, SuffixReg, Immediate(32), false, false),
    Enc("MovReg64Imm", 0xB8, 0xFF, SuffixReg, Immediate(64), false, true),
    Enc("MovReg8RM", 0x8A, 0xFF, ModReg, ModRM, false, false),
    Enc("MovReg16RM", 0x8B, 0xFF, ModReg, ModRM, true, false),
    Enc("MovReg32RM", 0x8B, 0xFF, ModReg, ModRM, false, false),
    Enc("MovReg64RM", 0x8B, 0xFF, ModReg, ModRM, false, true),
    Enc("MovRM8Reg", 0x88, 0xFF, ModRM, ModReg, false, false),
    Enc("MovRM16Reg", 0x89, 0xFF, ModRM, ModReg, true, false),
    Enc("MovRM32Reg", 0x89, 0xFF, ModRM, ModReg, false, false),
    Enc("MovRM64Reg", 0x89, 0xFF, ModRM, ModReg, false, true),
    Enc("Out8", 0xE6, 0xFF, Immediate(8), Implicit, false, false),
    Enc("Out16", 0xE7, 0xFF, Immediate(8), Implicit, true, false),
    Enc("Out32", 0xE7, 0xFF, Immediate(8), Implicit, false, false),
    Enc("Swi4", 0x3F, 0x01, ModRM, Implicit, false, false),
    Enc("Wrcr", 0x3F, 0x00, Immediate(8), ModRM, false, false)
  ]

  /** Table line `i` is made of words and has at least a name and an opcode. */
  lemma TableWords0(i: nat)
    requires i < 6
    ensures |TABLE_SOURCE[i].0| >= 2
    ensures forall j :: 0 <= j < |TABLE_SOURCE[i].0| ==> IsWord(TABLE_SOURCE[i].0[j])
    ensures forall j :: 0 <= j < |TABLE_SOURCE[i].1| ==> TABLE_SOURCE[i].1[j] != [] && NoSpace(TABLE_SOURCE[i].1[j])
  {}

  lemma TableWords1(i: nat)
    requires 6 <= i < 9
    ensures |TABLE_SOURCE[i].0| >= 2
    ensures forall j :: 0 <= j < |TABLE_SOURCE[i].0| ==> IsWord(TABLE_SOURCE[i].0[j])
    ensures forall j :: 0 <= j < |TABLE_SOURCE[i].1| ==> TABLE_SOURCE[i].1[j] != [] && NoSpace(TABLE_SOURCE[i].1[j])
  {}

  lemma TableWords2(i: nat)
    requires 9 <= i < 12
    ensures |TABLE_SOURCE[i].0| >= 2
    ensures forall j :: 0 <= j < |TABLE_SOURCE[i].0| ==> IsWord(TABLE_SOURCE[i].0[j])
    ensures forall j :: 0 <= j < |TABLE_SOURCE[i].1| ==> TABLE_SOURCE[i].1[j] != [] && NoSpace(TABLE_SOURCE[i].1[j])
  {}

  lemma TableWords3(i: nat)
    requires 12 <= i < 15
    ensures |TABLE_SOURCE[i].0| >= 2
    ensures forall j :: 0 <= j < |TABLE_SOURCE[i].0| ==> IsWord(TABLE_SOURCE[i].0[j])
    ensures forall j :: 0 <= j < |TABLE_SOURCE[i].1| ==> TABLE_SOURCE[i].1[j] != [] && NoSpace(TABLE_SOURCE[i].1[j])
  {}

  lemma TableWords4(i: nat)
    requires 15 <= i < 18
    ensures |TABLE_SOURCE[i].0| >= 2
    ensures forall j :: 0 <= j < |TABLE_SOURCE[i].0| ==> IsWord(TABLE_SOURCE[i].0[j])
    ensures forall j :: 0 <= j < |TABLE_SOURCE[i].1| ==> TABLE_SOURCE[i].1[j] != [] && NoSpace(TABLE_SOURCE[i].1[j])
  {}

  lemma TableWords5(i: nat)
    requires 18 <= i < 24
    ensures |TABLE_SOURCE[i].0| >= 2
    ensures forall j :: 0 <= j < |TABLE_SOURCE[i].0| ==> IsWord(TABLE_SOURCE[i].0[j])
    ensures forall j :: 0 <= j < |TABLE_SOURCE[i].1| ==> TABLE_SOURCE[i].1[j] != [] && NoSpace(TABLE_SOURCE[i].1[j])
  {}

  lemma TableWords6(i: nat)
    requires 24 <= i < 30
    ensures |TABLE_SOURCE[i].0| >= 2
    ensures forall j :: 0 <= j < |TABLE_SOURCE[i].0| ==> IsWord(TABLE_SOURCE[i].0[j])
    ensures forall j :: 0 <= j < |TABLE_SOURCE[i].1| ==> TABLE_SOURCE[i].1[j] != [] && NoSpace(TABLE_SOURCE[i].1[j])
  {}

  /** Table line `i` assembles to `TABLE[i]`: the two tables agree line by line. */
  lemma TableAssembles0(i: nat)
    requires i < 5
    ensures |TABLE| == |TABLE_SOURCE| && Assemble(TABLE_SOURCE[i].0, TABLE_SOURCE[i].1) == Some(TABLE[i])
  {}

  lemma TableAssembles1(i: nat)
    requires 5 <= i < 10
    ensures |TABLE| == |TABLE_SOURCE| && Assemble(TABLE_SOURCE[i].0, TABLE_SOURCE[i].1) == Some(TABLE[i])
  {}

  lemma TableAssembles2(i: nat)
    requires 10 <= i < 15
    ensures |TABLE| == |TABLE_SOURCE| && Assemble(TABLE_SOURCE[i].0, TABLE_SOURCE[i].1) == Some(TABLE[i])
  {}

  lemma TableAssembles3(i: nat)
    requires 15 <= i < 20
    ensures |TABLE| == |TABLE_SOURCE| && Assemble(TABLE_SOURCE[i].0, TABLE_SOURCE[i].1) == Some(TABLE[i])
  {}

  lemma TableAssembles4(i: nat)
    requires 20 <= i < 25
    ensures |TABLE| == |TABLE_SOURCE| && Assemble(TABLE_SOURCE[i].0, TABLE_SOURCE[i].1) == Some(TABLE[i])
  {}

  lemma TableAssembles5(i: nat)
    requires 25 <= i < 30
    ensures |TABLE| == |TABLE_SOURCE| && Assemble(TABLE_SOURCE[i].0, TABLE_SOURCE[i].1) == Some(TABLE[i])
  {}

  /** `parse_instruction` turns table line `i` into `TABLE[i]`. */
  lemma TableParses(i: nat)
    requires i < |TABLE_SOURCE|
    ensures |TABLE| == |TABLE_SOURCE|
    ensures EncodingOf(Line(TABLE_SOURCE[i].0, TABLE_SOURCE[i].1)) == Some(TABLE[i])
  {
    if i < 6 { TableWords0(i); }
    else if i < 9 { TableWords1(i); }
    else if i < 12 { TableWords2(i); }
    else if i < 15 { TableWords3(i); }
    else if i < 18 { TableWords4(i); }
    else if i < 24 { TableWords5(i); }
    else { TableWords6(i); }
    if i < 5 { TableAssembles0(i); }
    else if i < 10 { TableAssembles1(i); }
    else if i < 15 { TableAssembles2(i); }
    else if i < 20 { TableAssembles3(i); }
    else if i < 25 { TableAssembles4(i); }
    else { TableAssembles5(i); }
    EncodingOfLine(TABLE_SOURCE[i].0, TABLE_SOURCE[i].1);
  }

  // ---- Operand tokens ----

  /** `parse_operand` reads back the token of every operand encoding the table can contain. */
  lemma ParseOperandOfText(o: OperandEncoding)
    requires o.Immediate? ==> o.bits in {8, 16, 32, 64}
    ensures ParseOperand(OperandText(o)) == Some(o)
  {}

  /** Every token `parse_operand` accepts is the token of what it yields. */
  lemma OperandTextOfParse(src: Option<string>)
    requires ParseOperand(src).Some?
    ensures var o := ParseOperand(src).value; (o.Immediate? ==> o.bits in {8, 16, 32, 64}) && OperandText(o) == src
  {}

  // ---- Registering encodings under opcode bytes ----

  /**
   * The opcode bytes an encoding is registered under: `opcode0 .. opcode0 + 8`
   * for a suffix register, with the end computed on `u8` (it wraps for an
   * opcode above 0xF7, leaving the range empty), and only `opcode0` otherwise.
   */
  predicate RegisteredUnder(e: InstructionEncoding, b: u8) {
    if HasSuffixReg(e) then e.opcode0 <= b < RangeEnd(e.opcode0) else b == e.opcode0
  }

  /** `opcode0 + 8` on `u8`. */
  function RangeEnd(opcode0: u8): (r: u8)
    ensures opcode0 <= 0xF7 ==> r == opcode0 + 8
    ensures opcode0 > 0xF7 ==> r < opcode0
  {
    Trunc8(opcode0 + 8)
  }

  /** The group of opcode `b`: the encodings registered under it, in table order. */
  function Registered(table: seq<InstructionEncoding>, b: u8): seq<InstructionEncoding> {
    if table == [] then []
    else Registered(table[..|table| - 1], b) + (if RegisteredUnder(table[|table| - 1], b) then [table[|table| - 1]] else [])
  }

  /** Appending an encoding to the table appends it to the groups it is registered under. */
  lemma RegisteredSnoc(front: seq<InstructionEncoding>, e: InstructionEncoding, b: u8)
    ensures Registered(front + [e], b) == Registered(front, b) + (if RegisteredUnder(e, b) then [e] else [])
  {
    assert (front + [e])[..|front + [e]| - 1] == front;
  }

  /** The group under `code` in the map being built, empty when there is none yet. */
  function GroupAt(groups: map<u8, seq<InstructionEncoding>>, code: u8): seq<InstructionEncoding> {
    if code in groups then groups[code] else []
  }

  /** `groups` holds exactly the non-empty groups of `table`. */
  predicate GroupsOf(groups: map<u8, seq<InstructionEncoding>>, table: seq<InstructionEncoding>) {
    forall b: u8 :: GroupAt(groups, b) == Registered(table, b) && (b in groups ==> groups[b] != [])
  }

  /**
   * The grouping loop of `generate_instructions`: every encoding is pushed onto
   * the group of each opcode it is registered under; the map holds exactly the
   * non-empty groups.
   */
  method GroupByOpcode(table: seq<InstructionEncoding>) returns (groups: map<u8, seq<InstructionEncoding>>)
    ensures forall b: u8 :: b in groups <==> Registered(table, b) != []
    ensures forall b: u8 :: b in groups ==> groups[b] == Registered(table, b)
  {
    groups := map[];
    var i := 0;
    while i < |table|
      invariant 0 <= i <= |table|
      invariant GroupsOf(groups, table[..i])
    {
      var e := table[i];
      assert table[..i + 1] == table[..i] + [e];
      if HasSuffixReg(e) {
        groups := PushRange(groups, table[..i], e);
      } else {
        PushOne(groups, table[..i], e);
        groups := Push(groups, e.opcode0, e);
      }
      i := i + 1;
    }
    assert table[..i] == table;
    forall b: u8 ensures b in groups <==> Registered(table, b) != [] {
      assert GroupAt(groups, b) == Registered(table, b);
    }
  }

  /** `groups.entry(code).or_default().push(e)`. */
  function Push(groups: map<u8, seq<InstructionEncoding>>, code: u8, e: InstructionEncoding): (r: map<u8, seq<InstructionEncoding>>)
    ensures GroupAt(r, code) == GroupAt(groups, code) + [e] && code in r
    ensures forall b :: b != code ==> GroupAt(r, b) == GroupAt(groups, b) && (b in r <==> b in groups)
  {
    groups[code := GroupAt(groups, code) + [e]]
  }

  /** Pushing an encoding without a suffix register onto the group of its `opcode0`. */
  lemma PushOne(groups: map<u8, seq<InstructionEncoding>>, front: seq<InstructionEncoding>, e: InstructionEncoding)
    requires !HasSuffixReg(e) && GroupsOf(groups, front)
    ensures GroupsOf(Push(groups, e.opcode0, e), front + [e])
  {
    var r := Push(groups, e.opcode0, e);
    forall b: u8 ensures GroupAt(r, b) == Registered(front + [e], b) && (b in r ==> r[b] != []) {
      RegisteredSnoc(front, e, b);
    }
  }

  /** The inner loop for a suffix-register encoding: one push per opcode of its range. */
  method PushRange(groups: map<u8, seq<InstructionEncoding>>, front: seq<InstructionEncoding>, e: InstructionEncoding)
    returns (r: map<u8, seq<InstructionEncoding>>)
    requires HasSuffixReg(e) && GroupsOf(groups, front)
    ensures GroupsOf(r, front + [e])
  {
    var end := RangeEnd(e.opcode0);
    r := groups;
    var code := e.opcode0;
    while code < end
      invariant e.opcode0 <= code <= end || (end < e.opcode0 && code == e.opcode0)
      invariant forall b: u8 :: GroupAt(r, b) == Registered(front, b) + (if e.opcode0 <= b < code then [e] else [])
      invariant forall b: u8 :: b in r ==> r[b] != []
    {
      r := Push(r, code, e);
      code := code + 1;
    }
    assert code == end || end < e.opcode0 == code;
    forall b: u8 ensures GroupAt(r, b) == Registered(front + [e], b) {
      assert (e.opcode0 <= b < code) == RegisteredUnder(e, b);
      RegisteredSnoc(front, e, b);
    }
  }
}
