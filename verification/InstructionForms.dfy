/**
 The instructions the relocation matcher recognises, as an assembler writes them: leading bytes made
 of opcode, register, scale and index numbers, then a 32-bit operand.
*/
module InstructionForms {
  import opened Wire
  import opened PacketReader
  import opened Relocation

  datatype Instruction =
    | Push
    | LoadAccumulator
    | StoreAccumulator
    | MoveImmediate(reg: nat)
    | LoadThreadField
    | StoreThreadField
    | Plain(opcode: nat, reg: nat)                            // operand: an address
    | Indexed(opcode: nat, reg: nat, scale: nat, index: nat)  // operand: the base of a table
    | Extending(opcode: nat, reg: nat)                        // operand: a displacement from a register

  predicate Encodable(x: Instruction) {
    match x
    case MoveImmediate(reg) => reg < 8
    case Plain(opcode, reg) => opcode in {0x8B, 0x89, 0x8D, 0xFF} && reg < 8
    case Indexed(opcode, reg, scale, index) => opcode in {0x8B, 0x89, 0x8D, 0xFF} && reg < 8 && scale < 4 && index < 8
    case Extending(opcode, reg) => opcode in {0xB6, 0xB7, 0xBE, 0xBF} && reg < 8
    case _ => true
  }

  /** Everything before the operand. */
  function Lead(x: Instruction): (s: seq<byte>)
    requires Encodable(x)
    ensures 1 <= |s| <= 3
  {
    match x
    case Push => [0x68]
    case LoadAccumulator => [0xA1]
    case StoreAccumulator => [0xA3]
    case MoveImmediate(reg) => [0xB8 + reg]
    case LoadThreadField => [0x64, 0xA1]
    case StoreThreadField => [0x64, 0x89, 0x25]
    case Plain(opcode, reg) => [opcode, 8 * reg + 5]
    case Indexed(opcode, reg, scale, index) => [opcode, 8 * reg + 4, 64 * scale + 8 * index + 5]
    case Extending(opcode, reg) => [0x0F, opcode, 0x80 + 8 * reg]
  }

  function Encode(x: Instruction, operand: uint32): seq<byte>
    requires Encodable(x)
  {
    Lead(x) + U32Bytes(operand)
  }

  // ---------- Masks and numbers ----------

  lemma {:induction false} AddressModeBits(v: bv8)
    ensures v & 0xC7 == 0x05 <==> v in {0x05, 0x0D, 0x15, 0x1D, 0x25, 0x2D, 0x35, 0x3D}
  {
  }

  lemma {:induction false} AddressMode(b: byte)
    ensures Masked(b, 0xC7) == 0x05 <==> b < 0x40 && b % 8 == 5
  {
    AddressModeBits(b as bv8);
  }

  lemma {:induction false} TableModeBits(v: bv8)
    ensures v & 0xC7 == 0x04 <==> v in {0x04, 0x0C, 0x14, 0x1C, 0x24, 0x2C, 0x34, 0x3C}
  {
  }

  lemma {:induction false} TableMode(b: byte)
    ensures Masked(b, 0xC7) == 0x04 <==> b < 0x40 && b % 8 == 4
  {
    TableModeBits(b as bv8);
  }

  lemma {:induction false} DisplacementModeBits(v: bv8)
    ensures v & 0xC7 == 0x80 <==> v in {0x80, 0x88, 0x90, 0x98, 0xA0, 0xA8, 0xB0, 0xB8}
  {
  }

  lemma {:induction false} DisplacementMode(b: byte)
    ensures Masked(b, 0xC7) == 0x80 <==> 0x80 <= b < 0xC0 && b % 8 == 0
  {
    DisplacementModeBits(b as bv8);
  }

  lemma {:induction false} Bit0(b: byte)
    ensures Masked(b, 0x01) != 0 <==> b % 2 == 1
  {
  }

  lemma {:induction false} Bit1(b: byte)
    ensures Masked(b, 0x02) != 0 <==> b / 2 % 2 == 1
  {
  }

  lemma {:induction false} Bit2(b: byte)
    ensures Masked(b, 0x04) != 0 <==> b / 4 % 2 == 1
  {
  }

  lemma {:induction false} ThreeBits(v: bv8)
    ensures v & 0x07 == 0x05 <==> v & 0x01 != 0 && v & 0x02 == 0 && v & 0x04 != 0
  {
  }

  lemma {:induction false} FiveOfEight(b: nat)
    ensures b % 8 == 5 <==> b % 2 == 1 && b / 2 % 2 == 0 && b / 4 % 2 == 1
  {
    var q, r := b / 8, b % 8;
    assert b / 4 == 2 * q + r / 4 && b / 2 == 4 * q + r / 2;
  }

  lemma {:induction false} NoBase(b: byte)
    ensures Masked(b, 0x07) == 0x05 <==> b % 8 == 5
  {
    ThreeBits(b as bv8);
    Bit0(b);
    Bit1(b);
    Bit2(b);
    FiveOfEight(b);
  }

  // ---------- What the matcher recognises ----------

  /** The code holds this instruction at `i`. */
  ghost predicate StandsAt(code: seq<byte>, i: nat, x: Instruction, operand: uint32)
    requires i <= |code|
  {
    Encodable(x) && Encode(x, operand) <= code[i..]
  }

  ghost predicate LeadsAt(code: seq<byte>, i: nat, x: Instruction)
    requires i <= |code|
  {
    Encodable(x) && i + |Lead(x)| + 4 <= |code| && Lead(x) <= code[i..]
  }

  lemma {:induction false} StandsIffLeads(code: seq<byte>, i: nat, x: Instruction, operand: uint32)
    requires i <= |code|
    ensures StandsAt(code, i, x, operand) <==>
              LeadsAt(code, i, x) && LoadU32(code, i + |Lead(x)|) == operand
  {
    if Encodable(x) {
      hide Encodable, Lead, LoadU32, U32Bytes;
      PrefixSplits(Lead(x), U32Bytes(operand), code, i);
      if i + |Lead(x)| <= |code| {
        U32IsExact(code, i + |Lead(x)|, operand);
      }
    }
  }

  lemma {:induction false} LeadIsRecognised(code: seq<byte>, i: nat, x: Instruction)
    requires i < |code| && LeadsAt(code, i, x)
    ensures OperandOffset(code, i) == |Lead(x)|
  {
    hide Masked;
    var s := Lead(x);
    assert code[i] == s[0];
    if |s| > 1 {
      assert code[i + 1] == s[1];
      AddressMode(code[i + 1]);
      TableMode(code[i + 1]);
    }
    if |s| > 2 {
      assert code[i + 2] == s[2];
      NoBase(code[i + 2]);
      DisplacementMode(code[i + 2]);
    }
  }

  lemma {:induction false} LeadIsHere(code: seq<byte>, i: nat, x: Instruction)
    requires Encodable(x) && |Lead(x)| == 3 && i + 7 <= |code|
    requires code[i] == Lead(x)[0] && code[i + 1] == Lead(x)[1] && code[i + 2] == Lead(x)[2]
    ensures LeadsAt(code, i, x)
  {
    hide Encodable, Lead;
    assert code[i..][..3] == Lead(x);
  }

  lemma {:induction false} RecognisedLongLead(code: seq<byte>, i: nat) returns (x: Instruction)
    requires i < |code| && OperandOffset(code, i) == 3
    ensures LeadsAt(code, i, x) && |Lead(x)| == 3
  {
    hide Masked, LeadsAt;
    var b0: nat, b1: nat, b2: nat := code[i], code[i + 1], code[i + 2];
    if b0 == 0x64 {
      x := StoreThreadField;
    } else if b0 == 0x0F {
      DisplacementMode(b2);
      x := Extending(b1, (b2 - 0x80) / 8);
    } else {
      TableMode(b1);
      NoBase(b2);
      x := Indexed(b0, b1 / 8, b2 / 64, b2 / 8 % 8);
    }
    LeadIsHere(code, i, x);
  }

  lemma {:induction false} RecognisedLead(code: seq<byte>, i: nat) returns (x: Instruction)
    requires i < |code| && OperandOffset(code, i) > 0
    ensures LeadsAt(code, i, x) && |Lead(x)| == OperandOffset(code, i)
  {
    hide Masked;
    var b0: nat, b1: nat := code[i], code[i + 1];
    if OperandOffset(code, i) == 1 {
      x := if b0 == 0x68 then Push else if b0 == 0xA1 then LoadAccumulator else if b0 == 0xA3 then StoreAccumulator
           else MoveImmediate(b0 - 0xB8);
    } else if OperandOffset(code, i) == 2 {
      AddressMode(b1);
      x := if b0 == 0x64 then LoadThreadField else Plain(b0, b1 / 8);
    } else {
      x := RecognisedLongLead(code, i);
    }
  }

  /** The matcher recognises an operand `k` bytes into the code at `i` if and only if an encoded
      instruction stands there whose operand is its last four bytes, `k` bytes in. */
  lemma {:induction false} RecognisedIffEncoded(code: seq<byte>, i: nat, k: nat)
    requires i < |code| && k > 0
    ensures OperandOffset(code, i) == k <==>
            exists x, operand :: StandsAt(code, i, x, operand) && |Encode(x, operand)| == k + 4
  {
    hide OperandOffset, Lead, Encodable, LoadU32;
    if OperandOffset(code, i) == k {
      var x := RecognisedLead(code, i);
      StandsIffLeads(code, i, x, LoadU32(code, i + k));
      assert StandsAt(code, i, x, LoadU32(code, i + k));
    }
    if x, operand :| StandsAt(code, i, x, operand) && |Encode(x, operand)| == k + 4 {
      StandsIffLeads(code, i, x, operand);
      LeadIsRecognised(code, i, x);
    }
  }
}
