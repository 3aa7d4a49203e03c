/**
 * The instruction encoder of the S12 assembler: a mnemonic and an `int`
 * operand become a 4-bit opcode, a space and the operand's low eight bits,
 * written as binary digits.
 */
module Encoder {
  import opened Wrappers
  import opened Text

  /** Why a run aborts: an unknown mnemonic, or an operand token Integer.parseInt rejects. */
  datatype Error = UnknownInstruction(mnemonic: string) | MalformedOperand(token: string)

  /** The message of the exception, as the run reports it after "Error: ". */
  function Message(e: Error): (msg: string)
    ensures e.UnknownInstruction? ==> msg == "Unknown instruction: " + e.mnemonic
  {
    match e
    case UnknownInstruction(m) => "Unknown instruction: " + m
    case MalformedOperand(t) => "For input string: \"" + t + "\" under radix 16"
  }

  /** The twelve mnemonics of the instruction set. */
  const Mnemonics: set<string> :=
    {"JMP", "JN", "JZ", "LOAD", "STORE", "LOADI", "STOREI", "AND", "OR", "ADD", "SUB", "HALT"}

  /** The opcode table: the 4-bit pattern of each mnemonic. */
  function OpcodeOf(m: string): (r: Option<string>)
    ensures r.Some? <==> m in Mnemonics
    ensures r.Some? ==> |r.value| == 4 && IsBinary(r.value)
    ensures r == Some("1111") <==> m == "HALT"
  {
    if m == "JMP" then Some("0000")
    else if m == "JN" then Some("0001")
    else if m == "JZ" then Some("0010")
    else if m == "LOAD" then Some("0100")
    else if m == "STORE" then Some("0101")
    else if m == "LOADI" then Some("0110")
    else if m == "STOREI" then Some("0111")
    else if m == "AND" then Some("1000")
    else if m == "OR" then Some("1001")
    else if m == "ADD" then Some("1010")
    else if m == "SUB" then Some("1011")
    else if m == "HALT" then Some("1111")
    else None
  }

  /** The opcode table read backwards: the mnemonic a 4-bit pattern stands for. */
  function MnemonicOf(opcode: string): (r: Option<string>)
    ensures r.Some? ==> r.value in Mnemonics && OpcodeOf(r.value) == Some(opcode)
  {
    if opcode == "0000" then Some("JMP")
    else if opcode == "0001" then Some("JN")
    else if opcode == "0010" then Some("JZ")
    else if opcode == "0100" then Some("LOAD")
    else if opcode == "0101" then Some("STORE")
    else if opcode == "0110" then Some("LOADI")
    else if opcode == "0111" then Some("STOREI")
    else if opcode == "1000" then Some("AND")
    else if opcode == "1001" then Some("OR")
    else if opcode == "1010" then Some("ADD")
    else if opcode == "1011" then Some("SUB")
    else if opcode == "1111" then Some("HALT")
    else None
  }

  lemma OpcodeTableInverse(m: string)
    requires m in Mnemonics
    ensures MnemonicOf(OpcodeOf(m).value) == Some(m)
  {
  }

  /** Distinct mnemonics have distinct opcodes. */
  lemma OpcodeTableInjective(a: string, b: string)
    requires a in Mnemonics && b in Mnemonics && OpcodeOf(a) == OpcodeOf(b)
    ensures a == b
  {
    OpcodeTableInverse(a);
    OpcodeTableInverse(b);
  }

  /** `operand & 0xFF` on a two's-complement `int`. */
  function LowByte(operand: int32): (b: nat)
    ensures b < 256 && (operand as int - b) % 256 == 0
  {
    operand as int % 256
  }

  /**
   * String.format("%8s", Integer.toBinaryString(v)).replace(' ', '0'):
   * exactly eight binary digits whose value is `v`.
   */
  function OperandBits(v: nat): (r: string)
    requires v < 256
    ensures |r| == 8 && IsBinary(r) && BinaryValue(r) == v
  {
    var b := ToBinaryString(v);
    ToBinaryStringShort(v, 8);
    ToBinaryStringValue(v);
    PadWithZeros(b, 8);
    Replace(PadLeft(b, 8), ' ', '0')
  }

  /** The eight digits are Integer.toBinaryString's digits behind leading zeros. */
  lemma OperandBitsDigits(v: nat)
    requires v < 256
    ensures |ToBinaryString(v)| <= 8
    ensures OperandBits(v) == Repeat('0', 8 - |ToBinaryString(v)|) + ToBinaryString(v)
  {
    ToBinaryStringShort(v, 8);
    PadWithZeros(ToBinaryString(v), 8);
  }

  /**
   * assemble: the opcode, a space and eight binary digits; HALT ignores its
   * operand and always pads with zeros; an unknown mnemonic aborts.
   */
  function Assemble(instruction: string, operand: int32): (r: Result<string, Error>)
    ensures r.Failure? <==> instruction !in Mnemonics
    ensures r.Failure? ==> r.error == UnknownInstruction(instruction)
    ensures instruction == "HALT" ==> r == Success("1111 00000000")
    ensures r.Success? ==> |r.value| == 13 && r.value[4] == ' ' && IsBinary(r.value[5..])
                           && Some(r.value[..4]) == OpcodeOf(instruction)
    ensures r.Success? && instruction != "HALT" ==> BinaryValue(r.value[5..]) == LowByte(operand)
  {
    match OpcodeOf(instruction)
    case None => Failure(UnknownInstruction(instruction))
    case Some(opcode) =>
      var bits := if instruction == "HALT" then "00000000" else OperandBits(LowByte(operand));
      var rec := opcode + " " + bits;
      assert rec[..4] == opcode && rec[5..] == bits;
      assert instruction == "HALT" ==> rec == "1111 00000000";
      Success(rec)
  }

  /** For a table mnemonic other than HALT the record is the opcode, a space and the operand's low byte in binary. */
  lemma AssembleOperand(instruction: string, operand: int32)
    requires instruction in Mnemonics && instruction != "HALT"
    ensures Assemble(instruction, operand) == Success(OpcodeOf(instruction).value + " " + OperandBits(LowByte(operand)))
  {
  }

  /** Reads an encoded record back into its mnemonic and operand byte. */
  function Decode(record: string): (r: Option<(string, nat)>)
    ensures r.Some? ==> r.value.0 in Mnemonics && r.value.1 < 256
  {
    if |record| == 13 && record[4] == ' ' && IsBinary(record[5..]) then
      match MnemonicOf(record[..4])
      case None => None
      case Some(m) =>
        var v := BinaryValue(record[5..]);
        if v < 256 then Some((m, v)) else None
    else None
  }

  lemma {:induction false} BinaryValueBound(bs: string)
    requires IsBinary(bs)
    ensures BinaryValue(bs) < Pow2(|bs|)
    decreases |bs|
  {
    if bs != [] {
      BinaryValueBound(bs[..|bs| - 1]);
    }
  }

  /** Decoding undoes encoding: the mnemonic and the operand's low byte come back (zero for HALT). */
  lemma AssembleDecodes(instruction: string, operand: int32)
    requires instruction in Mnemonics
    ensures Decode(Assemble(instruction, operand).value)
            == Some((instruction, if instruction == "HALT" then 0 else LowByte(operand)))
  {
    var rec := Assemble(instruction, operand).value;
    OpcodeTableInverse(instruction);
    BinaryValueBound(rec[5..]);
    assert Pow2(8) == 256;
    if instruction == "HALT" {
      assert rec[5..] == "00000000";
      ZerosValue(8);
      assert Repeat('0', 8) == "00000000";
    }
  }

  /**
   * Only the low eight bits of the operand matter: two operands give the same
   * record exactly when they agree modulo 256 (HALT ignores its operand).
   */
  lemma AssembleLowByteOnly(instruction: string, x: int32, y: int32)
    requires instruction in Mnemonics && instruction != "HALT"
    ensures Assemble(instruction, x) == Assemble(instruction, y) <==> x as int % 256 == y as int % 256
  {
    if Assemble(instruction, x) == Assemble(instruction, y) {
      AssembleDecodes(instruction, x);
      AssembleDecodes(instruction, y);
    }
  }

  lemma HaltIgnoresOperand(x: int32, y: int32)
    ensures Assemble("HALT", x) == Assemble("HALT", y) == Success("1111 00000000")
  {
  }

  /** Worked cases: 0x100 encodes like 0, and -1 like 0xFF. */
  lemma MaskingExamples()
    ensures Assemble("JMP", 0x100) == Assemble("JMP", 0)
    ensures Assemble("LOAD", -1) == Assemble("LOAD", 0xFF)
  {
    AssembleLowByteOnly("JMP", 0x100, 0);
    AssembleLowByteOnly("LOAD", -1, 0xFF);
  }

  lemma UnknownExample()
    ensures Assemble("FOO", 1) == Failure(UnknownInstruction("FOO"))
  {
    assert "FOO" !in Mnemonics;
  }
}
