/** Worked cases of operand parsing and of a whole run. */
module AssemblerExamples {
  import opened Wrappers
  import opened Text
  import opened Encoder
  import opened Assembler

  // ---------------------------------------------------------------------------
  // Operands: Integer.parseInt(s, 16)
  // ---------------------------------------------------------------------------

  lemma Hex0A()
    ensures ParseInt16("0A") == Some(10)
  {
    assert "0A"[..1] == "0" && "0"[..0] == "";
  }

  lemma HexLowerCase()
    ensures ParseInt16("ff") == Some(255)
  {
    assert "ff"[..1] == "f" && "f"[..0] == "";
  }

  /** A leading minus sign is accepted: "-1" reads as -1, which the encoder masks to 0xFF. */
  lemma HexMinusOne()
    ensures ParseInt16("-1") == Some(-1)
  {
    assert "-1"[1..] == "1" && "1"[..0] == "";
  }

  /** A C-style prefix is not part of the syntax: "0x10" is malformed. */
  lemma HexPrefixRejected()
    ensures ParseInt16("0x10") == None
  {
    assert !IsHexDigit("0x10"[1]);
  }

  lemma HexNotDigits()
    ensures ParseInt16("ZZ") == None
  {
    assert !IsHexDigit("ZZ"[0]);
  }

  /** A sign alone has no digits. */
  lemma HexSignOnly()
    ensures ParseInt16("+") == None
  {
    assert "+"[1..] == [];
  }

  // ---------------------------------------------------------------------------
  // Addresses: String.format("%02X", lineNumber)
  // ---------------------------------------------------------------------------

  lemma AddressOne()
    ensures FormatHex2(1) == "01"
  {
  }

  lemma AddressTen()
    ensures FormatHex2(10) == "0A"
  {
  }

  /** Line 256 gets a three-digit address: the field widens rather than wrapping to "00". */
  lemma AddressWidens()
    ensures FormatHex2(0x100) == "100"
  {
  }

  // ---------------------------------------------------------------------------
  // Whole runs
  // ---------------------------------------------------------------------------

  /** An empty file yields the header record alone. */
  lemma EmptyFile()
    ensures Translation([]) == Output([Header], None)
  {
  }
}
