/**
 * The A-instruction encoder (AInstructionParser.parseLine): "@" and a
 * decimal literal or a symbol becomes "0" followed by the address in 15
 * bits; an unknown symbol is allocated as the next variable.
 */
module AInstructions {
  import opened Results
  import opened Binary
  import opened Decimal
  import opened Symbols
  import opened Text

  /** A_INSTRUCTION_PREFIX. */
  const Prefix: string := "0"

  /** The width of the address field. */
  const AddressWidth: nat := 15

  lemma Pow2Of15()
    ensures Pow2(AddressWidth) == 32768
  {
    assert Pow2(8) == 256;
  }

  /** The word for an address: the prefix and hexToBinary(address, 15). */
  function AWord(value: int): Result<string>
    requires IntMin <= value
  {
    var bits :- Padded(value, AddressWidth);
    Ok(Prefix + bits)
  }

  /**
   * An address has a word exactly when it lies in 0..32767; that word is
   * sixteen bits, starts with 0 and reads back as the address. Any other
   * value, negative ones included, is a range error.
   */
  lemma AWordCorrect(value: int)
    requires IntMin <= value
    ensures AWord(value).Ok? <==> 0 <= value < 32768
    ensures AWord(value).Ok? ==>
      var w := AWord(value).value;
      IsWord(w) && w[0] == '0' && Value(w) == value
    ensures AWord(value).Err? ==> AWord(value).error == Range(value)
  {
    Pow2Of15();
    PaddedCorrect(value, AddressWidth);
    if Padded(value, AddressWidth).Ok? {
      LeadingZeroKeepsValue(Padded(value, AddressWidth).value);
    }
  }

  /** The text after "@": line.replace("@", ""), so every '@' goes, not just the first. */
  function SymbolOf(line: string): string {
    RemoveAll(line, '@')
  }

  /**
   * parseLine on a table: a token Integer.parseInt accepts is the address
   * itself and leaves the table as it was; any other token is resolved in
   * the table, which may allocate it as a variable. The table is updated
   * before the range check, as in the source.
   */
  function AInstruction(t: Table, line: string): (Result<string>, Table) {
    var located := Locate(t, SymbolOf(line));
    (AWord(located.0), located.1)
  }

  /** The address of a token and the table after it: a literal as such, a symbol resolved. */
  function Locate(t: Table, symbol: string): (r: (int, Table))
    ensures IntMin <= r.0
  {
    var literal := ParseInt(symbol);
    if literal.Some? then (literal.value, t) else Resolve(t, symbol)
  }

  /** The address an A-instruction denotes: the literal, or the symbol's entry in the new table. */
  function AddressOf(t: Table, line: string): (a: int)
    ensures IntMin <= a
  {
    Locate(t, SymbolOf(line)).0
  }

  /**
   * The address of a token does not change once the token has been located:
   * any table that keeps the entries of the table after it gives the same
   * address again.
   */
  lemma LocateStable(t: Table, symbol: string, t': Table)
    requires Extends(Locate(t, symbol).1, t')
    ensures Locate(t', symbol).0 == Locate(t, symbol).0
  {
  }

  /**
   * A literal leaves the table and the counter unchanged, and so does a known
   * symbol; an unknown one gets address 16 + n and moves the counter on by one.
   */
  lemma AInstructionTable(t: Table, line: string)
    ensures var symbol := SymbolOf(line);
      var t' := AInstruction(t, line).1;
      && Extends(t, t')
      && (ParseInt(symbol).Some? || symbol in t.entries ==> t' == t)
      && (ParseInt(symbol).None? && symbol !in t.entries ==>
            && t'.variables == t.variables + 1
            && t'.entries.Keys == t.entries.Keys + {symbol}
            && AddressOf(t, line) == VariableStart + t.variables)
      && (ParseInt(symbol).None? ==> symbol in t'.entries && t'.entries[symbol] == AddressOf(t, line))
  {
  }

  /**
   * An A-instruction succeeds exactly when its address lies in 0..32767, and
   * then gives a sixteen-bit word starting with 0 whose value is the address.
   */
  lemma AInstructionWord(t: Table, line: string)
    ensures var r := AInstruction(t, line).0;
      var a := AddressOf(t, line);
      && (r.Ok? <==> 0 <= a < 32768)
      && (r.Ok? ==> IsWord(r.value) && r.value[0] == '0' && Value(r.value) == a)
      && (r.Err? ==> r.error == Range(a))
  {
    AWordCorrect(AddressOf(t, line));
  }

  /** "@" followed by a token without '@' has that token as its symbol. */
  lemma SymbolAfterAt(token: string)
    requires '@' !in token
    ensures SymbolOf("@" + token) == token
  {
    RemoveAllAppend("@", token, '@');
  }

  /** Integer.parseInt accepts a sign, so "@-n" is a literal, and it does not fit. */
  lemma NegativeLiteral(t: Table, n: nat)
    requires 1 <= n <= -IntMin
    ensures AInstruction(t, "@" + ("-" + ValueOf(n))) == (Err(Range(0 - n)), t)
  {
    var token := "-" + ValueOf(n);
    assert token[1..] == ValueOf(n);
    SymbolAfterAt(token);
    ParseNegative(n);
    AWordCorrect(0 - n);
  }

  /** A literal that fits an int is used directly: "@n" addresses n and leaves the table alone. */
  lemma DecimalLiteral(t: Table, n: nat)
    requires n <= IntMax
    ensures AInstruction(t, "@" + ValueOf(n)) == (AWord(n), t)
  {
    SymbolAfterAt(ValueOf(n));
    ParseValueOf(n);
  }

  /** @32768 is one past the largest address: a range error. */
  lemma OverflowLiteral(t: Table)
    ensures AInstruction(t, "@" + ValueOf(32768)) == (Err(Range(32768)), t)
  {
    DecimalLiteral(t, 32768);
    AWordCorrect(32768);
  }

  /** @0 is the all-zero word. */
  lemma ZeroWord()
    ensures AWord(0) == Ok("0000000000000000")
  {
    AWordCorrect(0);
    assert "0000000000000000" == Zeros(16);
    ZerosKeepValue(16, []);
    assert Zeros(16) + [] == Zeros(16);
    ValueInjective(AWord(0).value, Zeros(16));
  }

  lemma ScreenBits()
    ensures IsBinary("01" + Zeros(14)) && |"01" + Zeros(14)| == 16 && Value("01" + Zeros(14)) == 16384
  {
    TrailingZeros("01", 14);
    assert Value("01") == 1 by {
      assert "01"[..1] == "0";
    }
    assert Pow2(7) == 128;
  }

  /** The word for SCREEN's address 16384 = 2^14. */
  lemma ScreenWord()
    ensures AWord(16384) == Ok("0100000000000000")
  {
    AWordCorrect(16384);
    var w := AWord(16384).value;
    ScreenBits();
    ValueInjective(w, "01" + Zeros(14));
    ScreenText();
  }

  lemma ScreenText()
    ensures "01" + Zeros(14) == "0100000000000000"
  {
  }

  /** @0 on any table. */
  lemma AtZero(t: Table)
    ensures AInstruction(t, "@0") == (Ok("0000000000000000"), t)
  {
    assert ValueOf(0) == "0";
    DecimalLiteral(t, 0);
    ZeroWord();
  }

  /** @SCREEN on a fresh table addresses the screen and allocates nothing. */
  lemma AtScreen()
    ensures AInstruction(Initial(), "@SCREEN") == (Ok("0100000000000000"), Initial())
  {
    SymbolAfterAt("SCREEN");
    assert "@" + "SCREEN" == "@SCREEN";
    ParseName("SCREEN");
    PredefinedSymbols();
    ScreenWord();
  }

  /** A method over the mutable table, as parseLine runs. */
  method ParseAInstruction(line: string, st: SymbolTable) returns (r: Result<string>)
    modifies st
    ensures (r, st.State()) == AInstruction(old(st.State()), line)
  {
    var symbol := SymbolOf(line);
    var literal := ParseInt(symbol);
    var address: int;
    if literal.Some? {
      address := literal.value;
    } else {
      address := st.ResolveSymbol(symbol);
    }
    var bits := HexToBinary(address, AddressWidth);
    if bits.Err? {
      return Err(bits.error);
    }
    return Ok(Prefix + bits.value);
  }
}
