/**
 * The symbol table of one assembly run: a map from symbol names to
 * addresses, seeded with the predefined symbols, plus the counter of
 * variables allocated so far.
 */
module Symbols {
  import opened Results
  import opened Binary
  import opened Decimal

  /** The first RAM address handed to a variable. */
  const VariableStart: nat := 16

  /** The value of a symbol table: its entries and the number of variables allocated so far. */
  datatype Table = Table(entries: map<string, nat>, variables: nat)

  /** The 23 symbols every run starts with. */
  function Predefined(): map<string, nat> {
    map[
      "R0" := 0, "R1" := 1, "R2" := 2, "R3" := 3,
      "R4" := 4, "R5" := 5, "R6" := 6, "R7" := 7,
      "R8" := 8, "R9" := 9, "R10" := 10, "R11" := 11,
      "R12" := 12, "R13" := 13, "R14" := 14, "R15" := 15,
      "SP" := 0, "LCL" := 1, "ARG" := 2, "THIS" := 3, "THAT" := 4,
      "SCREEN" := 16384, "KBD" := 24576
    ]
  }

  function Initial(): Table {
    Table(Predefined(), 0)
  }

  /** The name of register i, R0 to R15. */
  function RegisterName(i: nat): (name: string)
    requires i < 16
    ensures 2 <= |name| && name[0] == 'R' && (|name| == 2 <==> i < 10)
  {
    if i < 10 then "R" + [DigitChar(i)] else "R1" + [DigitChar(i - 10)]
  }

  /** A register name is "R" followed by the decimal form of its number. */
  lemma RegisterNameDecimal(i: nat)
    requires i < 16
    ensures RegisterName(i) == "R" + ValueOf(i)
  {
    if 10 <= i {
      assert ValueOf(i) == ValueOf(1) + [DigitChar(i - 10)];
    }
  }

  /** The segment registers SP, LCL, ARG, THIS and THAT, in the order they alias R0..R4. */
  const Segments: seq<string> := ["SP", "LCL", "ARG", "THIS", "THAT"]

  /** Every address of t that fits the 15-bit address field of an A-instruction. */
  ghost predicate AllFit(m: map<string, nat>) {
    forall k :: k in m ==> m[k] < Pow2(15)
  }

  /** The names R0..R15. */
  ghost function RegisterNames(): set<string> {
    set i | 0 <= i < 16 :: RegisterName(i)
  }

  /**
   * The predefined symbols are R0..R15 at 0..15, SP, LCL, ARG, THIS and THAT
   * at 0..4, SCREEN at 16384 and KBD at 24576.
   */
  lemma PredefinedSymbols()
    ensures forall i :: 0 <= i < 16 ==> RegisterName(i) in Predefined() && Predefined()[RegisterName(i)] == i
    ensures forall j :: 0 <= j < 5 ==> Segments[j] in Predefined() && Predefined()[Segments[j]] == j
    ensures "SCREEN" in Predefined() && Predefined()["SCREEN"] == 16384
    ensures "KBD" in Predefined() && Predefined()["KBD"] == 24576
  {
    PredefinedRegisters();
    PredefinedSegments();
  }

  lemma PredefinedRegisters()
    ensures forall i :: 0 <= i < 16 ==> RegisterName(i) in Predefined() && Predefined()[RegisterName(i)] == i
  {
    forall i | 0 <= i < 16
      ensures RegisterName(i) in Predefined() && Predefined()[RegisterName(i)] == i
    {
      RegisterNameAt(i);
    }
  }

  lemma PredefinedSegments()
    ensures forall j :: 0 <= j < 5 ==> Segments[j] in Predefined() && Predefined()[Segments[j]] == j
  {
  }

  lemma RegisterNameAt(i: nat)
    requires i < 16
    ensures RegisterName(i) == [
      "R0", "R1", "R2", "R3", "R4", "R5", "R6", "R7",
      "R8", "R9", "R10", "R11", "R12", "R13", "R14", "R15"][i]
  {
    if i < 10 {
      assert RegisterName(i) == ['R', DigitChar(i)];
    } else {
      assert RegisterName(i) == ['R', '1', DigitChar(i - 10)];
    }
  }

  /** A fresh table holds those 23 symbols and nothing else. */
  lemma PredefinedOnly()
    ensures Predefined().Keys == RegisterNames() + (set j | 0 <= j < 5 :: Segments[j]) + {"SCREEN", "KBD"}
  {
    RegisterNamesListed();
    assert Segments[0] == "SP" && Segments[1] == "LCL" && Segments[2] == "ARG" && Segments[3] == "THIS" && Segments[4] == "THAT";
  }

  /** Every predefined address fits an A-instruction. */
  lemma PredefinedFit()
    ensures AllFit(Predefined())
  {
  }

  lemma RegisterNamesListed()
    ensures RegisterNames() == {
      "R0", "R1", "R2", "R3", "R4", "R5", "R6", "R7",
      "R8", "R9", "R10", "R11", "R12", "R13", "R14", "R15"}
  {
    assert RegisterName(0) == "R0" && RegisterName(1) == "R1" && RegisterName(2) == "R2" && RegisterName(3) == "R3";
    assert RegisterName(4) == "R4" && RegisterName(5) == "R5" && RegisterName(6) == "R6" && RegisterName(7) == "R7";
    assert RegisterName(8) == "R8" && RegisterName(9) == "R9" && RegisterName(10) == "R10" && RegisterName(11) == "R11";
    assert RegisterName(12) == "R12" && RegisterName(13) == "R13" && RegisterName(14) == "R14" && RegisterName(15) == "R15";
  }

  /** t2 keeps every entry of t1 at the same address. */
  ghost predicate Extends(t1: Table, t2: Table) {
    forall k :: k in t1.entries ==> k in t2.entries && t2.entries[k] == t1.entries[k]
  }

  /** HashMap.put: bind name to address, overwriting any earlier binding. */
  function Bind(t: Table, name: string, address: nat): (r: Table)
    ensures name in r.entries && r.entries[name] == address
    ensures forall k :: k in t.entries && k != name ==> k in r.entries && r.entries[k] == t.entries[k]
    ensures r.entries.Keys == t.entries.Keys + {name} && r.variables == t.variables
  {
    t.(entries := t.entries[name := address])
  }

  /**
   * The address of a symbol in an A-instruction: its stored address when it
   * is known; otherwise the next variable address 16 + n, which is recorded
   * and the variable counter n moved on by one.
   */
  function Resolve(t: Table, symbol: string): (r: (nat, Table))
    ensures symbol in r.1.entries && r.1.entries[symbol] == r.0
    ensures Extends(t, r.1)
    ensures symbol in t.entries ==> r.0 == t.entries[symbol] && r.1 == t
    ensures symbol !in t.entries ==>
      && r.0 == VariableStart + t.variables
      && r.1.variables == t.variables + 1
      && r.1.entries.Keys == t.entries.Keys + {symbol}
  {
    if symbol in t.entries then (t.entries[symbol], t)
    else
      var address := VariableStart + t.variables;
      (address, Table(t.entries[symbol := address], t.variables + 1))
  }

  /** The mutable symbol table and variable counter one run owns. */
  class SymbolTable {
    var entries: map<string, nat>
    var variables: nat

    function State(): Table
      reads this
    {
      Table(entries, variables)
    }

    /** A fresh table holds exactly the predefined symbols and no variables. */
    constructor ()
      ensures State() == Initial()
    {
      entries := Predefined();
      variables := 0;
    }

    method Lookup(name: string) returns (address: Option<nat>)
      ensures address.Some? <==> name in entries
      ensures address.Some? ==> address.value == entries[name]
    {
      if name in entries {
        address := Some(entries[name]);
      } else {
        address := None;
      }
    }

    method Put(name: string, address: nat)
      modifies this
      ensures State() == Bind(old(State()), name, address)
    {
      entries := entries[name := address];
    }

    /** Resolve a symbol, allocating it as a new variable when it is unknown. */
    method ResolveSymbol(symbol: string) returns (address: nat)
      modifies this
      ensures (address, State()) == Resolve(old(State()), symbol)
    {
      var known := Lookup(symbol);
      if known.None? {
        address := VariableStart + variables;
        entries := entries[symbol := address];
        variables := variables + 1;
      } else {
        address := known.value;
      }
    }
  }
}
