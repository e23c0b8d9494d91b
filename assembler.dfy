/**
 * The two-pass driver: getParser chooses an encoder by the first character
 * of a line, preHandleSymbol binds the labels, and the second pass encodes
 * every line that is not a label, in order, on one symbol table.
 */
module Assembler {
  import opened Results
  import opened Binary
  import opened Symbols
  import opened Text
  import opened AInstructions
  import opened CInstructions
  import opened Decimal

  /** Which parser getParser hands a line to. */
  datatype Kind = Address | Label | Compute

  function Classify(line: string): Kind {
    if |line| > 0 && line[0] == '@' then Address
    else if |line| > 0 && line[0] == '(' then Label
    else Compute
  }

  /** The name a label line binds: the line with every '(' and ')' removed. */
  function LabelName(line: string): string {
    RemoveAll(RemoveAll(line, '('), ')')
  }

  /** line is a label line binding name. */
  predicate Declares(line: string, name: string) {
    Classify(line) == Label && LabelName(line) == name
  }

  /** The lines that become instructions, in order. */
  function Code(lines: seq<string>): (code: seq<string>)
    ensures |code| <= |lines|
    ensures forall k :: 0 <= k < |code| ==> Classify(code[k]) != Label
  {
    if lines == [] then []
    else if Classify(lines[0]) == Label then Code(lines[1..])
    else [lines[0]] + Code(lines[1..])
  }

  /** One line is kept exactly when it is no label. */
  lemma CodeOne(line: string)
    ensures Code([line]) == if Classify(line) == Label then [] else [line]
  {
    assert [line][1..] == [];
  }

  lemma {:induction false} CodeAppend(a: seq<string>, b: seq<string>)
    ensures Code(a + b) == Code(a) + Code(b)
  {
    if a != [] {
      var ab := a + b;
      assert ab[0] == a[0] && ab[1..] == a[1..] + b;
      CodeAppend(a[1..], b);
      if Classify(a[0]) != Label {
        calc {
          Code(ab);
          [a[0]] + Code(a[1..] + b);
          [a[0]] + (Code(a[1..]) + Code(b));
          ([a[0]] + Code(a[1..])) + Code(b);
        }
      }
    } else {
      assert a + b == b;
    }
  }

  // ---------------------------------------------------------------------
  // Pass 1: labels

  /**
   * The entries after the label pass: every label line, in order, bound to
   * the number of instruction lines before it, a later binding of a name
   * replacing an earlier one.
   */
  function BindLabels(entries: map<string, nat>, lines: seq<string>): map<string, nat>
    decreases |lines|
  {
    if lines == [] then entries
    else
      var before := lines[..|lines| - 1];
      var last := lines[|lines| - 1];
      var m := BindLabels(entries, before);
      if Classify(last) == Label then m[LabelName(last) := |Code(before)|] else m
  }

  /** A label name gets the position of the instruction after its last declaration. */
  lemma {:induction false} LabelAddress(entries: map<string, nat>, lines: seq<string>, name: string, j: nat)
    requires j < |lines| && Declares(lines[j], name)
    requires forall j' :: j < j' < |lines| ==> !Declares(lines[j'], name)
    ensures name in BindLabels(entries, lines) && BindLabels(entries, lines)[name] == |Code(lines[..j])|
    decreases |lines|
  {
    var n := |lines| - 1;
    var before := lines[..n];
    if j < n {
      assert forall j' :: j < j' < n ==> before[j'] == lines[j'];
      LabelAddress(entries, before, name, j);
      assert before[..j] == lines[..j];
      assert !Declares(lines[n], name);
    }
  }

  /** A name no label declares keeps its entry, or stays absent. */
  lemma {:induction false} LabelAbsent(entries: map<string, nat>, lines: seq<string>, name: string)
    requires forall j :: 0 <= j < |lines| ==> !Declares(lines[j], name)
    ensures name in BindLabels(entries, lines) <==> name in entries
    ensures name in entries ==> BindLabels(entries, lines)[name] == entries[name]
    decreases |lines|
  {
    if lines != [] {
      var n := |lines| - 1;
      var before := lines[..n];
      assert forall j :: 0 <= j < n ==> before[j] == lines[j];
      LabelAbsent(entries, before, name);
      assert !Declares(lines[n], name);
    }
  }

  /** The label pass only binds label names: every other key keeps its entry. */
  lemma {:induction false} BindLabelsKeys(entries: map<string, nat>, lines: seq<string>)
    ensures BindLabels(entries, lines).Keys ==
      entries.Keys + set j | 0 <= j < |lines| && Classify(lines[j]) == Label :: LabelName(lines[j])
    decreases |lines|
  {
    if lines != [] {
      var n := |lines| - 1;
      var before := lines[..n];
      BindLabelsKeys(entries, before);
      var names := set j | 0 <= j < |lines| && Classify(lines[j]) == Label :: LabelName(lines[j]);
      var namesBefore := set j | 0 <= j < n && Classify(before[j]) == Label :: LabelName(before[j]);
      assert forall j :: 0 <= j < n ==> before[j] == lines[j];
      if Classify(lines[n]) == Label {
        assert names == namesBefore + {LabelName(lines[n])};
      } else {
        assert names == namesBefore;
      }
    }
  }

  /** preHandleSymbol: the label pass over the table; it never allocates a variable. */
  method PreHandleSymbol(lines: seq<string>, st: SymbolTable)
    modifies st
    ensures st.entries == BindLabels(old(st.entries), lines)
    ensures st.variables == old(st.variables)
  {
    var count := 0;
    for i := 0 to |lines|
      invariant st.entries == BindLabels(old(st.entries), lines[..i])
      invariant st.variables == old(st.variables)
      invariant count + |Code(lines[..i])| == i
    {
      assert lines[..i + 1] == lines[..i] + [lines[i]];
      assert lines[..i + 1][..i] == lines[..i];
      CodeAppend(lines[..i], [lines[i]]);
      assert Code([lines[i]]) == if Classify(lines[i]) == Label then [] else [lines[i]];
      if Classify(lines[i]) == Label {
        var symbol := LabelName(lines[i]);
        st.Put(symbol, i - count);
        count := count + 1;
      }
    }
    assert lines[..|lines|] == lines;
  }

  // ---------------------------------------------------------------------
  // Pass 2: encoding

  /** getParser(line).parseLine(line) for an instruction line. */
  function Encode(t: Table, line: string): (Result<string>, Table) {
    if Classify(line) == Address then AInstruction(t, line) else (ParseCInstruction(line), t)
  }

  /**
   * The second pass from table t: label lines are skipped, every other line
   * is encoded in order and the first failure ends the run.
   */
  function Pass2(t: Table, lines: seq<string>): Result<(seq<string>, Table)>
    decreases |lines|
  {
    if lines == [] then Ok(([], t))
    else if Classify(lines[0]) == Label then Pass2(t, lines[1..])
    else
      var (w, t1) := Encode(t, lines[0]);
      if w.Err? then Err(w.error)
      else
        var rest :- Pass2(t1, lines[1..]);
        Ok(([w.value] + rest.0, rest.1))
  }

  /** The whole translation of prepared lines: the label pass on the predefined table, then pass 2. */
  function Translate(lines: seq<string>): Result<seq<string>> {
    var r :- Pass2(Table(BindLabels(Predefined(), lines), 0), lines);
    Ok(r.0)
  }

  /** The whole run of main on the lines of a file. */
  function AssembleFile(raw: seq<string>): Result<seq<string>> {
    Translate(Prepare(raw))
  }

  /**
   * The word an instruction line gives: sixteen bits, starting with 0 for an
   * A-instruction and with 1 otherwise; a C-instruction's word is what its
   * encoder gives.
   */
  predicate WordFor(word: string, line: string) {
    && IsWord(word)
    && (word[0] == '0' <==> Classify(line) == Address)
    && (Classify(line) == Compute ==> ParseCInstruction(line) == Ok(word))
  }

  lemma EncodeWord(t: Table, line: string)
    requires Classify(line) != Label
    ensures Encode(t, line).0.Ok? ==> WordFor(Encode(t, line).0.value, line)
  {
    if Classify(line) == Address {
      AInstructionWord(t, line);
    } else {
      ParseCWord(line);
    }
  }

  /** One word per line, each the word for its line. */
  predicate WordsFor(words: seq<string>, code: seq<string>) {
    |words| == |code| && forall k :: 0 <= k < |words| ==> WordFor(words[k], code[k])
  }

  lemma WordsForCons(word: string, line: string, words: seq<string>, code: seq<string>)
    requires WordFor(word, line) && WordsFor(words, code)
    ensures WordsFor([word] + words, [line] + code)
  {
    var ws, cs := [word] + words, [line] + code;
    forall k | 0 <= k < |ws|
      ensures WordFor(ws[k], cs[k])
    {
      if 0 < k {
        assert ws[k] == words[k - 1] && cs[k] == code[k - 1];
      }
    }
  }

  /** Pass 2 gives one word per instruction line, in order, each the word for its line. */
  lemma {:induction false} Pass2Shape(t: Table, lines: seq<string>)
    ensures Pass2(t, lines).Ok? ==> WordsFor(Pass2(t, lines).value.0, Code(lines))
    decreases |lines|
  {
    if lines != [] {
      var line := lines[0];
      if Classify(line) == Label {
        Pass2Shape(t, lines[1..]);
      } else {
        var e := Encode(t, line);
        Pass2Shape(e.1, lines[1..]);
        if Pass2(t, lines).Ok? {
          EncodeWord(t, line);
          var rest := Pass2(e.1, lines[1..]).value.0;
          assert Pass2(t, lines).value.0 == [e.0.value] + rest;
          WordsForCons(e.0.value, line, rest, Code(lines[1..]));
        }
      }
    }
  }

  /** One word per line, each A-instruction's word holding its address in table t. */
  predicate AddressesIn(words: seq<string>, code: seq<string>, t: Table) {
    && |words| == |code|
    && forall k :: 0 <= k < |words| && Classify(code[k]) == Address ==> Ok(words[k]) == AWord(AddressOf(t, code[k]))
  }

  lemma AddressesCons(word: string, line: string, words: seq<string>, code: seq<string>, t: Table)
    requires Classify(line) == Address ==> Ok(word) == AWord(AddressOf(t, line))
    requires AddressesIn(words, code, t)
    ensures AddressesIn([word] + words, [line] + code, t)
  {
    var ws, cs := [word] + words, [line] + code;
    forall k | 0 < k < |ws|
      ensures ws[k] == words[k - 1] && cs[k] == code[k - 1]
    {
    }
  }

  /** An A-instruction's word holds the address its token keeps in every later table. */
  lemma HeadAddress(t: Table, line: string, t': Table)
    requires Classify(line) == Address && Encode(t, line).0.Ok? && Extends(Encode(t, line).1, t')
    ensures Ok(Encode(t, line).0.value) == AWord(AddressOf(t', line))
  {
    LocateStable(t, SymbolOf(line), t');
  }

  /**
   * The word pass 2 gives an A-instruction holds that instruction's address:
   * the literal, or the address its symbol has in the table the pass ends
   * with (a label's position, a predefined address or its variable slot).
   */
  lemma {:induction false} Pass2Addresses(t: Table, lines: seq<string>)
    ensures Pass2(t, lines).Ok? ==> AddressesIn(Pass2(t, lines).value.0, Code(lines), Pass2(t, lines).value.1)
    decreases |lines|
  {
    if lines != [] {
      var line := lines[0];
      if Classify(line) == Label {
        Pass2Addresses(t, lines[1..]);
      } else {
        var e := Encode(t, line);
        Pass2Addresses(e.1, lines[1..]);
        Pass2Allocates(e.1, lines[1..]);
        if Pass2(t, lines).Ok? {
          var rest := Pass2(e.1, lines[1..]).value;
          assert Pass2(t, lines).value == ([e.0.value] + rest.0, rest.1);
          if Classify(line) == Address {
            HeadAddress(t, line, rest.1);
          }
          AddressesCons(e.0.value, line, rest.0, Code(lines[1..]), rest.1);
        }
      }
    }
  }

  /**
   * A successful translation gives one word per instruction line, in order:
   * each the word for its line, each A-instruction's word holding the address
   * of its token in the table pass 2 ends with, and that table is the label
   * table with variables allocated from 16 on.
   */
  lemma TranslateCorrect(lines: seq<string>)
    ensures var t0 := Table(BindLabels(Predefined(), lines), 0);
      Translate(lines).Ok? ==>
        && Pass2(t0, lines).Ok?
        && Translate(lines).value == Pass2(t0, lines).value.0
        && WordsFor(Translate(lines).value, Code(lines))
        && AddressesIn(Translate(lines).value, Code(lines), Pass2(t0, lines).value.1)
        && Allocates(t0, Pass2(t0, lines).value.1)
        && FirstUse(t0, Pass2(t0, lines).value.1, NewSymbols(t0.entries.Keys, Code(lines)))
  {
    var t0 := Table(BindLabels(Predefined(), lines), 0);
    Pass2Shape(t0, lines);
    Pass2Addresses(t0, lines);
    Pass2Allocates(t0, lines);
    Pass2FirstUse(t0, lines);
  }

  /**
   * What pass 2 does to the table: it keeps every entry and allocates
   * variables only; each new symbol lies in the block of addresses
   * allocated during the pass, and no two new symbols share an address.
   */
  ghost predicate Allocates(t: Table, t': Table) {
    && Extends(t, t')
    && t.variables <= t'.variables
    && (forall k :: k in t'.entries && k !in t.entries ==>
          VariableStart + t.variables <= t'.entries[k] < VariableStart + t'.variables)
    && (forall k1, k2 :: k1 in t'.entries && k1 !in t.entries && k2 in t'.entries && k2 !in t.entries && k1 != k2 ==>
          t'.entries[k1] != t'.entries[k2])
  }

  lemma AllocatesChain(t0: Table, t1: Table, t2: Table)
    requires Allocates(t0, t1) && Allocates(t1, t2)
    ensures Allocates(t0, t2)
  {
  }

  lemma EncodeAllocates(t: Table, line: string)
    ensures Allocates(t, Encode(t, line).1)
  {
    if Classify(line) == Address {
      AInstructionTable(t, line);
    }
  }

  lemma {:induction false} Pass2Allocates(t: Table, lines: seq<string>)
    ensures Pass2(t, lines).Ok? ==> Allocates(t, Pass2(t, lines).value.1)
    decreases |lines|
  {
    if lines != [] {
      if Classify(lines[0]) == Label {
        Pass2Allocates(t, lines[1..]);
      } else {
        var t1 := Encode(t, lines[0]).1;
        EncodeAllocates(t, lines[0]);
        Pass2Allocates(t1, lines[1..]);
        if Pass2(t, lines).Ok? {
          AllocatesChain(t, t1, Pass2(t1, lines[1..]).value.1);
        }
      }
    }
  }

  /** One C-instruction that does not encode makes the whole pass fail. */
  lemma {:induction false} BadInstructionFails(t: Table, lines: seq<string>, k: nat)
    requires k < |lines| && Classify(lines[k]) == Compute && ParseCInstruction(lines[k]).Err?
    ensures Pass2(t, lines).Err?
    decreases |lines|
  {
    if k > 0 {
      var t1 := if Classify(lines[0]) == Label then t else Encode(t, lines[0]).1;
      assert lines[1..][k - 1] == lines[k];
      BadInstructionFails(t1, lines[1..], k - 1);
    }
  }

  /** Likewise for an A-instruction whose literal lies outside 0..32767: its word does not fit. */
  lemma {:induction false} BadLiteralFails(t: Table, lines: seq<string>, k: nat, v: int)
    requires k < |lines| && Classify(lines[k]) == Address
    requires ParseInt(SymbolOf(lines[k])) == Some(v) && !(0 <= v < 32768)
    ensures Pass2(t, lines).Err?
    decreases |lines|
  {
    if k > 0 {
      var t1 := if Classify(lines[0]) == Label then t else Encode(t, lines[0]).1;
      assert lines[1..][k - 1] == lines[k];
      BadLiteralFails(t1, lines[1..], k - 1, v);
    } else {
      assert AddressOf(t, lines[0]) == v;
      AInstructionWord(t, lines[0]);
    }
  }

  /**
   * The symbols a run of instruction lines allocates, in order of first use:
   * the token of each A-instruction that is no number and not known yet.
   */
  function NewSymbols(known: set<string>, code: seq<string>): seq<string>
    decreases |code|
  {
    if code == [] then []
    else
      var symbol := SymbolOf(code[0]);
      if Classify(code[0]) == Address && ParseInt(symbol).None? && symbol !in known then
        [symbol] + NewSymbols(known + {symbol}, code[1..])
      else NewSymbols(known, code[1..])
  }

  /** The i-th new symbol holds the i-th variable address after those of t, and the counter counts them. */
  predicate FirstUse(t: Table, t': Table, symbols: seq<string>) {
    && t'.variables == t.variables + |symbols|
    && forall i :: 0 <= i < |symbols| ==>
         symbols[i] in t'.entries && t'.entries[symbols[i]] == VariableStart + t.variables + i
  }

  lemma FirstUseCons(t: Table, t1: Table, t': Table, symbol: string, symbols: seq<string>)
    requires t1.variables == t.variables + 1 && FirstUse(t1, t', symbols)
    requires symbol in t'.entries && t'.entries[symbol] == VariableStart + t.variables
    ensures FirstUse(t, t', [symbol] + symbols)
  {
    var s := [symbol] + symbols;
    forall i | 0 < i < |s|
      ensures s[i] == symbols[i - 1]
    {
    }
  }

  /**
   * Pass 2 allocates variables in order of first use: the i-th new symbol
   * gets address 16 + n + i, where n counts the variables allocated before,
   * and the counter grows by exactly the number of new symbols.
   */
  lemma {:induction false} Pass2FirstUse(t: Table, lines: seq<string>)
    ensures Pass2(t, lines).Ok? ==>
      FirstUse(t, Pass2(t, lines).value.1, NewSymbols(t.entries.Keys, Code(lines)))
    decreases |lines|
  {
    if lines != [] {
      var line := lines[0];
      if Classify(line) == Label {
        Pass2FirstUse(t, lines[1..]);
      } else if Pass2(t, lines).Ok? {
        var e := Encode(t, line);
        Pass2FirstUse(e.1, lines[1..]);
        Pass2Allocates(e.1, lines[1..]);
        var t' := Pass2(e.1, lines[1..]).value.1;
        assert Pass2(t, lines).value.1 == t';
        assert Code(lines) == [line] + Code(lines[1..]);
        var symbols := NewSymbols(e.1.entries.Keys, Code(lines[1..]));
        var symbol := SymbolOf(line);
        if Classify(line) == Address {
          AInstructionTable(t, line);
          if ParseInt(symbol).None? && symbol !in t.entries {
            assert NewSymbols(t.entries.Keys, Code(lines)) == [symbol] + symbols;
            FirstUseCons(t, e.1, t', symbol, symbols);
          } else {
            assert NewSymbols(t.entries.Keys, Code(lines)) == symbols;
          }
        } else {
          assert NewSymbols(t.entries.Keys, Code(lines)) == symbols;
        }
      }
    }
  }

  // ---------------------------------------------------------------------
  // The driver over the mutable table

  /** result with words put in front of its words. */
  function Prefixed(words: seq<string>, result: Result<(seq<string>, Table)>): Result<(seq<string>, Table)> {
    if result.Err? then result else Ok((words + result.value.0, result.value.1))
  }

  lemma PrefixedNothing(result: Result<(seq<string>, Table)>)
    ensures Prefixed([], result) == result
  {
    if result.Ok? {
      assert [] + result.value.0 == result.value.0;
    }
  }

  /** Pass 2 passes over a label line. */
  lemma SkipLabel(t: Table, lines: seq<string>, words: seq<string>)
    requires lines != [] && Classify(lines[0]) == Label
    ensures Prefixed(words, Pass2(t, lines)) == Prefixed(words, Pass2(t, lines[1..]))
  {
  }

  /** Pass 2 stops at an instruction line that does not encode. */
  lemma StopAtError(t: Table, lines: seq<string>, words: seq<string>, w: Result<string>, t1: Table)
    requires lines != [] && Classify(lines[0]) != Label && Encode(t, lines[0]) == (w, t1) && w.Err?
    ensures Prefixed(words, Pass2(t, lines)) == Err(w.error)
  {
  }

  /** Pass 2 encodes an instruction line and goes on from the table it leaves. */
  lemma EncodeLine(t: Table, lines: seq<string>, words: seq<string>, w: Result<string>, t1: Table)
    requires lines != [] && Classify(lines[0]) != Label && Encode(t, lines[0]) == (w, t1) && w.Ok?
    ensures Prefixed(words, Pass2(t, lines)) == Prefixed(words + [w.value], Pass2(t1, lines[1..]))
  {
    var rest := Pass2(t1, lines[1..]);
    if rest.Ok? {
      assert Pass2(t, lines) == Ok(([w.value] + rest.value.0, rest.value.1));
      assert words + ([w.value] + rest.value.0) == words + [w.value] + rest.value.0;
    } else {
      assert Pass2(t, lines) == Err(rest.error);
    }
  }

  /** Pass 2 over the table st, with label lines filtered out as main does. */
  method EncodeAll(lines: seq<string>, st: SymbolTable) returns (r: Result<seq<string>>)
    modifies st
    ensures var expected := Pass2(old(st.State()), lines);
      r == if expected.Err? then Err(expected.error) else Ok(expected.value.0)
    ensures var expected := Pass2(old(st.State()), lines);
      expected.Ok? ==> st.State() == expected.value.1
  {
    ghost var t0 := st.State();
    var words: seq<string> := [];
    var i := 0;
    assert lines[0..] == lines;
    PrefixedNothing(Pass2(t0, lines));
    while i < |lines|
      invariant 0 <= i <= |lines|
      invariant Pass2(t0, lines) == Prefixed(words, Pass2(st.State(), lines[i..]))
    {
      var line := lines[i];
      assert lines[i..][0] == line && lines[i..][1..] == lines[i + 1..];
      ghost var t := st.State();
      if Classify(line) == Label {
        SkipLabel(t, lines[i..], words);
      } else {
        var w: Result<string>;
        if Classify(line) == Address {
          w := ParseAInstruction(line, st);
        } else {
          w := ParseCInstruction(line);
        }
        if w.Err? {
          StopAtError(t, lines[i..], words, w, st.State());
          return Err(w.error);
        }
        EncodeLine(t, lines[i..], words, w, st.State());
        words := words + [w.value];
      }
      i := i + 1;
    }
    assert lines[i..] == [] && words + [] == words;
    return Ok(words);
  }

  /** main: prepare the lines, run the label pass, then encode. */
  method Assemble(raw: seq<string>) returns (r: Result<seq<string>>)
    ensures r == AssembleFile(raw)
  {
    var lines := Prepare(raw);
    var st := new SymbolTable();
    PreHandleSymbol(lines, st);
    r := EncodeAll(lines, st);
  }

  // ---------------------------------------------------------------------
  // A worked program: an endless loop.
  // The lines are a parameter fixed by the requires, so that the solver does
  // not evaluate the literal strings in every other proof of this module.

  /** (LOOP), @LOOP, 0;JMP assembles to @0 followed by 0;JMP. */
  lemma LoopExample(lines: seq<string>)
    requires |lines| == 3 && lines[0] == "(LOOP)" && lines[1] == "@LOOP" && lines[2] == "0;JMP"
    ensures Translate(lines) == Ok(["0000000000000000", "1110101010000111"])
  {
    var t := Table(BindLabels(Predefined(), lines), 0);
    var a, c := "0000000000000000", "1110101010000111";
    LoopLabel(lines);
    AtLoop(t, lines[1]);
    JumpLine(lines[2]);
    var rest := lines[1..];
    assert rest[0] == lines[1] && rest[1..] == lines[2..];
    EncodeLast(t, lines[2..]);
    EncodeNext(t, rest, Ok(a), t, [c], t);
    assert lines[0][0] == '(';
    assert Pass2(t, lines) == Pass2(t, rest);
    assert [a] + [c] == [a, c];
  }

  /** Pass 2 on a line that encodes followed by lines that do. */
  lemma EncodeNext(t: Table, lines: seq<string>, w: Result<string>, t1: Table, words: seq<string>, t2: Table)
    requires lines != [] && Classify(lines[0]) != Label && Encode(t, lines[0]) == (w, t1) && w.Ok?
    requires Pass2(t1, lines[1..]) == Ok((words, t2))
    ensures Pass2(t, lines) == Ok(([w.value] + words, t2))
  {
  }

  /** Pass 2 on one C-instruction line that encodes. */
  lemma EncodeLast(t: Table, lines: seq<string>)
    requires |lines| == 1 && Classify(lines[0]) == Compute && ParseCInstruction(lines[0]).Ok?
    ensures Pass2(t, lines) == Ok(([ParseCInstruction(lines[0]).value], t))
  {
    assert lines[1..] == [];
    assert Encode(t, lines[0]) == (ParseCInstruction(lines[0]), t);
    assert Pass2(t, lines[1..]) == Ok(([], t));
    var w := ParseCInstruction(lines[0]).value;
    assert [w] + [] == [w];
  }

  /** A label line "(name)" binds name, when name holds no parenthesis. */
  lemma LabelNameOf(name: string)
    requires '(' !in name && ')' !in name
    ensures LabelName("(" + name + ")") == name
  {
    RemoveAllAppend("(" + name, ")", '(');
    RemoveAllAppend("(", name, '(');
    RemoveAllOne('(', '(');
    RemoveAllOne(')', '(');
    assert [] + name + ")" == name + ")";
    RemoveAllAppend(name, ")", ')');
    RemoveAllOne(')', ')');
    assert name + [] == name;
  }

  lemma LoopName(line: string)
    requires line == "(LOOP)"
    ensures LabelName(line) == "LOOP"
  {
    assert line == "(" + "LOOP" + ")";
    LabelNameOf("LOOP");
  }

  /** The label pass binds LOOP to 0, the position of @LOOP. */
  lemma LoopLabel(lines: seq<string>)
    requires |lines| == 3 && lines[0] == "(LOOP)" && lines[1] == "@LOOP" && lines[2] == "0;JMP"
    ensures "LOOP" in BindLabels(Predefined(), lines) && BindLabels(Predefined(), lines)["LOOP"] == 0
  {
    LoopName(lines[0]);
    assert Declares(lines[0], "LOOP");
    assert lines[1][0] == '@' && lines[2][0] == '0';
    LabelAddress(Predefined(), lines, "LOOP", 0);
    assert lines[..0] == [];
  }

  /** @LOOP with LOOP bound to 0. */
  lemma AtLoop(t: Table, line: string)
    requires "LOOP" in t.entries && t.entries["LOOP"] == 0
    requires line == "@LOOP"
    ensures Classify(line) == Address && Encode(t, line) == (Ok("0000000000000000"), t)
  {
    assert line == "@" + "LOOP";
    SymbolAfterAt("LOOP");
    ParseName("LOOP");
    ZeroWord();
  }

  /** 0;JMP is a C-instruction. */
  lemma JumpLine(line: string)
    requires line == "0;JMP"
    ensures Classify(line) == Compute && ParseCInstruction(line) == Ok("1110101010000111")
  {
    JumpText(line);
  }
}
