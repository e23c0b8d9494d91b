/**
 * The C-instruction encoder: dest=comp;jump is split on '=' and ';' and the
 * three parts are looked up in fixed tables to give "111" + comp + dest + jump.
 */
module CInstructions {
  import opened Results
  import opened Binary

  /** DEST_TABLE: both "null" and the empty string stand for no destination. */
  function Dest(mnemonic: string): (code: Option<string>)
    ensures code.Some? ==> |code.value| == 3 && IsBinary(code.value)
  {
    match mnemonic
    case "null" => Some("000")
    case "" => Some("000")
    case "M" => Some("001")
    case "D" => Some("010")
    case "MD" => Some("011")
    case "A" => Some("100")
    case "AM" => Some("101")
    case "AD" => Some("110")
    case "AMD" => Some("111")
    case _ => None
  }

  /** JMP_TABLE: both "null" and the empty string stand for no jump. */
  function Jump(mnemonic: string): (code: Option<string>)
    ensures code.Some? ==> |code.value| == 3 && IsBinary(code.value)
  {
    match mnemonic
    case "null" => Some("000")
    case "" => Some("000")
    case "JGT" => Some("001")
    case "JEQ" => Some("010")
    case "JGE" => Some("011")
    case "JLT" => Some("100")
    case "JNE" => Some("101")
    case "JLE" => Some("110")
    case "JMP" => Some("111")
    case _ => None
  }

  /** COMP_TABLE: 28 mnemonics; the leading bit of a code is the a-bit that selects M instead of A. */
  function Comp(mnemonic: string): (code: Option<string>)
    ensures code.Some? ==> |code.value| == 7 && IsBinary(code.value)
  {
    match mnemonic
    case "0" => Some("0101010")
    case "1" => Some("0111111")
    case "-1" => Some("0111010")
    case "D" => Some("0001100")
    case "A" => Some("0110000")
    case "!D" => Some("0001101")
    case "!A" => Some("0110001")
    case "-D" => Some("0001111")
    case "-A" => Some("0110011")
    case "D+1" => Some("0011111")
    case "A+1" => Some("0110111")
    case "D-1" => Some("0001110")
    case "A-1" => Some("0110010")
    case "D+A" => Some("0000010")
    case "D-A" => Some("0010011")
    case "A-D" => Some("0000111")
    case "D&A" => Some("0000000")
    case "D|A" => Some("0010101")
    case "M" => Some("1110000")
    case "!M" => Some("1110001")
    case "-M" => Some("1110011")
    case "M+1" => Some("1110111")
    case "M-1" => Some("1110010")
    case "D+M" => Some("1000010")
    case "D-M" => Some("1010011")
    case "M-D" => Some("1000111")
    case "D&M" => Some("1000000")
    case "D|M" => Some("1010101")
    case _ => None
  }

  // ---------------------------------------------------------------------
  // String operations the encoder relies on

  /** The fields of s between occurrences of c, empty fields included. */
  function Fields(s: string, c: char): (r: seq<string>)
    ensures 1 <= |r|
  {
    if s == [] then [[]]
    else
      var rest := Fields(s[1..], c);
      if s[0] == c then [[]] + rest
      else [[s[0]] + rest[0]] + rest[1..]
  }

  /** Splitting loses nothing: the fields hold no separator and join back to the input. */
  lemma {:induction false} FieldsJoin(s: string, c: char)
    ensures forall i :: 0 <= i < |Fields(s, c)| ==> c !in Fields(s, c)[i]
    ensures Join(Fields(s, c), c) == s
  {
    if s != [] {
      FieldsJoin(s[1..], c);
      var rest := Fields(s[1..], c);
      if s[0] == c {
        assert [[]] + rest == [[]] + rest[..];
        assert ([[]] + rest)[1..] == rest;
      } else {
        var r := Fields(s, c);
        assert r[1..] == rest[1..];
        if |rest| == 1 {
          assert r == [[s[0]] + rest[0]];
        } else {
          assert Join(rest, c) == rest[0] + [c] + Join(rest[1..], c);
        }
      }
    }
  }

  /** The fields put back together with c between them. */
  function Join(parts: seq<string>, c: char): string
    requires 1 <= |parts|
  {
    if |parts| == 1 then parts[0] else parts[0] + [c] + Join(parts[1..], c)
  }

  function DropTrailingEmpty(parts: seq<string>): (r: seq<string>)
    ensures r <= parts
    ensures r == [] || r[|r| - 1] != []
    ensures forall i :: |r| <= i < |parts| ==> parts[i] == []
  {
    if parts != [] && parts[|parts| - 1] == [] then DropTrailingEmpty(parts[..|parts| - 1]) else parts
  }

  /**
   * Java's s.split of a one-character separator (one that is not special in
   * a regular expression): the input itself when c does not occur, and
   * otherwise its fields without the trailing empty ones.
   */
  function Split(s: string, c: char): seq<string> {
    if c !in s then [s] else DropTrailingEmpty(Fields(s, c))
  }

  /** The position just after the last c in s, or 0 when there is none. */
  function AfterLastIndex(s: string, c: char): (k: nat)
    ensures k <= |s|
    ensures 0 < k ==> s[k - 1] == c
    ensures forall i :: k <= i < |s| ==> s[i] != c
  {
    if s == [] then 0
    else
      var k := AfterLastIndex(s[1..], c);
      if 0 < k then k + 1 else if s[0] == c then 1 else 0
  }

  /** What replaceAll(".*=", "") leaves: the longest suffix of s without c. */
  function AfterLast(s: string, c: char): string {
    s[AfterLastIndex(s, c)..]
  }

  /** What replaceAll(";.*", "") leaves: the longest prefix of s without c. */
  function BeforeFirst(s: string, c: char): (r: string)
    ensures c !in r && r <= s
    ensures |r| < |s| ==> s[|r|] == c
  {
    if s == [] || s[0] == c then [] else [s[0]] + BeforeFirst(s[1..], c)
  }

  // ---------------------------------------------------------------------
  // The encoder

  /** The dest code: "000" without '='; otherwise the split must give two parts and the first must be a dest mnemonic. */
  function DestCode(line: string): Result<string> {
    if '=' !in line then Ok(Dest("").value)
    else
      var data := Split(line, '=');
      if |data| != 2 then Err(Format(line))
      else if Dest(data[0]).None? then Err(UnknownDest(line))
      else Ok(Dest(data[0]).value)
  }

  /** The jump code: "000" without ';'; otherwise the split must give two parts and the second must be a jump mnemonic. */
  function JumpCode(line: string): Result<string> {
    if ';' !in line then Ok(Jump("").value)
    else
      var data := Split(line, ';');
      if |data| != 2 then Err(Format(line))
      else if Jump(data[1]).None? then Err(UnknownJump(line))
      else Ok(Jump(data[1]).value)
  }

  /** The comp mnemonic: the line with everything up to its last '=' and from its first ';' on removed. */
  function CompMnemonic(line: string): string {
    BeforeFirst(AfterLast(line, '='), ';')
  }

  /** CInstructionParser.parseLine: checks dest, then jump, then comp. */
  function ParseCInstruction(line: string): Result<string> {
    var dest :- DestCode(line);
    var jump :- JumpCode(line);
    var comp := Comp(CompMnemonic(line));
    if comp.None? then Err(UnknownComp(line))
    else Ok("111" + comp.value + dest + jump)
  }

  // ---------------------------------------------------------------------
  // Properties

  /** No mnemonic holds a separator, and no comp mnemonic is empty. */
  lemma MnemonicsPlain(m: string)
    ensures Dest(m).Some? ==> '=' !in m && ';' !in m
    ensures Jump(m).Some? ==> '=' !in m && ';' !in m
    ensures Comp(m).Some? ==> '=' !in m && ';' !in m && m != []
  {
  }

  /** The a-bit: a comp code starts with 1 exactly when its mnemonic reads M. */
  lemma CompABit(m: string)
    ensures Comp(m).Some? ==> (Comp(m).value[0] == '1' <==> 'M' in m)
  {
  }

  /** A successful C-instruction is a 16-bit word "111" + comp + dest + jump. */
  lemma ParseCWord(line: string)
    ensures ParseCInstruction(line).Ok? ==>
      var w := ParseCInstruction(line).value;
      && IsWord(w) && w[..3] == "111"
      && Comp(CompMnemonic(line)).Some? && w[3..10] == Comp(CompMnemonic(line)).value
      && DestCode(line).Ok? && w[10..13] == DestCode(line).value
      && JumpCode(line).Ok? && w[13..] == JumpCode(line).value
  {
    var dest, jump := DestCode(line), JumpCode(line);
    var comp := Comp(CompMnemonic(line));
    if dest.Ok? && jump.Ok? && comp.Some? {
      assert ParseCInstruction(line) == Ok("111" + comp.value + dest.value + jump.value);
      WordFields(comp.value, dest.value, jump.value);
    }
  }

  lemma WordFields(comp: string, dest: string, jump: string)
    requires |comp| == 7 && |dest| == 3 && |jump| == 3
    requires IsBinary(comp) && IsBinary(dest) && IsBinary(jump)
    ensures var w := "111" + comp + dest + jump;
      IsWord(w) && w[..3] == "111" && w[3..10] == comp && w[10..13] == dest && w[13..] == jump
  {
    var w := "111" + comp + dest + jump;
    assert forall i :: 0 <= i < 3 ==> w[i] == '1';
    assert forall i :: 3 <= i < 10 ==> w[i] == comp[i - 3];
    assert forall i :: 10 <= i < 13 ==> w[i] == dest[i - 10];
    assert forall i :: 13 <= i < 16 ==> w[i] == jump[i - 13];
  }

  // ---------------------------------------------------------------------
  // Splitting a line that is built from its parts

  lemma {:induction false} FieldsWithout(s: string, c: char)
    requires c !in s
    ensures Fields(s, c) == [s]
  {
    if s != [] {
      FieldsWithout(s[1..], c);
      assert [s[0]] + s[1..] == s;
    }
  }

  lemma {:induction false} FieldsAfter(a: string, b: string, c: char)
    requires c !in a
    ensures Fields(a + [c] + b, c) == [a] + Fields(b, c)
  {
    if a != [] {
      FieldsAfter(a[1..], b, c);
      assert (a + [c] + b)[1..] == a[1..] + [c] + b;
      assert [a[0]] + a[1..] == a;
    } else {
      assert (a + [c] + b)[1..] == b;
    }
  }

  /** A line with one separator between two non-empty-on-the-right parts splits into those two parts. */
  lemma SplitTwo(a: string, b: string, c: char)
    requires c !in a && c !in b && b != []
    ensures Split(a + [c] + b, c) == [a, b]
  {
    FieldsAfter(a, b, c);
    FieldsWithout(b, c);
    assert (a + [c] + b)[|a|] == c;
  }

  lemma {:induction false} AfterSeparator(a: string, b: string, c: char)
    requires c !in b
    ensures AfterLast(a + [c] + b, c) == b
  {
    AfterSeparatorIndex(a, b, c);
    var s := a + [c] + b;
    assert s[|a| + 1..] == b;
  }

  lemma {:induction false} AfterSeparatorIndex(a: string, b: string, c: char)
    requires c !in b
    ensures AfterLastIndex(a + [c] + b, c) == |a| + 1
  {
    if a == [] {
      AfterLastIndexWithout(b, c);
      assert ([] + [c] + b)[1..] == b;
    } else {
      AfterSeparatorIndex(a[1..], b, c);
      assert (a + [c] + b)[1..] == a[1..] + [c] + b;
    }
  }

  lemma {:induction false} AfterLastIndexWithout(s: string, c: char)
    requires c !in s
    ensures AfterLastIndex(s, c) == 0
  {
    if s != [] {
      assert s[0] != c;
      AfterLastIndexWithout(s[1..], c);
    }
  }

  lemma {:induction false} BeforeSeparator(a: string, b: string, c: char)
    requires c !in a
    ensures BeforeFirst(a + [c] + b, c) == a
  {
    if a != [] {
      BeforeSeparator(a[1..], b, c);
      assert (a + [c] + b)[1..] == a[1..] + [c] + b;
      assert [a[0]] + a[1..] == a;
    }
  }

  lemma AfterLastWithout(s: string, c: char)
    requires c !in s
    ensures AfterLast(s, c) == s
  {
    AfterLastIndexWithout(s, c);
  }

  lemma {:induction false} BeforeFirstWithout(s: string, c: char)
    requires c !in s
    ensures BeforeFirst(s, c) == s
  {
    if s != [] {
      BeforeFirstWithout(s[1..], c);
      assert [s[0]] + s[1..] == s;
    }
  }

  // ---------------------------------------------------------------------
  // The instruction grammar dest=comp;jump

  /** The three mnemonics of a C-instruction; an empty dest or jump is absent from the text. */
  datatype Mnemonics = Mnemonics(dest: string, comp: string, jump: string)

  /** Every part is free of separators and there is a comp. */
  predicate Plain(m: Mnemonics) {
    && '=' !in m.dest && ';' !in m.dest
    && '=' !in m.comp && ';' !in m.comp && m.comp != []
    && '=' !in m.jump && ';' !in m.jump
  }

  predicate Known(m: Mnemonics) {
    Dest(m.dest).Some? && Comp(m.comp).Some? && Jump(m.jump).Some?
  }

  /** The text of a C-instruction: "dest=" only when there is a dest, ";jump" only when there is a jump. */
  function Render(m: Mnemonics): string {
    (if m.dest == "" then "" else m.dest + "=") + m.comp + (if m.jump == "" then "" else ";" + m.jump)
  }

  /**
   * How an instruction written as dest=comp;jump is encoded: dest is checked
   * first, then jump, then comp, and with all three known the word is the
   * concatenation of their codes.
   */
  lemma RenderParsed(m: Mnemonics)
    requires Plain(m)
    ensures var line := Render(m);
      ParseCInstruction(line) ==
        if Dest(m.dest).None? then Err(UnknownDest(line))
        else if Jump(m.jump).None? then Err(UnknownJump(line))
        else if Comp(m.comp).None? then Err(UnknownComp(line))
        else Ok("111" + Comp(m.comp).value + Dest(m.dest).value + Jump(m.jump).value)
  {
    RenderDest(m);
    RenderJump(m);
    RenderComp(m);
  }

  /** Every instruction written from table mnemonics encodes as the concatenation of their codes. */
  lemma RenderEncodes(m: Mnemonics)
    requires Known(m)
    ensures ParseCInstruction(Render(m)) == Ok("111" + Comp(m.comp).value + Dest(m.dest).value + Jump(m.jump).value)
  {
    MnemonicsPlain(m.dest);
    MnemonicsPlain(m.comp);
    MnemonicsPlain(m.jump);
    RenderParsed(m);
  }

  lemma RenderDest(m: Mnemonics)
    requires Plain(m)
    ensures DestCode(Render(m)) == if Dest(m.dest).Some? then Ok(Dest(m.dest).value) else Err(UnknownDest(Render(m)))
  {
    var line := Render(m);
    var tail := m.comp + if m.jump == "" then "" else ";" + m.jump;
    assert '=' !in tail;
    if m.dest == "" {
      assert line == tail;
    } else {
      assert line == m.dest + ['='] + tail;
      SplitTwo(m.dest, tail, '=');
    }
  }

  lemma RenderJump(m: Mnemonics)
    requires Plain(m)
    ensures JumpCode(Render(m)) == if Jump(m.jump).Some? then Ok(Jump(m.jump).value) else Err(UnknownJump(Render(m)))
  {
    var line := Render(m);
    var head := (if m.dest == "" then "" else m.dest + "=") + m.comp;
    assert ';' !in head;
    if m.jump == "" {
      assert line == head;
    } else {
      assert line == head + [';'] + m.jump;
      SplitTwo(head, m.jump, ';');
    }
  }

  lemma RenderComp(m: Mnemonics)
    requires Plain(m)
    ensures CompMnemonic(Render(m)) == m.comp
  {
    CompBetween(m.dest, m.comp, m.jump);
  }

  /** The comp part of dest=comp;jump, when no part holds a separator. */
  lemma CompBetween(dest: string, comp: string, jump: string)
    requires '=' !in dest && '=' !in comp && ';' !in comp && '=' !in jump
    ensures CompMnemonic(Render(Mnemonics(dest, comp, jump))) == comp
  {
    var head := if dest == "" then "" else dest + "=";
    var tail := if jump == "" then "" else ";" + jump;
    assert Render(Mnemonics(dest, comp, jump)) == head + (comp + tail);
    DestDropped(dest, comp + tail);
    JumpDropped(comp, jump);
  }

  /** replaceAll(".*=", "") removes "dest=". */
  lemma DestDropped(dest: string, rest: string)
    requires '=' !in dest && '=' !in rest
    ensures AfterLast((if dest == "" then "" else dest + "=") + rest, '=') == rest
  {
    if dest == "" {
      assert "" + rest == rest;
      AfterLastWithout(rest, '=');
    } else {
      assert dest + "=" + rest == dest + ['='] + rest;
      AfterSeparator(dest, rest, '=');
    }
  }

  /** replaceAll(";.*", "") removes ";jump". */
  lemma JumpDropped(comp: string, jump: string)
    requires ';' !in comp
    ensures BeforeFirst(comp + (if jump == "" then "" else ";" + jump), ';') == comp
  {
    if jump == "" {
      assert comp + "" == comp;
      BeforeFirstWithout(comp, ';');
    } else {
      assert comp + (";" + jump) == comp + [';'] + jump;
      BeforeSeparator(comp, jump, ';');
    }
  }

  // ---------------------------------------------------------------------
  // Quirks of the split-based parsing

  /** "null" is a key of both tables, with the same code as an absent field. */
  lemma NullMeansAbsent(m: string)
    ensures Dest(m) == Some("000") <==> m == "" || m == "null"
    ensures Jump(m) == Some("000") <==> m == "" || m == "null"
  {
  }

  /**
   * split drops trailing empty fields, so a line that ends in its only '='
   * has fewer than two parts and is refused as malformed.
   */
  lemma {:induction false} TrailingEmptyDropped(d: string)
    requires '=' !in d
    ensures ParseCInstruction(d + ['=']) == Err(Format(d + ['=']))
  {
    var line := d + ['='];
    assert line == d + ['='] + [];
    FieldsAfter(d, [], '=');
    assert Fields([], '=') == [[]];
    assert Fields(line, '=') == [d, []];
    assert line[|d|] == '=';
    var parts := DropTrailingEmpty([d, []]);
    assert parts == DropTrailingEmpty([d]);
    assert |Split(line, '=')| <= 1;
  }

  /**
   * A leading empty field is kept: "=comp" has the empty dest, which encodes
   * as 000, and without a jump the line encodes as comp with dest and jump 000.
   */
  lemma LeadingEmptyKept(rest: string)
    requires '=' !in rest && rest != []
    ensures DestCode(['='] + rest) == Ok("000")
    ensures ';' !in rest ==> ParseCInstruction(['='] + rest) ==
                             if Comp(rest).Some? then Ok("111" + Comp(rest).value + "000" + "000")
                             else Err(UnknownComp(['='] + rest))
  {
    var line := ['='] + rest;
    assert line == [] + ['='] + rest;
    SplitTwo([], rest, '=');
    if ';' !in rest {
      assert ';' !in line;
      AfterSeparator([], rest, '=');
      BeforeFirstWithout(rest, ';');
      assert CompMnemonic(line) == rest;
    }
  }

  /**
   * A trailing '=' after a second part is dropped by split too: "a=b=" has
   * the two parts a and b, so its dest is a, but the comp left after the
   * last '=' is empty and the line fails as an unknown comp.
   */
  lemma SecondAssignmentEmpty(a: string, b: string)
    requires '=' !in a && '=' !in b && ';' !in a && ';' !in b && b != [] && Dest(a).Some?
    ensures ParseCInstruction(a + ['='] + b + ['=']) == Err(UnknownComp(a + ['='] + b + ['=']))
  {
    var line := a + ['='] + b + ['='];
    SecondAssignmentSplit(a, b);
    assert ';' !in line;
    MnemonicsPlain([]);
  }

  lemma {:induction false} SecondAssignmentSplit(a: string, b: string)
    requires '=' !in a && '=' !in b && b != []
    ensures Split(a + ['='] + b + ['='], '=') == [a, b]
    ensures CompMnemonic(a + ['='] + b + ['=']) == []
  {
    var line := a + ['='] + b + ['='];
    assert line == a + ['='] + (b + ['='] + []);
    FieldsAfter(a, b + ['='] + [], '=');
    FieldsAfter(b, [], '=');
    assert Fields([], '=') == [[]];
    assert Fields(line, '=') == [a, b, []];
    assert line[|a|] == '=';
    assert DropTrailingEmpty([a, b, []]) == DropTrailingEmpty([a, b]);
    assert line == (a + ['='] + b) + ['='] + [];
    AfterSeparator(a + ['='] + b, [], '=');
    BeforeFirstWithout([], ';');
  }

  /** With several '=' the split has too many parts: the line is refused before comp is looked at. */
  lemma {:induction false} TwoAssignments(a: string, b: string, c: string)
    requires '=' !in a && '=' !in b && '=' !in c && c != []
    ensures ParseCInstruction(a + ['='] + b + ['='] + c) == Err(Format(a + ['='] + b + ['='] + c))
  {
    var line := a + ['='] + b + ['='] + c;
    assert line == a + ['='] + (b + ['='] + c);
    FieldsAfter(a, b + ['='] + c, '=');
    FieldsAfter(b, c, '=');
    FieldsWithout(c, '=');
    assert Fields(line, '=') == [a, b, c];
    assert line[|a|] == '=';
    assert DropTrailingEmpty([a, b, c]) == [a, b, c];
  }

  /** The same holds for ';': "comp;" has one split part and is refused as malformed. */
  lemma {:induction false} TrailingEmptyJump(d: string)
    requires ';' !in d && '=' !in d
    ensures ParseCInstruction(d + [';']) == Err(Format(d + [';']))
  {
    var line := d + [';'];
    assert line == d + [';'] + [];
    FieldsAfter(d, [], ';');
    assert Fields([], ';') == [[]];
    assert Fields(line, ';') == [d, []];
    assert line[|d|] == ';';
    assert DropTrailingEmpty([d, []]) == DropTrailingEmpty([d]);
    assert |Split(line, ';')| <= 1;
    assert '=' !in line;
  }

  /** Two ';' with a non-empty last part give three parts: the line is malformed. */
  lemma {:induction false} TwoJumps(a: string, b: string, c: string)
    requires ';' !in a && ';' !in b && ';' !in c && c != []
    requires '=' !in a && '=' !in b && '=' !in c
    ensures ParseCInstruction(a + [';'] + b + [';'] + c) == Err(Format(a + [';'] + b + [';'] + c))
  {
    var line := a + [';'] + b + [';'] + c;
    assert line == a + [';'] + (b + [';'] + c);
    FieldsAfter(a, b + [';'] + c, ';');
    FieldsAfter(b, c, ';');
    FieldsWithout(c, ';');
    assert Fields(line, ';') == [a, b, c];
    assert line[|a|] == ';';
    assert DropTrailingEmpty([a, b, c]) == [a, b, c];
    assert '=' !in line;
  }

  /**
   * A ';' after the jump is dropped by split as a trailing empty field and
   * cut off with the jump by ";.*": the line assembles as if it were absent.
   */
  lemma TrailingJumpSeparator(m: Mnemonics)
    requires Known(m) && m.jump != ""
    ensures ParseCInstruction(Render(m) + ";") == ParseCInstruction(Render(m))
  {
    MnemonicsPlain(m.dest);
    MnemonicsPlain(m.comp);
    MnemonicsPlain(m.jump);
    RenderEncodes(m);
    var line := Render(m) + ";";
    SeparatedComp(m, line);
    SeparatedDest(m, line);
    SeparatedJump(m, line);
  }

  lemma SeparatedComp(m: Mnemonics, line: string)
    requires Plain(m) && m.jump != "" && line == Render(m) + ";"
    ensures CompMnemonic(line) == m.comp
  {
    assert Render(Mnemonics(m.dest, m.comp, m.jump + ";")) == line;
    CompBetween(m.dest, m.comp, m.jump + ";");
  }

  lemma SeparatedDest(m: Mnemonics, line: string)
    requires Plain(m) && Dest(m.dest).Some? && line == Render(m) + ";"
    ensures DestCode(line) == Ok(Dest(m.dest).value)
  {
    var tail := m.comp + (if m.jump == "" then "" else ";" + m.jump) + ";";
    assert '=' !in tail;
    if m.dest == "" {
      assert line == tail;
    } else {
      assert line == m.dest + ['='] + tail;
      SplitTwo(m.dest, tail, '=');
    }
  }

  lemma {:induction false} SeparatedJump(m: Mnemonics, line: string)
    requires Plain(m) && Jump(m.jump).Some? && m.jump != "" && line == Render(m) + ";"
    ensures JumpCode(line) == Ok(Jump(m.jump).value)
  {
    var head := (if m.dest == "" then "" else m.dest + "=") + m.comp;
    assert ';' !in head;
    assert line == head + [';'] + (m.jump + [';'] + []);
    FieldsAfter(head, m.jump + [';'] + [], ';');
    FieldsAfter(m.jump, [], ';');
    assert Fields([], ';') == [[]];
    assert Fields(line, ';') == [head, m.jump, []];
    assert line[|head|] == ';';
    assert DropTrailingEmpty([head, m.jump, []]) == [head, m.jump];
  }

  // ---------------------------------------------------------------------
  // Worked cases, each stated for the mnemonics it is written from.
  // The input is a parameter fixed by the requires, so that the solver does
  // not evaluate the literal strings in every other proof of this module.

  /** D=D+1 assembles to 1110011111010000. */
  lemma AssignExample(m: Mnemonics)
    requires m == Mnemonics("D", "D+1", "")
    ensures ParseCInstruction(Render(m)) == Ok("1110011111010000")
  {
    assert Known(m);
    RenderEncodes(m);
    AssignWord();
  }

  /** The same, on the text of the line. */
  lemma AssignText(line: string)
    requires line == "D=D+1"
    ensures ParseCInstruction(line) == Ok("1110011111010000")
  {
    var m := Mnemonics("D", "D+1", "");
    AssignRendered(m, line);
    AssignExample(m);
  }

  lemma AssignRendered(m: Mnemonics, line: string)
    requires m == Mnemonics("D", "D+1", "") && line == "D=D+1"
    ensures Render(m) == line
  {
    assert Render(m) == "D" + "=" + "D+1" + "";
  }

  lemma AssignWord()
    ensures "111" + "0011111" + "010" + "000" == "1110011111010000"
  {
  }

  /** 0;JMP assembles to 1110101010000111. */
  lemma JumpExample(m: Mnemonics)
    requires m == Mnemonics("", "0", "JMP")
    ensures ParseCInstruction(Render(m)) == Ok("1110101010000111")
  {
    assert Known(m);
    RenderEncodes(m);
    JumpWord();
  }

  /** The same, on the text of the line. */
  lemma JumpText(line: string)
    requires line == "0;JMP"
    ensures ParseCInstruction(line) == Ok("1110101010000111")
  {
    var m := Mnemonics("", "0", "JMP");
    JumpRendered(m, line);
    JumpExample(m);
  }

  lemma JumpRendered(m: Mnemonics, line: string)
    requires m == Mnemonics("", "0", "JMP") && line == "0;JMP"
    ensures Render(m) == line
  {
    assert Render(m) == "0" + (";" + "JMP");
  }

  /** "0;JMP;" assembles like "0;JMP": the trailing ';' is ignored. */
  lemma JumpSeparatorText(line: string)
    requires line == "0;JMP;"
    ensures ParseCInstruction(line) == Ok("1110101010000111")
  {
    var m := Mnemonics("", "0", "JMP");
    JumpRendered(m, "0;JMP");
    assert line == "0;JMP" + ";";
    TrailingJumpSeparator(m);
    JumpText("0;JMP");
  }

  /** "=D" is accepted with the empty dest: it assembles to 1110001100000000. */
  lemma EmptyDestText(line: string)
    requires line == "=D"
    ensures ParseCInstruction(line) == Ok("1110001100000000")
  {
    assert line == ['='] + "D";
    LeadingEmptyKept("D");
    EmptyDestWord();
  }

  lemma EmptyDestWord()
    ensures Comp("D") == Some("0001100")
    ensures "111" + "0001100" + "000" + "000" == "1110001100000000"
  {
  }

  lemma JumpWord()
    ensures "111" + "0101010" + "000" + "111" == "1110101010000111"
  {
  }

  /** A=B+C is refused: B+C is no comp mnemonic. */
  lemma UnknownCompExample(m: Mnemonics)
    requires m == Mnemonics("A", "B+C", "")
    ensures ParseCInstruction(Render(m)) == Err(UnknownComp(Render(m)))
  {
    assert Plain(m);
    SumOfTwoRegisters();
    RenderParsed(m);
  }

  lemma SumOfTwoRegisters()
    ensures Dest("A").Some? && Jump("").Some? && Comp("B+C").None?
  {
  }

  /** The same, on the text of the line. */
  lemma UnknownCompText(line: string)
    requires line == "A=B+C"
    ensures ParseCInstruction(line) == Err(UnknownComp(line))
  {
    var m := Mnemonics("A", "B+C", "");
    UnknownCompRendered(m, line);
    UnknownCompExample(m);
  }

  lemma UnknownCompRendered(m: Mnemonics, line: string)
    requires m == Mnemonics("A", "B+C", "") && line == "A=B+C"
    ensures Render(m) == line
  {
    assert Render(m) == "A" + "=" + "B+C" + "";
  }
}
