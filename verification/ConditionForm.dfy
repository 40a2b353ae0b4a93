/** The texts of values and conditions spelled out. */
module ConditionForm {
  import opened Text
  import opened Operands
  import opened Shifts
  import opened Exprs
  import opened Conditions

  /** The text of a value, kind by kind: operands stand in their order around the operator. */
  lemma ValuesPrint(c: Word, name: string, op: string, l: Expr, r: Expr, func: string, args: seq<Expr>)
    ensures ValueText(Const(c)) == FmtHex(c as nat)
    ensures ValueText(Missing) == "_" && ValueText(Unknown) == "_" && ValueText(Apply(SymHead(func), args)) == "_"
    ensures ValueText(Op(op, l, r)) == "(" + ValueText(l) + " " + op + " " + ValueText(r) + ")"
    ensures ValueText(Unary(op, l)) == op + ValueText(l)
    ensures ValueText(Apply(CallHead(func), [])) == ShortFunc(func) + "()"
    ensures ValueText(Apply(CallHead(func), [l])) == ShortFunc(func) + "(" + ValueText(l) + ")"
    ensures ValueText(Apply(CallHead(func), [l, r])) ==
            ShortFunc(func) + "(" + (ValueText(l) + ", " + ValueText(r)) + ")"
  {
    hide FmtHex, ShortFunc, ToLower;
    assert [l, r][1..] == [r];
    assert ListText([]) == "" && ListText([l]) == ValueText(l) && ListText([r]) == ValueText(r);
    assert ShortFunc(func) + "(" + "" + ")" == ShortFunc(func) + "()";
  }

  /** Registers print in small letters. */
  lemma RegistersPrint(name: string, i: nat)
    requires i < |name|
    ensures |ValueText(Reg(name))| == |name|
    ensures ValueText(Reg(name))[i] == if 65 <= name[i] as int <= 90 then (name[i] as int + 32) as char else name[i]
  {
  }

  /** Loads and addresses print their base, a stack slot, or their symbol. */
  lemma LoadsPrint(base: string, offset: int)
    requires base != "SB" && base != "SP"
    ensures var load, slot := MemRef(base, "", 0, offset, ""), MemRef("SP", "", 0, offset, "");
            && ValueText(Apply(LoadHead(load), [])) == "*" + base
            && (load != EMPTY ==> ValueText(Apply(AddrHead(load), [])) == "&" + base)
            && (offset >= 0 ==> ValueText(Apply(LoadHead(slot), [])) == "*" + ("stack_0x" + Digits(offset, 16)))
            && (offset < 0 ==> ValueText(Apply(LoadHead(slot), [])) == "*" + ("stack_0x" + ("-" + Digits(-offset, 16))))
    ensures ValueText(Apply(LoadHead(MemRef("SB", "", 0, offset, "")), [])) == "*sb_unk"
  {
    hide Digits, CleanAssemblyIdent;
    assert "*" + "sb_unk" == "*sb_unk";
  }

  lemma AfterLastIs(before: string, c: char, behind: string)
    requires c !in behind
    ensures AfterLast(before + [c] + behind, c) == behind && AfterLast(behind, c) == behind
    ensures LastIndexByte(before + [c] + behind, c) >= 0 && LastIndexByte(behind, c) < 0
  {
    var s := before + [c] + behind;
    assert s[|before|] == c && s[|before| + 1..] == behind;
    LastIndexUnique(s, c, |before|);
    hide LastIndexByte;
  }

  /** A symbol as an identifier: `_` for `+` and `n` for `-`. */
  function Cleaned(s: string): (t: string)
    ensures |t| == |s|
  {
    seq(|s|, i requires 0 <= i < |s| => if s[i] == '+' then '_' else if s[i] == '-' then 'n' else s[i])
  }

  lemma CleaningIsCharByChar(path: string, name: string)
    ensures ReplaceChar(ReplaceChar(path + "." + name, '+', '_'), '-', 'n') == Cleaned(path) + "." + Cleaned(name)
  {
  }

  lemma CleanedHasNoDot(name: string)
    requires '.' !in name
    ensures '.' !in Cleaned(name)
  {
    forall i | 0 <= i < |name|
      ensures Cleaned(name)[i] != '.'
    {
      assert name[i] in name;
    }
  }

  /** What is left of a symbol: what follows its last dot, without `(SB)`, character by character. */
  lemma SymbolsAreCleaned(path: string, name: string)
    requires '.' !in name && Trimmed(path + "." + name)
    ensures CleanAssemblyIdent(path + "." + name + "(SB)") == Cleaned(name)
    ensures TrimSuffix(path + "." + name, "(SB)") == path + "." + name ==>
              CleanAssemblyIdent(path + "." + name) == Cleaned(name)
  {
    var full := path + "." + name;
    assert TrimSuffix(full + "(SB)", "(SB)") == full by {
      assert (full + "(SB)")[|full|..] == "(SB)" && (full + "(SB)")[..|full|] == full;
    }
    TrimmedExactly(full);
    CleaningIsCharByChar(path, name);
    CleanedHasNoDot(name);
    AfterLastIs(Cleaned(path), '.', Cleaned(name));
    hide TrimSpace, AfterLast, ReplaceChar, TrimSuffix, Cleaned;
    assert Cleaned(path) + "." + Cleaned(name) == Cleaned(path) + ['.'] + Cleaned(name);
  }

  /** A function prints what follows the last dot of its name, or else the last slash, or all of it. */
  lemma FunctionsPrint(path: string, name: string)
    requires '.' !in name && '/' !in name
    ensures ShortFunc(path + "." + name) == name && ShortFunc(name) == name
    ensures '.' !in path ==> ShortFunc(path + "/" + name) == name
  {
    AfterLastIs(path, '.', name);
    AfterLastIs(path, '/', name);
    assert path + "." + name == path + ['.'] + name;
    assert path + "/" + name == path + ['/'] + name;
    if '.' !in path {
      AfterLastIs(path, '.', path + "/" + name);
    }
    hide LastIndexByte, AfterLast;
  }

  /** Loads of symbols print the cleaned symbol, and the offset behind it if there is one. */
  lemma SymbolLoadsPrint(symbol: string, offset: int)
    requires symbol != "" && offset != 0
    ensures ValueText(Apply(LoadHead(MemRef("SB", "", 0, 0, symbol)), [])) == "*" + (CleanAssemblyIdent(symbol) + "")
    ensures ValueText(Apply(LoadHead(MemRef("SB", "", 0, offset, symbol)), [])) ==
            "*" + (CleanAssemblyIdent(symbol) + ("_" + PrintInt(offset)))
  {
    hide CleanAssemblyIdent, PrintInt;
  }

  /** The relation each jump prints. */
  lemma JumpsPrint(l: Expr, r: Expr)
    requires ValueText(l) != ValueText(r) && !(l.Reg? && r.Reg? && l.name == r.name)
    ensures ConditionText("JEQ", [l, r]) == ValueText(l) + " " + "==" + " " + ValueText(r)
    ensures ConditionText("JNE", [l, r]) == ValueText(l) + " " + "!=" + " " + ValueText(r)
    ensures ConditionText("JGT", [l, r]) == ValueText(l) + " " + ">" + " " + ValueText(r)
    ensures ConditionText("JLT", [l, r]) == ValueText(l) + " " + "<" + " " + ValueText(r)
    ensures ConditionText("JGE", [l, r]) == ValueText(l) + " " + ">=" + " " + ValueText(r)
    ensures ConditionText("JLE", [l, r]) == ValueText(l) + " " + "<=" + " " + ValueText(r)
    ensures ConditionText("JHI", [l, r]) == ValueText(l) + " " + ">" + " " + ValueText(r)
    ensures ConditionText("JLS", [l, r]) == ValueText(l) + " " + "<=" + " " + ValueText(r)
  {
    RelationsAre();
    hide ValueText, Relation;
  }

  lemma RelationsAre()
    ensures Relation("JEQ") == "==" && Relation("JNE") == "!=" && Relation("JGT") == ">" && Relation("JLT") == "<"
    ensures Relation("JGE") == ">=" && Relation("JLE") == "<=" && Relation("JHI") == ">" && Relation("JLS") == "<="
  {
  }

  /** Against itself a value prints as compared with zero, for the two jumps on equality alone. */
  lemma AlikePrintsZero(opcode: string, l: Expr, r: Expr)
    requires ValueText(l) == ValueText(r)
    ensures ConditionText("JEQ", [l, r]) == ValueText(l) + " " + "==" + " " + "0"
    ensures ConditionText("JNE", [l, r]) == ValueText(l) + " " + "!=" + " " + "0"
    ensures opcode != "JEQ" && opcode != "JNE" ==>
              ConditionText(opcode, [l, r]) == ValueText(l) + " " + Relation(opcode) + " " + ValueText(r)
    ensures ConditionText(opcode, []) == "_"
  {
    RelationsAre();
    hide ValueText, Relation;
  }
}
