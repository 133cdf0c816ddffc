/**
 * The assembler's driver (Assembler.py, lines 157-249): the source lines
 * are stripped and numbered, a first pass records every label with the
 * address of the next instruction, and a second pass tokenises each
 * instruction and encodes it, collecting one error per failing line
 * instead of stopping.
 *
 * Each pass is given as a specification function defined by recursion on
 * the last line, and as a method with the source's loop, proved equal to it.
 * Reading the input file and writing the output and error files are left to
 * the caller: the input is the list of lines `readlines()` returns.
 */
module Assembler {
  import opened Wrappers
  import opened BitString
  import opened Encoder

  // ---------------------------------------------------------------------
  // Numbered lines (Assembler.py, lines 162-165).

  datatype Line = Line(lineno: nat, text: string)

  /** `line.strip()` for every line read. */
  function StripAll(raw: seq<string>): (texts: seq<string>)
    ensures |texts| == |raw| && forall i :: 0 <= i < |raw| ==> texts[i] == Strip(raw[i])
  {
    seq(|raw|, i requires 0 <= i < |raw| => Strip(raw[i]))
  }

  /** `[(i + 1, line.strip()) for ...]`, keeping only the lines not blank after stripping. */
  function NumberedLines(raw: seq<string>): (r: seq<Line>)
    ensures |r| <= |raw|
  {
    Number(StripAll(raw))
  }

  function Number(texts: seq<string>): (r: seq<Line>)
    ensures |r| <= |texts|
  {
    if texts == [] then []
    else
      var n := |texts|;
      var prev := Number(texts[..n - 1]);
      if texts[n - 1] != "" then prev + [Line(n, texts[n - 1])] else prev
  }

  /** Every entry of `r` is a non-empty line of `texts` with its 1-based number, in increasing order. */
  ghost predicate Numbered(texts: seq<string>, r: seq<Line>) {
    (forall k :: 0 <= k < |r| ==>
      1 <= r[k].lineno <= |texts| && r[k].text == texts[r[k].lineno - 1] && r[k].text != "") &&
    (forall k, m :: 0 <= k < m < |r| ==> r[k].lineno < r[m].lineno)
  }

  /** Every non-empty line of `texts` has an entry in `r`. */
  ghost predicate Covers(texts: seq<string>, r: seq<Line>) {
    forall i :: 0 <= i < |texts| && texts[i] != "" ==> exists k :: 0 <= k < |r| && r[k].lineno == i + 1
  }

  /** The numbered lines are exactly the non-blank lines, stripped, in order, with their 1-based numbers. */
  lemma NumberedLinesNumbers(raw: seq<string>)
    ensures Numbered(StripAll(raw), NumberedLines(raw))
    ensures Covers(StripAll(raw), NumberedLines(raw))
  {
    NumberNumbered(StripAll(raw));
    NumberCovers(StripAll(raw));
  }

  lemma {:induction false} NumberNumbered(texts: seq<string>)
    ensures Numbered(texts, Number(texts))
  {
    if texts != [] {
      var n := |texts|;
      NumberNumbered(texts[..n - 1]);
      NumberedSnoc(texts[..n - 1], Number(texts[..n - 1]), texts[n - 1]);
      FrontLast(texts);
    }
  }

  lemma {:induction false} NumberCovers(texts: seq<string>)
    ensures Covers(texts, Number(texts))
  {
    if texts != [] {
      var n := |texts|;
      NumberCovers(texts[..n - 1]);
      CoversSnoc(texts[..n - 1], Number(texts[..n - 1]), texts[n - 1]);
      FrontLast(texts);
    }
  }

  lemma NumberedSnoc(texts: seq<string>, prev: seq<Line>, last: string)
    requires Numbered(texts, prev)
    ensures Numbered(texts + [last], if last != "" then prev + [Line(|texts| + 1, last)] else prev)
  {
    var r := if last != "" then prev + [Line(|texts| + 1, last)] else prev;
    EntriesSnoc(texts, prev, last, r);
    OrderSnoc(texts, prev, last, r);
    assert Numbered(texts + [last], r);
  }

  lemma EntriesSnoc(texts: seq<string>, prev: seq<Line>, last: string, r: seq<Line>)
    requires Numbered(texts, prev)
    requires r == if last != "" then prev + [Line(|texts| + 1, last)] else prev
    ensures forall k :: 0 <= k < |r| ==>
      1 <= r[k].lineno <= |texts + [last]| && r[k].text == (texts + [last])[r[k].lineno - 1] && r[k].text != ""
  {
    var all := texts + [last];
    forall k | 0 <= k < |r|
      ensures 1 <= r[k].lineno <= |all| && r[k].text == all[r[k].lineno - 1] && r[k].text != ""
    {
      if k < |prev| {
        assert r[k] == prev[k];
        assert all[prev[k].lineno - 1] == texts[prev[k].lineno - 1];
      }
    }
  }

  lemma OrderSnoc(texts: seq<string>, prev: seq<Line>, last: string, r: seq<Line>)
    requires Numbered(texts, prev)
    requires r == if last != "" then prev + [Line(|texts| + 1, last)] else prev
    ensures forall k, m :: 0 <= k < m < |r| ==> r[k].lineno < r[m].lineno
  {
    forall k, m | 0 <= k < m < |r|
      ensures r[k].lineno < r[m].lineno
    {
      assert r[k] == prev[k];
      if m < |prev| {
        assert r[m] == prev[m];
      }
    }
  }

  /** A non-empty sequence is its front followed by its last element. */
  lemma FrontLast<T>(s: seq<T>)
    requires s != []
    ensures s[..|s| - 1] + [s[|s| - 1]] == s
  {
  }

  lemma CoversSnoc(texts: seq<string>, prev: seq<Line>, last: string)
    requires Covers(texts, prev)
    ensures Covers(texts + [last], if last != "" then prev + [Line(|texts| + 1, last)] else prev)
  {
    var all := texts + [last];
    var r := if last != "" then prev + [Line(|texts| + 1, last)] else prev;
    forall i | 0 <= i < |all| && all[i] != ""
      ensures exists k :: 0 <= k < |r| && r[k].lineno == i + 1
    {
      if i < |texts| {
        assert all[i] == texts[i];
        var k :| 0 <= k < |prev| && prev[k].lineno == i + 1;
        assert r[k] == prev[k];
      } else {
        assert r[|prev|].lineno == i + 1;
      }
    }
  }

  // ---------------------------------------------------------------------
  // First pass: labels and addresses (Assembler.py, lines 167-183).

  /** What `':' in line` and `line.split(':', 1)` make of a line: the stripped label, if any, and the stripped rest. */
  datatype Split = Split(tag: Option<string>, instr: string)

  /** `line.split(':', 1)`, both parts stripped; a line without ':' is all instruction. */
  function SplitLabel(text: string): (r: Split)
    ensures r.tag.None? <==> ':' !in text
    ensures r.tag.None? ==> r.instr == text
    ensures r.tag.Some? ==>
      exists k :: 0 <= k < |text| && text[k] == ':' && ':' !in text[..k] &&
        r.tag.value == Strip(text[..k]) && r.instr == Strip(text[k + 1..])
  {
    if ':' in text then
      var k := Find(text, ':');
      ColonWitness(text, k);
      Split(Some(Strip(text[..k])), Strip(text[k + 1..]))
    else Split(None, text)
  }

  lemma ColonWitness(text: string, k: int)
    requires 0 <= k < |text| && text[k] == ':' && ':' !in text[..k]
    ensures exists j :: 0 <= j < |text| && text[j] == ':' && ':' !in text[..j] &&
                        Strip(text[..k]) == Strip(text[..j]) && Strip(text[k + 1..]) == Strip(text[j + 1..])
  {
  }

  datatype Parsed = Parsed(lineno: nat, split: Split)

  function ParseLines(lines: seq<Line>): (r: seq<Parsed>)
    ensures |r| == |lines|
  {
    seq(|lines|, i requires 0 <= i < |lines| => Parsed(lines[i].lineno, SplitLabel(lines[i].text)))
  }

  /** A line queued for encoding: its address, its instruction text and its source line number. */
  datatype Queued = Queued(addr: int, text: string, lineno: nat)

  datatype Labelled = Labelled(labels: map<string, int>, queued: seq<Queued>, address: int)

  predicate Declares(line: Parsed, name: string) {
    line.split.tag == Some(name)
  }

  /**
   * One line of the first pass. A label takes the current address; a line
   * with text after the label (or without any label) is queued at that
   * address, and only a queued line moves the address on by four.
   */
  function LabelStep(p: Labelled, line: Parsed): (r: Labelled)
    ensures |p.queued| <= |r.queued| <= |p.queued| + 1 && r.queued[..|p.queued|] == p.queued
    ensures r.address == p.address + 4 * (|r.queued| - |p.queued|)
    ensures p.labels.Keys <= r.labels.Keys
  {
    var queued := p.queued + [Queued(p.address, line.split.instr, line.lineno)];
    match line.split.tag
    case None => Labelled(p.labels, queued, p.address + 4)
    case Some(name) =>
      var labels := p.labels[name := p.address];
      if line.split.instr != "" then Labelled(labels, queued, p.address + 4)
      else Labelled(labels, p.queued, p.address)
  }

  function FirstPass(lines: seq<Parsed>): (r: Labelled)
    ensures |r.queued| <= |lines|
  {
    if lines == [] then Labelled(map[], [], 0)
    else LabelStep(FirstPass(lines[..|lines| - 1]), lines[|lines| - 1])
  }

  /** The first pass over the numbered lines of the source. */
  function Labels(lines: seq<Line>): Labelled {
    FirstPass(ParseLines(lines))
  }

  lemma FirstPassSnoc(lines: seq<Parsed>, i: nat)
    requires i < |lines|
    ensures FirstPass(lines[..i + 1]) == LabelStep(FirstPass(lines[..i]), lines[i])
  {
    assert lines[..i + 1][..i] == lines[..i];
  }

  /** The k-th queued instruction sits at byte address 4k, and the address counter is 4 times their number. */
  ghost predicate Sequential(p: Labelled) {
    p.address == 4 * |p.queued| && forall k :: 0 <= k < |p.queued| ==> p.queued[k].addr == 4 * k
  }

  lemma {:induction false} FirstPassSequential(lines: seq<Parsed>)
    ensures Sequential(FirstPass(lines))
  {
    if lines != [] {
      FirstPassSequential(lines[..|lines| - 1]);
    }
  }

  /**
   * At most one queued instruction per line: each is the instruction part of
   * some line, tagged with that line's number, and lines without a label are
   * never dropped.
   */
  lemma {:induction false} FirstPassQueues(lines: seq<Parsed>)
    ensures |FirstPass(lines).queued| <= |lines|
    ensures forall k :: 0 <= k < |FirstPass(lines).queued| ==>
      exists i :: 0 <= i < |lines| &&
        lines[i].lineno == FirstPass(lines).queued[k].lineno && lines[i].split.instr == FirstPass(lines).queued[k].text
    ensures (forall i :: 0 <= i < |lines| ==> lines[i].split.tag.None?) ==> |FirstPass(lines).queued| == |lines|
  {
    if lines != [] {
      var n := |lines|;
      var init := lines[..n - 1];
      FirstPassQueues(init);
      FirstPassSnoc(lines, n - 1);
      assert lines[..n] == lines;
      var p := FirstPass(init);
      var q := FirstPass(lines).queued;
      forall k | 0 <= k < |q|
        ensures exists i :: 0 <= i < n && lines[i].lineno == q[k].lineno && lines[i].split.instr == q[k].text
      {
        if k < |p.queued| {
          assert q[k] == p.queued[k];
          var i :| 0 <= i < n - 1 && init[i].lineno == p.queued[k].lineno && init[i].split.instr == p.queued[k].text;
          assert lines[i] == init[i];
        } else {
          assert q[k] == Queued(p.address, lines[n - 1].split.instr, lines[n - 1].lineno);
        }
      }
      if forall i :: 0 <= i < n ==> lines[i].split.tag.None? {
        assert forall i :: 0 <= i < n - 1 ==> init[i] == lines[i];
      }
    }
  }

  /** A line that does not declare `name` leaves its entry alone. */
  lemma StepKeepsLabel(p: Labelled, line: Parsed, name: string)
    requires !Declares(line, name)
    ensures name in LabelStep(p, line).labels <==> name in p.labels
    ensures name in p.labels ==> LabelStep(p, line).labels[name] == p.labels[name]
  {
  }

  /** A label is defined exactly when some line declares it. */
  lemma {:induction false} LabelDefined(lines: seq<Parsed>, name: string)
    ensures name in FirstPass(lines).labels <==> exists i :: 0 <= i < |lines| && Declares(lines[i], name)
  {
    if lines != [] {
      var n := |lines|;
      var init := lines[..n - 1];
      LabelDefined(init, name);
      FirstPassSnoc(lines, n - 1);
      assert lines[..n] == lines;
      assert forall i :: 0 <= i < n - 1 ==> init[i] == lines[i];
      if !Declares(lines[n - 1], name) {
        StepKeepsLabel(FirstPass(init), lines[n - 1], name);
      }
    }
  }

  /**
   * The address of a label is the address counter just before the LAST line
   * that declares it: a label declared twice keeps the later address.
   */
  lemma {:induction false} LabelAddress(lines: seq<Parsed>, name: string, i: nat)
    requires i < |lines| && Declares(lines[i], name)
    requires forall j :: i < j < |lines| ==> !Declares(lines[j], name)
    ensures name in FirstPass(lines).labels && FirstPass(lines).labels[name] == FirstPass(lines[..i]).address
    ensures FirstPass(lines[..i]).address == 4 * |FirstPass(lines[..i]).queued|
  {
    FirstPassSequential(lines[..i]);
    var n := |lines|;
    var init := lines[..n - 1];
    FirstPassSnoc(lines, n - 1);
    assert lines[..n] == lines;
    if i < n - 1 {
      assert init[..i] == lines[..i];
      assert forall j :: i < j < n - 1 ==> init[j] == lines[j];
      LabelAddress(init, name, i);
      StepKeepsLabel(FirstPass(init), lines[n - 1], name);
    } else {
      assert init == lines[..i];
      StepBindsLabel(FirstPass(init), lines[n - 1], name);
    }
  }

  /** A line declaring `name` binds it to the address counter before that line. */
  lemma StepBindsLabel(p: Labelled, line: Parsed, name: string)
    requires Declares(line, name)
    ensures name in LabelStep(p, line).labels && LabelStep(p, line).labels[name] == p.address
  {
  }

  /**
   * A label followed (on its own line or a later one) by an instruction
   * names the address that instruction is queued at.
   */
  lemma LabelNamesNextInstruction(lines: seq<Parsed>, name: string, i: nat)
    requires i < |lines| && Declares(lines[i], name)
    requires forall j :: i < j < |lines| ==> !Declares(lines[j], name)
    requires |FirstPass(lines[..i]).queued| < |FirstPass(lines).queued|
    ensures name in FirstPass(lines).labels
    ensures FirstPass(lines).labels[name] == FirstPass(lines).queued[|FirstPass(lines[..i]).queued|].addr
  {
    LabelAddress(lines, name, i);
    FirstPassSequential(lines);
  }

  /** `label_addresses` and `processed_lines`, built by the source's loop over the split lines. */
  method LabelPass(lines: seq<Parsed>) returns (labels: map<string, int>, queued: seq<Queued>)
    ensures FirstPass(lines) == Labelled(labels, queued, 4 * |queued|)
  {
    labels, queued := map[], [];
    var address := 0;
    var i := 0;
    while i < |lines|
      invariant 0 <= i <= |lines|
      invariant FirstPass(lines[..i]) == Labelled(labels, queued, address)
    {
      var line := lines[i];
      FirstPassSnoc(lines, i);
      match line.split.tag {
        case Some(name) =>
          labels := labels[name := address];
          if line.split.instr != "" {
            queued := queued + [Queued(address, line.split.instr, line.lineno)];
            address := address + 4;
          }
        case None =>
          queued := queued + [Queued(address, line.split.instr, line.lineno)];
          address := address + 4;
      }
      i := i + 1;
    }
    assert lines[..i] == lines;
    FirstPassSequential(lines);
  }

  // ---------------------------------------------------------------------
  // Tokens: `line.replace(',', ' ').split()`.

  /** A comma counts as white space once replaced by a blank. */
  predicate IsSeparator(c: char) {
    IsSpace(c) || c == ','
  }

  predicate IsToken(t: string) {
    t != [] && forall i :: 0 <= i < |t| ==> !IsSeparator(t[i])
  }

  function SkipSeparators(s: string): (r: string)
    ensures |r| <= |s| && r == s[|s| - |r|..]
    ensures r == [] || !IsSeparator(r[0])
  {
    if s != [] && IsSeparator(s[0]) then SkipSeparators(s[1..]) else s
  }

  function TakeToken(s: string): (r: string)
    ensures |r| <= |s| && r == s[..|r|]
    ensures forall i :: 0 <= i < |r| ==> !IsSeparator(r[i])
    ensures |r| < |s| ==> IsSeparator(s[|r|])
  {
    if s == [] || IsSeparator(s[0]) then []
    else
      var t := TakeToken(s[1..]);
      assert s[1..][..|t|] == s[1..|t| + 1];
      [s[0]] + t
  }

  function Tokenize(s: string): (toks: seq<string>)
    ensures forall k :: 0 <= k < |toks| ==> IsToken(toks[k])
    decreases |s|
  {
    var t := SkipSeparators(s);
    if t == [] then []
    else
      var w := TakeToken(t);
      [w] + Tokenize(t[|w|..])
  }

  /** The tokens written back with one blank between them. */
  function Join(toks: seq<string>): string {
    if toks == [] then ""
    else if |toks| == 1 then toks[0]
    else toks[0] + " " + Join(toks[1..])
  }

  /** Splitting text written as blank-separated tokens gives back those tokens. */
  lemma {:induction false} TokenizeJoin(toks: seq<string>)
    requires forall k :: 0 <= k < |toks| ==> IsToken(toks[k])
    ensures Tokenize(Join(toks)) == toks
  {
    if |toks| == 1 {
      TokenizeCons(toks[0], "");
      assert toks[0] + "" == toks[0];
    } else if |toks| > 1 {
      TokenizeJoin(toks[1..]);
      JoinCons(toks);
      TokenizeJoinStep(Join(toks), toks[0], Join(toks[1..]), toks[1..]);
      HeadTail(toks);
    }
  }

  lemma HeadTail<T>(s: seq<T>)
    requires s != []
    ensures [s[0]] + s[1..] == s
  {
  }

  /** `Join` of two or more tokens: the first, a blank, then the rest joined. */
  lemma JoinCons(toks: seq<string>)
    requires |toks| > 1
    ensures Join(toks) == toks[0] + (" " + Join(toks[1..]))
  {
  }

  lemma TokenizeJoinStep(s: string, w: string, tail: string, toks: seq<string>)
    requires IsToken(w) && Tokenize(tail) == toks && s == w + (" " + tail)
    ensures Tokenize(s) == [w] + toks
  {
    TokenizeCons(w, " " + tail);
    SkipBlank(tail);
  }

  /** A token followed by a separator (or by nothing) is split off as the first token. */
  lemma TokenizeCons(w: string, rest: string)
    requires IsToken(w)
    requires rest == [] || IsSeparator(rest[0])
    ensures Tokenize(w + rest) == [w] + Tokenize(rest)
  {
    SkipToken(w, rest);
    TakeWhole(w, rest);
    assert (w + rest)[|w|..] == rest;
  }

  lemma SkipToken(w: string, rest: string)
    requires IsToken(w)
    ensures SkipSeparators(w + rest) == w + rest
  {
  }

  lemma {:induction false} TakeWhole(w: string, rest: string)
    requires forall i :: 0 <= i < |w| ==> !IsSeparator(w[i])
    requires rest == [] || IsSeparator(rest[0])
    ensures TakeToken(w + rest) == w
  {
    if w != [] {
      assert (w + rest)[1..] == w[1..] + rest;
      TakeWhole(w[1..], rest);
    }
  }

  /** Leading separators are dropped before the first token. */
  lemma SkipBlank(x: string)
    ensures Tokenize(" " + x) == Tokenize(x)
  {
    assert (" " + x)[1..] == x;
    assert SkipSeparators(" " + x) == SkipSeparators(x);
  }

  // ---------------------------------------------------------------------
  // Second pass: one instruction per queued line (Assembler.py, lines 185-249).

  /** The mnemonics the second pass knows, from the five format tables. */
  predicate Known(op: string) {
    op in SType || op in IType || op in BType || op == "jal" || op in RType
  }

  /** The number of tokens, mnemonic included, each format takes. */
  function Arity(op: string): nat {
    if op in SType || op == "lw" || op == "jal" then 3 else 4
  }

  /** The form named in the "Incorrect number of operands for ..." message. */
  function Form(op: string): string {
    if op in SType then "sw"
    else if op == "lw" then "lw"
    else if op in IType then "I-type"
    else if op in BType then "B-type"
    else if op == "jal" then "J-type"
    else "R-type"
  }

  /** The opcode the tables give a known mnemonic. */
  function OpcodeFor(op: string): Opcode
    requires Known(op)
  {
    if op in SType then SType[op].opcode
    else if op in IType then IType[op].opcode
    else if op in BType then BType[op].opcode
    else if op == "jal" then JOpcode
    else RType[op].opcode
  }

  /**
   * A branch or jump target: a numeric operand is an immediate offset, any
   * other operand names a label and yields the label's address minus the
   * address of the instruction itself.
   */
  function Resolve(target: string, addr: int, labels: map<string, int>): (r: Result<int, ErrorKind>)
    ensures IsNumeric(target) ==> r == Immediate(target)
    ensures !IsNumeric(target) ==> (r.Ok? <==> target in labels)
    ensures !IsNumeric(target) && target in labels ==> r.value + addr == labels[target]
    ensures !IsNumeric(target) && target !in labels ==> r.error == UndefinedLabel(target)
  {
    if IsNumeric(target) then Immediate(target)
    else if target in labels then Ok(labels[target] - addr)
    else Err(UndefinedLabel(target))
  }

  /**
   * The `try` block of the second pass for the tokens of one line at address
   * `addr`: the checks run in the source's order and the first that fails
   * decides the error.
   */
  function Encode(tok: seq<string>, addr: int, labels: map<string, int>): (r: Result<Word, ErrorKind>)
    requires tok != []
    ensures !Known(tok[0]) ==> r == Err(UnknownInstruction(tok[0]))
    ensures Known(tok[0]) && |tok| != Arity(tok[0]) ==> r == Err(OperandCount(Form(tok[0])))
    ensures Known(tok[0]) && |tok| == Arity(tok[0]) && RegMem(tok[1]).Err? ==> r == Err(RegMem(tok[1]).error)
    ensures r.Ok? ==> Known(tok[0]) && |tok| == Arity(tok[0]) && r.value[25..] == OpcodeFor(tok[0])
  {
    var op := tok[0];
    if !Known(op) then Err(UnknownInstruction(op))
    else if |tok| != Arity(op) then Err(OperandCount(Form(op)))
    else if op in SType then EncodeStore(tok)
    else if op == "lw" then EncodeLoad(tok)
    else if op in IType then EncodeImmediate(tok)
    else if op in BType then EncodeBranch(tok, addr, labels)
    else if op == "jal" then EncodeJump(tok, addr, labels)
    else EncodeRegister(tok)
  }

  /** `sw rs2, imm(rs1)`. */
  function EncodeStore(tok: seq<string>): (r: Result<Word, ErrorKind>)
    requires |tok| == 3 && tok[0] in SType
    ensures RegMem(tok[1]).Err? ==> r == Err(RegMem(tok[1]).error)
    ensures r.Ok? ==> r.value[25..] == SType[tok[0]].opcode
  {
    var rs2 :- RegMem(tok[1]);
    var parts :- Address(tok[2]);
    var imm :- Immediate(parts.0);
    var rs1 :- RegMem(parts.1);
    Ok(SCode(tok[0], rs1, rs2, imm))
  }

  /** `lw rd, imm(rs1)`. */
  function EncodeLoad(tok: seq<string>): (r: Result<Word, ErrorKind>)
    requires |tok| == 3 && tok[0] == "lw"
    ensures RegMem(tok[1]).Err? ==> r == Err(RegMem(tok[1]).error)
    ensures r.Ok? ==> r.value[25..] == IType["lw"].opcode
  {
    var rd :- RegMem(tok[1]);
    var parts :- Address(tok[2]);
    var imm :- Immediate(parts.0);
    var rs1 :- RegMem(parts.1);
    Ok(ICode("lw", rd, rs1, imm))
  }

  /** `addi rd, rs1, imm` and `jalr rd, rs1, imm`. */
  function EncodeImmediate(tok: seq<string>): (r: Result<Word, ErrorKind>)
    requires |tok| == 4 && tok[0] in IType
    ensures RegMem(tok[1]).Err? ==> r == Err(RegMem(tok[1]).error)
    ensures r.Ok? ==> r.value[25..] == IType[tok[0]].opcode
  {
    var rd :- RegMem(tok[1]);
    var rs1 :- RegMem(tok[2]);
    var imm :- Immediate(tok[3]);
    Ok(ICode(tok[0], rd, rs1, imm))
  }

  /** `beq|bne|blt rs1, rs2, target`. */
  function EncodeBranch(tok: seq<string>, addr: int, labels: map<string, int>): (r: Result<Word, ErrorKind>)
    requires |tok| == 4 && tok[0] in BType
    ensures RegMem(tok[1]).Err? ==> r == Err(RegMem(tok[1]).error)
    ensures r.Ok? ==> r.value[25..] == BType[tok[0]].opcode
  {
    var rs1 :- RegMem(tok[1]);
    var rs2 :- RegMem(tok[2]);
    var offset :- Resolve(tok[3], addr, labels);
    BCode(tok[0], rs1, rs2, offset)
  }

  /** `jal rd, target`. */
  function EncodeJump(tok: seq<string>, addr: int, labels: map<string, int>): (r: Result<Word, ErrorKind>)
    requires |tok| == 3 && tok[0] == "jal"
    ensures RegMem(tok[1]).Err? ==> r == Err(RegMem(tok[1]).error)
    ensures r.Ok? ==> r.value[25..] == JOpcode
  {
    var rd :- RegMem(tok[1]);
    var offset :- Resolve(tok[2], addr, labels);
    JCode(rd, offset)
  }

  /** `add|sub|slt|srl|or|and rd, rs1, rs2`. */
  function EncodeRegister(tok: seq<string>): (r: Result<Word, ErrorKind>)
    requires |tok| == 4 && tok[0] in RType
    ensures RegMem(tok[1]).Err? ==> r == Err(RegMem(tok[1]).error)
    ensures r.Ok? ==> r.value[25..] == RType[tok[0]].opcode
  {
    var rd :- RegMem(tok[1]);
    var rs1 :- RegMem(tok[2]);
    var rs2 :- RegMem(tok[3]);
    Ok(RCode(tok[0], rd, rs1, rs2))
  }

  /** An encoded branch is `B_code` of its two registers and its resolved target. */
  lemma EncodedBranch(tok: seq<string>, addr: int, labels: map<string, int>, w: Word)
    requires |tok| == 4 && tok[0] in BType && Encode(tok, addr, labels) == Ok(w)
    ensures RegMem(tok[1]).Ok? && RegMem(tok[2]).Ok? && Resolve(tok[3], addr, labels).Ok?
    ensures BCode(tok[0], RegMem(tok[1]).value, RegMem(tok[2]).value, Resolve(tok[3], addr, labels).value) == Ok(w)
  {
    BranchMnemonic(tok[0]);
    assert EncodeBranch(tok, addr, labels) == Ok(w);
    BranchParts(tok, addr, labels, w);
  }

  lemma BranchMnemonic(op: string)
    requires op in BType
    ensures op !in SType && op != "lw" && op !in IType && Known(op) && Arity(op) == 4
  {
  }

  lemma BranchParts(tok: seq<string>, addr: int, labels: map<string, int>, w: Word)
    requires |tok| == 4 && tok[0] in BType && EncodeBranch(tok, addr, labels) == Ok(w)
    ensures RegMem(tok[1]).Ok? && RegMem(tok[2]).Ok? && Resolve(tok[3], addr, labels).Ok?
    ensures BCode(tok[0], RegMem(tok[1]).value, RegMem(tok[2]).value, Resolve(tok[3], addr, labels).value) == Ok(w)
  {
  }

  /** An encoded jal is `J_code` of its link register and its resolved target. */
  lemma EncodedJump(tok: seq<string>, addr: int, labels: map<string, int>, w: Word)
    requires |tok| == 3 && tok[0] == "jal" && Encode(tok, addr, labels) == Ok(w)
    ensures RegMem(tok[1]).Ok? && Resolve(tok[2], addr, labels).Ok?
    ensures JCode(RegMem(tok[1]).value, Resolve(tok[2], addr, labels).value) == Ok(w)
  {
    JumpMnemonic(tok[0]);
    assert EncodeJump(tok, addr, labels) == Ok(w);
    JumpParts(tok, addr, labels, w);
  }

  lemma JumpMnemonic(op: string)
    requires op == "jal"
    ensures op !in SType && op != "lw" && op !in IType && op !in BType && Known(op) && Arity(op) == 3
  {
  }

  lemma JumpParts(tok: seq<string>, addr: int, labels: map<string, int>, w: Word)
    requires |tok| == 3 && tok[0] == "jal" && EncodeJump(tok, addr, labels) == Ok(w)
    ensures RegMem(tok[1]).Ok? && Resolve(tok[2], addr, labels).Ok?
    ensures JCode(RegMem(tok[1]).value, Resolve(tok[2], addr, labels).value) == Ok(w)
  {
  }

  /** An `sw rs2, imm(rs1)` line encodes exactly when all four operand parts do, and then it is `S_code` of them. */
  lemma EncodedStore(tok: seq<string>, addr: int, labels: map<string, int>)
    requires |tok| == 3 && tok[0] in SType
    ensures Encode(tok, addr, labels).Ok? <==>
      RegMem(tok[1]).Ok? && Address(tok[2]).Ok? &&
      Immediate(Address(tok[2]).value.0).Ok? && RegMem(Address(tok[2]).value.1).Ok?
    ensures Encode(tok, addr, labels).Ok? ==>
      Encode(tok, addr, labels).value ==
        SCode(tok[0], RegMem(Address(tok[2]).value.1).value, RegMem(tok[1]).value, Immediate(Address(tok[2]).value.0).value)
  {
    StoreMnemonic(tok[0]);
    assert Encode(tok, addr, labels) == EncodeStore(tok);
  }

  /** After a good rs2 and a well-formed `imm(reg)`, a bad immediate and then a bad base register are reported. */
  lemma StoreOperandErrors(tok: seq<string>, addr: int, labels: map<string, int>)
    requires |tok| == 3 && tok[0] in SType && RegMem(tok[1]).Ok? && Address(tok[2]).Ok?
    ensures Immediate(Address(tok[2]).value.0).Err? ==>
      Encode(tok, addr, labels) == Err(BadImmediate(Address(tok[2]).value.0))
    ensures Immediate(Address(tok[2]).value.0).Ok? && RegMem(Address(tok[2]).value.1).Err? ==>
      Encode(tok, addr, labels) == Err(UnknownRegister(Strip(Address(tok[2]).value.1)))
  {
    StoreMnemonic(tok[0]);
    assert Encode(tok, addr, labels) == EncodeStore(tok);
  }

  /** An `lw rd, imm(rs1)` line encodes exactly when all four operand parts do, and then it is `I_code` of them. */
  lemma EncodedLoad(tok: seq<string>, addr: int, labels: map<string, int>)
    requires |tok| == 3 && tok[0] == "lw"
    ensures Encode(tok, addr, labels).Ok? <==>
      RegMem(tok[1]).Ok? && Address(tok[2]).Ok? &&
      Immediate(Address(tok[2]).value.0).Ok? && RegMem(Address(tok[2]).value.1).Ok?
    ensures Encode(tok, addr, labels).Ok? ==>
      Encode(tok, addr, labels).value ==
        ICode("lw", RegMem(tok[1]).value, RegMem(Address(tok[2]).value.1).value, Immediate(Address(tok[2]).value.0).value)
  {
    LoadMnemonic(tok[0]);
    assert Encode(tok, addr, labels) == EncodeLoad(tok);
  }

  /** After a good rd and a well-formed `imm(reg)`, a bad immediate and then a bad base register are reported. */
  lemma LoadOperandErrors(tok: seq<string>, addr: int, labels: map<string, int>)
    requires |tok| == 3 && tok[0] == "lw" && RegMem(tok[1]).Ok? && Address(tok[2]).Ok?
    ensures Immediate(Address(tok[2]).value.0).Err? ==>
      Encode(tok, addr, labels) == Err(BadImmediate(Address(tok[2]).value.0))
    ensures Immediate(Address(tok[2]).value.0).Ok? && RegMem(Address(tok[2]).value.1).Err? ==>
      Encode(tok, addr, labels) == Err(UnknownRegister(Strip(Address(tok[2]).value.1)))
  {
    LoadMnemonic(tok[0]);
    assert Encode(tok, addr, labels) == EncodeLoad(tok);
  }

  /** An `addi`/`jalr rd, rs1, imm` line encodes exactly when its three operands do, and then it is `I_code` of them. */
  lemma EncodedImmediate(tok: seq<string>, addr: int, labels: map<string, int>)
    requires |tok| == 4 && tok[0] in IType && tok[0] != "lw"
    ensures Encode(tok, addr, labels).Ok? <==>
      RegMem(tok[1]).Ok? && RegMem(tok[2]).Ok? && Immediate(tok[3]).Ok?
    ensures Encode(tok, addr, labels).Ok? ==>
      Encode(tok, addr, labels).value == ICode(tok[0], RegMem(tok[1]).value, RegMem(tok[2]).value, Immediate(tok[3]).value)
  {
    ImmediateMnemonic(tok[0]);
    assert Encode(tok, addr, labels) == EncodeImmediate(tok);
  }

  /** After a good rd, a bad rs1 and then a bad immediate are reported. */
  lemma ImmediateOperandErrors(tok: seq<string>, addr: int, labels: map<string, int>)
    requires |tok| == 4 && tok[0] in IType && tok[0] != "lw" && RegMem(tok[1]).Ok?
    ensures RegMem(tok[2]).Err? ==> Encode(tok, addr, labels) == Err(UnknownRegister(Strip(tok[2])))
    ensures RegMem(tok[2]).Ok? && Immediate(tok[3]).Err? ==> Encode(tok, addr, labels) == Err(BadImmediate(tok[3]))
  {
    ImmediateMnemonic(tok[0]);
    assert Encode(tok, addr, labels) == EncodeImmediate(tok);
  }

  /** An R-type line encodes exactly when its three registers do, and then it is `R_code` of them. */
  lemma EncodedRegister(tok: seq<string>, addr: int, labels: map<string, int>)
    requires |tok| == 4 && tok[0] in RType
    ensures Encode(tok, addr, labels).Ok? <==> RegMem(tok[1]).Ok? && RegMem(tok[2]).Ok? && RegMem(tok[3]).Ok?
    ensures Encode(tok, addr, labels).Ok? ==>
      Encode(tok, addr, labels).value == RCode(tok[0], RegMem(tok[1]).value, RegMem(tok[2]).value, RegMem(tok[3]).value)
  {
    RegisterMnemonic(tok[0]);
    assert Encode(tok, addr, labels) == EncodeRegister(tok);
  }

  /** After a good rd, a bad rs1 and then a bad rs2 are reported. */
  lemma RegisterOperandErrors(tok: seq<string>, addr: int, labels: map<string, int>)
    requires |tok| == 4 && tok[0] in RType && RegMem(tok[1]).Ok?
    ensures RegMem(tok[2]).Err? ==> Encode(tok, addr, labels) == Err(UnknownRegister(Strip(tok[2])))
    ensures RegMem(tok[2]).Ok? && RegMem(tok[3]).Err? ==> Encode(tok, addr, labels) == Err(UnknownRegister(Strip(tok[3])))
  {
    RegisterMnemonic(tok[0]);
    assert Encode(tok, addr, labels) == EncodeRegister(tok);
  }

  /** A branch line encodes exactly when both registers parse and the target resolves to an even offset. */
  lemma EncodedBranchParts(tok: seq<string>, addr: int, labels: map<string, int>)
    requires |tok| == 4 && tok[0] in BType
    ensures Encode(tok, addr, labels).Ok? <==>
      RegMem(tok[1]).Ok? && RegMem(tok[2]).Ok? && Resolve(tok[3], addr, labels).Ok? &&
      Resolve(tok[3], addr, labels).value % 2 == 0
  {
    BranchMnemonic(tok[0]);
    assert Encode(tok, addr, labels) == EncodeBranch(tok, addr, labels);
  }

  /** After a good rs1, a bad rs2 and then a numeric target `Immediate` rejects are reported. */
  lemma BranchOperandErrors(tok: seq<string>, addr: int, labels: map<string, int>)
    requires |tok| == 4 && tok[0] in BType && RegMem(tok[1]).Ok?
    ensures RegMem(tok[2]).Err? ==> Encode(tok, addr, labels) == Err(UnknownRegister(Strip(tok[2])))
    ensures RegMem(tok[2]).Ok? && IsNumeric(tok[3]) && Immediate(tok[3]).Err? ==>
      Encode(tok, addr, labels) == Err(BadImmediate(tok[3]))
  {
    BranchMnemonic(tok[0]);
    assert Encode(tok, addr, labels) == EncodeBranch(tok, addr, labels);
  }

  /** A jal line encodes exactly when its link register parses and the target resolves to an even offset. */
  lemma EncodedJumpParts(tok: seq<string>, addr: int, labels: map<string, int>)
    requires |tok| == 3 && tok[0] == "jal"
    ensures Encode(tok, addr, labels).Ok? <==>
      RegMem(tok[1]).Ok? && Resolve(tok[2], addr, labels).Ok? && Resolve(tok[2], addr, labels).value % 2 == 0
  {
    JumpMnemonic(tok[0]);
    assert Encode(tok, addr, labels) == EncodeJump(tok, addr, labels);
  }

  /** After a good rd, a numeric target `Immediate` rejects is reported. */
  lemma JumpOperandErrors(tok: seq<string>, addr: int, labels: map<string, int>)
    requires |tok| == 3 && tok[0] == "jal" && RegMem(tok[1]).Ok?
    ensures IsNumeric(tok[2]) && Immediate(tok[2]).Err? ==> Encode(tok, addr, labels) == Err(BadImmediate(tok[2]))
  {
    JumpMnemonic(tok[0]);
    assert Encode(tok, addr, labels) == EncodeJump(tok, addr, labels);
  }

  lemma StoreMnemonic(op: string)
    requires op in SType
    ensures Known(op) && Arity(op) == 3
  {
  }

  lemma LoadMnemonic(op: string)
    requires op == "lw"
    ensures op !in SType && Known(op) && Arity(op) == 3
  {
  }

  lemma ImmediateMnemonic(op: string)
    requires op in IType && op != "lw"
    ensures op !in SType && Known(op) && Arity(op) == 4
  {
  }

  lemma RegisterMnemonic(op: string)
    requires op in RType
    ensures op !in SType && op != "lw" && op !in IType && op !in BType && op != "jal" && Known(op) && Arity(op) == 4
  {
  }

  /** A `sw` or `lw` whose memory operand lacks a parenthesis (or has them reversed) fails with that operand. */
  lemma MalformedOperand(tok: seq<string>, addr: int, labels: map<string, int>)
    requires |tok| == 3 && (tok[0] in SType || tok[0] == "lw")
    requires RegMem(tok[1]).Ok? && Address(tok[2]).Err?
    ensures Encode(tok, addr, labels) == Err(MalformedMemory(tok[2]))
  {
    if tok[0] in SType {
      assert Encode(tok, addr, labels) == EncodeStore(tok);
    } else {
      assert Encode(tok, addr, labels) == EncodeLoad(tok);
    }
  }

  /** A branch whose target is neither numeric nor a defined label fails naming the target. */
  lemma UndefinedBranchLabel(tok: seq<string>, addr: int, labels: map<string, int>)
    requires |tok| == 4 && tok[0] in BType
    requires RegMem(tok[1]).Ok? && RegMem(tok[2]).Ok? && !IsNumeric(tok[3]) && tok[3] !in labels
    ensures Encode(tok, addr, labels) == Err(UndefinedLabel(tok[3]))
  {
    BranchMnemonic(tok[0]);
    assert Encode(tok, addr, labels) == EncodeBranch(tok, addr, labels);
    assert Resolve(tok[3], addr, labels) == Err(UndefinedLabel(tok[3]));
  }

  /** A jump whose target is neither numeric nor a defined label fails naming the target. */
  lemma UndefinedJumpLabel(tok: seq<string>, addr: int, labels: map<string, int>)
    requires |tok| == 3 && tok[0] == "jal"
    requires RegMem(tok[1]).Ok? && !IsNumeric(tok[2]) && tok[2] !in labels
    ensures Encode(tok, addr, labels) == Err(UndefinedLabel(tok[2]))
  {
    JumpMnemonic(tok[0]);
    assert Encode(tok, addr, labels) == EncodeJump(tok, addr, labels);
    assert Resolve(tok[2], addr, labels) == Err(UndefinedLabel(tok[2]));
  }

  /** A branch whose resolved offset is odd fails, whatever its registers and target. */
  lemma OddBranch(tok: seq<string>, addr: int, labels: map<string, int>)
    requires |tok| == 4 && tok[0] in BType
    requires RegMem(tok[1]).Ok? && RegMem(tok[2]).Ok? && Resolve(tok[3], addr, labels).Ok?
    requires Resolve(tok[3], addr, labels).value % 2 != 0
    ensures Encode(tok, addr, labels) == Err(OddBranchOffset)
  {
    BranchMnemonic(tok[0]);
    assert Encode(tok, addr, labels) == EncodeBranch(tok, addr, labels);
    BranchResolved(tok, addr, labels);
  }

  /** A jal whose resolved offset is odd fails, whatever its link register and target. */
  lemma OddJump(tok: seq<string>, addr: int, labels: map<string, int>)
    requires |tok| == 3 && tok[0] == "jal"
    requires RegMem(tok[1]).Ok? && Resolve(tok[2], addr, labels).Ok?
    requires Resolve(tok[2], addr, labels).value % 2 != 0
    ensures Encode(tok, addr, labels) == Err(OddJumpOffset)
  {
    JumpMnemonic(tok[0]);
    assert Encode(tok, addr, labels) == EncodeJump(tok, addr, labels);
  }

  lemma BranchResolved(tok: seq<string>, addr: int, labels: map<string, int>)
    requires |tok| == 4 && tok[0] in BType
    requires RegMem(tok[1]).Ok? && RegMem(tok[2]).Ok? && Resolve(tok[3], addr, labels).Ok?
    ensures EncodeBranch(tok, addr, labels) ==
      BCode(tok[0], RegMem(tok[1]).value, RegMem(tok[2]).value, Resolve(tok[3], addr, labels).value)
  {
  }

  /** What the second pass makes of one queued line. */
  datatype Outcome = Skip | Emit(word: Word) | Fail(kind: ErrorKind)

  /** One entry of `errors`: "Error on line <lineno>: <kind>". */
  datatype LineError = LineError(lineno: nat, kind: ErrorKind)

  /** `binary_lines` and `errors` once the second pass is over. */
  datatype Assembled = Assembled(binary: seq<Word>, errors: seq<LineError>)

  /** A line made only of blanks and commas has no tokens and is passed over. */
  function EncodeLine(q: Queued, labels: map<string, int>): (o: Outcome)
    ensures o.Skip? <==> forall i :: 0 <= i < |q.text| ==> IsSeparator(q.text[i])
  {
    var tok := Tokenize(q.text);
    TokenizeEmpty(q.text);
    if tok == [] then Skip
    else
      match Encode(tok, q.addr, labels)
      case Ok(w) => Emit(w)
      case Err(e) => Fail(e)
  }

  lemma TokenizeEmpty(s: string)
    ensures Tokenize(s) == [] <==> forall i :: 0 <= i < |s| ==> IsSeparator(s[i])
  {
    SkipAll(s);
  }

  lemma {:induction false} SkipAll(s: string)
    ensures SkipSeparators(s) == [] <==> forall i :: 0 <= i < |s| ==> IsSeparator(s[i])
  {
    if s != [] && IsSeparator(s[0]) {
      SkipAll(s[1..]);
      assert forall i :: 1 <= i < |s| ==> s[i] == s[1..][i - 1];
    }
  }

  /** The outcome of every queued line. */
  function Outcomes(queued: seq<Queued>, labels: map<string, int>): (outs: seq<Outcome>)
    ensures |outs| == |queued| && forall k :: 0 <= k < |queued| ==> outs[k] == EncodeLine(queued[k], labels)
  {
    seq(|queued|, k requires 0 <= k < |queued| => EncodeLine(queued[k], labels))
  }

  /** The second pass: the queued lines' outcomes gathered one line at a time from the first. */
  function Gather(queued: seq<Queued>, outs: seq<Outcome>): (a: Assembled)
    requires |outs| == |queued|
    ensures |a.binary| + |a.errors| <= |queued|
  {
    if queued == [] then Assembled([], [])
    else
      var n := |queued|;
      var prev := Gather(queued[..n - 1], outs[..n - 1]);
      match outs[n - 1]
      case Skip => prev
      case Emit(w) => Assembled(prev.binary + [w], prev.errors)
      case Fail(e) => Assembled(prev.binary, prev.errors + [LineError(queued[n - 1].lineno, e)])
  }

  function Collect(queued: seq<Queued>, labels: map<string, int>): (a: Assembled)
    ensures |a.binary| + |a.errors| <= |queued|
  {
    Gather(queued, Outcomes(queued, labels))
  }

  predicate Picks(o: Outcome, emit: bool) {
    if emit then o.Emit? else o.Fail?
  }

  /** The positions, in increasing order, of the outcomes that emit a word (`emit`) or fail (`!emit`). */
  ghost function Indices(outs: seq<Outcome>, emit: bool): (ix: seq<nat>)
  {
    if outs == [] then []
    else
      var n := |outs|;
      var prev := Indices(outs[..n - 1], emit);
      if Picks(outs[n - 1], emit) then prev + [n - 1] else prev
  }

  /** `ix` lists, in increasing order, exactly the positions whose outcome `emit` selects. */
  ghost predicate Positions(outs: seq<Outcome>, emit: bool, ix: seq<nat>) {
    Selected(outs, emit, ix) && Increasing(ix) && Complete(outs, emit, ix)
  }

  ghost predicate Selected(outs: seq<Outcome>, emit: bool, ix: seq<nat>) {
    forall j :: 0 <= j < |ix| ==> ix[j] < |outs| && Picks(outs[ix[j]], emit)
  }

  ghost predicate Increasing(ix: seq<nat>) {
    forall j, m :: 0 <= j < m < |ix| ==> ix[j] < ix[m]
  }

  ghost predicate Complete(outs: seq<Outcome>, emit: bool, ix: seq<nat>) {
    forall k :: 0 <= k < |outs| && Picks(outs[k], emit) ==> k in ix
  }

  /** The j-th word is the word of the j-th emitting line. */
  ghost predicate WordsFrom(outs: seq<Outcome>, binary: seq<Word>, ix: seq<nat>) {
    |ix| == |binary| &&
    forall j :: 0 <= j < |ix| ==> ix[j] < |outs| && outs[ix[j]] == Emit(binary[j])
  }

  /** The j-th error is the error of the j-th failing line, tagged with its line number. */
  ghost predicate ErrorsFrom(queued: seq<Queued>, outs: seq<Outcome>, errors: seq<LineError>, ix: seq<nat>)
    requires |outs| == |queued|
  {
    |ix| == |errors| &&
    forall j :: 0 <= j < |ix| ==>
      ix[j] < |outs| && outs[ix[j]] == Fail(errors[j].kind) && errors[j].lineno == queued[ix[j]].lineno
  }

  /**
   * Every line that emits contributes its word and every failing line its one
   * error, in the order of the lines; a line that fails emits nothing and a
   * blank one contributes to neither list.
   */
  lemma CollectOrigins(queued: seq<Queued>, labels: map<string, int>)
    ensures
      var outs := Outcomes(queued, labels);
      var a := Collect(queued, labels);
      Positions(outs, true, Indices(outs, true)) && Positions(outs, false, Indices(outs, false)) &&
      WordsFrom(outs, a.binary, Indices(outs, true)) && ErrorsFrom(queued, outs, a.errors, Indices(outs, false))
  {
    var outs := Outcomes(queued, labels);
    IndicesPositions(outs, true);
    IndicesPositions(outs, false);
    GatherWords(queued, outs);
    GatherErrors(queued, outs);
  }

  lemma {:induction false} IndicesPositions(outs: seq<Outcome>, emit: bool)
    ensures Positions(outs, emit, Indices(outs, emit))
  {
    if outs != [] {
      var n := |outs|;
      var prev := Indices(outs[..n - 1], emit);
      var ix := if Picks(outs[n - 1], emit) then prev + [n - 1] else prev;
      assert Indices(outs, emit) == ix;
      IndicesPositions(outs[..n - 1], emit);
      SelectedSnoc(outs, emit, prev);
      if Picks(outs[n - 1], emit) {
        IncreasingSnoc(prev, n - 1, n - 1);
      }
      CompleteSnoc(outs, emit, prev);
      assert Positions(outs, emit, ix);
    }
  }

  lemma {:induction false} GatherWords(queued: seq<Queued>, outs: seq<Outcome>)
    requires |outs| == |queued|
    ensures WordsFrom(outs, Gather(queued, outs).binary, Indices(outs, true))
  {
    if queued != [] {
      var n := |queued|;
      var o := outs[n - 1];
      var prevWords, prev := Gather(queued[..n - 1], outs[..n - 1]).binary, Indices(outs[..n - 1], true);
      assert Gather(queued, outs).binary == if o.Emit? then prevWords + [o.word] else prevWords;
      assert Indices(outs, true) == if Picks(o, true) then prev + [n - 1] else prev;
      GatherWords(queued[..n - 1], outs[..n - 1]);
      WordsSnoc(outs, prevWords, prev);
    }
  }

  lemma {:induction false} GatherErrors(queued: seq<Queued>, outs: seq<Outcome>)
    requires |outs| == |queued|
    ensures ErrorsFrom(queued, outs, Gather(queued, outs).errors, Indices(outs, false))
  {
    if queued != [] {
      var n := |queued|;
      var o := outs[n - 1];
      var prevErrors, prev := Gather(queued[..n - 1], outs[..n - 1]).errors, Indices(outs[..n - 1], false);
      assert Gather(queued, outs).errors ==
        if o.Fail? then prevErrors + [LineError(queued[n - 1].lineno, o.kind)] else prevErrors;
      assert Indices(outs, false) == if Picks(o, false) then prev + [n - 1] else prev;
      GatherErrors(queued[..n - 1], outs[..n - 1]);
      ErrorsSnoc(queued, outs, prevErrors, prev);
    }
  }

  lemma SelectedSnoc(outs: seq<Outcome>, emit: bool, prev: seq<nat>)
    requires outs != [] && Selected(outs[..|outs| - 1], emit, prev)
    ensures Selected(outs, emit, if Picks(outs[|outs| - 1], emit) then prev + [|outs| - 1] else prev)
  {
    var n := |outs|;
    var init := outs[..n - 1];
    var ix := if Picks(outs[n - 1], emit) then prev + [n - 1] else prev;
    forall j | 0 <= j < |ix|
      ensures ix[j] < n && Picks(outs[ix[j]], emit)
    {
      if j < |prev| {
        assert ix[j] == prev[j] && outs[prev[j]] == init[prev[j]];
      }
    }
  }

  /** Appending a position beyond every listed one keeps the list increasing. */
  lemma IncreasingSnoc(prev: seq<nat>, last: nat, bound: nat)
    requires Increasing(prev) && (forall j :: 0 <= j < |prev| ==> prev[j] < bound) && bound <= last
    ensures Increasing(prev + [last])
  {
    var ix := prev + [last];
    forall j, m | 0 <= j < m < |ix|
      ensures ix[j] < ix[m]
    {
      assert ix[j] == prev[j];
      if m < |prev| {
        assert ix[m] == prev[m];
      }
    }
  }

  lemma CompleteSnoc(outs: seq<Outcome>, emit: bool, prev: seq<nat>)
    requires outs != [] && Complete(outs[..|outs| - 1], emit, prev)
    ensures Complete(outs, emit, if Picks(outs[|outs| - 1], emit) then prev + [|outs| - 1] else prev)
  {
    var n := |outs|;
    var init := outs[..n - 1];
    var ix := if Picks(outs[n - 1], emit) then prev + [n - 1] else prev;
    forall k | 0 <= k < n && Picks(outs[k], emit)
      ensures k in ix
    {
      if k < n - 1 {
        assert outs[k] == init[k];
        assert k in prev;
      } else {
        assert ix[|ix| - 1] == k;
      }
    }
  }

  lemma WordsSnoc(outs: seq<Outcome>, binary: seq<Word>, prev: seq<nat>)
    requires outs != [] && WordsFrom(outs[..|outs| - 1], binary, prev)
    ensures
      var o := outs[|outs| - 1];
      WordsFrom(outs, if o.Emit? then binary + [o.word] else binary, if Picks(o, true) then prev + [|outs| - 1] else prev)
  {
    var n := |outs|;
    var init := outs[..n - 1];
    var o := outs[n - 1];
    var ix := if Picks(o, true) then prev + [n - 1] else prev;
    var words := if o.Emit? then binary + [o.word] else binary;
    forall j | 0 <= j < |ix|
      ensures ix[j] < n && outs[ix[j]] == Emit(words[j])
    {
      if j < |prev| {
        assert ix[j] == prev[j] && words[j] == binary[j] && outs[prev[j]] == init[prev[j]];
      }
    }
  }

  lemma ErrorsSnoc(queued: seq<Queued>, outs: seq<Outcome>, errors: seq<LineError>, prev: seq<nat>)
    requires queued != [] && |outs| == |queued|
    requires ErrorsFrom(queued[..|queued| - 1], outs[..|outs| - 1], errors, prev)
    ensures
      var o := outs[|outs| - 1];
      ErrorsFrom(queued, outs,
        if o.Fail? then errors + [LineError(queued[|queued| - 1].lineno, o.kind)] else errors,
        if Picks(o, false) then prev + [|outs| - 1] else prev)
  {
    var n := |outs|;
    var init, prior := queued[..n - 1], outs[..n - 1];
    var o := outs[n - 1];
    var ix := if Picks(o, false) then prev + [n - 1] else prev;
    var errs := if o.Fail? then errors + [LineError(queued[n - 1].lineno, o.kind)] else errors;
    forall j | 0 <= j < |ix|
      ensures ix[j] < n && outs[ix[j]] == Fail(errs[j].kind) && errs[j].lineno == queued[ix[j]].lineno
    {
      if j < |prev| {
        assert ix[j] == prev[j] && errs[j] == errors[j];
        assert outs[prev[j]] == prior[prev[j]] && queued[prev[j]] == init[prev[j]];
      }
    }
  }

  /** When every line emits a word, the k-th word is the k-th line's and there are no errors. */
  lemma {:induction false} GatherAllEmit(queued: seq<Queued>, outs: seq<Outcome>)
    requires |outs| == |queued| && forall k :: 0 <= k < |outs| ==> outs[k].Emit?
    ensures Gather(queued, outs).errors == []
    ensures |Gather(queued, outs).binary| == |queued|
    ensures forall k :: 0 <= k < |queued| ==> Gather(queued, outs).binary[k] == outs[k].word
  {
    if queued != [] {
      var n := |queued|;
      var prior := outs[..n - 1];
      assert forall k :: 0 <= k < n - 1 ==> prior[k] == outs[k];
      GatherAllEmit(queued[..n - 1], prior);
    }
  }

  /**
   * A program in which every line encodes assembles to one word per queued
   * line, the k-th being the encoding of the line at address 4k.
   */
  lemma CollectAllEmit(queued: seq<Queued>, labels: map<string, int>)
    requires forall k :: 0 <= k < |queued| ==> EncodeLine(queued[k], labels).Emit?
    ensures Collect(queued, labels).errors == []
    ensures |Collect(queued, labels).binary| == |queued|
    ensures forall k :: 0 <= k < |queued| ==> Collect(queued, labels).binary[k] == EncodeLine(queued[k], labels).word
  {
    GatherAllEmit(queued, Outcomes(queued, labels));
  }

  /** The whole assembler on the lines of a file: both passes. */
  function AssembleLines(raw: seq<string>): (a: Assembled)
    ensures |a.binary| + |a.errors| <= |raw|
  {
    var p := Labels(NumberedLines(raw));
    Collect(p.queued, p.labels)
  }

  /** `assemble` without its file reading and writing: the label loop, then the encoding loop. */
  method Assemble(raw: seq<string>) returns (binary: seq<Word>, errors: seq<LineError>)
    ensures Assembled(binary, errors) == AssembleLines(raw)
  {
    var lines := NumberedLines(raw);
    var labels, queued := LabelPass(ParseLines(lines));
    binary, errors := SecondPass(queued, labels);
  }

  /** The source's second loop: encode each queued line, collecting its word or its error. */
  method SecondPass(queued: seq<Queued>, labels: map<string, int>) returns (binary: seq<Word>, errors: seq<LineError>)
    ensures Assembled(binary, errors) == Collect(queued, labels)
  {
    ghost var outs := Outcomes(queued, labels);
    binary, errors := [], [];
    var i := 0;
    while i < |queued|
      invariant 0 <= i <= |queued|
      invariant Gather(queued[..i], outs[..i]) == Assembled(binary, errors)
    {
      var q := queued[i];
      GatherSnoc(queued, outs, i);
      match EncodeLine(q, labels) {
        case Skip =>
        case Emit(w) =>
          binary := binary + [w];
        case Fail(e) =>
          errors := errors + [LineError(q.lineno, e)];
      }
      i := i + 1;
    }
    assert queued[..i] == queued && outs[..i] == outs;
  }

  lemma GatherSnoc(queued: seq<Queued>, outs: seq<Outcome>, i: nat)
    requires |outs| == |queued| && i < |queued|
    ensures Gather(queued[..i + 1], outs[..i + 1]) ==
      var prev := Gather(queued[..i], outs[..i]);
      match outs[i]
      case Skip => prev
      case Emit(w) => Assembled(prev.binary + [w], prev.errors)
      case Fail(e) => Assembled(prev.binary, prev.errors + [LineError(queued[i].lineno, e)])
  {
    assert queued[..i + 1][..i] == queued[..i];
    assert outs[..i + 1][..i] == outs[..i];
  }
}
