// parse_objdump and the functions_json projection of tools/split_asm.py:
// a single pass over the lines of an `objdump -d -S` listing that files
// every Function under the source file current when it is sealed.
module AsmListing {
  import opened Wrappers
  import opened AsmText

  datatype AsmLine = AsmLine(address: nat, hexBytes: String, instruction: String, rawLine: String)

  datatype SourceBlock = SourceBlock(filePath: String, lineNumber: nat, sourceText: String, asmLines: seq<AsmLine>)

  /** A Function record; the source's `asm_blocks` list is never filled by the parser and is left out. */
  datatype Function = Function(name: String, address: nat, sourceBlocks: seq<SourceBlock>)

  /** One entry of the result dictionary, in the order its key was first used. */
  datatype FileGroup = FileGroup(path: String, functions: seq<Function>)

  /** A `(file, line, text)` entry of pending_source_lines. */
  datatype Pending = Pending(file: String, line: nat, text: String)

  /**
   * Where current_source_block points: nowhere, at the last block of the
   * open Function, or at a block of a Function already sealed by a file
   * switch (the open Function was re-created without it).
   */
  datatype Active = NoBlock | LastBlock | SealedBlock

  datatype State = State(files: seq<FileGroup>, func: Option<Function>, file: String, active: Active, pending: seq<Pending>)

  const UNKNOWN: String := "_unknown_"

  const INIT: State := State([], None, UNKNOWN, NoBlock, [])

  // ----------------------------------------------------------------
  // The result dictionary

  predicate DistinctPaths(files: seq<FileGroup>) {
    forall i, j :: 0 <= i < j < |files| ==> files[i].path != files[j].path
  }

  /** files[path]: the functions filed under path, none when the key is absent. */
  function Lookup(files: seq<FileGroup>, path: String): seq<Function> {
    if files == [] then []
    else if files[0].path == path then files[0].functions
    else Lookup(files[1..], path)
  }

  /** `files[path].append(f)` on the defaultdict: a new key goes to the end. */
  function Seal(files: seq<FileGroup>, path: String, f: Function): (r: seq<FileGroup>)
    requires DistinctPaths(files)
    ensures DistinctPaths(r)
    ensures forall q :: Lookup(r, q) == if q == path then Lookup(files, path) + [f] else Lookup(files, q)
    ensures forall g :: g in r ==> g in files || g.path == path
  {
    if files == [] then [FileGroup(path, [f])]
    else if files[0].path == path then
      TailPaths(files);
      NotKeyLookup(files[1..], path);
      ConsDistinct(FileGroup(path, files[0].functions + [f]), files[1..]);
      [FileGroup(path, files[0].functions + [f])] + files[1..]
    else
      var rest := Seal(files[1..], path, f);
      TailPaths(files);
      ConsDistinct(files[0], rest);
      [files[0]] + rest
  }

  /** In a dictionary without repeated keys the first key does not come back. */
  lemma TailPaths(files: seq<FileGroup>)
    requires DistinctPaths(files) && files != []
    ensures DistinctPaths(files[1..])
    ensures forall g :: g in files[1..] ==> g.path != files[0].path
  {
    forall g | g in files[1..] ensures g.path != files[0].path {
      var k :| 0 <= k < |files[1..]| && files[1..][k] == g;
      assert files[k + 1] == g;
    }
  }

  lemma ConsDistinct(x: FileGroup, rest: seq<FileGroup>)
    requires DistinctPaths(rest) && forall g :: g in rest ==> g.path != x.path
    ensures DistinctPaths([x] + rest)
  {
    forall i, j | 0 <= i < j < |rest| + 1 ensures ([x] + rest)[i].path != ([x] + rest)[j].path {
      assert ([x] + rest)[j] == rest[j - 1] && rest[j - 1] in rest;
    }
  }

  lemma {:induction false} NotKeyLookup(files: seq<FileGroup>, path: String)
    requires forall g :: g in files ==> g.path != path
    ensures Lookup(files, path) == []
  {
    if files != [] {
      assert forall g :: g in files[1..] ==> g in files;
      NotKeyLookup(files[1..], path);
    }
  }

  // ----------------------------------------------------------------
  // Classification of one line (tools/split_asm.py:112-218)

  datatype Kind = Skip | Header(header: FuncHeader) | Ref(ref: FileRef) | Asm(instr: Instr) | Text(text: String)

  /**
   * The tests in the order the loop makes them; the first that matches
   * decides. An instruction or source text counts only while a Function is
   * open; without one such lines are dropped.
   */
  function Classify(line: String, open: bool): (r: Kind)
    ensures (r.Asm? || r.Text?) ==> open
    ensures r.Text? ==> r.text != [] && r.text == Strip(line)
    ensures Strip(line) == [] ==> r.Skip?
    ensures r.Header? ==> MatchFuncHeader(line) == Some(r.header)
  {
    if Strip(line) == [] || IsDiscriminatorLine(line) || IsSectionLine(line) then Skip
    else if MatchFuncHeader(line).Some? then Header(MatchFuncHeader(line).value)
    else if MatchFileRef(line).Some? then Ref(MatchFileRef(line).value)
    else if open && MatchAsm(line).Some? then Asm(MatchAsm(line).value)
    else if open then Text(Strip(line))
    else Skip
  }

  /** Only C and assembly references (`.c`, `.s`, `.S`) move current_file. */
  predicate IsSourcePath(raw: String)
    ensures IsSourcePath(raw) <==> |raw| >= 2 && raw[|raw| - 2..] in [".c", ".s", ".S"]
  {
    if |raw| < 2 then false
    else
      var ext := raw[|raw| - 2..];
      assert ext == [raw[|raw| - 2], raw[|raw| - 1]];
      raw[|raw| - 2] == '.' && raw[|raw| - 1] in "csS"
  }

  // ----------------------------------------------------------------
  // The state machine

  ghost predicate Inv(st: State) {
    && DistinctPaths(st.files)
    && (st.active == LastBlock ==> st.func.Some? && st.func.value.sourceBlocks != [])
    && (st.active == SealedBlock ==> st.pending != [])
  }

  function LastOf<T>(s: seq<T>): T
    requires s != []
  {
    s[|s| - 1]
  }

  /** The open Function with asm appended to its last block. */
  function AppendToLast(f: Function, asm: AsmLine): Function
    requires f.sourceBlocks != []
  {
    var n := |f.sourceBlocks| - 1;
    var b := f.sourceBlocks[n];
    f.(sourceBlocks := f.sourceBlocks[n := b.(asmLines := b.asmLines + [asm])])
  }

  /** A function header seals the open Function under current_file and opens a new one. */
  function OnHeader(st: State, h: FuncHeader): (r: State)
    requires Inv(st)
    ensures Inv(r)
  {
    var files := if st.func.Some? then Seal(st.files, st.file, st.func.value) else st.files;
    State(files, Some(Function(h.name, h.address, [])), st.file, NoBlock, [])
  }

  /**
   * A file:line reference. A C or assembly path becomes current_file; when
   * it differs while a Function is open, that Function is sealed under the
   * old file and an empty one with the same name and address replaces it.
   * The reference is queued with its stripped, annotation-free text.
   */
  function OnRef(st: State, ref: FileRef): (r: State)
    requires Inv(st)
    ensures Inv(r)
  {
    var entry := Pending(NormalizePath(ref.rawPath), ref.lineNum, Scrub(Strip(ref.rest)));
    if IsSourcePath(ref.rawPath) then
      var normalized := NormalizePath(ref.rawPath);
      if normalized != st.file && st.func.Some? then
        var f := st.func.value;
        State(Seal(st.files, st.file, f), Some(Function(f.name, f.address, [])), normalized,
              if st.active == LastBlock then SealedBlock else st.active, st.pending + [entry])
      else st.(file := normalized, pending := st.pending + [entry])
    else st.(pending := st.pending + [entry])
  }

  /**
   * An instruction while a Function is open: the last pending reference
   * (only the last) becomes a new block; otherwise the instruction joins the
   * active block, or an orphan block (line 0, no text) in current_file.
   */
  function OnAsm(st: State, ins: Instr, raw: String): (r: State)
    requires Inv(st) && st.func.Some?
    ensures Inv(r) && r.func.Some?
  {
    var asm := AsmLine(ins.address, ins.hexBytes, ins.instruction, raw);
    var f := st.func.value;
    if st.pending != [] then
      var p := LastOf(st.pending);
      st.(func := Some(f.(sourceBlocks := f.sourceBlocks + [SourceBlock(p.file, p.line, p.text, [asm])])),
          active := LastBlock, pending := [])
    else if st.active == LastBlock then
      st.(func := Some(AppendToLast(f, asm)))
    else
      assert st.active == NoBlock;
      st.(func := Some(f.(sourceBlocks := f.sourceBlocks + [SourceBlock(st.file, 0, [], [asm])])),
          active := LastBlock)
  }

  /**
   * Source text while a Function is open: it goes to the last pending
   * reference (after a newline when that already has text); otherwise it
   * fills in the active block's text only when that is still empty.
   */
  function OnText(st: State, text: String): (r: State)
    requires Inv(st) && st.func.Some?
    ensures Inv(r) && r.func.Some?
  {
    var f := st.func.value;
    if st.pending != [] then
      var n := |st.pending| - 1;
      var p := st.pending[n];
      st.(pending := st.pending[n := p.(text := if p.text != [] then p.text + "\n" + text else text)])
    else if st.active == LastBlock && LastOf(f.sourceBlocks).sourceText == [] then
      var n := |f.sourceBlocks| - 1;
      st.(func := Some(f.(sourceBlocks := f.sourceBlocks[n := f.sourceBlocks[n].(sourceText := text)])))
    else st
  }

  /** One line of the listing, as read with its newline. */
  function Step(st: State, raw: String): (r: State)
    requires Inv(st)
    ensures Inv(r)
  {
    var line := RStripNewlines(raw);
    Apply(st, Classify(line, st.func.Some?), line)
  }

  /** The update a classified line makes. */
  function Apply(st: State, k: Kind, line: String): (r: State)
    requires Inv(st) && ((k.Asm? || k.Text?) ==> st.func.Some?)
    ensures Inv(r)
  {
    match k
    case Skip => st
    case Header(h) => OnHeader(st, h)
    case Ref(ref) => OnRef(st, ref)
    case Asm(ins) => OnAsm(st, ins, line)
    case Text(t) => OnText(st, t)
  }

  /** The state after the given lines. */
  function Run(lines: seq<String>): (r: State)
    ensures Inv(r)
  {
    if lines == [] then INIT else Step(Run(lines[..|lines| - 1]), lines[|lines| - 1])
  }

  /** At the end of input the open Function is sealed under current_file. */
  function Finish(st: State): (r: seq<FileGroup>)
    requires Inv(st)
    ensures DistinctPaths(r)
  {
    if st.func.Some? then Seal(st.files, st.file, st.func.value) else st.files
  }

  function Parse(lines: seq<String>): (r: seq<FileGroup>)
    ensures DistinctPaths(r)
  {
    Finish(Run(lines))
  }

  /** parse_objdump over the lines of the listing file. */
  method ParseObjdump(lines: seq<String>) returns (files: seq<FileGroup>)
    ensures files == Parse(lines)
  {
    files := [];
    var currentFunc: Option<Function> := None;
    var currentFile := UNKNOWN;
    var active := NoBlock;
    var pending: seq<Pending> := [];
    var i := 0;
    while i < |lines|
      invariant 0 <= i <= |lines|
      invariant State(files, currentFunc, currentFile, active, pending) == Run(lines[..i])
    {
      assert lines[..i + 1][..i] == lines[..i];
      var st := ParseLine(State(files, currentFunc, currentFile, active, pending), lines[i]);
      files, currentFunc, currentFile, active, pending := st.files, st.func, st.file, st.active, st.pending;
      i := i + 1;
    }
    assert lines[..i] == lines;
    if currentFunc.Some? {
      files := Seal(files, currentFile, currentFunc.value);
    }
  }

  /** The body of the loop over the lines: classify, then update the parser's variables. */
  method ParseLine(st: State, raw: String) returns (r: State)
    requires Inv(st)
    ensures r == Step(st, raw)
  {
    var line := RStripNewlines(raw);
    var kind := Classify(line, st.func.Some?);
    match kind {
      case Skip => r := st;
      case Header(h) => r := HeaderLine(st, h);
      case Ref(ref) => r := RefLine(st, ref);
      case Asm(ins) => r := InstrLine(st, ins, line);
      case Text(t) => r := TextLine(st, t);
    }
  }

  method HeaderLine(st: State, h: FuncHeader) returns (r: State)
    requires Inv(st)
    ensures r == OnHeader(st, h)
  {
    var files := st.files;
    if st.func.Some? {
      files := Seal(files, st.file, st.func.value);
    }
    var currentFunc := Some(Function(h.name, h.address, []));
    r := State(files, currentFunc, st.file, NoBlock, []);
  }

  method RefLine(st: State, ref: FileRef) returns (r: State)
    requires Inv(st)
    ensures r == OnRef(st, ref)
  {
    var files, currentFunc, currentFile, active := st.files, st.func, st.file, st.active;
    if IsSourcePath(ref.rawPath) {
      var normalized := NormalizePath(ref.rawPath);
      if normalized != currentFile && currentFunc.Some? {
        files := Seal(files, currentFile, currentFunc.value);
        currentFunc := Some(Function(currentFunc.value.name, currentFunc.value.address, []));
        if active == LastBlock {
          active := SealedBlock;
        }
      }
      currentFile := normalized;
    }
    var text := Scrub(Strip(ref.rest));
    var pending := st.pending + [Pending(NormalizePath(ref.rawPath), ref.lineNum, text)];
    r := State(files, currentFunc, currentFile, active, pending);
  }

  method InstrLine(st: State, ins: Instr, line: String) returns (r: State)
    requires Inv(st) && st.func.Some?
    ensures r == OnAsm(st, ins, line)
  {
    var asm := AsmLine(ins.address, ins.hexBytes, ins.instruction, line);
    var f := st.func.value;
    if st.pending != [] {
      var p := st.pending[|st.pending| - 1];
      r := st.(func := Some(f.(sourceBlocks := f.sourceBlocks + [SourceBlock(p.file, p.line, p.text, [asm])])),
               active := LastBlock, pending := []);
    } else if st.active == LastBlock {
      r := st.(func := Some(AppendToLast(f, asm)));
    } else {
      r := st.(func := Some(f.(sourceBlocks := f.sourceBlocks + [SourceBlock(st.file, 0, [], [asm])])),
               active := LastBlock);
    }
  }

  method TextLine(st: State, t: String) returns (r: State)
    requires Inv(st) && st.func.Some?
    ensures r == OnText(st, t)
  {
    var f := st.func.value;
    r := st;
    if st.pending != [] {
      var n := |st.pending| - 1;
      var p := st.pending[n];
      r := st.(pending := st.pending[n := p.(text := if p.text != [] then p.text + "\n" + t else t)]);
    } else if st.active == LastBlock && f.sourceBlocks[|f.sourceBlocks| - 1].sourceText == [] {
      var n := |f.sourceBlocks| - 1;
      r := st.(func := Some(f.(sourceBlocks := f.sourceBlocks[n := f.sourceBlocks[n].(sourceText := t)])));
    }
  }

  // ----------------------------------------------------------------
  // Every instruction line read while a Function is open lands in exactly
  // one block of exactly one Function of the result, and nothing else does.

  function BlocksAsm(bs: seq<SourceBlock>): seq<AsmLine> {
    if bs == [] then [] else BlocksAsm(bs[..|bs| - 1]) + bs[|bs| - 1].asmLines
  }

  function FuncsAsm(fs: seq<Function>): seq<AsmLine> {
    if fs == [] then [] else FuncsAsm(fs[..|fs| - 1]) + BlocksAsm(fs[|fs| - 1].sourceBlocks)
  }

  /** Every instruction of the result, file by file. */
  function GroupsAsm(files: seq<FileGroup>): seq<AsmLine> {
    if files == [] then [] else FuncsAsm(files[0].functions) + GroupsAsm(files[1..])
  }

  /** Every instruction the parser holds: filed ones and those of the open Function. */
  function Held(st: State): multiset<AsmLine> {
    multiset(GroupsAsm(st.files)) + if st.func.Some? then multiset(BlocksAsm(st.func.value.sourceBlocks)) else multiset{}
  }

  /** A header line, recognised whether or not a Function is open. */
  predicate IsHeaderLine(raw: String) {
    Classify(RStripNewlines(raw), false).Header?
  }

  /** Whether a Function is open after the lines: some header came before. */
  predicate Opened(lines: seq<String>) {
    lines != [] && (Opened(lines[..|lines| - 1]) || IsHeaderLine(lines[|lines| - 1]))
  }

  /** The instruction a line carries when read while a Function is open. */
  function InstrOf(raw: String): Option<AsmLine> {
    var line := RStripNewlines(raw);
    match Classify(line, true)
    case Asm(ins) => Some(AsmLine(ins.address, ins.hexBytes, ins.instruction, line))
    case _ => None
  }

  /** The instruction lines that come after some header, in listing order. */
  function Accepted(lines: seq<String>): seq<AsmLine> {
    if lines == [] then []
    else
      var init := lines[..|lines| - 1];
      var last := lines[|lines| - 1];
      Accepted(init) + if Opened(init) && InstrOf(last).Some? then [InstrOf(last).value] else []
  }

  lemma {:induction false} FuncsAsmAppend(fs: seq<Function>, f: Function)
    ensures FuncsAsm(fs + [f]) == FuncsAsm(fs) + BlocksAsm(f.sourceBlocks)
  {
    assert (fs + [f])[..|fs|] == fs;
  }

  /** Sealing files the Function's instructions and nothing else. */
  lemma {:induction false} SealHolds(files: seq<FileGroup>, path: String, f: Function)
    requires DistinctPaths(files)
    ensures multiset(GroupsAsm(Seal(files, path, f))) == multiset(GroupsAsm(files)) + multiset(BlocksAsm(f.sourceBlocks))
  {
    var r := Seal(files, path, f);
    if files == [] {
      assert r == [FileGroup(path, [f])];
      assert [f][..0] == [];
      assert GroupsAsm(r) == FuncsAsm([f]) + GroupsAsm([]);
    } else if files[0].path == path {
      var x := FileGroup(path, files[0].functions + [f]);
      assert r == [x] + files[1..];
      assert ([x] + files[1..])[1..] == files[1..];
      assert GroupsAsm(r) == FuncsAsm(files[0].functions + [f]) + GroupsAsm(files[1..]);
      FuncsAsmAppend(files[0].functions, f);
    } else {
      TailPaths(files);
      var rest := Seal(files[1..], path, f);
      assert r == [files[0]] + rest;
      assert ([files[0]] + rest)[1..] == rest;
      assert GroupsAsm(r) == FuncsAsm(files[0].functions) + GroupsAsm(rest);
      SealHolds(files[1..], path, f);
    }
  }

  lemma AppendToLastHolds(f: Function, asm: AsmLine)
    requires f.sourceBlocks != []
    ensures BlocksAsm(AppendToLast(f, asm).sourceBlocks) == BlocksAsm(f.sourceBlocks) + [asm]
  {
    var bs := f.sourceBlocks;
    var n := |bs| - 1;
    assert AppendToLast(f, asm).sourceBlocks[..n] == bs[..n];
  }

  lemma TextKeepsAsm(bs: seq<SourceBlock>, text: String)
    requires bs != []
    ensures BlocksAsm(bs[|bs| - 1 := bs[|bs| - 1].(sourceText := text)]) == BlocksAsm(bs)
  {
    assert bs[|bs| - 1 := bs[|bs| - 1].(sourceText := text)][..|bs| - 1] == bs[..|bs| - 1];
  }

  lemma NewBlockHolds(bs: seq<SourceBlock>, b: SourceBlock)
    ensures BlocksAsm(bs + [b]) == BlocksAsm(bs) + b.asmLines
  {
    assert (bs + [b])[..|bs|] == bs;
  }

  lemma HeaderHolds(st: State, h: FuncHeader)
    requires Inv(st)
    ensures Held(OnHeader(st, h)) == Held(st)
  {
    if st.func.Some? {
      SealHolds(st.files, st.file, st.func.value);
    }
  }

  lemma RefHolds(st: State, ref: FileRef)
    requires Inv(st)
    ensures Held(OnRef(st, ref)) == Held(st)
  {
    if IsSourcePath(ref.rawPath) && NormalizePath(ref.rawPath) != st.file && st.func.Some? {
      SealHolds(st.files, st.file, st.func.value);
    }
  }

  lemma AsmHolds(st: State, ins: Instr, line: String)
    requires Inv(st) && st.func.Some?
    ensures Held(OnAsm(st, ins, line)) == Held(st) + multiset{AsmLine(ins.address, ins.hexBytes, ins.instruction, line)}
  {
    var f := st.func.value;
    var asm := AsmLine(ins.address, ins.hexBytes, ins.instruction, line);
    if st.pending != [] {
      var p := LastOf(st.pending);
      NewBlockHolds(f.sourceBlocks, SourceBlock(p.file, p.line, p.text, [asm]));
    } else if st.active == LastBlock {
      AppendToLastHolds(f, asm);
    } else {
      NewBlockHolds(f.sourceBlocks, SourceBlock(st.file, 0, [], [asm]));
    }
  }

  lemma TextHolds(st: State, t: String)
    requires Inv(st) && st.func.Some?
    ensures Held(OnText(st, t)) == Held(st)
  {
    var f := st.func.value;
    if st.pending == [] && st.active == LastBlock && LastOf(f.sourceBlocks).sourceText == [] {
      TextKeepsAsm(f.sourceBlocks, t);
    }
  }

  lemma ApplyHolds(st: State, k: Kind, line: String)
    requires Inv(st) && ((k.Asm? || k.Text?) ==> st.func.Some?)
    ensures Held(Apply(st, k, line)) == Held(st) + if k.Asm? then multiset{AsmLine(k.instr.address, k.instr.hexBytes, k.instr.instruction, line)} else multiset{}
  {
    match k
    case Skip =>
    case Header(h) => HeaderHolds(st, h);
    case Ref(ref) => RefHolds(st, ref);
    case Asm(ins) => AsmHolds(st, ins, line);
    case Text(t) => TextHolds(st, t);
  }

  /** Without an open Function a line is a header, a reference or nothing. */
  lemma ClosedKind(line: String)
    ensures !Classify(line, false).Asm? && !Classify(line, false).Text?
    ensures Classify(line, false).Header? == Classify(line, true).Header?
  {
  }

  /** One line adds its instruction to what the parser holds when a Function is open, and nothing otherwise. */
  lemma StepHolds(st: State, raw: String)
    requires Inv(st)
    ensures Held(Step(st, raw)) == Held(st) + if st.func.Some? && InstrOf(raw).Some? then multiset{InstrOf(raw).value} else multiset{}
  {
    var line := RStripNewlines(raw);
    ClosedKind(line);
    ApplyHolds(st, Classify(line, st.func.Some?), line);
  }

  lemma StepOpened(st: State, raw: String)
    requires Inv(st)
    ensures Step(st, raw).func.Some? == (st.func.Some? || IsHeaderLine(raw))
  {
    var line := RStripNewlines(raw);
    ClosedKind(line);
    var k := Classify(line, st.func.Some?);
    assert k.Header? == IsHeaderLine(raw);
    assert Apply(st, k, line).func.Some? == (st.func.Some? || k.Header?);
  }

  /** A Function is open exactly when a header has been read. */
  lemma {:induction false} RunOpened(lines: seq<String>)
    ensures Run(lines).func.Some? == Opened(lines)
  {
    if lines != [] {
      RunOpened(lines[..|lines| - 1]);
      StepOpened(Run(lines[..|lines| - 1]), lines[|lines| - 1]);
    }
  }

  lemma {:induction false} RunHolds(lines: seq<String>)
    ensures Held(Run(lines)) == multiset(Accepted(lines))
  {
    if lines != [] {
      var init := lines[..|lines| - 1];
      RunHolds(init);
      RunOpened(init);
      StepHolds(Run(init), lines[|lines| - 1]);
    }
  }

  /**
   * The partition property: the instructions of the result are exactly the
   * instruction lines that follow a function header, each once.
   */
  lemma InstructionsConserved(lines: seq<String>)
    ensures multiset(GroupsAsm(Parse(lines))) == multiset(Accepted(lines))
  {
    RunHolds(lines);
    var st := Run(lines);
    if st.func.Some? {
      SealHolds(st.files, st.file, st.func.value);
    }
  }

  // ----------------------------------------------------------------
  // Pending references and the file switch

  /**
   * Of several references queued before an instruction, only the last one
   * becomes a block: the instruction opens it, and the queue is emptied.
   */
  lemma LastReferenceWins(st: State, ins: Instr, line: String)
    requires Inv(st) && st.func.Some? && st.pending != []
    ensures var r := OnAsm(st, ins, line);
      var bs := r.func.value.sourceBlocks;
      var p := st.pending[|st.pending| - 1];
      && bs == st.func.value.sourceBlocks + [SourceBlock(p.file, p.line, p.text, [AsmLine(ins.address, ins.hexBytes, ins.instruction, line)])]
      && r.pending == [] && r.active == LastBlock && r.files == st.files && r.file == st.file
  {
  }

  /**
   * A reference to another C or assembly file while a Function is open files
   * the Function so far under the old file and goes on with an empty
   * Function of the same name and address under the new one.
   */
  lemma FileSwitchReopens(st: State, ref: FileRef)
    requires Inv(st) && st.func.Some? && IsSourcePath(ref.rawPath) && NormalizePath(ref.rawPath) != st.file
    ensures var r := OnRef(st, ref);
      var f := st.func.value;
      && Lookup(r.files, st.file) == Lookup(st.files, st.file) + [f]
      && (forall q :: q != st.file ==> Lookup(r.files, q) == Lookup(st.files, q))
      && r.func == Some(Function(f.name, f.address, []))
      && r.file == NormalizePath(ref.rawPath)
      && r.pending == st.pending + [Pending(NormalizePath(ref.rawPath), ref.lineNum, Scrub(Strip(ref.rest)))]
  {
  }

  // ----------------------------------------------------------------
  // A worked listing: a header, a reference to foo.c, its text and one
  // instruction. The reference moves the Function from _unknown_ to foo.c,
  // so an empty copy of it stays behind under _unknown_.

  /** "foo.c" names no build-system prefix or marker, so it is its own normal form; it is a C source. */
  lemma FooIsNormal()
    ensures NormalizePath("foo.c") == "foo.c" && IsSourcePath("foo.c") && UNKNOWN != "foo.c"
  {
    NotFoundWithoutFirstChar("foo.c", PREFIXES[0]);
    NotFoundWithoutFirstChar("foo.c", PREFIXES[1]);
    NotFoundWithoutFirstChar("foo.c", PREFIXES[2]);
    NotFoundWithoutFirstChar("foo.c", PREFIXES[3]);
    assert LStripDotSlash("foo.c") == "foo.c";
    NotFoundWithoutFirstChar("foo.c", MARKERS[0]);
    NotFoundWithoutFirstChar("foo.c", MARKERS[1]);
    NotFoundWithoutFirstChar("foo.c", MARKERS[2]);
    NormalizePlainPath("foo.c");
    assert "foo.c"[3] == '.' && "foo.c"[4] == 'c';
    assert UNKNOWN[0] != "foo.c"[0];
  }

  lemma EmptyRest()
    ensures Scrub(Strip("")) == ""
  {
  }

  /** The line at index i, classified as k, takes the parser from st to next. */
  lemma RunStep(lines: seq<String>, i: nat, st: State, k: Kind, next: State)
    requires i < |lines| && Run(lines[..i]) == st
    requires Classify(RStripNewlines(lines[i]), st.func.Some?) == k
    requires (k.Asm? || k.Text?) ==> st.func.Some?
    requires Apply(st, k, RStripNewlines(lines[i])) == next
    ensures Run(lines[..i + 1]) == next
  {
    var l := lines[..i + 1];
    assert l[..|l| - 1] == lines[..i] && l[|l| - 1] == lines[i];
    assert Run(l) == Step(st, lines[i]);
  }

  const ADD: Function := Function("add", 0x100, [])
  const AFTER_REF: State := State([FileGroup(UNKNOWN, [ADD])], Some(ADD), "foo.c", NoBlock, [Pending("foo.c", 10, "")])

  /** The reference to foo.c files the empty Function under _unknown_ and reopens it. */
  lemma WorkedRef(line: String)
    ensures OnRef(State([], Some(ADD), UNKNOWN, NoBlock, []), FileRef("foo.c", 10, "")) == AFTER_REF
  {
    FooIsNormal();
    EmptyRest();
    assert Seal([], UNKNOWN, ADD) == [FileGroup(UNKNOWN, [ADD])];
  }

  lemma WorkedAsm(line: String)
    ensures Apply(AFTER_TEXT, Asm(Instr(0x100, "4e75", "rts")), line)
         == AFTER_REF.(func := Some(ADD.(sourceBlocks := [SourceBlock("foo.c", 10, "return a+b;", [AsmLine(0x100, "4e75", "rts", line)])])),
                       active := LastBlock, pending := [])
  {
    var st := AFTER_TEXT;
    var asm := AsmLine(0x100, "4e75", "rts", line);
    assert LastOf(st.pending) == Pending("foo.c", 10, "return a+b;");
    assert ADD.sourceBlocks + [SourceBlock("foo.c", 10, "return a+b;", [asm])] == [SourceBlock("foo.c", 10, "return a+b;", [asm])];
    assert OnAsm(st, Instr(0x100, "4e75", "rts"), line) == st.(func := Some(ADD.(sourceBlocks := [SourceBlock("foo.c", 10, "return a+b;", [asm])])), active := LastBlock, pending := []);
  }

  lemma WorkedSeal(line: String)
    ensures Finish(AFTER_REF.(func := Some(ADD.(sourceBlocks := [SourceBlock("foo.c", 10, "return a+b;", [AsmLine(0x100, "4e75", "rts", line)])])),
                              active := LastBlock, pending := []))
         == [FileGroup(UNKNOWN, [ADD]),
             FileGroup("foo.c", [Function("add", 0x100, [SourceBlock("foo.c", 10, "return a+b;", [AsmLine(0x100, "4e75", "rts", line)])])])]
  {
    var f := Function("add", 0x100, [SourceBlock("foo.c", 10, "return a+b;", [AsmLine(0x100, "4e75", "rts", line)])]);
    var files := [FileGroup(UNKNOWN, [ADD])];
    assert files[0].path != "foo.c" by { assert UNKNOWN[0] != "foo.c"[0]; }
    assert files[1..] == [];
    assert Seal([], "foo.c", f) == [FileGroup("foo.c", [f])];
    assert Seal(files, "foo.c", f) == [files[0]] + [FileGroup("foo.c", [f])];
  }

  const AFTER_TEXT: State := AFTER_REF.(pending := [Pending("foo.c", 10, "return a+b;")])

  /** A four-line objdump listing: a header, a reference, its source text and one instruction. */
  const LISTING: seq<String> := ["100 <add>:", "foo.c:10", "return a+b;", "100:\t4e75\trts"]

  /** No line of the listing ends in a newline. */
  lemma ListingUnstripped(i: nat)
    requires i < |LISTING|
    ensures RStripNewlines(LISTING[i]) == LISTING[i]
  {
  }

  /** A line shorter than the discriminator marker that starts with a non-blank
    * is not blank, not an annotation and not a section header. */
  lemma ShortLine(line: String)
    requires 0 < |line| < |DISCRIMINATOR| && !IsSpace(line[0])
    ensures Strip(line) != [] && !IsDiscriminatorLine(line) && !IsSectionLine(line)
  {
    StripMeaning(line);
    SpanIs(Space, line, 0);
    assert line[0..] == line;
  }

  /** The header "100 <add>:" opens the function add at 0x100. */
  lemma ClassifyHeaderLine()
    ensures Classify(LISTING[0], false) == Header(FuncHeader(0x100, "add"))
  {
    var line := LISTING[0];
    ShortLine(line);
    HeaderFields();
    AsmText.HeaderLine(line, 3, 3);
  }

  lemma HeaderFields()
    ensures LISTING[0][..3] == "100" && All(Hex, "100") && HexValue("100") == 0x100
    ensures LISTING[0][5..8] == "add" && All(NotGt, "add")
  {
    Hex100();
  }

  lemma Hex100()
    ensures All(Hex, "100") && HexValue("100") == 0x100
  {
    assert "100"[..2] == "10" && "10"[..1] == "1" && "1"[..0] == [];
  }

  /** "foo.c:10" is a reference to line 10 of foo.c with no text after it. */
  lemma ClassifyRefLine()
    ensures Classify(LISTING[1], true) == Ref(FileRef("foo.c", 10, ""))
  {
    var line := LISTING[1];
    ShortLine(line);
    RefFields();
    SpanIs(Hex, line, 1);
    SpanIs(Space, line[1..], 0);
    SourceRefLine(line, 5);
  }

  lemma RefFields()
    ensures LISTING[1][..5] == "foo.c" && All(NameChar, "foo.c")
    ensures LISTING[1][6..] == "10" && All(Digit, "10") && DecValue("10") == 10
    ensures LISTING[1][..1] == "f" && All(Hex, "f") && LISTING[1][1..][0] == 'o'
  {
  }

  /** "return a+b;" matches no pattern: it is source text, kept whole. */
  lemma ClassifyTextLine()
    ensures Classify(LISTING[2], true) == Text("return a+b;")
  {
    var line := LISTING[2];
    ShortLine(line);
    TextFields();
    StripTrimmed(line);
    SpanIs(Hex, line, 0);
    NotHeader(line);
    SpanIs(NameChar, line, 6);
    NotRef(line);
    SpanIs(Space, line, 0);
    assert MatchAsm(line).None?;
    ClassifyText(line);
  }

  /** A non-blank line that matches no pattern is source text while a function is open. */
  lemma ClassifyText(line: String)
    requires Strip(line) != [] && !IsDiscriminatorLine(line) && !IsSectionLine(line)
    requires MatchFuncHeader(line).None? && MatchFileRef(line).None? && MatchAsm(line).None?
    ensures Classify(line, true) == Text(Strip(line))
  {
  }

  lemma TextFields()
    ensures LISTING[2][..6] == "return" && All(NameChar, "return")
    ensures !IsSpace(LISTING[2][0]) && !IsSpace(LISTING[2][10]) && LISTING[2][6] == ' '
    ensures LISTING[2][..0] == [] && LISTING[2][0..] == LISTING[2]
  {
  }

  /** "100:\t4e75\trts" is the instruction rts at 0x100 with hex bytes 4e75. */
  lemma ClassifyAsmLine()
    ensures Classify(LISTING[3], true) == Asm(Instr(0x100, "4e75", "rts"))
  {
    var line := LISTING[3];
    ShortLine(line);
    AsmLineSpans();
    NotHeader(line);
    NotRef(line);
    AsmMatchLine(line);
    ClassifyAsm(line, Instr(0x100, "4e75", "rts"));
  }

  /** "100:\t4e75\trts" starts with the run "100", of hex digits and of name characters alike. */
  lemma AsmLineSpans()
    ensures Span(Hex, LISTING[3]) == 3 && Span(NameChar, LISTING[3]) == 3
    ensures LISTING[3][3] == ':' && LISTING[3][1] == '0'
  {
    AsmFields();
    SpanIs(Hex, LISTING[3], 3);
    assert All(NameChar, LISTING[3][..3]);
    SpanIs(NameChar, LISTING[3], 3);
  }

  /** A non-blank line that is no annotation, section, header or reference but
    * an instruction is classified as that instruction while a function is open. */
  lemma ClassifyAsm(line: String, ins: Instr)
    requires Strip(line) != [] && !IsDiscriminatorLine(line) && !IsSectionLine(line)
    requires MatchFuncHeader(line).None? && MatchFileRef(line).None? && MatchAsm(line) == Some(ins)
    ensures Classify(line, true) == Asm(ins)
  {
  }

  /** A line whose address run is not followed by whitespace is no function header. */
  lemma NotHeader(line: String)
    requires Span(Hex, line) < |line| && !IsSpace(line[Span(Hex, line)])
    ensures MatchFuncHeader(line).None?
  {
    var h := Span(Hex, line);
    SpanIs(Space, line[h..], 0);
  }

  /** A line that is not absolute and whose name run does not end in a source
    * extension before a ':' is no file reference. */
  lemma NotRef(line: String)
    requires line != [] && line[0] != '/'
    requires var k := Span(NameChar, line); k < 3 || k >= |line| || line[k] != ':' || line[k - 2] != '.'
    ensures MatchFileRef(line).None?
  {
  }

  lemma AsmFields()
    ensures LISTING[3][..3] == "100" && All(Hex, "100") && HexValue("100") == 0x100
    ensures LISTING[3][3..][0] == ':' && LISTING[3][1] == '0'
  {
    Hex100();
  }

  /** The greedy pattern reads "100:\t4e75\trts" as rts at 0x100 with hex bytes 4e75. */
  lemma AsmMatchLine(line: String)
    requires line == LISTING[3]
    ensures MatchAsm(line) == Some(Instr(0x100, "4e75", "rts"))
  {
    AsmFields();
    AsmOperandsLine();
    AsmGroups();
    AsmHead(line, 3, false, 5, 9, 10);
  }

  /** The hex bytes and the text of "100:\t4e75\trts", the bytes already stripped. */
  lemma AsmGroups()
    ensures LISTING[3][5..9] == "4e75" && LISTING[3][10..] == "rts"
    ensures Strip("4e75") == "4e75"
    ensures IsSpace(LISTING[3][4]) && !IsSpace(LISTING[3][5])
  {
    StripTrimmed("4e75");
  }

  /** After "100:" and its tab, the greedy group is "4e75" and the text starts after the next tab. */
  lemma AsmOperandsLine()
    ensures Operands(LISTING[3], 4, 1, false) == Some((5, 9, 10))
  {
    var line := LISTING[3];
    assert line[5] == '4' && line[6] == 'e' && line[7] == '7' && line[8] == '5' && line[9] == '\t';
    HexOrBlankRun(line, 5, 4);
    TailAfterOneSpace(line, 9);
    GreedyGroupAt(line, 5, 9);
    GreedyOperandsOne(line, 4, 9, 10);
  }

  lemma WorkedRun1(lines: seq<String>)
    requires lines == LISTING
    ensures Run(lines[..1]) == State([], Some(ADD), UNKNOWN, NoBlock, [])
  {
    assert lines[..0] == [];
    ListingUnstripped(0);
    ClassifyHeaderLine();
    RunStep(lines, 0, INIT, Header(FuncHeader(0x100, "add")), State([], Some(ADD), UNKNOWN, NoBlock, []));
  }

  lemma WorkedRun2(lines: seq<String>)
    requires lines == LISTING
    ensures Run(lines[..2]) == AFTER_REF
  {
    WorkedRun1(lines);
    ListingUnstripped(1);
    ClassifyRefLine();
    WorkedRef(lines[1]);
    RunStep(lines, 1, State([], Some(ADD), UNKNOWN, NoBlock, []), Ref(FileRef("foo.c", 10, "")), AFTER_REF);
  }

  lemma WorkedRun3(lines: seq<String>)
    requires lines == LISTING
    ensures Run(lines[..3]) == AFTER_TEXT
  {
    WorkedRun2(lines);
    ListingUnstripped(2);
    ClassifyTextLine();
    WorkedText(lines[2]);
    RunStep(lines, 2, AFTER_REF, Text("return a+b;"), AFTER_TEXT);
  }

  /** The source line after the reference becomes its text. */
  lemma WorkedText(line: String)
    ensures AFTER_REF.func.Some?
    ensures Apply(AFTER_REF, Text("return a+b;"), line) == AFTER_TEXT
  {
  }

  /** The instruction line files rts at 0x100 in the block of foo.c line 10. */
  lemma WorkedRun4(lines: seq<String>)
    requires lines == LISTING
    ensures Run(lines) == AFTER_REF.(func := Some(ADD.(sourceBlocks := [SourceBlock("foo.c", 10, "return a+b;", [AsmLine(0x100, "4e75", "rts", lines[3])])])),
                                     active := LastBlock, pending := [])
  {
    WorkedRun3(lines);
    ListingUnstripped(3);
    ClassifyAsmLine();
    WorkedAsm(lines[3]);
    RunStep(lines, 3, AFTER_TEXT, Asm(Instr(0x100, "4e75", "rts")), Apply(AFTER_TEXT, Asm(Instr(0x100, "4e75", "rts")), lines[3]));
    assert lines[..4] == lines;
  }

  /** The whole listing parses to an empty add under _unknown_ and add, with its one block, under foo.c. */
  lemma WorkedListing(lines: seq<String>)
    requires lines == LISTING
    ensures Parse(lines) ==
      [FileGroup(UNKNOWN, [ADD]),
       FileGroup("foo.c", [Function("add", 0x100, [SourceBlock("foo.c", 10, "return a+b;", [AsmLine(0x100, "4e75", "rts", "100:\t4e75\trts")])])])]
  {
    WorkedRun4(lines);
    WorkedSeal(lines[3]);
  }

  // ----------------------------------------------------------------
  // functions_json (tools/split_asm.py:241-263): the page's FUNCTIONS data,
  // with addresses formatted '%08x'.

  datatype AsmJson = AsmJson(addr: String, hex: String, instr: String)

  datatype BlockJson = BlockJson(file: String, line: nat, src: String, asm: seq<AsmJson>)

  datatype FunctionJson = FunctionJson(name: String, addr: String, blocks: seq<BlockJson>)

  function AsmToJson(a: AsmLine): AsmJson {
    AsmJson(Hex08(a.address), a.hexBytes, a.instruction)
  }

  function BlockToJson(b: SourceBlock): BlockJson {
    BlockJson(b.filePath, b.lineNumber, b.sourceText, seq(|b.asmLines|, i requires 0 <= i < |b.asmLines| => AsmToJson(b.asmLines[i])))
  }

  function FunctionToJson(f: Function): FunctionJson {
    FunctionJson(f.name, Hex08(f.address), seq(|f.sourceBlocks|, i requires 0 <= i < |f.sourceBlocks| => BlockToJson(f.sourceBlocks[i])))
  }

  /** Reading the data back: addresses parsed as hexadecimal; the raw lines are not in the data. */
  function AsmOfJson(j: AsmJson): AsmLine
    requires All(Hex, j.addr)
  {
    AsmLine(HexValue(j.addr), j.hex, j.instr, [])
  }

  function BlockOfJson(j: BlockJson): SourceBlock
    requires forall i :: 0 <= i < |j.asm| ==> All(Hex, j.asm[i].addr)
  {
    SourceBlock(j.file, j.line, j.src, seq(|j.asm|, i requires 0 <= i < |j.asm| => AsmOfJson(j.asm[i])))
  }

  function FunctionOfJson(j: FunctionJson): Function
    requires All(Hex, j.addr)
    requires forall i, k :: 0 <= i < |j.blocks| && 0 <= k < |j.blocks[i].asm| ==> All(Hex, j.blocks[i].asm[k].addr)
  {
    Function(j.name, HexValue(j.addr), seq(|j.blocks|, i requires 0 <= i < |j.blocks| => BlockOfJson(j.blocks[i])))
  }

  /** A Function with the raw listing lines of its instructions erased. */
  function Unraw(f: Function): Function {
    f.(sourceBlocks := seq(|f.sourceBlocks|, i requires 0 <= i < |f.sourceBlocks| => UnrawBlock(f.sourceBlocks[i])))
  }

  function UnrawBlock(b: SourceBlock): SourceBlock {
    b.(asmLines := seq(|b.asmLines|, i requires 0 <= i < |b.asmLines| => b.asmLines[i].(rawLine := [])))
  }

  lemma BlockJsonRoundTrip(b: SourceBlock)
    ensures BlockOfJson(BlockToJson(b)) == UnrawBlock(b)
  {
    forall i | 0 <= i < |b.asmLines| ensures AsmOfJson(AsmToJson(b.asmLines[i])) == b.asmLines[i].(rawLine := []) {
      Hex08RoundTrip(b.asmLines[i].address);
    }
  }

  /** Everything the page shows of a Function, except the raw lines, reads back unchanged. */
  lemma FunctionJsonRoundTrip(f: Function)
    ensures FunctionOfJson(FunctionToJson(f)) == Unraw(f)
  {
    Hex08RoundTrip(f.address);
    forall i | 0 <= i < |f.sourceBlocks| ensures BlockOfJson(BlockToJson(f.sourceBlocks[i])) == UnrawBlock(f.sourceBlocks[i]) {
      BlockJsonRoundTrip(f.sourceBlocks[i]);
    }
  }

  /** The nested loops that build functions_json for one file's Functions. */
  method FunctionsJson(functions: seq<Function>) returns (r: seq<FunctionJson>)
    ensures |r| == |functions| && forall i :: 0 <= i < |functions| ==> r[i] == FunctionToJson(functions[i])
  {
    r := [];
    for i := 0 to |functions|
      invariant |r| == i && forall k :: 0 <= k < i ==> r[k] == FunctionToJson(functions[k])
    {
      var func := functions[i];
      var blocks := BlocksJson(func.sourceBlocks);
      assert blocks == FunctionToJson(func).blocks;
      r := r + [FunctionJson(func.name, Hex08(func.address), blocks)];
    }
  }

  /** The inner loop: one entry per source block of a function. */
  method BlocksJson(sourceBlocks: seq<SourceBlock>) returns (blocks: seq<BlockJson>)
    ensures |blocks| == |sourceBlocks| && forall k :: 0 <= k < |sourceBlocks| ==> blocks[k] == BlockToJson(sourceBlocks[k])
  {
    blocks := [];
    for j := 0 to |sourceBlocks|
      invariant |blocks| == j && forall k :: 0 <= k < j ==> blocks[k] == BlockToJson(sourceBlocks[k])
    {
      var asmData := AsmData(sourceBlocks[j].asmLines);
      var sb := sourceBlocks[j];
      blocks := blocks + [BlockJson(sb.filePath, sb.lineNumber, sb.sourceText, asmData)];
    }
  }

  method AsmData(asmLines: seq<AsmLine>) returns (r: seq<AsmJson>)
    ensures |r| == |asmLines| && forall k :: 0 <= k < |asmLines| ==> r[k] == AsmToJson(asmLines[k])
  {
    r := [];
    for k := 0 to |asmLines|
      invariant |r| == k && forall m :: 0 <= m < k ==> r[m] == AsmToJson(asmLines[m])
    {
      r := r + [AsmJson(Hex08(asmLines[k].address), asmLines[k].hexBytes, asmLines[k].instruction)];
    }
  }
}
