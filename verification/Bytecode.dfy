/** BDX bytecode: the instruction layout, the interpreter, and the write
    "system call" that goes through both. */
module Bytecode {
  import opened Bytes
  import opened BdfsModel
  import Bdfs

  const SYSCALL_PRINT: Byte := 1
  const SYSCALL_WRITE: Byte := 3
  const EXIT: Byte := 4

  datatype Instr = Print(text: Name) | Write(path: Name, data: Buffer)

  function EncodeInstr(i: Instr): seq<Byte> {
    match i
    case Print(text) => [SYSCALL_PRINT] + text + [0]
    case Write(path, data) => [SYSCALL_WRITE] + path + [0] + LE32(|data|) + data
  }

  /** The bytes of an instruction: opcode, string and terminator, and for a write
      the length in little-endian order and the data. */
  lemma EncodedBytes(i: Instr)
    ensures var b := EncodeInstr(i);
            match i
            case Print(text) => |b| == |text| + 2 && b[0] == 1 && b[1..|text| + 1] == text && b[|text| + 1] == 0
            case Write(path, data) =>
              && |b| == |path| + |data| + 6 && b[0] == 3 && b[1..|path| + 1] == path && b[|path| + 1] == 0
              && (forall k :: 0 <= k < 4 ==>
                    b[|path| + 2 + k] as nat == |data| / [1, 256, 65536, 16777216][k] % 256)
              && b[|path| + 6..] == data
  {
    if i.Write? {
      var b, at := EncodeInstr(i), |i.path| + 2;
      forall k | 0 <= k < 4 ensures b[at + k] == LE32(|i.data|)[k] {}
      forall k | 0 <= k < 4 ensures LE32(|i.data|)[k] as nat == |i.data| / [1, 256, 65536, 16777216][k] % 256 {
        LE32Bytes(|i.data|, k);
      }
    }
  }

  function Assemble(prog: seq<Instr>): seq<Byte> {
    if prog == [] then [EXIT] else EncodeInstr(prog[0]) + Assemble(prog[1..])
  }

  /** A program ends with the exit instruction. */
  lemma {:induction false} EndsWithExit(prog: seq<Instr>)
    ensures var code := Assemble(prog);
            code != [] && code[|code| - 1] == 4
  {
    if prog != [] { EndsWithExit(prog[1..]); }
  }

  /** What running bytecode does, or that it reads past its end. */
  datatype Outcome = Stops(effects: seq<Instr>) | Overruns

  /** One instruction and the bytes after it, if there is a complete one. */
  datatype Fetched = Instruction(i: Instr, rest: seq<Byte>) | Halt | Truncated

  function Fetch(code: seq<Byte>): (f: Fetched)
    ensures f.Instruction? ==> |f.rest| < |code|
  {
    if code == [] then Truncated
    else if code[0] == SYSCALL_PRINT then
      var text := CStr(code[1..]);
      if 0 !in code[1..] then Truncated else Instruction(Print(text), code[|text| + 2..])
    else if code[0] == SYSCALL_WRITE then FetchWrite(code)
    else Halt
  }

  function FetchWrite(code: seq<Byte>): (f: Fetched)
    requires code != []
    ensures f.Instruction? ==> |f.rest| < |code|
  {
    var path := CStr(code[1..]);
    var at := |path| + 2;
    if 0 !in code[1..] || at + 4 > |code| then Truncated
    else
      var len := FromLE32(code[at..at + 4]);
      if at + 4 + len > |code| || len + 511 >= U32 then Truncated
      else Instruction(Write(path, code[at + 4..at + 4 + len]), code[at + 4 + len..])
  }

  /** Where the parts of a write instruction lie. */
  lemma WriteParts(code: seq<Byte>)
    requires code != [] && code[0] == SYSCALL_WRITE && Fetch(code).Instruction?
    ensures 0 in code[1..]
    ensures var n := |CStr(code[1..])|;
            && n + 6 <= |code|
            && var len := FromLE32(code[n + 2..n + 6]);
               && n + 6 + len <= |code| && len + 511 < U32
               && code[1..n + 1] == CStr(code[1..])
               && Fetch(code) == Instruction(Write(code[1..n + 1], code[n + 6..n + 6 + len]), code[n + 6 + len..])
  {
    var n := |CStr(code[1..])|;
    assert code[1..n + 1] == code[1..][..n];
  }

  function Interpret(code: seq<Byte>): Outcome
    decreases |code|
  {
    match Fetch(code)
    case Truncated => Overruns
    case Halt => Stops([])
    case Instruction(i, rest) =>
      match Interpret(rest)
      case Overruns => Overruns
      case Stops(effects) => Stops([i] + effects)
  }

  lemma FetchPrint(text: Name, rest: seq<Byte>)
    ensures Fetch(EncodeInstr(Print(text)) + rest) == Instruction(Print(text), rest)
  {
    var code := EncodeInstr(Print(text)) + rest;
    assert code[1..] == text + [0] + rest;
    CStrOf(text, rest);
    assert code[1..][|text|] == 0;
    assert code[|text| + 2..] == rest;
  }

  lemma FetchEncodedWrite(path: Name, data: Buffer, rest: seq<Byte>)
    ensures Fetch(EncodeInstr(Write(path, data)) + rest) == Instruction(Write(path, data), rest)
  {
    var tail := LE32(|data|) + data + rest;
    var code := [SYSCALL_WRITE] + (path + [0] + tail);
    assert EncodeInstr(Write(path, data)) + rest == code;
    CStrOf(path, tail);
    PathInCode(code, path, tail);
    FetchTail(code, |path| + 2, data, rest);
    FetchWriteIs(code, path, data, rest);
  }

  lemma PathInCode(code: seq<Byte>, path: Name, tail: seq<Byte>)
    requires code == [SYSCALL_WRITE] + (path + [0] + tail)
    ensures code[1..] == path + [0] + tail && 0 in code[1..] && code[|path| + 2..] == tail
  {
    assert code[1..] == path + [0] + tail;
    assert code[1..][|path|] == 0;
  }

  lemma FetchWriteIs(code: seq<Byte>, path: Name, data: Buffer, rest: seq<Byte>)
    requires code != [] && code[0] == SYSCALL_WRITE && 0 in code[1..] && CStr(code[1..]) == path
    requires var at := |path| + 2;
             && at + 4 + |data| <= |code| && FromLE32(code[at..at + 4]) == |data|
             && code[at + 4..at + 4 + |data|] == data && code[at + 4 + |data|..] == rest
    ensures Fetch(code) == Instruction(Write(path, data), rest)
  {
  }

  lemma FetchTail(code: seq<Byte>, at: nat, data: Buffer, rest: seq<Byte>)
    requires at <= |code| && code[at..] == LE32(|data|) + data + rest
    ensures at + 4 + |data| <= |code| && FromLE32(code[at..at + 4]) == |data|
    ensures code[at + 4..at + 4 + |data|] == data && code[at + 4 + |data|..] == rest
  {
    var tail := code[at..];
    LE32RoundTrip(|data|);
    assert code[at..at + 4] == tail[..4] == LE32(|data|);
    assert code[at + 4..at + 4 + |data|] == tail[4..4 + |data|];
    assert code[at + 4 + |data|..] == tail[4 + |data|..];
  }

  lemma FetchEncoded(i: Instr, rest: seq<Byte>)
    ensures Fetch(EncodeInstr(i) + rest) == Instruction(i, rest)
  {
    match i
    case Print(text) => FetchPrint(text, rest);
    case Write(path, data) => FetchEncodedWrite(path, data, rest);
  }

  lemma InterpretNext(code: seq<Byte>, i: Instr, rest: seq<Byte>)
    requires Fetch(code) == Instruction(i, rest) && Interpret(rest).Stops?
    ensures Interpret(code) == Stops([i] + Interpret(rest).effects)
  {
  }

  /** What the first byte says about a run that stops. */
  lemma InterpretHead(here: seq<Byte>, todo: seq<Instr>)
    requires Interpret(here) == Stops(todo)
    ensures here != []
    ensures if here[0] == SYSCALL_PRINT || here[0] == SYSCALL_WRITE
            then Fetch(here).Instruction? && todo != [] && todo[0] == Fetch(here).i
                 && Interpret(Fetch(here).rest) == Stops(todo[1..])
            else todo == []
  {
  }

  /** Interpreting an assembled program performs exactly its instructions in
      order and stops, whatever bytes the data contain and whatever follows. */
  lemma {:induction false} InterpretAssembled(prog: seq<Instr>, junk: seq<Byte>)
    ensures Interpret(Assemble(prog) + junk) == Stops(prog)
  {
    if prog == [] {
      assert (Assemble(prog) + junk)[0] == EXIT;
    } else {
      var rest := Assemble(prog[1..]) + junk;
      assert Assemble(prog) + junk == EncodeInstr(prog[0]) + rest;
      FetchEncoded(prog[0], rest);
      InterpretAssembled(prog[1..], junk);
      InterpretNext(Assemble(prog) + junk, prog[0], rest);
      assert [prog[0]] + prog[1..] == prog;
    }
  }

  /** The effects on the file system and on the text printed. */
  function Perform(fs: Fs, printed: seq<Byte>, effects: seq<Instr>): (Fs, seq<Byte>)
    decreases |effects|
  {
    if effects == [] then (fs, printed)
    else
      match effects[0]
      case Print(text) => Perform(fs, printed + text, effects[1..])
      case Write(path, data) => Perform(BdfsModel.Write(fs, path, data).0, printed, effects[1..])
  }

  /** The texts that a program prints, one behind the other. */
  function Texts(prog: seq<Instr>): seq<Byte> {
    if prog == [] then []
    else (match prog[0] case Print(text) => text case Write(_, _) => []) + Texts(prog[1..])
  }

  /** The file system once a program's writes have been made in order. */
  function Written(fs: Fs, prog: seq<Instr>): Fs {
    if prog == [] then fs
    else
      match prog[|prog|-1]
      case Print(_) => Written(fs, prog[..|prog|-1])
      case Write(path, data) => BdfsModel.Write(Written(fs, prog[..|prog|-1]), path, data).0
  }

  lemma {:induction false} WrittenNext(fs: Fs, i: Instr, rest: seq<Instr>)
    ensures Written(fs, [i] + rest) == Written(Written(fs, [i]), rest)
    decreases |rest|
  {
    if rest == [] {
      assert [i] + rest == [i];
    } else {
      var n := |rest| - 1;
      assert ([i] + rest)[..|rest|] == [i] + rest[..n];
      WrittenNext(fs, i, rest[..n]);
    }
  }

  lemma PerformNext(fs: Fs, printed: seq<Byte>, todo: seq<Instr>)
    requires todo != []
    ensures var r := Perform(fs, printed, [todo[0]]);
            Perform(fs, printed, todo) == Perform(r.0, r.1, todo[1..])
  {
  }

  lemma TextsNext(i: Instr, rest: seq<Instr>)
    ensures Texts([i] + rest) == Texts([i]) + Texts(rest)
  {
    assert ([i] + rest)[1..] == rest && [i][1..] == [];
    assert Texts([]) == [];
  }

  lemma PerformOne(fs: Fs, printed: seq<Byte>, i: Instr)
    ensures Perform(fs, printed, [i]) == (Written(fs, [i]), printed + Texts([i]))
  {
    var none: seq<Instr> := [];
    assert [i][1..] == none && [i][..0] == none;
    assert Written(fs, none) == fs;
    match i
    case Print(text) =>
      assert Texts([i]) == text + [] == text;
      assert Perform(fs, printed, [i]) == Perform(fs, printed + text, none);
    case Write(path, data) =>
      assert Texts([i]) == [] && printed + [] == printed;
      assert Perform(fs, printed, [i]) == Perform(BdfsModel.Write(fs, path, data).0, printed, none);
  }

  lemma Joins(a: seq<Byte>, b: seq<Byte>, c: seq<Byte>)
    ensures a + b + c == a + (b + c)
  {
  }

  /** A program prints its texts in order and makes its writes in order, and
      neither meddles with the other. */
  lemma {:induction false} PerformMeans(fs: Fs, printed: seq<Byte>, prog: seq<Instr>)
    ensures Perform(fs, printed, prog) == (Written(fs, prog), printed + Texts(prog))
    decreases |prog|
  {
    if prog == [] {
      assert printed + [] == printed;
    } else {
      var i, rest := prog[0], prog[1..];
      assert prog == [i] + rest;
      PerformNext(fs, printed, prog);
      PerformOne(fs, printed, i);
      WrittenNext(fs, i, rest);
      TextsNext(i, rest);
      PerformMeans(Written(fs, [i]), printed + Texts([i]), rest);
      Joins(printed, Texts([i]), Texts(rest));
    }
  }

  const BUFFER_SIZE: nat := 1024

  /** The outcome of syscall_write; it writes past its local buffer if the
      instruction and the exit do not fit. */
  datatype Called = Overflow | Wrote(fs: Fs)

  function CallWrite(fs: Fs, path: Name, data: Buffer): Called {
    if |path| + |data| + 7 > BUFFER_SIZE then Overflow else Wrote(BdfsModel.Write(fs, path, data).0)
  }

  /** A write goes through the call if and only if path and data have at most
      1017 bytes; and then it is that write. */
  lemma CallsThroughWhen(fs: Fs, path: Name, data: Buffer)
    ensures if |path| + |data| <= 1017 then CallWrite(fs, path, data) == Wrote(Written(fs, [Write(path, data)]))
            else CallWrite(fs, path, data) == Overflow
  {
    PerformOne(fs, [], Write(path, data));
  }

  class Executor {
    const disk: Bdfs.Disk
    var printed: seq<Byte>

    constructor (disk: Bdfs.Disk)
      ensures this.disk == disk && printed == []
    {
      this.disk := disk;
      printed := [];
    }

    /** strlen. */
    static method StringLength(str: seq<Byte>) returns (n: nat)
      requires 0 in str
      ensures n == |CStr(str)|
    {
      n := 0;
      ghost var s := CStr(str);
      assert forall k :: 0 <= k < |s| ==> str[k] == s[k] != 0;
      while str[n] != 0
        invariant n <= |s| < |str|
        decreases |s| - n
      {
        n := n + 1;
      }
    }

    /** Prints the string that follows the opcode at the front of `here`. */
    method DoPrint(here: seq<Byte>) returns (size: nat)
      requires here != [] && here[0] == SYSCALL_PRINT && Fetch(here).Instruction?
      modifies this`printed
      ensures 0 < size <= |here| && here[size..] == Fetch(here).rest
      ensures printed == old(printed) + Fetch(here).i.text
    {
      var n := StringLength(here[1..]);
      printed := printed + here[1..][..n];
      size := n + 2;
    }

    /** Writes the file that the instruction at the front of `here` names. */
    method DoWrite(here: seq<Byte>) returns (size: nat)
      requires here != [] && here[0] == SYSCALL_WRITE && Fetch(here).Instruction? && disk.Valid()
      modifies disk.table, disk.storage
      ensures 0 < size <= |here| && here[size..] == Fetch(here).rest
      ensures disk.View() == BdfsModel.Write(old(disk.View()), Fetch(here).i.path, Fetch(here).i.data).0
    {
      var path, data;
      path, data, size := ParseWrite(here);
      var rc := disk.WriteFile(path, data);
    }

    /** Path, length and data of a write instruction. */
    static method ParseWrite(here: seq<Byte>) returns (path: Name, data: Buffer, size: nat)
      requires here != [] && here[0] == SYSCALL_WRITE && Fetch(here).Instruction?
      ensures 0 < size <= |here| && Fetch(here) == Instruction(Write(path, data), here[size..])
    {
      WriteParts(here);
      var n := StringLength(here[1..]);
      var len := FromLE32(here[n + 2..n + 6]);
      path, data := here[1..n + 1], here[n + 6..n + 6 + len];
      size := n + 6 + len;
    }

    /** interpret_bdx, on bytecode that it does not run past. */
    method InterpretBdx(code: seq<Byte>)
      requires disk.Valid() && Interpret(code).Stops?
      modifies this`printed, disk.table, disk.storage
      ensures (disk.View(), printed) == Perform(old(disk.View()), old(printed), Interpret(code).effects)
    {
      var ip: nat := 0;
      ghost var todo := Interpret(code).effects;
      ghost var goal := Perform(disk.View(), printed, todo);
      assert code[0..] == code;
      while true
        invariant disk.Valid() && ip <= |code| && Interpret(code[ip..]) == Stops(todo)
        invariant Perform(disk.View(), printed, todo) == goal
        decreases |todo|
      {
        var here := code[ip..];
        InterpretHead(here, todo);
        if todo != [] { PerformNext(disk.View(), printed, todo); }
        var size := Execute(here);
        if size == 0 {
          return;
        }
        ip, todo := ip + size, todo[1..];
        assert code[ip..] == here[size..];
      }
    }

    /** One pass of the loop: 0 for the end of the program. */
    method Execute(here: seq<Byte>) returns (size: nat)
      requires disk.Valid() && here != []
      requires here[0] == SYSCALL_PRINT || here[0] == SYSCALL_WRITE ==> Fetch(here).Instruction?
      modifies this`printed, disk.table, disk.storage
      ensures size == 0 <==> here[0] != SYSCALL_PRINT && here[0] != SYSCALL_WRITE
      ensures size == 0 ==> disk.View() == old(disk.View()) && printed == old(printed)
      ensures size > 0 ==> size <= |here| && here[size..] == Fetch(here).rest
      ensures size > 0 ==> (disk.View(), printed) == Perform(old(disk.View()), old(printed), [Fetch(here).i])
    {
      size := 0;
      if here[0] == SYSCALL_PRINT {
        size := DoPrint(here);
      } else if here[0] == SYSCALL_WRITE {
        size := DoWrite(here);
      }
    }

    /** The instruction and the exit, in a buffer of 1024 bytes; `ok` is false
        where a store would leave the buffer. */
    static method AssembleWrite(path: Name, buffer: Buffer) returns (ok: bool, code: seq<Byte>, ghost junk: seq<Byte>)
      ensures ok <==> |path| + |buffer| + 7 <= BUFFER_SIZE
      ensures ok ==> code == EncodeInstr(Write(path, buffer)) + [EXIT] + junk && |code| == 1024
    {
      var bytecode := new Byte[BUFFER_SIZE](_ => 0);
      ok, code, junk := false, [], [];
      var ip;
      ok, ip := PutHeader(bytecode, path, |buffer|);
      if !ok || ip + |buffer| > bytecode.Length { return false, code, junk; }
      ghost var header := bytecode[..ip];
      CopyBytes(bytecode, ip, buffer);
      ip := ip + |buffer|;
      if ip >= bytecode.Length { return false, code, junk; }
      assert bytecode[..ip] == header + buffer;
      bytecode[ip] := EXIT;
      ip := ip + 1;
      code, junk := bytecode[..], bytecode[ip..];
      assert code == bytecode[..ip] + junk && bytecode[..ip] == header + buffer + [EXIT];
    }

    /** Opcode, path and length. */
    static method PutHeader(bytecode: array<Byte>, path: Name, len: nat) returns (ok: bool, ip: nat)
      requires bytecode.Length == BUFFER_SIZE
      modifies bytecode
      ensures ok <==> |path| + 6 <= BUFFER_SIZE
      ensures ok ==> ip == |path| + 6 && bytecode[..ip] == [SYSCALL_WRITE] + path + [0] + LE32(len)
    {
      ip := 0;
      bytecode[ip] := SYSCALL_WRITE;
      ip := ip + 1;
      if ip + |path| >= bytecode.Length { return false, ip; }
      StringEnd(path);
      CopyString(bytecode, ip, path + [0]);
      ip := ip + |path| + 1;
      if ip + 4 > bytecode.Length { return false, ip; }
      assert bytecode[..ip] == [SYSCALL_WRITE] + path + [0];
      CopyBytes(bytecode, ip, LE32(len));
      ip := ip + 4;
      ok := true;
    }

    /** syscall_write: assembles one write into the buffer and runs it: as good
        as calling bdfs_write_file, if the buffer is large enough. */
    method SyscallWrite(path: Name, buffer: Buffer) returns (ok: bool)
      requires disk.Valid()
      modifies this`printed, disk.table, disk.storage
      ensures printed == old(printed)
      ensures (if ok then Wrote(disk.View()) else Overflow) == CallWrite(old(disk.View()), path, buffer)
      ensures !ok ==> disk.View() == old(disk.View())
    {
      var code;
      ghost var junk;
      ok, code, junk := AssembleWrite(path, buffer);
      if ok {
        SingleWrite(path, buffer, junk);
        InterpretBdx(code);
      }
    }
  }

  lemma StringEnd(path: Name)
    ensures CStr(path + [0]) == path && 0 in path + [0]
  {
    CStrOf(path, []);
    assert path + [0] + [] == path + [0];
    assert (path + [0])[|path|] == 0;
  }

  lemma SingleWrite(path: Name, buffer: Buffer, junk: seq<Byte>)
    ensures Interpret(EncodeInstr(Write(path, buffer)) + [EXIT] + junk) == Stops([Write(path, buffer)])
  {
    var prog := [Write(path, buffer)];
    assert prog[1..] == [];
    assert Assemble(prog) == EncodeInstr(prog[0]) + [EXIT];
    InterpretAssembled(prog, junk);
  }
}
