/** Reading the design file: the declared inputs, outputs and registers and
    the operation lines, as a parser over the file's whitespace-separated
    tokens and as the loops that fill the session. */
module Dcs {
  import opened Common
  import opened Scheduler
  import opened AllocateReg

  // ---------------------------------------------------------------------
  // The design file as a sequence of whitespace-separated tokens

  /** Position in the token sequence and the last token read (`line`). */
  datatype Cursor = Cursor(pos: nat, line: string)

  /** One `in >> line`: the next token; once the tokens are used up the
      read fails and leaves `line` as it was. */
  function Next(tokens: seq<string>, c: Cursor): (r: Cursor)
    ensures r.pos == if c.pos < |tokens| then c.pos + 1 else c.pos
    ensures c.pos < |tokens| ==> r.line == tokens[c.pos]
    ensures c.pos >= |tokens| ==> r.line == c.line
  {
    if c.pos < |tokens| then Cursor(c.pos + 1, tokens[c.pos]) else c
  }

  /** A declared input, output or register: its name and bit width token. */
  datatype Port = Port(name: string, width: string)

  /** An operation line: its label (`op1`, `op2`, ...), type, bit width,
      two operands and output. */
  datatype Record = Record(tag: string, kind: string, width: string, operand1: string, operand2: string, output: string)

  datatype InputFile = InputFile(inputs: seq<Port>, outputs: seq<Port>, regs: seq<Port>, ops: seq<Record>)

  /** The entries a section loop read and where it stopped. */
  datatype Section<T> = Section(items: seq<T>, at: Cursor)

  function Prepend<T>(items: seq<T>, o: Option<Section<T>>): (r: Option<Section<T>>)
    ensures items == [] ==> r == o
  {
    match o
    case None => None
    case Some(sec) =>
      assert [] + sec.items == sec.items;
      Some(Section(items + sec.items, sec.at))
  }

  lemma PrependTwice<T>(a: seq<T>, b: seq<T>, o: Option<Section<T>>)
    ensures Prepend(a, Prepend(b, o)) == Prepend(a + b, o)
  {
    if o.Some? {
      assert a + (b + o.value.items) == (a + b) + o.value.items;
    }
  }

  /** The loop reading (name, width) pairs until `line` is the sentinel.
      None: the tokens run out first, and from then on every read fails,
      so the source loop never ends. */
  function ReadPorts(tokens: seq<string>, c: Cursor, sentinel: string): (r: Option<Section<Port>>)
    decreases |tokens| - c.pos
  {
    if c.line == sentinel then Some(Section([], c))
    else if c.pos >= |tokens| then None
    else
      var width := Next(tokens, c);
      var after := Next(tokens, width);
      Prepend([Port(c.line, width.line)], ReadPorts(tokens, after, sentinel))
  }

  /** The loop reading operation records until `line` is `stop`; the token
      in front of each record is its label. */
  function ReadRecords(tokens: seq<string>, c: Cursor, stop: string): (r: Option<Section<Record>>)
    decreases |tokens| - c.pos
  {
    if c.line == stop then Some(Section([], c))
    else if c.pos >= |tokens| then None
    else
      var kind := Next(tokens, c);
      var width := Next(tokens, kind);
      var op1 := Next(tokens, width);
      var op2 := Next(tokens, op1);
      var out := Next(tokens, op2);
      var after := Next(tokens, out);
      Prepend([Record(c.line, kind.line, width.line, op1.line, op2.line, out.line)], ReadRecords(tokens, after, stop))
  }

  /** The words that open and close the sections of a design file. */
  datatype Keywords = Keywords(inputs: string, outputs: string, regs: string, firstOp: string, stop: string)

  /** The design file's own keywords: the registers end at the first
      operation label, "op1". */
  const Layout := Keywords("inputs", "outputs", "regs", "op1", "end")

  /** The three declaration sections and where their reading stopped. */
  datatype Declared = Declared(inputs: seq<Port>, outputs: seq<Port>, regs: seq<Port>, at: Cursor)

  /** The first part of readInputFile: skip the first token, read inputs up
      to "outputs", outputs up to "regs" and registers up to "op1". None
      where the source never returns. */
  function Declarations(tokens: seq<string>, kw: Keywords): (r: Option<Declared>)
  {
    var start := Next(tokens, Next(tokens, Cursor(0, "")));
    match ReadPorts(tokens, start, kw.outputs)
    case None => None
    case Some(ins) =>
      match ReadPorts(tokens, Next(tokens, ins.at), kw.regs)
      case None => None
      case Some(outs) =>
        match ReadPorts(tokens, Next(tokens, outs.at), kw.firstOp)
        case None => None
        case Some(regs) => Some(Declared(ins.items, outs.items, regs.items, regs.at))
  }

  /** readInputFile on a token sequence: the declarations, then operation
      records up to "end". None where the source never returns. */
  function ParseFile(tokens: seq<string>, kw: Keywords): (r: Option<InputFile>)
  {
    match Declarations(tokens, kw)
    case None => None
    case Some(d) =>
      match ReadRecords(tokens, d.at, kw.stop)
      case None => None
      case Some(recs) => Some(InputFile(d.inputs, d.outputs, d.regs, recs.items))
  }

  // ---------------------------------------------------------------------
  // Writing a design file, and reading it back

  function PortTokens(ps: seq<Port>): (r: seq<string>)
    ensures |r| == 2 * |ps|
  {
    if |ps| == 0 then [] else [ps[0].name, ps[0].width] + PortTokens(ps[1..])
  }

  function RecordTokens(rs: seq<Record>): (r: seq<string>)
    ensures |r| == 6 * |rs|
  {
    if |rs| == 0 then []
    else [rs[0].tag, rs[0].kind, rs[0].width, rs[0].operand1, rs[0].operand2, rs[0].output] + RecordTokens(rs[1..])
  }

  /** The file's tokens in the layout the reader expects. */
  function Tokens(f: InputFile, kw: Keywords): (r: seq<string>)
    ensures |r| == 2 * (|f.inputs| + |f.outputs| + |f.regs|) + 6 * |f.ops| + 4
  {
    [kw.inputs] + (PortTokens(f.inputs) + ([kw.outputs] + (PortTokens(f.outputs) + ([kw.regs] + (PortTokens(f.regs)
      + (RecordTokens(f.ops) + [kw.stop]))))))
  }

  /** What a file must look like to be read back as written: no name equal
      to the keyword ending its section, at least one operation, the first
      labelled with the keyword that ends the registers, and no label equal
      to the final keyword. */
  predicate WellFormedFile(f: InputFile, kw: Keywords) {
    && (forall k | 0 <= k < |f.inputs| :: f.inputs[k].name != kw.outputs)
    && (forall k | 0 <= k < |f.outputs| :: f.outputs[k].name != kw.regs)
    && (forall k | 0 <= k < |f.regs| :: f.regs[k].name != kw.firstOp)
    && |f.ops| > 0 && f.ops[0].tag == kw.firstOp
    && (forall k | 0 <= k < |f.ops| :: f.ops[k].tag != kw.stop)
  }

  /** A section of pairs followed by its sentinel is read whole; the loop
      stops on the sentinel. `c` is the cursor in front of the section. */
  lemma {:induction false} ReadPortsTokens(tokens: seq<string>, c: Cursor, ps: seq<Port>, sentinel: string, rest: seq<string>, e: nat)
    requires c.pos <= |tokens| && tokens[c.pos..] == PortTokens(ps) + rest
    requires |rest| > 0 && rest[0] == sentinel
    requires forall a | 0 <= a < |ps| :: ps[a].name != sentinel
    requires e == c.pos + 2 * |ps| + 1
    ensures ReadPorts(tokens, Next(tokens, c), sentinel) == Some(Section(ps, Cursor(e, sentinel)))
    decreases |ps|
  {
    var k := c.pos;
    if |ps| > 0 {
      var head := [ps[0].name, ps[0].width];
      assert tokens[k..] == head + (PortTokens(ps[1..]) + rest);
      assert tokens[k] == ps[0].name && tokens[k + 1] == ps[0].width;
      Suffix(tokens, k, head, PortTokens(ps[1..]) + rest);
      ReadPortsTokens(tokens, Cursor(k + 2, ps[0].width), ps[1..], sentinel, rest, e);
      assert [ps[0]] + ps[1..] == ps;
    } else {
      assert tokens[k] == rest[0];
    }
  }

  /** A run of records followed by `stop` is read whole, starting with the
      first token of the run already read. */
  lemma {:induction false} ReadRecordsTokens(tokens: seq<string>, c: Cursor, rs: seq<Record>, stop: string, rest: seq<string>, e: nat)
    requires 1 <= c.pos <= |tokens| + 1 && tokens[c.pos - 1..] == RecordTokens(rs) + rest
    requires |rest| > 0 && rest[0] == stop
    requires c.line == (RecordTokens(rs) + rest)[0]
    requires forall a | 0 <= a < |rs| :: rs[a].tag != stop
    requires e == c.pos + 6 * |rs|
    ensures ReadRecords(tokens, c, stop) == Some(Section(rs, Cursor(e, stop)))
    decreases |rs|
  {
    var k := c.pos - 1;
    if |rs| > 0 {
      var r := rs[0];
      var head := [r.tag, r.kind, r.width, r.operand1, r.operand2, r.output];
      assert tokens[k..] == head + (RecordTokens(rs[1..]) + rest);
      assert tokens[k] == r.tag && tokens[k + 1] == r.kind && tokens[k + 2] == r.width;
      assert tokens[k + 3] == r.operand1 && tokens[k + 4] == r.operand2 && tokens[k + 5] == r.output;
      Suffix(tokens, k, head, RecordTokens(rs[1..]) + rest);
      ReadRecordsTokens(tokens, Cursor(k + 7, tokens[k + 6]), rs[1..], stop, rest, e);
      assert [r] + rs[1..] == rs;
    }
  }

  /** Dropping a known prefix from a suffix of the tokens. */
  lemma Suffix(t: seq<string>, k: nat, a: seq<string>, b: seq<string>)
    requires k <= |t| && t[k..] == a + b
    ensures k + |a| <= |t| && t[k + |a|..] == b
  {
    assert t[k + |a|..] == t[k..][|a|..];
  }

  /** The reader's result once each of its four loops is known. */
  lemma ParseFileFrom(t: seq<string>, f: InputFile, kw: Keywords, c1: Cursor, c2: Cursor, c3: Cursor, c4: Cursor)
    requires ReadPorts(t, Next(t, Next(t, Cursor(0, ""))), kw.outputs) == Some(Section(f.inputs, c1))
    requires ReadPorts(t, Next(t, c1), kw.regs) == Some(Section(f.outputs, c2))
    requires ReadPorts(t, Next(t, c2), kw.firstOp) == Some(Section(f.regs, c3))
    requires ReadRecords(t, c3, kw.stop) == Some(Section(f.ops, c4))
    ensures ParseFile(t, kw) == Some(f)
  {
  }

  /** The inputs section, after the skipped first token, and the outputs
      section at position k2 are read whole. */
  lemma PortSectionsRead(t: seq<string>, f: InputFile, kw: Keywords, r1: seq<string>, k2: nat, r2: seq<string>, k3: nat)
    requires 1 <= |t| && t[1..] == PortTokens(f.inputs) + r1 && |r1| > 0 && r1[0] == kw.outputs
    requires k2 == |PortTokens(f.inputs)| + 2 && k3 == k2 + |PortTokens(f.outputs)| + 1
    requires k2 <= |t| && t[k2..] == PortTokens(f.outputs) + r2 && |r2| > 0 && r2[0] == kw.regs
    requires forall k | 0 <= k < |f.inputs| :: f.inputs[k].name != kw.outputs
    requires forall k | 0 <= k < |f.outputs| :: f.outputs[k].name != kw.regs
    ensures ReadPorts(t, Next(t, Next(t, Cursor(0, ""))), kw.outputs) == Some(Section(f.inputs, Cursor(k2, kw.outputs)))
    ensures ReadPorts(t, Next(t, Cursor(k2, kw.outputs)), kw.regs) == Some(Section(f.outputs, Cursor(k3, kw.regs)))
  {
    var c0, c1, c2 := Next(t, Cursor(0, "")), Cursor(k2, kw.outputs), Cursor(k3, kw.regs);
    assert ReadPorts(t, Next(t, c0), kw.outputs) == Some(Section(f.inputs, c1)) by {
      ReadPortsTokens(t, c0, f.inputs, kw.outputs, r1, k2);
    }
    assert ReadPorts(t, Next(t, c1), kw.regs) == Some(Section(f.outputs, c2)) by {
      ReadPortsTokens(t, c1, f.outputs, kw.regs, r2, k3);
    }
  }

  /** The registers section at position k, ended by the first record's
      label, and the records after it are read whole. */
  lemma RecordSectionsRead(t: seq<string>, f: InputFile, kw: Keywords, k: nat, r3: seq<string>, k4: nat, e: nat)
    requires WellFormedFile(f, kw)
    requires k <= |t| && t[k..] == PortTokens(f.regs) + r3 && r3 == RecordTokens(f.ops) + [kw.stop]
    requires k4 == k + |PortTokens(f.regs)| + 1 && e == k4 + |RecordTokens(f.ops)|
    ensures ReadPorts(t, Next(t, Cursor(k, kw.regs)), kw.firstOp) == Some(Section(f.regs, Cursor(k4, kw.firstOp)))
    ensures ReadRecords(t, Cursor(k4, kw.firstOp), kw.stop) == Some(Section(f.ops, Cursor(e, kw.stop)))
  {
    var c2, c3, c4 := Cursor(k, kw.regs), Cursor(k4, kw.firstOp), Cursor(e, kw.stop);
    assert ReadPorts(t, Next(t, c2), kw.firstOp) == Some(Section(f.regs, c3)) by {
      assert r3[0] == f.ops[0].tag;
      ReadPortsTokens(t, c2, f.regs, kw.firstOp, r3, k4);
    }
    assert ReadRecords(t, c3, kw.stop) == Some(Section(f.ops, c4)) by {
      Suffix(t, k, PortTokens(f.regs), r3);
      ReadRecordsTokens(t, c3, f.ops, kw.stop, [kw.stop], e);
    }
  }

  /** The reader on tokens whose sections sit where a well-formed file
      puts them. */
  lemma ParseLayout(t: seq<string>, f: InputFile, kw: Keywords, r1: seq<string>, k2: nat, r2: seq<string>, k3: nat)
    requires WellFormedFile(f, kw)
    requires 1 <= |t| && t[1..] == PortTokens(f.inputs) + r1 && |r1| > 0 && r1[0] == kw.outputs
    requires k2 == |PortTokens(f.inputs)| + 2 && k3 == k2 + |PortTokens(f.outputs)| + 1
    requires k2 <= |t| && t[k2..] == PortTokens(f.outputs) + r2 && |r2| > 0 && r2[0] == kw.regs
    requires k3 <= |t| && t[k3..] == PortTokens(f.regs) + (RecordTokens(f.ops) + [kw.stop])
    ensures ParseFile(t, kw) == Some(f)
  {
    var k4 := k3 + |PortTokens(f.regs)| + 1;
    var e := k4 + |RecordTokens(f.ops)|;
    var c1, c2, c3, c4 := Cursor(k2, kw.outputs), Cursor(k3, kw.regs), Cursor(k4, kw.firstOp), Cursor(e, kw.stop);
    assert ReadPorts(t, Next(t, Next(t, Cursor(0, ""))), kw.outputs) == Some(Section(f.inputs, c1))
        && ReadPorts(t, Next(t, c1), kw.regs) == Some(Section(f.outputs, c2)) by {
      PortSectionsRead(t, f, kw, r1, k2, r2, k3);
    }
    assert ReadPorts(t, Next(t, c2), kw.firstOp) == Some(Section(f.regs, c3))
        && ReadRecords(t, c3, kw.stop) == Some(Section(f.ops, c4)) by {
      RecordSectionsRead(t, f, kw, k3, RecordTokens(f.ops) + [kw.stop], k4, e);
    }
    ParseFileFrom(t, f, kw, c1, c2, c3, c4);
  }

  /** Round trip: a well-formed file, written out as tokens, reads back as
      itself. */
  lemma ParseTokens(f: InputFile, kw: Keywords)
    requires WellFormedFile(f, kw)
    ensures ParseFile(Tokens(f, kw), kw) == Some(f)
  {
    var t := Tokens(f, kw);
    var pi, po, pr, rt := PortTokens(f.inputs), PortTokens(f.outputs), PortTokens(f.regs), RecordTokens(f.ops);
    var s3 := pr + (rt + [kw.stop]);
    var s2 := po + ([kw.regs] + s3);
    var s1 := pi + ([kw.outputs] + s2);
    assert t == [kw.inputs] + s1;
    Suffix(t, 0, [kw.inputs], s1);
    Suffix(t, 1, pi, [kw.outputs] + s2);
    Suffix(t, 1 + |pi|, [kw.outputs], s2);
    Suffix(t, |pi| + 2, po, [kw.regs] + s3);
    Suffix(t, |pi| + |po| + 2, [kw.regs], s3);
    ParseLayout(t, f, kw, [kw.outputs] + s2, |pi| + 2, [kw.regs] + s3, |pi| + |po| + 3);
  }

  /** The loop over pairs never returns an entry named like its sentinel,
      and stops with the sentinel read. */
  lemma {:induction false} ReadPortsAvoidSentinel(tokens: seq<string>, c: Cursor, sentinel: string)
    requires ReadPorts(tokens, c, sentinel).Some?
    ensures forall a | 0 <= a < |ReadPorts(tokens, c, sentinel).value.items| ::
      ReadPorts(tokens, c, sentinel).value.items[a].name != sentinel
    ensures ReadPorts(tokens, c, sentinel).value.at.line == sentinel
    decreases |tokens| - c.pos
  {
    if c.line != sentinel {
      var after := Next(tokens, Next(tokens, c));
      ReadPortsAvoidSentinel(tokens, after, sentinel);
    }
  }

  /** The record loop returns no record labelled like its stop word, and
      its first record carries the label read before it. */
  lemma {:induction false} ReadRecordsAvoidStop(tokens: seq<string>, c: Cursor, stop: string)
    requires ReadRecords(tokens, c, stop).Some?
    ensures c.line != stop ==> (|ReadRecords(tokens, c, stop).value.items| > 0
      && ReadRecords(tokens, c, stop).value.items[0].tag == c.line)
    ensures forall a | 0 <= a < |ReadRecords(tokens, c, stop).value.items| ::
      ReadRecords(tokens, c, stop).value.items[a].tag != stop
    decreases |tokens| - c.pos
  {
    if c.line != stop {
      var after := Next(tokens, Next(tokens, Next(tokens, Next(tokens, Next(tokens, Next(tokens, c))))));
      ReadRecordsAvoidStop(tokens, after, stop);
    }
  }

  /** Whatever the reader accepts is well formed, so writing it out and
      reading it again gives the same file. */
  lemma ParsedIsWellFormed(tokens: seq<string>, kw: Keywords)
    requires kw.firstOp != kw.stop && ParseFile(tokens, kw).Some?
    ensures WellFormedFile(ParseFile(tokens, kw).value, kw)
    ensures ParseFile(Tokens(ParseFile(tokens, kw).value, kw), kw) == ParseFile(tokens, kw)
  {
    var start := Next(tokens, Next(tokens, Cursor(0, "")));
    var ins := ReadPorts(tokens, start, kw.outputs).value;
    ReadPortsAvoidSentinel(tokens, start, kw.outputs);
    var outs := ReadPorts(tokens, Next(tokens, ins.at), kw.regs).value;
    ReadPortsAvoidSentinel(tokens, Next(tokens, ins.at), kw.regs);
    var regs := ReadPorts(tokens, Next(tokens, outs.at), kw.firstOp).value;
    ReadPortsAvoidSentinel(tokens, Next(tokens, outs.at), kw.firstOp);
    ReadRecordsAvoidStop(tokens, regs.at, kw.stop);
    ParseTokens(ParseFile(tokens, kw).value, kw);
  }

  // ---------------------------------------------------------------------
  // Loading the file into the session

  /** C's atoi on a token: an optional sign, then the leading run of decimal
      digits; 0 when there is none. */
  function Atoi(s: string): (r: int)
  {
    if |s| > 0 && s[0] == '-' then 0 - LeadingDigits(s[1..], 0)
    else if |s| > 0 && s[0] == '+' then LeadingDigits(s[1..], 0)
    else LeadingDigits(s, 0)
  }

  function LeadingDigits(s: string, acc: nat): (r: nat)
  {
    if |s| == 0 || !('0' <= s[0] <= '9') then acc
    else LeadingDigits(s[1..], acc * 10 + (s[0] as int - '0' as int))
  }

  function Names(ps: seq<Port>): (r: seq<string>)
    ensures |r| == |ps|
  {
    seq(|ps|, k requires 0 <= k < |ps| => ps[k].name)
  }

  /** Declared registers start with first = last = 0. */
  function DeclaredRegs(ps: seq<Port>): (r: seq<Reg>)
    ensures |r| == |ps|
  {
    seq(|ps|, k requires 0 <= k < |ps| => Reg(ps[k].name, 0, 0))
  }

  /** Operations start unscheduled. */
  function Operations(rs: seq<Record>): (r: seq<Operation>)
    ensures |r| == |rs|
  {
    seq(|rs|, k requires 0 <= k < |rs| => Operation(rs[k].kind, rs[k].operand1, rs[k].operand2, rs[k].output, 0))
  }

  /** Bit width from the first entry of a section, or the old value when the
      section is empty. */
  function FirstWidth(ps: seq<Port>, old_: int): (r: int)
  {
    if |ps| == 0 then old_ else Atoi(ps[0].width)
  }

  function FirstOpWidth(rs: seq<Record>, old_: int): (r: int)
  {
    if |rs| == 0 then old_ else Atoi(rs[0].width)
  }

  /** One (name, width) section loop; `c` holds the section's first token.
      Returns false where the source would never leave the loop. */
  method ReadPortSection(tokens: seq<string>, c0: Cursor, sentinel: string) returns (ok: bool, ports: seq<Port>, c: Cursor)
    requires c0.pos <= |tokens|
    ensures ok <==> ReadPorts(tokens, c0, sentinel).Some?
    ensures ok ==> ReadPorts(tokens, c0, sentinel) == Some(Section(ports, c)) && c.pos <= |tokens|
  {
    c := c0;
    ports := [];
    while c.line != sentinel
      invariant c.pos <= |tokens|
      invariant ReadPorts(tokens, c0, sentinel) == Prepend(ports, ReadPorts(tokens, c, sentinel))
      decreases |tokens| - c.pos
    {
      if c.pos >= |tokens| {
        // every further read fails: the source repeats this loop forever
        return false, ports, c;
      }
      var name := c.line;
      c := Next(tokens, c);  // bit size
      var width := c.line;
      c := Next(tokens, c);  // next name, or the sentinel
      PrependTwice(ports, [Port(name, width)], ReadPorts(tokens, c, sentinel));
      ports := ports + [Port(name, width)];
    }
    assert ports + [] == ports;
    return true, ports, c;
  }

  /** The operation loop of readInputFile: each record becomes an
      unscheduled operation, and the first record's width sets the
      operation bit width. False where the source would never leave the
      loop. */
  method ReadRecordSection(s: Session, tokens: seq<string>, c0: Cursor, stop: string) returns (ok: bool)
    requires c0.pos <= |tokens| && s.operations == []
    modifies s`operations, s`operationBits
    ensures ok <==> ReadRecords(tokens, c0, stop).Some?
    ensures ok ==> s.operations == Operations(ReadRecords(tokens, c0, stop).value.items)
    ensures ok ==> s.operationBits == FirstOpWidth(ReadRecords(tokens, c0, stop).value.items, old(s.operationBits))
  {
    var c := c0;
    ghost var read: seq<Record> := [];
    var i := -1;
    while c.line != stop
      invariant c.pos <= |tokens| && i == |read| - 1
      invariant ReadRecords(tokens, c0, stop) == Prepend(read, ReadRecords(tokens, c, stop))
      invariant s.operations == Operations(read)
      invariant s.operationBits == FirstOpWidth(read, old(s.operationBits))
      decreases |tokens| - c.pos
    {
      if c.pos >= |tokens| {
        // every further read fails: the source repeats this loop forever
        return false;
      }
      i := i + 1;
      var tag := c.line;
      c := Next(tokens, c);
      var kind := c.line;
      c := Next(tokens, c);
      if i == 0 { s.operationBits := Atoi(c.line); }
      var width := c.line;
      c := Next(tokens, c);
      var operand1 := c.line;
      c := Next(tokens, c);
      var operand2 := c.line;
      c := Next(tokens, c);
      var output := c.line;
      c := Next(tokens, c);  // next label, or the stop word
      s.operations := s.operations + [Operation(kind, operand1, operand2, output, 0)];
      var record := Record(tag, kind, width, operand1, operand2, output);
      PrependTwice(read, [record], ReadRecords(tokens, c, stop));
      assert Operations(read + [record]) == Operations(read) + [Operation(kind, operand1, operand2, output, 0)];
      read := read + [record];
    }
    assert read + [] == read;
    return true;
  }

  /** The declaration part of readInputFile: the declared inputs and
      outputs are appended, the registers created, and each width set from
      the first entry of its section. False where the source never
      returns. */
  method ReadDeclarations(s: Session, tokens: seq<string>, kw: Keywords) returns (ok: bool, c: Cursor)
    requires s.registers == []
    modifies s`inputs, s`outputs, s`registers, s`inputBits, s`outputBits, s`registerBits
    ensures ok <==> Declarations(tokens, kw).Some?
    ensures ok ==>
      var d := Declarations(tokens, kw).value;
      && c == d.at && c.pos <= |tokens|
      && s.inputs == old(s.inputs) + Names(d.inputs) && s.inputBits == FirstWidth(d.inputs, old(s.inputBits))
      && s.outputs == old(s.outputs) + Names(d.outputs) && s.outputBits == FirstWidth(d.outputs, old(s.outputBits))
      && s.registers == DeclaredRegs(d.regs) && s.registerBits == FirstWidth(d.regs, old(s.registerBits))
  {
    c := Cursor(0, "");
    c := Next(tokens, c);  // the word "inputs"
    c := Next(tokens, c);  // first input

    var ins, outs, regs: seq<Port>;
    ok, ins, c := ReadPortSection(tokens, c, kw.outputs);
    if !ok {
      return;
    }
    s.inputs := s.inputs + Names(ins);
    s.inputBits := FirstWidth(ins, s.inputBits);  // set while reading the first entry

    c := Next(tokens, c);  // first output
    ok, outs, c := ReadPortSection(tokens, c, kw.regs);
    if !ok {
      return;
    }
    s.outputs := s.outputs + Names(outs);
    s.outputBits := FirstWidth(outs, s.outputBits);

    c := Next(tokens, c);  // first register
    ok, regs, c := ReadPortSection(tokens, c, kw.firstOp);
    if !ok {
      return;
    }
    s.registers := DeclaredRegs(regs);
    s.registerBits := FirstWidth(regs, s.registerBits);
    assert Declarations(tokens, kw) == Some(Declared(ins, outs, regs, c));
  }

  /** readInputFile: the declarations, then one unscheduled operation per
      record. False where the source never returns. The section keywords
      are a parameter; the flow passes `Layout`. */
  method ReadInputFile(s: Session, tokens: seq<string>, kw: Keywords) returns (ok: bool)
    requires s.registers == [] && s.operations == []
    modifies s`inputs, s`outputs, s`registers, s`operations
    modifies s`inputBits, s`outputBits, s`registerBits, s`operationBits
    ensures ok <==> ParseFile(tokens, kw).Some?
    ensures ok ==>
      var f := ParseFile(tokens, kw).value;
      && s.inputs == old(s.inputs) + Names(f.inputs) && s.inputBits == FirstWidth(f.inputs, old(s.inputBits))
      && s.outputs == old(s.outputs) + Names(f.outputs) && s.outputBits == FirstWidth(f.outputs, old(s.outputBits))
      && s.registers == DeclaredRegs(f.regs) && s.registerBits == FirstWidth(f.regs, old(s.registerBits))
      && s.operations == Operations(f.ops) && s.operationBits == FirstOpWidth(f.ops, old(s.operationBits))
  {
    var c;
    ok, c := ReadDeclarations(s, tokens, kw);
    if !ok {
      return;
    }
    ok := ReadRecordSection(s, tokens, c, kw.stop);
  }
}
