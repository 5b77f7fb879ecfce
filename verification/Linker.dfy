/** The linker script of aml-build.c as a list of commands, and what firmware does with it: files are
    placed in memory, slots get the addresses of what they point at, and checksum bytes are set.
    A script whose later commands never write into an earlier slot or checksummed range works,
    wherever the files are placed. */
module Linker {
  import opened Bytes

  /** The fw_cfg files: the tables, the RSDP, the TPM log, and others. */
  datatype File = TableFile | RsdpFile | TpmLogFile | OtherFile(id: nat)

  datatype Command =
    | Allocate(file: File, alignment: nat, fseg: bool)
    | AddPointer(file: File, offset: nat, size: nat, src: File, srcOffset: nat)
    | AddChecksum(file: File, start: nat, length: nat, at: nat)

  type Memory = map<File, seq<byte>>

  // ----- running a script -----

  /** The command stays inside its file, and a checksum byte inside what it checks. */
  predicate Fits(c: Command, mem: Memory) {
    match c
    case Allocate(_, _, _) => true
    case AddPointer(f, offset, size, _, _) => f in mem && offset + size <= |mem[f]|
    case AddChecksum(f, start, length, at) => f in mem && start <= at < start + length <= |mem[f]|
  }

  /** What a command writes, as a half-open range. */
  function From(c: Command): nat {
    match c case Allocate(_, _, _) => 0 case AddPointer(_, offset, _, _, _) => offset case AddChecksum(_, _, _,
          at) => at
  }

  function To(c: Command): nat {
    match c
    case Allocate(_, _, _) => 0 case AddPointer(_, offset, size, _, _) => offset
          + size case AddChecksum(_, _, _, at) => at + 1
  }

  /** The bytes that go there. */
  function Written(c: Command, base: File -> nat, mem: Memory): (r: seq<byte>)
    requires Fits(c, mem) && !c.Allocate?
    ensures |r| == To(c) - From(c)
  {
    match c
    case AddPointer(_, _, size, src, srcOffset) => Le(base(src) + srcOffset, size)
    case AddChecksum(f, start, length, at) => [(mem[f][at] - Sum(mem[f][start..start + length])) % 256]
  }

  function Apply(c: Command, base: File -> nat, mem: Memory): Memory
    requires Fits(c, mem)
  {
    if c.Allocate? then mem
    else mem[c.file := mem[c.file][..From(c)] + Written(c, base, mem) + mem[c.file][To(c)..]]
  }

  predicate AllFit(cs: seq<Command>, mem: Memory) {
    forall i :: 0 <= i < |cs| ==> Fits(cs[i], mem)
  }

  lemma ApplyKeepsSizes(c: Command, base: File -> nat, mem: Memory)
    requires Fits(c, mem)
    ensures Apply(c, base, mem).Keys == mem.Keys
    ensures forall f :: f in mem ==> |Apply(c, base, mem)[f]| == |mem[f]|
    ensures forall d :: Fits(d, mem) ==> Fits(d, Apply(c, base, mem))
  {
    hide Written;
    if !c.Allocate? {
      var w := Written(c, base, mem);
      assert |mem[c.file][..From(c)] + w + mem[c.file][To(c)..]| == |mem[c.file]|;
    }
  }

  /** Firmware executes the commands in order. */
  function Run(cs: seq<Command>, base: File -> nat, mem: Memory): (r: Memory)
    requires AllFit(cs, mem)
    decreases |cs|
  {
    if cs == [] then mem
    else
      ApplyKeepsSizes(cs[0], base, mem);
      Run(cs[1..], base, Apply(cs[0], base, mem))
  }

  lemma {:induction false} RunKeepsSizes(cs: seq<Command>, base: File -> nat, mem: Memory)
    requires AllFit(cs, mem)
    ensures Run(cs, base, mem).Keys == mem.Keys
    ensures forall f :: f in mem ==> |Run(cs, base, mem)[f]| == |mem[f]|
    ensures forall d :: Fits(d, mem) ==> Fits(d, Run(cs, base, mem))
    decreases |cs|
  {
    hide Fits, Apply;
    if cs != [] {
      ApplyKeepsSizes(cs[0], base, mem);
      RunKeepsSizes(cs[1..], base, Apply(cs[0], base, mem));
    }
  }

  lemma {:induction false} RunSplit(xs: seq<Command>, ys: seq<Command>, base: File -> nat, mem: Memory)
    requires AllFit(xs, mem) && AllFit(ys, mem)
    ensures AllFit(xs + ys, mem) && AllFit(ys, Run(xs, base, mem))
    ensures Run(xs + ys, base, mem) == Run(ys, base, Run(xs, base, mem))
    decreases |xs|
  {
    hide Fits, Apply;
    RunKeepsSizes(xs, base, mem);
    if xs == [] {
      assert xs + ys == ys;
    } else {
      ApplyKeepsSizes(xs[0], base, mem);
      RunSplit(xs[1..], ys, base, Apply(xs[0], base, mem));
      assert (xs + ys)[1..] == xs[1..] + ys;
    }
  }

  // ----- scripts in order -----

  /** The command writes nothing into this range of this file. */
  predicate Spares(c: Command, f: File, from: nat, to: nat) {
    c.Allocate? || c.file != f || To(c) <= from || to <= From(c)
  }

  /** What a command has established is safe from a later one. */
  predicate Undisturbed(a: Command, b: Command) {
    match a
    case Allocate(_, _, _) => true
    case AddPointer(f, offset, size, _, _) => Spares(b, f, offset, offset + size)
    case AddChecksum(f, start, length, _) => Spares(b, f, start, start + length)
  }

  predicate Ordered(cs: seq<Command>) {
    forall i, j :: 0 <= i < j < |cs| ==> Undisturbed(cs[i], cs[j])
  }

  /** What a command is for: the slot holds the address, the range adds up to 0. */
  ghost predicate Done(c: Command, base: File -> nat, mem: Memory)
    requires Fits(c, mem)
  {
    match c
    case Allocate(_, _, _) => true
    case AddPointer(f, offset, size, src, srcOffset) => mem[f][offset..offset + size] == Le(base(src) + srcOffset, size)
    case AddChecksum(f, start, length, _) => Sum(mem[f][start..start + length]) % 256 == 0
  }

  lemma ApplySpares(c: Command, base: File -> nat, mem: Memory, f: File, from: nat, to: nat)
    requires Fits(c, mem) && f in mem && from <= to <= |mem[f]| && Spares(c, f, from, to)
    ensures f in Apply(c, base, mem) && |Apply(c, base, mem)[f]| == |mem[f]|
    ensures Apply(c, base, mem)[f][from..to] == mem[f][from..to]
  {
    hide Written;
    if !c.Allocate? && c.file == f {
      var s, w := mem[f], Written(c, base, mem);
      var s' := s[..From(c)] + w + s[To(c)..];
      assert Apply(c, base, mem)[f] == s';
      forall i | from <= i < to
        ensures s'[i] == s[i]
      {
      }
    }
  }

  /** A range no command writes into is as it was. */
  lemma {:induction false} RunSpares(cs: seq<Command>, base: File -> nat, mem: Memory, f: File, from: nat, to: nat)
    requires AllFit(cs, mem) && f in mem && from <= to <= |mem[f]|
    requires forall i :: 0 <= i < |cs| ==> Spares(cs[i], f, from, to)
    ensures f in Run(cs, base, mem) && |Run(cs, base, mem)[f]| == |mem[f]|
    ensures Run(cs, base, mem)[f][from..to] == mem[f][from..to]
    decreases |cs|
  {
    hide Fits, Apply, Spares;
    if cs != [] {
      ApplyKeepsSizes(cs[0], base, mem);
      ApplySpares(cs[0], base, mem, f, from, to);
      RunSpares(cs[1..], base, Apply(cs[0], base, mem), f, from, to);
    }
  }

  lemma ApplyDoes(c: Command, base: File -> nat, mem: Memory)
    requires Fits(c, mem)
    ensures Fits(c, Apply(c, base, mem)) && Done(c, base, Apply(c, base, mem))
  {
    hide Le;
    ApplyKeepsSizes(c, base, mem);
    if c.AddPointer? {
      var s := mem[c.file][..From(c)] + Written(c, base, mem);
      assert s[From(c)..To(c)] == Written(c, base, mem);
    } else if c.AddChecksum? {
      var s, w := mem[c.file], Written(c, base, mem);
      var s' := s[..c.at] + w + s[c.at + 1..];
      assert s' == s[c.at := w[0]];
      var range := s[c.start..c.start + c.length];
      assert s'[c.start..c.start + c.length] == range[c.at - c.start := w[0]];
      SumUpdate(range, c.at - c.start, w[0]);
    }
  }

  /** What has been established stays established under commands that do not disturb it. */
  lemma StaysDone(c: Command, later: seq<Command>, base: File -> nat, mem: Memory)
    requires Fits(c, mem) && AllFit(later, mem) && Done(c, base, mem)
    requires forall j :: 0 <= j < |later| ==> Undisturbed(c, later[j])
    ensures Fits(c, Run(later, base, mem)) && Done(c, base, Run(later, base, mem))
  {
    hide Le, Sum, Run, Spares;
    RunKeepsSizes(later, base, mem);
    match c {
      case Allocate(_, _, _) =>
      case AddPointer(f, offset, size, _, _) => RunSpares(later, base, mem, f, offset, offset + size);
      case AddChecksum(f, start, length, _) => RunSpares(later, base, mem, f, start, start + length);
    }
  }

  /** A script in order works: after it has run, wherever the files lie, every slot holds the
      address it was meant to hold and every checksummed range adds up to 0. */
  lemma ScriptWorks(cs: seq<Command>, base: File -> nat, mem: Memory, i: nat)
    requires AllFit(cs, mem) && Ordered(cs) && i < |cs|
    ensures Fits(cs[i], Run(cs, base, mem)) && Done(cs[i], base, Run(cs, base, mem))
  {
    hide Fits, Apply, Done, Undisturbed;
    var before, later := cs[..i], cs[i + 1..];
    assert cs == before + ([cs[i]] + later);
    RunSplit(before, [cs[i]] + later, base, mem);
    var m := Run(before, base, mem);
    var m' := Apply(cs[i], base, m);
    assert ([cs[i]] + later)[0] == cs[i] && ([cs[i]] + later)[1..] == later;
    RunKeepsSizes(before, base, mem);
    assert Fits(cs[i], m);
    ApplyKeepsSizes(cs[i], base, m);
    ApplyDoes(cs[i], base, m);
    forall j | 0 <= j < |later|
      ensures Undisturbed(cs[i], later[j]) && Fits(later[j], m')
    {
      assert later[j] == cs[i + 1 + j];
    }
    StaysDone(cs[i], later, base, m');
  }

  /** The order matters: a pointer set after the checksum that covers it spoils the sum. */
  lemma ChecksumFirstFails()
    ensures var cs := [AddChecksum(TableFile, 0, 2, 0), AddPointer(TableFile, 1, 1, TableFile, 0)];
            var mem: Memory := map[TableFile := [0, 0]];
            AllFit(cs, mem) && !Ordered(cs) && Fits(cs[0], Run(cs, _ => 1, mem))
                  && !Done(cs[0], _ => 1, Run(cs, _ => 1, mem))
  {
    var mem: Memory := map[TableFile := [0, 0]];
    var c, p := AddChecksum(TableFile, 0, 2, 0), AddPointer(TableFile, 1, 1, TableFile, 0);
    var cs := [c, p];
    assert !Undisturbed(cs[0], cs[1]);
    assert mem[TableFile][0..2] == [0, 0] && Sum([0, 0]) == 0;
    var m1 := Apply(c, _ => 1, mem);
    assert m1[TableFile] == [0, 0];
    var m2 := Apply(p, _ => 1, m1);
    assert Le(1, 1) == [1];
    assert m2[TableFile] == [0, 1];
    assert cs[1..] == [p] && [p][1..] == [];
    assert Run([p], _ => 1, m1) == m2;
    assert Run(cs, _ => 1, mem) == m2;
    assert m2[TableFile][0..2] == [0, 1] && Sum([0, 1]) == 1;
  }
}
