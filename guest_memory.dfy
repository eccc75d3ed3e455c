/** The guest address space as this dialog sees it: a validity test,
    typed reads of the two parameter blocks and of 16-bit units, and
    typed writes. Contents are three typed views (a block read at an
    address returns the block last written there, or a cleared block);
    every write is also appended to a log, so a caller's contract can say
    exactly which guest words it wrote and in what order. */
module GuestMemory {
  import opened OskTypes

  /** One write request to guest memory. */
  datatype Write =
    | U16Write(addr: u32, value: u16)
    | DataWrite(addr: u32, data: DataBlock)
    | ParamsWrite(addr: u32, params: ParamsBlock)

  /** The address of the `i`-th 16-bit unit after `base`, with 32-bit
      wrap-around as the guest's address arithmetic has it. */
  function UnitAddr(base: u32, i: nat): (a: u32)
    ensures a as int == (base as int + 2 * i) % U32Modulus
  {
    ((base as int + 2 * i) % U32Modulus) as u32
  }

  datatype MemContents = MemContents(
    params: map<u32, ParamsBlock>,
    data: map<u32, DataBlock>,
    units: map<u32, u16>)
  {
    function ReadParams(a: u32): ParamsBlock {
      if a in params then params[a] else ZeroParams
    }

    function ReadData(a: u32): DataBlock {
      if a in data then data[a] else ZeroData
    }

    function ReadU16(a: u32): u16 {
      if a in units then units[a] else 0
    }

    /** The `n` units stored from `base` on. */
    function UnitsFrom(base: u32, n: nat): (s: seq<u16>)
      ensures |s| == n
      ensures forall k :: 0 <= k < n ==> s[k] == ReadU16(UnitAddr(base, k))
    {
      seq(n, k requires 0 <= k < n => ReadU16(UnitAddr(base, k)))
    }

    /** The unit at index `n` from `base` is the first zero unit. */
    ghost predicate TerminatedAt(base: u32, n: nat) {
      ReadU16(UnitAddr(base, n)) == 0 &&
      forall k :: 0 <= k < n ==> ReadU16(UnitAddr(base, k)) != 0
    }

    /** A zero unit can be reached from `base`: a zero-terminated string. */
    ghost predicate IsTerminated(base: u32) {
      exists n: nat :: TerminatedAt(base, n)
    }

    /** The number of units before the terminating zero. */
    ghost function TerminatorIndex(base: u32): (n: nat)
      requires IsTerminated(base)
      ensures TerminatedAt(base, n)
    {
      var n: nat :| TerminatedAt(base, n); n
    }

    /** The zero-terminated string at `base`, without its terminator. */
    ghost function StringAt(base: u32): (s: seq<u16>)
      requires IsTerminated(base)
      ensures forall k :: 0 <= k < |s| ==> s[k] != 0
    {
      UnitsFrom(base, TerminatorIndex(base))
    }
  }

  /** Memory with nothing stored anywhere. */
  const EmptyContents := MemContents(map[], map[], map[])

  /** The contents after one write. */
  function Apply(m: MemContents, w: Write): MemContents {
    match w
    case U16Write(a, v) => m.(units := m.units[a := v])
    case DataWrite(a, d) => m.(data := m.data[a := d])
    case ParamsWrite(a, p) => m.(params := m.params[a := p])
  }

  /** The contents after a sequence of writes, applied in order. */
  function ApplyAll(m: MemContents, ws: seq<Write>): MemContents
    decreases |ws|
  {
    if ws == [] then m else Apply(ApplyAll(m, ws[..|ws| - 1]), ws[|ws| - 1])
  }

  lemma ApplyAllSnoc(m: MemContents, ws: seq<Write>, w: Write)
    ensures ApplyAll(m, ws + [w]) == Apply(ApplyAll(m, ws), w)
  {
    assert (ws + [w])[..|ws|] == ws;
  }

  lemma ApplyTwo(m: MemContents, w1: Write, w2: Write)
    ensures ApplyAll(m, [w1, w2]) == Apply(Apply(m, w1), w2)
  {
    ApplyAllSnoc(m, [], w1);
    assert [] + [w1] == [w1];
    ApplyAllSnoc(m, [w1], w2);
    assert [w1] + [w2] == [w1, w2];
  }

  /** Applying two runs of writes together is applying them one run after
      the other. */
  lemma {:induction false} ApplyAllAppend(m: MemContents, ws: seq<Write>, vs: seq<Write>)
    ensures ApplyAll(m, ws + vs) == ApplyAll(ApplyAll(m, ws), vs)
    decreases |vs|
  {
    if vs == [] {
      assert ws + vs == ws;
    } else {
      var front := vs[..|vs| - 1];
      assert ws + vs == (ws + front) + [vs[|vs| - 1]];
      ApplyAllSnoc(m, ws + front, vs[|vs| - 1]);
      ApplyAllAppend(m, ws, front);
      ApplyAllSnoc(ApplyAll(m, ws), front, vs[|vs| - 1]);
      assert front + [vs[|vs| - 1]] == vs;
    }
  }

  /** The memory-access capability the dialog is given. `valid` is the set
      of addresses the platform's validity check accepts. */
  class GuestMemory {
    const valid: set<u32>
    var contents: MemContents
    var writes: seq<Write>

    constructor (valid: set<u32>, contents: MemContents)
      ensures this.valid == valid && this.contents == contents && writes == []
    {
      this.valid := valid;
      this.contents := contents;
      writes := [];
    }

    predicate IsValidAddress(a: u32) {
      a in valid
    }

    function ReadParams(a: u32): (p: ParamsBlock)
      reads this
      ensures a in contents.params ==> p == contents.params[a]
    {
      contents.ReadParams(a)
    }

    function ReadData(a: u32): (d: DataBlock)
      reads this
      ensures a in contents.data ==> d == contents.data[a]
    {
      contents.ReadData(a)
    }

    function ReadU16(a: u32): (v: u16)
      reads this
      ensures a in contents.units ==> v == contents.units[a]
    {
      contents.ReadU16(a)
    }

    method WriteU16(a: u32, v: u16)
      modifies this
      ensures writes == old(writes) + [U16Write(a, v)]
      ensures contents == Apply(old(contents), U16Write(a, v))
    {
      writes := writes + [U16Write(a, v)];
      contents := Apply(contents, U16Write(a, v));
    }

    method WriteData(a: u32, d: DataBlock)
      modifies this
      ensures writes == old(writes) + [DataWrite(a, d)]
      ensures contents == Apply(old(contents), DataWrite(a, d))
    {
      writes := writes + [DataWrite(a, d)];
      contents := Apply(contents, DataWrite(a, d));
    }

    method WriteParams(a: u32, p: ParamsBlock)
      modifies this
      ensures writes == old(writes) + [ParamsWrite(a, p)]
      ensures contents == Apply(old(contents), ParamsWrite(a, p))
    {
      writes := writes + [ParamsWrite(a, p)];
      contents := Apply(contents, ParamsWrite(a, p));
    }
  }
}
