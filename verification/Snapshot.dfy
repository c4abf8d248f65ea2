// Snapshots and savestates (virtuals/fuzzer/fuzz.c:325-672): what a capture holds, what a restore
// brings back, and the raw image that lets a later process start from an earlier capture.
module Snapshot {
  import opened CInts
  import opened Options
  import opened Bytes

  type Memory = int -> byte

  const REG_COUNT: nat := 16
  const RESTORED_REGS: nat := 15
  const SPECIAL_COUNT: nat := 9

  /** What the plugin can see of the machine; a special register may not exist on this core. */
  datatype Machine = Machine(mem: Memory, regs: seq<word>, special: seq<Option<word>>)

  predicate ValidMachine(m: Machine) {
    |m.regs| == REG_COUNT && |m.special| == SPECIAL_COUNT
  }

  /** A policy: its list of address, size, address, size, ... and whether special registers belong to it. */
  datatype Policy = Policy(ranges: seq<word>, special: bool)

  datatype Saved = Saved(ranges: seq<word>, bytes: seq<byte>, regs: seq<word>, special: seq<word>)

  predicate Pairs(ranges: seq<word>) {
    |ranges| % 2 == 0
  }

  function TotalSize(ranges: seq<word>): nat
    requires Pairs(ranges)
  {
    if ranges == [] then 0 else ranges[1] + TotalSize(ranges[2..])
  }

  /** Address a lies in one of the ranges, which may overlap. */
  predicate Covers(ranges: seq<word>, a: int)
    requires Pairs(ranges)
  {
    ranges != [] && ((ranges[0] <= a && a - ranges[0] < ranges[1]) || Covers(ranges[2..], a))
  }

  /** The list is read in pairs of address and size: an address is covered exactly if it lies in one of them. */
  lemma {:induction false} CoversIff(ranges: seq<word>, a: int)
    requires Pairs(ranges)
    ensures Covers(ranges, a) <==> exists i | 0 <= i < |ranges| / 2 :: InPair(ranges, i, a)
    decreases |ranges|
  {
    if ranges != [] {
      var rest := ranges[2..];
      CoversIff(rest, a);
      if i :| 0 <= i < |rest| / 2 && InPair(rest, i, a) {
        assert InPair(ranges, i + 1, a);
      }
      if i :| 0 <= i < |ranges| / 2 && InPair(ranges, i, a) {
        assert i > 0 ==> InPair(rest, i - 1, a);
        assert i == 0 ==> Covers(ranges, a);
      }
      assert ranges[0] <= a && a - ranges[0] < ranges[1] ==> InPair(ranges, 0, a);
    }
  }

  predicate InPair(ranges: seq<word>, i: nat, a: int)
    requires 2 * i + 1 < |ranges|
  {
    ranges[2 * i] <= a && a - ranges[2 * i] < ranges[2 * i + 1]
  }

  function ReadBytes(mem: Memory, addr: int, len: nat): (s: seq<byte>)
    ensures |s| == len
  {
    seq(len, i requires 0 <= i < len => mem(addr + i))
  }

  function WriteBytes(mem: Memory, addr: int, data: seq<byte>): Memory {
    (a: int) => if addr <= a < addr + |data| then data[a - addr] else mem(a)
  }

  /** The captured bytes, range after range. */
  function ReadRanges(mem: Memory, ranges: seq<word>): (s: seq<byte>)
    requires Pairs(ranges)
    ensures |s| == TotalSize(ranges)
  {
    if ranges == [] then [] else ReadBytes(mem, ranges[0], ranges[1]) + ReadRanges(mem, ranges[2..])
  }

  /** The captured bytes written back, range after range. */
  function WriteRanges(mem: Memory, ranges: seq<word>, data: seq<byte>): Memory
    requires Pairs(ranges) && |data| == TotalSize(ranges)
    decreases |ranges|
  {
    if ranges == [] then mem
    else WriteRanges(WriteBytes(mem, ranges[0], data[..ranges[1]]), ranges[2..], data[ranges[1]..])
  }

  function SaveSpecial(special: seq<Option<word>>): (s: seq<word>)
    ensures |s| == |special|
  {
    seq(|special|, i requires 0 <= i < |special| => if special[i].Some? then special[i].value else 0)
  }

  function LoadSpecial(special: seq<Option<word>>, saved: seq<word>): (s: seq<Option<word>>)
    requires |saved| == |special|
    ensures |s| == |special|
  {
    seq(|special|, i requires 0 <= i < |special| => if special[i].Some? then Some(saved[i]) else None)
  }

  function Zeros(): (s: seq<word>)
    ensures |s| == SPECIAL_COUNT
  {
    seq(SPECIAL_COUNT, _ => 0)
  }

  function Capture(m: Machine, p: Policy): (s: Saved)
    requires ValidMachine(m) && Pairs(p.ranges)
    ensures ValidSaved(s)
  {
    Saved(p.ranges, ReadRanges(m.mem, p.ranges), m.regs, if p.special then SaveSpecial(m.special) else Zeros())
  }

  predicate ValidSaved(s: Saved) {
    && Pairs(s.ranges) && |s.bytes| == TotalSize(s.ranges)
    && |s.regs| == REG_COUNT && |s.special| == SPECIAL_COUNT
  }

  /** Memory, then r0 to r14, then the special registers that exist; never the program counter. */
  function Restore(m: Machine, s: Saved, special: bool): Machine
    requires ValidMachine(m) && ValidSaved(s)
  {
    Machine(WriteRanges(m.mem, s.ranges, s.bytes),
            s.regs[..RESTORED_REGS] + m.regs[RESTORED_REGS..],
            if special then LoadSpecial(m.special, s.special) else m.special)
  }

  // ----- exactness -----

  /** Bytes captured from one memory and written into another: the ranges come back, nothing else changes. */
  lemma {:induction false} RangesComeBack(before: Memory, now: Memory, ranges: seq<word>, a: int)
    requires Pairs(ranges)
    ensures WriteRanges(now, ranges, ReadRanges(before, ranges))(a) == if Covers(ranges, a) then before(a) else now(a)
    decreases |ranges|
  {
    if ranges != [] {
      var data := ReadRanges(before, ranges);
      var head, rest := ReadBytes(before, ranges[0], ranges[1]), ReadRanges(before, ranges[2..]);
      assert data[..ranges[1]] == head && data[ranges[1]..] == rest;
      RangesComeBack(before, WriteBytes(now, ranges[0], head), ranges[2..], a);
    }
  }

  /** Of ranges that overlap the last one is written last: its byte of the data is what the address ends up
      with. Whatever the data is, other addresses keep theirs. */
  lemma {:induction false} LastRangeWins(mem: Memory, ranges: seq<word>, data: seq<byte>, i: nat, a: int)
    requires Pairs(ranges) && |data| == TotalSize(ranges)
    requires i < |ranges| / 2 && InPair(ranges, i, a) && forall j | i < j < |ranges| / 2 :: !InPair(ranges, j, a)
    ensures var at := TotalSize(ranges[..2 * i]) + (a - ranges[2 * i]);
            at < |data| && WriteRanges(mem, ranges, data)(a) == data[at]
    decreases |ranges|
  {
    var rest, more := ranges[2..], data[ranges[1]..];
    var mem' := WriteBytes(mem, ranges[0], data[..ranges[1]]);
    forall j: nat | j < |rest| / 2 ensures InPair(rest, j, a) <==> InPair(ranges, j + 1, a) {
    }
    if i > 0 {
      LastRangeWins(mem', rest, more, i - 1, a);
      assert ranges[..2 * i][2..] == rest[..2 * (i - 1)] && ranges[..2 * i][1] == ranges[1];
    } else {
      assert ranges[..0] == [];
      CoversIff(rest, a);
      UncoveredStays(mem', rest, more, a);
    }
  }

  lemma {:induction false} UncoveredStays(mem: Memory, ranges: seq<word>, data: seq<byte>, a: int)
    requires Pairs(ranges) && |data| == TotalSize(ranges) && !Covers(ranges, a)
    ensures WriteRanges(mem, ranges, data)(a) == mem(a)
    decreases |ranges|
  {
    if ranges != [] {
      UncoveredStays(WriteBytes(mem, ranges[0], data[..ranges[1]]), ranges[2..], data[ranges[1]..], a);
    }
  }

  /** m agrees with the machine at capture time on everything the policy names. */
  ghost predicate Matches(m: Machine, at: Machine, p: Policy)
    requires ValidMachine(m) && ValidMachine(at) && Pairs(p.ranges)
  {
    && (forall a :: Covers(p.ranges, a) ==> m.mem(a) == at.mem(a))
    && m.regs[..RESTORED_REGS] == at.regs[..RESTORED_REGS]
    && (p.special ==> m.special == at.special)
  }

  /** A core keeps its set of special registers. */
  predicate SameCore(m: Machine, at: Machine)
    requires ValidMachine(m) && ValidMachine(at)
  {
    forall i | 0 <= i < SPECIAL_COUNT :: m.special[i].Some? <==> at.special[i].Some?
  }

  /**
   * Restoring a capture on any later state of the machine brings back exactly what the policy names:
   * every covered byte, r0 to r14 and the special registers of the policy, and leaves every other
   * byte, the program counter and the registers outside the policy as they are.
   */
  lemma RestoreIsExact(at: Machine, now: Machine, p: Policy)
    requires ValidMachine(at) && ValidMachine(now) && Pairs(p.ranges) && SameCore(now, at)
    ensures var r := Restore(now, Capture(at, p), p.special);
            && ValidMachine(r)
            && Matches(r, at, p)
            && (forall a :: !Covers(p.ranges, a) ==> r.mem(a) == now.mem(a))
            && r.regs[RESTORED_REGS] == now.regs[RESTORED_REGS]
            && (!p.special ==> r.special == now.special)
  {
    var r := Restore(now, Capture(at, p), p.special);
    forall a
      ensures r.mem(a) == if Covers(p.ranges, a) then at.mem(a) else now.mem(a)
    {
      RangesComeBack(at.mem, now.mem, p.ranges, a);
    }
  }

  // ----- the raw image -----

  function RegBytes(regs: seq<word>): (s: seq<byte>)
    ensures |s| == 4 * |regs|
  {
    if regs == [] then [] else ToLe(regs[0], 4) + RegBytes(regs[1..])
  }

  function RegsFrom(s: seq<byte>, n: nat): (regs: seq<word>)
    requires |s| == 4 * n
    ensures |regs| == n
  {
    if n == 0 then [] else
      RadixValues();
      [FromLe(s[..4])] + RegsFrom(s[4..], n - 1)
  }

  /** The file a capture writes: registers, special registers if the policy has them, memory. */
  function Image(s: Saved, special: bool): seq<byte>
    requires ValidSaved(s)
  {
    RegBytes(s.regs) + (if special then RegBytes(s.special) else []) + s.bytes
  }

  function HeaderSize(special: bool): nat {
    4 * REG_COUNT + if special then 4 * SPECIAL_COUNT else 0
  }

  /** Loading: every read must be complete and the file must end there. */
  function Load(file: seq<byte>, p: Policy): Option<Saved>
    requires Pairs(p.ranges)
  {
    var h := HeaderSize(p.special);
    if |file| != h + TotalSize(p.ranges) then None
    else Some(Saved(p.ranges, file[h..], RegsFrom(file[..4 * REG_COUNT], REG_COUNT),
                    if p.special then RegsFrom(file[4 * REG_COUNT..h], SPECIAL_COUNT) else Zeros()))
  }

  lemma {:induction false} RegBytesReadBack(regs: seq<word>)
    ensures RegsFrom(RegBytes(regs), |regs|) == regs
  {
    if regs != [] {
      RadixValues();
      LeRoundTrip(regs[0], 4);
      var s := RegBytes(regs);
      assert s[..4] == ToLe(regs[0], 4) && s[4..] == RegBytes(regs[1..]);
      RegBytesReadBack(regs[1..]);
    }
  }

  /**
   * An image loads exactly when it has the length of the policy; and what a capture wrote under the
   * same policy loads as that capture.
   */
  lemma ImageReloads(m: Machine, p: Policy, file: seq<byte>)
    requires ValidMachine(m) && Pairs(p.ranges)
    ensures Load(file, p).Some? <==> |file| == HeaderSize(p.special) + TotalSize(p.ranges)
    ensures Load(Image(Capture(m, p), p.special), p) == Some(Capture(m, p))
  {
    var s := Capture(m, p);
    var image := Image(s, p.special);
    var h := HeaderSize(p.special);
    RegBytesReadBack(s.regs);
    RegBytesReadBack(s.special);
    assert image[..4 * REG_COUNT] == RegBytes(s.regs);
    assert p.special ==> image[4 * REG_COUNT..h] == RegBytes(s.special);
    assert image[h..] == s.bytes;
  }

  /** Starting from a written image is starting from the machine that wrote it. */
  lemma ReloadedRestoreIsExact(at: Machine, now: Machine, p: Policy)
    requires ValidMachine(at) && ValidMachine(now) && Pairs(p.ranges) && SameCore(now, at)
    ensures var s := Load(Image(Capture(at, p), p.special), p);
            s.Some? && ValidSaved(s.value) && Restore(now, s.value, p.special) == Restore(now, Capture(at, p), p.special)
            && Matches(Restore(now, s.value, p.special), at, p)
  {
    ImageReloads(at, p, []);
    RestoreIsExact(at, now, p);
  }

  /** Where the image has what: r0 to r15, least byte first, then the special registers of the policy, 0 for
      one this core lacks, then the bytes range after range. */
  lemma ImageLayout(m: Machine, p: Policy, k: nat, j: nat)
    requires ValidMachine(m) && Pairs(p.ranges) && j < 4
    ensures var image := Image(Capture(m, p), p.special);
            && |image| == (if p.special then 100 else 64) + TotalSize(p.ranges)
            && (k < 16 ==> image[4 * k + j] == m.regs[k] / Radix(j) % 256)
            && (p.special && k < 9 ==>
                  image[64 + 4 * k + j] == (match m.special[k] case Some(v) => v case None => 0) / Radix(j) % 256)
            && image[if p.special then 100 else 64..] == ReadRanges(m.mem, p.ranges)
  {
    hide ReadRanges, TotalSize, RegBytes;
    var s := Capture(m, p);
    var image := Image(s, p.special);
    if k < 16 {
      RegByteAt(s.regs, k, j);
      assert image[4 * k + j] == RegBytes(s.regs)[4 * k + j];
    }
    if p.special && k < 9 {
      RegByteAt(s.special, k, j);
      assert image[64 + 4 * k + j] == RegBytes(s.special)[4 * k + j];
    }
  }

  lemma {:induction false} RegByteAt(regs: seq<word>, k: nat, j: nat)
    requires k < |regs| && j < 4
    ensures RegBytes(regs)[4 * k + j] == regs[k] / Radix(j) % 256
  {
    if k == 0 {
      LeastByteFirst(regs[0], 4, j);
      assert RegBytes(regs)[j] == ToLe(regs[0], 4)[j];
    } else {
      RegByteAt(regs[1..], k - 1, j);
      assert RegBytes(regs)[4 * k + j] == RegBytes(regs[1..])[4 * (k - 1) + j];
    }
  }

  // ----- adding ranges -----

  lemma OneRange(addr: word, size: word, a: int)
    ensures TotalSize([addr, size]) == size && (Covers([addr, size], a) <==> addr <= a && a - addr < size)
  {
    assert [addr, size][2..] == [];
  }

  lemma {:induction false} AppendedRanges(a: seq<word>, b: seq<word>, addr: int)
    requires Pairs(a) && Pairs(b)
    ensures Pairs(a + b) && (Covers(a + b, addr) <==> Covers(a, addr) || Covers(b, addr))
    ensures TotalSize(a + b) == TotalSize(a) + TotalSize(b)
    decreases |a|
  {
    if a == [] {
      assert a + b == b;
    } else {
      assert (a + b)[2..] == a[2..] + b;
      AppendedRanges(a[2..], b, addr);
    }
  }

  /** fuzz_append_memory_ranges: half a pair is refused; otherwise both lists are covered, and nothing else. */
  method AppendMemoryRanges(ranges: seq<word>, extra: seq<word>) returns (ok: bool, combined: seq<word>)
    requires Pairs(ranges)
    ensures ok <==> |extra| % 2 == 0
    ensures !ok ==> combined == ranges
    ensures ok ==>
              && Pairs(combined) && TotalSize(combined) == TotalSize(ranges) + TotalSize(extra)
              && forall addr :: Covers(combined, addr) <==> Covers(ranges, addr) || Covers(extra, addr)
  {
    if |extra| % 2 != 0 {
      return false, ranges;
    }
    AppendedRanges(ranges, extra, 0);
    forall addr {
      AppendedRanges(ranges, extra, addr);
    }
    ok, combined := true, ranges + extra;
  }

  // ----- the implementation -----

  class Guest {
    var mem: Memory
    var regs: seq<word>
    var special: seq<Option<word>>

    function State(): Machine
      reads this
    {
      Machine(mem, regs, special)
    }

    constructor (m: Machine)
      ensures State() == m
    {
      mem, regs, special := m.mem, m.regs, m.special;
    }

    /** qemu_plugin_read_memory into a buffer at an offset. */
    method ReadMemory(addr: int, buf: array<byte>, offset: nat, len: nat)
      requires offset + len <= buf.Length
      modifies buf
      ensures buf[..] == old(buf[..offset]) + ReadBytes(mem, addr, len) + old(buf[offset + len..])
    {
      for i := 0 to len
        invariant buf[..offset] == old(buf[..offset])
        invariant buf[offset..offset + i] == ReadBytes(mem, addr, len)[..i]
        invariant buf[offset + i..] == old(buf[offset + i..])
      {
        buf[offset + i] := mem(addr + i);
      }
      assert buf[..] == buf[..offset] + buf[offset..offset + len] + buf[offset + len..];
    }

    /** qemu_plugin_write_memory. */
    method WriteMemory(addr: int, data: seq<byte>)
      modifies this`mem
      ensures mem == WriteBytes(old(mem), addr, data)
    {
      mem := WriteBytes(mem, addr, data);
    }
  }

  class SavedState {
    const policy: Policy
    var membuff: array<byte>
    var regs: seq<word>
    var special: seq<word>
    var ranges: seq<word>
    var file: Option<seq<byte>>    // the raw image at the policy's path
    var loadedFromFile: bool
    var taken: bool

    ghost predicate Valid()
      reads this
    {
      Pairs(policy.ranges) && |regs| == REG_COUNT && |special| == SPECIAL_COUNT &&
      (taken ==> ranges == policy.ranges && membuff.Length == TotalSize(ranges))
    }

    ghost function Value(): Saved
      reads this, membuff
    {
      Saved(ranges, membuff[..], regs, special)
    }

    constructor (policy: Policy, file: Option<seq<byte>>)
      requires Pairs(policy.ranges)
      ensures Valid() && !taken && this.file == file && this.policy == policy && fresh(membuff)
    {
      this.policy := policy;
      this.file := file;
      membuff := new byte[0];
      regs, special := seq(REG_COUNT, _ => 0), Zeros();
      ranges, loadedFromFile, taken := [], false, false;
    }

    /**
     * fuzz_state_ensure: the first call captures, or loads an image of the right length; later calls
     * keep what is there. A capture writes its image whatever file was there before.
     */
    method Ensure(g: Guest)
      requires Valid() && ValidMachine(g.State())
      modifies this
      ensures Valid() && taken && ValidSaved(Value())
      ensures old(taken) ==> unchanged(this)
      ensures !old(taken) ==>
                var image := if old(file).Some? then Load(old(file).value, policy) else None;
                && fresh(membuff)
                && loadedFromFile == image.Some?
                && Value() == (if image.Some? then image.value else Capture(g.State(), policy))
                && file == if image.Some? then old(file) else Some(Image(Value(), policy.special))
    {
      hide Capture, Image, Load, ReadRanges, TotalSize;
      if taken { return; }
      ranges := policy.ranges;
      var total := SizeOf(ranges);
      membuff := new byte[total];
      if file.Some? {
        LoadsByLength(file.value, policy);
      }
      if file.Some? && |file.value| == HeaderSize(policy.special) + total {
        TakeImage(file.value);
        loadedFromFile, taken := true, true;
        return;
      }
      loadedFromFile := false;
      TakeGuest(g);
      taken := true;
      file := Some(Image(Saved(ranges, membuff[..], regs, special), policy.special));
    }

    static lemma LoadsByLength(image: seq<byte>, p: Policy)
      requires Pairs(p.ranges)
      ensures Load(image, p).Some? <==> |image| == HeaderSize(p.special) + TotalSize(p.ranges)
    {
    }

    /** The parts of an image of the right length. */
    method TakeImage(image: seq<byte>)
      requires Pairs(policy.ranges) && ranges == policy.ranges && membuff.Length == TotalSize(ranges)
      requires |image| == HeaderSize(policy.special) + TotalSize(ranges)
      modifies this`regs, this`special, membuff
      ensures Load(image, policy) == Some(Value()) && |regs| == REG_COUNT && |special| == SPECIAL_COUNT
    {
      var h := HeaderSize(policy.special);
      forall i | 0 <= i < membuff.Length { membuff[i] := image[h + i]; }
      regs := RegsFrom(image[..4 * REG_COUNT], REG_COUNT);
      special := if policy.special then RegsFrom(image[4 * REG_COUNT..h], SPECIAL_COUNT) else Zeros();
      assert membuff[..] == image[h..];
    }

    /** The guest's registers and the bytes of the ranges. */
    method TakeGuest(g: Guest)
      requires Pairs(policy.ranges) && ranges == policy.ranges && membuff.Length == TotalSize(ranges)
      requires ValidMachine(g.State())
      modifies this`regs, this`special, membuff
      ensures Value() == Capture(g.State(), policy) && |regs| == REG_COUNT && |special| == SPECIAL_COUNT
    {
      hide ReadRanges, TotalSize;
      regs := g.regs;
      special := if policy.special then SaveSpecial(g.special) else Zeros();
      ReadAll(g);
    }

    static method SizeOf(ranges: seq<word>) returns (total: nat)
      requires Pairs(ranges)
      ensures total == TotalSize(ranges)
    {
      total := 0;
      var i := 1;
      while i < |ranges|
        invariant i % 2 == 1 && i <= |ranges| + 1
        invariant total + TotalSize(ranges[i - 1..]) == TotalSize(ranges)
      {
        assert ranges[i - 1..][2..] == ranges[i + 1..];
        total := total + ranges[i];
        i := i + 2;
      }
      assert ranges[i - 1..] == [];
    }

    /** The capture loop: one read per range, at a running offset. */
    method ReadAll(g: Guest)
      requires Pairs(ranges) && membuff.Length == TotalSize(ranges)
      modifies membuff
      ensures membuff[..] == ReadRanges(g.mem, ranges)
    {
      hide ReadBytes, ReadRanges, TotalSize;
      var offset := 0;
      var i := 0;
      ghost var whole := ReadRanges(g.mem, ranges);
      assert ranges[0..] == ranges && whole[0..] == whole;
      while i < |ranges|
        invariant i % 2 == 0 && i <= |ranges| && 0 <= offset <= |whole|
        invariant offset + TotalSize(ranges[i..]) == |whole|
        invariant whole[offset..] == ReadRanges(g.mem, ranges[i..])
        invariant membuff[..offset] == whole[..offset]
      {
        FirstRange(g.mem, ranges, i);
        ghost var piece := ReadBytes(g.mem, ranges[i], ranges[i + 1]);
        ghost var before := membuff[..offset];
        g.ReadMemory(ranges[i], membuff, offset, ranges[i + 1]);
        assert membuff[..offset + ranges[i + 1]] == before + piece;
        NextPiece(whole, offset, piece, ReadRanges(g.mem, ranges[i + 2..]));
        offset := offset + ranges[i + 1];
        i := i + 2;
      }
      NoRange(g.mem, ranges, i);
      assert membuff[..] == whole;
    }

    static lemma FirstRange(mem: Memory, ranges: seq<word>, i: nat)
      requires Pairs(ranges) && i % 2 == 0 && i < |ranges|
      ensures Pairs(ranges[i..]) && Pairs(ranges[i + 2..])
      ensures TotalSize(ranges[i..]) == ranges[i + 1] + TotalSize(ranges[i + 2..])
      ensures ReadRanges(mem, ranges[i..]) == ReadBytes(mem, ranges[i], ranges[i + 1]) + ReadRanges(mem, ranges[i + 2..])
    {
      hide ReadBytes;
      assert ranges[i..][2..] == ranges[i + 2..];
    }

    static lemma NoRange(mem: Memory, ranges: seq<word>, i: nat)
      requires i == |ranges|
      ensures TotalSize(ranges[i..]) == 0 && ReadRanges(mem, ranges[i..]) == []
    {
    }

    static lemma NextPiece(whole: seq<byte>, offset: nat, piece: seq<byte>, rest: seq<byte>)
      requires offset <= |whole| && whole[offset..] == piece + rest
      ensures offset + |piece| <= |whole| && whole[..offset + |piece|] == whole[..offset] + piece
      ensures whole[offset + |piece|..] == rest
    {
      assert whole[offset..][..|piece|] == piece && whole[offset..][|piece|..] == rest;
    }

    /** fuzz_state_restore. */
    method RestoreTo(g: Guest)
      requires Valid() && ValidMachine(g.State())
      modifies this, g
      ensures Valid() && taken && ValidSaved(Value()) && ValidMachine(g.State())
      ensures g.State() == Restore(old(g.State()), Value(), policy.special)
      ensures old(taken) ==> unchanged(this)
    {
      Ensure(g);
      WriteAll(g);
      g.regs := regs[..RESTORED_REGS] + g.regs[RESTORED_REGS..];
      if policy.special {
        g.special := LoadSpecial(g.special, special);
      }
    }

    method WriteAll(g: Guest)
      requires Pairs(ranges) && membuff.Length == TotalSize(ranges)
      modifies g`mem
      ensures g.mem == WriteRanges(old(g.mem), ranges, membuff[..])
    {
      var offset := 0;
      var i := 0;
      ghost var data := membuff[..];
      assert ranges[0..] == ranges && data[0..] == data;
      while i < |ranges|
        invariant i % 2 == 0 && i <= |ranges| && 0 <= offset <= |data|
        invariant offset + TotalSize(ranges[i..]) == |data|
        invariant WriteRanges(g.mem, ranges[i..], data[offset..]) == WriteRanges(old(g.mem), ranges, data)
      {
        assert ranges[i..][2..] == ranges[i + 2..];
        assert data[offset..][..ranges[i + 1]] == membuff[offset..offset + ranges[i + 1]];
        assert data[offset..][ranges[i + 1]..] == data[offset + ranges[i + 1]..];
        g.WriteMemory(ranges[i], membuff[offset..offset + ranges[i + 1]]);
        offset := offset + ranges[i + 1];
        i := i + 2;
      }
    }
  }
}
