// The index from addresses to device models (device_models/dev.c:28-45, 69-182, 237-360, constants of
// include/device.h:130-145): tables of lists, one list for every 16 bytes, against a scan of what was
// registered.
module SlotTable {
  import opened Options

  const SLOT_SIZE: nat := 0x10
  const DEVICE_BASE: nat := 0x4000_0000
  const SYSTEM_BASE: nat := 0xE000_0000
  const NUM_SLOTS: nat := 0x200_0000
  const SYSTEM_NUM_SLOTS: nat := 0x100_0000
  const RAM_NUM_SLOTS: nat := 0x100_0000
  const ADDRESSES: nat := 0x1_0000_0000_0000_0000
  const UNSIGNED: nat := 0x1_0000_0000

  /** A device model: id stands for its address in memory; not every model has an interrupt callback. */
  datatype Device = Device(id: nat, name: string, hasInterrupt: bool)

  datatype Registration = Registration(start: nat, end: nat, dev: Device)

  datatype Region = Peripheral | SystemControl | Ram

  // ----- address arithmetic, on 64-bit addresses and 32-bit indices -----

  /** dev_select_lut: by the address without its low 28 bits. */
  function SelectLut(addr: nat): Option<Region> {
    var top := addr / 0x1000_0000;
    if top == 0x4 || top == 0x5 then Some(Peripheral)
    else if top == 0xE then Some(SystemControl)
    else if top == 0x2 then Some(Ram)
    else None
  }

  predicate InPeripherals(addr: nat) {
    0x4000_0000 <= addr < 0x6000_0000
  }

  predicate InSystem(addr: nat) {
    0xE000_0000 <= addr < 0xF000_0000
  }

  predicate InRam(addr: nat) {
    0x2000_0000 <= addr < 0x3000_0000
  }

  /** Each table is chosen for exactly one range of addresses. */
  lemma SelectedIff(addr: nat)
    ensures SelectLut(addr) == Some(Peripheral) <==> InPeripherals(addr)
    ensures SelectLut(addr) == Some(SystemControl) <==> InSystem(addr)
    ensures SelectLut(addr) == Some(Ram) <==> InRam(addr)
    ensures SelectLut(addr) == None <==> !InPeripherals(addr) && !InSystem(addr) && !InRam(addr)
  {
  }

  /** Every table but the peripheral one is indexed from SYSTEM_BASE, the RAM table too. */
  function Base(region: Region): nat {
    if region.Peripheral? then DEVICE_BASE else SYSTEM_BASE
  }

  function MaxSlots(region: Region): nat {
    if region.Peripheral? then NUM_SLOTS else SYSTEM_NUM_SLOTS
  }

  /** dev_addr_to_slot: the subtraction wraps at 64 bits, the quotient is cut to 32. */
  function AddrToSlot(addr: nat, base: nat): (slot: nat)
    ensures slot < UNSIGNED
    ensures base <= addr < base + 0x10_0000_0000 ==> slot == (addr - base) / SLOT_SIZE
  {
    ((addr - base) % ADDRESSES) / SLOT_SIZE % UNSIGNED
  }

  function LastAddr(r: Registration): nat {
    if r.end > r.start then r.end - 1 else r.end
  }

  /** The slots dev_register_device_model walks, in a table that was selected. */
  function FirstSlot(r: Registration, region: Region): nat {
    AddrToSlot(r.start, Base(region))
  }

  function LastSlot(r: Registration, region: Region): nat {
    var slot := AddrToSlot(LastAddr(r), Base(region));
    if slot >= MaxSlots(region) then MaxSlots(region) - 1 else slot
  }

  predicate Covers(r: Registration, region: Region, slot: nat) {
    SelectLut(r.start) == Some(region) && FirstSlot(r, region) <= slot <= LastSlot(r, region)
  }

  // ----- what the index is for -----

  /** Some byte of [first..last] is one of the 16 bytes of the slot. */
  ghost predicate MeetsSlot(first: nat, last: nat, region: Region, slot: nat) {
    exists b: nat :: first <= b <= last && InSlot(b, region, slot)
  }

  predicate InSlot(b: nat, region: Region, slot: nat) {
    Base(region) + slot * SLOT_SIZE <= b < Base(region) + (slot + 1) * SLOT_SIZE
  }

  predicate Indexed(region: Region) {
    region.Peripheral? || region.SystemControl?
  }

  lemma MeetsIffBetween(first: nat, last: nat, region: Region, slot: nat)
    requires Base(region) <= first <= last
    ensures MeetsSlot(first, last, region, slot) <==>
            (first - Base(region)) / SLOT_SIZE <= slot <= (last - Base(region)) / SLOT_SIZE
  {
    var lo, hi := Base(region) + slot * SLOT_SIZE, Base(region) + (slot + 1) * SLOT_SIZE;
    assert first < hi <==> (first - Base(region)) / SLOT_SIZE <= slot;
    assert lo <= last <==> slot <= (last - Base(region)) / SLOT_SIZE;
    if first < hi && lo <= last {
      var b := if first <= lo then lo else first;
      assert InSlot(b, region, slot);
    }
  }

  /** The quotient for the last address keeps its value, or is cut to something the clamp repairs. */
  predicate EndFits(r: Registration, region: Region) {
    var slots := (LastAddr(r) - Base(region)) / SLOT_SIZE;
    slots < UNSIGNED || slots % UNSIGNED >= MaxSlots(region) - 1
  }

  lemma InRegion(addr: nat, region: Region)
    requires SelectLut(addr) == Some(region) && Indexed(region)
    ensures Base(region) <= addr < Base(region) + MaxSlots(region) * SLOT_SIZE
    ensures AddrToSlot(addr, Base(region)) == (addr - Base(region)) / SLOT_SIZE < MaxSlots(region)
  {
  }

  lemma SlotOfLast(r: Registration, region: Region)
    requires SelectLut(r.start) == Some(region) && Indexed(region) && r.start <= r.end < ADDRESSES
    ensures Base(region) <= r.start <= LastAddr(r)
    ensures AddrToSlot(LastAddr(r), Base(region)) == (LastAddr(r) - Base(region)) / SLOT_SIZE % UNSIGNED
  {
    InRegion(r.start, region);
    assert (LastAddr(r) - Base(region)) % ADDRESSES == LastAddr(r) - Base(region);
  }

  /** A registration reaches exactly the slots of its region that one of its bytes [start..end) lies in
      ([start] alone if end is start), if and only if its end survives the cut to 32 bits. */
  lemma RegistrationCoversItsBytesIff(r: Registration, region: Region)
    requires SelectLut(r.start) == Some(region) && Indexed(region) && r.start <= r.end < ADDRESSES
    ensures (forall slot: nat | slot < MaxSlots(region) ::
               Covers(r, region, slot) <==> MeetsSlot(r.start, LastAddr(r), region, slot))
            <==> EndFits(r, region)
  {
    hide MeetsSlot, AddrToSlot;
    InRegion(r.start, region);
    SlotOfLast(r, region);
    forall slot: nat {
      MeetsIffBetween(r.start, LastAddr(r), region, slot);
    }
    if !EndFits(r, region) {
      var top: nat := MaxSlots(region) - 1;
      assert !Covers(r, region, top);
      assert MeetsSlot(r.start, LastAddr(r), region, top);
    }
  }

  /** All 32-bit registrations survive. */
  lemma NarrowEndFits(r: Registration, region: Region)
    requires SelectLut(r.start) == Some(region) && Indexed(region) && r.start <= r.end < 0x1_0000_0000
    ensures EndFits(r, region)
  {
    InRegion(r.start, region);
  }

  /** The configuration calls the end of a range inclusive (include/device.h:16-19), the registration
      does not: with an inclusive reading the last slot is missed exactly when the range has more than
      one byte, its last byte is the first of a slot, and that slot is in the table. */
  lemma InclusiveRangeIsCoveredIff(r: Registration, region: Region)
    requires SelectLut(r.start) == Some(region) && Indexed(region) && r.start <= r.end < 0x1_0000_0000
    ensures (forall slot: nat | slot < MaxSlots(region) ::
               Covers(r, region, slot) <==> MeetsSlot(r.start, r.end, region, slot))
            <==> (r.end == r.start || r.end % SLOT_SIZE != 0 ||
                  r.end >= Base(region) + MaxSlots(region) * SLOT_SIZE)
  {
    hide MeetsSlot, AddrToSlot;
    InRegion(r.start, region);
    SlotOfLast(r, region);
    NarrowEndFits(r, region);
    forall slot: nat {
      MeetsIffBetween(r.start, r.end, region, slot);
    }
    var last := (r.end - Base(region)) / SLOT_SIZE;
    if r.end != r.start && r.end % SLOT_SIZE == 0 && last < MaxSlots(region) {
      assert !Covers(r, region, last);
      assert MeetsSlot(r.start, r.end, region, last);
    }
  }

  /** A range whose last byte is the first of slot 1: the slot is not covered. */
  lemma InclusiveRangeMissesLastSlot(dev: Device)
    ensures var r := Registration(DEVICE_BASE, DEVICE_BASE + SLOT_SIZE, dev);
            && MeetsSlot(r.start, r.end, Peripheral, 1) && !Covers(r, Peripheral, 1)
            && Covers(r, Peripheral, 0)
  {
    assert InSlot(DEVICE_BASE + SLOT_SIZE, Peripheral, 1);
  }

  /** Nothing is ever registered in the RAM table, and no RAM access finds a slot. */
  lemma RamIsNotIndexed(r: Registration, addr: nat, slot: nat)
    requires SelectLut(addr) == Some(Ram)
    ensures !Covers(r, Ram, slot) && AddrToSlot(addr, Base(Ram)) >= MaxSlots(Ram)
  {
    RamSlotIsHigh(addr);
    if SelectLut(r.start) == Some(Ram) {
      RamSlotIsHigh(r.start);
    }
  }

  lemma RamSlotIsHigh(addr: nat)
    requires SelectLut(addr) == Some(Ram)
    ensures AddrToSlot(addr, Base(Ram)) >= MaxSlots(Ram)
  {
    assert (addr - SYSTEM_BASE) % ADDRESSES == addr - SYSTEM_BASE + ADDRESSES;
  }

  // ----- the lists -----

  /** The list at a slot after some registrations: each is put in front. */
  function Listed(log: seq<Registration>, region: Region, slot: nat): seq<Device> {
    if log == [] then []
    else
      var last, rest := log[|log| - 1], Listed(log[..|log| - 1], region, slot);
      if Covers(last, region, slot) then [last.dev] + rest else rest
  }

  /** The same from the addresses: who registered a byte of the 16 around an address, newest first. */
  ghost function ScanBytes(log: seq<Registration>, addr: nat): seq<Device> {
    if log == [] then []
    else
      var last, rest := log[|log| - 1], ScanBytes(log[..|log| - 1], addr);
      if Claims(last, addr) then [last.dev] + rest else rest
  }

  /** The registration starts in the same range as the address, and one of its bytes [start..end) ([start]
      alone if end is start) lies in the same 16. */
  ghost predicate Claims(r: Registration, addr: nat) {
    && ((InPeripherals(r.start) && InPeripherals(addr)) || (InSystem(r.start) && InSystem(addr)))
    && exists b: nat :: r.start <= b && (b < r.end || b == r.start) && SameSixteen(b, addr)
  }

  predicate SameSixteen(a: nat, b: nat) {
    a / 16 == b / 16
  }

  ghost predicate Ordinary(r: Registration) {
    && r.start <= r.end < ADDRESSES
    && (InPeripherals(r.start) ==> EndFits(r, Peripheral)) && (InSystem(r.start) ==> EndFits(r, SystemControl))
  }

  /** Slots are the sixteens of their region. */
  lemma SlotIsSixteen(b: nat, addr: nat, region: Region)
    requires Indexed(region) && Base(region) <= b && Base(region) <= addr
    ensures InSlot(b, region, (addr - Base(region)) / SLOT_SIZE) <==> SameSixteen(b, addr)
  {
  }

  lemma ClaimsIffMeets(r: Registration, addr: nat, region: Region)
    requires SelectLut(addr) == Some(region) && Indexed(region) && r.start <= r.end
    ensures Claims(r, addr) <==>
            SelectLut(r.start) == Some(region) && MeetsSlot(r.start, LastAddr(r), region, AddrToSlot(addr, Base(region)))
  {
    InRegion(addr, region);
    SelectedIff(addr);
    SelectedIff(r.start);
    hide SelectLut, AddrToSlot, InSlot, SameSixteen;
    if SelectLut(r.start) == Some(region) {
      assert Base(region) <= r.start;
      forall b: nat | r.start <= b
        ensures InSlot(b, region, AddrToSlot(addr, Base(region))) <==> SameSixteen(b, addr)
      {
        SlotIsSixteen(b, addr, region);
      }
    }
  }

  /** What an access finds in the table is the scan of the registration log. */
  lemma {:induction false} TableAgreesWithLog(log: seq<Registration>, addr: nat, region: Region)
    requires SelectLut(addr) == Some(region) && Indexed(region)
    requires forall r | r in log :: Ordinary(r)
    ensures AddrToSlot(addr, Base(region)) < MaxSlots(region)
    ensures Listed(log, region, AddrToSlot(addr, Base(region))) == ScanBytes(log, addr)
  {
    InRegion(addr, region);
    if log != [] {
      var last := log[|log| - 1];
      TableAgreesWithLog(log[..|log| - 1], addr, region);
      assert Ordinary(last);
      SelectedIff(last.start);
      hide MeetsSlot, AddrToSlot, EndFits, Claims, SelectLut;
      ClaimsIffMeets(last, addr, region);
      if SelectLut(last.start) == Some(region) {
        RegistrationCoversItsBytesIff(last, region);
      }
    }
  }

  lemma ListedGrows(log: seq<Registration>, r: Registration, region: Region, slot: nat)
    ensures Listed(log + [r], region, slot) ==
            if Covers(r, region, slot) then [r.dev] + Listed(log, region, slot) else Listed(log, region, slot)
  {
    hide Covers;
    assert (log + [r])[..|log|] == log;
  }

  lemma {:induction false} RamListsAreEmpty(log: seq<Registration>, slot: nat)
    ensures Listed(log, Ram, slot) == []
  {
    hide Covers;
    if log != [] {
      RamListsAreEmpty(log[..|log| - 1], slot);
      if Covers(log[|log| - 1], Ram, slot) {
        CoveredIsSelected(log[|log| - 1], Ram, slot);
        RamIsNotIndexed(log[|log| - 1], log[|log| - 1].start, slot);
        assert false;
      }
    }
  }

  lemma CoveredIsSelected(r: Registration, region: Region, slot: nat)
    requires Covers(r, region, slot)
    ensures SelectLut(r.start) == Some(region)
  {
  }

  // ----- reads -----

  const ELDER := "elder"

  /** The device a read goes to: the only one; of several the newest called elder; else the newest. */
  predicate Answers(list: seq<Device>, chosen: Option<Device>) {
    match chosen
    case None => list == []
    case Some(dev) =>
      exists k | 0 <= k < |list| :: list[k] == dev && IsChosen(list, k)
  }

  predicate IsChosen(list: seq<Device>, k: nat)
    requires k < |list|
  {
    if |list| > 1 && list[k].name == ELDER then forall m | 0 <= m < k :: list[m].name != ELDER
    else k == 0 && (|list| > 1 ==> forall m | 0 <= m < |list| :: list[m].name != ELDER)
  }

  lemma AnswerIsUnique(list: seq<Device>, a: Option<Device>, b: Option<Device>)
    requires Answers(list, a) && Answers(list, b)
    ensures a == b
  {
    if a.Some? && b.Some? {
      var k :| 0 <= k < |list| && list[k] == a.value && IsChosen(list, k);
      var m :| 0 <= m < |list| && list[m] == b.value && IsChosen(list, m);
      assert k == m;
    }
  }

  // ----- interrupts -----

  const MAX_INTERRUPTS: nat := 240

  /** The handlers of one interrupt after some registrations: put in front unless already there. */
  function Handlers(regs: seq<Device>): seq<Device> {
    if regs == [] then []
    else
      var last, rest := regs[|regs| - 1], Handlers(regs[..|regs| - 1]);
      if last in rest then rest else [last] + rest
  }

  function FirstIndex(regs: seq<Device>, dev: Device): (k: nat)
    ensures k <= |regs|
    ensures k < |regs| ==> regs[k] == dev
    ensures forall m | 0 <= m < k :: regs[m] != dev
  {
    if regs == [] || regs[0] == dev then 0 else 1 + FirstIndex(regs[1..], dev)
  }

  /** When a model was first registered. */
  function Rank(regs: seq<Device>, dev: Device): nat {
    FirstIndex(regs, dev)
  }

  /** Later first registrations come first. */
  ghost predicate NewestFirst(list: seq<Device>, regs: seq<Device>) {
    forall i, j | 0 <= i < j < |list| :: Rank(regs, list[i]) > Rank(regs, list[j])
  }

  lemma PrependNewest(last: Device, list: seq<Device>, regs: seq<Device>)
    requires NewestFirst(list, regs) && forall dev | dev in list :: Rank(regs, dev) < Rank(regs, last)
    ensures NewestFirst([last] + list, regs)
  {
    hide Rank;
    var longer := [last] + list;
    forall i, j | 0 <= i < j < |longer| ensures Rank(regs, longer[i]) > Rank(regs, longer[j]) {
      assert longer[j] == list[j - 1] && longer[j] in list;
      assert longer[i] == if i == 0 then last else list[i - 1];
    }
  }

  /** Registering more leaves the order of what was registered before. */
  lemma OrderStays(list: seq<Device>, init: seq<Device>, last: Device)
    requires NewestFirst(list, init) && forall dev | dev in list :: dev in init
    ensures NewestFirst(list, init + [last])
    ensures forall dev | dev in list :: Rank(init + [last], dev) < |init|
  {
    hide FirstIndex;
    forall i | 0 <= i < |list| ensures Rank(init + [last], list[i]) == Rank(init, list[i]) < |init| {
      assert list[i] in list;
      FirstIndexStays(init, last, list[i]);
    }
  }

  /** Each registered handler is there once, and later first registrations come first. */
  lemma {:induction false} HandlersAreNewestFirst(regs: seq<Device>)
    ensures forall dev :: dev in Handlers(regs) <==> dev in regs
    ensures NewestFirst(Handlers(regs), regs)
  {
    hide Rank, NewestFirst;
    if regs == [] {
      NothingIsOrdered();
    } else {
      var init, last := regs[..|regs| - 1], regs[|regs| - 1];
      HandlersAreNewestFirst(init);
      assert regs == init + [last];
      OrderStays(Handlers(init), init, last);
      if last !in Handlers(init) {
        NewIndex(init, last);
        PrependNewest(last, Handlers(init), regs);
      }
    }
  }

  lemma NothingIsOrdered()
    ensures NewestFirst([], [])
  {
  }

  lemma NewIndex(init: seq<Device>, last: Device)
    requires last !in init
    ensures Rank(init + [last], last) == |init|
  {
    hide FirstIndex;
    var regs := init + [last];
    assert regs[|init|] == last && forall k | 0 <= k < |init| :: regs[k] == init[k];
  }

  lemma FirstIndexStays(init: seq<Device>, last: Device, dev: Device)
    requires dev in init
    ensures Rank(init + [last], dev) == Rank(init, dev) < |init|
  {
    hide FirstIndex;
    var k := Rank(init, dev);
    var m := Rank(init + [last], dev);
    assert k < |init|;
    assert (init + [last])[k] == dev;
    assert m <= k;
    assert (init + [last])[m] == init[m];
  }

  /** Those of a list that have an interrupt callback. */
  function Tellable(list: seq<Device>): seq<Device> {
    if list == [] then []
    else
      var last, rest := list[|list| - 1], Tellable(list[..|list| - 1]);
      if last.hasInterrupt then rest + [last] else rest
  }

  /** A registered handler is told exactly if it has the callback, once, and later first registrations
      are told first. */
  lemma ToldNewestFirst(regs: seq<Device>)
    ensures forall dev :: dev in Tellable(Handlers(regs)) <==> dev in regs && dev.hasInterrupt
    ensures NewestFirst(Tellable(Handlers(regs)), regs)
  {
    hide NewestFirst;
    HandlersAreNewestFirst(regs);
    TellableKeepsOrder(Handlers(regs), regs);
  }

  lemma {:induction false} TellableKeepsOrder(list: seq<Device>, regs: seq<Device>)
    requires NewestFirst(list, regs)
    ensures NewestFirst(Tellable(list), regs)
    ensures forall dev :: dev in Tellable(list) <==> dev in list && dev.hasInterrupt
  {
    hide Rank;
    if list != [] {
      var init, last := list[..|list| - 1], list[|list| - 1];
      assert list == init + [last];
      TellableKeepsOrder(init, regs);
      LastIsOldest(init, last, regs);
      hide NewestFirst;
      if last.hasInterrupt {
        AppendOldest(Tellable(init), last, regs);
      }
    }
  }

  lemma LastIsOldest(init: seq<Device>, last: Device, regs: seq<Device>)
    requires NewestFirst(init + [last], regs)
    ensures forall dev | dev in init :: Rank(regs, dev) > Rank(regs, last)
  {
    hide Rank;
    var list := init + [last];
    forall dev | dev in init ensures Rank(regs, dev) > Rank(regs, last) {
      var i :| 0 <= i < |init| && init[i] == dev;
      assert list[i] == dev && list[|init|] == last;
    }
  }

  lemma AppendOldest(list: seq<Device>, last: Device, regs: seq<Device>)
    requires NewestFirst(list, regs) && forall dev | dev in list :: Rank(regs, dev) > Rank(regs, last)
    ensures NewestFirst(list + [last], regs)
  {
    hide Rank;
    var longer := list + [last];
    forall i, j | 0 <= i < j < |longer| ensures Rank(regs, longer[i]) > Rank(regs, longer[j]) {
      assert longer[i] == list[i] && list[i] in list;
      if j < |list| {
        assert longer[j] == list[j];
      }
    }
  }

  // ----- the tables -----

  class SlotTables {
    const deviceLut: array<seq<Device>>
    const systemLut: array<seq<Device>>
    const ramLut: array<seq<Device>>
    const irqLut: array<seq<Device>>
    ghost var log: seq<Registration>
    ghost var irqs: seq<seq<Device>>

    ghost predicate Shape() {
      && deviceLut.Length == NUM_SLOTS && systemLut.Length == SYSTEM_NUM_SLOTS && ramLut.Length == RAM_NUM_SLOTS
      && irqLut.Length == MAX_INTERRUPTS
      && deviceLut != systemLut && deviceLut != ramLut && systemLut != ramLut
      && irqLut != deviceLut && irqLut != systemLut && irqLut != ramLut
    }

    function Table(region: Region): array<seq<Device>> {
      match region
      case Peripheral => deviceLut
      case SystemControl => systemLut
      case Ram => ramLut
    }

    ghost predicate Agrees(region: Region)
      requires Shape()
      reads this, Table(region)
    {
      forall k | 0 <= k < MaxSlots(region) :: Table(region)[k] == Listed(log, region, k)
    }

    ghost predicate Valid()
      reads this, deviceLut, systemLut, ramLut, irqLut
    {
      && Shape() && Agrees(Peripheral) && Agrees(SystemControl) && Agrees(Ram)
      && |irqs| == MAX_INTERRUPTS
      && forall k | 0 <= k < MAX_INTERRUPTS :: irqLut[k] == Handlers(irqs[k])
    }

    constructor ()
      ensures Valid() && log == [] && irqs == seq(MAX_INTERRUPTS, _ => [])
      ensures fresh(deviceLut) && fresh(systemLut) && fresh(ramLut) && fresh(irqLut)
    {
      deviceLut := new seq<Device>[NUM_SLOTS](_ => []);
      systemLut := new seq<Device>[SYSTEM_NUM_SLOTS](_ => []);
      ramLut := new seq<Device>[RAM_NUM_SLOTS](_ => []);
      irqLut := new seq<Device>[MAX_INTERRUPTS](_ => []);
      log, irqs := [], seq(MAX_INTERRUPTS, _ => []);
    }

    /** dev_register_device_model */
    method Register(r: Registration)
      requires Valid()
      modifies this`log, deviceLut, systemLut, ramLut
      ensures Valid()
      ensures log == if InPeripherals(r.start) || InSystem(r.start) || InRam(r.start) then old(log) + [r] else old(log)
    {
      SelectedIff(r.start);
      var region := SelectLut(r.start);
      if region.None? {
        return;
      }
      Prepend(r, region.value);
      forall other, k: nat {
        ListedGrows(log, r, other, k);
      }
      log := log + [r];
    }

    /** Its loop: every slot from the first to the last gets the device in front. */
    method Prepend(r: Registration, region: Region)
      requires Shape() && SelectLut(r.start) == Some(region)
      modifies Table(region)
      ensures forall k | 0 <= k < Table(region).Length ::
                Table(region)[k] == if Covers(r, region, k) then [r.dev] + old(Table(region)[k]) else old(Table(region)[k])
    {
      hide AddrToSlot;
      var lut, first, last := Table(region), FirstSlot(r, region), LastSlot(r, region);
      var i := first;
      while i <= last
        invariant if first <= last then first <= i <= last + 1 else i == first
        invariant forall k | 0 <= k < lut.Length ::
                    lut[k] == if first <= k < i then [r.dev] + old(lut[k]) else old(lut[k])
      {
        lut[i] := [r.dev] + lut[i];
        i := i + 1;
      }
    }

    /** The list an access walks: none for an unknown region or an index past the table. */
    method Walk(address: nat) returns (list: seq<Device>)
      requires Valid()
      ensures list == match SelectLut(address)
                      case None => []
                      case Some(region) =>
                        var slot := AddrToSlot(address, Base(region));
                        if slot < MaxSlots(region) then Listed(log, region, slot) else []
    {
      hide AddrToSlot, Listed;
      var region := SelectLut(address);
      if region.None? {
        return [];
      }
      var idx := AddrToSlot(address, Base(region.value));
      list := if idx < MaxSlots(region.value) then Table(region.value)[idx] else [];
    }

    /** dev_write: every device on the list is called in order. QEMU goes on with its own handling except for
        accesses from inside QEMU and those of its default NVIC that a model handled. */
    method Write(handler: string, address: nat) returns (called: seq<Device>, goOn: bool)
      requires Valid() && (forall r | r in log :: Ordinary(r))
      ensures called == if InPeripherals(address) || InSystem(address) then ScanBytes(log, address) else []
      ensures !goOn <==>
                && (InPeripherals(address) || InSystem(address) || InRam(address))
                && handler != "" && (handler[0] == 'g' || (called != [] && handler == "nvic-default"))
    {
      SelectedIff(address);
      hide AddrToSlot, Listed, ScanBytes, Ordinary, SelectLut;
      var node := Walk(address);
      WalkIsScan(address);
      called := [];
      ghost var all := node;
      while node != []
        invariant called + node == all
        decreases |node|
      {
        called := called + [node[0]];
        node := node[1..];
      }
      if SelectLut(address).None? {
        return [], true;
      }
      if handler != "" && (handler[0] == 'g' || (called != [] && handler == "nvic-default")) {
        return called, false;
      }
      goOn := true;
    }

    /** dev_read: the device that answers, and whether QEMU goes on. */
    method Read(handler: string, address: nat) returns (chosen: Option<Device>, goOn: bool)
      requires Valid() && (forall r | r in log :: Ordinary(r))
      ensures Answers(if InPeripherals(address) || InSystem(address) then ScanBytes(log, address) else [], chosen)
      ensures !goOn <==>
                && (InPeripherals(address) || InSystem(address) || InRam(address))
                && handler != "" && (handler[0] == 'g' || (chosen.Some? && handler == "nvic-default"))
    {
      SelectedIff(address);
      hide AddrToSlot, Listed, ScanBytes, Ordinary, SelectLut;
      var node := Walk(address);
      WalkIsScan(address);
      chosen := Pick(node);
      if SelectLut(address).None? {
        return None, true;
      }
      goOn := !(handler != "" && (handler[0] == 'g' || (chosen.Some? && handler == "nvic-default")));
    }

    static method Pick(node: seq<Device>) returns (chosen: Option<Device>)
      ensures Answers(node, chosen)
    {
      if node == [] {
        return None;
      }
      if |node| == 1 {
        assert IsChosen(node, 0);
        return Some(node[0]);
      }
      var current := 0;
      while current < |node|
        invariant current <= |node| && forall m | 0 <= m < current :: node[m].name != ELDER
      {
        if node[current].name == ELDER {
          assert IsChosen(node, current);
          return Some(node[current]);
        }
        current := current + 1;
      }
      assert IsChosen(node, 0);
      chosen := Some(node[0]);
    }

    lemma WalkIsScan(address: nat)
      requires forall r | r in log :: Ordinary(r)
      ensures forall region | SelectLut(address) == Some(region) && Indexed(region) ::
                && AddrToSlot(address, Base(region)) < MaxSlots(region)
                && Listed(log, region, AddrToSlot(address, Base(region))) == ScanBytes(log, address)
      ensures SelectLut(address) == Some(Ram) ==> AddrToSlot(address, Base(Ram)) >= MaxSlots(Ram)
    {
      hide AddrToSlot, Listed, ScanBytes, Ordinary, MaxSlots;
      if SelectLut(address).Some? && Indexed(SelectLut(address).value) {
        TableAgreesWithLog(log, address, SelectLut(address).value);
      } else if SelectLut(address) == Some(Ram) {
        RamSlotIsHigh(address);
      }
    }

    /** dev_register_interrupt_device_model: false stands for the program ending. */
    method RegisterInterrupt(irq: int, dev: Device) returns (ok: bool)
      requires Valid()
      modifies this`irqs, irqLut
      ensures Valid() && (ok <==> 0 <= irq < MAX_INTERRUPTS)
      ensures irqs == if ok then old(irqs)[irq := old(irqs)[irq] + [dev]] else old(irqs)
    {
      hide Listed;
      if irq < 0 || irq >= MAX_INTERRUPTS {
        return false;
      }
      ok := true;
      ghost var regs := irqs[irq];
      assert (regs + [dev])[..|regs|] == regs;
      ghost var before := irqs;
      irqs := irqs[irq := regs + [dev]];
      var n := irqLut[irq];
      ghost var skipped := [];
      while n != []
        invariant skipped + n == irqLut[irq] && dev !in skipped
        decreases |n|
      {
        if n[0] == dev {
          assert dev in irqLut[irq];
          return;
        }
        skipped, n := skipped + [n[0]], n[1..];
      }
      irqLut[irq] := [dev] + irqLut[irq];
    }

    /** dev_notify_irq: the handlers with an interrupt callback are told, newest first. None stands for a
        number outside the table, which the original reads without looking. */
    method Notify(number: int) returns (told: Option<seq<Device>>)
      requires Valid()
      ensures told.Some? <==> 0 <= number < MAX_INTERRUPTS
      ensures told.Some? ==> told.value == Tellable(Handlers(irqs[number]))
    {
      hide Listed;
      if number < 0 || number >= MAX_INTERRUPTS {
        return None;
      }
      var all := irqLut[number];
      var list := [];
      for i := 0 to |all|
        invariant list == Tellable(all[..i])
      {
        assert all[..i + 1][..i] == all[..i];
        if all[i].hasInterrupt {
          list := list + [all[i]];
        }
      }
      assert all[..|all|] == all;
      told := Some(list);
    }
  }
}
