// From a captured board interrupt to the table of handlers: what hw_session.c raises
// (device_models/common/hw_session.c:62-104) is what dev.c looks up (device_models/dev.c:237-241).
module IrqPath {
  import opened CInts
  import opened HwSession
  import SlotTable

  /** A captured line is raised as a vector inside the interrupt table exactly up to line 223, though
      lines up to 240 are captured. */
  lemma RaisedVectorIsInTableIff(board: Board, evs: seq<Event>, k: nat)
    requires k < |Captures(Run(Init(board), evs).log)|
    ensures var line := Captures(Run(Init(board), evs).log)[k];
            && 1 <= line <= 240
            && (0 <= line + IRQ_QEMU_VECTOR_BASE < SlotTable.MAX_INTERRUPTS <==> line <= 223)
  {
    CountsAndPrefixes(board, evs);
  }

  /** Line 224: the board halts with it, the poll thread captures it and raises vector 240, for which
      there is no list. */
  lemma Line224IsRaisedPastTheTable(board: Board, r0: nat)
    requires board == Board(true, r0, 0) && r0 == 224
    ensures var s := Run(Init(board), [PollTurn, PollTurn]);
            && s.log == [Halted(224), Captured(224), Raised(240)]
            && 240 >= SlotTable.MAX_INTERRUPTS
  {
    var s := Init(board);
    var one, two := [PollTurn], [PollTurn, PollTurn];
    assert AsInt(r0) == 224;
    assert one[..0] == [] && two[..1] == one;
    assert Run(s, []) == s && Run(s, one) == Step(s, PollTurn);
    assert Run(s, two) == Step(Run(s, one), PollTurn);
    assert s.log == [Halted(224)] && Run(s, one).log == [Halted(224)] + [Captured(224)];
    assert Run(s, two).log == [Halted(224)] + [Captured(224)] + [Raised(240)];
  }
}
