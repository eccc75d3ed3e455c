/** The on-screen-keyboard dialog session: Init reads the guest's
    parameter and data blocks and arms the dialog; Update, called once per
    frame, advances the status, moves the cursor, edits the accumulated
    text and writes the result back to the guest; the save-state record
    captures and restores the session. */
module OskDialog {
  import opened OskTypes
  import opened GuestMemory
  import opened TextCodec
  import opened KeyboardGrid
  import opened InputBuffer
  import opened SessionRecord

  /** The status after one Update call: INITIALIZE becomes RUNNING and
      FINISHED becomes SHUTDOWN; every other status stays. (RUNNING ends
      through the base dialog's exit fade, which is not part of this
      model.) */
  function NextStatus(s: Status): (next: Status)
    ensures next != StatusInitialize && next != StatusFinished
  {
    match s
    case StatusInitialize => StatusRunning
    case StatusFinished => StatusShutdown
    case _ => s
  }

  /** Init accepts a request only from an idle or shut-down dialog. */
  predicate AcceptsInit(s: Status)
    ensures AcceptsInit(s) ==> s != StatusInitialize && s != StatusRunning && s != StatusFinished
  {
    s == StatusNone || s == StatusShutdown
  }

  /** Update moves the status exactly from INITIALIZE and from FINISHED,
      never back to an earlier stage and never to INITIALIZE or FINISHED;
      and from INITIALIZE or RUNNING it never reaches a status that Init
      accepts, so a running session cannot be initialised twice. */
  lemma NextStatusSteps(s: Status)
    ensures NextStatus(s) != s <==> s == StatusInitialize || s == StatusFinished
    ensures NextStatus(s) != StatusInitialize && NextStatus(s) != StatusFinished
    ensures s == StatusInitialize || s == StatusRunning ==> !AcceptsInit(NextStatus(s))
    ensures AcceptsInit(s) ==> AcceptsInit(NextStatus(s))
  {
  }

  /** The guest strings an accepted Init decodes all end in a zero unit. */
  ghost predicate StringsTerminated(m: MemContents, oskPtr: u32) {
    var d := m.ReadData(m.ReadParams(oskPtr).dataPtr);
    m.IsTerminated(d.descPtr) && m.IsTerminated(d.intextPtr) && m.IsTerminated(d.outtextPtr)
  }

  /** The guest writes of one Update, in order: `limit` output units, then
      the data block at the parameter block's data pointer, then the
      parameter block at the address Init was given. */
  function UpdateWrites(outtextPtr: u32, input: seq<char>, limit: nat,
                        params: ParamsBlock, data: DataBlock, paramsAddr: u32): (ws: seq<Write>)
    requires IsKeyText(input)
    ensures |ws| == limit + 2
    ensures ws[..limit] == OutTextWrites(outtextPtr, input, limit)
    ensures ws[limit] == DataWrite(params.dataPtr, data) && ws[limit + 1] == ParamsWrite(paramsAddr, params)
  {
    OutTextWrites(outtextPtr, input, limit) + [DataWrite(params.dataPtr, data), ParamsWrite(paramsAddr, params)]
  }

  /** After an Update's writes the guest reads the new blocks where they
      were written and, when the output buffer does not wrap within the
      32-bit address space, every output unit at its address. */
  lemma {:induction false} UpdateWritesRead(m: MemContents, outtextPtr: u32, input: seq<char>, limit: nat,
                                            params: ParamsBlock, data: DataBlock, paramsAddr: u32)
    requires IsKeyText(input)
    ensures var after := ApplyAll(m, UpdateWrites(outtextPtr, input, limit, params, data, paramsAddr));
      after.ReadParams(paramsAddr) == params &&
      after.ReadData(params.dataPtr) == data &&
      (limit <= U32Modulus / 2 ==>
        forall i :: 0 <= i < limit ==> after.ReadU16(UnitAddr(outtextPtr, i)) == OutputUnit(input, i))
  {
    var units := OutTextWrites(outtextPtr, input, limit);
    var blocks := [DataWrite(params.dataPtr, data), ParamsWrite(paramsAddr, params)];
    ApplyAllAppend(m, units, blocks);
    var mid := ApplyAll(m, units);
    ApplyTwo(mid, blocks[0], blocks[1]);
    if limit <= U32Modulus / 2 {
      forall i | 0 <= i < limit
        ensures ApplyAll(m, units + blocks).ReadU16(UnitAddr(outtextPtr, i)) == OutputUnit(input, i)
      {
        OutTextReadsBack(m, outtextPtr, input, limit, i);
      }
    }
  }

  /** The first part of an Update call: the status advances, and on a
      RUNNING tick the cursor moves, the key that was under it when the
      tick began is typed (or the last character deleted), and start asks
      for the exit fade. */
  function Advance(s: Session, pressed: set<Button>): (r: Session)
    requires Invariant(s)
    ensures Invariant(r)
  {
    var running := s.status == StatusRunning;
    ActKeepsBound(s.input, KeyAt(s.cursor), ResolvedLimit(s.data.outtextlimit), pressed);
    s.(status := NextStatus(s.status),
       cursor := if running then Move(s.cursor, pressed) else s.cursor,
       input := if running then Act(s.input, KeyAt(s.cursor), ResolvedLimit(s.data.outtextlimit), pressed) else s.input,
       fade := if running && ExitRequested(pressed) then FadeOut else s.fade)
  }

  /** The session after one Update call: Advance, then the output length
      and the two result codes, set on every call. */
  function Tick(s: Session, pressed: set<Button>): (r: Session)
    requires Invariant(s)
    ensures Invariant(r)
  {
    var a := Advance(s, pressed);
    a.(params := a.params.(baseResult := 0),
       data := a.data.(outtextlength := |a.input| as u32, result := OskResultChanged))
  }

  /** The guest writes of the Update call that takes `s` to Tick(s). */
  function TickWrites(s: Session, pressed: set<Button>): (ws: seq<Write>)
    requires Invariant(s)
    ensures |ws| == ResolvedLimit(s.data.outtextlimit) + 2
    ensures ws[|ws| - 1] == ParamsWrite(s.paramsAddr, Tick(s, pressed).params)
  {
    var t := Tick(s, pressed);
    UpdateWrites(s.data.outtextPtr, t.input, ResolvedLimit(s.data.outtextlimit), t.params, t.data, s.paramsAddr)
  }

  /** Only a RUNNING tick moves the cursor, edits the text or asks for the
      exit fade; no tick changes the parameter address, the decoded
      strings, the output pointer, the limit or the data pointer, and
      after every tick the output length is the text's length. */
  lemma TickFrame(s: Session, pressed: set<Button>)
    requires Invariant(s)
    ensures var t := Tick(s, pressed);
      (s.status != StatusRunning ==> t.cursor == s.cursor && t.input == s.input && t.fade == s.fade) &&
      t.paramsAddr == s.paramsAddr && t.desc == s.desc && t.intext == s.intext && t.outtext == s.outtext &&
      t.data.outtextPtr == s.data.outtextPtr && t.data.outtextlimit == s.data.outtextlimit &&
      t.params.dataPtr == s.params.dataPtr &&
      t.data.outtextlength as int == |t.input| &&
      t.data.result == OskResultChanged && t.params.baseResult == 0
  {
  }

  /** What the guest reads after a tick: the output length equal to the
      text's length, the "changed" result, and, unit by unit, the text
      followed by zero padding up to the limit (when the output buffer
      does not wrap within the 32-bit address space). */
  lemma TickOutputVisible(s: Session, pressed: set<Button>, m: MemContents)
    requires Invariant(s)
    ensures var t := Tick(s, pressed);
      var after := ApplyAll(m, TickWrites(s, pressed));
      var limit := ResolvedLimit(s.data.outtextlimit);
      after.ReadData(s.params.dataPtr).outtextlength as int == |t.input| &&
      after.ReadData(s.params.dataPtr).result == OskResultChanged &&
      after.ReadParams(s.paramsAddr).baseResult == 0 &&
      (limit <= U32Modulus / 2 ==>
        forall i :: 0 <= i < limit ==>
          after.ReadU16(UnitAddr(s.data.outtextPtr, i)) == OutputUnit(t.input, i))
  {
    var t := Tick(s, pressed);
    UpdateWritesRead(m, s.data.outtextPtr, t.input, ResolvedLimit(s.data.outtextlimit), t.params, t.data, s.paramsAddr);
  }

  /** Typing "112" from an empty text on the first key: cross, then right
      with cross (which types the key under the cursor before the move),
      then cross on the second key. The text is then "112" and the guest
      is told its length is 3. */
  lemma TypingScenario(s0: Session)
    requires s0.status == StatusRunning && s0.cursor == 0 && s0.input == [] && s0.data.outtextlimit == 0
    ensures var s1 := Tick(s0, {Cross});
      var s2 := Tick(s1, {Right, Cross});
      var s3 := Tick(s2, {Cross});
      s3.input == "112" && s3.cursor == 1 && s3.data.outtextlength == 3 && s3.status == StatusRunning
  {
    assert KeyAt(0) == '1' && KeyAt(1) == '2';
    var s1 := Tick(s0, {Cross});
    assert s1.input == "1" && s1.cursor == 0;
    var s2 := Tick(s1, {Right, Cross});
    assert s2.input == "11" && s2.cursor == 1;
  }

  /** On any RUNNING tick with room, cross types the key that was under
      the cursor when the tick began, while the cursor makes its own move:
      the action uses the pre-move key whatever direction is pressed. */
  lemma CrossTypesKeyBeforeMove(s: Session, pressed: set<Button>)
    requires Invariant(s) && s.status == StatusRunning && Cross in pressed
    requires |s.input| < ResolvedLimit(s.data.outtextlimit)
    ensures Tick(s, pressed).input == s.input + [KeyAt(s.cursor)]
    ensures Tick(s, pressed).cursor == Move(s.cursor, pressed)
  {
  }

  /** An accepted Init's reset, done before the address is checked. */
  function Reset(s: Session, oskPtr: u32): (r: Session)
    ensures Invariant(r)
  {
    s.(status := StatusInitialize, params := ZeroParams, data := ZeroData,
       input := [], paramsAddr := oskPtr, cursor := 0)
  }

  /** The session after an accepted Init at a valid address: the reset,
      then the blocks read from guest memory, the decoded strings and the
      entrance fade. */
  ghost function Started(s: Session, m: MemContents, oskPtr: u32): (r: Session)
    requires StringsTerminated(m, oskPtr)
    ensures Invariant(r)
  {
    var p := m.ReadParams(oskPtr);
    var d := m.ReadData(p.dataPtr);
    Reset(s, oskPtr).(params := p, data := d,
      desc := Ucs2ToUtf8(m.StringAt(d.descPtr)),
      intext := Ucs2ToUtf8(m.StringAt(d.intextPtr)),
      outtext := Ucs2ToUtf8(m.StringAt(d.outtextPtr)),
      fade := FadeIn)
  }

  /** The write-back of an Init at a valid address: the data block, then
      the parameter block, each to the address it was read from. */
  function InitWrites(m: MemContents, oskPtr: u32): (ws: seq<Write>)
    ensures |ws| == 2 && ws[1] == ParamsWrite(oskPtr, m.ReadParams(oskPtr))
  {
    var p := m.ReadParams(oskPtr);
    [DataWrite(p.dataPtr, m.ReadData(p.dataPtr)), ParamsWrite(oskPtr, p)]
  }

  /** Init's write-back stores what was just read, so afterwards every
      address reads exactly as before. */
  lemma InitWritesChangeNothingVisible(m: MemContents, oskPtr: u32)
    ensures var after := ApplyAll(m, InitWrites(m, oskPtr));
      (forall a :: after.ReadParams(a) == m.ReadParams(a)) &&
      (forall a :: after.ReadData(a) == m.ReadData(a)) &&
      after.units == m.units
  {
    var ws := InitWrites(m, oskPtr);
    ApplyTwo(m, ws[0], ws[1]);
  }

  /** Two Init requests without a shutdown between them: the second is
      rejected, whether the first found a valid address or not. */
  lemma SecondInitRejected(s: Session, oskPtr: u32, m: MemContents)
    ensures !AcceptsInit(Reset(s, oskPtr).status)
    ensures StringsTerminated(m, oskPtr) ==> !AcceptsInit(Started(s, m, oskPtr).status)
  {
  }

  /** Writes the output buffer: `limit` 16-bit units from `outtextPtr`
      on, the text's character codes and then zeros. */
  method WriteOutText(mem: GuestMemory, outtextPtr: u32, text: seq<char>, limit: nat)
    requires IsKeyText(text)
    modifies mem
    ensures mem.writes == old(mem.writes) + OutTextWrites(outtextPtr, text, limit)
    ensures mem.contents == ApplyAll(old(mem.contents), OutTextWrites(outtextPtr, text, limit))
  {
    var i: nat := 0;
    while i < limit
      invariant i <= limit
      invariant mem.writes == old(mem.writes) + OutTextWrites(outtextPtr, text, i)
      invariant mem.contents == ApplyAll(old(mem.contents), OutTextWrites(outtextPtr, text, i))
    {
      var w := U16Write(UnitAddr(outtextPtr, i), OutputUnit(text, i));
      ApplyAllSnoc(old(mem.contents), OutTextWrites(outtextPtr, text, i), w);
      assert OutTextWrites(outtextPtr, text, i + 1) == OutTextWrites(outtextPtr, text, i) + [w];
      mem.WriteU16(UnitAddr(outtextPtr, i), OutputUnit(text, i));
      i := i + 1;
    }
  }

  /** One on-screen-keyboard dialog. Its fields are the session's state;
      the guest memory it reads and writes is handed to Init and Update. */
  class OskSession {
    var status: Status
    var fade: FadeRequest
    var params: ParamsBlock
    var data: DataBlock
    var desc: seq<u8>
    var intext: seq<u8>
    var outtext: seq<u8>
    var paramsAddr: u32
    var cursor: int
    var input: seq<char>

    /** The session's fields as one value. */
    function State(): Session
      reads this
    {
      Session(status, fade, params, data, desc, intext, outtext, paramsAddr, cursor, input)
    }

    predicate Valid()
      reads this
    {
      Invariant(State())
    }

    constructor ()
      ensures Valid()
      ensures State() == Session(StatusNone, NoFade, ZeroParams, ZeroData, [], [], [], 0, 0, [])
    {
      status := StatusNone;
      fade := NoFade;
      params := ZeroParams;
      data := ZeroData;
      desc, intext, outtext := [], [], [];
      paramsAddr := 0;
      cursor := 0;
      input := [];
    }

    /** Starts a dialog for the parameter block at `oskPtr`. Rejected with
        the invalid-status error, changing nothing, unless the dialog is
        idle or shut down. Otherwise the status becomes INITIALIZE, the
        blocks are cleared, the text emptied, the cursor put on the first
        key and the address recorded, all before the address is checked;
        an invalid address then fails with -1. A valid one has both blocks
        read, the three strings decoded, both blocks written back where
        they were read from, and the entrance fade started. */
    method Init(mem: GuestMemory, oskPtr: u32) returns (rc: int)
      requires Valid()
      requires AcceptsInit(status) && mem.IsValidAddress(oskPtr) ==> StringsTerminated(mem.contents, oskPtr)
      modifies this, mem
      ensures Valid()
      ensures !AcceptsInit(old(status)) ==>
        rc == ErrorUtilityInvalidStatus && State() == old(State()) &&
        mem.writes == old(mem.writes) && mem.contents == old(mem.contents)
      ensures AcceptsInit(old(status)) && !mem.IsValidAddress(oskPtr) ==>
        rc == InitBadAddress && State() == Reset(old(State()), oskPtr) &&
        mem.writes == old(mem.writes) && mem.contents == old(mem.contents)
      ensures AcceptsInit(old(status)) && mem.IsValidAddress(oskPtr) ==>
        rc == InitOk && State() == Started(old(State()), old(mem.contents), oskPtr) &&
        mem.writes == old(mem.writes) + InitWrites(old(mem.contents), oskPtr) &&
        mem.contents == ApplyAll(old(mem.contents), InitWrites(old(mem.contents), oskPtr))
    {
      if !(status == StatusNone || status == StatusShutdown) {
        return ErrorUtilityInvalidStatus;
      }
      status := StatusInitialize;
      params := ZeroParams;
      data := ZeroData;
      input := [];
      paramsAddr := oskPtr;
      cursor := 0;

      if mem.IsValidAddress(oskPtr) {
        ReadBlocks(mem, oskPtr);
      } else {
        return InitBadAddress;
      }

      // Controller edges latched before the dialog opened are discarded by
      // the caller's input latch, which is not part of this model.
      fade := FadeIn;
      return InitOk;
    }

    /** The valid-address part of Init: both blocks read, the three
        strings decoded, both blocks written back where they were read
        from. */
    method ReadBlocks(mem: GuestMemory, oskPtr: u32)
      requires StringsTerminated(mem.contents, oskPtr)
      modifies mem, this`params, this`data, this`desc, this`intext, this`outtext
      ensures params == old(mem.contents).ReadParams(oskPtr)
      ensures data == old(mem.contents).ReadData(params.dataPtr)
      ensures desc == Ucs2ToUtf8(old(mem.contents).StringAt(data.descPtr))
      ensures intext == Ucs2ToUtf8(old(mem.contents).StringAt(data.intextPtr))
      ensures outtext == Ucs2ToUtf8(old(mem.contents).StringAt(data.outtextPtr))
      ensures mem.writes == old(mem.writes) + InitWrites(old(mem.contents), oskPtr)
      ensures mem.contents == ApplyAll(old(mem.contents), InitWrites(old(mem.contents), oskPtr))
    {
      params := mem.ReadParams(oskPtr);
      data := mem.ReadData(params.dataPtr);
      desc := ConvertUcs2ToUtf8(mem, data.descPtr);
      intext := ConvertUcs2ToUtf8(mem, data.intextPtr);
      outtext := ConvertUcs2ToUtf8(mem, data.outtextPtr);
      ghost var before := mem.contents;
      mem.WriteData(params.dataPtr, data);
      mem.WriteParams(oskPtr, params);
      ApplyTwo(before, DataWrite(params.dataPtr, data), ParamsWrite(oskPtr, params));
    }

    /** One frame. The status advances (INITIALIZE to RUNNING, FINISHED to
        SHUTDOWN). On a RUNNING tick the preview line is produced, the
        cursor moves by at most one direction, and independently at most
        one of cross, select, circle and start acts, typing the key that
        was under the cursor before the move. On every call, whatever the
        status, the text is written to the guest's output buffer as
        `limit` 16-bit units, its length and the result codes are set, and
        both blocks are written back. */
    method Update(mem: GuestMemory, pressed: set<Button>) returns (rc: int, preview: Option<seq<char>>)
      requires Valid()
      modifies this, mem
      ensures Valid()
      ensures rc == 0
      ensures State() == Tick(old(State()), pressed)
      ensures preview == if old(status) == StatusRunning
        then Some(PreviewLine(old(input), old(cursor), ResolvedLimit(old(data).outtextlimit)))
        else None
      ensures mem.writes == old(mem.writes) + TickWrites(old(State()), pressed)
      ensures mem.contents == ApplyAll(old(mem.contents), TickWrites(old(State()), pressed))
    {
      var limit := ResolvedLimit(data.outtextlimit);
      preview := Step(pressed);
      WriteBack(mem, limit);
      rc := 0;
    }

    /** The status dispatch of an Update call, and the RUNNING tick's
        preview, movement and action. */
    method Step(pressed: set<Button>) returns (preview: Option<seq<char>>)
      requires Valid()
      modifies this`status, this`cursor, this`input, this`fade
      ensures State() == Advance(old(State()), pressed)
      ensures preview == if old(status) == StatusRunning
        then Some(PreviewLine(old(input), old(cursor), ResolvedLimit(data.outtextlimit)))
        else None
    {
      var limit := ResolvedLimit(data.outtextlimit);
      preview := None;

      if status == StatusInitialize {
        status := StatusRunning;
      } else if status == StatusRunning {
        preview := Some(PreviewLine(input, cursor, limit));
        // The key under the cursor's row and column as the tick began.
        var key := KeyAt(cursor);
        MoveCursor(pressed);
        TypeKey(key, limit, pressed);
      } else if status == StatusFinished {
        status := StatusShutdown;
      }
    }

    /** The movement chain of a RUNNING tick: at most one of up, down,
        left, right, then the wrap into the grid. */
    method MoveCursor(pressed: set<Button>)
      requires InGrid(cursor)
      modifies this`cursor
      ensures cursor == Move(old(cursor), pressed)
    {
      if Up in pressed {
        cursor := cursor - KeysPerRow;
      } else if Down in pressed {
        cursor := cursor + KeysPerRow;
      } else if Left in pressed {
        cursor := cursor - 1;
        if (cursor + KeysPerRow) % KeysPerRow == KeysPerRow - 1 {
          cursor := cursor + KeysPerRow;
        }
      } else if Right in pressed {
        cursor := cursor + 1;
        if cursor % KeysPerRow == 0 {
          cursor := cursor - KeysPerRow;
        }
      }
      cursor := (cursor + NumberOfValidChars) % NumberOfValidChars;
    }

    /** The action chain of a RUNNING tick, on the key that was under the
        cursor when the tick began: at most one of cross, select, circle
        and start. */
    method TypeKey(key: char, limit: nat, pressed: set<Button>)
      modifies this`input, this`fade
      ensures input == Act(old(input), key, limit, pressed)
      ensures fade == (if ExitRequested(pressed) then FadeOut else old(fade))
    {
      if Cross in pressed {
        if |input| < limit {
          input := input + [key];
        }
      } else if Select in pressed {
        if |input| < limit {
          input := input + [ToUpper(key)];
        }
      } else if Circle in pressed {
        if |input| > 0 {
          input := input[..|input| - 1];
        }
      } else if Start in pressed {
        fade := FadeOut;
      }
    }

    /** The write-back every Update ends with: `limit` output units, then
        the length and result codes, then both blocks. */
    method WriteBack(mem: GuestMemory, limit: nat)
      requires IsKeyText(input) && |input| < U32Modulus
      modifies mem, this`data, this`params
      ensures params == old(params).(baseResult := 0)
      ensures data == old(data).(outtextlength := |input| as u32, result := OskResultChanged)
      ensures mem.writes == old(mem.writes) + UpdateWrites(old(data).outtextPtr, input, limit, params, data, paramsAddr)
      ensures mem.contents == ApplyAll(old(mem.contents), UpdateWrites(old(data).outtextPtr, input, limit, params, data, paramsAddr))
    {
      ghost var start := mem.contents;
      ghost var unitWrites := OutTextWrites(data.outtextPtr, input, limit);
      WriteOutText(mem, data.outtextPtr, input, limit);
      data := data.(outtextlength := |input| as u32);
      params := params.(baseResult := 0);
      data := data.(result := OskResultChanged);
      mem.WriteData(params.dataPtr, data);
      mem.WriteParams(paramsAddr, params);

      ApplyAllSnoc(start, unitWrites, DataWrite(params.dataPtr, data));
      ApplyAllSnoc(start, unitWrites + [DataWrite(params.dataPtr, data)], ParamsWrite(paramsAddr, params));
      assert unitWrites + [DataWrite(params.dataPtr, data)] + [ParamsWrite(paramsAddr, params)] ==
        UpdateWrites(old(data).outtextPtr, input, limit, params, data, paramsAddr);
    }

    /** The save-state record of this session; loading it gives back the
        session. */
    function SaveState(): (r: seq<Item>)
      reads this
      ensures Parse(r) == Some(State())
      ensures r[|r| - 1] == MarkerItem(MarkerName)
    {
      RecordRoundTrip(State());
      Record(State())
    }

    /** Loads a save-state record: every field takes its saved value, in
        the record's order; a record of the wrong shape or without the
        marker leaves the session unchanged. A loaded session satisfies
        the session invariant when the saved one did. */
    method LoadState(r: seq<Item>) returns (ok: bool)
      modifies this
      ensures ok <==> Parse(r).Some?
      ensures ok && Invariant(Parse(r).value) ==> Valid()
      ensures ok ==> State() == Parse(r).value
      ensures !ok ==> State() == old(State())
    {
      match Parse(r)
      case None =>
        ok := false;
      case Some(s) =>
        status, fade := s.status, s.fade;
        params := s.params;
        data := s.data;
        desc, intext, outtext := s.desc, s.intext, s.outtext;
        paramsAddr := s.paramsAddr;
        cursor := s.cursor;
        input := s.input;
        ok := true;
    }
  }
}
