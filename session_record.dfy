/** The dialog's save-state record: the session fields in the fixed order
    the state serializer visits them, closed by a named marker. Parse is
    its inverse, used when a saved state is loaded. */
module SessionRecord {
  import opened OskTypes
  import opened KeyboardGrid
  import opened InputBuffer

  /** Every field the session keeps across ticks. */
  datatype Session = Session(
    status: Status,
    fade: FadeRequest,
    params: ParamsBlock,
    data: DataBlock,
    desc: seq<u8>,
    intext: seq<u8>,
    outtext: seq<u8>,
    paramsAddr: u32,
    cursor: int,
    input: seq<char>)

  /** What holds of a session between ticks: the cursor is on the grid,
      the text fits the resolved limit and only holds typable keys. */
  predicate Invariant(s: Session) {
    InGrid(s.cursor) &&
    |s.input| <= ResolvedLimit(s.data.outtextlimit) &&
    IsKeyText(s.input)
  }

  /** One item of the record. */
  datatype Item =
    | BaseItem(status: Status, fade: FadeRequest)
    | ParamsItem(params: ParamsBlock)
    | DataItem(data: DataBlock)
    | TextItem(text: seq<u8>)
    | AddrItem(addr: u32)
    | IntItem(value: int)
    | CharsItem(chars: seq<char>)
    | MarkerItem(name: string)

  const MarkerName: string := "PSPOskDialog"

  /** The record of a session: base dialog state, parameter block, data
      block, the three decoded strings, the parameter address, the cursor
      and the accumulator, then the marker. */
  function Record(s: Session): (r: seq<Item>)
    ensures |r| == 10 && r[9] == MarkerItem(MarkerName)
  {
    [BaseItem(s.status, s.fade), ParamsItem(s.params), DataItem(s.data),
     TextItem(s.desc), TextItem(s.intext), TextItem(s.outtext),
     AddrItem(s.paramsAddr), IntItem(s.cursor), CharsItem(s.input),
     MarkerItem(MarkerName)]
  }

  /** Reads a record back; None unless it has the record's shape and ends
      with the marker. */
  function Parse(r: seq<Item>): (loaded: Option<Session>)
    ensures loaded.Some? ==> |r| == 10 && r[9] == MarkerItem(MarkerName)
  {
    if |r| == 10 && r[0].BaseItem? && r[1].ParamsItem? && r[2].DataItem? &&
       r[3].TextItem? && r[4].TextItem? && r[5].TextItem? && r[6].AddrItem? &&
       r[7].IntItem? && r[8].CharsItem? && r[9] == MarkerItem(MarkerName)
    then
      Some(Session(r[0].status, r[0].fade, r[1].params, r[2].data,
        r[3].text, r[4].text, r[5].text, r[6].addr, r[7].value, r[8].chars))
    else
      None
  }

  /** Saving then loading restores every field. */
  lemma RecordRoundTrip(s: Session)
    ensures Parse(Record(s)) == Some(s)
  {
  }

  /** A record that loads is exactly the record of what it loads, so no
      two different records load the same session. */
  lemma ParseRoundTrip(r: seq<Item>)
    requires Parse(r).Some?
    ensures Record(Parse(r).value) == r
  {
    assert Record(Parse(r).value) == r by {
      var s := Parse(r).value;
      assert forall k :: 0 <= k < 10 ==> Record(s)[k] == r[k];
    }
  }
}
