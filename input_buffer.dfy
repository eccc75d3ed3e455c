/** The text the user composes: the resolved length limit, the per-tick
    action on the accumulator, the fixed-width 16-bit output the guest
    receives, and the character content of the preview line. */
module InputBuffer {
  import opened OskTypes
  import opened GuestMemory
  import opened KeyboardGrid

  /** The limit used when the guest leaves `outtextlimit` at zero. */
  const DefaultLimit: int := 14

  /** The limit in force: `outtextlimit`, or 14 when it is zero. The
      field is unsigned, so "not positive" can only mean zero. */
  function ResolvedLimit(outtextlimit: u32): (limit: nat)
    ensures outtextlimit == 0 ==> limit == DefaultLimit
    ensures outtextlimit != 0 ==> limit == outtextlimit as int
    ensures 0 < limit < U32Modulus
  {
    if outtextlimit == 0 then DefaultLimit else outtextlimit as int
  }

  /** Every character of the text is one a key can type. */
  predicate IsKeyText(input: seq<char>) {
    forall k :: 0 <= k < |input| ==> IsKeyChar(input[k])
  }

  /** One tick's action on the accumulator: at most one of cross (append
      the key), select (append it in upper case) and circle (delete the
      last character), in that order. Appending needs room below the
      limit; deleting needs a character. */
  function Act(input: seq<char>, key: char, limit: nat, pressed: set<Button>): (out: seq<char>)
    ensures out == input || (|input| > 0 && out == input[..|input| - 1]) ||
      (|input| < limit && (out == input + [key] || out == input + [ToUpper(key)]))
  {
    if Cross in pressed then
      if |input| < limit then input + [key] else input
    else if Select in pressed then
      if |input| < limit then input + [ToUpper(key)] else input
    else if Circle in pressed then
      if |input| > 0 then input[..|input| - 1] else input
    else
      input
  }

  /** Start asks to leave the dialog only when no text action came first. */
  predicate ExitRequested(pressed: set<Button>)
    ensures ExitRequested(pressed) ==> Start in pressed && Cross !in pressed
  {
    Start in pressed && Cross !in pressed && Select !in pressed && Circle !in pressed
  }

  /** An action never takes the accumulator past the limit, keeps it key
      text, changes its length by at most one and keeps the characters it
      does not append or delete. */
  lemma ActKeepsBound(input: seq<char>, key: char, limit: nat, pressed: set<Button>)
    requires |input| <= limit && IsKeyText(input) && IsKeyChar(key)
    ensures |Act(input, key, limit, pressed)| <= limit
    ensures IsKeyText(Act(input, key, limit, pressed))
    ensures |input| - 1 <= |Act(input, key, limit, pressed)| <= |input| + 1
    ensures var out := Act(input, key, limit, pressed);
      if |out| >= |input| then out[..|input|] == input else out == input[..|out|]
  {
    if Select in pressed {
      ToUpperKeepsKeyChar(key);
    }
  }

  /** Cross appends the key exactly when there is room; at the limit it
      does nothing. */
  lemma CrossAppends(input: seq<char>, key: char, limit: nat, pressed: set<Button>)
    requires Cross in pressed
    ensures |input| < limit ==> Act(input, key, limit, pressed) == input + [key]
    ensures |input| >= limit ==> Act(input, key, limit, pressed) == input
  {
  }

  /** Select appends the upper-case key exactly when there is room and
      cross is not pressed. */
  lemma SelectAppendsUpper(input: seq<char>, key: char, limit: nat, pressed: set<Button>)
    requires Cross !in pressed && Select in pressed
    ensures |input| < limit ==> Act(input, key, limit, pressed) == input + [ToUpper(key)]
    ensures |input| >= limit ==> Act(input, key, limit, pressed) == input
  {
  }

  /** Circle deletes the last character, if there is one, when neither
      append button is pressed. */
  lemma CircleDeletes(input: seq<char>, key: char, limit: nat, pressed: set<Button>)
    requires Cross !in pressed && Select !in pressed && Circle in pressed
    ensures |input| > 0 ==> Act(input, key, limit, pressed) == input[..|input| - 1]
    ensures input == [] ==> Act(input, key, limit, pressed) == []
  {
  }

  /** Any other tick leaves the accumulator as it was. */
  lemma NoActionKeeps(input: seq<char>, key: char, limit: nat, pressed: set<Button>)
    requires Cross !in pressed && Select !in pressed && Circle !in pressed
    ensures Act(input, key, limit, pressed) == input
  {
  }

  /** The accumulator after `n` ticks that press cross on the same key. */
  function CrossTimes(input: seq<char>, key: char, limit: nat, n: nat): seq<char> {
    if n == 0 then input else Act(CrossTimes(input, key, limit, n - 1), key, limit, {Cross})
  }

  /** Pressing cross `n` times from an empty accumulator types
      min(n, limit) copies of the key: after limit + 1 presses the length
      is the limit. */
  lemma {:induction false} CrossSaturates(key: char, limit: nat, n: nat)
    ensures CrossTimes([], key, limit, n) == seq(if n < limit then n else limit, _ => key)
  {
    if n > 0 {
      CrossSaturates(key, limit, n - 1);
    }
  }

  /** The 16-bit unit written for position `i` of the output buffer: the
      character's ASCII code inside the text, zero padding beyond it. */
  function OutputUnit(input: seq<char>, i: nat): (u: u16)
    requires IsKeyText(input)
    ensures i < |input| ==> u as int == input[i] as int && u != 0
    ensures i >= |input| ==> u == 0
  {
    if i < |input| then
      var code := input[i] as int;
      assert 0 < code < 0x80;
      code as u16
    else
      0
  }

  /** The unit writes of one tick's output: `limit` of them, unit `i` at
      `outtextPtr + 2 * i`, in increasing order of `i`. */
  function OutTextWrites(outtextPtr: u32, input: seq<char>, n: nat): (ws: seq<Write>)
    requires IsKeyText(input)
    ensures |ws| == n
    ensures forall i :: 0 <= i < n ==> ws[i] == U16Write(UnitAddr(outtextPtr, i), OutputUnit(input, i))
  {
    seq(n, i requires 0 <= i < n => U16Write(UnitAddr(outtextPtr, i), OutputUnit(input, i)))
  }

  /** Writing units leaves the two block views untouched. */
  lemma {:induction false} OutTextWritesKeepBlocks(m: MemContents, outtextPtr: u32, input: seq<char>, n: nat)
    requires IsKeyText(input)
    ensures ApplyAll(m, OutTextWrites(outtextPtr, input, n)).params == m.params
    ensures ApplyAll(m, OutTextWrites(outtextPtr, input, n)).data == m.data
  {
    if n > 0 {
      OutTextWritesKeepBlocks(m, outtextPtr, input, n - 1);
      assert OutTextWrites(outtextPtr, input, n)[..n - 1] == OutTextWrites(outtextPtr, input, n - 1);
    }
  }

  /** After the output writes, the guest reads back unit `i` of the text
      (or the zero padding) at `outtextPtr + 2 * i`, provided the buffer
      does not wrap onto itself within the 32-bit address space. */
  lemma {:induction false} OutTextReadsBack(m: MemContents, outtextPtr: u32, input: seq<char>, n: nat, i: nat)
    requires IsKeyText(input) && n <= U32Modulus / 2 && i < n
    ensures ApplyAll(m, OutTextWrites(outtextPtr, input, n)).ReadU16(UnitAddr(outtextPtr, i)) == OutputUnit(input, i)
  {
    var ws := OutTextWrites(outtextPtr, input, n);
    assert ws[..n - 1] == OutTextWrites(outtextPtr, input, n - 1);
    if i < n - 1 {
      OutTextReadsBack(m, outtextPtr, input, n - 1, i);
      assert UnitAddr(outtextPtr, n - 1) != UnitAddr(outtextPtr, i) by {
        DistinctUnitAddrs(outtextPtr, i, n - 1);
      }
    }
  }

  /** Fewer than 2^31 units from the same base have distinct addresses. */
  lemma DistinctUnitAddrs(base: u32, i: nat, j: nat)
    requires i < j < U32Modulus / 2
    ensures UnitAddr(base, i) != UnitAddr(base, j)
  {
    var a := base as int + 2 * i;
    var b := base as int + 2 * j;
    assert 0 < b - a < U32Modulus;
  }

  /** The characters of the preview line: the text typed so far, then the
      highlighted key at the next position, then underscores up to the
      limit. */
  function PreviewLine(input: seq<char>, cursor: int, limit: nat): (line: seq<char>)
    requires InGrid(cursor)
    ensures |line| == limit
  {
    seq(limit, i requires 0 <= i < limit =>
      if i < |input| then input[i] else if i == |input| then KeyAt(cursor) else '_')
  }

  /** The preview agrees with what the guest receives: the typed text is
      shown where the output holds a nonzero unit, the key that cross
      would type is shown at the first padding position, and underscores
      stand for the rest of the padding. */
  lemma PreviewMatchesOutput(input: seq<char>, cursor: int, limit: nat, i: nat)
    requires InGrid(cursor) && IsKeyText(input) && |input| <= limit && i < limit
    ensures OutputUnit(input, i) != 0 <==> i < |input|
    ensures i < |input| ==> PreviewLine(input, cursor, limit)[i] as int == OutputUnit(input, i) as int
    ensures i == |input| ==> PreviewLine(input, cursor, limit)[i] == KeyAt(cursor)
    ensures i > |input| ==> PreviewLine(input, cursor, limit)[i] == '_'
  {
  }

  /** The key a cross press types is the one the preview line highlights
      on the same tick. */
  lemma CrossTypesPreviewedKey(input: seq<char>, cursor: int, limit: nat, pressed: set<Button>)
    requires InGrid(cursor) && Cross in pressed && |input| < limit
    ensures var typed := Act(input, KeyAt(cursor), limit, pressed);
      |typed| == |input| + 1 && typed[|input|] == PreviewLine(input, cursor, limit)[|input|]
  {
  }
}
