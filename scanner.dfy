/** The section-aware symbol scanner shared by the register generator, the
    template generator and the symbol dump. A cursor walks an immutable byte
    buffer; at each position it first tries the section footers in list order,
    then a symbol record, and otherwise steps over one byte. */
module Scanner {
  import opened Bytes
  import opened Sections

  /** `data[offset:offset+len(footer)] == footer` for footer `k`. */
  predicate FooterMatches(data: seq<byte>, offset: nat, k: nat)
    requires k < FooterCount
  {
    Slice(data, offset, offset + |Footer(k)|) == Footer(k)
  }

  /** The first footer at or after position `from` of the footer list that
      matches at `offset`: the `for footer in section_footers` loop with its
      `break`. */
  function FirstFooter(data: seq<byte>, offset: nat, from: nat): (r: Option<nat>)
    requires from <= FooterCount
    ensures r.Some? ==> from <= r.value < FooterCount && FooterMatches(data, offset, r.value)
    ensures r.Some? ==> forall j :: from <= j < r.value ==> !FooterMatches(data, offset, j)
    ensures r.None? ==> forall j :: from <= j < FooterCount ==> !FooterMatches(data, offset, j)
    decreases FooterCount - from
  {
    if from == FooterCount then None
    else if FooterMatches(data, offset, from) then Some(from)
    else FirstFooter(data, offset, from + 1)
  }

  /** The shape the scanner accepts as a record at `offset`: a length byte
      `L` with `2 < L < 40`, then `L` name bytes and two address bytes, all
      inside the buffer. */
  predicate RecordShaped(data: seq<byte>, offset: nat)
    requires offset < |data|
  {
    var length := data[offset] as int;
    2 < length < 40 && offset + 3 + length <= |data|
    && forall i :: offset + 1 <= i < offset + 1 + length ==> IsNameByte(data[i])
  }

  /** The bytes at `at` hold a record for `name` at `address`: the length byte
      is the name's length (3 to 39), each name byte is an accepted name byte
      whose code is the character's, and the address follows low byte first. */
  predicate EncodesRecord(data: seq<byte>, at: nat, name: string, address: int)
  {
    3 <= |name| <= 39 && at + 3 + |name| <= |data| && data[at] as int == |name|
    && (forall i :: 0 <= i < |name| ==> IsNameByte(data[at + 1 + i]) && name[i] as int == data[at + 1 + i] as int)
    && address == data[at + 1 + |name|] as int + 256 * data[at + 2 + |name|] as int
  }

  /** Where the cursor goes after a record that ends at `pos`: two bytes further
      when a `79 05` marker follows. */
  function SkipMarker(data: seq<byte>, pos: nat): (p: nat)
    ensures p == pos + 2 <==> pos + 1 < |data| && data[pos] == 0x79 && data[pos + 1] == 0x05
    ensures p == pos || p == pos + 2
  {
    if pos + 1 < |data| && data[pos] == 0x79 && data[pos + 1] == 0x05 then pos + 2 else pos
  }

  datatype Record = Record(name: string, address: u16, next: nat)

  /** The record branch of the loop body, with Python's clamped slices: a name
      slice that runs off the end comes back short, and then the address slice
      is shorter than two bytes and the record is refused. */
  function RecordAt(data: seq<byte>, offset: nat): Option<Record>
    requires offset < |data|
  {
    var length := data[offset] as int;
    if 2 < length < 40 then
      var nameBytes := Slice(data, offset + 1, offset + 1 + length);
      if forall i :: 0 <= i < |nameBytes| ==> IsNameByte(nameBytes[i]) then
        var meta := Slice(data, offset + 1 + length, offset + 1 + length + 2);
        if |meta| == 2 then
          var name := AsciiDecode(nameBytes);
          Some(Record(name, LittleEndian16(meta[0], meta[1]), SkipMarker(data, offset + 1 + length + 2)))
        else None
      else None
    else None
  }

  /** The clamped slices refuse exactly the records that do not fit: a record
      is found exactly when one is shaped at `offset`, it is the record encoded
      there, and the cursor moves past it and past a `79 05` marker. */
  lemma RecordAtShaped(data: seq<byte>, offset: nat)
    requires offset < |data|
    ensures RecordAt(data, offset).Some? <==> RecordShaped(data, offset)
    ensures var r := RecordAt(data, offset);
      r.Some? ==>
        && EncodesRecord(data, offset, r.value.name, r.value.address)
        && r.value.next == SkipMarker(data, offset + 3 + |r.value.name|)
  {
    if RecordShaped(data, offset) {
      ShapedRecordAt(data, offset);
      DecodedRecord(data, offset, data[offset] as int);
    } else {
      UnshapedRecordAt(data, offset);
    }
  }

  /** A shaped record is read with its name, its address and the position
      after it and after a `79 05` marker. */
  lemma ShapedRecordAt(data: seq<byte>, offset: nat)
    requires offset < |data| && RecordShaped(data, offset)
    ensures var length := data[offset] as int;
      RecordAt(data, offset) == Some(Record(AsciiDecode(data[offset + 1..offset + 1 + length]),
        LittleEndian16(data[offset + 1 + length], data[offset + 2 + length]), SkipMarker(data, offset + 3 + length)))
  {
    var length := data[offset] as int;
    var nameBytes := Slice(data, offset + 1, offset + 1 + length);
    var meta := Slice(data, offset + 1 + length, offset + 1 + length + 2);
    assert nameBytes == data[offset + 1..offset + 1 + length];
    assert |meta| == 2 && meta[0] == data[offset + 1 + length] && meta[1] == data[offset + 2 + length];
    forall i | 0 <= i < |nameBytes|
      ensures IsNameByte(nameBytes[i])
    {
      assert nameBytes[i] == data[offset + 1 + i];
    }
  }

  /** Anything else is refused. */
  lemma UnshapedRecordAt(data: seq<byte>, offset: nat)
    requires offset < |data| && !RecordShaped(data, offset)
    ensures RecordAt(data, offset) == None
  {
    var length := data[offset] as int;
    if 2 < length < 40 {
      var nameBytes := Slice(data, offset + 1, offset + 1 + length);
      if offset + 3 + length <= |data| {
        var i :| offset + 1 <= i < offset + 1 + length && !IsNameByte(data[i]);
        assert nameBytes[i - offset - 1] == data[i];
      } else {
        assert |Slice(data, offset + 1 + length, offset + 1 + length + 2)| < 2;
      }
    }
  }

  /** A shaped record decodes to the name and address it encodes. */
  lemma DecodedRecord(data: seq<byte>, offset: nat, length: nat)
    requires offset < |data| && data[offset] as int == length
    requires RecordShaped(data, offset)
    ensures EncodesRecord(data, offset, AsciiDecode(data[offset + 1..offset + 1 + length]),
      LittleEndian16(data[offset + 1 + length], data[offset + 2 + length]))
  {
    var nameBytes := data[offset + 1..offset + 1 + length];
    var name := AsciiDecode(nameBytes);
    forall i | 0 <= i < |name|
      ensures IsNameByte(data[offset + 1 + i]) && name[i] as int == data[offset + 1 + i] as int
    {
      assert nameBytes[i] == data[offset + 1 + i];
    }
  }

  /** A footer can never be read as a record: each starts with a byte above 39. */
  lemma FooterExcludesRecord(data: seq<byte>, offset: nat, k: nat)
    requires offset < |data| && k < FooterCount
    requires FooterMatches(data, offset, k)
    ensures !RecordShaped(data, offset)
  {
    assert data[offset] == Slice(data, offset, offset + |Footer(k)|)[0];
  }

  /** What one pass of the loop body found at `at`, and `section_idx` after it. */
  datatype Event =
    | FooterHit(at: nat, sectionIdx: nat, footer: nat)
    | Symbol(at: nat, sectionIdx: nat, name: string, address: u16)
    | Skip(at: nat, sectionIdx: nat)

  datatype Step = Step(event: Event, next: nat)

  /** One pass of the loop body at `offset` with `section_idx` = `sectionIdx`:
      the cursor always moves forward and stays inside the buffer, and only a
      footer moves the section index, by one. */
  function StepAt(data: seq<byte>, offset: nat, sectionIdx: nat): (s: Step)
    requires offset < |data|
    ensures offset < s.next <= |data| && s.event.at == offset
    ensures s.event.sectionIdx == if s.event.FooterHit? then sectionIdx + 1 else sectionIdx
  {
    match FirstFooter(data, offset, 0)
    case Some(k) =>
      Step(FooterHit(offset, sectionIdx + 1, k), offset + |Footer(k)|)
    case None =>
      match RecordAt(data, offset)
      case Some(r) => Step(Symbol(offset, sectionIdx, r.name, r.address), r.next)
      case None => Step(Skip(offset, sectionIdx), offset + 1)
  }

  /** Footers take priority: a step is a footer hit exactly when some footer
      matches, the hit is the first matching footer in list order, and the
      cursor jumps over it. */
  lemma StepFooter(data: seq<byte>, offset: nat, sectionIdx: nat)
    requires offset < |data|
    ensures var s := StepAt(data, offset, sectionIdx);
      s.event.FooterHit? <==> exists k :: 0 <= k < FooterCount && FooterMatches(data, offset, k)
    ensures var s := StepAt(data, offset, sectionIdx);
      s.event.FooterHit? ==>
        && s.event.footer < FooterCount && FooterMatches(data, offset, s.event.footer)
        && (forall j :: 0 <= j < s.event.footer ==> !FooterMatches(data, offset, j))
        && s.next == offset + |Footer(s.event.footer)|
  {
    var r := FirstFooter(data, offset, 0);
    if r.Some? {
      assert FooterMatches(data, offset, r.value);
    }
  }

  /** Without a footer, a step reports a symbol exactly when a record is shaped
      at the cursor; the symbol is the record encoded there and the cursor moves
      past it and past a `79 05` marker if one follows. Otherwise the cursor
      moves by one byte. */
  lemma StepRecord(data: seq<byte>, offset: nat, sectionIdx: nat)
    requires offset < |data|
    ensures var s := StepAt(data, offset, sectionIdx);
      s.event.Symbol? <==> !s.event.FooterHit? && RecordShaped(data, offset)
    ensures var s := StepAt(data, offset, sectionIdx);
      s.event.Symbol? ==>
        && EncodesRecord(data, offset, s.event.name, s.event.address)
        && s.next == SkipMarker(data, offset + 3 + |s.event.name|)
    ensures var s := StepAt(data, offset, sectionIdx);
      s.event.Skip? ==> s.next == offset + 1
  {
    var r := FirstFooter(data, offset, 0);
    RecordAtShaped(data, offset);
    if r.Some? {
      FooterExcludesRecord(data, offset, r.value);
    }
  }

  /** The events of the scan from `offset` on, one per pass of
      `while offset < len(data) - 2`. */
  function Trace(data: seq<byte>, offset: nat, sectionIdx: nat): seq<Event>
    decreases |data| - offset
  {
    if offset + 2 >= |data| then []
    else
      var s := StepAt(data, offset, sectionIdx);
      [s.event] + Trace(data, s.next, s.event.sectionIdx)
  }

  /** One more pass of the loop: the trace from `offset` is the step's event
      followed by the trace from where the step leaves the cursor. */
  lemma TraceUnfold(data: seq<byte>, offset: nat, sectionIdx: nat)
    requires offset < |data| - 2
    ensures var s := StepAt(data, offset, sectionIdx);
      Trace(data, offset, sectionIdx) == [s.event] + Trace(data, s.next, s.event.sectionIdx)
  {
  }

  /** A loop that has produced `done` and stands at `offset` has, after one more
      step, produced `done` and that step's event. */
  lemma TraceAfterStep(data: seq<byte>, offset: nat, sectionIdx: nat, done: seq<Event>, event: Event, next: nat)
    requires offset < |data| - 2
    requires Step(event, next) == StepAt(data, offset, sectionIdx)
    ensures done + Trace(data, offset, sectionIdx) == (done + [event]) + Trace(data, next, event.sectionIdx)
  {
    TraceUnfold(data, offset, sectionIdx);
  }

  /** The events of a whole buffer. */
  function Scan(data: seq<byte>): seq<Event>
  {
    Trace(data, 0, 0)
  }

  /** The `for footer in section_footers` loop: tries the footers in list
      order and stops at the first that matches. */
  method MatchFooter(data: seq<byte>, offset: nat) returns (hit: Option<nat>)
    ensures hit == FirstFooter(data, offset, 0)
  {
    var k := 0;
    while k < FooterCount
      invariant k <= FooterCount
      invariant forall j :: 0 <= j < k ==> !FooterMatches(data, offset, j)
    {
      var footer := Footer(k);
      if Slice(data, offset, offset + |footer|) == footer {
        assert FooterMatches(data, offset, k);
        return Some(k);
      }
      assert !FooterMatches(data, offset, k);
      k := k + 1;
    }
    return None;
  }

  /** The record test of the loop body. */
  method ExtractRecord(data: seq<byte>, offset: nat) returns (r: Option<Record>)
    requires offset < |data|
    ensures r == RecordAt(data, offset)
  {
    var length := data[offset] as int;
    if 2 < length < 40 {
      var nameBytes := Slice(data, offset + 1, offset + 1 + length);
      if forall i | 0 <= i < |nameBytes| :: IsNameByte(nameBytes[i]) {
        var name := AsciiDecode(nameBytes);
        var meta := Slice(data, offset + 1 + length, offset + 1 + length + 2);
        if |meta| == 2 {
          var address := LittleEndian16(meta[0], meta[1]);
          var next := offset + 1 + length + 2;
          if next + 1 < |data| && data[next] == 0x79 && data[next + 1] == 0x05 {
            next := next + 2;
          }
          assert next == SkipMarker(data, offset + 1 + length + 2);
          return Some(Record(name, address, next));
        }
      }
    }
    return None;
  }

  /** One pass of the loop body: the footer loop, then the record test, then
      the one-byte step. `current_section` follows `section_idx` until it
      reaches `EOF`. */
  method ScanStep(data: seq<byte>, offset: nat, sectionIdx: nat, currentSection: Section)
    returns (event: Event, newOffset: nat, newIdx: nat, newSection: Section)
    requires offset < |data|
    requires currentSection == SectionOf(sectionIdx)
    ensures Step(event, newOffset) == StepAt(data, offset, sectionIdx)
    ensures newIdx == event.sectionIdx && newSection == SectionOf(newIdx)
  {
    var hit := MatchFooter(data, offset);
    if hit.Some? {
      newIdx := sectionIdx + 1;
      newSection := currentSection;
      if newIdx < |ActualSections| {
        newSection := ActualSections[newIdx];
      }
      newOffset := offset + |Footer(hit.value)|;
      event := FooterHit(offset, newIdx, hit.value);
      return;
    }
    newIdx, newSection := sectionIdx, currentSection;
    var record := ExtractRecord(data, offset);
    if record.Some? {
      newOffset := record.value.next;
      event := Symbol(offset, sectionIdx, record.value.name, record.value.address);
    } else {
      newOffset := offset + 1;
      event := Skip(offset, sectionIdx);
    }
  }

  /** The scan moves forward: events come in strictly increasing buffer
      positions, all inside the part of the buffer scanned. */
  lemma {:induction false} TraceAdvances(data: seq<byte>, offset: nat, sectionIdx: nat)
    ensures forall i :: 0 <= i < |Trace(data, offset, sectionIdx)| ==>
      offset <= Trace(data, offset, sectionIdx)[i].at < |data|
    ensures forall i, j :: 0 <= i < j < |Trace(data, offset, sectionIdx)| ==>
      Trace(data, offset, sectionIdx)[i].at < Trace(data, offset, sectionIdx)[j].at
    decreases |data| - offset
  {
    if offset + 2 < |data| {
      var s := StepAt(data, offset, sectionIdx);
      TraceAdvances(data, s.next, s.event.sectionIdx);
    }
  }

  /** `section_idx` starts from the given value, goes up by exactly one at each
      footer and stays put at every other event. */
  lemma {:induction false} TraceSectionSteps(data: seq<byte>, offset: nat, sectionIdx: nat)
    ensures var t := Trace(data, offset, sectionIdx);
      t != [] ==> t[0].sectionIdx == if t[0].FooterHit? then sectionIdx + 1 else sectionIdx
    ensures var t := Trace(data, offset, sectionIdx);
      forall i :: 0 <= i < |t| - 1 ==>
        t[i + 1].sectionIdx == if t[i + 1].FooterHit? then t[i].sectionIdx + 1 else t[i].sectionIdx
    decreases |data| - offset
  {
    if offset + 2 < |data| {
      var s := StepAt(data, offset, sectionIdx);
      TraceSectionSteps(data, s.next, s.event.sectionIdx);
    }
  }

  /** `section_idx` never decreases along the scan. */
  lemma {:induction false} TraceSectionMonotone(data: seq<byte>, offset: nat, sectionIdx: nat)
    ensures forall i :: 0 <= i < |Trace(data, offset, sectionIdx)| ==>
      sectionIdx <= Trace(data, offset, sectionIdx)[i].sectionIdx
    ensures forall i, j :: 0 <= i < j < |Trace(data, offset, sectionIdx)| ==>
      Trace(data, offset, sectionIdx)[i].sectionIdx <= Trace(data, offset, sectionIdx)[j].sectionIdx
    decreases |data| - offset
  {
    if offset + 2 < |data| {
      var s := StepAt(data, offset, sectionIdx);
      TraceSectionMonotone(data, s.next, s.event.sectionIdx);
    }
  }

  /** Every symbol the scan reports is encoded at its position as a record. */
  lemma {:induction false} TraceSymbolsEncoded(data: seq<byte>, offset: nat, sectionIdx: nat)
    ensures forall i :: 0 <= i < |Trace(data, offset, sectionIdx)| && Trace(data, offset, sectionIdx)[i].Symbol? ==>
      var e := Trace(data, offset, sectionIdx)[i];
      EncodesRecord(data, e.at, e.name, e.address)
    decreases |data| - offset
  {
    if offset + 2 < |data| {
      var s := StepAt(data, offset, sectionIdx);
      StepRecord(data, offset, sectionIdx);
      TraceSymbolsEncoded(data, s.next, s.event.sectionIdx);
    }
  }
}
