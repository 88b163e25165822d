/** `parse_syc_to_ebusd`: scans a symbol file, keeps every symbol whose section
    and high address byte have a mapping rule, and sorts the kept registers by
    section index, high byte and low byte. */
module RegisterList {
  import opened Bytes
  import opened Sections
  import opened Scanner
  import opened EbusdLines

  /** One entry of `parsed_records`. */
  datatype Register = Register(section: Section, sectionIdx: nat, cc: int, yy: int, name: string, lines: string)

  /** What a scan event adds to `parsed_records`: a symbol whose current section
      maps its address to a payload adds one register; anything else adds
      nothing. */
  function RegisterOf(e: Event): Option<Register>
  {
    if e.Symbol? then
      match GenerateEbusdLines(SectionOf(e.sectionIdx), e.name, e.address)
      case None => None
      case Some(lines) =>
        Some(Register(SectionOf(e.sectionIdx), e.sectionIdx, HighByte(e.address), LowByte(e.address), e.name, lines))
    else None
  }

  /** The register's address put back together from its two bytes. */
  function Address(r: Register): int
  {
    256 * r.cc + r.yy
  }

  /** A register keeps its symbol's name, section index and address. */
  lemma RegisterOfSymbol(e: Event, r: Register)
    requires RegisterOf(e) == Some(r)
    ensures e.Symbol? && r.name == e.name && r.sectionIdx == e.sectionIdx && Address(r) == e.address
  {
  }

  function Contribution(e: Event): seq<Register>
  {
    match RegisterOf(e)
    case None => []
    case Some(r) => [r]
  }

  /** `parsed_records` after the given events, in scan order. */
  function Collect(events: seq<Event>): seq<Register>
  {
    if events == [] then []
    else Collect(events[..|events| - 1]) + Contribution(events[|events| - 1])
  }

  lemma CollectSnoc(done: seq<Event>, e: Event)
    ensures Collect(done + [e]) == Collect(done) + Contribution(e)
  {
    assert (done + [e])[..|done|] == done;
  }

  /** Collection has no memory: each event contributes the same registers
      wherever it occurs, so a repeated name or a repeated payload is kept
      every time. */
  lemma {:induction false} CollectAppend(a: seq<Event>, b: seq<Event>)
    ensures Collect(a + b) == Collect(a) + Collect(b)
    decreases |b|
  {
    if b == [] {
      assert a + b == a;
    } else {
      var b' := b[..|b| - 1];
      assert (a + b)[..|a + b| - 1] == a + b';
      CollectAppend(a, b');
    }
  }

  /** Every collected register comes from a symbol event whose section has a
      rule for the register's high byte, and carries that symbol's name and
      address split into high and low byte. */
  lemma {:induction false} CollectFromSymbols(events: seq<Event>)
    ensures forall r :: r in Collect(events) ==>
      exists i :: 0 <= i < |events| && events[i].Symbol? && RegisterOf(events[i]) == Some(r)
    ensures forall r :: r in Collect(events) ==>
      r.section == SectionOf(r.sectionIdx) && RuleFor(r.section, r.cc, 0).Some?
      && 0 <= r.cc < 256 && 0 <= r.yy < 256
  {
    if events != [] {
      var init := events[..|events| - 1];
      CollectFromSymbols(init);
      forall r | r in Collect(events)
        ensures exists i :: 0 <= i < |events| && events[i].Symbol? && RegisterOf(events[i]) == Some(r)
        ensures r.section == SectionOf(r.sectionIdx) && RuleFor(r.section, r.cc, 0).Some?
      {
        if r in Collect(init) {
          var i :| 0 <= i < |init| && init[i].Symbol? && RegisterOf(init[i]) == Some(r);
          assert events[i] == init[i];
        } else {
          var e := events[|events| - 1];
          assert RegisterOf(e) == Some(r);
          PayloadFollowsRules(SectionOf(e.sectionIdx), e.address);
        }
      }
    }
  }

  /** Every register of a scanned buffer is a record encoded in the buffer, with
      a 3 to 39 character name, in a section that has a rule for its high
      byte. */
  lemma RegistersAreRecords(data: seq<byte>)
    ensures forall r :: r in Collect(Scan(data)) ==>
      && (exists at :: EncodesRecord(data, at, r.name, Address(r)))
      && 3 <= |r.name| <= 39
      && r.section == SectionOf(r.sectionIdx) && RuleFor(r.section, r.cc, 0).Some?
  {
    var events := Scan(data);
    CollectFromSymbols(events);
    TraceSymbolsEncoded(data, 0, 0);
    forall r | r in Collect(events)
      ensures exists at :: EncodesRecord(data, at, r.name, Address(r))
    {
      var i :| 0 <= i < |events| && events[i].Symbol? && RegisterOf(events[i]) == Some(r);
      RegisterOfSymbol(events[i], r);
      assert EncodesRecord(data, events[i].at, events[i].name, events[i].address);
    }
  }

  // ---------------------------------------------------------------------------
  // `parsed_records.sort(key=lambda r: (r['section_idx'], r['cc'], r['yy']))`

  /** The sort key compared as a tuple: `a`'s key is at most `b`'s. */
  predicate KeyLe(a: Register, b: Register)
  {
    a.sectionIdx < b.sectionIdx
    || (a.sectionIdx == b.sectionIdx && (a.cc < b.cc || (a.cc == b.cc && a.yy <= b.yy)))
  }

  predicate SameKey(a: Register, b: Register)
  {
    a.sectionIdx == b.sectionIdx && a.cc == b.cc && a.yy == b.yy
  }

  predicate Sorted(s: seq<Register>)
  {
    forall i, j :: 0 <= i < j < |s| ==> KeyLe(s[i], s[j])
  }

  /** The registers of `s` whose key equals `k`'s, in order. */
  function WithKey(s: seq<Register>, k: Register): seq<Register>
  {
    if s == [] then []
    else (if SameKey(s[0], k) then [s[0]] else []) + WithKey(s[1..], k)
  }

  /** Puts `x` in front of the first register whose key is at least `x`'s. */
  function Insert(x: Register, s: seq<Register>): seq<Register>
  {
    if s == [] then [x]
    else if KeyLe(x, s[0]) then [x] + s
    else [s[0]] + Insert(x, s[1..])
  }

  /** Python's stable sort by key, as an insertion sort. */
  function SortRegisters(s: seq<Register>): seq<Register>
  {
    if s == [] then [] else Insert(s[0], SortRegisters(s[1..]))
  }

  lemma {:induction false} InsertPermutes(x: Register, s: seq<Register>)
    ensures multiset(Insert(x, s)) == multiset(s) + multiset{x}
  {
    if s != [] && !KeyLe(x, s[0]) {
      InsertPermutes(x, s[1..]);
      assert s == [s[0]] + s[1..];
    }
  }

  lemma {:induction false} InsertSorted(x: Register, s: seq<Register>)
    requires Sorted(s)
    ensures Sorted(Insert(x, s))
  {
    if s != [] && !KeyLe(x, s[0]) {
      InsertSorted(x, s[1..]);
      InsertPermutes(x, s[1..]);
      var t := Insert(x, s[1..]);
      forall j | 0 <= j < |t| ensures KeyLe(s[0], t[j]) {
        assert t[j] in multiset(t);
        if t[j] != x {
          assert t[j] in multiset(s[1..]);
          var m :| 0 <= m < |s[1..]| && s[1..][m] == t[j];
          assert s[m + 1] == t[j];
        }
      }
    }
  }

  /** `x` passes only registers with a larger key, so among the registers with
      any one key it lands exactly where it started: in front. */
  lemma {:induction false} InsertStable(x: Register, s: seq<Register>, k: Register)
    ensures WithKey(Insert(x, s), k) == WithKey([x] + s, k)
  {
    if s == [] {
    } else if KeyLe(x, s[0]) {
    } else {
      InsertStable(x, s[1..], k);
      var t := [s[0]] + Insert(x, s[1..]);
      assert t[1..] == Insert(x, s[1..]);
      assert ([x] + s)[1..] == s;
      assert ([x] + s[1..])[1..] == s[1..];
      assert s[1..] == s[1..];
      assert !(SameKey(x, k) && SameKey(s[0], k));
    }
  }

  /** The sorted registers are in key order. */
  lemma {:induction false} SortRegistersSorted(s: seq<Register>)
    ensures Sorted(SortRegisters(s))
  {
    if s != [] {
      SortRegistersSorted(s[1..]);
      InsertSorted(s[0], SortRegisters(s[1..]));
    }
  }

  /** The sorted registers are the same registers. */
  lemma {:induction false} SortRegistersPermutes(s: seq<Register>)
    ensures multiset(SortRegisters(s)) == multiset(s)
  {
    if s != [] {
      SortRegistersPermutes(s[1..]);
      InsertPermutes(s[0], SortRegisters(s[1..]));
      assert s == [s[0]] + s[1..];
    }
  }

  /** The sort is stable: registers with equal keys keep their scan order. */
  lemma {:induction false} SortRegistersStable(s: seq<Register>, k: Register)
    ensures WithKey(SortRegisters(s), k) == WithKey(s, k)
  {
    if s != [] {
      SortRegistersStable(s[1..], k);
      InsertStable(s[0], SortRegisters(s[1..]), k);
      assert ([s[0]] + SortRegisters(s[1..]))[1..] == SortRegisters(s[1..]);
    }
  }

  /** The record branch of the loop: a symbol whose lines can be generated is
      appended to `parsed_records` with its section, section index, high and
      low address byte, name and lines. */
  method AppendRegister(parsedRecords: seq<Register>, event: Event, currentSection: Section, sectionIdx: nat)
    returns (updated: seq<Register>)
    requires event.Symbol? && event.sectionIdx == sectionIdx && currentSection == SectionOf(sectionIdx)
    ensures updated == parsedRecords + Contribution(event)
  {
    updated := parsedRecords;
    var ebusdLines := GenerateEbusdLines(currentSection, event.name, event.address);
    if ebusdLines.Some? {
      var address := event.address;
      updated := updated + [Register(currentSection, sectionIdx, address / 256, address % 256, event.name, ebusdLines.value)];
    }
  }

  /** The scan-and-collect loop of `parse_syc_to_ebusd` followed by the sort. */
  method ParseSycToEbusd(data: seq<byte>) returns (records: seq<Register>)
    ensures records == SortRegisters(Collect(Scan(data)))
  {
    var sectionIdx: nat := 0;
    var currentSection := ActualSections[sectionIdx];
    var parsedRecords: seq<Register> := [];
    var offset: nat := 0;
    ghost var done: seq<Event> := [];
    while offset < |data| - 2
      invariant offset <= |data|
      invariant currentSection == SectionOf(sectionIdx)
      invariant done + Trace(data, offset, sectionIdx) == Scan(data)
      invariant parsedRecords == Collect(done)
      decreases |data| - offset
    {
      var event, next, nextIdx, nextSection := ScanStep(data, offset, sectionIdx, currentSection);
      TraceAfterStep(data, offset, sectionIdx, done, event, next);
      CollectSnoc(done, event);
      if event.Symbol? {
        parsedRecords := AppendRegister(parsedRecords, event, currentSection, sectionIdx);
      }
      done := done + [event];
      offset, sectionIdx, currentSection := next, nextIdx, nextSection;
    }
    assert done == Scan(data);
    records := SortRegisters(parsedRecords);
  }
}
