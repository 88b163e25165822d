/** `parse_syc.parse_syc_file`: walks a symbol file with the shared scanner and
    prints a header whenever a section starts and one row per symbol. The
    printout is modelled as the sequence of things printed, without the column
    layout. */
module SymbolDump {
  import opened Bytes
  import opened Sections
  import opened Scanner

  /** One printed item: a section header, or a symbol's name and address. */
  datatype Printed = Header(section: Section) | Row(name: string, address: u16)

  /** What a scan event prints: a footer prints the next section's header
      while the index is still inside `actual_sections`, a symbol prints its
      row, and a skipped byte prints nothing. */
  function Print(e: Event): seq<Printed>
  {
    match e
    case FooterHit(_, sectionIdx, _) =>
      if sectionIdx < |ActualSections| then [Header(ActualSections[sectionIdx])] else []
    case Symbol(_, _, name, address) => [Row(name, address)]
    case Skip(_, _) => []
  }

  /** Everything the events print, in order. */
  function Printout(events: seq<Event>): seq<Printed>
  {
    if events == [] then [] else Print(events[0]) + Printout(events[1..])
  }

  lemma {:induction false} PrintoutAppend(a: seq<Event>, b: seq<Event>)
    ensures Printout(a + b) == Printout(a) + Printout(b)
  {
    if a == [] {
      assert a + b == b;
    } else {
      PrintoutAppend(a[1..], b);
      assert (a + b)[1..] == a[1..] + b;
    }
  }

  lemma PrintoutSnoc(done: seq<Event>, e: Event)
    ensures [Header(RAM)] + Printout(done + [e]) == ([Header(RAM)] + Printout(done)) + Print(e)
  {
    PrintoutAppend(done, [e]);
    assert [e][1..] == [];
  }

  /** The whole printout of a buffer: the `RAM` header, then what the scan
      prints. */
  function Dump(data: seq<byte>): seq<Printed>
  {
    [Header(RAM)] + Printout(Scan(data))
  }

  /** The printing part of the loop body: the new section's header after a
      footer while the index is inside the table, the row of a symbol, nothing
      after a skipped byte. */
  method PrintEvent(printed: seq<Printed>, event: Event, sectionIdx: nat, currentSection: Section)
    returns (updated: seq<Printed>)
    requires event.sectionIdx == sectionIdx && currentSection == SectionOf(sectionIdx)
    ensures updated == printed + Print(event)
  {
    updated := printed;
    match event {
      case FooterHit(_, _, _) =>
        if sectionIdx < |ActualSections| {
          updated := updated + [Header(currentSection)];
        }
      case Symbol(_, _, name, address) =>
        updated := updated + [Row(name, address)];
      case Skip(_, _) =>
    }
  }

  /** The loop of `parse_syc_file`. */
  method ParseSycFile(data: seq<byte>) returns (printed: seq<Printed>)
    ensures printed == Dump(data)
  {
    var sectionIdx: nat := 0;
    var currentSection := ActualSections[sectionIdx];
    printed := [Header(currentSection)];
    var offset: nat := 0;
    ghost var done: seq<Event> := [];
    while offset < |data| - 2
      invariant offset <= |data|
      invariant currentSection == SectionOf(sectionIdx)
      invariant done + Trace(data, offset, sectionIdx) == Scan(data)
      invariant printed == [Header(RAM)] + Printout(done)
      decreases |data| - offset
    {
      var event, next, nextIdx, nextSection := ScanStep(data, offset, sectionIdx, currentSection);
      TraceAfterStep(data, offset, sectionIdx, done, event, next);
      PrintoutSnoc(done, event);
      printed := PrintEvent(printed, event, nextIdx, nextSection);
      done := done + [event];
      offset, sectionIdx, currentSection := next, nextIdx, nextSection;
    }
    assert done == Scan(data);
  }

  // ---------------------------------------------------------------------------
  // The headers.

  /** The sections of the printed headers, in order. */
  function Headers(p: seq<Printed>): seq<Section>
  {
    if p == [] then []
    else (if p[0].Header? then [p[0].section] else []) + Headers(p[1..])
  }

  lemma {:induction false} HeadersAppend(a: seq<Printed>, b: seq<Printed>)
    ensures Headers(a + b) == Headers(a) + Headers(b)
  {
    if a == [] {
      assert a + b == b;
    } else {
      HeadersAppend(a[1..], b);
      assert (a + b)[1..] == a[1..] + b;
    }
  }

  /** The number of footer events. */
  function FooterCountOf(events: seq<Event>): nat
  {
    if events == [] then 0 else (if events[0].FooterHit? then 1 else 0) + FooterCountOf(events[1..])
  }

  function Min(a: int, b: int): int
  {
    if a <= b then a else b
  }

  /** The headers `n` footers print when the index stands at `idx - 1`: the
      sections from position `idx` of `actual_sections` on, one per footer,
      and none past the end of the table. */
  function SectionsFrom(idx: nat, n: nat): seq<Section>
    decreases n
  {
    if n == 0 || idx >= |ActualSections| then [] else [ActualSections[idx]] + SectionsFrom(idx + 1, n - 1)
  }

  /** Those headers are the table's entries from position `idx` on, as many
      as there were footers, capped at the table's end. */
  lemma {:induction false} SectionsFromTable(idx: nat, n: nat)
    requires idx <= |ActualSections|
    ensures SectionsFrom(idx, n) == ActualSections[idx..Min(idx + n, |ActualSections|)]
    decreases n
  {
    if n > 0 && idx < |ActualSections| {
      SectionsFromTable(idx + 1, n - 1);
    }
  }

  /** One event in front of a trace keeps the headers in step with the
      footers: a footer adds the header of the section it opens, anything
      else adds no header. */
  lemma HeadersStep(e: Event, rest: seq<Event>, sectionIdx: nat)
    requires e.sectionIdx == if e.FooterHit? then sectionIdx + 1 else sectionIdx
    requires Headers(Printout(rest)) == SectionsFrom(e.sectionIdx + 1, FooterCountOf(rest))
    ensures Headers(Printout([e] + rest)) == SectionsFrom(sectionIdx + 1, FooterCountOf([e] + rest))
  {
    var t := [e] + rest;
    assert t[0] == e && t[1..] == rest;
    assert Printout(t) == Print(e) + Printout(rest);
    HeadersAppend(Print(e), Printout(rest));
    var n := FooterCountOf(rest);
    if e.FooterHit? {
      assert FooterCountOf(t) == 1 + n;
      if sectionIdx + 1 < |ActualSections| {
        assert Headers(Print(e)) == [ActualSections[sectionIdx + 1]];
      } else {
        assert Headers(Print(e)) == [];
        assert SectionsFrom(sectionIdx + 2, n) == [];
      }
      assert SectionsFrom(sectionIdx + 1, 1 + n) == Headers(Print(e)) + SectionsFrom(sectionIdx + 2, n);
    } else {
      assert FooterCountOf(t) == n;
      assert Headers(Print(e)) == [];
    }
  }

  /** The section index carried by the events starts from `sectionIdx`, goes
      up by one at each footer and stays put at every other event. */
  ghost predicate Chained(t: seq<Event>, sectionIdx: nat)
  {
    && (t != [] ==> t[0].sectionIdx == if t[0].FooterHit? then sectionIdx + 1 else sectionIdx)
    && (forall i :: 0 <= i < |t| - 1 ==>
          t[i + 1].sectionIdx == if t[i + 1].FooterHit? then t[i].sectionIdx + 1 else t[i].sectionIdx)
  }

  /** Events chained from `sectionIdx` print one header per footer, naming the
      sections that follow in `actual_sections`. */
  lemma {:induction false} ChainedHeaders(t: seq<Event>, sectionIdx: nat)
    requires Chained(t, sectionIdx)
    ensures Headers(Printout(t)) == SectionsFrom(sectionIdx + 1, FooterCountOf(t))
    decreases |t|
  {
    if t != [] {
      var rest := t[1..];
      assert Chained(rest, t[0].sectionIdx) by {
        if rest != [] {
          assert rest[0] == t[1];
        }
        forall i | 0 <= i < |rest| - 1
          ensures rest[i + 1].sectionIdx == if rest[i + 1].FooterHit? then rest[i].sectionIdx + 1 else rest[i].sectionIdx
        {
          assert rest[i] == t[i + 1] && rest[i + 1] == t[i + 2];
        }
      }
      ChainedHeaders(rest, t[0].sectionIdx);
      assert [t[0]] + rest == t;
      HeadersStep(t[0], rest, sectionIdx);
    }
  }

  /** Starting from index `sectionIdx`, the scan prints one header per footer,
      naming the sections that follow in `actual_sections`. */
  lemma TraceHeaders(data: seq<byte>, offset: nat, sectionIdx: nat)
    ensures var t := Trace(data, offset, sectionIdx);
      Headers(Printout(t)) == SectionsFrom(sectionIdx + 1, FooterCountOf(t))
  {
    TraceChained(data, offset, sectionIdx);
    ChainedHeaders(Trace(data, offset, sectionIdx), sectionIdx);
  }

  lemma TraceChained(data: seq<byte>, offset: nat, sectionIdx: nat)
    ensures Chained(Trace(data, offset, sectionIdx), sectionIdx)
  {
    TraceSectionSteps(data, offset, sectionIdx);
  }

  /** After the `RAM` header, events chained from index 0 print the first
      `1 + footers` sections of `actual_sections`, capped at all six. */
  lemma ChainedDump(t: seq<Event>)
    requires Chained(t, 0)
    ensures Headers([Header(RAM)] + Printout(t)) == ActualSections[..Min(1 + FooterCountOf(t), |ActualSections|)]
  {
    var n := FooterCountOf(t);
    var p := Printout(t);
    ChainedHeaders(t, 0);
    HeadersAppend([Header(RAM)], p);
    assert Headers([Header(RAM)]) == [RAM];
    assert SectionsFrom(0, 1 + n) == [RAM] + SectionsFrom(1, n);
    SectionsFromTable(0, 1 + n);
  }

  /** The printed headers are the first `1 + footers` sections of
      `actual_sections`, capped at all six. */
  lemma DumpHeaders(data: seq<byte>)
    ensures Headers(Dump(data)) == ActualSections[..Min(1 + FooterCountOf(Scan(data)), |ActualSections|)]
  {
    TraceChained(data, 0, 0);
    ChainedDump(Scan(data));
  }

  // ---------------------------------------------------------------------------
  // The rows.

  /** Every printed row is a record encoded in the buffer: its length byte,
      its name bytes and its address bytes, low byte first. */
  lemma DumpRowsEncoded(data: seq<byte>)
    ensures forall k :: 0 <= k < |Dump(data)| && Dump(data)[k].Row? ==>
      exists at :: EncodesRecord(data, at, Dump(data)[k].name, Dump(data)[k].address)
  {
    TraceSymbolsEncoded(data, 0, 0);
    PrintoutRows(Scan(data));
    forall k | 0 <= k < |Dump(data)| && Dump(data)[k].Row?
      ensures exists at :: EncodesRecord(data, at, Dump(data)[k].name, Dump(data)[k].address)
    {
      var p := Dump(data)[k];
      assert p == Printout(Scan(data))[k - 1];
      var i :| 0 <= i < |Scan(data)| && Scan(data)[i].Symbol? && p == Row(Scan(data)[i].name, Scan(data)[i].address);
      assert EncodesRecord(data, Scan(data)[i].at, p.name, p.address);
    }
  }

  /** Every row comes from a symbol event with the same name and address. */
  lemma {:induction false} PrintoutRows(events: seq<Event>)
    ensures forall k :: 0 <= k < |Printout(events)| && Printout(events)[k].Row? ==>
      exists i :: 0 <= i < |events| && events[i].Symbol? && Printout(events)[k] == Row(events[i].name, events[i].address)
  {
    if events != [] {
      PrintoutRows(events[1..]);
      var head := Print(events[0]);
      forall k | 0 <= k < |Printout(events)| && Printout(events)[k].Row?
        ensures exists i :: 0 <= i < |events| && events[i].Symbol? && Printout(events)[k] == Row(events[i].name, events[i].address)
      {
        if k < |head| {
          assert Printout(events)[k] == head[k];
          assert events[0].Symbol?;
        } else {
          assert Printout(events)[k] == Printout(events[1..])[k - |head|];
          var i :| 0 <= i < |events[1..]| && events[1..][i].Symbol?
            && Printout(events[1..])[k - |head|] == Row(events[1..][i].name, events[1..][i].address);
          assert events[i + 1] == events[1..][i];
        }
      }
    }
  }
}
