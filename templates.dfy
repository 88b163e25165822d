/** `generate_template_files`: scans a symbol file with the shared scanner,
    keeps the first occurrence of every symbol name as a template in the group
    of the section it was first seen in, and writes the groups in section order
    with the names of each group in ascending order. */
module Templates {
  import opened Bytes
  import opened Sections
  import opened Scanner

  /** The template definition written for a symbol: a bit for the `Bits`
      section, an unsigned char everywhere else. */
  function TemplateLine(section: Section, name: string): string
  {
    if section == Bits then "_" + name + ":" + name + ",BI0,,,"
    else "_" + name + ":" + name + ",UCH,,,"
  }

  /** A template line gives back the name it defines and whether it is a bit,
      so distinct names never produce the same definition. */
  lemma TemplateLineDecodes(s1: Section, n1: string, s2: Section, n2: string)
    requires TemplateLine(s1, n1) == TemplateLine(s2, n2)
    ensures n1 == n2 && (s1 == Bits <==> s2 == Bits)
  {
    var line := TemplateLine(s1, n1);
    assert |line| == 2 * |n1| + 9 == 2 * |n2| + 9;
    assert line[1..1 + |n1|] == n1;
    assert line[1..1 + |n2|] == n2;
    assert line[|line| - 6] == (if s1 == Bits then 'B' else 'U');
    assert line[|line| - 6] == (if s2 == Bits then 'B' else 'U');
  }

  // ---------------------------------------------------------------------------
  // The state the loop builds: `seen_names` and `grouped_templates`.

  type Groups = map<Section, map<string, string>>

  /** Every section has a group, as `{sec: {} for sec in actual_sections}`
      sets up. */
  ghost predicate Complete(groups: Groups)
  {
    forall s: Section :: s in groups
  }

  /** `{sec: {} for sec in actual_sections}`. */
  const NoGroups: Groups := map[RAM := map[], Bits := map[], SFR := map[], Konstanten := map[], XRAM := map[], EOF := map[]]

  lemma NoGroupsComplete()
    ensures Complete(NoGroups) && forall s: Section :: NoGroups[s] == map[]
  {
    forall s: Section ensures s in NoGroups && NoGroups[s] == map[] {
      match s
      case RAM =>
      case Bits =>
      case SFR =>
      case Konstanten =>
      case XRAM =>
      case EOF =>
    }
  }

  datatype TemplateState = TemplateState(seen: set<string>, groups: Groups)

  /** The state before the loop: no names, and an empty group per section. */
  function InitialState(): (t: TemplateState)
    ensures Complete(t.groups) && t.seen == {}
    ensures forall s: Section :: t.groups[s] == map[]
  {
    NoGroupsComplete();
    TemplateState({}, NoGroups)
  }

  /** What one scan event does to the state: a symbol whose name has not been
      seen is recorded as seen and filed, with its template line, under the
      current section; any other event, a repeated name included, changes
      nothing. */
  function AddEvent(t: TemplateState, e: Event): (r: TemplateState)
    requires Complete(t.groups)
    ensures Complete(r.groups)
  {
    if e.Symbol? && e.name !in t.seen then
      var s := SectionOf(e.sectionIdx);
      TemplateState(t.seen + {e.name}, t.groups[s := t.groups[s][e.name := TemplateLine(s, e.name)]])
    else t
  }

  /** The state after the given events, in scan order. */
  function Gather(events: seq<Event>): (t: TemplateState)
    ensures Complete(t.groups)
  {
    if events == [] then InitialState()
    else AddEvent(Gather(events[..|events| - 1]), events[|events| - 1])
  }

  lemma GatherSnoc(done: seq<Event>, e: Event)
    ensures Gather(done + [e]) == AddEvent(Gather(done), e)
  {
    assert (done + [e])[..|done|] == done;
  }

  /** A name that has been seen leaves the state alone when it comes again. */
  lemma RepeatChangesNothing(t: TemplateState, e: Event)
    requires Complete(t.groups)
    requires e.Symbol? && e.name in t.seen
    ensures AddEvent(t, e) == t
  {
  }

  // ---------------------------------------------------------------------------
  // Which names are seen and where they are filed.

  /** Event `i` is a symbol whose name no earlier symbol carried. */
  predicate FirstSighting(events: seq<Event>, i: nat)
    requires i < |events|
  {
    events[i].Symbol? && forall j :: 0 <= j < i ==> !(events[j].Symbol? && events[j].name == events[i].name)
  }

  /** A name is seen exactly when some symbol carried it. */
  lemma {:induction false} GatherSeen(events: seq<Event>)
    ensures forall n :: n in Gather(events).seen <==>
      exists i :: 0 <= i < |events| && events[i].Symbol? && events[i].name == n
  {
    if events != [] {
      var init := events[..|events| - 1];
      var e := events[|events| - 1];
      GatherSeen(init);
      var t := Gather(init);
      assert Gather(events) == AddEvent(t, e);
      forall n
        ensures n in Gather(events).seen <==>
          exists i :: 0 <= i < |events| && events[i].Symbol? && events[i].name == n
      {
        if n in t.seen {
          var i :| 0 <= i < |init| && init[i].Symbol? && init[i].name == n;
          assert events[i] == init[i];
        }
        if exists i :: 0 <= i < |events| && events[i].Symbol? && events[i].name == n {
          var i :| 0 <= i < |events| && events[i].Symbol? && events[i].name == n;
          if i < |init| {
            assert init[i] == events[i];
          }
        }
      }
    }
  }

  /** The last event is a first sighting exactly when it is a symbol whose name
      the earlier events have not made seen. */
  lemma LastSighting(events: seq<Event>)
    requires events != []
    ensures var init, e := events[..|events| - 1], events[|events| - 1];
      FirstSighting(events, |init|) <==> e.Symbol? && e.name !in Gather(init).seen
  {
    var init := events[..|events| - 1];
    var e := events[|events| - 1];
    var last := |init|;
    GatherSeen(init);
    if e.Symbol? && e.name in Gather(init).seen {
      var j :| 0 <= j < |init| && init[j].Symbol? && init[j].name == e.name;
      assert events[j] == init[j];
    }
    if e.Symbol? && !FirstSighting(events, last) {
      var j :| 0 <= j < last && events[j].Symbol? && events[j].name == e.name;
      assert init[j] == events[j];
    }
  }

  /** A name is filed in a section exactly when its first sighting happened in
      that section. */
  lemma {:induction false} GatherGroups(events: seq<Event>)
    ensures forall s: Section, n :: n in Gather(events).groups[s] <==>
      exists i :: 0 <= i < |events| && FirstSighting(events, i) && events[i].name == n && SectionOf(events[i].sectionIdx) == s
  {
    if events != [] {
      var init := events[..|events| - 1];
      var e := events[|events| - 1];
      GatherGroups(init);
      LastSighting(events);
      var t := Gather(init);
      assert Gather(events) == AddEvent(t, e);
      var last := |init|;
      forall i | 0 <= i < |init|
        ensures FirstSighting(events, i) == FirstSighting(init, i)
      {
        assert forall j :: 0 <= j <= i ==> events[j] == init[j];
      }
      forall s: Section, n
        ensures n in Gather(events).groups[s] <==>
          exists i :: 0 <= i < |events| && FirstSighting(events, i) && events[i].name == n && SectionOf(events[i].sectionIdx) == s
      {
        if n in t.groups[s] {
          var i :| 0 <= i < |init| && FirstSighting(init, i) && init[i].name == n && SectionOf(init[i].sectionIdx) == s;
          assert events[i] == init[i];
        }
        if exists i :: 0 <= i < |events| && FirstSighting(events, i) && events[i].name == n && SectionOf(events[i].sectionIdx) == s {
          var i :| 0 <= i < |events| && FirstSighting(events, i) && events[i].name == n && SectionOf(events[i].sectionIdx) == s;
          if i < |init| {
            assert init[i] == events[i];
          }
        }
      }
    }
  }

  /** A name has at most one first sighting, so every seen name is filed in
      exactly one section. */
  lemma SeenNameInOneGroup(events: seq<Event>, n: string)
    requires n in Gather(events).seen
    ensures exists s: Section :: n in Gather(events).groups[s]
    ensures forall s1: Section, s2: Section :: n in Gather(events).groups[s1] && n in Gather(events).groups[s2] ==> s1 == s2
  {
    GatherSeen(events);
    GatherGroups(events);
    var i :| 0 <= i < |events| && events[i].Symbol? && events[i].name == n;
    var k := i;
    while k > 0 && !FirstSighting(events, k)
      invariant 0 <= k <= i && events[k].Symbol? && events[k].name == n
      decreases k
    {
      var j :| 0 <= j < k && events[j].Symbol? && events[j].name == n;
      k := j;
    }
    assert FirstSighting(events, k);
    assert n in Gather(events).groups[SectionOf(events[k].sectionIdx)];
    forall s1: Section, s2: Section | n in Gather(events).groups[s1] && n in Gather(events).groups[s2]
      ensures s1 == s2
    {
      var i1 :| 0 <= i1 < |events| && FirstSighting(events, i1) && events[i1].name == n && SectionOf(events[i1].sectionIdx) == s1;
      var i2 :| 0 <= i2 < |events| && FirstSighting(events, i2) && events[i2].name == n && SectionOf(events[i2].sectionIdx) == s2;
      assert i1 == i2;
    }
  }

  // ---------------------------------------------------------------------------
  // The invariant: every filed line is the line for its name and section, and
  // the group sizes add up to the number of names seen.

  /** The sizes of the groups of the listed sections, added up. */
  function GroupSizes(groups: Groups, secs: seq<Section>): nat
    requires Complete(groups)
  {
    if secs == [] then 0 else |groups[secs[0]]| + GroupSizes(groups, secs[1..])
  }

  /** Replacing one group changes the total by the change in that group's
      size, once for each time the section is listed. */
  lemma {:induction false} GroupSizesUpdate(groups: Groups, s: Section, g: map<string, string>, secs: seq<Section>)
    requires Complete(groups)
    requires forall i, j :: 0 <= i < j < |secs| ==> secs[i] != secs[j]
    ensures GroupSizes(groups[s := g], secs) == GroupSizes(groups, secs) + if s in secs then |g| - |groups[s]| else 0
  {
    if secs != [] {
      GroupSizesUpdate(groups, s, g, secs[1..]);
      assert s in secs <==> s == secs[0] || s in secs[1..];
      if s == secs[0] {
        forall j | 0 <= j < |secs[1..]| ensures secs[1..][j] != s {
          assert secs[1..][j] == secs[j + 1];
        }
      }
    }
  }

  lemma {:induction false} GroupSizesEmpty(groups: Groups, secs: seq<Section>)
    requires Complete(groups) && forall s: Section :: groups[s] == map[]
    ensures GroupSizes(groups, secs) == 0
  {
    if secs != [] {
      GroupSizesEmpty(groups, secs[1..]);
    }
  }

  /** Every filed name has been seen and is filed with its own template line. */
  ghost predicate Filed(t: TemplateState)
    requires Complete(t.groups)
  {
    forall s: Section, n :: n in t.groups[s] ==> n in t.seen && t.groups[s][n] == TemplateLine(s, n)
  }

  ghost predicate Consistent(t: TemplateState)
  {
    Complete(t.groups) && Filed(t) && GroupSizes(t.groups, ActualSections) == |t.seen|
  }

  lemma AddEventFiled(t: TemplateState, e: Event)
    requires Complete(t.groups) && Filed(t)
    ensures Filed(AddEvent(t, e))
  {
    if e.Symbol? && e.name !in t.seen {
      var s := SectionOf(e.sectionIdx);
      var g := t.groups[s][e.name := TemplateLine(s, e.name)];
      var r := AddEvent(t, e);
      assert r.groups == t.groups[s := g] && r.seen == t.seen + {e.name};
      forall s': Section, n | n in r.groups[s']
        ensures n in r.seen && r.groups[s'][n] == TemplateLine(s', n)
      {
        if s' != s {
          assert r.groups[s'] == t.groups[s'];
          assert n in t.seen;
        } else if n != e.name {
          assert g[n] == t.groups[s][n];
        }
      }
    }
  }

  lemma AddEventCounted(t: TemplateState, e: Event)
    requires Complete(t.groups) && Filed(t)
    requires GroupSizes(t.groups, ActualSections) == |t.seen|
    ensures GroupSizes(AddEvent(t, e).groups, ActualSections) == |AddEvent(t, e).seen|
  {
    if e.Symbol? && e.name !in t.seen {
      var s := SectionOf(e.sectionIdx);
      var g := t.groups[s][e.name := TemplateLine(s, e.name)];
      assert e.name !in t.groups[s];
      assert |g| == |t.groups[s]| + 1;
      GroupSizesUpdate(t.groups, s, g, ActualSections);
      assert s in ActualSections;
    }
  }

  /** Every filed template is the line for its name and section, every filed
      name has been seen, and the group sizes add up to the number of names
      seen, which is the count the generator reports. */
  lemma {:induction false} GatherConsistent(events: seq<Event>)
    ensures Consistent(Gather(events))
  {
    if events == [] {
      GroupSizesEmpty(InitialState().groups, ActualSections);
    } else {
      GatherConsistent(events[..|events| - 1]);
      AddEventFiled(Gather(events[..|events| - 1]), events[|events| - 1]);
      AddEventCounted(Gather(events[..|events| - 1]), events[|events| - 1]);
    }
  }

  /** The scan-and-file loop of `generate_template_files`. */
  method GenerateTemplateGroups(data: seq<byte>) returns (seenNames: set<string>, groupedTemplates: Groups)
    ensures TemplateState(seenNames, groupedTemplates) == Gather(Scan(data))
  {
    var sectionIdx: nat := 0;
    var currentSection := ActualSections[sectionIdx];
    groupedTemplates := NoGroups;
    seenNames := {};
    var offset: nat := 0;
    ghost var done: seq<Event> := [];
    while offset < |data| - 2
      invariant offset <= |data|
      invariant currentSection == SectionOf(sectionIdx)
      invariant done + Trace(data, offset, sectionIdx) == Scan(data)
      invariant TemplateState(seenNames, groupedTemplates) == Gather(done)
      decreases |data| - offset
    {
      var event, next, nextIdx, nextSection := ScanStep(data, offset, sectionIdx, currentSection);
      TraceAfterStep(data, offset, sectionIdx, done, event, next);
      GatherSnoc(done, event);
      if event.Symbol? && event.name !in seenNames {
        var name := event.name;
        seenNames := seenNames + {name};
        var templateLine;
        if currentSection == Bits {
          templateLine := "_" + name + ":" + name + ",BI0,,,";
        } else {
          templateLine := "_" + name + ":" + name + ",UCH,,,";
        }
        groupedTemplates := groupedTemplates[currentSection := groupedTemplates[currentSection][name := templateLine]];
      }
      done := done + [event];
      offset, sectionIdx, currentSection := next, nextIdx, nextSection;
    }
    assert done == Scan(data);
  }

  // ---------------------------------------------------------------------------
  // `sorted()` on names: Python orders strings by comparing code points left
  // to right, a proper prefix coming first.

  predicate NameLess(a: string, b: string)
    decreases |a|
  {
    |b| > 0 && (|a| == 0 || a[0] < b[0] || (a[0] == b[0] && NameLess(a[1..], b[1..])))
  }

  lemma {:induction false} NameLessIrreflexive(a: string)
    ensures !NameLess(a, a)
    decreases |a|
  {
    if |a| > 0 {
      NameLessIrreflexive(a[1..]);
    }
  }

  lemma {:induction false} NameLessTransitive(a: string, b: string, c: string)
    requires NameLess(a, b) && NameLess(b, c)
    ensures NameLess(a, c)
    decreases |a|
  {
    if |a| > 0 && a[0] == b[0] && b[0] == c[0] {
      NameLessTransitive(a[1..], b[1..], c[1..]);
    }
  }

  /** Two different names are always ordered one way or the other. */
  lemma {:induction false} NameLessTotal(a: string, b: string)
    requires a != b
    ensures NameLess(a, b) || NameLess(b, a)
    decreases |a|
  {
    if |a| > 0 && |b| > 0 && a[0] == b[0] {
      assert a == [a[0]] + a[1..] && b == [b[0]] + b[1..];
      NameLessTotal(a[1..], b[1..]);
    }
  }

  predicate StrictlySorted(names: seq<string>)
  {
    forall i, j :: 0 <= i < j < |names| ==> NameLess(names[i], names[j])
  }

  /** `m` is in `names` and no name there comes before it. */
  predicate IsLeast(m: string, names: set<string>)
  {
    m in names && forall n :: n in names ==> !NameLess(n, m)
  }

  /** A non-empty set of names has a least element. */
  lemma {:induction false} LeastNameExists(names: set<string>)
    requires names != {}
    ensures exists m :: IsLeast(m, names)
    decreases |names|
  {
    var x :| x in names;
    NameLessIrreflexive(x);
    if names == {x} {
      assert IsLeast(x, names);
    } else {
      var rest := names - {x};
      assert |rest| < |names|;
      LeastNameExists(rest);
      var r :| IsLeast(r, rest);
      if NameLess(x, r) {
        forall n | n in names ensures !NameLess(n, x) {
          if n != x && NameLess(n, x) {
            NameLessTransitive(n, x, r);
          }
        }
        assert IsLeast(x, names);
      } else {
        assert IsLeast(r, names);
      }
    }
  }

  /** There is only one way to list a set of names in strictly ascending
      order. */
  lemma {:induction false} StrictlySortedUnique(a: seq<string>, b: seq<string>)
    requires StrictlySorted(a) && StrictlySorted(b)
    requires forall n :: n in a <==> n in b
    ensures a == b
    decreases |a|
  {
    assert b != [] ==> b[0] in b;
    if a == [] {
      assert b == [];
    } else {
      assert b != [] by {
        assert a[0] in a;
      }
      assert a[0] == b[0] by {
        assert a[0] in b;
        var k :| 0 <= k < |b| && b[k] == a[0];
        assert b[0] in a;
        var j :| 0 <= j < |a| && a[j] == b[0];
        if k > 0 && j > 0 {
          NameLessTransitive(a[0], b[0], a[0]);
          NameLessIrreflexive(a[0]);
        }
      }
      forall n ensures n in a[1..] <==> n in b[1..] {
        if n in a[1..] {
          var i :| 0 <= i < |a[1..]| && a[1..][i] == n;
          assert NameLess(a[0], n);
          NameLessIrreflexive(n);
          assert n in b;
          var k :| 0 <= k < |b| && b[k] == n;
          assert k > 0;
          assert b[1..][k - 1] == n;
        }
        if n in b[1..] {
          var i :| 0 <= i < |b[1..]| && b[1..][i] == n;
          assert NameLess(b[0], n);
          NameLessIrreflexive(n);
          assert n in a;
          var k :| 0 <= k < |a| && a[k] == n;
          assert k > 0;
          assert a[1..][k - 1] == n;
        }
      }
      StrictlySortedUnique(a[1..], b[1..]);
      assert a == [b[0]] + b[1..];
    }
  }

  /** `sorted(names)`: the names in ascending order, each once. The order
      pins the list down completely (StrictlySortedUnique). */
  method SortNames(names: set<string>) returns (sorted: seq<string>)
    ensures StrictlySorted(sorted)
    ensures forall n :: n in sorted <==> n in names
  {
    sorted := [];
    var rest := names;
    while rest != {}
      invariant StrictlySorted(sorted)
      invariant forall n :: n in names <==> n in sorted || n in rest
      invariant forall i, n :: 0 <= i < |sorted| && n in rest ==> NameLess(sorted[i], n)
      decreases |rest|
    {
      LeastNameExists(rest);
      var m :| IsLeast(m, rest);
      forall n | n in rest - {m} ensures NameLess(m, n) {
        NameLessTotal(m, n);
      }
      sorted := sorted + [m];
      rest := rest - {m};
    }
  }

  // ---------------------------------------------------------------------------
  // Writing the groups out.

  /** One section's part of the output file: the sorted names and the
      template line written for each. */
  datatype Block = Block(section: Section, names: seq<string>, lines: seq<string>)

  /** The sections of `secs` whose group is not empty, in the order listed. */
  function NonEmptySections(groups: Groups, secs: seq<Section>): seq<Section>
    requires Complete(groups)
  {
    if secs == [] then []
    else
      var last := secs[|secs| - 1];
      NonEmptySections(groups, secs[..|secs| - 1]) + if |groups[last]| > 0 then [last] else []
  }

  /** The position of a section in `actual_sections`. */
  function SectionPosition(s: Section): (p: nat)
    ensures p < |ActualSections| && ActualSections[p] == s
  {
    match s
    case RAM => 0
    case Bits => 1
    case SFR => 2
    case Konstanten => 3
    case XRAM => 4
    case EOF => 5
  }

  /** The sections written are exactly those with a non-empty group. */
  lemma {:induction false} NonEmptySectionsMembers(groups: Groups, k: nat)
    requires Complete(groups) && k <= |ActualSections|
    ensures forall s: Section :: s in NonEmptySections(groups, ActualSections[..k]) <==>
      SectionPosition(s) < k && |groups[s]| > 0
  {
    if k > 0 {
      NonEmptySectionsMembers(groups, k - 1);
      var last := ActualSections[k - 1];
      var r0 := NonEmptySections(groups, ActualSections[..k - 1]);
      assert ActualSections[..k][..k - 1] == ActualSections[..k - 1];
      assert NonEmptySections(groups, ActualSections[..k]) == r0 + if |groups[last]| > 0 then [last] else [];
      forall s: Section ensures SectionPosition(s) == k - 1 <==> s == last {
        assert ActualSections[SectionPosition(s)] == s;
      }
    }
  }

  /** The sections come in the order of `actual_sections`. */
  predicate InOrder(r: seq<Section>)
  {
    forall i, j :: 0 <= i < j < |r| ==> SectionPosition(r[i]) < SectionPosition(r[j])
  }

  /** They are written in the order of `actual_sections`. */
  lemma {:induction false} NonEmptySectionsInOrder(groups: Groups, k: nat)
    requires Complete(groups) && k <= |ActualSections|
    ensures InOrder(NonEmptySections(groups, ActualSections[..k]))
  {
    if k > 0 {
      NonEmptySectionsInOrder(groups, k - 1);
      NonEmptySectionsMembers(groups, k - 1);
      var last := ActualSections[k - 1];
      var r0 := NonEmptySections(groups, ActualSections[..k - 1]);
      assert ActualSections[..k][..k - 1] == ActualSections[..k - 1];
      assert SectionPosition(last) == k - 1;
      assert InOrder(r0);
      var r := NonEmptySections(groups, ActualSections[..k]);
      assert r == r0 + if |groups[last]| > 0 then [last] else [];
      forall i, j | 0 <= i < j < |r|
        ensures SectionPosition(r[i]) < SectionPosition(r[j])
      {
        assert r[i] == r0[i] && r0[i] in r0;
        if j >= |r0| {
          assert r[j] == last;
          assert SectionPosition(r0[i]) < k - 1;
          assert SectionPosition(r[j]) == k - 1;
        } else {
          assert r[j] == r0[j];
          assert SectionPosition(r0[i]) < SectionPosition(r0[j]);
        }
      }
    }
  }

  /** The block lists every name of the group once, in ascending order, each
      with its template line. */
  ghost predicate ListsGroup(b: Block, group: map<string, string>)
  {
    StrictlySorted(b.names)
    && (forall n :: n in b.names <==> n in group)
    && |b.lines| == |b.names|
    && forall k :: 0 <= k < |b.names| ==> b.names[k] in group && b.lines[k] == group[b.names[k]]
  }

  function BlockSections(blocks: seq<Block>): seq<Section>
  {
    seq(|blocks|, i requires 0 <= i < |blocks| => blocks[i].section)
  }

  /** The output is one block per non-empty group, in section order. */
  ghost predicate RendersGroups(blocks: seq<Block>, groups: Groups)
    requires Complete(groups)
  {
    BlockSections(blocks) == NonEmptySections(groups, ActualSections)
    && forall i :: 0 <= i < |blocks| ==> ListsGroup(blocks[i], groups[blocks[i].section])
  }

  /** The inner loop of the output: one template line per name, in the order
      of the names. */
  method WriteLines(group: map<string, string>, names: seq<string>) returns (lines: seq<string>)
    requires forall n :: n in names ==> n in group
    ensures |lines| == |names|
    ensures forall m :: 0 <= m < |names| ==> lines[m] == group[names[m]]
  {
    lines := [];
    for k := 0 to |names|
      invariant |lines| == k
      invariant forall m :: 0 <= m < k ==> lines[m] == group[names[m]]
    {
      lines := lines + [group[names[k]]];
    }
  }

  /** The output loop of `generate_template_files`, without the fixed header
      and separator lines. */
  method RenderTemplates(groups: Groups) returns (blocks: seq<Block>)
    requires Complete(groups)
    ensures RendersGroups(blocks, groups)
  {
    blocks := [];
    for i := 0 to |ActualSections|
      invariant BlockSections(blocks) == NonEmptySections(groups, ActualSections[..i])
      invariant forall j :: 0 <= j < |blocks| ==> ListsGroup(blocks[j], groups[blocks[j].section])
    {
      assert ActualSections[..i + 1][..i] == ActualSections[..i];
      var section := ActualSections[i];
      if |groups[section]| > 0 {
        var group := groups[section];
        var sortedNames := SortNames(group.Keys);
        var lines := WriteLines(group, sortedNames);
        blocks := blocks + [Block(section, sortedNames, lines)];
        assert BlockSections(blocks) == BlockSections(blocks[..|blocks| - 1]) + [section];
      }
    }
    assert ActualSections[..|ActualSections|] == ActualSections;
  }

  /** `generate_template_files` for one symbol file: the blocks written and the
      number of unique templates reported. */
  method GenerateTemplateFile(data: seq<byte>) returns (blocks: seq<Block>, uniqueTemplates: nat)
    ensures var t := Gather(Scan(data));
      RendersGroups(blocks, t.groups) && uniqueTemplates == |t.seen|
  {
    var seenNames, groupedTemplates := GenerateTemplateGroups(data);
    blocks := RenderTemplates(groupedTemplates);
    uniqueTemplates := |seenNames|;
  }
}
