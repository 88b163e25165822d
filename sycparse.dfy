/** `sycparse.parse_syc_file`, the older reader of symbol files: it skips to
    the byte after the first `z`, then reads entries made of a length byte, that
    many name bytes and a four-byte tail (address low byte, address high byte,
    memory bank, delimiter), keeping the entries whose cleaned-up name is
    printable and at least two characters long. */
module SycParse {
  import opened Bytes

  /** One entry of the returned `variables` list. */
  datatype Variable = Variable(name: string, address: u16, bank: byte)

  /** The magic byte `z`. */
  const Magic: byte := 0x7A

  /** `data.find(b)` from position `from` on: the first position holding `b`. */
  function FindFrom(data: seq<byte>, b: byte, from: nat): (r: Option<nat>)
    ensures r.Some? ==> from <= r.value < |data| && data[r.value] == b
    ensures r.Some? ==> forall j :: from <= j < r.value ==> data[j] != b
    ensures r.None? ==> forall j :: from <= j < |data| ==> data[j] != b
    decreases |data| - from
  {
    if from >= |data| then None
    else if data[from] == b then Some(from)
    else FindFrom(data, b, from + 1)
  }

  // ---------------------------------------------------------------------------
  // Cleaning a name: `decode('ascii', errors='ignore').strip()`.

  /** The ASCII decoding that drops every byte of 0x80 and above. */
  function DecodeIgnore(bs: seq<byte>): (s: string)
    ensures |s| <= |bs|
    ensures forall i :: 0 <= i < |s| ==> s[i] as int < 0x80
  {
    if bs == [] then ""
    else (if bs[0] < 0x80 then [(bs[0] as int) as char] else []) + DecodeIgnore(bs[1..])
  }

  /** One byte decodes to its character when it is below 0x80 and to nothing
      otherwise. */
  lemma DecodeIgnoreOne(b: byte)
    ensures DecodeIgnore([b]) == if b < 0x80 then [(b as int) as char] else []
  {
    assert [b][1..] == [] && [b][0] == b;
    assert DecodeIgnore([]) == [];
  }

  /** Decoding works byte by byte: the decoding of a concatenation is the
      concatenation of the decodings, so the kept characters stay in order. */
  lemma {:induction false} DecodeIgnoreAppend(a: seq<byte>, b: seq<byte>)
    ensures DecodeIgnore(a + b) == DecodeIgnore(a) + DecodeIgnore(b)
  {
    if a == [] {
      assert a + b == b;
    } else {
      assert (a + b)[0] == a[0] && (a + b)[1..] == a[1..] + b;
      DecodeIgnoreAppend(a[1..], b);
      var h: string := if a[0] < 0x80 then [(a[0] as int) as char] else [];
      assert DecodeIgnore(a + b) == h + (DecodeIgnore(a[1..]) + DecodeIgnore(b));
      assert DecodeIgnore(a) == h + DecodeIgnore(a[1..]);
      assert h + (DecodeIgnore(a[1..]) + DecodeIgnore(b)) == (h + DecodeIgnore(a[1..])) + DecodeIgnore(b);
    }
  }

  /** On bytes that are all ASCII, dropping nothing, it is the plain decoding. */
  lemma {:induction false} DecodeIgnoreAscii(bs: seq<byte>)
    requires forall i :: 0 <= i < |bs| ==> bs[i] < 0x80
    ensures DecodeIgnore(bs) == AsciiDecode(bs)
  {
    if bs != [] {
      DecodeIgnoreAscii(bs[1..]);
      assert AsciiDecode(bs) == [(bs[0] as int) as char] + AsciiDecode(bs[1..]);
    }
  }

  /** The characters below 0x80 that `str.strip()` removes: tab, line feed,
      vertical tab, form feed, carriage return, the four separators 0x1C to
      0x1F, and space. */
  predicate IsSpace(c: char)
  {
    (9 <= c as int <= 13) || (28 <= c as int <= 32)
  }

  /** `s.lstrip()`. */
  function StripLeft(s: string): string
  {
    if s != [] && IsSpace(s[0]) then StripLeft(s[1..]) else s
  }

  /** `s.rstrip()`. */
  function StripRight(s: string): string
  {
    if s != [] && IsSpace(s[|s| - 1]) then StripRight(s[..|s| - 1]) else s
  }

  /** `s.strip()`. */
  function Strip(s: string): string
  {
    StripRight(StripLeft(s))
  }

  /** `lstrip` cuts off the leading spaces and nothing more. */
  lemma {:induction false} StripLeftSpec(s: string)
    ensures var r := StripLeft(s);
      && |r| <= |s| && r == s[|s| - |r|..]
      && (forall k :: 0 <= k < |s| - |r| ==> IsSpace(s[k]))
      && (r == [] || !IsSpace(r[0]))
  {
    if s != [] && IsSpace(s[0]) {
      var t := s[1..];
      StripLeftSpec(t);
      var r := StripLeft(t);
      assert StripLeft(s) == r;
      assert t[|t| - |r|..] == s[|s| - |r|..];
      forall k | 0 <= k < |s| - |r|
        ensures IsSpace(s[k])
      {
        if k > 0 {
          assert s[k] == t[k - 1];
        }
      }
    }
  }

  /** `rstrip` cuts off the trailing spaces and nothing more. */
  lemma {:induction false} StripRightSpec(s: string)
    ensures var r := StripRight(s);
      && |r| <= |s| && r == s[..|r|]
      && (forall k :: |r| <= k < |s| ==> IsSpace(s[k]))
      && (r == [] || !IsSpace(r[|r| - 1]))
  {
    if s != [] && IsSpace(s[|s| - 1]) {
      var t := s[..|s| - 1];
      StripRightSpec(t);
      var r := StripRight(t);
      assert StripRight(s) == r;
      assert t[..|r|] == s[..|r|];
      forall k | |r| <= k < |s|
        ensures IsSpace(s[k])
      {
        if k < |s| - 1 {
          assert s[k] == t[k];
        }
      }
    }
  }

  /** `r` is the stretch of `s` from `i` on between the leading and the
      trailing spaces: it neither starts nor ends with a space, and only
      spaces lie outside it. */
  ghost predicate Trimmed(s: string, i: int, r: string)
  {
    && 0 <= i && i + |r| <= |s| && r == s[i..i + |r|]
    && (r == [] || (!IsSpace(r[0]) && !IsSpace(r[|r| - 1])))
    && (forall k :: 0 <= k < i ==> IsSpace(s[k]))
    && (forall k :: i + |r| <= k < |s| ==> IsSpace(s[k]))
  }

  /** `strip` leaves the stretch of `s` between the leading and the trailing
      spaces, and only spaces were cut off on either side. */
  lemma StripSpec(s: string)
    ensures Trimmed(s, |s| - |StripLeft(s)|, Strip(s))
  {
    var l := StripLeft(s);
    StripLeftSpec(s);
    StripRightSpec(l);
    var r := StripRight(l);
    var i := |s| - |l|;
    assert l == s[i..];
    assert r == s[i..i + |r|] by {
      assert r == l[..|r|];
    }
    assert r != [] ==> !IsSpace(r[0]) by {
      if r != [] {
        assert r[0] == l[0];
      }
    }
    forall k | i + |r| <= k < |s|
      ensures IsSpace(s[k])
    {
      assert s[k] == l[k - i];
    }
    assert Trimmed(s, i, r);
  }

  /** Stripping twice is stripping once. */
  lemma StripIdempotent(s: string)
    ensures Strip(Strip(s)) == Strip(s)
  {
    var r := Strip(s);
    StripSpec(s);
    if r != [] {
      assert StripLeft(r) == r;
      assert StripRight(r) == r;
    }
  }

  /** The cleaned-up name of an entry. */
  function CleanName(bs: seq<byte>): string
  {
    Strip(DecodeIgnore(bs))
  }

  /** `str.isprintable()` for characters below 0x80: everything from space to
      tilde. */
  predicate IsPrintable(s: string)
  {
    forall i :: 0 <= i < |s| ==> 0x20 <= s[i] as int <= 0x7E
  }

  /** The sanity check an entry's name must pass to be kept. */
  predicate Keeps(name: string)
  {
    IsPrintable(name) && |name| >= 2
  }

  // ---------------------------------------------------------------------------
  // One entry.

  /** What one pass of the loop body does at `idx`: it breaks, or it moves to
      the next entry, having kept a variable or not. */
  datatype Outcome = Stop | Continue(kept: Option<Variable>, next: nat)

  /** The entry at `idx` decodes to `v`: the name is the cleaned-up name bytes,
      the address the two bytes after the name, low byte first, and the bank
      the third. */
  ghost predicate DecodesAt(data: seq<byte>, idx: nat, v: Variable)
  {
    idx < |data| && idx + 5 + data[idx] as int <= |data|
    && var len := data[idx] as int;
    v.name == CleanName(data[idx + 1..idx + 1 + len])
    && v.address == data[idx + 1 + len] as int + 256 * data[idx + 2 + len] as int
    && v.bank == data[idx + 3 + len]
  }

  /** One pass of the loop body at `idx`, on values. */
  function EntryAt(data: seq<byte>, idx: nat): (r: Outcome)
    requires idx < |data|
    ensures r.Continue? ==> r.next > idx
  {
    var nameLen := data[idx] as int;
    var start := idx + 1;
    if nameLen == 0 || start + nameLen > |data| then Stop
    else
      var varName := CleanName(data[start..start + nameLen]);
      var tail := start + nameLen;
      if tail + 4 > |data| then Stop
      else
        var address := LittleEndian16(data[tail], data[tail + 1]);
        var bankType := data[tail + 2];
        Continue(if Keeps(varName) then Some(Variable(varName, address, bankType)) else None, tail + 4)
  }

  /** The loop breaks exactly on a zero length byte or when the name and the
      four-byte tail do not fit. Otherwise it moves past both, and keeps the
      entry exactly when its cleaned-up name passes the check; a kept entry
      decodes to its variable. */
  lemma EntryShape(data: seq<byte>, idx: nat)
    requires idx < |data|
    ensures EntryAt(data, idx).Stop? <==> data[idx] == 0 || idx + 5 + data[idx] as int > |data|
    ensures var r := EntryAt(data, idx);
      r.Continue? ==>
        && r.next == idx + 5 + data[idx] as int
        && (r.kept.Some? <==> Keeps(CleanName(data[idx + 1..idx + 1 + data[idx] as int])))
        && (r.kept.Some? ==> DecodesAt(data, idx, r.kept.value))
  {
  }

  /** The variables the loop collects from position `idx` on. */
  function ParseFrom(data: seq<byte>, idx: nat): seq<Variable>
    decreases |data| - idx
  {
    if idx >= |data| then []
    else
      match EntryAt(data, idx)
      case Stop => []
      case Continue(kept, next) =>
        (if kept.Some? then [kept.value] else []) + ParseFrom(data, next)
  }

  /** The variable an entry adds to the list, if any. */
  function Kept(r: Outcome): seq<Variable>
  {
    if r.Continue? && r.kept.Some? then [r.kept.value] else []
  }


  lemma ParseFromStep(data: seq<byte>, idx: nat)
    requires idx < |data|
    ensures EntryAt(data, idx).Stop? ==> ParseFrom(data, idx) == []
    ensures EntryAt(data, idx).Continue? ==>
      ParseFrom(data, idx) == Kept(EntryAt(data, idx)) + ParseFrom(data, EntryAt(data, idx).next)
  {
  }

  /** Sequence concatenation is associative. Stated on its own so that the
      solver meets it once, for three named pieces, instead of inside the
      larger step proof below. */
  lemma ConcatAssociates<T>(a: seq<T>, b: seq<T>, c: seq<T>)
    ensures a + (b + c) == (a + b) + c
  {
  }

  /** A pass of the loop that breaks leaves the list complete. */
  lemma ReadEntriesStop(variables: seq<Variable>, data: seq<byte>, idx: nat, start: nat)
    requires idx < |data| && EntryAt(data, idx).Stop?
    requires variables + ParseFrom(data, idx) == ParseFrom(data, start)
    ensures variables == ParseFrom(data, start)
  {
    ParseFromStep(data, idx);
    assert variables + [] == variables;
  }

  /** A pass of the loop that goes on adds the kept variable, if any, and moves
      to the next entry, keeping the list collected so far plus what is still
      to come unchanged. */
  lemma ReadEntriesStep(before: seq<Variable>, after: seq<Variable>, data: seq<byte>, idx: nat, start: nat)
    requires idx < |data| && EntryAt(data, idx).Continue?
    requires before + ParseFrom(data, idx) == ParseFrom(data, start)
    requires after == before + Kept(EntryAt(data, idx))
    ensures after + ParseFrom(data, EntryAt(data, idx).next) == ParseFrom(data, start)
  {
    ParseFromStep(data, idx);
    var outcome := EntryAt(data, idx);
    var kept, rest := Kept(outcome), ParseFrom(data, outcome.next);
    assert ParseFrom(data, idx) == kept + rest;
    ConcatAssociates(before, kept, rest);
  }

  /** The whole result: nothing without a `z`, otherwise the entries from the
      byte right after the first `z`. */
  function ParseSyc(data: seq<byte>): seq<Variable>
  {
    match FindFrom(data, Magic, 0)
    case None => []
    case Some(z) => ParseFrom(data, z + 1)
  }

  /** Without a `z` there are no variables. */
  lemma ParseSycWithoutMagic(data: seq<byte>)
    requires forall i :: 0 <= i < |data| ==> data[i] != Magic
    ensures ParseSyc(data) == []
  {
    if FindFrom(data, Magic, 0).Some? {
      assert false;
    }
  }

  /** With a `z`, the variables are the entries read from the byte right after
      the first one. */
  lemma ParseSycFromFirstMagic(data: seq<byte>, z: nat)
    requires z < |data| && data[z] == Magic
    requires forall j :: 0 <= j < z ==> data[j] != Magic
    ensures ParseSyc(data) == ParseFrom(data, z + 1)
  {
    var found := FindFrom(data, Magic, 0);
    assert found.Some?;
    assert found.value == z;
  }

  /** One pass of the loop body of `parse_syc_file`: read the length byte,
      break on zero or when the name does not fit, clean up the name, break
      when the four-byte tail does not fit, read the address low byte first
      and the bank, and keep the variable when its name passes the check. */
  method ReadEntry(data: seq<byte>, idx: nat) returns (outcome: Outcome)
    requires idx < |data|
    ensures outcome == EntryAt(data, idx)
  {
    var at := idx;
    var nameLen := data[at] as int;
    at := at + 1;
    if nameLen == 0 || at + nameLen > |data| {
      return Stop;
    }
    var varName := CleanName(data[at..at + nameLen]);
    at := at + nameLen;
    if at + 4 > |data| {
      return Stop;
    }
    var address := LittleEndian16(data[at], data[at + 1]);
    var bankType := data[at + 2];
    at := at + 4;
    var kept := None;
    if Keeps(varName) {
      kept := Some(Variable(varName, address, bankType));
    }
    outcome := Continue(kept, at);
  }

  /** The loop of `parse_syc_file`: entries are read from `start` on until one
      of the two `break`s or the end of the buffer. */
  method ReadEntries(data: seq<byte>, start: nat) returns (variables: seq<Variable>)
    ensures variables == ParseFrom(data, start)
  {
    var idx := start;
    variables := [];
    while idx < |data|
      invariant variables + ParseFrom(data, idx) == ParseFrom(data, start)
      decreases |data| - idx
    {
      var outcome := ReadEntry(data, idx);
      if outcome.Stop? {
        ReadEntriesStop(variables, data, idx, start);
        return;
      }
      ghost var before := variables;
      if outcome.kept.Some? {
        variables := variables + [outcome.kept.value];
      }
      ReadEntriesStep(before, variables, data, idx, start);
      idx := outcome.next;
    }
    assert variables + [] == variables;
  }

  /** `parse_syc_file`: nothing without a `z`, otherwise the entries read from
      the byte right after the first one. */
  method ParseSycFile(data: seq<byte>) returns (variables: seq<Variable>)
    ensures variables == ParseSyc(data)
  {
    var startIdx := FindFrom(data, Magic, 0);
    if startIdx.None? {
      return [];
    }
    variables := ReadEntries(data, startIdx.value + 1);
  }

  // ---------------------------------------------------------------------------
  // Where the variables come from.

  /** The positions of the kept entries, from `idx` on. */
  ghost function KeptPositions(data: seq<byte>, idx: nat): seq<nat>
    decreases |data| - idx
  {
    if idx >= |data| then []
    else
      match EntryAt(data, idx)
      case Stop => []
      case Continue(kept, next) =>
        (if kept.Some? then [idx] else []) + KeptPositions(data, next)
  }

  /** The k-th variable is the entry decoded at the k-th kept position; the
      positions lie in the buffer from `idx` on and climb by at least six bytes
      from one kept entry to the next, so the variables keep file order. */
  lemma {:induction false} ParseFromPositions(data: seq<byte>, idx: nat)
    ensures var vs, ps := ParseFrom(data, idx), KeptPositions(data, idx);
      && |ps| == |vs|
      && (forall k :: 0 <= k < |ps| ==> idx <= ps[k] && DecodesAt(data, ps[k], vs[k]))
      && (forall k :: 0 <= k < |ps| - 1 ==> ps[k] + 6 <= ps[k + 1])
    decreases |data| - idx
  {
    if idx < |data| {
      var r := EntryAt(data, idx);
      if r.Continue? {
        EntryShape(data, idx);
        ParseFromPositions(data, r.next);
        var vs, ps := ParseFrom(data, r.next), KeptPositions(data, r.next);
        if r.kept.Some? {
          assert ParseFrom(data, idx) == [r.kept.value] + vs;
          assert KeptPositions(data, idx) == [idx] + ps;
          assert ps != [] ==> ps[0] >= r.next;
        }
      }
    }
  }
}
