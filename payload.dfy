/** `generate_ebusd_lines`: the (section, high address byte) table that gives a
    register's request payload, and the read and write lines that carry the
    payload behind its checksum. */
module EbusdLines {
  import opened Bytes
  import opened Checksum
  import opened Sections
  import opened Text

  /** `cc = address >> 8`. */
  function HighByte(address: u16): (cc: int)
    ensures 0 <= cc < 256 && 256 * cc <= address < 256 * cc + 256
  {
    address / 256
  }

  /** `yy = address & 0xFF`. */
  function LowByte(address: u16): (yy: int)
    ensures 0 <= yy < 256 && 256 * HighByte(address) + yy == address
  {
    address % 256
  }

  /** The if/elif table of `generate_ebusd_lines`: the payload as upper-case hex
      text, or None when the section has no rule for this high byte. */
  function DerivePayload(section: Section, address: u16): (p: Option<string>)
    ensures p.Some? ==> IsHexString(p.value) && |p.value| >= 4
    ensures p.Some? ==> p.value[|p.value| - 2..] == HexPair(LowByte(address))
    ensures section == Bits || section == EOF ==> p.None?
  {
    var cc := HighByte(address);
    var yyHex := HexPair(LowByte(address));
    match section
    case RAM => if cc == 0x00 then Some("01" + yyHex) else None
    case Konstanten =>
      if cc == 0x00 then Some("02" + yyHex)
      else if cc == 0x01 then Some("060102" + yyHex)
      else if cc == 0x02 then Some("060202" + yyHex)
      else if cc == 0x03 then Some("060302" + yyHex)
      else None
    case XRAM => if cc == 0xF0 then Some("03" + yyHex) else None
    case SFR => if cc == 0x00 then Some("04" + yyHex) else None
    case Bits => None
    case EOF => None
  }

  /** One mapping rule: registers of `section` whose high address byte is `cc`
      are requested with `prefix` followed by the low address byte. */
  datatype Rule = Rule(section: Section, cc: int, prefix: seq<byte>)

  /** The seven mapping rules as a table. */
  const Rules: seq<Rule> := [
    Rule(RAM, 0x00, [0x01]),
    Rule(Konstanten, 0x00, [0x02]),
    Rule(Konstanten, 0x01, [0x06, 0x01, 0x02]),
    Rule(Konstanten, 0x02, [0x06, 0x02, 0x02]),
    Rule(Konstanten, 0x03, [0x06, 0x03, 0x02]),
    Rule(XRAM, 0xF0, [0x03]),
    Rule(SFR, 0x00, [0x04])
  ]

  /** The prefix of the first rule from index `from` on for (`section`, `cc`). */
  function RuleFor(section: Section, cc: int, from: nat): (r: Option<seq<byte>>)
    requires from <= |Rules|
    ensures r.Some? <==> exists i :: from <= i < |Rules| && Rules[i].section == section && Rules[i].cc == cc
    ensures r.Some? ==> exists i :: from <= i < |Rules| && Rules[i].section == section && Rules[i].cc == cc && Rules[i].prefix == r.value
    decreases |Rules| - from
  {
    if from == |Rules| then None
    else if Rules[from].section == section && Rules[from].cc == cc then Some(Rules[from].prefix)
    else RuleFor(section, cc, from + 1)
  }

  lemma HexOfOne(b: byte)
    ensures ToHex([b]) == Hex2(b)
  {
    assert [b][1..] == [];
  }

  lemma HexOfThree(a: byte, b: byte, c: byte)
    ensures ToHex([a, b, c]) == Hex2(a) + Hex2(b) + Hex2(c)
  {
    assert [a, b, c][1..] == [b, c];
    assert [b, c][1..] == [c];
    HexOfOne(c);
  }

  lemma PayloadFromShortRule(i: nat, address: u16)
    requires i == 0 || i == 1 || i == 5 || i == 6
    requires Rules[i].cc == HighByte(address)
    ensures DerivePayload(Rules[i].section, address) == Some(ToHex(Rules[i].prefix) + HexPair(LowByte(address)))
  {
    HexOfOne(Rules[i].prefix[0]);
    assert Hex2(0x01) == "01" && Hex2(0x02) == "02" && Hex2(0x03) == "03" && Hex2(0x04) == "04";
  }

  lemma PayloadFromLongRule(i: nat, address: u16)
    requires 2 <= i <= 4
    requires Rules[i].cc == HighByte(address)
    ensures DerivePayload(Rules[i].section, address) == Some(ToHex(Rules[i].prefix) + HexPair(LowByte(address)))
  {
    LongPrefixText(i);
  }

  /** The three-byte prefixes in hex. */
  lemma LongPrefixText(i: nat)
    requires 2 <= i <= 4
    ensures ToHex(Rules[i].prefix) == if i == 2 then "060102" else if i == 3 then "060202" else "060302"
  {
    var p := Rules[i].prefix;
    HexOfThree(p[0], p[1], p[2]);
    assert Hex2(0x06) == "06" && Hex2(0x02) == "02";
    if i == 2 {
      assert Hex2(0x01) == "01";
      assert "06" + "01" + "02" == "060102";
    } else if i == 3 {
      assert "06" + "02" + "02" == "060202";
    } else {
      assert Hex2(0x03) == "03";
      assert "06" + "03" + "02" == "060302";
    }
  }

  /** Each rule gives its section's payload for its high byte: the rule's
      prefix in hex, then the low byte in hex. */
  lemma PayloadFromRule(i: nat, address: u16)
    requires i < |Rules| && Rules[i].cc == HighByte(address)
    ensures DerivePayload(Rules[i].section, address) == Some(ToHex(Rules[i].prefix) + HexPair(LowByte(address)))
  {
    if 2 <= i <= 4 {
      PayloadFromLongRule(i, address);
    } else {
      PayloadFromShortRule(i, address);
    }
  }

  /** A payload is only derived where some rule applies. */
  lemma PayloadNeedsRule(section: Section, address: u16)
    requires DerivePayload(section, address).Some?
    ensures RuleFor(section, HighByte(address), 0).Some?
  {
    var cc := HighByte(address);
    var i :=
      if section == RAM then 0
      else if section == Konstanten then 1 + cc
      else if section == XRAM then 5
      else 6;
    assert Rules[i].section == section && Rules[i].cc == cc;
  }

  /** The if/elif chain is the rule table: a payload exists exactly when a rule
      applies, and it is the hex text of the rule's prefix followed by the low
      address byte. */
  lemma PayloadFollowsRules(section: Section, address: u16)
    ensures DerivePayload(section, address) ==
      match RuleFor(section, HighByte(address), 0)
      case None => None
      case Some(prefix) => Some(ToHex(prefix) + HexPair(LowByte(address)))
  {
    var r := RuleFor(section, HighByte(address), 0);
    if r.Some? {
      var i :| 0 <= i < |Rules| && Rules[i].section == section && Rules[i].cc == HighByte(address)
        && Rules[i].prefix == r.value;
      PayloadFromRule(i, address);
    } else if DerivePayload(section, address).Some? {
      PayloadNeedsRule(section, address);
    }
  }

  /** `f'"{crc_hex}{payload}"'`. */
  function Quote(s: string): string
  {
    "\"" + s + "\""
  }

  /** The checksum of the payload as two hex digits, then the payload. */
  function Telegram(payload: string): string
    requires IsHexString(payload)
  {
    Hex2(Crc(FromHex(payload))) + payload
  }

  /** The comma-separated fields of the read line
      `r,,{name},,,,,"{crc_hex}{payload}",,s,_8_Skip,,, ,,s,_{name},,,`. */
  function ReadFields(name: string, telegram: string): seq<string>
  {
    ["r", "", name, "", "", "", "", Quote(telegram), "", "s", "_8_Skip", "", "", " ", "", "s", "_" + name, "", "", ""]
  }

  /** The comma-separated fields of the write line
      `w,,{name},,,,,"{crc_hex}{payload}",,m,_{name},,,`. */
  function WriteFields(name: string, telegram: string): seq<string>
  {
    ["w", "", name, "", "", "", "", Quote(telegram), "", "m", "_" + name, "", "", ""]
  }

  /** `generate_ebusd_lines`: the read line and the write line, separated by a
      newline, or None when no rule applies. */
  function GenerateEbusdLines(section: Section, name: string, address: u16): (r: Option<string>)
    ensures r.Some? <==> DerivePayload(section, address).Some?
  {
    match DerivePayload(section, address)
    case None => None
    case Some(payload) =>
      var telegram := Telegram(payload);
      Some(Join([Join(ReadFields(name, telegram), ','), Join(WriteFields(name, telegram), ',')], '\n'))
  }

  /** The quoted telegram decodes to the payload's checksum followed by the
      payload bytes. */
  lemma TelegramCarriesChecksum(payload: string)
    requires IsHexString(payload)
    ensures IsHexString(Telegram(payload))
    ensures FromHex(Telegram(payload)) == [Crc(FromHex(payload))] + FromHex(payload)
  {
    var c := Crc(FromHex(payload));
    var h := Hex2(c);
    assert IsHexString(h);
    assert FromHex(h) == [PairValue(h[0], h[1])] by {
      assert h[2..] == [];
    }
    Hex2RoundTrip(c);
    FromHexAppend(h, payload);
  }

  /** Quoted hex text holds no comma and no newline. */
  lemma QuotedHexAvoids(s: string, c: char)
    requires IsHexString(s)
    requires c == ',' || c == '\n'
    ensures c !in Quote(s)
  {
    var q := Quote(s);
    forall i | 0 <= i < |q| ensures q[i] != c {
      if 0 < i < |q| - 1 {
        assert q[i] == s[i - 1];
      }
    }
  }

  /** A character that is neither in the name nor in the quoted telegram is in
      none of the fields. */
  lemma FieldsAvoid(name: string, t: string, c: char)
    requires c == ',' || c == '\n'
    requires c !in name && c !in Quote(t)
    ensures forall i :: 0 <= i < |ReadFields(name, t)| ==> c !in ReadFields(name, t)[i]
    ensures forall i :: 0 <= i < |WriteFields(name, t)| ==> c !in WriteFields(name, t)[i]
  {
    assert c !in "_" + name;
  }

  /** Read back, the output is two lines whose comma-separated fields are the
      read fields and the write fields: each names the register and carries the
      quoted telegram. */
  lemma {:induction false} LinesCarryTelegram(section: Section, name: string, address: u16)
    requires ',' !in name && '\n' !in name
    requires GenerateEbusdLines(section, name, address).Some?
    ensures var payload := DerivePayload(section, address).value;
      var lines := Split(GenerateEbusdLines(section, name, address).value, '\n');
      && |lines| == 2
      && Split(lines[0], ',') == ReadFields(name, Telegram(payload))
      && Split(lines[1], ',') == WriteFields(name, Telegram(payload))
  {
    var payload := DerivePayload(section, address).value;
    var t := Telegram(payload);
    TelegramCarriesChecksum(payload);
    QuotedHexAvoids(t, ',');
    QuotedHexAvoids(t, '\n');
    var rf, wf := ReadFields(name, t), WriteFields(name, t);
    FieldsAvoid(name, t, ',');
    FieldsAvoid(name, t, '\n');
    SplitJoin(rf, ',');
    SplitJoin(wf, ',');
    var r, w := Join(rf, ','), Join(wf, ',');
    JoinAvoids(rf, ',', '\n');
    JoinAvoids(wf, ',', '\n');
    assert forall i :: 0 <= i < |[r, w]| ==> '\n' !in [r, w][i];
    SplitJoin([r, w], '\n');
  }

  /** A RAM register at 0x0010 (address bytes `10 00`) gets payload `0110`,
      whose checksum is 0x4C; the bytes `00 10` read low byte first are
      0x1000, whose high byte has no RAM rule. */
  lemma RamRegisterExample()
    ensures DerivePayload(RAM, 0x0010) == Some("0110")
    ensures Telegram("0110") == "4C0110"
    ensures LittleEndian16(0x00, 0x10) == 0x1000 && DerivePayload(RAM, 0x1000) == None
  {
    assert HighByte(0x1000) == 0x10;
    assert HighByte(0x0010) == 0 && LowByte(0x0010) == 0x10;
    assert HexPair(0x10) == "10";
    assert "01" + "10" == "0110";
    var s := "0110";
    assert s[2..] == "10";
    assert FromHex(s) == [0x01, 0x10];
    assert Rounds8(0x01) == 0x5C;
    assert [0x01, 0x10][1..] == [0x10];
    assert Crc([0x01, 0x10]) == Absorb(0x5C ^ 0x10, []);
    assert Hex2(0x4C) == "4C";
  }
}
