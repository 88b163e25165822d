/** The memory sections of a symbol file and the footer literals that close them.
    All three scanning scripts share these tables. */
module Sections {
  import opened Bytes

  /** `actual_sections`: the five memory areas in file order, then `EOF` for
      whatever follows the last footer. */
  datatype Section = RAM | Bits | SFR | Konstanten | XRAM | EOF

  const ActualSections: seq<Section> := [RAM, Bits, SFR, Konstanten, XRAM, EOF]

  /** `current_section` once `section_idx` footers have been passed: it follows
      the index through the table and stays at `EOF` once the index runs past
      the end, while the index itself keeps counting. */
  function SectionOf(sectionIdx: nat): (s: Section)
    ensures sectionIdx < |ActualSections| ==> s == ActualSections[sectionIdx]
    ensures sectionIdx >= |ActualSections| - 1 ==> s == EOF
  {
    if sectionIdx < |ActualSections| then ActualSections[sectionIdx] else EOF
  }

  /** `section_footers`, the byte strings that close the five sections, in the
      order the scanner tries them. */
  const SectionFooters: seq<seq<byte>> := [
    // "Liste der RAM-Daten"
    [0x4C, 0x69, 0x73, 0x74, 0x65, 0x20, 0x64, 0x65, 0x72, 0x20, 0x52, 0x41, 0x4D, 0x2D, 0x44, 0x61, 0x74, 0x65, 0x6E],
    // "Bit-Liste"
    [0x42, 0x69, 0x74, 0x2D, 0x4C, 0x69, 0x73, 0x74, 0x65],
    // "SFR-Liste"
    [0x53, 0x46, 0x52, 0x2D, 0x4C, 0x69, 0x73, 0x74, 0x65],
    // "Liste der Konstanten"
    [0x4C, 0x69, 0x73, 0x74, 0x65, 0x20, 0x64, 0x65, 0x72, 0x20, 0x4B, 0x6F, 0x6E, 0x73, 0x74, 0x61, 0x6E, 0x74, 0x65, 0x6E],
    // "Liste der XRAM-Daten"
    [0x4C, 0x69, 0x73, 0x74, 0x65, 0x20, 0x64, 0x65, 0x72, 0x20, 0x58, 0x52, 0x41, 0x4D, 0x2D, 0x44, 0x61, 0x74, 0x65, 0x6E]
  ]

  /** The number of entries in `section_footers`. */
  const FooterCount: nat := 5

  /** Footer `k`. Every footer opens with `L`, `B` or `S`, so its first byte is
      at least 0x42. */
  function Footer(k: nat): (f: seq<byte>)
    requires k < FooterCount
    ensures |f| > 0 && f[0] >= 0x42
  {
    SectionFooters[k]
  }

  /** The name bytes the scanner accepts: `A`-`Z`, `a`-`z`, `0`-`9`, `_` and `+`. */
  predicate IsNameByte(b: byte)
  {
    (0x41 <= b <= 0x5A) || (0x61 <= b <= 0x7A) || (0x30 <= b <= 0x39) || b == 0x5F || b == 0x2B
  }
}
