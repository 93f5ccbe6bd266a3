/** hw_table_config_parser.py: packs a hardware description into 32-bit words and prints them as a
    block-RAM initialisation file. */
module HwTable {
  import opened Bytes

  /** One section of hw_config.ini; `first` and `second` are the two kind-specific fields
      (alignment and sg_len_bit for DMA engines, mem_size and mem_type for memories). */
  datatype Section = Section(
    name: string, bar: int, major: int, minor: int, mode: int, vendor: int, peripheral: int,
    first: int, second: int, lower: nat, upper: nat)

  datatype Project = Project(id: int, major: int, minor: int)

  datatype Config = Config(project: Option<Project>, sections: seq<Section>)

  predicate StartsWith(s: string, prefix: string) {
    |prefix| <= |s| && s[..|prefix|] == prefix
  }

  /** The sections whose names start with the prefix, in file order. */
  function Group(secs: seq<Section>, prefix: string): seq<Section> {
    if secs == [] then []
    else
      var s := secs[|secs| - 1];
      Group(secs[..|secs| - 1], prefix) + if StartsWith(s.name, prefix) then [s] else []
  }

  /** The name is the prefix followed by something. */
  predicate HasPrefix(name: string, prefix: string) {
    |prefix| <= |name| && forall c :: 0 <= c < |prefix| ==> name[c] == prefix[c]
  }

  /** The places, in file order, of the sections whose names have the prefix. */
  predicate NamedAt(secs: seq<Section>, prefix: string, idx: seq<nat>) {
    && Increasing(idx) && (forall i :: 0 <= i < |idx| ==> idx[i] < |secs|)
    && forall k :: 0 <= k < |secs| ==> (HasPrefix(secs[k].name, prefix) <==> k in idx)
  }

  /** The group is what stands at these places. */
  predicate StandsAt(secs: seq<Section>, idx: seq<nat>, group: seq<Section>) {
    |group| == |idx| && forall i :: 0 <= i < |idx| ==> idx[i] < |secs| && group[i] == secs[idx[i]]
  }

  lemma PrefixMeans(name: string, prefix: string)
    ensures StartsWith(name, prefix) <==> HasPrefix(name, prefix)
  {
    if HasPrefix(name, prefix) { assert name[..|prefix|] == prefix; }
  }

  lemma NamedSnoc(secs: seq<Section>, prefix: string, idx: seq<nat>, s: Section)
    requires NamedAt(secs, prefix, idx)
    ensures NamedAt(secs + [s], prefix, if HasPrefix(s.name, prefix) then idx + [|secs|] else idx)
  {
    var secs', idx' := secs + [s], if HasPrefix(s.name, prefix) then idx + [|secs|] else idx;
    if HasPrefix(s.name, prefix) { assert |secs| in idx'; }
    forall k | 0 <= k < |secs'| ensures HasPrefix(secs'[k].name, prefix) <==> k in idx' {
      if k < |secs| { assert secs'[k] == secs[k]; }
    }
  }

  lemma StandsSnoc(secs: seq<Section>, idx: seq<nat>, group: seq<Section>, s: Section)
    requires StandsAt(secs, idx, group)
    ensures StandsAt(secs + [s], idx, group) && StandsAt(secs + [s], idx + [|secs|], group + [s])
  {
  }

  lemma GroupSnoc(secs: seq<Section>, s: Section, prefix: string)
    ensures Group(secs + [s], prefix) == Group(secs, prefix) + if HasPrefix(s.name, prefix) then [s] else []
  {
    assert (secs + [s])[..|secs|] == secs;
    PrefixMeans(s.name, prefix);
  }

  /** The group is every section with the prefix, once, in file order. */
  ghost predicate IsGroup(secs: seq<Section>, prefix: string, group: seq<Section>) {
    exists idx: seq<nat> :: NamedAt(secs, prefix, idx) && StandsAt(secs, idx, group)
  }

  lemma IsGroupSnoc(secs: seq<Section>, prefix: string, group: seq<Section>, s: Section)
    requires IsGroup(secs, prefix, group)
    ensures IsGroup(secs + [s], prefix, group + if HasPrefix(s.name, prefix) then [s] else [])
  {
    var idx: seq<nat> :| NamedAt(secs, prefix, idx) && StandsAt(secs, idx, group);
    NamedSnoc(secs, prefix, idx, s);
    StandsSnoc(secs, idx, group, s);
    if HasPrefix(s.name, prefix) {
      IsGroupBy(secs + [s], prefix, group + [s], idx + [|secs|]);
    } else {
      IsGroupBy(secs + [s], prefix, group, idx);
      assert group + [] == group;
    }
  }

  lemma IsGroupBy(secs: seq<Section>, prefix: string, group: seq<Section>, idx: seq<nat>)
    requires NamedAt(secs, prefix, idx) && StandsAt(secs, idx, group)
    ensures IsGroup(secs, prefix, group)
  {
  }

  lemma EmptyGroup(prefix: string)
    ensures IsGroup([], prefix, [])
  {
    assert NamedAt([], prefix, []) && StandsAt([], [], []);
  }

  lemma {:induction false} GroupExact(secs: seq<Section>, prefix: string)
    ensures IsGroup(secs, prefix, Group(secs, prefix))
  {
    if secs == [] {
      EmptyGroup(prefix);
    } else {
      var front, s := Front(secs), Last(secs);
      GroupExact(front, prefix);
      IsGroupSnoc(front, prefix, Group(front, prefix), s);
      GroupSnoc(front, s, prefix);
      assert secs == front + [s];
    }
  }

  datatype Kind = Dma | Mem | Peri

  /** What the table can say about a section: every field cut to its width. */
  datatype Entry = Entry(
    kind: Kind, bar: nat, major: nat, minor: nat, mode: nat, vendor: nat, peripheral: nat,
    first: nat, second: nat, lower: nat, upper: nat)

  function Cut(s: Section, kind: Kind): Entry {
    Entry(kind, s.bar % 16, s.major % 32, s.minor % 8, s.mode % 16, s.vendor % 16, s.peripheral % 16,
          match kind case Dma => s.first % 256 case Mem => s.first % 65536 case Peri => 0,
          match kind case Dma => s.second % 256 case Mem => s.second % 16 case Peri => 0,
          s.lower, s.upper)
  }

  predicate InRange(e: Entry) {
    FieldsInRange(e) && e.lower < WORD32 && e.upper < WORD32
  }

  predicate FieldsInRange(e: Entry) {
    && e.bar < 16 && e.major < 32 && e.minor < 8 && e.mode < 16 && e.vendor < 16 && e.peripheral < 16
    && match e.kind
       case Dma => e.first < 256 && e.second < 256
       case Mem => e.first < 65536 && e.second < 16
       case Peri => e.first == 0 && e.second == 0
  }

  const WORD32: nat := 0x1_0000_0000

  // ----- Packing ----------------------------------------------------------------------------

  function KindCode(kind: Kind): nat {
    match kind case Dma => 1 case Mem => 2 case Peri => 3
  }

  function BaseInfo(e: Entry): nat {
    e.bar + e.major * 0x100 + e.minor * 0x2000 + e.mode * 0x1_0000 + e.vendor * 0x10_0000
    + e.peripheral * 0x100_0000 + KindCode(e.kind) * 0x1000_0000
  }

  function ExtInfo(e: Entry): nat {
    match e.kind
    case Dma => e.first + e.second * 0x100
    case Mem => e.first + e.second * 0x1_0000
    case Peri => 0
  }

  function Pack(e: Entry): seq<nat> {
    [BaseInfo(e), ExtInfo(e), e.lower, e.upper]
  }

  function PackAll(es: seq<Entry>): seq<nat> {
    if es == [] then [] else PackAll(es[..|es| - 1]) + Pack(es[|es| - 1])
  }

  function CutAll(secs: seq<Section>, kind: Kind): seq<Entry> {
    seq(|secs|, k requires 0 <= k < |secs| => Cut(secs[k], kind))
  }

  /** All entries, DMA engines first, then memories, then peripherals. */
  function Entries(secs: seq<Section>): seq<Entry> {
    CutAll(Group(secs, "dma"), Dma) + CutAll(Group(secs, "mem"), Mem) + CutAll(Group(secs, "peri"), Peri)
  }

  function ProjectInfo(p: Project, sections: nat): nat {
    p.id % 0x1_0000 + p.major % 16 * 0x1_0000 + p.minor % 16 * 0x10_0000 + sections % 256 * 0x100_0000
  }

  const ID_LOWER: nat := 0x4D504153
  const ID_UPPER: nat := 0x0000434F

  function Header(p: Project, sections: nat): seq<nat> {
    [ID_LOWER, ID_UPPER, ProjectInfo(p, sections), 0]
  }

  function Words(p: Project, secs: seq<Section>): seq<nat> {
    Header(p, |Entries(secs)|) + PackAll(Entries(secs))
  }

  // ----- Printing ---------------------------------------------------------------------------

  const DIGITS := "0123456789abcdef"

  function HexDigits(n: nat): (s: string)
    ensures |s| > 0
  {
    if n < 16 then [DIGITS[n]] else HexDigits(n / 16) + [DIGITS[n % 16]]
  }

  function Pad(s: string, width: nat): string
    decreases width - |s|
  {
    if |s| >= width then s else Pad("0" + s, width)
  }

  /** "{0:08x}".format(n) */
  function Hex8(n: nat): string {
    Pad(HexDigits(n), 8)
  }

  function Line(n: nat): string {
    Hex8(n) + ",\n"
  }

  function Lines(words: seq<nat>): string {
    if words == [] then "" else Lines(words[..|words| - 1]) + Line(words[|words| - 1])
  }

  /** Lines of words; unless `commas`, the last one has none. */
  function Text(words: seq<nat>, commas: bool): string {
    if commas || words == [] then Lines(words)
    else Lines(words[..|words| - 1]) + (Hex8(words[|words| - 1]) + "\n")
  }

  /** The vector part of the file; only the last word of the last peripheral lacks its comma. */
  function Body(p: Project, secs: seq<Section>): string {
    Text(Words(p, secs), Group(secs, "peri") == [])
  }

  const PREAMBLE := "memory_initialization_radix=16;\n" + "memory_initialization_vector=\n"

  // ----- The script -------------------------------------------------------------------------

  /** Where the first word has each field of the section, bits 4 to 7 being zero. */
  predicate BaseLayout(s: Section, kind: Kind, base: nat) {
    && base < 0x1_0000_0000
    && base % 0x100 == s.bar % 16
    && base / 0x100 % 32 == s.major % 32
    && base / 0x2000 % 8 == s.minor % 8
    && base / 0x1_0000 % 16 == s.mode % 16
    && base / 0x10_0000 % 16 == s.vendor % 16
    && base / 0x100_0000 % 16 == s.peripheral % 16
    && base / 0x1000_0000 == match kind case Dma => 1 case Mem => 2 case Peri => 3
  }

  /** And the second. */
  predicate ExtLayout(s: Section, kind: Kind, ext: nat) {
    match kind
    case Dma => ext % 256 == s.first % 256 && ext / 256 == s.second % 256
    case Mem => ext % 65536 == s.first % 65536 && ext / 65536 == s.second % 16
    case Peri => ext == 0
  }

  lemma PackedLayout(s: Section, kind: Kind)
    ensures BaseLayout(s, kind, BaseInfo(Cut(s, kind))) && ExtLayout(s, kind, ExtInfo(Cut(s, kind)))
  {
    BaseFields(Cut(s, kind));
    ExtFields(Cut(s, kind));
  }

  /** The two packed words of a section, accumulated field by field. */
  method PackSection(s: Section, kind: Kind) returns (base: nat, ext: nat)
    ensures BaseLayout(s, kind, base) && ExtLayout(s, kind, ext)
    ensures base == BaseInfo(Cut(s, kind)) && ext == ExtInfo(Cut(s, kind))
  {
    PackedLayout(s, kind);
    base := s.bar % 16;
    base := base + s.major % 32 * 0x100;
    base := base + s.minor % 8 * 0x2000;
    base := base + s.mode % 16 * 0x1_0000;
    base := base + s.vendor % 16 * 0x10_0000;
    base := base + s.peripheral % 16 * 0x100_0000;
    base := base + KindCode(kind) * 0x1000_0000;
    match kind
    case Dma =>
      ext := s.first % 256;
      ext := ext + s.second % 256 * 0x100;
    case Mem =>
      ext := s.first % 65536;
      ext := ext + s.second % 16 * 0x1_0000;
    case Peri =>
      ext := 0;
  }

  /** Appends one line; `words` are the words on the lines so far. */
  method WriteWord(text: string, ghost words: seq<nat>, n: nat) returns (more: string)
    requires text == Lines(words)
    ensures more == Lines(words + [n])
  {
    more := text + (Hex8(n) + ",\n");
    assert (words + [n])[..|words|] == words;
  }

  method WriteSection(text: string, ghost words: seq<nat>, s: Section, kind: Kind) returns (more: string)
    requires text == Lines(words)
    ensures more == Lines(words + Pack(Cut(s, kind)))
  {
    var base, ext := PackSection(s, kind);
    more := WriteFour(text, words, base, ext, s.lower, s.upper);
  }

  method WriteFour(text: string, ghost words: seq<nat>, a: nat, b: nat, c: nat, d: nat) returns (more: string)
    requires text == Lines(words)
    ensures more == Lines(words + [a, b, c, d])
  {
    more := WriteWord(text, words, a);
    more := WriteWord(more, words + [a], b);
    more := WriteWord(more, words + [a] + [b], c);
    more := WriteWord(more, words + [a] + [b] + [c], d);
    assert words + [a] + [b] + [c] + [d] == words + [a, b, c, d];
  }

  /** One group of sections, each written as four lines. */
  method WriteGroup(text: string, ghost words: seq<nat>, secs: seq<Section>, kind: Kind) returns (more: string)
    requires text == Lines(words)
    ensures more == Lines(words + PackAll(CutAll(secs, kind)))
  {
    more := text;
    assert words + [] == words;
    for k := 0 to |secs|
      invariant more == Lines(words + PackAll(CutAll(secs[..k], kind)))
    {
      ghost var front := CutAll(secs[..k], kind);
      more := WriteSection(more, words + PackAll(front), secs[k], kind);
      PackAllSnoc(words, secs, kind, k);
    }
    assert secs[..|secs|] == secs;
  }

  lemma PackAllSnoc(words: seq<nat>, secs: seq<Section>, kind: Kind, k: nat)
    requires k < |secs|
    ensures words + PackAll(CutAll(secs[..k + 1], kind))
            == (words + PackAll(CutAll(secs[..k], kind))) + Pack(Cut(secs[k], kind))
  {
    var es := CutAll(secs[..k + 1], kind);
    assert es[..k] == CutAll(secs[..k], kind);
  }

  /** The text after the peripherals in `secs`. */
  function PeripheralText(words: seq<nat>, secs: seq<Section>): string {
    Text(words + PackAll(CutAll(secs, Peri)), secs == [])
  }

  method WriteLast(text: string, ghost words: seq<nat>, s: Section) returns (more: string)
    requires text == Lines(words)
    ensures more == Lines(words + Pack(Cut(s, Peri))[..3]) + (Hex8(s.upper) + "\n")
  {
    var base, ext := PackSection(s, Peri);
    more := WriteWord(text, words, base);
    more := WriteWord(more, words + [base], ext);
    more := WriteWord(more, words + [base] + [ext], s.lower);
    assert words + [base] + [ext] + [s.lower] == words + Pack(Cut(s, Peri))[..3];
    more := more + (Hex8(s.upper) + "\n");
  }

  lemma LastPeripheral(words: seq<nat>, secs: seq<Section>)
    requires secs != []
    ensures var n := |secs| - 1;
            PeripheralText(words, secs)
            == Lines(words + PackAll(CutAll(secs[..n], Peri)) + Pack(Cut(secs[n], Peri))[..3])
               + (Hex8(secs[n].upper) + "\n")
  {
    var n := |secs| - 1;
    PackAllSnoc(words, secs, Peri, n);
    assert secs[..n + 1] == secs;
    LastOfFour(words + PackAll(CutAll(secs[..n], Peri)), Pack(Cut(secs[n], Peri)));
  }

  lemma LastOfFour(front: seq<nat>, four: seq<nat>)
    requires |four| == 4
    ensures Text(front + four, false) == Lines(front + four[..3]) + (Hex8(four[3]) + "\n")
  {
    assert (front + four)[..|front + four| - 1] == front + four[..3];
  }

  /** The last group, whose last line has no comma. */
  method WritePeripherals(text: string, ghost words: seq<nat>, secs: seq<Section>) returns (more: string)
    requires text == Lines(words)
    ensures more == PeripheralText(words, secs)
  {
    more := text;
    assert words + PackAll(CutAll([], Peri)) == words;
    for k := 0 to |secs|
      invariant k < |secs| || secs == [] ==> more == Lines(words + PackAll(CutAll(secs[..k], Peri)))
      invariant k == |secs| && secs != [] ==> more == PeripheralText(words, secs)
    {
      ghost var front := words + PackAll(CutAll(secs[..k], Peri));
      if k == |secs| - 1 {
        more := WriteLast(more, front, secs[k]);
        LastPeripheral(words, secs);
      } else {
        more := WriteSection(more, front, secs[k], Peri);
        PackAllSnoc(words, secs, Peri, k);
      }
    }
  }

  method Classify(secs: seq<Section>) returns (dma: seq<Section>, mem: seq<Section>, peri: seq<Section>)
    ensures IsGroup(secs, "dma", dma) && IsGroup(secs, "mem", mem) && IsGroup(secs, "peri", peri)
    ensures dma == Group(secs, "dma") && mem == Group(secs, "mem") && peri == Group(secs, "peri")
  {
    GroupExact(secs, "dma");
    GroupExact(secs, "mem");
    GroupExact(secs, "peri");
    dma, mem, peri := [], [], [];
    for k := 0 to |secs|
      invariant dma == Group(secs[..k], "dma") && mem == Group(secs[..k], "mem") && peri == Group(secs[..k], "peri")
    {
      assert secs[..k + 1][..k] == secs[..k];
      if StartsWith(secs[k].name, "dma") { dma := dma + [secs[k]]; }
      if StartsWith(secs[k].name, "mem") { mem := mem + [secs[k]]; }
      if StartsWith(secs[k].name, "peri") { peri := peri + [secs[k]]; }
    }
    assert secs[..|secs|] == secs;
  }

  method WriteHeader(p: Project, sections: nat) returns (text: string)
    ensures text == Lines(Header(p, sections))
  {
    var info := p.id % 0x1_0000;
    info := info + p.major % 16 * 0x1_0000;
    info := info + p.minor % 16 * 0x10_0000;
    info := info + sections % 256 * 0x100_0000;
    text := WriteFour("", [], ID_LOWER, ID_UPPER, info, 0);
    assert [] + [ID_LOWER, ID_UPPER, info, 0] == Header(p, sections);
  }

  method WriteGroups(text: string, ghost words: seq<nat>, dma: seq<Section>, mem: seq<Section>, peri: seq<Section>)
    returns (more: string)
    requires text == Lines(words)
    ensures more == PeripheralText(words + PackAll(CutAll(dma, Dma)) + PackAll(CutAll(mem, Mem)), peri)
  {
    more := WriteGroup(text, words, dma, Dma);
    more := WriteGroup(more, words + PackAll(CutAll(dma, Dma)), mem, Mem);
    more := WritePeripherals(more, words + PackAll(CutAll(dma, Dma)) + PackAll(CutAll(mem, Mem)), peri);
  }

  /** The file written; nothing without a [project] section. */
  method Generate(cfg: Config) returns (file: Option<string>)
    ensures cfg.project.None? ==> file.None?
    ensures cfg.project.Some? ==> file == Some(PREAMBLE + Body(cfg.project.value, cfg.sections))
  {
    if cfg.project.None? { return None; }
    var dma, mem, peri := Classify(cfg.sections);
    var text := WriteHeader(cfg.project.value, |dma| + |mem| + |peri|);
    text := WriteGroups(text, Header(cfg.project.value, |dma| + |mem| + |peri|), dma, mem, peri);
    BodyByGroup(cfg.project.value, cfg.sections, dma, mem, peri);
    return Some(PREAMBLE + text);
  }

  lemma {:induction false} PackAllConcat(a: seq<Entry>, b: seq<Entry>)
    ensures PackAll(a + b) == PackAll(a) + PackAll(b)
  {
    if b == [] {
      assert a + b == a;
    } else {
      var n := |b| - 1;
      PackAllConcat(a, b[..n]);
      assert (a + b)[..|a + b| - 1] == a + b[..n];
    }
  }

  /** The words are the header and the three groups in turn. */
  lemma BodyByGroup(p: Project, secs: seq<Section>, dma: seq<Section>, mem: seq<Section>, peri: seq<Section>)
    requires dma == Group(secs, "dma") && mem == Group(secs, "mem") && peri == Group(secs, "peri")
    ensures Body(p, secs)
            == PeripheralText(Header(p, |dma| + |mem| + |peri|) + PackAll(CutAll(dma, Dma)) + PackAll(CutAll(mem, Mem)), peri)
  {
    WordsByGroup(p, secs, dma, mem, peri);
  }

  lemma WordsByGroup(p: Project, secs: seq<Section>, dma: seq<Section>, mem: seq<Section>, peri: seq<Section>)
    requires dma == Group(secs, "dma") && mem == Group(secs, "mem") && peri == Group(secs, "peri")
    ensures Words(p, secs) == Header(p, |dma| + |mem| + |peri|) + PackAll(CutAll(dma, Dma)) + PackAll(CutAll(mem, Mem))
                              + PackAll(CutAll(peri, Peri))
  {
    var d, m, r := CutAll(dma, Dma), CutAll(mem, Mem), CutAll(peri, Peri);
    ThreeGroups(d, m, r);
    Reassociate(Header(p, |dma| + |mem| + |peri|), PackAll(d), PackAll(m), PackAll(r));
  }

  lemma Reassociate(a: seq<nat>, b: seq<nat>, c: seq<nat>, d: seq<nat>)
    ensures a + (b + c + d) == a + b + c + d
  {
  }

  lemma ThreeGroups(d: seq<Entry>, m: seq<Entry>, r: seq<Entry>)
    ensures PackAll(d + m + r) == PackAll(d) + PackAll(m) + PackAll(r)
  {
    PackAllConcat(d + m, r);
    PackAllConcat(d, m);
  }

  // ----- Reading the table back -------------------------------------------------------------

  function DigitValue(c: char): nat {
    if '0' <= c <= '9' then (c - '0') as nat else if 'a' <= c <= 'f' then 10 + (c - 'a') as nat else 0
  }

  function HexValue(s: string): nat {
    if s == "" then 0 else 16 * HexValue(s[..|s| - 1]) + DigitValue(s[|s| - 1])
  }

  function Parse(t: string): seq<nat> {
    if |t| < 9 then []
    else [HexValue(t[..8])] + Parse(if t[8] == ',' && |t| >= 10 then t[10..] else t[9..])
  }

  function Unpack(base: nat, ext: nat, lower: nat, upper: nat): Entry {
    var kind := if base / 0x1000_0000 == 1 then Dma else if base / 0x1000_0000 == 2 then Mem else Peri;
    Entry(kind, base % 16, base / 0x100 % 32, base / 0x2000 % 8, base / 0x1_0000 % 16, base / 0x10_0000 % 16,
          base / 0x100_0000 % 16,
          match kind case Dma => ext % 256 case Mem => ext % 65536 case Peri => 0,
          match kind case Dma => ext / 0x100 % 256 case Mem => ext / 0x1_0000 % 16 case Peri => 0,
          lower, upper)
  }

  function UnpackAll(words: seq<nat>): seq<Entry> {
    if |words| < 4 then []
    else
      var n := |words| - 4;
      UnpackAll(words[..n]) + [Unpack(words[n], words[n + 1], words[n + 2], words[n + 3])]
  }

  /** The packed fields do not carry into one another. */
  lemma BaseFields(e: Entry)
    requires FieldsInRange(e)
    ensures var b := BaseInfo(e);
            && b < WORD32 && b % 0x100 == e.bar && b % 16 == e.bar && b / 0x100 % 32 == e.major && b / 0x2000 % 8 == e.minor
            && b / 0x1_0000 % 16 == e.mode && b / 0x10_0000 % 16 == e.vendor && b / 0x100_0000 % 16 == e.peripheral
            && b / 0x1000_0000 == KindCode(e.kind)
  {
    var b, k := BaseInfo(e), KindCode(e.kind);
    var h24 := e.peripheral + 16 * k;
    var h20 := e.vendor + 16 * h24;
    var h16 := e.mode + 16 * h20;
    BaseLowFields(e, b, h16);
    BaseHighFields(e, b, k, h24, h20);
  }

  lemma BaseLowFields(e: Entry, b: nat, h16: nat)
    requires FieldsInRange(e) && b == e.bar + 0x100 * e.major + 0x2000 * e.minor + 0x1_0000 * h16
    ensures b % 0x100 == e.bar && b % 16 == e.bar && b / 0x100 % 32 == e.major && b / 0x2000 % 8 == e.minor && b / 0x1_0000 == h16
  {
    var h13 := e.minor + 8 * h16;
    var h8 := e.major + 32 * h13;
    DivModUnique(b, 16, 16 * h8, e.bar);
    DivModUnique(b, 0x100, h8, e.bar);
    DivModUnique(h8, 32, h13, e.major);
    DivModUnique(b, 0x2000, h13, e.bar + 0x100 * e.major);
    DivModUnique(h13, 8, h16, e.minor);
    DivModUnique(b, 0x1_0000, h16, e.bar + 0x100 * e.major + 0x2000 * e.minor);
  }

  lemma BaseHighFields(e: Entry, b: nat, k: nat, h24: nat, h20: nat)
    requires FieldsInRange(e) && b == BaseInfo(e) && k == KindCode(e.kind)
    requires h24 == e.peripheral + 16 * k && h20 == e.vendor + 16 * h24
    ensures b / 0x10_0000 == h20 && b / 0x100_0000 == h24 && b / 0x1000_0000 == k
  {
    var low16 := e.bar + 0x100 * e.major + 0x2000 * e.minor;
    var low20 := low16 + 0x1_0000 * e.mode;
    var low24 := low20 + 0x10_0000 * e.vendor;
    DivModUnique(b, 0x10_0000, h20, low20);
    DivModUnique(b, 0x100_0000, h24, low24);
    DivModUnique(b, 0x1000_0000, k, low24 + 0x100_0000 * e.peripheral);
  }

  lemma ExtFields(e: Entry)
    requires FieldsInRange(e)
    ensures var x := ExtInfo(e);
            && x < WORD32
            && (e.kind == Dma ==> x % 256 == e.first && x / 0x100 == e.second)
            && (e.kind == Mem ==> x % 65536 == e.first && x / 0x1_0000 == e.second)
            && (e.kind == Peri ==> x == 0)
  {
    if e.kind == Dma { DivModUnique(ExtInfo(e), 0x100, e.second, e.first); }
    if e.kind == Mem { DivModUnique(ExtInfo(e), 0x1_0000, e.second, e.first); }
  }

  lemma UnpackInverts(e: Entry)
    requires InRange(e)
    ensures Unpack(BaseInfo(e), ExtInfo(e), e.lower, e.upper) == e
    ensures BaseInfo(e) < WORD32 && ExtInfo(e) < WORD32
  {
    BaseFields(e);
    ExtFields(e);
  }

  lemma UnpackSnoc(front: seq<nat>, four: seq<nat>)
    requires |four| == 4
    ensures UnpackAll(front + four) == UnpackAll(front) + [Unpack(four[0], four[1], four[2], four[3])]
  {
    assert (front + four)[..|front|] == front;
  }

  lemma PackUnpackSnoc(front: seq<nat>, e: Entry)
    requires InRange(e)
    ensures UnpackAll(front + Pack(e)) == UnpackAll(front) + [e]
    ensures Fits(Pack(e))
  {
    UnpackInverts(e);
    UnpackSnoc(front, Pack(e));
  }

  lemma {:induction false} UnpackAllInverts(es: seq<Entry>)
    requires forall k :: 0 <= k < |es| ==> InRange(es[k])
    ensures UnpackAll(PackAll(es)) == es
  {
    if es != [] {
      var n := |es| - 1;
      UnpackAllInverts(es[..n]);
      PackUnpackSnoc(PackAll(es[..n]), es[n]);
      assert es[..n] + [es[n]] == es;
    }
  }

  lemma {:induction false} PackAllFits(es: seq<Entry>)
    requires forall k :: 0 <= k < |es| ==> InRange(es[k])
    ensures |PackAll(es)| == 4 * |es| && Fits(PackAll(es))
  {
    if es != [] {
      var n := |es| - 1;
      PackAllFits(es[..n]);
      PackUnpackSnoc([], es[n]);
      FitsConcat(PackAll(es[..n]), Pack(es[n]));
    }
  }

  predicate Fits(words: seq<nat>) {
    forall k :: 0 <= k < |words| ==> words[k] < WORD32
  }

  lemma FitsConcat(a: seq<nat>, b: seq<nat>)
    requires Fits(a) && Fits(b)
    ensures Fits(a + b)
  {
  }

  lemma {:induction false} HexInverts(n: nat)
    ensures HexValue(HexDigits(n)) == n
  {
    if n >= 16 {
      HexInverts(n / 16);
      HexSnoc(HexDigits(n / 16), n % 16);
    } else {
      HexSnoc("", n);
      assert "" + [DIGITS[n]] == [DIGITS[n]];
    }
  }

  lemma HexSnoc(s: string, d: nat)
    requires d < 16
    ensures HexValue(s + [DIGITS[d]]) == 16 * HexValue(s) + d
  {
    assert (s + [DIGITS[d]])[..|s|] == s;
    DigitInverts(d);
  }

  lemma DigitInverts(d: nat)
    requires d < 16
    ensures DigitValue(DIGITS[d]) == d
  {
  }

  lemma {:induction false} LeadingZero(s: string)
    ensures HexValue("0" + s) == HexValue(s)
  {
    if s == "" {
      assert "0" + s == "0";
      assert "0"[..0] == "";
    } else {
      LeadingZero(s[..|s| - 1]);
      assert ("0" + s)[..|s|] == "0" + s[..|s| - 1];
    }
  }

  predicate IsHexDigit(c: char) {
    '0' <= c <= '9' || 'a' <= c <= 'f'
  }

  predicate AllHexDigits(s: string) {
    forall k :: 0 <= k < |s| ==> IsHexDigit(s[k])
  }

  lemma {:induction false} HexDigitsAreDigits(n: nat)
    ensures AllHexDigits(HexDigits(n))
  {
    if n >= 16 { HexDigitsAreDigits(n / 16); }
  }

  lemma {:induction false} PadKeepsDigits(s: string, width: nat)
    requires AllHexDigits(s)
    ensures AllHexDigits(Pad(s, width))
    decreases width - |s|
  {
    if |s| < width { PadKeepsDigits("0" + s, width); }
  }

  lemma {:induction false} PadKeepsValue(s: string, width: nat)
    ensures HexValue(Pad(s, width)) == HexValue(s)
    ensures |Pad(s, width)| == if |s| >= width then |s| else width
    decreases width - |s|
  {
    if |s| < width {
      LeadingZero(s);
      PadKeepsValue("0" + s, width);
    }
  }

  lemma {:induction false} DigitCount(n: nat, d: nat)
    requires d >= 1
    ensures |HexDigits(n)| <= d <==> n < Pow2(4 * d)
    decreases d
  {
    Pow2Values();
    if d == 1 {
      assert Pow2(4 * d) == 16;
    } else {
      assert Pow2(4 * d) == 16 * Pow2(4 * (d - 1)) by {
        Pow2Add(4 * (d - 1), 4);
        assert 4 * (d - 1) + 4 == 4 * d;
      }
      if n >= 16 { DigitCount(n / 16, d - 1); }
    }
  }

  /** A word is printed in exactly eight digits if and only if it fits in 32 bits; in any case nothing
      but digits is printed, and they determine it. */
  lemma Hex8Exact(n: nat)
    ensures |Hex8(n)| == 8 <==> n < WORD32
    ensures HexValue(Hex8(n)) == n && AllHexDigits(Hex8(n))
  {
    HexDigitsAreDigits(n);
    PadKeepsDigits(HexDigits(n), 8);
    HexInverts(n);
    PadKeepsValue(HexDigits(n), 8);
    DigitCount(n, 8);
    Word32IsPow2();
  }

  lemma Word32IsPow2()
    ensures WORD32 == Pow2(4 * 8)
  {
    Pow2Values();
    Pow2Plus8(8);
    Pow2Plus8(16);
    Pow2Plus8(24);
  }

  lemma ParseLine(n: nat, rest: string)
    requires n < WORD32
    ensures Parse(Line(n) + rest) == [n] + Parse(rest)
  {
    Hex8Exact(n);
    var t := Line(n) + rest;
    assert t[..8] == Hex8(n) && t[8] == ',' && t[10..] == rest;
  }

  lemma Regroup(a: string, b: string, c: string)
    ensures a + b + c == a + (b + c)
  {
  }

  lemma SnocAll(front: seq<nat>, last: nat, words: seq<nat>, more: seq<nat>)
    requires |words| > 0 && front == words[..|words| - 1] && last == words[|words| - 1]
    ensures front + ([last] + more) == words + more
  {
  }

  lemma {:induction false} ParseLines(words: seq<nat>, rest: string)
    requires Fits(words)
    ensures Parse(Lines(words) + rest) == words + Parse(rest)
    decreases |words|
  {
    if words == [] {
      assert Lines(words) + rest == rest;
    } else {
      var front, last := words[..|words| - 1], words[|words| - 1];
      var line := Line(last);
      Regroup(Lines(front), line, rest);
      ParseLines(front, line + rest);
      ParseLine(last, rest);
      SnocAll(front, last, words, Parse(rest));
    }
  }

  lemma {:induction false} GroupFits(secs: seq<Section>, prefix: string)
    requires Offsets32(secs)
    ensures forall k :: 0 <= k < |Group(secs, prefix)| ==>
              Group(secs, prefix)[k].lower < WORD32 && Group(secs, prefix)[k].upper < WORD32
  {
    if secs != [] { GroupFits(secs[..|secs| - 1], prefix); }
  }

  lemma EntriesInRange(secs: seq<Section>)
    requires Offsets32(secs)
    ensures forall k :: 0 <= k < |Entries(secs)| ==> InRange(Entries(secs)[k])
  {
    GroupFits(secs, "dma");
    GroupFits(secs, "mem");
    GroupFits(secs, "peri");
  }

  lemma ParseBody(p: Project, secs: seq<Section>)
    requires Fits(Words(p, secs))
    ensures Parse(Body(p, secs)) == Words(p, secs)
  {
    var words := Words(p, secs);
    if Group(secs, "peri") == [] {
      ParseLines(words, "");
      assert Lines(words) + "" == Lines(words);
    } else {
      var n := |words| - 1;
      var last := Hex8(words[n]) + "\n";
      Hex8Exact(words[n]);
      assert last[..8] == Hex8(words[n]);
      ParseLines(words[..n], last);
      assert Body(p, secs) == Lines(words[..n]) + last;
      assert Parse(last) == [words[n]];
    }
  }

  /** What the third header word says. */
  datatype Head = Head(id: nat, major: nat, minor: nat, sections: nat)

  function ReadHead(info: nat): Head {
    Head(info % 0x1_0000, info / 0x1_0000 % 16, info / 0x10_0000 % 16, info / 0x100_0000)
  }

  /** A table recognised by its identification words. */
  function Decode(words: seq<nat>): Option<(Head, seq<Entry>)> {
    if |words| < 4 || words[0] != 0x4D504153 || words[1] != 0x0000434F || words[3] != 0 then None
    else Some((ReadHead(words[2]), UnpackAll(words[4..])))
  }

  lemma HeadFields(p: Project, n: nat)
    ensures ProjectInfo(p, n) < WORD32
    ensures ReadHead(ProjectInfo(p, n)) == Head(p.id % 0x1_0000, p.major % 16, p.minor % 16, n % 256)
  {
    FourFields(p.id % 0x1_0000, p.major % 16, p.minor % 16, n % 256);
  }

  lemma FourFields(a: nat, b: nat, c: nat, d: nat)
    requires a < 0x1_0000 && b < 16 && c < 16 && d < 256
    ensures ReadHead(a + b * 0x1_0000 + c * 0x10_0000 + d * 0x100_0000) == Head(a, b, c, d)
  {
    var info := a + b * 0x1_0000 + c * 0x10_0000 + d * 0x100_0000;
    DivModUnique(info, 0x1_0000, b + 16 * (c + 16 * d), a);
    DivModUnique(b + 16 * (c + 16 * d), 16, c + 16 * d, b);
    DivModUnique(info, 0x10_0000, c + 16 * d, a + 0x1_0000 * b);
    DivModUnique(c + 16 * d, 16, d, c);
    DivModUnique(info, 0x100_0000, d, a + 0x1_0000 * b + 0x10_0000 * c);
  }

  lemma WordsFit(p: Project, secs: seq<Section>)
    requires Offsets32(secs)
    ensures |Words(p, secs)| == 4 + 4 * |Entries(secs)| && Fits(Words(p, secs))
  {
    EntriesInRange(secs);
    PackAllFits(Entries(secs));
    HeadFields(p, |Entries(secs)|);
    FitsConcat(Header(p, |Entries(secs)|), PackAll(Entries(secs)));
  }

  lemma DecodeWords(p: Project, n: nat, es: seq<Entry>)
    requires forall k :: 0 <= k < |es| ==> InRange(es[k])
    ensures Decode(Header(p, n) + PackAll(es))
            == Some((Head(p.id % 0x1_0000, p.major % 16, p.minor % 16, n % 256), es))
  {
    var words := Header(p, n) + PackAll(es);
    UnpackAllInverts(es);
    HeadFields(p, n);
    assert words[4..] == PackAll(es);
  }

  /** What a table says: the project, the section count modulo 256, and the entries in group order. */
  function Table(p: Project, secs: seq<Section>): (Head, seq<Entry>) {
    (Head(p.id % 0x1_0000, p.major % 16, p.minor % 16, |Entries(secs)| % 256), Entries(secs))
  }

  /** A file read back: after the preamble, one word to a line. */
  function ReadFile(file: string): Option<(Head, seq<Entry>)> {
    var start := "memory_initialization_radix=16;\nmemory_initialization_vector=\n";
    if StartsWith(file, start) then Decode(Parse(file[|start|..])) else None
  }

  lemma PreambleText()
    ensures PREAMBLE == "memory_initialization_radix=16;\nmemory_initialization_vector=\n"
  {
  }

  lemma Strip(pre: string, body: string)
    ensures StartsWith(pre + body, pre) && (pre + body)[|pre|..] == body
  {
  }

  lemma BodyDecodes(p: Project, secs: seq<Section>)
    requires Offsets32(secs)
    ensures |Parse(Body(p, secs))| == 4 + 4 * |Entries(secs)|
    ensures forall k :: 0 <= k < |Parse(Body(p, secs))| ==> |Hex8(Parse(Body(p, secs))[k])| == 8
    ensures Decode(Parse(Body(p, secs))) == Some(Table(p, secs))
  {
    var words := Words(p, secs);
    WordsFit(p, secs);
    ParseBody(p, secs);
    forall k | 0 <= k < |words| ensures |Hex8(words[k])| == 8 { Hex8Exact(words[k]); }
    EntriesInRange(secs);
    DecodeWords(p, |Entries(secs)|, Entries(secs));
  }

  lemma FileDecodes(p: Project, secs: seq<Section>)
    requires Offsets32(secs)
    ensures ReadFile(PREAMBLE + Body(p, secs)) == Some(Table(p, secs))
  {
    BodyDecodes(p, secs);
    Strip(PREAMBLE, Body(p, secs));
    PreambleText();
  }

  predicate Offsets32(secs: seq<Section>) {
    forall k :: 0 <= k < |secs| ==> secs[k].lower < WORD32 && secs[k].upper < WORD32
  }

  /** The entry has the section's fields, each cut to its width. */
  predicate Describes(e: Entry, kind: Kind, s: Section) {
    && e.kind == kind && e.bar == s.bar % 16 && e.major == s.major % 32 && e.minor == s.minor % 8
    && e.mode == s.mode % 16 && e.vendor == s.vendor % 16 && e.peripheral == s.peripheral % 16
    && e.lower == s.lower && e.upper == s.upper
    && match kind
       case Dma => e.first == s.first % 256 && e.second == s.second % 256
       case Mem => e.first == s.first % 65536 && e.second == s.second % 16
       case Peri => e.first == 0 && e.second == 0
  }

  /** Entries from place `at` on describe the sections at these places of the file. */
  predicate DescribesAll(es: seq<Entry>, at: nat, kind: Kind, secs: seq<Section>, idx: seq<nat>) {
    at + |idx| <= |es| &&
    forall i :: 0 <= i < |idx| ==> idx[i] < |secs| && Describes(es[at + i], kind, secs[idx[i]])
  }

  lemma GroupDescribed(es: seq<Entry>, before: seq<Entry>, after: seq<Entry>, kind: Kind, secs: seq<Section>,
                       idx: seq<nat>, group: seq<Section>)
    requires StandsAt(secs, idx, group) && es == before + CutAll(group, kind) + after
    ensures DescribesAll(es, |before|, kind, secs, idx)
  {
    forall i | 0 <= i < |idx| ensures Describes(es[|before| + i], kind, secs[idx[i]]) {
      assert es[|before| + i] == CutAll(group, kind)[i];
    }
  }

  /** With 32-bit offsets, reading the file back gives the project, the number of sections modulo 256,
      and one entry for each section: first those named dma..., then mem..., then peri..., each group
      in file order, with every field cut to its width. */
  lemma TableDecodes(p: Project, secs: seq<Section>) returns (d: seq<nat>, m: seq<nat>, r: seq<nat>, es: seq<Entry>)
    requires Offsets32(secs)
    ensures NamedAt(secs, "dma", d) && NamedAt(secs, "mem", m) && NamedAt(secs, "peri", r)
    ensures |es| == |d| + |m| + |r|
    ensures ReadFile(PREAMBLE + Body(p, secs))
            == Some((Head(p.id % 0x1_0000, p.major % 16, p.minor % 16, |es| % 256), es))
    ensures DescribesAll(es, 0, Dma, secs, d)
    ensures DescribesAll(es, |d|, Mem, secs, m)
    ensures DescribesAll(es, |d| + |m|, Peri, secs, r)
  {
    FileDecodes(p, secs);
    es := Entries(secs);
    d := PlacesOf(secs, "dma");
    m := PlacesOf(secs, "mem");
    r := PlacesOf(secs, "peri");
    EntriesDescribed(secs, d, m, r);
  }

  lemma PlacesOf(secs: seq<Section>, prefix: string) returns (idx: seq<nat>)
    ensures NamedAt(secs, prefix, idx) && StandsAt(secs, idx, Group(secs, prefix))
  {
    GroupExact(secs, prefix);
    idx :| NamedAt(secs, prefix, idx) && StandsAt(secs, idx, Group(secs, prefix));
  }

  lemma EntriesDescribed(secs: seq<Section>, d: seq<nat>, m: seq<nat>, r: seq<nat>)
    requires StandsAt(secs, d, Group(secs, "dma")) && StandsAt(secs, m, Group(secs, "mem"))
    requires StandsAt(secs, r, Group(secs, "peri"))
    ensures |Entries(secs)| == |d| + |m| + |r|
    ensures DescribesAll(Entries(secs), 0, Dma, secs, d)
    ensures DescribesAll(Entries(secs), |d|, Mem, secs, m)
    ensures DescribesAll(Entries(secs), |d| + |m|, Peri, secs, r)
  {
    var es, x, y, z := Entries(secs), CutAll(Group(secs, "dma"), Dma), CutAll(Group(secs, "mem"), Mem), CutAll(Group(secs, "peri"), Peri);
    assert es == [] + x + (y + z);
    GroupDescribed(es, [], y + z, Dma, secs, d, Group(secs, "dma"));
    GroupDescribed(es, x, z, Mem, secs, m, Group(secs, "mem"));
    assert es == (x + y) + z + [];
    GroupDescribed(es, x + y, [], Peri, secs, r, Group(secs, "peri"));
  }

  // ----- The shape of the file --------------------------------------------------------------

  /** Each line takes ten characters: eight digits, a comma and a newline. */
  lemma {:induction false} LinesLayout(words: seq<nat>, i: nat)
    requires Fits(words) && i < |words|
    ensures |Lines(words)| == 10 * |words|
    ensures Lines(words)[10 * i..10 * i + 10] == Hex8(words[i]) + ",\n"
  {
    var front, last := words[..|words| - 1], words[|words| - 1];
    LinesLength(words);
    LinesLength(front);
    if i < |front| {
      LinesLayout(front, i);
      SliceOfPrefix(Lines(front), Line(last), 10 * i, 10 * i + 10);
    } else {
      SliceOfSuffix(Lines(front), Line(last));
      assert |Line(last)| == 10;
    }
  }

  lemma SliceOfSuffix(a: string, b: string)
    ensures (a + b)[|a|..|a| + |b|] == b
  {
  }

  lemma SliceOfPrefix(a: string, b: string, i: nat, j: nat)
    requires i <= j <= |a|
    ensures (a + b)[i..j] == a[i..j]
  {
  }

  lemma {:induction false} LinesLength(words: seq<nat>)
    requires Fits(words)
    ensures |Lines(words)| == 10 * |words|
  {
    if words != [] {
      Hex8Exact(words[|words| - 1]);
      LinesLength(words[..|words| - 1]);
    }
  }

  /** The vector part has a line of eight digits for each of its 4 + 4n words; every line but the last
      ends in a comma, and the last ends in one exactly when there are no peripherals. */
  lemma BodyLayout(p: Project, secs: seq<Section>)
    requires Offsets32(secs)
    ensures var n, body, words := 4 + 4 * |Entries(secs)|, Body(p, secs), Words(p, secs);
            && |words| == n && |body| == 10 * n - (if Group(secs, "peri") == [] then 0 else 1)
            && (forall i :: 0 <= i < n - 1 ==> body[10 * i..10 * i + 10] == Hex8(words[i]) + ",\n")
            && body[10 * (n - 1)..] == Hex8(words[n - 1]) + (if Group(secs, "peri") == [] then ",\n" else "\n")
  {
    WordsFit(p, secs);
    TextLayout(Words(p, secs), Group(secs, "peri") == []);
  }

  lemma TextLayout(words: seq<nat>, commas: bool)
    requires Fits(words) && words != []
    ensures var n, text := |words|, Text(words, commas);
            && |text| == 10 * n - (if commas then 0 else 1)
            && (forall i :: 0 <= i < n - 1 ==> text[10 * i..10 * i + 10] == Hex8(words[i]) + ",\n")
            && text[10 * (n - 1)..] == Hex8(words[n - 1]) + (if commas then ",\n" else "\n")
  {
    var front, n, text := words[..|words| - 1], |words|, Text(words, commas);
    var last := Hex8(words[n - 1]) + (if commas then ",\n" else "\n");
    LinesLength(front);
    Hex8Exact(words[n - 1]);
    assert text == Lines(front) + last;
    forall i | 0 <= i < n - 1 ensures text[10 * i..10 * i + 10] == Hex8(words[i]) + ",\n" {
      LinesLayout(front, i);
      SliceOfPrefix(Lines(front), last, 10 * i, 10 * i + 10);
    }
  }

  /** Two descriptions with 32-bit offsets that print the same file agree on every field the table has
      room for, section by section. */
  lemma TableDetermines(p: Project, secs: seq<Section>, p': Project, secs': seq<Section>)
    requires Offsets32(secs)
    requires Offsets32(secs')
    requires PREAMBLE + Body(p, secs) == PREAMBLE + Body(p', secs')
    ensures Table(p, secs) == Table(p', secs')
  {
    FileDecodes(p, secs);
    FileDecodes(p', secs');
    SameTable(PREAMBLE + Body(p, secs), PREAMBLE + Body(p', secs'), Table(p, secs), Table(p', secs'));
  }

  lemma SameTable(t: string, t': string, x: (Head, seq<Entry>), x': (Head, seq<Entry>))
    requires t == t' && ReadFile(t) == Some(x) && ReadFile(t') == Some(x')
    ensures x == x'
  {
  }
}
