/** The two response parsers that walk a list: MODE SENSE (10) parameters and
    READ FORMAT CAPACITIES (src/ufi.c). Each is proved against a printer of
    the responses it accepts. */
module ModePages {
  import opened Wrappers
  import opened Bytes
  import opened Ufi

  const MODE_BUFFER_SIZE: nat := 256

  datatype ModeParameters = ModeParameters(raw: seq<byte>, pageOffset: nat, flexible: FlexiblePage)

  /** A page's length byte counts the bytes after its two-byte header. */
  function PageSize(lengthByte: nat): nat { lengthByte + 2 }

  // ----- what the parser computes -----

  /** The offset of the first Flexible Disk page at or after `offset`, if
      every page before it is complete and is not a subpage. */
  ghost function FindFlexible(d: seq<byte>, offset: nat): (r: Option<nat>)
    requires offset <= |d|
    ensures r.Some? ==> offset <= r.value && r.value + 2 <= |d|
                        && r.value + PageSize(d[r.value + 1]) <= |d|
    decreases |d| - offset
  {
    if |d| - offset < 2 || Subpage(d[offset]) then None
    else
      var length := PageSize(d[offset + 1]);
      if length > |d| - offset then None
      else if PageType(d[offset]) == FLEXIBLE_DISK_PAGE then Some(offset)
      else FindFlexible(d, offset + length)
  }

  /** Declared length and block descriptor length, when they are consistent
      with each other, the buffer and the received bytes. */
  function DeclaredLengths(data: seq<byte>): (r: Option<(nat, nat)>)
    ensures r.Some? ==> 8 + r.value.1 <= r.value.0 <= |data| && r.value.0 <= MODE_BUFFER_SIZE
  {
    if |data| < 8 then None
    else
      var declared := ReadBe16(data, 0).value + 2;
      var blocks := ReadBe16(data, 6).value;
      if declared < 8 || declared > |data| || declared > MODE_BUFFER_SIZE then None
      else if 8 + blocks > declared then None
      else Some((declared, blocks))
  }

  ghost function PageAt(d: seq<byte>, at: nat): seq<byte> {
    if at + 2 <= |d| && at + PageSize(d[at + 1]) <= |d| then d[at..at + PageSize(d[at + 1])]
    else []
  }

  ghost function Parse(data: seq<byte>): Option<ModeParameters> {
    var lengths := DeclaredLengths(data);
    if lengths.None? then None
    else
      var raw := data[..lengths.value.0];
      var at := FindFlexible(raw, 8 + lengths.value.1);
      if at.None? then None
      else
        var page := DecodeFlexible(PageAt(raw, at.value));
        if page.None? then None else Some(ModeParameters(raw, at.value, page.value))
  }

  /** m65_parse_mode_parameters; `data` is the received part of the buffer. */
  method ParseModeParameters(data: seq<byte>) returns (r: Option<ModeParameters>)
    ensures r == Parse(data)
  {
    hide DecodeFlexible, Subpage, PageType;
    var lengths := DeclaredLengths(data);
    if lengths.None? {
      return None;
    }
    var (declared, blocks) := lengths.value;
    var raw := data[..declared];
    var offset := 8 + blocks;
    while offset < declared
      invariant offset <= declared
      invariant FindFlexible(raw, offset) == FindFlexible(raw, 8 + blocks)
      decreases declared - offset
    {
      if declared - offset < 2 {
        return None;
      }
      if Subpage(raw[offset]) {
        return None;
      }
      var pageLength := PageSize(raw[offset + 1]);
      if pageLength > declared - offset {
        return None;
      }
      if PageType(raw[offset]) == FLEXIBLE_DISK_PAGE {
        var page := DecodeFlexible(raw[offset..offset + pageLength]);
        assert FindFlexible(raw, 8 + blocks) == Some(offset);
        assert raw[offset..offset + pageLength] == PageAt(raw, offset);
        return if page.None? then None else Some(ModeParameters(raw, offset, page.value));
      }
      offset := offset + pageLength;
    }
    return None;
  }

  // ----- the responses it accepts -----

  /** A MODE SENSE (10) response up to its declared end: the four header bytes
      the parser skips, block descriptors, the pages before the Flexible Disk
      page, that page, and whatever follows it. */
  datatype Response = Response(header: seq<byte>, blocks: seq<byte>, pages: seq<seq<byte>>,
                               flexible: seq<byte>, rest: seq<byte>)

  ghost predicate CompletePage(p: seq<byte>) {
    |p| >= 2 && |p| == PageSize(p[1]) && !Subpage(p[0])
  }

  ghost predicate OtherPages(pages: seq<seq<byte>>) {
    forall i :: 0 <= i < |pages| ==> CompletePage(pages[i]) && PageType(pages[i][0]) != 0x05
  }

  ghost predicate WellFormed(r: Response) {
    && |r.header| == 4
    && OtherPages(r.pages)
    && CompletePage(r.flexible) && PageType(r.flexible[0]) == 0x05
    && |r.flexible| >= 32
    && Total(r) <= 256
  }

  ghost function Concat(pages: seq<seq<byte>>): seq<byte> {
    if pages == [] then [] else pages[0] + Concat(pages[1..])
  }

  ghost function Total(r: Response): nat {
    8 + |r.blocks| + |Concat(r.pages)| + |r.flexible| + |r.rest|
  }

  ghost function Print(r: Response): (d: seq<byte>)
    requires WellFormed(r)
    ensures |d| == Total(r)
  {
    Be16(Total(r) - 2) + r.header + Be16(|r.blocks|) + r.blocks
    + Concat(r.pages) + r.flexible + r.rest
  }

  // ----- the parser inverts the printer -----

  /** Walking over complete non-Flexible pages reaches the page after them. */
  lemma WalkStep(d: seq<byte>, offset: nat, first: seq<byte>)
    requires CompletePage(first) && PageType(first[0]) != FLEXIBLE_DISK_PAGE
    requires offset + |first| <= |d| && d[offset..offset + |first|] == first
    ensures FindFlexible(d, offset) == FindFlexible(d, offset + |first|)
  {
    hide Subpage, PageType;
    assert d[offset] == first[0] && d[offset + 1] == first[1];
  }

  lemma SplitSlice(d: seq<byte>, offset: nat, first: seq<byte>, others: seq<byte>)
    requires offset + |first + others| <= |d| && d[offset..offset + |first + others|] == first + others
    ensures d[offset..offset + |first|] == first
    ensures d[offset + |first|..offset + |first| + |others|] == others
  {
    var s := d[offset..offset + |first + others|];
    assert s[..|first|] == first && s[|first|..] == others;
  }

  lemma FirstPage(pages: seq<seq<byte>>)
    requires OtherPages(pages) && pages != []
    ensures |pages[0]| >= 2 && CompletePage(pages[0]) && PageType(pages[0][0]) != FLEXIBLE_DISK_PAGE
    ensures OtherPages(pages[1..]) && Concat(pages) == pages[0] + Concat(pages[1..])
  {
  }

  lemma {:induction false} WalkSkipsPages(d: seq<byte>, offset: nat, pages: seq<seq<byte>>)
    requires OtherPages(pages) && offset + |Concat(pages)| <= |d|
    requires d[offset..offset + |Concat(pages)|] == Concat(pages)
    ensures FindFlexible(d, offset) == FindFlexible(d, offset + |Concat(pages)|)
    decreases |pages|
  {
    hide FindFlexible, OtherPages, CompletePage, PageType;
    if pages != [] {
      FirstPage(pages);
      var first, others := pages[0], Concat(pages[1..]);
      SplitSlice(d, offset, first, others);
      WalkStep(d, offset, first);
      WalkSkipsPages(d, offset + |first|, pages[1..]);
    }
  }

  lemma PrintDeclares(r: Response, beyond: seq<byte>)
    requires WellFormed(r)
    ensures DeclaredLengths(Print(r) + beyond) == Some((Total(r), |r.blocks|))
  {
    var d := Print(r);
    var data := d + beyond;
    assert data[0..2] == d[0..2] == Be16(Total(r) - 2);
    Be16Injective(ReadBe16(data, 0).value, Total(r) - 2);
    assert data[6..8] == d[6..8] == Be16(|r.blocks|);
    Be16Injective(ReadBe16(data, 6).value, |r.blocks|);
  }

  lemma FoundHere(d: seq<byte>, at: nat, page: seq<byte>)
    requires CompletePage(page) && PageType(page[0]) == FLEXIBLE_DISK_PAGE
    requires at + |page| <= |d| && d[at..at + |page|] == page
    ensures FindFlexible(d, at) == Some(at) && PageAt(d, at) == page
  {
    hide Subpage, PageType;
    assert d[at] == page[0] && d[at + 1] == page[1];
  }

  /** Where the parts of a printed response stand. */
  lemma PrintLayout(r: Response)
    requires WellFormed(r)
    ensures var d, start, at := Print(r), 8 + |r.blocks|, 8 + |r.blocks| + |Concat(r.pages)|;
            && at + |r.flexible| <= |d|
            && d[start..at] == Concat(r.pages) && d[at..at + |r.flexible|] == r.flexible
  {
    hide OtherPages, CompletePage, PageType, Concat;
    var before := Be16(Total(r) - 2) + r.header + Be16(|r.blocks|) + r.blocks;
    var tail := r.flexible + r.rest;
    assert Print(r) == before + Concat(r.pages) + tail;
    assert |before| == 8 + |r.blocks|;
    ThreeParts(before, Concat(r.pages), tail, |r.flexible|);
  }

  lemma ThreeParts(a: seq<byte>, b: seq<byte>, c: seq<byte>, n: nat)
    requires n <= |c|
    ensures (a + b + c)[|a|..|a| + |b|] == b
    ensures (a + b + c)[|a| + |b|..|a| + |b| + n] == c[..n]
  {
  }

  lemma PrintLocates(r: Response)
    requires WellFormed(r)
    ensures FindFlexible(Print(r), 8 + |r.blocks|) == Some(8 + |r.blocks| + |Concat(r.pages)|)
    ensures PageAt(Print(r), 8 + |r.blocks| + |Concat(r.pages)|) == r.flexible
  {
    hide FindFlexible, PageAt, Print, Concat, OtherPages, CompletePage, PageType;
    PrintLayout(r);
    WalkSkipsPages(Print(r), 8 + |r.blocks|, r.pages);
    FoundHere(Print(r), 8 + |r.blocks| + |Concat(r.pages)|, r.flexible);
  }

  /** On the printing of any well-formed response, whatever bytes follow it,
      the parser returns its Flexible Disk page and where that page stands. */
  lemma ParseInvertsPrint(r: Response, beyond: seq<byte>)
    requires WellFormed(r)
    ensures DecodeFlexible(r.flexible).Some?
    ensures Parse(Print(r) + beyond)
         == Some(ModeParameters(Print(r), 8 + |r.blocks| + |Concat(r.pages)|,
                                DecodeFlexible(r.flexible).value))
  {
    hide *;
    FlexibleDecodesIn(r);
    PrintDeclares(r, beyond);
    PrintLocates(r);
    assert (Print(r) + beyond)[..Total(r)] == Print(r);
    ParseOf(Print(r) + beyond, Total(r), |r.blocks|, 8 + |r.blocks| + |Concat(r.pages)|);
  }

  lemma FlexibleDecodesIn(r: Response)
    requires WellFormed(r)
    ensures DecodeFlexible(r.flexible).Some?
  {
    FlexibleDecodes(r.flexible);
  }

  lemma FlexibleDecodes(page: seq<byte>)
    requires CompletePage(page) && PageType(page[0]) == FLEXIBLE_DISK_PAGE
    requires |page| >= FLEX_PAGE_LENGTH
    ensures DecodeFlexible(page).Some?
  {
  }

  lemma ParseOf(data: seq<byte>, declared: nat, blocks: nat, at: nat)
    requires DeclaredLengths(data) == Some((declared, blocks))
    requires FindFlexible(data[..declared], 8 + blocks) == Some(at)
    requires DecodeFlexible(PageAt(data[..declared], at)).Some?
    ensures Parse(data) == Some(ModeParameters(data[..declared], at,
                                               DecodeFlexible(PageAt(data[..declared], at)).value))
  {
    hide DecodeFlexible, FindFlexible, DeclaredLengths, PageAt;
  }

  // ----- and accepts nothing else -----

  /** What a successful walk passed over. */
  lemma {:induction false} WalkFindsPages(d: seq<byte>, offset: nat) returns (pages: seq<seq<byte>>)
    requires offset <= |d| && FindFlexible(d, offset).Some?
    ensures OtherPages(pages)
    ensures offset + |Concat(pages)| == FindFlexible(d, offset).value
    ensures d[offset..FindFlexible(d, offset).value] == Concat(pages)
    ensures !Subpage(d[FindFlexible(d, offset).value])
    ensures PageType(d[FindFlexible(d, offset).value]) == FLEXIBLE_DISK_PAGE
    decreases |d| - offset
  {
    if PageType(d[offset]) == FLEXIBLE_DISK_PAGE {
      pages := [];
    } else {
      var length := PageSize(d[offset + 1]);
      var first := d[offset..offset + length];
      var others := WalkFindsPages(d, offset + length);
      pages := [first] + others;
      assert pages[1..] == others;
      assert d[offset..FindFlexible(d, offset).value]
          == first + d[offset + length..FindFlexible(d, offset).value];
    }
  }

  lemma DeclaredHeader(data: seq<byte>, declared: nat, blocks: nat)
    requires DeclaredLengths(data) == Some((declared, blocks))
    ensures data[..declared][0..2] == Be16(declared - 2)
    ensures data[..declared][6..8] == Be16(blocks)
  {
    assert data[..declared][0..2] == data[0..2];
    assert data[..declared][6..8] == data[6..8];
  }

  /** The response that a declared prefix with a decodable page is. */
  lemma ResponseFrom(d: seq<byte>, blocks: nat, at: nat) returns (r: Response)
    requires 8 + blocks <= |d| <= MODE_BUFFER_SIZE
    requires d[0..2] == Be16(|d| - 2) && d[6..8] == Be16(blocks)
    requires FindFlexible(d, 8 + blocks) == Some(at) && DecodeFlexible(PageAt(d, at)).Some?
    ensures WellFormed(r) && Print(r) == d
  {
    hide DecodeFlexible, PageAt, FindFlexible, WellFormed, Print, OtherPages, CompletePage, PageType, Be16, Concat;
    var pages := WalkFindsPages(d, 8 + blocks);
    var page := PageAt(d, at);
    DecodedPage(d, at);
    r := Response(d[2..6], d[8..8 + blocks], pages, page, d[at + |page|..]);
    Pieces(d, blocks, at, |page|);
    assert |r.blocks| == blocks;
    assert Concat(r.pages) == d[8 + blocks..at];
    Joined(r, d);
  }

  lemma DecodedPage(d: seq<byte>, at: nat)
    requires DecodeFlexible(PageAt(d, at)).Some?
    ensures var page := PageAt(d, at);
            && at + |page| <= |d| && page == d[at..at + |page|] && |page| >= FLEX_PAGE_LENGTH
            && CompletePage(page) && PageType(page[0]) == FLEXIBLE_DISK_PAGE
  {
  }

  lemma Joined(r: Response, d: seq<byte>)
    requires |d| >= 8 && |d| <= MODE_BUFFER_SIZE && |r.header| == 4 && OtherPages(r.pages)
    requires CompletePage(r.flexible) && PageType(r.flexible[0]) == FLEXIBLE_DISK_PAGE
    requires |r.flexible| >= FLEX_PAGE_LENGTH && |r.blocks| < 0x1_0000
    requires d == Be16(|d| - 2) + r.header + Be16(|r.blocks|) + r.blocks
                  + Concat(r.pages) + r.flexible + r.rest
    ensures WellFormed(r) && Print(r) == d
  {
    assert Total(r) == |d|;
  }

  /** The well-formed response that an accepted buffer starts with. */
  lemma ResponseOf(data: seq<byte>) returns (r: Response)
    requires Parse(data).Some?
    ensures WellFormed(r) && Print(r) <= data && Parse(data).value.raw == Print(r)
  {
    hide *;
    var declared, blocks, at := ParseCases(data);
    DeclaredHeader(data, declared, blocks);
    r := ResponseFrom(data[..declared], blocks, at);
    assert Print(r) == data[..declared];
  }

  lemma ParseCases(data: seq<byte>) returns (declared: nat, blocks: nat, at: nat)
    requires Parse(data).Some?
    ensures DeclaredLengths(data) == Some((declared, blocks))
    ensures Parse(data).value.raw == data[..declared]
    ensures FindFlexible(data[..declared], 8 + blocks) == Some(at)
    ensures DecodeFlexible(PageAt(data[..declared], at)).Some?
  {
    hide DecodeFlexible, PageAt, DeclaredLengths;
    declared, blocks := DeclaredLengths(data).value.0, DeclaredLengths(data).value.1;
    hide FindFlexible;
    at := FindFlexible(data[..declared], 8 + blocks).value;
  }

  /** Cutting a response at its five inner boundaries and joining it again. */
  lemma Pieces(d: seq<byte>, blocks: nat, at: nat, size: nat)
    requires 8 + blocks <= at && at + size <= |d|
    ensures d == d[0..2] + d[2..6] + d[6..8] + d[8..8 + blocks] + d[8 + blocks..at]
                 + d[at..at + size] + d[at + size..]
  {
    assert d[..6] == d[0..2] + d[2..6];
    assert d[..8] == d[..6] + d[6..8];
    assert d[..8 + blocks] == d[..8] + d[8..8 + blocks];
    assert d[..at] == d[..8 + blocks] + d[8 + blocks..at];
    assert d[..at + size] == d[..at] + d[at..at + size];
    assert d == d[..at + size] + d[at + size..];
  }

  /** m65_parse_mode_parameters succeeds exactly on the buffers that start
      with a well-formed response; bytes after the declared length change
      nothing. */
  lemma ParseAcceptsExactlyResponses(data: seq<byte>)
    ensures Parse(data).Some? <==> exists r: Response :: WellFormed(r) && Print(r) <= data
    ensures Parse(data).Some? ==>
              40 <= |Parse(data).value.raw| <= 256
              && forall beyond: seq<byte> :: Parse(Parse(data).value.raw + beyond) == Parse(data)
  {
    hide *;
    if Parse(data).Some? {
      var r := ResponseOf(data);
      ResponseSize(r);
      ParseInvertsPrint(r, data[|Print(r)|..]);
      assert data == Print(r) + data[|Print(r)|..];
      forall beyond: seq<byte> ensures Parse(Print(r) + beyond) == Parse(data) {
        ParseInvertsPrint(r, beyond);
      }
    }
    if r: Response :| WellFormed(r) && Print(r) <= data {
      ParseInvertsPrint(r, data[|Print(r)|..]);
      assert data == Print(r) + data[|Print(r)|..];
    }
  }

  lemma ResponseSize(r: Response)
    requires WellFormed(r)
    ensures 40 <= |Print(r)| <= 256
  {
  }

  // ----- READ FORMAT CAPACITIES -----

  const MAX_FORMAT_DESCRIPTORS: nat := 31

  datatype Descriptor = Descriptor(blocks: nat, blockSize: nat, code: nat)

  ghost predicate Encodable(d: Descriptor) {
    d.blocks < 0x1_0000_0000 && d.blockSize < 0x100_0000 && d.code < 4
  }

  ghost function FlagsAndCode(flags: nat, code: nat): (r: byte)
    requires flags < 64 && code < 4
    ensures r % 4 == code
  {
    4 * flags + code
  }

  /** One eight-byte descriptor; `flags` are the six bits of its fifth byte
      that the parser masks off. */
  ghost function PrintDescriptor(d: Descriptor, flags: nat): (r: seq<byte>)
    requires Encodable(d) && flags < 64
    ensures |r| == 8
  {
    Be32(d.blocks) + [FlagsAndCode(flags, d.code)] + Be24(d.blockSize)
  }

  ghost function DecodeAt(data: seq<byte>, offset: nat): (d: Descriptor)
    requires offset + 8 <= |data|
    ensures Encodable(d)
  {
    Descriptor(ReadBe32(data, offset).value, ReadBe24(data, offset + 5).value, data[offset + 4] % 4)
  }

  /** The list of descriptors, if it is complete. */
  ghost function FormatCapacities(data: seq<byte>): Option<seq<Descriptor>> {
    if |data| < 4 || data[3] % 8 != 0 || 4 + data[3] > |data| then None
    else Some(seq(data[3] / 8, i requires 0 <= i < data[3] / 8 => DecodeAt(data, 4 + 8 * i)))
  }

  lemma IncompleteList(data: seq<byte>)
    ensures FormatCapacities(data).None? <==> |data| < 4 || data[3] % 8 != 0 || 4 + data[3] > |data|
  {
  }

  lemma DecodedAt(data: seq<byte>, offset: nat)
    requires offset + 8 <= |data|
    ensures ReadBe32(data, offset).Some? && ReadBe24(data, offset + 5).Some?
    ensures DecodeAt(data, offset)
            == Descriptor(ReadBe32(data, offset).value, ReadBe24(data, offset + 5).value, data[offset + 4] % 4)
  {
  }

  lemma DescriptorsAreAll(data: seq<byte>, ds: seq<Descriptor>)
    requires |data| >= 4 && data[3] == 8 * |ds| && 4 + data[3] <= |data|
    requires forall i :: 0 <= i < |ds| ==> ds[i] == DecodeAt(data, 4 + 8 * i)
    ensures FormatCapacities(data) == Some(ds)
  {
    hide DecodeAt;
    assert FormatCapacities(data).value == ds;
  }

  /** m65_parse_format_capacities. The source also rejects more than 31
      descriptors and a descriptor that is cut short; the two assertions show
      that neither can happen. */
  method ParseFormatCapacities(data: seq<byte>) returns (r: Option<seq<Descriptor>>)
    ensures r == FormatCapacities(data)
    ensures r.Some? <==> |data| >= 4 && data[3] % 8 == 0 && 4 + data[3] <= |data|
    ensures r.Some? ==> |r.value| == data[3] / 8 <= MAX_FORMAT_DESCRIPTORS
  {
    hide FormatCapacities, ReadBe32, ReadBe24, DecodeAt;
    IncompleteList(data);
    if |data| < 4 {
      return None;
    }
    var descriptorBytes := data[3] as nat;
    if descriptorBytes % 8 != 0 || descriptorBytes > |data| - 4 {
      return None;
    }
    assert descriptorBytes / 8 <= MAX_FORMAT_DESCRIPTORS;
    var descriptors: seq<Descriptor> := [];
    var offset := 4;
    while offset < 4 + descriptorBytes
      invariant offset == 4 + 8 * |descriptors| && offset <= 4 + descriptorBytes
      invariant forall i :: 0 <= i < |descriptors| ==> descriptors[i] == DecodeAt(data, 4 + 8 * i)
    {
      var blocks := ReadBe32(data, offset);
      var blockSize := ReadBe24(data, offset + 5);
      assert blocks.Some? && blockSize.Some?;
      DecodedAt(data, offset);
      descriptors := descriptors + [Descriptor(blocks.value, blockSize.value, data[offset + 4] % 4)];
      offset := offset + 8;
    }
    DescriptorsAreAll(data, descriptors);
    return Some(descriptors);
  }

  ghost function PrintDescriptors(ds: seq<Descriptor>, flags: seq<nat>): (r: seq<byte>)
    requires |flags| == |ds| && forall i :: 0 <= i < |ds| ==> Encodable(ds[i]) && flags[i] < 64
    ensures |r| == 8 * |ds|
  {
    if ds == [] then []
    else PrintDescriptors(ds[..|ds| - 1], flags[..|ds| - 1])
         + PrintDescriptor(ds[|ds| - 1], flags[|ds| - 1])
  }

  lemma DecodeInvertsPrintDescriptor(before: seq<byte>, d: Descriptor, flags: nat, after: seq<byte>)
    requires Encodable(d) && flags < 64
    ensures DecodeAt(before + PrintDescriptor(d, flags) + after, |before|) == d
  {
    var p := PrintDescriptor(d, flags);
    assert p[0..4] == Be32(d.blocks) && p[5..8] == Be24(d.blockSize);
    assert p[4] % 4 == d.code;
    hide PrintDescriptor, Be32, Be24, FlagsAndCode;
    var data := before + p + after;
    var o := |before|;
    assert data[o..o + 4] == p[0..4] == Be32(d.blocks);
    Be32Injective(ReadBe32(data, o).value, d.blocks);
    assert data[o + 5..o + 8] == p[5..8] == Be24(d.blockSize);
    Be24Injective(ReadBe24(data, o + 5).value, d.blockSize);
    assert data[o + 4] == p[4];
  }

  lemma {:induction false} DescriptorsInvertPrint(
      header: seq<byte>, ds: seq<Descriptor>, flags: seq<nat>, after: seq<byte>, i: nat)
    requires |header| == 4 && |flags| == |ds| && i < |ds|
    requires forall j :: 0 <= j < |ds| ==> Encodable(ds[j]) && flags[j] < 64
    ensures DecodeAt(header + PrintDescriptors(ds, flags) + after, 4 + 8 * i) == ds[i]
    decreases |ds|
  {
    var last := |ds| - 1;
    var front := PrintDescriptors(ds[..last], flags[..last]);
    var end := PrintDescriptor(ds[last], flags[last]);
    var data := header + PrintDescriptors(ds, flags) + after;
    if i == last {
      assert data == (header + front) + end + after;
      DecodeInvertsPrintDescriptor(header + front, ds[last], flags[last], after);
    } else {
      assert data == header + front + (end + after);
      DescriptorsInvertPrint(header, ds[..last], flags[..last], end + after, i);
    }
  }

  /** Parsing inverts the descriptor encoder for every list of at most 31
      descriptors, with any flag bits set and any bytes after the list. */
  lemma FormatCapacitiesInvertPrint(header: seq<byte>, ds: seq<Descriptor>, flags: seq<nat>, after: seq<byte>)
    requires |ds| <= MAX_FORMAT_DESCRIPTORS && |flags| == |ds|
    requires |header| == 4 && header[3] == 8 * |ds|
    requires forall j :: 0 <= j < |ds| ==> Encodable(ds[j]) && flags[j] < 64
    ensures FormatCapacities(header + PrintDescriptors(ds, flags) + after) == Some(ds)
  {
    hide PrintDescriptors, DecodeAt, Encodable;
    var data := header + PrintDescriptors(ds, flags) + after;
    assert data[3] == header[3];
    forall i | 0 <= i < |ds| ensures DecodeAt(data, 4 + 8 * i) == ds[i] {
      DescriptorsInvertPrint(header, ds, flags, after, i);
    }
    hide FormatCapacities;
    DescriptorsAreAll(data, ds);
  }
}
