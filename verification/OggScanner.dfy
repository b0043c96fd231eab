/**
 The Ogg page scanner behind the duration of Opus files (common/audio.go,
 getOpusDuration).  The page layout is that of RFC 3533, section 6: a 27-byte
 header beginning with "OggS", the granule position in bytes 6 to 13 (signed,
 least significant byte first), the number of segments in byte 26, then the
 segment table and the segments.
 */
module OggScanner {
  import opened Numbers

  const HEADER := 27
  const CAPTURE: seq<Byte> := [0x4F, 0x67, 0x67, 0x53]   // "OggS"

  /** Least significant byte first. */
  function LittleEndian(b: seq<Byte>): nat {
    if b == [] then 0 else b[0] + 256 * LittleEndian(b[1..])
  }

  /** Two's complement in 64 bits. */
  function Signed(u: int): int {
    if u < TWO_63 then u else u - TWO_64
  }

  function Sum(b: seq<Byte>): nat {
    if b == [] then 0 else Sum(b[..|b| - 1]) + b[|b| - 1]
  }

  function Pow256(n: nat): nat {
    if n == 0 then 1 else 256 * Pow256(n - 1)
  }

  /** The first byte is the least significant. */
  lemma {:induction false} LittleEndianAppend(a: seq<Byte>, b: seq<Byte>)
    ensures LittleEndian(a + b) == LittleEndian(a) + Pow256(|a|) * LittleEndian(b)
    ensures forall x: Byte :: LittleEndian([x]) == x
  {
    assert Pow256(0) == 1;
    if a == [] {
      assert a + b == b;
    } else {
      var first, rest := a[0], a[1..];
      LittleEndianAppend(rest, b);
      assert (a + b)[1..] == rest + b && (a + b)[0] == first;
      Shift(first, LittleEndian(rest), Pow256(|rest|), LittleEndian(b));
    }
  }

  lemma Shift(first: int, x: int, p: int, y: int)
    ensures first + 256 * (x + p * y) == (first + 256 * x) + (256 * p) * y
  {
    assert 256 * (p * y) == (256 * p) * y;
  }

  /** Sum is what its name says. */
  lemma {:induction false} SumAppend(a: seq<Byte>, b: seq<Byte>)
    ensures Sum(a + b) == Sum(a) + Sum(b)
    ensures forall x: Byte :: Sum([x]) == x
  {
    assert Sum([]) == 0;
    if b == [] {
      assert a + b == a;
    } else {
      SumAppend(a, b[..|b| - 1]);
      assert (a + b)[..|a + b| - 1] == a + b[..|b| - 1];
    }
  }

  /** A byte stream with a position, as an io.ReadSeeker over a file. */
  class Reader {
    const data: seq<Byte>
    var pos: nat

    constructor (data: seq<Byte>)
      ensures this.data == data && pos == 0
    {
      this.data := data;
      pos := 0;
    }

    /** Reads up to n bytes; none at the end of the data. */
    method Read(n: nat) returns (buf: seq<Byte>)
      modifies this
      ensures old(pos) + n <= |data| ==> buf == data[old(pos)..old(pos) + n]
      ensures old(pos) + n > |data| ==> buf == data[Min(old(pos), |data|)..]
      ensures pos == old(pos) + |buf|
    {
      buf := data[Min(pos, |data|)..Min(pos + n, |data|)];
      pos := pos + |buf|;
    }

    method SeekStart(offset: nat)
      modifies this
      ensures pos == offset
    {
      pos := offset;
    }

    method SeekCurrent(offset: int)
      requires pos + offset >= 0
      modifies this
      ensures pos == old(pos) + offset
    {
      pos := pos + offset;
    }
  }

  predicate HasHeader(data: seq<Byte>, p: nat) {
    p + HEADER <= |data|
  }

  /** The capture pattern stands at p. */
  predicate MarkAt(data: seq<Byte>, p: nat) {
    p + 4 <= |data| && data[p..p + 4] == CAPTURE
  }

  predicate Captures(data: seq<Byte>, p: nat) {
    HasHeader(data, p) && MarkAt(data, p)
  }

  function GranuleAt(data: seq<Byte>, p: nat): int
    requires HasHeader(data, p)
  {
    Signed(LittleEndian(data[p + 6..p + 14]))
  }

  /** The highest granule position the scanner sees from position p on. */
  function Scan(data: seq<Byte>, p: nat, best: int): int
    decreases |data| - p
  {
    if !HasHeader(data, p) then best
    else if !Captures(data, p) then Scan(data, p + 1, best)
    else
      var table := p + HEADER + data[p + 26];
      var next := Max(best, GranuleAt(data, p));
      if table > |data| then next
      else Scan(data, table + Sum(data[p + HEADER..table]), next)
  }

  /** Reads the segment table and skips the segments; false when the data ends
      within the table. */
  method SkipSegments(r: Reader, numSegments: Byte) returns (whole: bool)
    requires r.pos <= |r.data|
    modifies r
    ensures whole <==> old(r.pos) + numSegments <= |r.data|
    ensures whole ==> r.pos == old(r.pos) + numSegments + Sum(r.data[old(r.pos)..old(r.pos) + numSegments])
  {
    ghost var p := r.pos;
    var table := r.Read(numSegments);
    if |table| < numSegments {
      return false;
    }
    assert table == r.data[p..p + numSegments];
    var pageSize: int := 0;
    for i := 0 to |table|
      invariant pageSize == Sum(table[..i])
    {
      assert table[..i + 1][..i] == table[..i];
      pageSize := pageSize + table[i];
    }
    assert table[..|table|] == table;
    r.SeekCurrent(pageSize);
    return true;
  }

  lemma HeaderSlices(data: seq<Byte>, p: nat)
    requires HasHeader(data, p)
    ensures data[p..p + HEADER][..4] == data[p..p + 4]
    ensures data[p..p + HEADER][6..14] == data[p + 6..p + 14]
    ensures data[p..p + HEADER][26] == data[p + 26]
  {
    var h := data[p..p + HEADER];
    SliceOfSlice(data, p, h, 0, 4);
    SliceOfSlice(data, p, h, 6, 14);
  }

  /** Reads a page header, or what is left of one. */
  method ReadHeader(r: Reader) returns (buf: seq<Byte>)
    modifies r
    ensures |buf| == HEADER <==> HasHeader(r.data, old(r.pos))
    ensures |buf| <= HEADER
    ensures |buf| == HEADER ==>
              && r.pos == old(r.pos) + HEADER
              && buf[..4] == r.data[old(r.pos)..old(r.pos) + 4]
              && buf[6..14] == r.data[old(r.pos) + 6..old(r.pos) + 14]
              && buf[26] == r.data[old(r.pos) + 26]
  {
    ghost var p := r.pos;
    buf := r.Read(HEADER);
    if HasHeader(r.data, p) {
      HeaderSlices(r.data, p);
    }
  }

  /** One iteration of the scanner. */
  lemma ScanStep(data: seq<Byte>, p: nat, best: int)
    ensures !HasHeader(data, p) ==> Scan(data, p, best) == best
    ensures HasHeader(data, p) && data[p..p + 4] != CAPTURE ==> Scan(data, p, best) == Scan(data, p + 1, best)
    ensures HasHeader(data, p) && data[p..p + 4] == CAPTURE ==>
              var table := p + HEADER + data[p + 26];
              var next := Max(best, Signed(LittleEndian(data[p + 6..p + 14])));
              Scan(data, p, best)
              == if table > |data| then next else Scan(data, table + Sum(data[p + HEADER..table]), next)
  {
  }

  /** getOpusDuration, without the division by the sample rate. */
  method OpusGranules(r: Reader) returns (total: int)
    modifies r
    ensures total == Scan(r.data, 0, 0)
  {
    hide Scan, LittleEndian, Signed, Sum;
    r.SeekStart(0);
    total := 0;
    ghost var p := 0;
    while true
      invariant r.pos == p
      invariant Scan(r.data, p, total) == Scan(r.data, 0, 0)
      decreases |r.data| - p
    {
      ScanStep(r.data, p, total);
      var buf := ReadHeader(r);
      if |buf| == 0 { break; }
      if |buf| < HEADER { break; }
      if buf[..4] != CAPTURE {
        r.SeekCurrent(-26);
        p := p + 1;
      } else {
        var granulePos := Signed(LittleEndian(buf[6..14]));
        if granulePos > total {
          total := granulePos;
        }
        var whole := SkipSegments(r, buf[26]);
        if !whole { break; }
        p := r.pos;
      }
    }
  }

  // ---------------------------------------------------------------- pages

  /** One page of a stream. */
  datatype Page = Page(
    headerType: Byte, granule: int, serial: seq<Byte>, sequence: seq<Byte>, crc: seq<Byte>,
    segments: seq<Byte>, body: seq<Byte>)

  ghost predicate WellFormed(page: Page) {
    && -TWO_63 <= page.granule < TWO_63
    && |page.serial| == 4 && |page.sequence| == 4 && |page.crc| == 4
    && |page.segments| <= 255
    && |page.body| == Sum(page.segments)
  }

  function LittleEndianBytes(u: nat, n: nat): (b: seq<Byte>)
    ensures |b| == n
  {
    if n == 0 then [] else [u % 256] + LittleEndianBytes(u / 256, n - 1)
  }

  function Header(page: Page): seq<Byte>
    requires WellFormed(page)
  {
    CAPTURE + [0, page.headerType]
    + LittleEndianBytes(if page.granule < 0 then page.granule + TWO_64 else page.granule, 8)
    + page.serial + page.sequence + page.crc + [|page.segments|]
  }

  function Encode(page: Page): seq<Byte>
    requires WellFormed(page)
  {
    Header(page) + page.segments + page.body
  }

  ghost predicate AllWellFormed(pages: seq<Page>) {
    forall i :: 0 <= i < |pages| ==> WellFormed(pages[i])
  }

  function EncodeAll(pages: seq<Page>): seq<Byte>
    requires AllWellFormed(pages)
  {
    if pages == [] then [] else Encode(pages[0]) + EncodeAll(pages[1..])
  }

  /** The maximum of 0 and the granule positions of the pages. */
  function MaxGranule(pages: seq<Page>, best: int): int {
    if pages == [] then best else MaxGranule(pages[1..], Max(best, pages[0].granule))
  }

  lemma {:induction false} MaxGranuleIsMaximum(pages: seq<Page>, best: int)
    ensures MaxGranule(pages, best) >= best
    ensures forall i :: 0 <= i < |pages| ==> pages[i].granule <= MaxGranule(pages, best)
    ensures MaxGranule(pages, best) == best
         || exists i :: 0 <= i < |pages| && pages[i].granule == MaxGranule(pages, best)
  {
    if pages != [] {
      MaxGranuleIsMaximum(pages[1..], Max(best, pages[0].granule));
      var m := MaxGranule(pages, best);
      if m != best && m != pages[0].granule {
        var i :| 0 <= i < |pages[1..]| && pages[1..][i].granule == m;
        assert pages[i + 1].granule == m;
      }
    }
  }

  lemma {:induction false} LittleEndianRoundTrip(u: nat, n: nat)
    requires u < Pow256(n)
    ensures LittleEndian(LittleEndianBytes(u, n)) == u
  {
    if n > 0 {
      LittleEndianRoundTrip(u / 256, n - 1);
      assert LittleEndianBytes(u, n)[1..] == LittleEndianBytes(u / 256, n - 1);
    }
  }

  lemma Pow256Of8()
    ensures Pow256(8) == TWO_64
  {
    assert Pow256(4) == 0x1_0000_0000;
    assert Pow256(6) == 0x1_0000_0000_0000;
  }

  lemma HeaderFields(page: Page)
    requires WellFormed(page)
    ensures |Header(page)| == HEADER
    ensures Header(page)[..4] == CAPTURE
    ensures Signed(LittleEndian(Header(page)[6..14])) == page.granule
    ensures Header(page)[4..6] == [0, page.headerType]
    ensures Header(page)[14..26] == page.serial + page.sequence + page.crc
    ensures Header(page)[26] == |page.segments|
  {
    var u := if page.granule < 0 then page.granule + TWO_64 else page.granule;
    Pow256Of8();
    LittleEndianRoundTrip(u, 8);
    assert Header(page)[6..14] == LittleEndianBytes(u, 8);
  }

  /** A page header is captured by the four bytes of "OggS" with 27 bytes in all; its
      granule position is the 64-bit two's complement number, least byte first, that
      starts at byte 6. */
  lemma CapturesExactly(data: seq<Byte>, p: nat)
    ensures Captures(data, p) <==>
              && p + 27 <= |data|
              && data[p] as char == 'O' && data[p + 1] as char == 'g'
              && data[p + 2] as char == 'g' && data[p + 3] as char == 'S'
    ensures Captures(data, p) ==>
              var g: seq<int> := data[p + 6..p + 14];
              GranuleAt(data, p)
              == g[0] + 0x100 * g[1] + 0x1_0000 * g[2] + 0x100_0000 * g[3] + 0x1_0000_0000 * g[4]
                 + 0x100_0000_0000 * g[5] + 0x1_0000_0000_0000 * g[6] + 0x100_0000_0000_0000 * g[7]
                 - if g[7] >= 128 then 0x1_0000_0000_0000_0000 else 0
  {
    if Captures(data, p) {
      EightBytes(data[p + 6..p + 14]);
    }
  }

  lemma EightBytes(g: seq<Byte>)
    requires |g| == 8
    ensures var b: seq<int> := g;
            LittleEndian(g)
            == b[0] + 0x100 * b[1] + 0x1_0000 * b[2] + 0x100_0000 * b[3] + 0x1_0000_0000 * b[4]
               + 0x100_0000_0000 * b[5] + 0x1_0000_0000_0000 * b[6] + 0x100_0000_0000_0000 * b[7]
  {
    FourBytes(g[..4]);
    FourBytes(g[4..]);
    LittleEndianAppend(g[..4], g[4..]);
    assert g == g[..4] + g[4..];
    assert Pow256(4) == 0x1_0000_0000;
  }

  lemma FourBytes(g: seq<Byte>)
    requires |g| == 4
    ensures var b: seq<int> := g;
            LittleEndian(g) == b[0] + 0x100 * b[1] + 0x1_0000 * b[2] + 0x100_0000 * b[3]
  {
    assert LittleEndian(g[3..]) == g[3];
    assert LittleEndian(g[2..]) == g[2] + 256 * LittleEndian(g[2..][1..]) && g[2..][1..] == g[3..];
    assert LittleEndian(g[1..]) == g[1] + 256 * LittleEndian(g[1..][1..]) && g[1..][1..] == g[2..];
  }

  lemma SliceOfSlice(data: seq<Byte>, p: nat, e: seq<Byte>, i: nat, j: nat)
    requires p + |e| <= |data| && data[p..p + |e|] == e && i <= j <= |e|
    ensures data[p + i..p + j] == e[i..j]
  {
    forall k | i <= k < j ensures data[p + k] == e[k] {
      assert data[p..p + |e|][k] == data[p + k];
    }
  }

  ghost predicate PageAt(data: seq<Byte>, p: nat, page: Page)
    requires WellFormed(page)
  {
    p + |Encode(page)| <= |data| && data[p..p + |Encode(page)|] == Encode(page)
  }

  lemma PageFields(data: seq<Byte>, p: nat, page: Page)
    requires WellFormed(page) && PageAt(data, p, page)
    ensures Captures(data, p) && GranuleAt(data, p) == page.granule
    ensures var n := |page.segments|;
            && data[p + 26] == n && p + HEADER + n <= |data|
            && data[p + HEADER..p + HEADER + n] == page.segments
            && p + |Encode(page)| == p + HEADER + n + Sum(page.segments)
  {
    HeaderFields(page);
    var e, h, n := Encode(page), Header(page), |page.segments|;
    SliceOfSlice(data, p, e, 0, 4);
    SliceOfSlice(data, p, e, 6, 14);
    SliceOfSlice(data, p, e, HEADER, HEADER + n);
    assert data[p..p + |e|][26] == e[26] == h[26];
    assert e[..4] == h[..4] && e[6..14] == h[6..14] && e[HEADER..HEADER + n] == page.segments;
  }

  /** A well-formed page at p is read whole: its granule position counts, and the
      scan resumes at its end. */
  lemma ScanPage(data: seq<Byte>, p: nat, page: Page, best: int)
    requires WellFormed(page) && PageAt(data, p, page)
    ensures Scan(data, p, best) == Scan(data, p + |Encode(page)|, Max(best, page.granule))
  {
    hide Header, Encode, PageAt, GranuleAt;
    PageFields(data, p, page);
  }

  lemma {:induction false} ScanPages(data: seq<Byte>, p: nat, pages: seq<Page>, best: int)
    requires AllWellFormed(pages)
    requires p <= |data| && data[p..] == EncodeAll(pages)
    ensures Scan(data, p, best) == MaxGranule(pages, best)
    decreases |pages|
  {
    if pages == [] {
      assert p == |data|;
    } else {
      var e := Encode(pages[0]);
      assert data[p..][..|e|] == e && data[p..][|e|..] == EncodeAll(pages[1..]);
      assert data[p..p + |e|] == data[p..][..|e|];
      assert data[p + |e|..] == data[p..][|e|..];
      ScanPage(data, p, pages[0], best);
      ScanPages(data, p + |e|, pages[1..], Max(best, pages[0].granule));
    }
  }

  /** Before the first page the scanner moves one byte at a time. */
  lemma {:induction false} ScanPrefix(data: seq<Byte>, p: nat, start: nat, best: int)
    requires p <= start && (start < |data| ==> HasHeader(data, start)) && start <= |data|
    requires forall q :: p <= q < start ==> !MarkAt(data, q)
    ensures Scan(data, p, best) == Scan(data, start, best)
    decreases start - p
  {
    if p < start {
      if HasHeader(data, p) {
        ScanPrefix(data, p + 1, start, best);
      } else {
        assert !HasHeader(data, start);
      }
    }
  }

  /** Main result: on any bytes followed by well-formed pages, where the first
      "OggS" is that of the first page, the scanner returns the maximum of 0 and
      all granule positions. */
  lemma FindsMaximum(prefix: seq<Byte>, pages: seq<Page>)
    requires AllWellFormed(pages)
    requires var data := prefix + EncodeAll(pages);
             forall q :: 0 <= q < |prefix| ==> !MarkAt(data, q)
    ensures Scan(prefix + EncodeAll(pages), 0, 0) == MaxGranule(pages, 0)
  {
    var data := prefix + EncodeAll(pages);
    assert data[|prefix|..] == EncodeAll(pages);
    if pages != [] {
      HeaderFields(pages[0]);
    }
    ScanPrefix(data, 0, |prefix|, 0);
    ScanPages(data, |prefix|, pages, 0);
  }

  /** On any bytes at all the result is 0 or the granule position of some
      page header in the data, and no less than that of a header at the start. */
  lemma {:induction false} ScanSound(data: seq<Byte>, p: nat, best: int)
    ensures Scan(data, p, best) >= best
    ensures Scan(data, p, best) == best
         || exists q :: p <= q && Captures(data, q) && GranuleAt(data, q) == Scan(data, p, best)
    ensures Captures(data, p) ==> Scan(data, p, best) >= GranuleAt(data, p)
    decreases |data| - p
  {
    if HasHeader(data, p) {
      if !Captures(data, p) {
        ScanSound(data, p + 1, best);
      } else {
        var table := p + HEADER + data[p + 26];
        var next := Max(best, GranuleAt(data, p));
        if table <= |data| {
          ScanSound(data, table + Sum(data[p + HEADER..table]), next);
        }
      }
    }
  }
}
