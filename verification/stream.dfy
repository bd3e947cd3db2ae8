/**
 The page stream a snapshot travels in: entries framed into pages cut at any
 entry boundary, an end-of-pages sentinel, and a trailer of entry counts.
 */
module Stream {
  import opened Bytes
  import opened Layout
  import opened Node

  type Raw = seq<Byte>

  /** One entry on the wire: a section number, a key suffix and a value. */
  datatype Item = Item(section: nat, key: Key, val: Value)

  datatype Parsed<T> = Bad | Good(value: T, rest: Raw)

  const U32_LIMIT: nat := 0x1_0000_0000

  const PAGE_SIZE: nat := 0x10_0000

  const SENTINEL: Raw := [0, 0, 0, 0]

  // --- concatenation -----------------------------------------------------------------------

  function Glue(parts: seq<Raw>): Raw {
    if parts == [] then [] else parts[0] + Glue(parts[1..])
  }

  lemma {:induction false} GlueAppend(a: seq<Raw>, b: seq<Raw>)
    ensures Glue(a + b) == Glue(a) + Glue(b)
    decreases |a|
  {
    if a == [] {
      assert a + b == b;
    } else {
      GlueAppend(a[1..], b);
      assert (a + b)[1..] == a[1..] + b;
    }
  }

  lemma GlueOne(x: Raw)
    ensures Glue([x]) == x
  {
    assert [x][1..] == [];
  }

  // --- frames -----------------------------------------------------------------------------

  lemma U32Width()
    ensures Pow256(4) == U32_LIMIT
  {
    assert Pow256(2) == 0x1_0000;
  }

  function Frame(b: Raw): Raw {
    BigEndian(|b|, 4) + b
  }

  /** io.ReadFull of a length prefix, then of that many bytes. */
  function ParseFrame(input: Raw): Parsed<Raw> {
    if |input| < 4 then Bad
    else
      var n := FromBigEndian(input[..4]);
      if |input| < 4 + n then Bad else Good(input[4..4 + n], input[4 + n..])
  }

  lemma FrameRoundTrip(b: Raw, tail: Raw)
    requires |b| < U32_LIMIT
    ensures ParseFrame(Frame(b) + tail) == Good(b, tail)
  {
    U32Width();
    BigEndianRoundTrip(|b|, 4);
    var input := Frame(b) + tail;
    assert input[..4] == BigEndian(|b|, 4);
    assert input[4..4 + |b|] == b && input[4 + |b|..] == tail;
  }

  lemma ParseFrameExtends(input: Raw, more: Raw)
    requires ParseFrame(input).Good?
    ensures ParseFrame(input + more) == Good(ParseFrame(input).value, ParseFrame(input).rest + more)
  {
    var n, all := FromBigEndian(input[..4]), input + more;
    assert all[..4] == input[..4];
    assert all[4..4 + n] == input[4..4 + n] && all[4 + n..] == input[4 + n..] + more;
  }

  // --- entries ----------------------------------------------------------------------------

  predicate ItemOk(nsec: nat, it: Item) {
    it.section < nsec && |it.key| < U32_LIMIT && |it.val| < U32_LIMIT
  }

  predicate ItemsOk(nsec: nat, items: seq<Item>) {
    forall i :: 0 <= i < |items| ==> ItemOk(nsec, items[i])
  }

  function EncodeItem(it: Item): Raw {
    [it.section % 256] + Frame(it.key) + Frame(it.val)
  }

  function ParseItem(nsec: nat, input: Raw): Parsed<Item> {
    if input == [] || input[0] >= nsec then Bad
    else
      var key := ParseFrame(input[1..]);
      if key.Bad? then Bad
      else
        var val := ParseFrame(key.rest);
        if val.Bad? then Bad else Good(Item(input[0], key.value, val.value), val.rest)
  }

  lemma ItemRoundTrip(nsec: nat, it: Item, tail: Raw)
    requires nsec <= 256 && ItemOk(nsec, it)
    ensures ParseItem(nsec, EncodeItem(it) + tail) == Good(it, tail)
  {
    var input := EncodeItem(it) + tail;
    assert input[1..] == Frame(it.key) + (Frame(it.val) + tail);
    FrameRoundTrip(it.key, Frame(it.val) + tail);
    FrameRoundTrip(it.val, tail);
  }

  lemma ParseItemShrinks(nsec: nat, input: Raw)
    ensures ParseItem(nsec, input).Good? ==> |ParseItem(nsec, input).rest| + 9 <= |input|
  {
  }

  function ItemRaws(items: seq<Item>): (raws: seq<Raw>)
    ensures |raws| == |items| && forall i :: 0 <= i < |raws| ==> raws[i] == EncodeItem(items[i])
  {
    seq(|items|, i requires 0 <= i < |items| => EncodeItem(items[i]))
  }

  function EncodeItems(items: seq<Item>): Raw {
    Glue(ItemRaws(items))
  }

  lemma EncodeItemsHead(items: seq<Item>)
    requires items != []
    ensures EncodeItems(items) == EncodeItem(items[0]) + EncodeItems(items[1..])
  {
    assert ItemRaws(items)[1..] == ItemRaws(items[1..]);
  }

  /** All the entries of one page; a page must be used up exactly. */
  function ParseItems(nsec: nat, page: Raw): Option<seq<Item>>
    decreases |page|
  {
    if page == [] then Some([])
    else
      var it := ParseItem(nsec, page);
      if it.Bad? then None
      else
        ParseItemShrinks(nsec, page);
        Prepend([it.value], ParseItems(nsec, it.rest))
  }

  function Prepend(items: seq<Item>, more: Option<seq<Item>>): Option<seq<Item>> {
    if more.None? then None else Some(items + more.value)
  }

  lemma PrependNothing(items: Option<seq<Item>>)
    ensures Prepend([], items) == items
  {
    if items.Some? { assert [] + items.value == items.value; }
  }

  lemma {:induction false} ItemsRoundTrip(nsec: nat, items: seq<Item>)
    requires nsec <= 256 && ItemsOk(nsec, items)
    ensures ParseItems(nsec, EncodeItems(items)) == Some(items)
    decreases |items|
  {
    if items != [] {
      var rest := items[1..];
      ItemsRoundTrip(nsec, rest);
      ItemRoundTrip(nsec, items[0], EncodeItems(rest));
      EncodeItemsHead(items);
      assert [items[0]] + rest == items;
    }
  }

  lemma EncodeItemsAppend(items: seq<Item>, more: seq<Item>)
    ensures EncodeItems(items + more) == EncodeItems(items) + EncodeItems(more)
  {
    assert ItemRaws(items + more) == ItemRaws(items) + ItemRaws(more);
    GlueAppend(ItemRaws(items), ItemRaws(more));
  }

  // --- pages -------------------------------------------------------------------------------

  predicate PageOk(nsec: nat, page: seq<Item>) {
    page != [] && ItemsOk(nsec, page) && |EncodeItems(page)| < U32_LIMIT
  }

  predicate PagesOk(nsec: nat, pages: seq<seq<Item>>) {
    forall i {:trigger PageOk(nsec, pages[i])} :: 0 <= i < |pages| ==> PageOk(nsec, pages[i])
  }

  function Flatten(pages: seq<seq<Item>>): seq<Item> {
    if pages == [] then [] else pages[0] + Flatten(pages[1..])
  }

  lemma {:induction false} FlattenAppend(pages: seq<seq<Item>>, page: seq<Item>)
    ensures Flatten(pages + [page]) == Flatten(pages) + page
    decreases |pages|
  {
    if pages == [] {
      assert pages + [page] == [page] && [page][1..] == [];
    } else {
      FlattenAppend(pages[1..], page);
      assert (pages + [page])[1..] == pages[1..] + [page];
    }
  }

  function PageRaws(pages: seq<seq<Item>>): (raws: seq<Raw>)
    ensures |raws| == |pages| && forall i :: 0 <= i < |raws| ==> raws[i] == Frame(EncodeItems(pages[i]))
  {
    seq(|pages|, i requires 0 <= i < |pages| => Frame(EncodeItems(pages[i])))
  }

  function EncodePages(pages: seq<seq<Item>>): Raw {
    Glue(PageRaws(pages))
  }

  lemma EncodePagesHead(pages: seq<seq<Item>>)
    requires pages != []
    ensures EncodePages(pages) == Frame(EncodeItems(pages[0])) + EncodePages(pages[1..])
  {
    assert PageRaws(pages)[1..] == PageRaws(pages[1..]);
  }

  lemma EncodePagesAppend(pages: seq<seq<Item>>, page: seq<Item>)
    ensures EncodePages(pages + [page]) == EncodePages(pages) + Frame(EncodeItems(page))
  {
    var raw := Frame(EncodeItems(page));
    assert PageRaws(pages + [page]) == PageRaws(pages) + [raw];
    GlueAppend(PageRaws(pages), [raw]);
    GlueOne(raw);
  }

  /** Pages up to and including the zero-length sentinel. */
  function ReadPages(nsec: nat, input: Raw): Parsed<seq<Item>>
    decreases |input|
  {
    var page := ParseFrame(input);
    if page.Bad? then Bad
    else if page.value == [] then Good([], page.rest)
    else
      var items := ParseItems(nsec, page.value);
      if items.None? then Bad else PrependParsed(items.value, ReadPages(nsec, page.rest))
  }

  function PrependParsed(items: seq<Item>, more: Parsed<seq<Item>>): Parsed<seq<Item>> {
    if more.Bad? then Bad else Good(items + more.value, more.rest)
  }

  lemma {:induction false} PagesRoundTrip(nsec: nat, pages: seq<seq<Item>>, tail: Raw)
    requires nsec <= 256 && PagesOk(nsec, pages)
    ensures ReadPages(nsec, EncodePages(pages) + SENTINEL + tail) == Good(Flatten(pages), tail)
    decreases |pages|
  {
    if pages == [] {
      assert EncodePages(pages) + SENTINEL + tail == Frame([]) + tail by { assert BigEndian(0, 4) == SENTINEL by { ZeroFrame(); } }
      FrameRoundTrip([], tail);
    } else {
      assert PageOk(nsec, pages[0]);
      TailOk(nsec, pages);
      var page, after := EncodeItems(pages[0]), EncodePages(pages[1..]) + SENTINEL + tail;
      PagesRoundTrip(nsec, pages[1..], tail);
      EncodePagesHead(pages);
      Regroup(Frame(page), EncodePages(pages[1..]), SENTINEL, tail);
      FrameRoundTrip(page, after);
      ItemsRoundTrip(nsec, pages[0]);
    }
  }

  lemma Regroup(a: Raw, b: Raw, c: Raw, d: Raw)
    ensures a + b + c + d == a + (b + c + d)
  {
  }

  lemma TailOk(nsec: nat, pages: seq<seq<Item>>)
    requires PagesOk(nsec, pages) && pages != []
    ensures PagesOk(nsec, pages[1..])
  {
    forall i | 0 <= i < |pages| - 1 ensures PageOk(nsec, pages[1..][i]) { assert PageOk(nsec, pages[i + 1]); }
  }

  lemma AppendOk(nsec: nat, pages: seq<seq<Item>>, page: seq<Item>)
    requires PagesOk(nsec, pages) && PageOk(nsec, page)
    ensures PagesOk(nsec, pages + [page])
  {
    var all := pages + [page];
    forall i | 0 <= i < |all| ensures PageOk(nsec, all[i]) { assert i < |pages| ==> PageOk(nsec, pages[i]); }
  }

  lemma ZeroFrame()
    ensures BigEndian(0, 4) == SENTINEL
  {
    assert BigEndian(0, 1) == [0];
    assert BigEndian(0, 2) == [0, 0];
    assert BigEndian(0, 3) == [0, 0, 0];
  }

  lemma {:induction false} ReadPagesExtends(nsec: nat, input: Raw, more: Raw)
    requires ReadPages(nsec, input).Good?
    ensures ReadPages(nsec, input + more) == Good(ReadPages(nsec, input).value, ReadPages(nsec, input).rest + more)
    decreases |input|
  {
    ParseFrameExtends(input, more);
    var page := ParseFrame(input);
    if page.value != [] { ReadPagesExtends(nsec, page.rest, more); }
  }

  // --- the trailer ---------------------------------------------------------------------------

  function Count(items: seq<Item>, section: nat): nat
    decreases |items|
  {
    if items == [] then 0
    else Count(items[..|items| - 1], section) + if items[|items| - 1].section == section then 1 else 0
  }

  lemma {:induction false} CountBound(items: seq<Item>, section: nat)
    ensures Count(items, section) <= |items|
    decreases |items|
  {
    if items != [] { CountBound(items[..|items| - 1], section); }
  }

  function CountsOf(nsec: nat, items: seq<Item>): (counts: seq<nat>)
    ensures |counts| == nsec
  {
    seq(nsec, i requires 0 <= i < nsec => Count(items, i))
  }

  function EncodeCounts(counts: seq<nat>): Raw {
    if counts == [] then [] else BigEndian(counts[0], 8) + EncodeCounts(counts[1..])
  }

  /** The sender's counts, which must be what was staged. */
  function ReadCounts(counts: seq<nat>, input: Raw): Parsed<seq<nat>>
    decreases |counts|
  {
    if counts == [] then Good([], input)
    else if |input| < 8 || FromBigEndian(input[..8]) != counts[0] then Bad
    else
      var rest := ReadCounts(counts[1..], input[8..]);
      if rest.Bad? then Bad else Good(counts, rest.rest)
  }

  lemma {:induction false} CountsRoundTrip(counts: seq<nat>, tail: Raw)
    requires forall i :: 0 <= i < |counts| ==> counts[i] < U64_LIMIT
    ensures ReadCounts(counts, EncodeCounts(counts) + tail) == Good(counts, tail)
    decreases |counts|
  {
    if counts == [] {
      assert EncodeCounts(counts) + tail == tail;
    } else {
      U64Width();
      BigEndianRoundTrip(counts[0], 8);
      CountsRoundTrip(counts[1..], tail);
      var input := EncodeCounts(counts) + tail;
      assert input[..8] == BigEndian(counts[0], 8) && input[8..] == EncodeCounts(counts[1..]) + tail;
    }
  }

  lemma {:induction false} ReadCountsExtends(counts: seq<nat>, input: Raw, more: Raw)
    requires ReadCounts(counts, input).Good?
    ensures ReadCounts(counts, input + more) == Good(counts, ReadCounts(counts, input).rest + more)
    decreases |counts|
  {
    if counts != [] {
      ReadCountsExtends(counts[1..], input[8..], more);
      assert (input + more)[..8] == input[..8] && (input + more)[8..] == input[8..] + more;
    }
  }

  function Trailer(nsec: nat, items: seq<Item>): Raw {
    [nsec % 256] + EncodeCounts(CountsOf(nsec, items))
  }

  function ReadTrailer(nsec: nat, items: seq<Item>, input: Raw): Parsed<seq<Item>> {
    if input == [] || input[0] != nsec then Bad
    else
      var counts := ReadCounts(CountsOf(nsec, items), input[1..]);
      if counts.Bad? then Bad else Good(items, counts.rest)
  }

  lemma TrailerOf(nsec: nat, items: seq<Item>, counts: seq<nat>)
    requires nsec <= 255 && counts == CountsOf(nsec, items)
    ensures [nsec] + EncodeCounts(counts) == Trailer(nsec, items)
  {
  }

  lemma TrailerRoundTrip(nsec: nat, items: seq<Item>, tail: Raw)
    requires nsec <= 255 && |items| < U64_LIMIT
    ensures ReadTrailer(nsec, items, Trailer(nsec, items) + tail) == Good(items, tail)
  {
    var counts := CountsOf(nsec, items);
    forall i | 0 <= i < |counts| ensures counts[i] < U64_LIMIT { CountBound(items, i); }
    CountsRoundTrip(counts, tail);
    assert (Trailer(nsec, items) + tail)[1..] == EncodeCounts(counts) + tail;
  }

  lemma ReadTrailerExtends(nsec: nat, items: seq<Item>, input: Raw, more: Raw)
    requires ReadTrailer(nsec, items, input).Good?
    ensures ReadTrailer(nsec, items, input + more) == Good(items, ReadTrailer(nsec, items, input).rest + more)
  {
    ReadCountsExtends(CountsOf(nsec, items), input[1..], more);
    assert (input + more)[1..] == input[1..] + more;
  }

  // --- whole streams -----------------------------------------------------------------------------

  function EncodeStream(nsec: nat, pages: seq<seq<Item>>): Raw {
    EncodePages(pages) + SENTINEL + Trailer(nsec, Flatten(pages))
  }

  function ReadStream(nsec: nat, input: Raw): Parsed<seq<Item>> {
    if !(1 <= nsec <= 255) then Bad
    else
      var pages := ReadPages(nsec, input);
      if pages.Bad? then Bad else ReadTrailer(nsec, pages.value, pages.rest)
  }

  /** Wherever the pages were cut, reading a stream back gives every entry in order. */
  lemma StreamRoundTrip(nsec: nat, pages: seq<seq<Item>>, tail: Raw)
    requires 1 <= nsec <= 255 && PagesOk(nsec, pages) && |Flatten(pages)| < U64_LIMIT
    ensures ReadStream(nsec, EncodeStream(nsec, pages) + tail) == Good(Flatten(pages), tail)
  {
    var trailer := Trailer(nsec, Flatten(pages));
    assert EncodeStream(nsec, pages) + tail == EncodePages(pages) + SENTINEL + (trailer + tail);
    PagesRoundTrip(nsec, pages, trailer + tail);
    TrailerRoundTrip(nsec, Flatten(pages), tail);
  }

  lemma ReadStreamExtends(nsec: nat, input: Raw, more: Raw)
    requires ReadStream(nsec, input).Good?
    ensures ReadStream(nsec, input + more) == Good(ReadStream(nsec, input).value, ReadStream(nsec, input).rest + more)
  {
    var pages := ReadPages(nsec, input);
    ReadPagesExtends(nsec, input, more);
    ReadTrailerExtends(nsec, pages.value, pages.rest, more);
  }

  /** A stream cut off anywhere is refused. */
  lemma ProperPrefixRefused(nsec: nat, pages: seq<seq<Item>>, n: nat)
    requires 1 <= nsec <= 255 && PagesOk(nsec, pages) && |Flatten(pages)| < U64_LIMIT
    requires n < |EncodeStream(nsec, pages)|
    ensures ReadStream(nsec, EncodeStream(nsec, pages)[..n]).Bad?
  {
    var all := EncodeStream(nsec, pages);
    StreamRoundTrip(nsec, pages, []);
    CutAnywhere(all, n);
    ShortReadRefused(nsec, all[..n], all[n..]);
  }

  lemma CutAnywhere(x: Raw, n: nat)
    requires n <= |x|
    ensures x + [] == x && x[..n] + x[n..] == x
  {
  }

  /** Input that is used up exactly leaves nothing to spare. */
  lemma ShortReadRefused(nsec: nat, input: Raw, more: Raw)
    requires more != [] && ReadStream(nsec, input + more).Good? && ReadStream(nsec, input + more).rest == []
    ensures ReadStream(nsec, input).Bad?
  {
    if ReadStream(nsec, input).Good? { ReadStreamExtends(nsec, input, more); }
  }

  // --- writing ---------------------------------------------------------------------------------

  /** A row of the pinned view, its section prefix cut off. */
  datatype Pair = Pair(key: Key, val: Value)

  /** Far below what would overflow a page's 32-bit length. */
  predicate Fits(p: Pair) {
    9 + |p.key| + |p.val| + PAGE_SIZE < U32_LIMIT
  }

  function SectionItems(si: nat, pairs: seq<Pair>): (items: seq<Item>)
    ensures |items| == |pairs| && forall j :: 0 <= j < |pairs| ==> items[j] == Item(si, pairs[j].key, pairs[j].val)
  {
    seq(|pairs|, j requires 0 <= j < |pairs| => Item(si, pairs[j].key, pairs[j].val))
  }

  /** Every entry of every section, in section order and then key order. */
  function ItemsOf(sections: seq<seq<Pair>>): seq<Item>
    decreases |sections|
  {
    if sections == [] then []
    else ItemsOf(sections[..|sections| - 1]) + SectionItems(|sections| - 1, sections[|sections| - 1])
  }

  /** A page that reached a megabyte with its last entry, and not before. */
  predicate FullPage(page: seq<Item>) {
    page != [] && |EncodeItems(page)| >= 0x10_0000 && |EncodeItems(page[..|page| - 1])| < 0x10_0000
  }

  predicate FullPages(pages: seq<seq<Item>>) {
    forall i :: 0 <= i < |pages| ==> FullPage(pages[i])
  }

  /** Every page but the last is full; the last holds what was left. */
  predicate WellCut(pages: seq<seq<Item>>) {
    pages == [] || (FullPages(pages[..|pages| - 1]) && (FullPage(pages[|pages| - 1]) || |EncodeItems(pages[|pages| - 1])| < 0x10_0000))
  }

  /** The open page and the pages already sent account for the entries so far. */
  ghost predicate Sent(nsec: nat, out: Raw, page: Raw, pages: seq<seq<Item>>, open: seq<Item>, items: seq<Item>) {
    && PagesOk(nsec, pages) && out == EncodePages(pages) && FullPages(pages)
    && ItemsOk(nsec, open) && page == EncodeItems(open) && |page| < PAGE_SIZE
    && Flatten(pages) + open == items
  }

  lemma EncodeItemEmpty(it: Item)
    ensures EncodeItems([it]) == EncodeItem(it) && |EncodeItem(it)| == 9 + |it.key| + |it.val|
  {
    assert ItemRaws([it]) == [EncodeItem(it)];
    GlueOne(EncodeItem(it));
  }

  lemma EncodesNothing(items: seq<Item>)
    ensures EncodeItems(items) == [] <==> items == []
  {
    if items != [] { EncodeItemsHead(items); }
  }

  /** As Sent, but the open page may have grown past the threshold. */
  ghost predicate Pending(nsec: nat, out: Raw, page: Raw, pages: seq<seq<Item>>, open: seq<Item>, items: seq<Item>) {
    && PagesOk(nsec, pages) && out == EncodePages(pages)
    && ItemsOk(nsec, open) && page == EncodeItems(open) && |page| < U32_LIMIT
    && Flatten(pages) + open == items
  }

  lemma BufferItem(nsec: nat, it: Item, out: Raw, page: Raw, pages: seq<seq<Item>>, open: seq<Item>, items: seq<Item>)
    requires Sent(nsec, out, page, pages, open, items) && ItemOk(nsec, it) && 9 + |it.key| + |it.val| + PAGE_SIZE < U32_LIMIT
    ensures Pending(nsec, out, page + EncodeItem(it), pages, open + [it], items + [it])
  {
    EncodeItemsAppend(open, [it]);
    EncodeItemEmpty(it);
    assert Flatten(pages) + (open + [it]) == items + [it];
  }

  lemma FlushPage(nsec: nat, out: Raw, page: Raw, pages: seq<seq<Item>>, open: seq<Item>, items: seq<Item>)
    requires Pending(nsec, out, page, pages, open, items) && page != []
    ensures Pending(nsec, out + Frame(page), [], pages + [open], [], items)
  {
    EncodesNothing(open);
    EncodesNothing([]);
    assert PageOk(nsec, open);
    AppendOk(nsec, pages, open);
    EncodePagesAppend(pages, open);
    FlattenAppend(pages, open);
    assert items + [] == items;
  }

  /** Buffers one entry and cuts the page once it is full. */
  method Emit(nsec: nat, si: Byte, p: Pair, out: Raw, page: Raw, ghost pages: seq<seq<Item>>, ghost open: seq<Item>, ghost items: seq<Item>)
    returns (out': Raw, page': Raw, ghost pages': seq<seq<Item>>, ghost open': seq<Item>)
    requires nsec <= 255 && si < nsec && Fits(p) && Sent(nsec, out, page, pages, open, items)
    ensures Sent(nsec, out', page', pages', open', items + [Item(si, p.key, p.val)])
  {
    ghost var it := Item(si, p.key, p.val);
    BufferItem(nsec, it, out, page, pages, open, items);
    page' := page + ([si] + Frame(p.key) + Frame(p.val));
    out', pages', open' := out, pages, open + [it];
    if |page'| >= PAGE_SIZE {
      FlushPage(nsec, out, page', pages, open', items + [it]);
      assert open'[..|open'| - 1] == open && FullPage(open');
      out' := out + Frame(page');
      pages', page', open' := pages + [open'], [], [];
    }
  }

  /** A section's entries in key order. */
  method EmitSection(nsec: nat, si: Byte, pairs: seq<Pair>, out: Raw, page: Raw, ghost pages: seq<seq<Item>>, ghost open: seq<Item>, ghost items: seq<Item>)
    returns (out': Raw, page': Raw, count: nat, ghost pages': seq<seq<Item>>, ghost open': seq<Item>)
    requires nsec <= 255 && si < nsec && Sent(nsec, out, page, pages, open, items)
    requires forall j :: 0 <= j < |pairs| ==> Fits(pairs[j])
    ensures Sent(nsec, out', page', pages', open', items + SectionItems(si, pairs)) && count == |pairs|
  {
    out', page', pages', open', count := out, page, pages, open, 0;
    assert items + SectionItems(si, pairs[..0]) == items;
    for j := 0 to |pairs|
      invariant count == j && Sent(nsec, out', page', pages', open', items + SectionItems(si, pairs[..j]))
    {
      assert items + SectionItems(si, pairs[..j + 1]) == items + SectionItems(si, pairs[..j]) + [Item(si, pairs[j].key, pairs[j].val)];
      out', page', pages', open' := Emit(nsec, si, pairs[j], out', page', pages', open', items + SectionItems(si, pairs[..j]));
      count := count + 1;
    }
    assert pairs[..|pairs|] == pairs;
  }

  predicate AllFit(sections: seq<seq<Pair>>) {
    forall i, j :: 0 <= i < |sections| && 0 <= j < |sections[i]| ==> Fits(sections[i][j])
  }

  function Sizes(sections: seq<seq<Pair>>): (counts: seq<nat>)
    ensures |counts| == |sections|
  {
    seq(|sections|, i requires 0 <= i < |sections| => |sections[i]|)
  }

  lemma {:induction false} CountAppend(items: seq<Item>, more: seq<Item>, section: nat)
    ensures Count(items + more, section) == Count(items, section) + Count(more, section)
    decreases |more|
  {
    if more == [] {
      assert items + more == items;
    } else {
      var all := items + more;
      assert all[..|all| - 1] == items + more[..|more| - 1];
      CountAppend(items, more[..|more| - 1], section);
    }
  }

  lemma {:induction false} CountSection(si: nat, pairs: seq<Pair>, section: nat)
    ensures Count(SectionItems(si, pairs), section) == if si == section then |pairs| else 0
    decreases |pairs|
  {
    if pairs != [] {
      assert SectionItems(si, pairs)[..|pairs| - 1] == SectionItems(si, pairs[..|pairs| - 1]);
      CountSection(si, pairs[..|pairs| - 1], section);
    }
  }

  lemma {:induction false} CountItems(sections: seq<seq<Pair>>, section: nat)
    ensures Count(ItemsOf(sections), section) == if section < |sections| then |sections[section]| else 0
    decreases |sections|
  {
    if sections != [] {
      var init, n := sections[..|sections| - 1], |sections| - 1;
      CountItems(init, section);
      CountAppend(ItemsOf(init), SectionItems(n, sections[n]), section);
      CountSection(n, sections[n], section);
    }
  }

  lemma SizesAreCounts(sections: seq<seq<Pair>>)
    ensures CountsOf(|sections|, ItemsOf(sections)) == Sizes(sections)
  {
    forall i | 0 <= i < |sections| ensures CountsOf(|sections|, ItemsOf(sections))[i] == Sizes(sections)[i] { CountItems(sections, i); }
  }

  lemma SectionsStep(sections: seq<seq<Pair>>, i: nat)
    requires i < |sections|
    ensures ItemsOf(sections[..i + 1]) == ItemsOf(sections[..i]) + SectionItems(i, sections[i])
    ensures Sizes(sections[..i + 1]) == Sizes(sections[..i]) + [|sections[i]|]
  {
    assert sections[..i + 1][..i] == sections[..i];
  }

  /** Sends the last page, if anything is left in it. */
  method Flush(nsec: nat, out: Raw, page: Raw, ghost pages: seq<seq<Item>>, ghost open: seq<Item>, ghost items: seq<Item>)
    returns (out': Raw, ghost pages': seq<seq<Item>>)
    requires nsec <= 255 && Sent(nsec, out, page, pages, open, items)
    ensures PagesOk(nsec, pages') && out' == EncodePages(pages') && Flatten(pages') == items && WellCut(pages')
  {
    out', pages' := out, pages;
    EncodesNothing(open);
    if page != [] {
      FlushPage(nsec, out, page, pages, open, items);
      out', pages' := out + Frame(page), pages + [open];
      assert pages'[..|pages'| - 1] == pages;
    }
    assert Flatten(pages') + [] == Flatten(pages');
  }

  lemma NothingSent(nsec: nat)
    ensures Sent(nsec, [], [], [], [], [])
  {
    assert PageRaws([]) == [] && ItemRaws([]) == [];
  }

  /** The sender's loop over its sections. */
  method EmitAll(sections: seq<seq<Pair>>)
    returns (out: Raw, page: Raw, counts: seq<nat>, ghost pages: seq<seq<Item>>, ghost open: seq<Item>)
    requires |sections| <= 255 && AllFit(sections)
    ensures Sent(|sections|, out, page, pages, open, ItemsOf(sections)) && counts == Sizes(sections)
  {
    out, page, counts, pages, open := [], [], [], [], [];
    NothingSent(|sections|);
    for i := 0 to |sections|
      invariant Sent(|sections|, out, page, pages, open, ItemsOf(sections[..i])) && counts == Sizes(sections[..i])
    {
      var count;
      SectionsStep(sections, i);
      out, page, count, pages, open := EmitSection(|sections|, i, sections[i], out, page, pages, open, ItemsOf(sections[..i]));
      counts := counts + [count];
    }
    assert sections[..|sections|] == sections;
  }

  /** The bytes are every entry in order, cut into pages of a megabyte, and the trailer. */
  ghost predicate IsEncoding(sections: seq<seq<Pair>>, out: Raw) {
    exists pages :: PagesOk(|sections|, pages) && WellCut(pages) && Flatten(pages) == ItemsOf(sections) && out == EncodeStream(|sections|, pages)
  }

  /** Every page, the sentinel and the trailer. */
  method WritePages(sections: seq<seq<Pair>>) returns (out: Raw)
    requires |sections| <= 255 && AllFit(sections)
    ensures IsEncoding(sections, out)
  {
    ghost var pages, open;
    var page, counts;
    out, page, counts, pages, open := EmitAll(sections);
    out, pages := Flush(|sections|, out, page, pages, open, ItemsOf(sections));
    SizesAreCounts(sections);
    var trailer := WriteCounts(counts);
    TrailerOf(|sections|, Flatten(pages), counts);
    out := out + SENTINEL + ([|sections|] + trailer);
    assert out == EncodeStream(|sections|, pages);
  }

  method WriteCounts(counts: seq<nat>) returns (out: Raw)
    ensures out == EncodeCounts(counts)
  {
    out := [];
    for i := 0 to |counts|
      invariant out + EncodeCounts(counts[i..]) == EncodeCounts(counts)
    {
      out := out + BigEndian(counts[i], 8);
      assert counts[i..][1..] == counts[i + 1..];
    }
  }

  // --- reading -----------------------------------------------------------------------------------

  /** The staging area after a list of entries: later entries overwrite. */
  function CellsOf(items: seq<Item>): Cells
    decreases |items|
  {
    if items == [] then map[]
    else
      var last := items[|items| - 1];
      CellsOf(items[..|items| - 1])[Cell(last.section, last.key) := last.val]
  }

  lemma StageOne(items: seq<Item>, it: Item, nsec: nat)
    requires it.section < nsec
    ensures CellsOf(items + [it]) == CellsOf(items)[Cell(it.section, it.key) := it.val]
    ensures CountsOf(nsec, items + [it]) == CountsOf(nsec, items)[it.section := CountsOf(nsec, items)[it.section] + 1]
  {
    assert (items + [it])[..|items|] == items;
  }

  lemma {:induction false} ParseItemsStep(nsec: nat, page: Raw, items: seq<Item>, rest: Raw)
    requires rest != [] && ParseItems(nsec, page) == Prepend(items, ParseItems(nsec, rest))
    ensures ParseItem(nsec, rest).Bad? ==> ParseItems(nsec, page).None?
    ensures ParseItem(nsec, rest).Good? ==>
              ParseItems(nsec, page) == Prepend(items + [ParseItem(nsec, rest).value], ParseItems(nsec, ParseItem(nsec, rest).rest))
  {
    var it := ParseItem(nsec, rest);
    if it.Good? {
      var more := ParseItems(nsec, it.rest);
      if more.Some? { assert items + ([it.value] + more.value) == items + [it.value] + more.value; }
    }
  }

  lemma FrameAt(page: Raw, i: nat)
    requires i + 4 <= |page|
    ensures var n := FromBigEndian(page[i..i + 4]);
            ParseFrame(page[i..]) == if i + 4 + n > |page| then Bad else Good(page[i + 4..i + 4 + n], page[i + 4 + n..])
  {
    assert page[i..][..4] == page[i..i + 4];
    var n := FromBigEndian(page[i..i + 4]);
    if i + 4 + n <= |page| { assert page[i..][4..4 + n] == page[i + 4..i + 4 + n] && page[i..][4 + n..] == page[i + 4 + n..]; }
  }

  lemma FrameFront(input: Raw)
    requires 4 <= |input|
    ensures var n := FromBigEndian(input[0..4]);
            ParseFrame(input) == if |input| < 4 + n then Bad else Good(input[4..4 + n], input[4 + n..])
  {
    FrameAt(input, 0);
    assert input[0..] == input;
  }

  lemma FrameTooShort(page: Raw, i: nat)
    requires i <= |page| < i + 4
    ensures ParseFrame(page[i..]).Bad?
  {
  }

  /** One entry at an offset of a page, with the bounds tests of the source. */
  method DecodeItem(nsec: nat, page: Raw, start: nat) returns (r: Option<Item>, pos: nat)
    requires start < |page|
    ensures start <= pos <= |page|
    ensures r.None? ==> ParseItem(nsec, page[start..]).Bad?
    ensures r.Some? ==> ParseItem(nsec, page[start..]) == Good(r.value, page[pos..]) && start < pos
  {
    pos := start;
    if pos + 9 > |page| {
      ParseItemShrinks(nsec, page[start..]);
      return None, pos;
    }
    var si := page[pos];
    assert page[start..][1..] == page[pos + 1..];
    FrameAt(page, pos + 1);
    var klen := ReadBigEndian(page[pos + 1..pos + 5]);
    pos := pos + 5;
    if si >= nsec { return None, start; }
    if pos + klen + 4 > |page| {
      if pos + klen <= |page| { FrameTooShort(page, pos + klen); }
      return None, start;
    }
    var key := page[pos..pos + klen];
    pos := pos + klen;
    FrameAt(page, pos);
    var vlen := ReadBigEndian(page[pos..pos + 4]);
    pos := pos + 4;
    if pos + vlen > |page| { return None, start; }
    r, pos := Some(Item(si, key, page[pos..pos + vlen])), pos + vlen;
  }

  datatype Staged = Staged(cells: Cells, counts: seq<nat>)

  function StagedOf(nsec: nat, items: seq<Item>): Staged {
    Staged(CellsOf(items), CountsOf(nsec, items))
  }

  /** The batch after one more entry. */
  function StageItem(st: Staged, it: Item): Staged
    requires it.section < |st.counts|
  {
    Staged(st.cells[Cell(it.section, it.key) := it.val], st.counts[it.section := st.counts[it.section] + 1])
  }

  lemma StageStep(nsec: nat, seen: seq<Item>, items: seq<Item>, it: Item)
    requires it.section < nsec
    ensures StagedOf(nsec, seen + (items + [it])) == StageItem(StagedOf(nsec, seen + items), it)
  {
    var all := seen + items;
    StageOne(all, it, nsec);
    assert all + [it] == seen + (items + [it]);
  }

  /** Decodes one page into the staging batch, counting per section. */
  method StagePage(nsec: nat, page: Raw, before: Staged, ghost seen: seq<Item>) returns (r: Option<Staged>)
    requires before == StagedOf(nsec, seen)
    ensures r.Some? <==> ParseItems(nsec, page).Some?
    ensures r.Some? ==> r.value == StagedOf(nsec, seen + ParseItems(nsec, page).value)
  {
    var st, pos := before, 0;
    ghost var items: seq<Item> := [];
    assert page[0..] == page && seen + [] == seen;
    PrependNothing(ParseItems(nsec, page));
    while pos < |page|
      invariant pos <= |page| && ParseItems(nsec, page) == Prepend(items, ParseItems(nsec, page[pos..]))
      invariant st == StagedOf(nsec, seen + items)
    {
      ParseItemsStep(nsec, page, items, page[pos..]);
      var it, next := DecodeItem(nsec, page, pos);
      if it.None? { return None; }
      StageStep(nsec, seen, items, it.value);
      st := StageItem(st, it.value);
      items, pos := items + [it.value], next;
    }
    assert page[pos..] == [] && items + [] == items;
    r := Some(st);
  }

  lemma ReadPagesStep(nsec: nat, input: Raw, items: seq<Item>, rest: Raw)
    requires ReadPages(nsec, input) == PrependParsed(items, ReadPages(nsec, rest))
    ensures var page := ParseFrame(rest);
            && (page.Bad? ==> ReadPages(nsec, input).Bad?)
            && (page.Good? && page.value == [] ==> ReadPages(nsec, input) == Good(items, page.rest))
            && (page.Good? && page.value != [] ==>
                  var more := ParseItems(nsec, page.value);
                  if more.None? then ReadPages(nsec, input).Bad?
                  else ReadPages(nsec, input) == PrependParsed(items + more.value, ReadPages(nsec, page.rest)))
  {
    var page := ParseFrame(rest);
    if page.Good? {
      if page.value == [] {
        assert items + [] == items;
      } else {
        var more := ParseItems(nsec, page.value);
        if more.Some? { PrependTwice(items, more.value, ReadPages(nsec, page.rest)); }
      }
    }
  }

  lemma PrependTwice(a: seq<Item>, b: seq<Item>, more: Parsed<seq<Item>>)
    ensures PrependParsed(a, PrependParsed(b, more)) == PrependParsed(a + b, more)
  {
    if more.Good? { assert a + (b + more.value) == a + b + more.value; }
  }

  /** The receiver: pages until the sentinel, then the trailer's counts. */
  method StagePages(nsec: nat, input: Raw) returns (r: Option<Staged>)
    ensures r.Some? <==> ReadStream(nsec, input).Good?
    ensures r.Some? ==> r.value == StagedOf(nsec, ReadStream(nsec, input).value)
  {
    if nsec <= 0 || nsec > 255 { return None; }
    ghost var items;
    var st, rest;
    st, rest, items := StageAllPages(nsec, input);
    if st.None? { return None; }
    var ok := CheckTrailer(nsec, st.value.counts, rest, items);
    r := if ok then st else None;
  }

  lemma NothingStaged(nsec: nat, input: Raw)
    ensures StagedOf(nsec, []) == Staged(map[], seq(nsec, _ => 0))
    ensures ReadPages(nsec, input) == PrependParsed([], ReadPages(nsec, input))
  {
    var pages := ReadPages(nsec, input);
    if pages.Good? { assert [] + pages.value == pages.value; }
  }

  method StageAllPages(nsec: nat, input: Raw) returns (r: Option<Staged>, rest: Raw, ghost items: seq<Item>)
    ensures r.Some? <==> ReadPages(nsec, input).Good?
    ensures r.Some? ==> r.value == StagedOf(nsec, items) && ReadPages(nsec, input) == Good(items, rest)
  {
    var st := Staged(map[], seq(nsec, _ => 0));
    r, rest, items := None, input, [];
    NothingStaged(nsec, input);
    var more := true;
    while more
      invariant st == StagedOf(nsec, items)
      invariant ReadPages(nsec, input) == if more then PrependParsed(items, ReadPages(nsec, rest)) else Good(items, rest)
      decreases more, |rest|
    {
      ReadPagesStep(nsec, input, items, rest);
      if |rest| < 4 { return; }
      FrameFront(rest);
      var plen := ReadBigEndian(rest[0..4]);
      if plen == 0 {
        rest, more := rest[4..], false;
      } else {
        if |rest| < 4 + plen { return; }
        var staged := StagePage(nsec, rest[4..4 + plen], st, items);
        if staged.None? { return; }
        items := items + ParseItems(nsec, rest[4..4 + plen]).value;
        st, rest := staged.value, rest[4 + plen..];
      }
    }
    r := Some(st);
  }

  /** The trailer's section count and entry counts against what was staged. */
  method CheckTrailer(nsec: nat, counts: seq<nat>, input: Raw, ghost items: seq<Item>) returns (ok: bool)
    requires 1 <= nsec <= 255 && counts == CountsOf(nsec, items)
    ensures ok <==> ReadTrailer(nsec, items, input).Good?
    ensures ok ==> ReadTrailer(nsec, items, input).value == items
  {
    if |input| < 1 || input[0] != nsec { return false; }
    var rest := input[1..];
    assert counts[0..] == counts;
    for si := 0 to nsec
      invariant ReadCounts(counts, input[1..]).Good? <==> ReadCounts(counts[si..], rest).Good?
    {
      assert counts[si..][1..] == counts[si + 1..];
      if |rest| < 8 { return false; }
      var got := ReadBigEndian(rest[..8]);
      if got != counts[si] { return false; }
      rest := rest[8..];
    }
    ok := true;
  }

  // --- end to end ------------------------------------------------------------------------------------

  /** No two entries of a snapshot share a section and a key. */
  ghost predicate Unique(items: seq<Item>) {
    forall i, j :: 0 <= i < j < |items| ==> items[i].section != items[j].section || items[i].key != items[j].key
  }

  lemma LastIsNew(items: seq<Item>)
    requires Unique(items) && items != []
    ensures Cell(items[|items| - 1].section, items[|items| - 1].key) !in CellsOf(items[..|items| - 1])
  {
    var init := items[..|items| - 1];
    CellsHold(init);
    assert forall i :: 0 <= i < |init| ==> init[i] == items[i];
  }

  lemma CountMore(cells: Cells, cell: Cell, val: Value, section: nat)
    requires cell !in cells
    ensures CountOf(cells[cell := val], section) == CountOf(cells, section) + if cell.section == section then 1 else 0
  {
    var a, b := set c | c in cells && c.section == section, set c | c in cells[cell := val] && c.section == section;
    assert b == if cell.section == section then a + {cell} else a;
  }

  lemma {:induction false} UniqueCount(items: seq<Item>, section: nat)
    requires Unique(items)
    ensures CountOf(CellsOf(items), section) == Count(items, section)
    decreases |items|
  {
    if items != [] {
      var init, last := items[..|items| - 1], items[|items| - 1];
      UniqueCount(init, section);
      LastIsNew(items);
      CountMore(CellsOf(init), Cell(last.section, last.key), last.val, section);
    } else {
      var none := set c | c in CellsOf(items) && c.section == section;
      assert none == {};
    }
  }

  /** The sender's view of a state: per listed section, its rows in key order. */
  ghost predicate IsView(names: seq<Name>, rows: Rows, sections: seq<seq<Pair>>) {
    && Distinct(names) && |sections| == |names|
    && (forall r :: r in rows ==> r.section in names)
    && (forall i, j, k :: 0 <= i < |sections| && 0 <= j < k < |sections[i]| ==> sections[i][j].key != sections[i][k].key)
    && (forall i, j :: 0 <= i < |sections| && 0 <= j < |sections[i]| ==>
          Row(names[i], sections[i][j].key) in rows && rows[Row(names[i], sections[i][j].key)] == sections[i][j].val)
    && (forall i, k :: 0 <= i < |sections| && Row(names[i], k) in rows ==> Lists(sections[i], k))
  }

  ghost predicate Lists(pairs: seq<Pair>, k: Key) {
    exists j :: 0 <= j < |pairs| && pairs[j].key == k
  }

  /** Each entry of the flattened list comes from a place in its section. */
  ghost predicate FromSection(sections: seq<seq<Pair>>, it: Item, j: nat) {
    it.section < |sections| && j < |sections[it.section]| && sections[it.section][j] == Pair(it.key, it.val)
  }

  lemma {:induction false} ItemSource(sections: seq<seq<Pair>>, x: nat)
    requires x < |ItemsOf(sections)|
    ensures exists j :: FromSection(sections, ItemsOf(sections)[x], j)
    decreases |sections|
  {
    var init, n := sections[..|sections| - 1], |sections| - 1;
    var before := |ItemsOf(init)|;
    if x < before {
      ItemSource(init, x);
      var j: nat :| FromSection(init, ItemsOf(init)[x], j);
      assert FromSection(sections, ItemsOf(sections)[x], j);
    } else {
      assert FromSection(sections, ItemsOf(sections)[x], x - before);
    }
  }

  lemma {:induction false} ItemListed(sections: seq<seq<Pair>>, i: nat, j: nat)
    requires i < |sections| && j < |sections[i]|
    ensures Item(i, sections[i][j].key, sections[i][j].val) in ItemsOf(sections)
    decreases |sections|
  {
    var init, n := sections[..|sections| - 1], |sections| - 1;
    if i < n {
      ItemListed(init, i, j);
    } else {
      assert SectionItems(n, sections[n])[j] in SectionItems(n, sections[n]);
    }
  }

  ghost predicate DistinctKeys(pairs: seq<Pair>) {
    forall j, k :: 0 <= j < k < |pairs| ==> pairs[j].key != pairs[k].key
  }

  lemma {:induction false} ItemsUnique(sections: seq<seq<Pair>>)
    requires forall i :: 0 <= i < |sections| ==> DistinctKeys(sections[i])
    ensures Unique(ItemsOf(sections))
    decreases |sections|
  {
    if sections != [] {
      var init, n := sections[..|sections| - 1], |sections| - 1;
      ItemsUnique(init);
      var items, before := ItemsOf(sections), |ItemsOf(init)|;
      assert DistinctKeys(sections[n]);
      forall x, y | 0 <= x < y < |items| ensures items[x].section != items[y].section || items[x].key != items[y].key {
        if x < before <= y {
          ItemSource(init, x);
          assert items[x] == ItemsOf(init)[x] && items[y].section == n;
        } else if y < before {
          assert items[x] == ItemsOf(init)[x] && items[y] == ItemsOf(init)[y];
        } else {
          assert items[x] == SectionItems(n, sections[n])[x - before] && items[y] == SectionItems(n, sections[n])[y - before];
        }
      }
    }
  }

  lemma {:induction false} CellsHold(items: seq<Item>)
    requires Unique(items)
    ensures forall i :: 0 <= i < |items| ==> Cell(items[i].section, items[i].key) in CellsOf(items) && CellsOf(items)[Cell(items[i].section, items[i].key)] == items[i].val
    ensures forall c :: c in CellsOf(items) ==> exists i :: 0 <= i < |items| && c == Cell(items[i].section, items[i].key)
    decreases |items|
  {
    if items != [] {
      var init, last := items[..|items| - 1], items[|items| - 1];
      CellsHold(init);
      assert forall i :: 0 <= i < |init| ==> init[i] == items[i];
      forall c | c in CellsOf(items) ensures exists i :: 0 <= i < |items| && c == Cell(items[i].section, items[i].key) {
        if c in CellsOf(init) {
          var i :| 0 <= i < |init| && c == Cell(init[i].section, init[i].key);
          assert c == Cell(items[i].section, items[i].key);
        } else {
          assert c == Cell(items[|items| - 1].section, items[|items| - 1].key);
        }
      }
    }
  }

  lemma ViewCell(names: seq<Name>, rows: Rows, sections: seq<seq<Pair>>, c: Cell)
    requires IsView(names, rows, sections) && Unique(ItemsOf(sections)) && c in CellsOf(ItemsOf(sections))
    ensures c.section < |names| && RowOf(names, c) in rows && rows[RowOf(names, c)] == CellsOf(ItemsOf(sections))[c]
  {
    var items := ItemsOf(sections);
    CellsHold(items);
    var x :| 0 <= x < |items| && c == Cell(items[x].section, items[x].key);
    ItemSource(sections, x);
    var j: nat :| FromSection(sections, items[x], j);
    assert Row(names[c.section], sections[c.section][j].key) == RowOf(names, c);
  }

  lemma ViewRow(names: seq<Name>, rows: Rows, sections: seq<seq<Pair>>, r: Row)
    requires IsView(names, rows, sections) && Unique(ItemsOf(sections)) && r in rows
    ensures CellOf(names, r) in CellsOf(ItemsOf(sections)) && CellOf(names, r).section < |names| && RowOf(names, CellOf(names, r)) == r
  {
    var i :| 0 <= i < |names| && names[i] == r.section;
    IndexOfDistinct(names, i);
    assert Row(names[i], r.key) == r;
    assert Lists(sections[i], r.key);
    var j :| 0 <= j < |sections[i]| && sections[i][j].key == r.key;
    ItemListed(sections, i, j);
    CellsHold(ItemsOf(sections));
  }

  /**
   A transfer end to end: the stream made of a pinned view, wherever its pages
   were cut, is accepted, and what it leaves in staging is exactly that view,
   with the counts the marker records.
   */
  lemma TransferIsExact(names: seq<Name>, rows: Rows, sections: seq<seq<Pair>>, pages: seq<seq<Item>>, nsec: nat)
    requires nsec == |names| && 1 <= nsec <= 255 && IsView(names, rows, sections)
    requires PagesOk(nsec, pages) && Flatten(pages) == ItemsOf(sections) && |Flatten(pages)| < U64_LIMIT
    ensures ReadStream(nsec, EncodeStream(nsec, pages)) == Good(ItemsOf(sections), [])
    ensures IsStream(names, rows, CellsOf(ItemsOf(sections)))
    ensures Counts(names, CellsOf(ItemsOf(sections))) == CountsOf(nsec, ItemsOf(sections))
  {
    StreamRoundTrip(nsec, pages, []);
    var all := EncodeStream(nsec, pages);
    assert all + [] == all;
    ViewIsStream(names, rows, sections);
  }

  lemma ViewIsStream(names: seq<Name>, rows: Rows, sections: seq<seq<Pair>>)
    requires IsView(names, rows, sections)
    ensures IsStream(names, rows, CellsOf(ItemsOf(sections)))
    ensures Counts(names, CellsOf(ItemsOf(sections))) == CountsOf(|names|, ItemsOf(sections))
  {
    var items := ItemsOf(sections);
    var cells := CellsOf(items);
    forall i | 0 <= i < |sections| ensures DistinctKeys(sections[i]) { }
    ItemsUnique(sections);
    forall c | c in cells ensures c.section < |names| && RowOf(names, c) in rows && rows[RowOf(names, c)] == cells[c] {
      ViewCell(names, rows, sections, c);
    }
    forall r | r in rows ensures CellOf(names, r) in cells && RowOf(names, CellOf(names, r)) == r { ViewRow(names, rows, sections, r); }
    forall i | 0 <= i < |names| ensures Counts(names, cells)[i] == CountsOf(|names|, items)[i] { UniqueCount(items, i); }
  }
}
