/** Page ids: the 16 high bits name the segment, and with it the file, the 48 low bits the page
    in it. */
module PageIds {
  import opened Bytes

  const SEGMENTS := 0x1_0000
  const PAGES := 0x1_0000_0000_0000

  function SegmentOf(page: u64): nat { page / 0x1_0000_0000_0000 }

  function PageInSegment(page: u64): nat { page % 0x1_0000_0000_0000 }

  function OverallPageId(segment: nat, page: nat): u64
    requires segment < SEGMENTS && page < PAGES
  {
    segment * 0x1_0000_0000_0000 + page
  }

  /** Segment and page make a page id, and every page id is made of one segment and page. */
  lemma PageIdRoundTrip(segment: nat, page: nat, id: u64)
    requires segment < SEGMENTS && page < PAGES
    ensures SegmentOf(id) < SEGMENTS && PageInSegment(id) < PAGES
    ensures OverallPageId(segment, page) == id <==> SegmentOf(id) == segment && PageInSegment(id) == page
  {
    assert OverallPageId(segment, page) / 0x1_0000_0000_0000 == segment;
  }
}
