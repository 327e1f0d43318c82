/** The values the engine works on: a snapshot of a page, of a region and of the
    engine's counters.  `size_t` counters are naturals; SIZE_MAX is the sentinel the
    source stores in the home index of a page that has no home. */
module Pages {
  const PAGE_SIZE: nat := 4096
  const SIZE_MAX: nat := 0xFFFF_FFFF_FFFF_FFFF

  type Bytes = seq<bv8>

  datatype PageSignature = PageSignature(hash: bv64, fingerprint: bv32)

  /** A signature function; partial, because the fingerprint reads fixed sample positions. */
  type Signer = Bytes --> PageSignature

  datatype PageValue = PageValue(data: Bytes, homeIndex: nat, shared: bool)

  datatype RegionValue = RegionValue(name: string, optIn: bool, pages: seq<PageValue>)

  datatype Stats = Stats(
    pagesScanned: nat,
    duplicatePages: nat,
    uniquePages: nat,
    bytesSaved: nat,
    collisionProbes: nat,
    writesEmulated: nat,
    writeCowEvents: nat)

  const ZERO_STATS := Stats(0, 0, 0, 0, 0, 0, 0)

  function FreshPage(data: Bytes): PageValue {
    PageValue(data, SIZE_MAX, false)
  }

  ghost predicate FreshPages(pages: seq<PageValue>) {
    |pages| <= SIZE_MAX && forall i :: 0 <= i < |pages| ==> pages[i] == FreshPage(pages[i].data)
  }

  /** What a plain array of pages would hold: the bytes, without the sharing. */
  function Contents(pages: seq<PageValue>): seq<Bytes> {
    seq(|pages|, i requires 0 <= i < |pages| => pages[i].data)
  }
}
