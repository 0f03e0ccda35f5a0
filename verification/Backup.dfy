/** SQLite's online backup: pages of a source database are copied into a destination whose page size
    may differ, while the source keeps changing. */
module OnlineBackup {
  import opened Basics

  type Byte = x: int | 0 <= x < 256 witness 0

  datatype Rc = OK | BUSY | LOCKED | DONE | READONLY | IOERR

  const PENDING_BYTE := 0x40000000
  const SQLITE_MAX_PAGE_COUNT := 1073741823
  const U32 := 0x1_0000_0000

  /** isFatalError. */
  predicate Fatal(rc: Rc) {
    rc != OK && rc != BUSY && rc != LOCKED
  }

  predicate PageSize(n: int) {
    n in {512, 1024, 2048, 4096, 8192, 16384, 32768}
  }

  /** The page that holds byte o, pages being numbered from 1. */
  function PageOf(o: nat, pgsz: int): nat
    requires pgsz > 0
  {
    o / pgsz + 1
  }

  function PendingPage(pgsz: int): nat
    requires pgsz > 0
  {
    PENDING_BYTE / pgsz + 1
  }

  // ----- arithmetic of two page sizes

  lemma Divides(a: int, b: int)
    requires PageSize(a) && PageSize(b) && a <= b
    ensures b % a == 0 && b == (b / a) * a && PENDING_BYTE == (PENDING_BYTE / a) * a
  {
  }

  lemma DivMod(o: nat, d: int, q: nat, m: nat)
    requires d > 0 && o == q * d + m && m < d
    ensures o / d == q && o % d == m
  {
    var x := o / d - q;
    assert x * d == m - o % d;
    assert x >= 1 ==> x * d >= d;
    assert x <= -1 ==> x * d <= -d;
  }

  /** The bytes of one page are those between its ends. */
  lemma PageBounds(o: nat, d: int, p: nat)
    requires d > 0 && p > 0
    ensures PageOf(o, d) == p <==> (p - 1) * d <= o < p * d
    ensures PageOf(o, d) == p ==> o % d == o - (p - 1) * d
  {
    if PageOf(o, d) == p {
      assert o == (o / d) * d + o % d;
    }
    if (p - 1) * d <= o < p * d {
      DivMod(o, d, p - 1, o - (p - 1) * d);
    }
  }

  lemma PageUpTo(o: nat, d: int, n: nat)
    requires d > 0
    ensures PageOf(o, d) <= n <==> o < n * d
  {
    assert o == (o / d) * d + o % d;
    if o / d + 1 <= n {
      assert (o / d + 1) * d <= n * d;
    } else {
      assert n * d <= (o / d) * d;
    }
  }

  /** A run of bytes that fits into the page of its first byte. */
  lemma InChunk(o: nat, from: nat, n: nat, d: int)
    requires d > 0 && from % d + n <= d
    ensures from <= o < from + n <==> PageOf(o, d) == PageOf(from, d) && from % d <= o % d < from % d + n
    ensures from <= o < from + n ==> o % d == from % d + (o - from)
  {
    assert from == (from / d) * d + from % d && o == (o / d) * d + o % d;
    if from <= o < from + n {
      DivMod(o, d, from / d, from % d + (o - from));
    }
  }

  /** q pages of r runs, and m more runs, of d bytes each. */
  lemma Regroup(q: nat, r: nat, m: nat, d: nat)
    ensures (q * r + m) * d == q * (r * d) + m * d
  {
  }

  /** A run that is not the last of r ends inside them. */
  lemma RunInside(m: nat, r: nat, d: nat)
    requires m < r
    ensures m * d + d <= r * d
  {
    assert (m + 1) * d <= r * d;
  }

  /** Run m, of d bytes, of page q of r runs. */
  lemma RunInPage(q: nat, m: nat, d: nat, r: nat)
    requires d > 0 && m < r
    ensures r * d > 0
    ensures var o := (q * r + m) * d; o % (r * d) == m * d && m * d + d <= r * d && o % d == 0
  {
    var o, big := (q * r + m) * d, r * d;
    Regroup(q, r, m, d);
    RunInside(m, r, d);
    DivMod(o, big, q, m * d);
    DivMod(o, d, q * r + m, 0);
  }

  /** Source page p begins at a place in a larger destination page where it fits. */
  lemma ChunkInLarger(p: nat, src: int, r: nat)
    requires p > 0 && src > 0 && r > 0
    ensures ((p - 1) * src) % (r * src) + src <= r * src && ((p - 1) * src) % src == 0
  {
    var q, m := (p - 1) / r, (p - 1) % r;
    assert p - 1 == q * r + m;
    RunInPage(q, m, src, r);
  }

  /** The k-th smaller destination page of source page p. */
  lemma ChunkInSmaller(p: nat, k: nat, dest: int, r: nat)
    requires p > 0 && dest > 0 && k < r
    ensures ((p - 1) * (r * dest) + k * dest) % dest == 0
    ensures ((p - 1) * (r * dest) + k * dest) % (r * dest) == k * dest && k * dest + dest <= r * dest
  {
    Regroup(p - 1, r, k, dest);
    RunInPage(p - 1, k, dest, r);
  }

  /** Where the k-th run copied for page p lies in its source page and in its destination page. */
  lemma Chunk(p: nat, k: nat, src: int, dest: int)
    requires PageSize(src) && PageSize(dest) && p > 0
    requires k * dest < src
    ensures ((p - 1) * src + k * dest) % dest + Min(src, dest) <= dest
    ensures ((p - 1) * src + k * dest) % src == k * dest && k * dest + Min(src, dest) <= src
  {
    if src < dest {
      Divides(src, dest);
      FirstOnly(k, src, dest);
      ChunkInLarger(p, src, dest / src);
    } else {
      Divides(dest, src);
      Below(k, src / dest, dest);
      ChunkInSmaller(p, k, dest, src / dest);
    }
  }

  lemma FirstOnly(k: nat, src: int, dest: int)
    requires 0 < src < dest && k * dest < src
    ensures k == 0
  {
    assert k > 0 ==> k * dest >= dest;
  }

  lemma Below(k: nat, r: nat, dest: int)
    requires dest > 0 && k * dest < r * dest
    ensures k < r
  {
    assert k >= r ==> k * dest >= r * dest;
  }

  /** The k-th run copied for page p: it fits into both pages, and the next one begins where it ends
      unless it was the last. */
  lemma Run(p: nat, k: nat, iOff: nat, src: int, dest: int)
    requires PageSize(src) && PageSize(dest) && p > 0
    requires iOff == p * src - src + k * dest && iOff < p * src
    ensures iOff % dest + Min(src, dest) <= dest && iOff % src == iOff - (p * src - src)
    ensures iOff + Min(src, dest) <= p * src
    ensures Min(iOff + dest, p * src) == iOff + Min(src, dest)
  {
    assert p * src - src == (p - 1) * src;
    Chunk(p, k, src, dest);
  }

  // ----- pages and their bytes

  type Pages = map<nat, seq<Byte>>

  ghost predicate Sized(dest: Pages, pgsz: int) {
    forall p :: p in dest ==> |dest[p]| == pgsz
  }

  /** A page that was never written reads as zeros. */
  function Fetch(dest: Pages, p: nat, pgsz: nat): (page: seq<Byte>)
    requires Sized(dest, pgsz)
    ensures |page| == pgsz
  {
    if p in dest then dest[p] else seq(pgsz, _ => 0)
  }

  function PageByte(dest: Pages, pgsz: nat, o: nat): Byte
    requires pgsz > 0 && Sized(dest, pgsz)
  {
    Fetch(dest, PageOf(o, pgsz), pgsz)[o % pgsz]
  }

  /** memcpy into the page of byte number from. */
  function Put(dest: Pages, pgsz: nat, from: nat, bytes: seq<Byte>): (dest': Pages)
    requires pgsz > 0 && Sized(dest, pgsz) && from % pgsz + |bytes| <= pgsz
    ensures Sized(dest', pgsz)
  {
    var p, i := PageOf(from, pgsz), from % pgsz;
    var page := Fetch(dest, p, pgsz);
    dest[p := page[..i] + bytes + page[i + |bytes|..]]
  }

  lemma PutBytes(dest: Pages, pgsz: nat, from: nat, bytes: seq<Byte>, o: nat)
    requires pgsz > 0 && Sized(dest, pgsz) && from % pgsz + |bytes| <= pgsz
    ensures PageByte(Put(dest, pgsz, from, bytes), pgsz, o)
         == if from <= o < from + |bytes| then bytes[o - from] else PageByte(dest, pgsz, o)
  {
    InChunk(o, from, |bytes|, pgsz);
  }

  function SrcByte(source: seq<seq<Byte>>, pgsz: nat, o: nat): Byte
    requires pgsz > 0 && PageOf(o, pgsz) <= |source| && Whole(source, pgsz)
  {
    source[o / pgsz][o % pgsz]
  }

  // ----- one page

  /** Bytes from start up to end have been copied, but for those in the destination's pending page. */
  ghost predicate Copied(before: Pages, dest: Pages, pgsz: nat, start: nat, end: nat, data: seq<Byte>)
    requires pgsz > 0 && Sized(before, pgsz) && Sized(dest, pgsz) && end <= start + |data|
  {
    forall o: nat :: PageByte(dest, pgsz, o) ==
      if start <= o < end && PageOf(o, pgsz) != PendingPage(pgsz) then data[o - start] else PageByte(before, pgsz, o)
  }

  /** The next run of n bytes, which lies in one page, is copied or skipped. */
  lemma CopiedMore(
      before: Pages, dest: Pages, dest': Pages, pgsz: nat, start: nat, iOff: nat, n: nat, data: seq<Byte>)
    requires pgsz > 0 && Sized(before, pgsz) && Sized(dest, pgsz)
    requires start <= iOff && iOff + n <= start + |data| && Copied(before, dest, pgsz, start, iOff, data)
    requires iOff % pgsz + n <= pgsz && n > 0
    requires dest' == if PageOf(iOff, pgsz) == PendingPage(pgsz) then dest
                      else Put(dest, pgsz, iOff, data[iOff - start..][..n])
    ensures Copied(before, dest', pgsz, start, iOff + n, data)
  {
    forall o: nat
      ensures PageByte(dest', pgsz, o) ==
        if start <= o < iOff + n && PageOf(o, pgsz) != PendingPage(pgsz) then data[o - start]
        else PageByte(before, pgsz, o)
    {
      InChunk(o, iOff, n, pgsz);
      if PageOf(iOff, pgsz) != PendingPage(pgsz) {
        PutBytes(dest, pgsz, iOff, data[iOff - start..][..n], o);
      }
    }
  }

  /** What backupOnePage does when nothing fails: source page p is in the destination, but for the
      bytes that fall into the destination's pending page, and no other byte has changed. */
  ghost predicate PageCopied(before: Pages, dest: Pages, nDest: nat, nSrc: nat, p: nat, data: seq<Byte>)
    requires nDest > 0 && nSrc > 0 && Sized(before, nDest) && Sized(dest, nDest) && |data| == nSrc
  {
    forall o: nat :: PageByte(dest, nDest, o) ==
      if PageOf(o, nSrc) == p && PageOf(o, nDest) != PendingPage(nDest) then data[o % nSrc]
      else PageByte(before, nDest, o)
  }

  lemma CopiedAll(before: Pages, dest: Pages, nDest: nat, nSrc: nat, p: nat, data: seq<Byte>)
    requires nDest > 0 && nSrc > 0 && Sized(before, nDest) && Sized(dest, nDest) && |data| == nSrc && p > 0
    requires Copied(before, dest, nDest, (p - 1) * nSrc, (p - 1) * nSrc + nSrc, data)
    ensures PageCopied(before, dest, nDest, nSrc, p, data)
  {
    forall o: nat
      ensures PageByte(dest, nDest, o) ==
        if PageOf(o, nSrc) == p && PageOf(o, nDest) != PendingPage(nDest) then data[o % nSrc]
        else PageByte(before, nDest, o)
    {
      PageBounds(o, nSrc, p);
      assert p * nSrc == (p - 1) * nSrc + nSrc;
    }
  }

  // ----- the invariant

  /** A byte that a backup must carry over: one of a page of the source other than its pending page. */
  predicate Carried(o: nat, nSrc: nat, nSrcPage: nat)
    requires nSrc > 0
  {
    PageOf(o, nSrc) <= nSrcPage && PageOf(o, nSrc) != PendingPage(nSrc)
  }

  ghost predicate Whole(source: seq<seq<Byte>>, pgsz: nat) {
    forall i :: 0 <= i < |source| ==> |source[i]| == pgsz
  }

  /** Source pages below n are in the destination, but for what falls into its pending page. */
  ghost predicate Mirror(source: seq<seq<Byte>>, nSrc: nat, dest: Pages, nDest: nat, n: nat)
    requires nSrc > 0 && nDest > 0 && Whole(source, nSrc) && Sized(dest, nDest)
  {
    forall o: nat {:trigger PageByte(dest, nDest, o)} ::
      Carried(o, nSrc, |source|) && PageOf(o, nSrc) < n && PageOf(o, nDest) != PendingPage(nDest) ==>
        PageByte(dest, nDest, o) == SrcByte(source, nSrc, o)
  }

  /** The next page has been copied, or is the pending page. */
  lemma MirrorNext(seen: seq<seq<Byte>>, data: seq<Byte>, nSrc: nat, before: Pages, dest: Pages, nDest: nat)
    requires nSrc > 0 && nDest > 0 && Whole(seen, nSrc) && |data| == nSrc
    requires Sized(before, nDest) && Sized(dest, nDest)
    requires Mirror(seen, nSrc, before, nDest, |seen| + 1)
    requires if |seen| + 1 == PendingPage(nSrc) then dest == before
             else PageCopied(before, dest, nDest, nSrc, |seen| + 1, data)
    ensures Mirror(seen + [data], nSrc, dest, nDest, |seen| + 2)
  {
    forall o: nat {:trigger PageByte(dest, nDest, o)} |
      Carried(o, nSrc, |seen| + 1) && PageOf(o, nDest) != PendingPage(nDest)
      ensures PageByte(dest, nDest, o) == SrcByte(seen + [data], nSrc, o)
    {
      assert PageByte(before, nDest, o) == PageByte(before, nDest, o);
      if PageOf(o, nSrc) <= |seen| {
        assert SrcByte(seen + [data], nSrc, o) == SrcByte(seen, nSrc, o);
      }
    }
  }

  /** A page that had been copied was written in the source and copied again. */
  lemma MirrorRewritten(
      source: seq<seq<Byte>>, source': seq<seq<Byte>>, nSrc: nat, before: Pages, dest: Pages, nDest: nat,
      n: nat, p: nat)
    requires nSrc > 0 && nDest > 0 && Whole(source, nSrc) && Whole(source', nSrc)
    requires Sized(before, nDest) && Sized(dest, nDest)
    requires Mirror(source, nSrc, before, nDest, n) && 1 <= p <= |source'|
    requires |source'| <= |source| + 1 && (|source'| == |source| + 1 ==> p == |source'|)
    requires forall i :: 0 <= i < |source'| && i != p - 1 ==> source'[i] == source[i]
    requires PageCopied(before, dest, nDest, nSrc, p, source'[p - 1])
    ensures Mirror(source', nSrc, dest, nDest, n)
  {
    forall o: nat {:trigger PageByte(dest, nDest, o)} |
      Carried(o, nSrc, |source'|) && PageOf(o, nSrc) < n && PageOf(o, nDest) != PendingPage(nDest)
      ensures PageByte(dest, nDest, o) == SrcByte(source', nSrc, o)
    {
      SrcByteAt(source', nSrc, o);
      if PageOf(o, nSrc) != p {
        SrcByteAt(source, nSrc, o);
        assert PageByte(dest, nDest, o) == PageByte(before, nDest, o);
      }
    }
  }

  /** Page p of the source lies where the destination has its pending page: what a backup carries of
      such pages it writes at the very end. */
  predicate Late(p: nat, nSrc: nat, nDest: nat) {
    p > 0 && PENDING_BYTE <= (p - 1) * nSrc < PENDING_BYTE + nDest
  }

  /** A source page other than the pending page is not late when the destination's pages are no larger. */
  lemma NeverLate(p: nat, nSrc: nat, nDest: nat)
    requires PageSize(nSrc) && 0 < nDest <= nSrc && p > 0 && p != PendingPage(nSrc)
    ensures !Late(p, nSrc, nDest)
  {
    var a := PENDING_BYTE / nSrc;
    Divides(nSrc, nSrc);
    assert p - 1 > a ==> (p - 1) * nSrc >= (a + 1) * nSrc;
    assert p - 1 < a ==> (p - 1) * nSrc <= (a - 1) * nSrc;
  }

  lemma LateSmall(o: nat, a: nat, nSrc: nat, r: nat)
    requires nSrc > 0 && r > 0
    ensures var q := o / nSrc; a * nSrc <= q * nSrc < (a + r) * nSrc <==> a * nSrc <= o < (a + r) * nSrc
  {
    var q := o / nSrc;
    assert o == q * nSrc + o % nSrc;
    Aligned(q, a, o, nSrc);
    Aligned(q, a + r, o, nSrc);
  }

  lemma LateByte(o: nat, nSrc: nat, nDest: nat)
    requires PageSize(nSrc) && PageSize(nDest) && PageOf(o, nSrc) != PendingPage(nSrc)
    ensures Late(PageOf(o, nSrc), nSrc, nDest) <==> PageOf(o, nDest) == PendingPage(nDest)
  {
    if nSrc < nDest {
      var a, r := PENDING_BYTE / nSrc, nDest / nSrc;
      Divides(nSrc, nDest);
      Pending(nDest);
      PageBounds(o, nDest, PendingPage(nDest));
      assert (a + r) * nSrc == a * nSrc + r * nSrc;
      LateSmall(o, a, nSrc, r);
    } else {
      NeverLate(PageOf(o, nSrc), nSrc, nDest);
      if PageOf(o, nDest) == PendingPage(nDest) {
        PendingBehind(o, nSrc, nDest);
      }
    }
  }

  /** A page boundary is not after the byte exactly if it is not after the byte's page. */
  lemma Aligned(q: nat, a: nat, o: nat, d: nat)
    requires q * d <= o < q * d + d
    ensures a * d <= o <==> a * d <= q * d
  {
    assert a > q ==> a * d >= (q + 1) * d;
  }

  /** The pages of the source that a backup has copied, and that have changed since without its
      being told; seen is what it copied. */
  ghost function StalePages(source: seq<seq<Byte>>, seen: seq<seq<Byte>>, nSrc: nat, nDest: nat): set<nat> {
    set p: nat | 1 <= p <= |seen| && p <= |source| && !Late(p, nSrc, nDest) && seen[p - 1] != source[p - 1]
  }

  /** Those among pages that appear behind the first n. */
  ghost function Reappeared(
      n: nat, pages: seq<seq<Byte>>, seen: seq<seq<Byte>>, nSrc: nat, nDest: nat): set<nat>
  {
    set p: nat | n < p <= n + |pages| && p <= |seen| && !Late(p, nSrc, nDest) && seen[p - 1] != pages[p - 1 - n]
  }

  /** A page that is written, and copied again if it had been copied, is not stale. */
  lemma StaleWritten(source: seq<seq<Byte>>, seen: seq<seq<Byte>>, p: nat, data: seq<Byte>, nSrc: nat, nDest: nat)
    requires 1 <= p <= |source| + 1
    ensures var source' := if p <= |source| then source[p - 1 := data] else source + [data];
            var seen' := if p <= |seen| then seen[p - 1 := data] else seen;
            StalePages(source', seen', nSrc, nDest) == StalePages(source, seen, nSrc, nDest) - {p}
  {
  }

  lemma MirrorOfFresh(source: seq<seq<Byte>>, seen: seq<seq<Byte>>, nSrc: nat, dest: Pages, nDest: nat)
    requires PageSize(nSrc) && PageSize(nDest) && Whole(source, nSrc) && Whole(seen, nSrc) && Sized(dest, nDest)
    requires Mirror(seen, nSrc, dest, nDest, |seen| + 1) && StalePages(source, seen, nSrc, nDest) == {}
    ensures Mirror(source, nSrc, dest, nDest, |seen| + 1)
  {
    forall o: nat {:trigger PageByte(dest, nDest, o)} |
      Carried(o, nSrc, |source|) && PageOf(o, nSrc) <= |seen| && PageOf(o, nDest) != PendingPage(nDest)
      ensures PageByte(dest, nDest, o) == SrcByte(source, nSrc, o)
    {
      LateByte(o, nSrc, nDest);
      assert PageOf(o, nSrc) !in StalePages(source, seen, nSrc, nDest);
      assert SrcByte(source, nSrc, o) == SrcByte(seen, nSrc, o);
    }
  }

  lemma StaleByte(source: seq<seq<Byte>>, seen: seq<seq<Byte>>, nSrc: nat, nDest: nat, p: nat) returns (o: nat)
    requires PageSize(nSrc) && PageSize(nDest) && Whole(source, nSrc) && Whole(seen, nSrc)
    requires p in StalePages(source, seen, nSrc, nDest)
    ensures PageOf(o, nSrc) == p && Carried(o, nSrc, p) && PageOf(o, nDest) != PendingPage(nDest)
    ensures SrcByte(source, nSrc, o) != SrcByte(seen, nSrc, o)
  {
    o := DifferingByte(source[p - 1], seen[p - 1], p, nSrc);
    NotPending(p, nSrc, nDest);
    LateByte(o, nSrc, nDest);
    SrcByteAt(source, nSrc, o);
    SrcByteAt(seen, nSrc, o);
  }

  /** The destination mirrors the source as it is now exactly when no copied page is stale. */
  lemma MirrorIffFresh(source: seq<seq<Byte>>, seen: seq<seq<Byte>>, nSrc: nat, dest: Pages, nDest: nat)
    requires PageSize(nSrc) && PageSize(nDest) && Whole(source, nSrc) && Whole(seen, nSrc) && Sized(dest, nDest)
    requires Mirror(seen, nSrc, dest, nDest, |seen| + 1)
    ensures Mirror(source, nSrc, dest, nDest, |seen| + 1) <==> StalePages(source, seen, nSrc, nDest) == {}
  {
    if StalePages(source, seen, nSrc, nDest) == {} {
      MirrorOfFresh(source, seen, nSrc, dest, nDest);
    } else {
      var p :| p in StalePages(source, seen, nSrc, nDest);
      var o := StaleByte(source, seen, nSrc, nDest, p);
      assert PageByte(dest, nDest, o) == SrcByte(seen, nSrc, o);
    }
  }

  lemma NotPending(p: nat, nSrc: nat, nDest: nat)
    requires PageSize(nSrc) && PageSize(nDest) && p > 0 && !Late(p, nSrc, nDest)
    ensures p != PendingPage(nSrc)
  {
    Pending(nSrc);
  }

  /** Where page p of two sources differs. */
  lemma DifferingByte(a: seq<Byte>, b: seq<Byte>, p: nat, nSrc: nat) returns (o: nat)
    requires |a| == |b| == nSrc > 0 && a != b && p > 0
    ensures PageOf(o, nSrc) == p && a[o % nSrc] != b[o % nSrc]
  {
    var i :| 0 <= i < nSrc && a[i] != b[i];
    o := (p - 1) * nSrc + i;
    DivMod(o, nSrc, p - 1, i);
  }

  lemma SrcByteAt(source: seq<seq<Byte>>, nSrc: nat, o: nat)
    requires nSrc > 0 && Whole(source, nSrc) && PageOf(o, nSrc) <= |source|
    ensures SrcByte(source, nSrc, o) == source[PageOf(o, nSrc) - 1][o % nSrc]
  {
  }

  // ----- the end of a backup

  /** A four-byte field in the destination's first page. */
  function Field(dest: Pages, pgsz: nat, from: nat): nat
    requires pgsz > 0 && Sized(dest, pgsz)
  {
    Value([PageByte(dest, pgsz, from), PageByte(dest, pgsz, from + 1), PageByte(dest, pgsz, from + 2),
           PageByte(dest, pgsz, from + 3)])
  }

  function Low(n: nat): Byte {
    n % 256
  }

  /** put4byte and get4byte. */
  function Four(n: nat): (bytes: seq<Byte>)
    ensures |bytes| == 4
  {
    var h := n / 0x100;
    var m := h / 0x100;
    [Low(m / 0x100), Low(m), Low(h), Low(n)]
  }

  function Value(bytes: seq<Byte>): nat
    requires |bytes| == 4
  {
    var a: int, b: int, c: int, d: int := bytes[0], bytes[1], bytes[2], bytes[3];
    a * 0x100_0000 + b * 0x1_0000 + c * 0x100 + d
  }

  function Bumped(n: nat): nat {
    (n + 1) % U32
  }

  lemma ValueOfFour(n: nat)
    requires n < U32
    ensures Value(Four(n)) == n
  {
    var h := n / 0x100;
    var m := h / 0x100;
    var t := m / 0x100;
    assert n == h * 0x100 + Low(n) as int && h == m * 0x100 + Low(h) as int && m == t * 0x100 + Low(m) as int;
    assert t < 0x100 && Low(t) == t;
  }

  /** The pages with the bytes given at a place in the first one. */
  function Patched(s: seq<seq<Byte>>, nSrc: nat, from: nat, bytes: seq<Byte>): (s': seq<seq<Byte>>)
    requires Whole(s, nSrc) && from + |bytes| <= nSrc
    ensures Whole(s', nSrc) && |s'| == |s| && forall i :: 1 <= i < |s| ==> s'[i] == s[i]
  {
    if s == [] then [] else [s[0][..from] + bytes + s[0][from + |bytes|..]] + s[1..]
  }

  lemma PatchedByte(s: seq<seq<Byte>>, nSrc: nat, from: nat, bytes: seq<Byte>, o: nat)
    requires nSrc > 0 && Whole(s, nSrc) && from + |bytes| <= nSrc && PageOf(o, nSrc) <= |s|
    ensures SrcByte(Patched(s, nSrc, from, bytes), nSrc, o)
         == if from <= o < from + |bytes| then bytes[o - from] else SrcByte(s, nSrc, o)
  {
    if o < nSrc {
      DivMod(o, nSrc, 0, o);
    } else {
      PageBounds(o, nSrc, 1);
      assert PageOf(o, nSrc) > 1;
    }
  }

  /** The pages with the header fields of a finished backup: the schema version, and the file change
      counter if there is one to write. */
  function Headed(s: seq<seq<Byte>>, nSrc: nat, schema: nat, counter: Option<nat>): (s': seq<seq<Byte>>)
    requires Whole(s, nSrc) && nSrc >= 44
    ensures Whole(s', nSrc) && |s'| == |s| && forall i :: 1 <= i < |s| ==> s'[i] == s[i]
  {
    var t := Patched(s, nSrc, 40, Four(schema));
    if counter.None? then t else Patched(t, nSrc, 24, Four(counter.value))
  }

  /** What a finished backup shows: the pages as they were copied, but those that are written at the
      very end as they are then. */
  function Shown(source: seq<seq<Byte>>, seen: seq<seq<Byte>>, nSrc: nat, nDest: nat): (s: seq<seq<Byte>>)
    requires |seen| >= |source| && Whole(source, nSrc) && Whole(seen, nSrc)
    ensures Whole(s, nSrc) && |s| == |source|
    ensures forall i :: 0 <= i < |s| ==> s[i] == if Late(i + 1, nSrc, nDest) then source[i] else seen[i]
  {
    seq(|source|, i requires 0 <= i < |source| => if Late(i + 1, nSrc, nDest) then source[i] else seen[i])
  }

  lemma ShownIffFresh(source: seq<seq<Byte>>, seen: seq<seq<Byte>>, nSrc: nat, nDest: nat)
    requires |seen| >= |source| && Whole(source, nSrc) && Whole(seen, nSrc)
    ensures Shown(source, seen, nSrc, nDest) == source <==> StalePages(source, seen, nSrc, nDest) == {}
  {
    var s := Shown(source, seen, nSrc, nDest);
    forall p: nat | 1 <= p <= |source|
      ensures p in StalePages(source, seen, nSrc, nDest) <==> s[p - 1] != source[p - 1]
    {
    }
    if StalePages(source, seen, nSrc, nDest) == {} {
      forall i | 0 <= i < |s| ensures s[i] == source[i] {
        assert i + 1 !in StalePages(source, seen, nSrc, nDest);
      }
    } else {
      var p :| p in StalePages(source, seen, nSrc, nDest);
      assert s[p - 1] != source[p - 1];
    }
  }

  lemma ShownMirrors(source: seq<seq<Byte>>, seen: seq<seq<Byte>>, nSrc: nat, dest: Pages, nDest: nat)
    requires PageSize(nSrc) && PageSize(nDest) && Whole(source, nSrc) && Whole(seen, nSrc) && Sized(dest, nDest)
    requires |seen| >= |source| && Mirror(seen, nSrc, dest, nDest, |seen| + 1)
    ensures Mirror(Shown(source, seen, nSrc, nDest), nSrc, dest, nDest, |source| + 1)
  {
    var s := Shown(source, seen, nSrc, nDest);
    forall o: nat {:trigger PageByte(dest, nDest, o)} |
      Carried(o, nSrc, |source|) && PageOf(o, nDest) != PendingPage(nDest)
      ensures PageByte(dest, nDest, o) == SrcByte(s, nSrc, o)
    {
      LateByte(o, nSrc, nDest);
      SrcByteAt(s, nSrc, o);
      SrcByteAt(seen, nSrc, o);
    }
  }

  /** The number of destination pages that are kept. */
  function DestTruncate(nSrcPage: nat, nSrc: nat, nDest: nat): nat
    requires 0 < nSrc && 0 < nDest
  {
    if nSrc < nDest then
      var ratio := nDest / nSrc;
      var n := (nSrcPage + ratio - 1) / ratio;
      if n == PendingPage(nDest) then n - 1 else n
    else
      nSrcPage * (nSrc / nDest)
  }

  lemma RoundUp(n: nat, r: nat, small: nat)
    requires r > 0
    ensures n * small <= (n + r - 1) / r * (r * small) <= n * small + r * small
  {
    var m := n + r - 1;
    var up := m / r;
    assert m == up * r + m % r;
    assert n <= up * r <= n + r;
    assert up * (r * small) == (up * r) * small;
    assert n * small <= (up * r) * small <= (n + r) * small;
  }

  lemma Pending(pgsz: nat)
    requires PageSize(pgsz)
    ensures (PendingPage(pgsz) - 1) * pgsz == PENDING_BYTE && PendingPage(pgsz) * pgsz == PENDING_BYTE + pgsz
  {
    Divides(pgsz, pgsz);
  }

  /** The assertion of sqlite3_backup_step about the truncated destination. */
  lemma TruncateAssert(nSrcPage: nat, nSrc: nat, nDest: nat)
    requires PageSize(nSrc) && PageSize(nDest) && nSrc < nDest
    ensures DestTruncate(nSrcPage, nSrc, nDest) * nDest >= nSrc * nSrcPage
         || (DestTruncate(nSrcPage, nSrc, nDest) == PendingPage(nDest) - 1
             && PENDING_BYTE <= nSrc * nSrcPage <= PENDING_BYTE + nDest)
  {
    Divides(nSrc, nDest);
    RoundUp(nSrcPage, nDest / nSrc, nSrc);
    Pending(nDest);
  }

  lemma RoundedPage(o: nat, n: nat, src: nat, dest: nat, r: nat)
    requires src > 0 && dest > 0 && r > 0 && dest == r * src && PageOf(o, src) <= n
    ensures PageOf(o, dest) <= (n + r - 1) / r
  {
    PageUpTo(o, src, n);
    RoundUp(n, r, src);
    PageUpTo(o, dest, (n + r - 1) / r);
  }

  lemma KeptPageRounded(o: nat, n: nat, src: nat, dest: nat)
    requires 0 < src < dest && dest == (dest / src) * src
    requires PageOf(o, src) <= n && PageOf(o, dest) != PendingPage(dest)
    ensures PageOf(o, dest) <= DestTruncate(n, src, dest)
  {
    RoundedPage(o, n, src, dest, dest / src);
  }

  lemma KeptPageExact(o: nat, n: nat, dest: nat, r: nat)
    requires dest > 0 && r > 0 && PageOf(o, r * dest) <= n
    ensures PageOf(o, dest) <= DestTruncate(n, r * dest, dest)
  {
    DivMod(r * dest, dest, r, 0);
    PageUpTo(o, r * dest, n);
    assert n * (r * dest) == (n * r) * dest;
    PageUpTo(o, dest, n * r);
    assert r * dest >= dest;
  }

  /** Every carried byte is on a page that is kept, unless it is on the destination's pending page. */
  lemma KeptPage(o: nat, nSrcPage: nat, nSrc: nat, nDest: nat)
    requires PageSize(nSrc) && PageSize(nDest) && Carried(o, nSrc, nSrcPage)
    requires PageOf(o, nDest) != PendingPage(nDest)
    ensures PageOf(o, nDest) <= DestTruncate(nSrcPage, nSrc, nDest)
  {
    if nSrc < nDest {
      Divides(nSrc, nDest);
      KeptPageRounded(o, nSrcPage, nSrc, nDest);
    } else {
      Divides(nDest, nSrc);
      KeptPageExact(o, nSrcPage, nDest, nSrc / nDest);
    }
  }

  /** The carried bytes of the destination's pending page lie behind the source's pending page. */
  lemma PendingBehind(o: nat, nSrc: nat, nDest: nat)
    requires PageSize(nSrc) && PageSize(nDest) && PageOf(o, nDest) == PendingPage(nDest)
    requires PageOf(o, nSrc) != PendingPage(nSrc)
    ensures PENDING_BYTE + nSrc <= o < PENDING_BYTE + nDest
  {
    Pending(nDest);
    Pending(nSrc);
    PageBounds(o, nDest, PendingPage(nDest));
    PageBounds(o, nSrc, PendingPage(nSrc));
  }

  type File = map<nat, Byte>

  /** The file has every carried byte, and up to byte end those of the destination's pending page as
      well. */
  ghost predicate Written(s: seq<seq<Byte>>, nSrc: nat, file: File, nDest: nat, end: nat)
    requires nSrc > 0 && nDest > 0 && Whole(s, nSrc)
  {
    forall o: nat {:trigger o in file} ::
      Carried(o, nSrc, |s|) && (PageOf(o, nDest) != PendingPage(nDest) || o < end) ==>
        o in file && file[o] == SrcByte(s, nSrc, o)
  }

  /** The file holds the pages of s: every byte of every page but the pending page, and nothing
      behind the last page. */
  ghost predicate FileMirrors(s: seq<seq<Byte>>, nSrc: nat, file: File)
    requires nSrc > 0 && Whole(s, nSrc)
  {
    && (forall o: nat {:trigger o in file} :: Carried(o, nSrc, |s|) ==> o in file && file[o] == SrcByte(s, nSrc, o))
    && (forall o: nat :: o in file ==> PageOf(o, nSrc) <= |s|)
  }

  /** A file determines the pages it holds. */
  lemma FileDetermines(a: seq<seq<Byte>>, b: seq<seq<Byte>>, nSrc: nat, file: File, p: nat)
    requires nSrc > 0 && Whole(a, nSrc) && Whole(b, nSrc) && 1 <= p <= |a| == |b| && p != PendingPage(nSrc)
    requires FileMirrors(a, nSrc, file) && FileMirrors(b, nSrc, file)
    ensures a[p - 1] == b[p - 1]
  {
    if a[p - 1] != b[p - 1] {
      var o := DifferingByte(a[p - 1], b[p - 1], p, nSrc);
      assert Carried(o, nSrc, |a|) && o in file;
      SrcByteAt(a, nSrc, o);
      SrcByteAt(b, nSrc, o);
    }
  }

  function Shifted(data: seq<Byte>, from: nat, o: nat): Byte
    requires from <= o < from + |data|
  {
    data[o - from]
  }

  /** sqlite3OsWrite. */
  function OsWrite(file: File, data: seq<Byte>, from: nat): (file': File)
    ensures forall o: nat {:trigger o in file'} :: o in file' <==> o in file || from <= o < from + |data|
    ensures forall o :: o in file' ==> file'[o] == if from <= o < from + |data| then data[o - from] else file[o]
  {
    file + map o: nat | from <= o < from + |data| :: Shifted(data, from, o)
  }

  /** Source page q + 1 has been written into the file directly. */
  lemma WrittenMore(s: seq<seq<Byte>>, nSrc: nat, file: File, nDest: nat, q: nat, from: nat)
    requires nSrc > 0 && nDest > 0 && Whole(s, nSrc) && q < |s| && from == q * nSrc
    requires Written(s, nSrc, file, nDest, from)
    ensures Written(s, nSrc, OsWrite(file, s[q], from), nDest, from + nSrc)
  {
    var file' := OsWrite(file, s[q], from);
    forall o: nat {:trigger o in file'} |
      Carried(o, nSrc, |s|) && (PageOf(o, nDest) != PendingPage(nDest) || o < from + nSrc)
      ensures o in file' && file'[o] == SrcByte(s, nSrc, o)
    {
      if from <= o < from + nSrc {
        DivMod(o, nSrc, q, o - from);
      } else {
        assert o in file;
      }
    }
  }

  /** A header field is written into the destination's first page. */
  lemma FieldMirrors(s: seq<seq<Byte>>, nSrc: nat, dest: Pages, nDest: nat, from: nat, field: seq<Byte>)
    requires PageSize(nSrc) && PageSize(nDest) && Whole(s, nSrc) && Sized(dest, nDest)
    requires Mirror(s, nSrc, dest, nDest, |s| + 1) && 0 < |field| && from + |field| <= 512
    ensures from % nDest + |field| <= nDest
    ensures Mirror(Patched(s, nSrc, from, field), nSrc, Put(dest, nDest, from, field), nDest, |s| + 1)
  {
    assert nSrc >= 512 && nDest >= 512;
    DivMod(from, nDest, 0, from);
    var s', dest' := Patched(s, nSrc, from, field), Put(dest, nDest, from, field);
    forall o: nat {:trigger PageByte(dest', nDest, o)} |
      Carried(o, nSrc, |s|) && PageOf(o, nDest) != PendingPage(nDest)
      ensures PageByte(dest', nDest, o) == SrcByte(s', nSrc, o)
    {
      PutBytes(dest, nDest, from, field, o);
      PatchedByte(s, nSrc, from, field, o);
      assert PageByte(dest, nDest, o) == SrcByte(s, nSrc, o);
    }
  }

  /** The file a commit leaves: the first n pages; the pager never writes the pending page. */
  function Committed(dest: Pages, pgsz: nat, n: nat): File
    requires pgsz > 0 && Sized(dest, pgsz)
  {
    map o: nat | o < n * pgsz && PageOf(o, pgsz) != PendingPage(pgsz) :: PageByte(dest, pgsz, o)
  }

  lemma CommitWrites(s: seq<seq<Byte>>, nSrc: nat, dest: Pages, nDest: nat, n: nat)
    requires PageSize(nSrc) && PageSize(nDest) && Whole(s, nSrc) && Sized(dest, nDest)
    requires Mirror(s, nSrc, dest, nDest, |s| + 1) && n == DestTruncate(|s|, nSrc, nDest)
    ensures Written(s, nSrc, Committed(dest, nDest, n), nDest, 0)
  {
    var file := Committed(dest, nDest, n);
    forall o: nat {:trigger o in file} | Carried(o, nSrc, |s|) && PageOf(o, nDest) != PendingPage(nDest)
      ensures o in file && file[o] == SrcByte(s, nSrc, o)
    {
      KeptPage(o, |s|, nSrc, nDest);
      PageUpTo(o, nDest, n);
      assert PageByte(dest, nDest, o) == SrcByte(s, nSrc, o);
    }
  }

  lemma UpIffAny(n: nat, r: nat)
    requires r > 0
    ensures (n + r - 1) / r > 0 <==> n > 0
  {
    if n == 0 {
      DivMod(r - 1, r, 0, r - 1);
    } else {
      assert n + r - 1 == (n + r - 1) / r * r + (n + r - 1) % r;
    }
  }

  /** Nothing is kept exactly of an empty source. */
  lemma KeptIffAny(n: nat, nSrc: nat, nDest: nat)
    requires PageSize(nSrc) && PageSize(nDest)
    ensures DestTruncate(n, nSrc, nDest) > 0 <==> n > 0
  {
    if nSrc < nDest {
      Divides(nSrc, nDest);
      UpIffAny(n, nDest / nSrc);
      assert PendingPage(nDest) > 1;
    } else {
      Divides(nDest, nSrc);
      var r := nSrc / nDest;
      assert r > 0 && (n > 0 ==> n * r >= r) && (n == 0 ==> n * r == 0);
    }
  }

  lemma ExactSize(n: nat, nSrc: nat, nDest: nat)
    requires PageSize(nSrc) && PageSize(nDest) && nDest <= nSrc
    ensures DestTruncate(n, nSrc, nDest) * nDest == n * nSrc
  {
    var r := nSrc / nDest;
    Divides(nDest, nSrc);
    Regroup(n, r, 0, nDest);
    assert DestTruncate(n, nSrc, nDest) == n * r;
  }

  /** With destination pages no larger than the source's, the committed file ends where the source does. */
  lemma CommitWithin(dest: Pages, nSrc: nat, nDest: nat, nSrcPage: nat)
    requires PageSize(nSrc) && PageSize(nDest) && Sized(dest, nDest) && nDest <= nSrc
    ensures var n := DestTruncate(nSrcPage, nSrc, nDest);
            forall o: nat :: o in Committed(dest, nDest, n) ==> PageOf(o, nSrc) <= nSrcPage
  {
    var n := DestTruncate(nSrcPage, nSrc, nDest);
    ExactSize(nSrcPage, nSrc, nDest);
    forall o: nat | o in Committed(dest, nDest, n) ensures PageOf(o, nSrc) <= nSrcPage {
      PageUpTo(o, nSrc, nSrcPage);
    }
  }

  /** backupTruncateFile. */
  function Truncated(file: File, size: nat): (file': File)
    ensures forall o: nat {:trigger o in file'} :: o in file' <==> o in file && o < size
    ensures forall o :: o in file' ==> file'[o] == file[o]
  {
    map o | o in file && o < size :: file[o]
  }

  lemma TruncateKeeps(s: seq<seq<Byte>>, nSrc: nat, file: File, nDest: nat)
    requires PageSize(nSrc) && PageSize(nDest) && Whole(s, nSrc) && Written(s, nSrc, file, nDest, 0)
    ensures Written(s, nSrc, Truncated(file, |s| * nSrc), nDest, PENDING_BYTE + nSrc)
  {
    var file' := Truncated(file, |s| * nSrc);
    forall o: nat {:trigger o in file'} |
      Carried(o, nSrc, |s|) && (PageOf(o, nDest) != PendingPage(nDest) || o < PENDING_BYTE + nSrc)
      ensures o in file' && file'[o] == SrcByte(s, nSrc, o)
    {
      PageUpTo(o, nSrc, |s|);
      if PageOf(o, nDest) == PendingPage(nDest) {
        PendingBehind(o, nSrc, nDest);
      } else {
        assert o in file;
      }
    }
  }

  /** Nothing is missing once the bytes behind the source's pending page are there. */
  lemma WrittenAll(s: seq<seq<Byte>>, nSrc: nat, file: File, nDest: nat, end: nat)
    requires PageSize(nSrc) && PageSize(nDest) && Whole(s, nSrc) && Written(s, nSrc, file, nDest, end)
    requires forall o: nat {:trigger o in file} :: o in file ==> PageOf(o, nSrc) <= |s|
    requires nDest <= nSrc || end >= Min(PENDING_BYTE + nDest, |s| * nSrc)
    ensures FileMirrors(s, nSrc, file)
  {
    forall o: nat {:trigger o in file} | Carried(o, nSrc, |s|) ensures o in file && file[o] == SrcByte(s, nSrc, o) {
      if PageOf(o, nDest) == PendingPage(nDest) {
        PageUpTo(o, nSrc, |s|);
        PendingBehind(o, nSrc, nDest);
        assert nSrc < nDest;
      }
    }
  }

  /** A finished backup is the source byte for byte exactly when the source has the new values in its
      header fields already. */
  lemma SameAsSource(source: seq<seq<Byte>>, nSrc: nat, file: File, schema: nat, counter: Option<nat>)
    requires PageSize(nSrc) && Whole(source, nSrc)
    requires FileMirrors(Headed(source, nSrc, schema, counter), nSrc, file)
    ensures FileMirrors(source, nSrc, file) <==>
      source == [] ||
      (source[0][40..44] == Four(schema) && (counter.Some? ==> source[0][24..28] == Four(counter.value)))
  {
    var t := Headed(source, nSrc, schema, counter);
    HeadedFields(source, nSrc, schema, counter);
    if source != [] && FileMirrors(source, nSrc, file) {
      FileDetermines(source, t, nSrc, file, 1);
    }
  }

  /** The new fields are in place, and nothing else has changed. */
  lemma HeadedFields(s: seq<seq<Byte>>, nSrc: nat, schema: nat, counter: Option<nat>)
    requires PageSize(nSrc) && Whole(s, nSrc)
    ensures var t := Headed(s, nSrc, schema, counter);
      && (s != [] ==>
           t[0][40..44] == Four(schema) && (counter.Some? ==> t[0][24..28] == Four(counter.value)))
      && (t == s <==>
           s == [] || (s[0][40..44] == Four(schema) && (counter.Some? ==> s[0][24..28] == Four(counter.value))))
  {
    if s != [] {
      var t := Patched(s, nSrc, 40, Four(schema));
      PatchedField(s, nSrc, 40, Four(schema));
      if counter.Some? {
        PatchedField(t, nSrc, 24, Four(counter.value));
        PatchedElsewhere(t, nSrc, 24, Four(counter.value), 40, 44);
        PatchedElsewhere(s, nSrc, 40, Four(schema), 24, 28);
      }
    }
  }

  lemma PatchedElsewhere(s: seq<seq<Byte>>, nSrc: nat, from: nat, bytes: seq<Byte>, lo: nat, hi: nat)
    requires Whole(s, nSrc) && from + |bytes| <= nSrc && s != []
    requires lo <= hi <= nSrc && (hi <= from || from + |bytes| <= lo)
    ensures Patched(s, nSrc, from, bytes)[0][lo..hi] == s[0][lo..hi]
  {
  }

  lemma PatchedField(s: seq<seq<Byte>>, nSrc: nat, from: nat, bytes: seq<Byte>)
    requires Whole(s, nSrc) && from + |bytes| <= nSrc && s != []
    ensures Patched(s, nSrc, from, bytes)[0][from..from + |bytes|] == bytes
    ensures Patched(s, nSrc, from, bytes) == s <==> s[0][from..from + |bytes|] == bytes
  {
    var t := Patched(s, nSrc, from, bytes);
    assert s[0] == s[0][..from] + s[0][from..from + |bytes|] + s[0][from + |bytes|..];
    assert s == [s[0]] + s[1..];
  }

  /** The file begins with this page. */
  ghost predicate BeginsWith(file: File, page: seq<Byte>) {
    forall i :: 0 <= i < |page| ==> i in file && file[i] == page[i]
  }

  lemma FirstPage(s: seq<seq<Byte>>, nSrc: nat, file: File)
    requires PageSize(nSrc) && Whole(s, nSrc) && s != [] && FileMirrors(s, nSrc, file)
    ensures BeginsWith(file, s[0])
  {
    forall i | 0 <= i < nSrc ensures i in file && file[i] == s[0][i] {
      DivMod(i, nSrc, 0, i);
      assert Carried(i, nSrc, |s|);
    }
  }

  lemma FieldInFile(file: File, page: seq<Byte>, from: nat)
    requires BeginsWith(file, page) && from + 4 <= |page|
    ensures from in file && from + 1 in file && from + 2 in file && from + 3 in file
    ensures [file[from], file[from + 1], file[from + 2], file[from + 3]] == page[from..from + 4]
  {
  }

  /** The schema version of the file differs from the one the destination had. */
  lemma SchemaChanges(s: seq<seq<Byte>>, nSrc: nat, file: File, was: nat, counter: Option<nat>)
    requires PageSize(nSrc) && Whole(s, nSrc) && s != [] && was < U32
    requires FileMirrors(Headed(s, nSrc, Bumped(was), counter), nSrc, file)
    ensures 40 in file && 41 in file && 42 in file && 43 in file
    ensures Value([file[40], file[41], file[42], file[43]]) == Bumped(was) != was
  {
    var t := Headed(s, nSrc, Bumped(was), counter);
    HeadedFields(s, nSrc, Bumped(was), counter);
    ValueOfFour(Bumped(was));
    FirstPage(t, nSrc, file);
    FieldInFile(file, t[0], 40);
  }

  class Backup {
    const nSrcPgsz: nat
    const nDestPgsz: nat
    /** The destination is an in-memory database. */
    const memdb: bool
    /** No page, file or commit operation fails, and every lock is free. */
    const faultless: bool
    /** The source's pages, page 1 first; they change between the steps. */
    var source: seq<seq<Byte>>
    /** The destination's page cache. */
    var dest: Pages
    var iNext: nat
    var rc: Rc
    var isAttached: bool
    var bDestLocked: bool
    /** The destination's pager does not count this change of the file: it is a temporary file, or
        locked for itself and counted before. */
    const changeCountDone: bool
    /** The pages as they were copied, in front of iNext. */
    ghost var seen: seq<seq<Byte>>
    /** The destination's schema version and file change counter when it was locked. */
    var iDestSchema: nat
    var dbFileVers: nat
    /** 32-bit unsigned. */
    var nRemaining: nat
    var nPagecount: nat
    /** The destination file, from the commit on; an in-memory destination's pages. */
    var file: File

    ghost predicate Sizes()
      reads this`source, this`seen, this`dest
    {
      && PageSize(nSrcPgsz) && PageSize(nDestPgsz)
      && Sized(dest, nDestPgsz) && Whole(source, nSrcPgsz) && Whole(seen, nSrcPgsz)
    }

    /** Nothing can fail: an in-memory destination must have the source's page size. */
    predicate Reliable() {
      faultless && (memdb ==> nSrcPgsz == nDestPgsz)
    }

    /** One turn of the loop of backupOnePage. */
    method CopyRun(iOff: nat, nCopy: nat, zSrcData: seq<Byte>, ghost before: Pages, ghost start: nat) returns (r: Rc)
      requires Sizes() && |zSrcData| == nSrcPgsz && Sized(before, nDestPgsz) && nCopy > 0
      requires start <= iOff && iOff % nSrcPgsz == iOff - start && iOff - start + nCopy <= nSrcPgsz
      requires iOff % nDestPgsz + nCopy <= nDestPgsz
      requires Copied(before, dest, nDestPgsz, start, iOff, zSrcData)
      modifies this`dest
      ensures Sizes() && (r == OK || r == IOERR) && (faultless ==> r == OK)
      ensures r == OK ==> Copied(before, dest, nDestPgsz, start, iOff + nCopy, zSrcData)
    {
      r := OK;
      ghost var dest0 := dest;
      var iDest := iOff / nDestPgsz + 1;
      if iDest != PendingPage(nDestPgsz) {
        var failed: bool := *;
        if failed && !faultless {
          return IOERR;
        }
        var zIn := iOff % nSrcPgsz;
        dest := Put(dest, nDestPgsz, iOff, zSrcData[zIn..][..nCopy]);
      }
      CopiedMore(before, dest0, dest, nDestPgsz, start, iOff, nCopy, zSrcData);
    }

    /** backupOnePage.  Fetching or writing a destination page may fail, which is fatal. */
    method BackupOnePage(iSrcPg: nat, zSrcData: seq<Byte>) returns (r: Rc)
      requires Sizes() && bDestLocked && !Fatal(rc)
      requires iSrcPg > 0 && iSrcPg != PendingPage(nSrcPgsz) && |zSrcData| == nSrcPgsz
      modifies this`dest
      ensures Sizes()
      ensures r == OK || r == READONLY || r == IOERR
      ensures Reliable() ==> r == OK
      ensures memdb && nSrcPgsz != nDestPgsz ==> r == READONLY && dest == old(dest)
      ensures r == OK ==> PageCopied(old(dest), dest, nDestPgsz, nSrcPgsz, iSrcPg, zSrcData)
    {
      var nCopy := Min(nSrcPgsz, nDestPgsz);
      var iEnd := iSrcPg * nSrcPgsz;
      ghost var start, k := iEnd - nSrcPgsz, 0;
      r := OK;
      if nSrcPgsz != nDestPgsz && memdb {
        r := READONLY;
      }
      var iOff := iEnd - nSrcPgsz;
      while r == OK && iOff < iEnd
        invariant Sizes() && iOff == start + k * nDestPgsz
        invariant r == OK || r == READONLY || r == IOERR
        invariant Reliable() ==> r == OK
        invariant memdb && nSrcPgsz != nDestPgsz ==> r == READONLY && dest == old(dest)
        invariant r == OK ==> Copied(old(dest), dest, nDestPgsz, start, Min(iOff, iEnd), zSrcData)
        decreases iEnd - iOff
      {
        Run(iSrcPg, k, iOff, nSrcPgsz, nDestPgsz);
        r := CopyRun(iOff, nCopy, zSrcData, old(dest), start);
        iOff, k := iOff + nDestPgsz, k + 1;
      }
      if r == OK {
        assert start == (iSrcPg - 1) * nSrcPgsz;
        CopiedAll(old(dest), dest, nDestPgsz, nSrcPgsz, iSrcPg, zSrcData);
      }
    }

    /** The destination mirrors what was copied, however the source may have changed since. */
    ghost predicate Valid()
      reads this`source, this`seen, this`dest, this`iNext, this`rc, this`isAttached, this`bDestLocked
    {
      && Sizes() && iNext >= 1
      && iNext <= SQLITE_MAX_PAGE_COUNT + 1 && |source| <= SQLITE_MAX_PAGE_COUNT
      && (!Fatal(rc) ==>
            && |seen| == iNext - 1
            && Mirror(seen, nSrcPgsz, dest, nDestPgsz, iNext)
            && (iNext > 1 ==> isAttached && bDestLocked))
    }

    /** The copied pages that the source no longer has as they were copied. */
    ghost function Stale(): set<nat>
      reads this`source, this`seen
    {
      StalePages(source, seen, nSrcPgsz, nDestPgsz)
    }

    /** The header fields that the last step writes. */
    function NewSchema(): nat
      reads this`iDestSchema
    {
      Bumped(iDestSchema)
    }

    function NewCounter(): Option<nat>
      reads this`dbFileVers
    {
      if memdb || changeCountDone then None else Some(Bumped(dbFileVers))
    }

    /** sqlite3_backup_remaining, which gives the unsigned number as an int. */
    function Remaining(): int
      reads this`nRemaining
    {
      if nRemaining > INT_MAX then nRemaining - U32 else nRemaining
    }

    /** sqlite3_backup_init. */
    constructor (
        nSrcPgsz: nat, nDestPgsz: nat, memdb: bool, changeCountDone: bool, faultless: bool, source: seq<seq<Byte>>,
        dest: Pages)
      requires PageSize(nSrcPgsz) && PageSize(nDestPgsz) && Whole(source, nSrcPgsz) && Sized(dest, nDestPgsz)
      requires |source| <= SQLITE_MAX_PAGE_COUNT
      ensures Valid() && this.source == source && this.nSrcPgsz == nSrcPgsz && this.nDestPgsz == nDestPgsz
      ensures this.memdb == memdb && this.changeCountDone == changeCountDone && this.faultless == faultless
      ensures iNext == 1 && rc == OK && !bDestLocked && this.dest == dest
    {
      this.nSrcPgsz, this.nDestPgsz, this.memdb, this.faultless := nSrcPgsz, nDestPgsz, memdb, faultless;
      this.changeCountDone, this.source, this.dest := changeCountDone, source, dest;
      iNext, rc, isAttached, bDestLocked, nRemaining, nPagecount, file := 1, OK, false, false, 0, 0, map[];
      iDestSchema, dbFileVers, seen := 0, 0, [];
    }

    /** sqlite3BackupUpdate for this backup: the page is copied again if it had been copied. */
    method Update(iPage: nat, aData: seq<Byte>)
      requires Sizes() && iPage > 0 && iPage != PendingPage(nSrcPgsz) && |aData| == nSrcPgsz
      requires !Fatal(rc) && iPage < iNext ==> bDestLocked
      modifies this`dest, this`rc
      ensures Sizes() && (Fatal(old(rc)) || Reliable() ==> rc == old(rc))
      ensures !Fatal(rc) ==> rc == old(rc)
      ensures !Fatal(rc) ==>
        if iPage < iNext then PageCopied(old(dest), dest, nDestPgsz, nSrcPgsz, iPage, aData) else dest == old(dest)
    {
      if !Fatal(rc) && iPage < iNext {
        var r := BackupOnePage(iPage, aData);
        assert r != BUSY && r != LOCKED;
        if r != OK {
          rc := r;
        }
      }
    }

    /** The pager writes a page of the source, new or old, and tells the attached backups.  A write
        beyond the end makes the pages in between appear too, which are not written. */
    method SourceWrite(iPage: nat, aData: seq<Byte>, gap: seq<seq<Byte>>)
      requires Valid() && 1 <= iPage <= SQLITE_MAX_PAGE_COUNT && iPage != PendingPage(nSrcPgsz)
      requires |aData| == nSrcPgsz && |gap| == if iPage <= |source| then 0 else iPage - 1 - |source|
      requires Whole(gap, nSrcPgsz)
      modifies this`source, this`seen, this`dest, this`rc
      ensures Valid() && (Reliable() ==> rc == old(rc))
      ensures source ==
        if iPage <= |old(source)| then old(source)[iPage - 1 := aData] else old(source) + gap + [aData]
      ensures !Fatal(rc) ==>
        && seen == (if iPage <= |old(seen)| then old(seen)[iPage - 1 := aData] else old(seen))
        && Stale() == old(Stale()) - {iPage} + Reappeared(|old(source)|, gap, old(seen), nSrcPgsz, nDestPgsz)
    {
      ghost var back := Reappeared(|source|, gap, seen, nSrcPgsz, nDestPgsz);
      SourceGrow(gap);
      assert Stale() == old(Stale()) + back && iPage !in back;
      WriteNext(iPage, aData);
    }

    /** A write to a page that is there, or to the one behind the last. */
    method WriteNext(iPage: nat, aData: seq<Byte>)
      requires Valid() && 1 <= iPage <= |source| + 1 && iPage <= SQLITE_MAX_PAGE_COUNT
      requires iPage != PendingPage(nSrcPgsz) && |aData| == nSrcPgsz
      modifies this`source, this`seen, this`dest, this`rc
      ensures Valid() && (Reliable() ==> rc == old(rc))
      ensures source == if iPage <= |old(source)| then old(source)[iPage - 1 := aData] else old(source) + [aData]
      ensures !Fatal(rc) ==>
        && seen == (if iPage <= |old(seen)| then old(seen)[iPage - 1 := aData] else old(seen))
        && Stale() == old(Stale()) - {iPage}
    {
      ghost var was := seen;
      source := if iPage <= |source| then source[iPage - 1 := aData] else source + [aData];
      if isAttached {
        Update(iPage, aData);
        if !Fatal(rc) && iPage < iNext {
          seen := was[iPage - 1 := aData];
          MirrorRewritten(was, seen, nSrcPgsz, old(dest), dest, nDestPgsz, iNext, iPage);
        }
      }
      if !Fatal(rc) {
        StaleWritten(old(source), was, iPage, aData, nSrcPgsz, nDestPgsz);
      }
    }

    /** The source grows by pages that nobody writes. */
    method SourceGrow(pages: seq<seq<Byte>>)
      requires Valid() && Whole(pages, nSrcPgsz) && |source| + |pages| <= SQLITE_MAX_PAGE_COUNT
      modifies this`source
      ensures Valid() && source == old(source) + pages
      ensures Stale() == old(Stale()) + Reappeared(|old(source)|, pages, seen, nSrcPgsz, nDestPgsz)
    {
      source := source + pages;
    }

    /** The source loses its last pages, which is not reported either. */
    method SourceTruncate(n: nat)
      requires Valid() && n <= |source|
      modifies this`source
      ensures Valid() && source == old(source)[..n]
      ensures Stale() == set p | p in old(Stale()) && p <= n
    {
      source := source[..n];
    }

    /** Another process changed the source in any way; sqlite3BackupRestart for an attached backup. */
    method SourceReplace(now: seq<seq<Byte>>)
      requires Valid() && Whole(now, nSrcPgsz) && |now| <= SQLITE_MAX_PAGE_COUNT
      modifies this`source, this`seen, this`iNext
      ensures Valid() && source == now && iNext == if isAttached then 1 else old(iNext)
      ensures !Fatal(rc) ==> Stale() == {}
    {
      source := now;
      if isAttached {
        iNext, seen := 1, [];
      }
    }

    // ----- the last step

    /** A four-byte field of the first page, sqlite3BtreeUpdateMeta or the change counter. */
    method WriteField(from: nat, value: nat, ghost s: seq<seq<Byte>>) returns (failed: bool)
      requires Sizes() && Whole(s, nSrcPgsz) && Mirror(s, nSrcPgsz, dest, nDestPgsz, |s| + 1) && from + 4 <= 512
      modifies this`dest
      ensures Sizes() && (faultless ==> !failed)
      ensures !failed ==>
        Mirror(Patched(s, nSrcPgsz, from, Four(value)), nSrcPgsz, dest, nDestPgsz, |s| + 1)
    {
      failed := *;
      failed := failed && !faultless;
      if !failed {
        FieldMirrors(s, nSrcPgsz, dest, nDestPgsz, from, Four(value));
        dest := Put(dest, nDestPgsz, from, Four(value));
      }
    }

    /** The pages with the change counter, if it is written. */
    ghost function Counted(s: seq<seq<Byte>>): (s': seq<seq<Byte>>)
      requires Whole(s, nSrcPgsz) && nSrcPgsz >= 44
      reads this`dbFileVers
      ensures Whole(s', nSrcPgsz) && |s'| == |s| && forall i :: 1 <= i < |s| ==> s'[i] == s[i]
    {
      if NewCounter().None? then s else Patched(s, nSrcPgsz, 24, Four(NewCounter().value))
    }

    /** pager_incr_changecounter: once for each change, and only if there are pages. */
    method CountChange(n: nat, ghost s: seq<seq<Byte>>) returns (failed: bool)
      requires Sizes() && Whole(s, nSrcPgsz) && Mirror(s, nSrcPgsz, dest, nDestPgsz, |s| + 1)
      requires n == DestTruncate(|s|, nSrcPgsz, nDestPgsz)
      modifies this`dest
      ensures Sizes() && (faultless ==> !failed)
      ensures !failed ==> Mirror(Counted(s), nSrcPgsz, dest, nDestPgsz, |s| + 1)
    {
      failed := false;
      KeptIffAny(|s|, nSrcPgsz, nDestPgsz);
      if !memdb && !changeCountDone && n > 0 {
        failed := WriteField(24, Bumped(dbFileVers), s);
      }
    }

    /** sqlite3PagerTruncateImage and sqlite3PagerCommitPhaseOne. */
    method CommitPhaseOne(n: nat, ghost s: seq<seq<Byte>>) returns (failed: bool)
      requires Sizes() && Whole(s, nSrcPgsz) && Mirror(s, nSrcPgsz, dest, nDestPgsz, |s| + 1)
      requires n == DestTruncate(|s|, nSrcPgsz, nDestPgsz)
      modifies this`dest, this`file
      ensures Sizes() && (faultless ==> !failed)
      ensures !failed ==> Written(Counted(s), nSrcPgsz, file, nDestPgsz, 0)
      ensures !failed && nDestPgsz <= nSrcPgsz ==> forall o: nat :: o in file ==> PageOf(o, nSrcPgsz) <= |s|
    {
      failed := CountChange(n, s);
      if !failed {
        failed := *;
        failed := failed && !faultless;
        file := Committed(dest, nDestPgsz, n);
        CommitWrites(Counted(s), nSrcPgsz, dest, nDestPgsz, n);
        if nDestPgsz <= nSrcPgsz {
          CommitWithin(dest, nSrcPgsz, nDestPgsz, |s|);
        }
      }
    }

    /** The pages of s that the source pager can still give are those it has now. */
    ghost predicate LateFrom(s: seq<seq<Byte>>)
      reads this`source
    {
      && |s| == |source| && Whole(s, nSrcPgsz)
      && forall i :: 1 <= i < |s| && Late(i + 1, nSrcPgsz, nDestPgsz) ==> s[i] == source[i]
    }

    /** The source pages that lie in the destination's pending page, behind the source's own, are
        written into the file directly. */
    method WriteBehindPending(iSize: nat, ghost s: seq<seq<Byte>>) returns (r: Rc)
      requires Sizes() && nSrcPgsz < nDestPgsz && LateFrom(s) && iSize == |source| * nSrcPgsz
      requires Written(s, nSrcPgsz, file, nDestPgsz, PENDING_BYTE + nSrcPgsz)
      requires forall o: nat :: o in file ==> o < iSize
      modifies this`file
      ensures (r == OK || r == IOERR) && (faultless ==> r == OK)
      ensures r == OK ==> Written(s, nSrcPgsz, file, nDestPgsz, Min(PENDING_BYTE + nDestPgsz, iSize))
      ensures forall o: nat :: o in file ==> o < iSize
    {
      r := OK;
      var iEnd := Min(PENDING_BYTE + nDestPgsz, iSize);
      var iOff := PENDING_BYTE + nSrcPgsz;
      ghost var q := PendingPage(nSrcPgsz);
      Pending(nSrcPgsz);
      while r == OK && iOff < iEnd
        invariant (r == OK || r == IOERR) && (faultless ==> r == OK)
        invariant iOff == q * nSrcPgsz && iOff > PENDING_BYTE
        invariant Written(s, nSrcPgsz, file, nDestPgsz, if r == OK then iOff else 0)
        invariant forall o: nat :: o in file ==> o < iSize
        decreases iEnd - iOff
      {
        r, q := WritePage(iOff, iSize, q, s);
        iOff := iOff + nSrcPgsz;
      }
    }

    method WritePage(iOff: nat, iSize: nat, ghost q: nat, ghost s: seq<seq<Byte>>) returns (r: Rc, ghost q': nat)
      requires Sizes() && LateFrom(s) && iSize == |source| * nSrcPgsz && iOff == q * nSrcPgsz && iOff < iSize
      requires PENDING_BYTE < iOff < PENDING_BYTE + nDestPgsz
      requires Written(s, nSrcPgsz, file, nDestPgsz, iOff)
      requires forall o: nat :: o in file ==> o < iSize
      modifies this`file
      ensures (r == OK || r == IOERR) && (faultless ==> r == OK)
      ensures q' == q + 1 && iOff + nSrcPgsz == q' * nSrcPgsz
      ensures Written(s, nSrcPgsz, file, nDestPgsz, if r == OK then iOff + nSrcPgsz else 0)
      ensures forall o: nat :: o in file ==> o < iSize
    {
      var iSrcPg := iOff / nSrcPgsz + 1;
      DivMod(iOff, nSrcPgsz, q, 0);
      PageUpTo(iOff, nSrcPgsz, |source|);
      assert (q + 1) * nSrcPgsz <= |source| * nSrcPgsz;
      q' := q + 1;
      var failed: bool := *;
      if failed && !faultless {
        return IOERR, q';
      }
      assert Late(q + 1, nSrcPgsz, nDestPgsz);
      WrittenMore(s, nSrcPgsz, file, nDestPgsz, q, iOff);
      file := OsWrite(file, source[iSrcPg - 1], iOff);
      r := OK;
    }

    method FinalPages() returns (nDestTruncate: nat)
      requires nSrcPgsz > 0 && nDestPgsz > 0
      ensures nDestTruncate == DestTruncate(|source|, nSrcPgsz, nDestPgsz)
    {
      var nSrcPage := |source|;
      if nSrcPgsz < nDestPgsz {
        var ratio := nDestPgsz / nSrcPgsz;
        var up := (nSrcPage + ratio - 1) / ratio;
        nDestTruncate := if up == PendingPage(nDestPgsz) then up - 1 else up;
      } else {
        nDestTruncate := nSrcPage * (nSrcPgsz / nDestPgsz);
      }
    }

    /** After the commit, when the destination's pages are larger than the source's. */
    method TrimFile(nDestTruncate: nat, ghost s: seq<seq<Byte>>) returns (r: Rc)
      requires Sizes() && nSrcPgsz < nDestPgsz && LateFrom(s) && Written(s, nSrcPgsz, file, nDestPgsz, 0)
      requires nDestTruncate == DestTruncate(|source|, nSrcPgsz, nDestPgsz)
      modifies this`file
      ensures (r == OK || r == IOERR) && (faultless ==> r == OK)
      ensures r == OK ==> FileMirrors(s, nSrcPgsz, file)
    {
      var iSize := nSrcPgsz * |source|;
      TruncateAssert(|source|, nSrcPgsz, nDestPgsz);
      assert nDestTruncate * nDestPgsz >= iSize
          || (nDestTruncate == PendingPage(nDestPgsz) - 1 && PENDING_BYTE <= iSize <= PENDING_BYTE + nDestPgsz);
      TruncateKeeps(s, nSrcPgsz, file, nDestPgsz);
      file := Truncated(file, iSize);
      r := WriteBehindPending(iSize, s);
      if r == OK {
        forall o: nat | o in file ensures PageOf(o, nSrcPgsz) <= |source| {
          PageUpTo(o, nSrcPgsz, |source|);
        }
        WrittenAll(s, nSrcPgsz, file, nDestPgsz, Min(PENDING_BYTE + nDestPgsz, |source| * nSrcPgsz));
      }
    }

    /** The file is what a finished backup leaves. */
    ghost predicate Finished()
      reads this`source, this`seen, this`dest, this`file, this`iDestSchema, this`dbFileVers
    {
      && Sizes() && |seen| >= |source|
      && FileMirrors(
           Headed(Shown(source, seen, nSrcPgsz, nDestPgsz), nSrcPgsz, NewSchema(), NewCounter()), nSrcPgsz, file)
    }

    /** The file is the source as it is now, with the new header fields. */
    ghost predicate Current()
      requires Sizes()
      reads this`source, this`seen, this`dest, this`file, this`iDestSchema, this`dbFileVers
    {
      FileMirrors(Headed(source, nSrcPgsz, NewSchema(), NewCounter()), nSrcPgsz, file)
    }

    /** A finished file is the source as it is now when no copied page is stale, and, but for a stale
        first page, only then. */
    lemma FinalIffFresh()
      requires Finished()
      ensures Stale() == {} ==> Current()
      ensures 1 !in Stale() ==> (Current() <==> Stale() == {})
    {
      var s := Shown(source, seen, nSrcPgsz, nDestPgsz);
      ShownIffFresh(source, seen, nSrcPgsz, nDestPgsz);
      var t := Headed(source, nSrcPgsz, NewSchema(), NewCounter());
      if Stale() == {} {
        assert s == source;
      } else if 1 !in Stale() && Current() {
        var p :| p in Stale();
        NotPending(p, nSrcPgsz, nDestPgsz);
        FileDetermines(Headed(s, nSrcPgsz, NewSchema(), NewCounter()), t, nSrcPgsz, file, p);
      }
    }

    /** The part of sqlite3_backup_step that follows when every page has been copied: the file holds
        what was copied, with the two new fields in the header. */
    method Finish() returns (r: Rc)
      requires Valid() && |seen| >= |source| && Mirror(seen, nSrcPgsz, dest, nDestPgsz, |seen| + 1)
      modifies this`dest, this`file, this`rc
      ensures Valid() && (r == DONE || r == IOERR) && (faultless ==> r == DONE) && rc == r
      ensures r == DONE ==> Finished()
    {
      r := WriteFile();
      rc := r;
    }

    method WriteFile() returns (r: Rc)
      requires Sizes() && |seen| >= |source| && Mirror(seen, nSrcPgsz, dest, nDestPgsz, |seen| + 1)
      modifies this`dest, this`file
      ensures Sizes() && (r == DONE || r == IOERR) && (faultless ==> r == DONE)
      ensures r == DONE ==> Finished()
    {
      ghost var s := Shown(source, seen, nSrcPgsz, nDestPgsz);
      ShownMirrors(source, seen, nSrcPgsz, dest, nDestPgsz);
      var failed := WriteField(40, Bumped(iDestSchema), s);
      if failed {
        return IOERR;
      }
      r := Commit(Patched(s, nSrcPgsz, 40, Four(Bumped(iDestSchema))));
    }

    /** The commit of the destination, which shows s. */
    method Commit(ghost s: seq<seq<Byte>>) returns (r: Rc)
      requires Sizes() && LateFrom(s) && Mirror(s, nSrcPgsz, dest, nDestPgsz, |s| + 1)
      modifies this`dest, this`file
      ensures Sizes() && (r == DONE || r == IOERR) && (faultless ==> r == DONE)
      ensures r == DONE ==> FileMirrors(Counted(s), nSrcPgsz, file)
    {
      var nDestTruncate := FinalPages();
      var failed := CommitPhaseOne(nDestTruncate, s);
      if failed {
        return IOERR;
      }
      ghost var s' := Counted(s);
      if nSrcPgsz < nDestPgsz {
        r := TrimFile(nDestTruncate, s');
        if r != OK {
          return;
        }
      } else {
        WrittenAll(s', nSrcPgsz, file, nDestPgsz, 0);
      }
      failed := *;
      r := if failed && !faultless then IOERR else DONE;
    }

    // ----- sqlite3_backup_step

    /** A lock that may be busy, held by another connection, or fail. */
    method Lock() returns (r: Rc)
      ensures r != DONE && r != READONLY && (faultless ==> r == OK)
    {
      var outcome: nat := *;
      r := if faultless then OK
           else if outcome == 0 then BUSY
           else if outcome == 1 then LOCKED
           else if outcome == 2 then IOERR else OK;
    }

    /** The next page cannot be copied: an in-memory destination has another page size. */
    predicate Mismatch()
      requires nSrcPgsz > 0
      reads this`source, this`iNext
    {
      memdb && nSrcPgsz != nDestPgsz && iNext <= |source| && iNext != PendingPage(nSrcPgsz)
    }

    /** One turn of the copying loop. */
    method CopyNext() returns (r: Rc)
      requires Sizes() && !Fatal(rc) && bDestLocked && 1 <= iNext == |seen| + 1 <= |source|
      requires Mirror(seen, nSrcPgsz, dest, nDestPgsz, iNext)
      modifies this`dest, this`iNext, this`seen
      ensures Sizes() && (r == OK || r == READONLY || r == IOERR) && (Reliable() ==> r == OK)
      ensures faultless && old(Mismatch()) ==> r == READONLY
      ensures iNext == old(iNext) + 1 && seen == old(seen) + [source[iNext - 2]]
      ensures r == OK ==> Mirror(seen, nSrcPgsz, dest, nDestPgsz, iNext)
    {
      var iSrcPg := iNext;
      ghost var before := dest;
      r := OK;
      if iSrcPg != PendingPage(nSrcPgsz) {
        var failed: bool := *;
        if failed && !faultless {
          r := IOERR;
        } else {
          r := BackupOnePage(iSrcPg, source[iSrcPg - 1]);
        }
      }
      if r == OK {
        MirrorNext(seen, source[iSrcPg - 1], nSrcPgsz, before, dest, nDestPgsz);
      }
      seen := seen + [source[iSrcPg - 1]];
      iNext := iNext + 1;
    }

    /** The copying loop. */
    method CopyPages(nPage: int) returns (r: Rc)
      requires Valid() && !Fatal(rc) && bDestLocked
      modifies this`dest, this`iNext, this`seen
      ensures Sizes() && (r == OK || r == READONLY || r == IOERR)
      ensures old(iNext) <= iNext && (iNext == old(iNext) || iNext <= |source| + 1)
      ensures r == OK ==> Mirror(seen, nSrcPgsz, dest, nDestPgsz, iNext) && Copying(old(seen))
      ensures Reliable() ==> r == OK
      ensures faultless && old(Mismatch()) && nPage != 0 ==> r == READONLY
      ensures nPage >= 0 ==> iNext <= old(iNext) + nPage
      ensures r == OK && iNext <= |source| ==> nPage >= 0 && iNext == old(iNext) + nPage
    {
      r := OK;
      var nSrcPage, ii := |source|, 0;
      while (nPage < 0 || ii < nPage) && iNext <= nSrcPage && r == OK
        invariant Sizes() && (r == OK || r == READONLY || r == IOERR)
        invariant old(iNext) <= iNext && (iNext == old(iNext) || iNext <= |source| + 1)
        invariant (Reliable() ==> r == OK) && ii == iNext - old(iNext) && (nPage >= 0 ==> ii <= nPage)
        invariant r == OK ==> Mirror(seen, nSrcPgsz, dest, nDestPgsz, iNext) && Copying(old(seen))
        invariant iNext == old(iNext) ==> r == OK
        invariant faultless && old(Mismatch()) && iNext > old(iNext) ==> r == READONLY
        decreases nSrcPage + 1 - iNext
      {
        r := CopyNext();
        ii := ii + 1;
      }
    }

    /** seen has grown by pages as they are in the source. */
    ghost predicate Copying(was: seq<seq<Byte>>)
      reads this`source, this`seen, this`iNext
    {
      && |was| <= |seen| == iNext - 1 && was == seen[..|was|] && (|seen| <= |source| || seen == was)
      && forall i :: |was| <= i < |seen| && i < |source| ==> seen[i] == source[i]
    }

    /** How many pages iNext and nRemaining show at the end, when was pages had been begun before. */
    predicate Excess(was: nat)
      reads this`source, this`iNext, this`nRemaining
    {
      if was <= |source| + 1 then iNext == |source| + 1 && nRemaining == 0
      else iNext == was && nRemaining == U32 - (was - |source| - 1)
    }

    lemma RemainingAfter(was: nat)
      requires Excess(was) && was <= SQLITE_MAX_PAGE_COUNT + 1
      ensures nRemaining == 0 <==> was <= |source| + 1
      ensures Remaining() == Min(0, |source| + 1 - was)
    {
    }

    /** Copying more pages makes none stale. */
    lemma StaleCopying(was: seq<seq<Byte>>)
      requires Copying(was)
      ensures Stale() == StalePages(source, was, nSrcPgsz, nDestPgsz)
    {
    }

    /** Copying and the counters. */
    method CopyOn(nPage: int) returns (r: Rc)
      requires Valid() && !Fatal(rc) && bDestLocked
      modifies this`dest, this`iNext, this`seen, this`nPagecount, this`nRemaining, this`isAttached
      ensures Sizes() && iNext <= SQLITE_MAX_PAGE_COUNT + 1
      ensures r == OK || Fatal(r)
      ensures Reliable() ==> r == DONE || (r == OK && nPage >= 0)
      ensures r == OK || r == DONE ==> Mirror(seen, nSrcPgsz, dest, nDestPgsz, iNext) && Copying(old(seen))
      ensures r == OK || r == DONE ==> Stale() == old(Stale())
      ensures r == OK ==> isAttached && iNext <= |source| && iNext == old(iNext) + nPage
      ensures r == OK ==> nRemaining == |source| + 1 - iNext
      ensures r == DONE ==> Excess(old(iNext))
      ensures r == OK || r == DONE ==> nPagecount == |source|
      ensures r == DONE ==> isAttached == old(isAttached)
      ensures faultless && old(Mismatch()) && nPage != 0 ==> r == READONLY
      ensures old(iNext) <= iNext && (nPage >= 0 ==> iNext <= old(iNext) + nPage)
    {
      r := CopyPages(nPage);
      if r == OK {
        r := Progress();
        StaleCopying(old(seen));
      }
    }

    /** How far a step has come from was, with what it reports. */
    ghost predicate Advanced(r: Rc, nPage: int, wasSeen: seq<seq<Byte>>, was: nat, wasShown: (nat, nat, bool))
      reads this`source, this`seen, this`iNext, this`nRemaining, this`nPagecount, this`isAttached
    {
      && was <= iNext && (nPage >= 0 ==> iNext <= was + nPage)
      && (r == OK || r == DONE ==> Copying(wasSeen) && nPagecount == |source|)
      && (r == OK ==>
            isAttached && iNext == was + nPage && iNext <= |source| && nRemaining == |source| + 1 - iNext)
      && (r == DONE ==> Excess(was) && isAttached == wasShown.2)
      && (r == BUSY || r == LOCKED ==> seen == wasSeen && iNext == was && Counters() == wasShown)
    }

    /** Locking and copying. */
    method Advance(nPage: int, inWriteTransaction: bool) returns (r: Rc)
      requires Valid() && !Fatal(rc)
      modifies this`dest, this`iNext, this`seen, this`bDestLocked, this`iDestSchema, this`dbFileVers
      modifies this`nPagecount, this`nRemaining, this`isAttached, this`rc
      ensures Valid() && rc == r
      ensures Reliable() && !inWriteTransaction ==> r == DONE || (r == OK && nPage >= 0)
      ensures Advanced(r, nPage, old(seen), old(iNext), old(Counters()))
      ensures r == OK || r == DONE ==> Stale() == old(Stale())
      ensures inWriteTransaction ==> r == BUSY && bDestLocked == old(bDestLocked)
      ensures r == BUSY || r == LOCKED ==> dest == old(dest)
      ensures faultless && !inWriteTransaction && old(Mismatch()) && nPage != 0 ==> r == READONLY
      ensures Locking(old(bDestLocked), old(iDestSchema), old(dbFileVers), old(dest))
      ensures r == DONE ==> Mirror(seen, nSrcPgsz, dest, nDestPgsz, iNext) && bDestLocked
    {
      r := TakeLocks(inWriteTransaction);
      if r == OK {
        r := CopyOn(nPage);
      }
      rc := r;
    }

    /** sqlite3_backup_step.  Every call keeps the invariant; a call that reports SQLITE_DONE leaves a
        file with the pages as they were copied and the new header fields.  The number of pages left is
        then 0 unless the source had shrunk below the pages copied before the call, when the unsigned
        difference wraps around. */
    method Step(nPage: int, inWriteTransaction: bool) returns (r: Rc)
      requires Valid()
      modifies this
      ensures Valid() && source == old(source) && r == rc
      ensures Fatal(old(rc)) ==> unchanged(this)
      ensures !Fatal(old(rc)) && inWriteTransaction ==> r == BUSY && bDestLocked == old(bDestLocked)
      ensures r == BUSY || r == LOCKED ==> dest == old(dest) && file == old(file)
      ensures r == BUSY || r == LOCKED ==> seen == old(seen) && iNext == old(iNext) && Counters() == old(Counters())
      ensures Reliable() && !inWriteTransaction && !Fatal(old(rc)) ==>
        r == if nPage < 0 || old(iNext) + nPage > |source| then DONE else OK
      ensures faultless && !inWriteTransaction && !Fatal(old(rc)) && old(Mismatch()) && nPage != 0 ==> r == READONLY
      ensures r == OK ==> isAttached && iNext <= |source| && nRemaining == |source| + 1 - iNext > 0
      ensures r == OK ==> iNext == old(iNext) + nPage
      ensures !Fatal(old(rc)) && (r == OK || r == DONE) ==> Copying(old(seen)) && Stale() == old(Stale())
      ensures !Fatal(old(rc)) && (r == OK || r == DONE) ==> nPagecount == |source|
      ensures r == OK ==> file == old(file)
      ensures r == DONE ==> isAttached == old(isAttached)
      ensures Locking(old(bDestLocked), old(iDestSchema), old(dbFileVers), old(dest))
      ensures r == DONE && !Fatal(old(rc)) ==> iNext > |source| && bDestLocked && Finished()
      ensures r == DONE && !Fatal(old(rc)) ==> (nRemaining == 0 <==> old(iNext) <= |source| + 1)
      ensures r == DONE && !Fatal(old(rc)) ==> Remaining() == Min(0, |source| + 1 - old(iNext))
      ensures old(iNext) <= iNext && (Fatal(old(rc)) || nPage < 0 || iNext <= old(iNext) + nPage)
    {
      r := rc;
      if !Fatal(r) {
        r := StepOn(nPage, inWriteTransaction);
        if r == DONE {
          RemainingAfter(old(iNext));
        }
      }
    }

    method StepOn(nPage: int, inWriteTransaction: bool) returns (r: Rc)
      requires Valid() && !Fatal(rc)
      modifies this
      ensures Valid() && source == old(source) && r == rc
      ensures Reliable() && !inWriteTransaction ==> r == DONE || (r == OK && nPage >= 0)
      ensures Advanced(r, nPage, old(seen), old(iNext), old(Counters()))
      ensures r == OK || r == DONE ==> Stale() == old(Stale())
      ensures inWriteTransaction ==> r == BUSY && bDestLocked == old(bDestLocked)
      ensures r == BUSY || r == LOCKED ==> dest == old(dest)
      ensures r == BUSY || r == LOCKED || r == OK ==> file == old(file)
      ensures faultless && !inWriteTransaction && old(Mismatch()) && nPage != 0 ==> r == READONLY
      ensures Locking(old(bDestLocked), old(iDestSchema), old(dbFileVers), old(dest))
      ensures r == DONE ==> bDestLocked && Finished()
    {
      r := Advance(nPage, inWriteTransaction);
      if r == DONE {
        r := Finish();
      }
    }

    /** What the two counting functions report, and whether the source's pager knows the backup. */
    function Counters(): (nat, nat, bool)
      reads this`nRemaining, this`nPagecount, this`isAttached
    {
      (nRemaining, nPagecount, isAttached)
    }

    /** The destination's own header fields are read when it is locked. */
    ghost predicate Locking(wasLocked: bool, schema: nat, vers: nat, was: Pages)
      reads this`bDestLocked, this`iDestSchema, this`dbFileVers
    {
      PageSize(nDestPgsz) && Sized(was, nDestPgsz) &&
      if wasLocked || !bDestLocked then iDestSchema == schema && dbFileVers == vers
      else iDestSchema == Field(was, nDestPgsz, 40) && dbFileVers == Field(was, nDestPgsz, 24)
    }

    /** sqlite3BtreeCopyFile: a single step that allows for more pages than a database can have never
        leaves anything to copy. */
    method CopyFile() returns (r: Rc)
      requires Valid() && iNext == 1 && rc == OK
      modifies this
      ensures Valid() && source == old(source)
      ensures r != OK && (Reliable() ==> r == DONE)
      ensures r == DONE ==> Current()
    {
      r := Step(0x7FFF_FFFF, false);
      assert r != OK;
      if r == DONE {
        FinalIffFresh();
      }
    }

    method TakeLocks(inWriteTransaction: bool) returns (r: Rc)
      requires Valid()
      modifies this`bDestLocked, this`iDestSchema, this`dbFileVers
      ensures Valid() && r != DONE && (r == OK ==> bDestLocked) && (old(bDestLocked) ==> bDestLocked)
      ensures Locking(old(bDestLocked), old(iDestSchema), old(dbFileVers), dest)
      ensures inWriteTransaction ==> r == BUSY && bDestLocked == old(bDestLocked)
      ensures faultless && !inWriteTransaction ==> r == OK
    {
      r := if inWriteTransaction then BUSY else OK;
      if r == OK && !bDestLocked {
        r := Lock();
        if r == OK {
          bDestLocked := true;
          iDestSchema, dbFileVers := Field(dest, nDestPgsz, 40), Field(dest, nDestPgsz, 24);
        }
      }
      if r == OK {
        r := Lock();
      }
    }

    /** The counters for sqlite3_backup_remaining and sqlite3_backup_pagecount, and the registration
        with the source's pager. */
    method Progress() returns (r: Rc)
      requires iNext <= SQLITE_MAX_PAGE_COUNT + 1 && |source| <= SQLITE_MAX_PAGE_COUNT
      modifies this`nPagecount, this`nRemaining, this`isAttached
      ensures r == if iNext > |source| then DONE else OK
      ensures r == OK ==> isAttached && nRemaining == |source| + 1 - iNext
      ensures iNext > |source| + 1 ==> nRemaining == U32 - (iNext - |source| - 1)
      ensures r == DONE ==> isAttached == old(isAttached)
      ensures nPagecount == |source| && (nRemaining == 0 <==> iNext == |source| + 1)
    {
      nPagecount := |source|;
      nRemaining := (|source| + 1 - iNext) % U32;
      r := OK;
      if iNext > |source| {
        r := DONE;
      } else if !isAttached {
        isAttached := true;
      }
    }
  }

  /** Two of three pages have been copied when the source shrinks to one page: the backup ends with -1
      pages left to copy, without any failure. */
  method ShrunkSource(page: seq<Byte>) returns (r: Rc, remaining: int)
    requires |page| == 512
    ensures r == DONE && remaining == -1
  {
    var p := new Backup(512, 512, false, false, true, [page, page, page], map[]);
    r := p.Step(2, false);
    p.SourceTruncate(1);
    r := p.Step(-1, false);
    remaining := p.Remaining();
  }

  lemma EmptyField(dest: Pages, from: nat)
    requires dest == map[] && from + 4 <= 512
    ensures Field(dest, 512, from) == 0
  {
  }

  /** A backup in one step, into a destination file with these header fields. */
  method CopyInto(pgsz: nat, source: seq<seq<Byte>>, dest: Pages) returns (r: Rc, file: File)
    requires PageSize(pgsz) && |source| <= SQLITE_MAX_PAGE_COUNT && Whole(source, pgsz) && Sized(dest, pgsz)
    ensures r == DONE
    ensures var schema, counter := Bumped(Field(dest, pgsz, 40)), Bumped(Field(dest, pgsz, 24));
            FileMirrors(Headed(source, pgsz, schema, Some(counter)), pgsz, file)
  {
    var p := new Backup(pgsz, pgsz, false, false, true, source, dest);
    r := p.Step(-1, false);
    assert p.Stale() == {};
    p.FinalIffFresh();
    file := p.file;
    assert p.iDestSchema == Field(dest, pgsz, 40) && p.dbFileVers == Field(dest, pgsz, 24);
  }

  /** The backup of a page of zeros into an empty database has a schema version and a change counter
      of its own. */
  method OwnHeader() returns (r: Rc, source: seq<seq<Byte>>, file: File)
    ensures r == DONE && source == [seq(512, _ => 0)] && 27 in file && 43 in file
    ensures file[27] == 1 != source[0][27] && file[43] == 1 != source[0][43]
  {
    source := [seq(512, _ => 0)];
    var dest: Pages := map[];
    EmptyField(dest, 40);
    EmptyField(dest, 24);
    r, file := CopyInto(512, source, dest);
    ghost var t := Headed(source, 512, 1, Some(1));
    HeadedFields(source, 512, 1, Some(1));
    FirstPage(t, 512, file);
    FieldInFile(file, t[0], 24);
    FieldInFile(file, t[0], 40);
    assert [file[24], file[25], file[26], file[27]] == Four(1) == [file[40], file[41], file[42], file[43]];
  }

  /** Page 2 has come back as another one. */
  lemma SecondStale(a: seq<Byte>, b: seq<Byte>, c: seq<Byte>)
    requires |a| == |b| == |c| == 512 && b != c
    ensures StalePages([a, c, a], [a, b], 512, 512) == {2}
    ensures Shown([a, c, a], [a, b, a], 512, 512) == [a, b, a]
  {
    var s := StalePages([a, c, a], [a, b], 512, 512);
    assert 2 in s && 1 !in s && 0 !in s;
  }

  /** Two of three pages have been copied when the source shrinks to one page and then a new third
      page is written, so that another second page comes back unwritten. */
  method ComeBack(a: seq<Byte>, b: seq<Byte>, c: seq<Byte>) returns (p: Backup)
    requires |a| == |b| == |c| == 512
    ensures fresh(p) && p.Valid() && p.Reliable() && p.rc == OK && p.nSrcPgsz == p.nDestPgsz == 512
    ensures p.source == [a, c, a] && p.seen == [a, b] && p.iNext == 3
  {
    p := new Backup(512, 512, false, false, true, [a, b, a], map[]);
    var r := p.Step(2, false);
    assert p.seen == [a, b];
    p.SourceTruncate(1);
    p.SourceWrite(3, a, [c]);
  }

  /** The backup then ends without any failure, with the old second page. */
  method StaleCopy(a: seq<Byte>, b: seq<Byte>, c: seq<Byte>)
    returns (r: Rc, source: seq<seq<Byte>>, file: File, ghost schema: nat, ghost counter: Option<nat>)
    requires |a| == |b| == |c| == 512 && b != c
    ensures r == DONE && source == [a, c, a]
    ensures FileMirrors(Headed([a, b, a], 512, schema, counter), 512, file)
    ensures !FileMirrors(Headed(source, 512, schema, counter), 512, file)
  {
    var p := ComeBack(a, b, c);
    SecondStale(a, b, c);
    r := p.Step(-1, false);
    assert p.seen == [a, b, a];
    p.FinalIffFresh();
    source, file, schema, counter := p.source, p.file, p.NewSchema(), p.NewCounter();
  }
}
