/**
 * The write-behind buffer of paged flash (jffs2/wbuf.c).
 *
 * Flash can only be programmed a whole page at a time, and programming can only clear bits.
 * JFFS2 writes nodes of any length, so the bytes of the last, unfinished page are kept in a
 * buffer.  The results say that the buffer cannot be seen from outside: after any run of writes,
 * flushes and erases a read returns the bytes last written, wherever they are; and that within a
 * block pages are programmed in ascending order, each at most once between two erases.
 */
module WriteBuffer {
  type Byte = bv8

  const ERASED: Byte := 0xff
  const UNSET: nat := 0xffff_ffff
  /** sizeof(struct jffs2_unknown_node) */
  const HEADER: nat := 12

  datatype Pad = NoPad | PadNoAccount | PadAccounting

  datatype Geometry = Geometry(page: nat, sector: nat) {
    ghost predicate Ok() {
      0 < page && page % 4 == 0 && 0 < sector && sector % page == 0
    }
  }

  /** PAD, PAGE_DIV, PAGE_MOD, and the number of the block of SECTOR_ADDR. */
  function Padded(x: nat): nat {
    (x + 3) / 4 * 4
  }

  function PageDiv(g: Geometry, x: nat): nat
    requires g.page > 0
  {
    x / g.page * g.page
  }

  function PageMod(g: Geometry, x: nat): nat
    requires g.page > 0
  {
    x % g.page
  }

  function Block(g: Geometry, x: nat): nat
    requires g.sector > 0
  {
    x / g.sector
  }

  function BlockStart(g: Geometry, b: nat): nat {
    b * g.sector
  }

  function BlockEnd(g: Geometry, b: nat): nat {
    (b + 1) * g.sector
  }

  // ---------------------------------------------------------------------------------------
  // The state of the buffer, with what is needed to say what it must be

  /**
   * `flash`, `buf`, `ofs` and `len` are the device and the buffer.  The rest is history: the block
   * being written, the pages programmed in each block since its erase, oldest first, and the byte
   * last written to each address.
   */
  datatype State = State(
    flash: seq<Byte>,
    buf: seq<Byte>,
    ofs: nat,
    len: nat,
    cur: nat,
    log: map<nat, seq<nat>>,
    written: map<nat, Byte>)

  /** What a reader is to see at an address. */
  ghost function Shown(s: State, a: nat): Byte
    requires a < |s.flash|
  {
    if s.ofs <= a < s.ofs + s.len && a - s.ofs < |s.buf| then s.buf[a - s.ofs] else s.flash[a]
  }

  ghost predicate Ascending(pages: seq<nat>) {
    forall i, j :: 0 <= i < j < |pages| ==> pages[i] < pages[j]
  }

  /** The pages programmed in a block, in the order they were. */
  ghost function Pages(s: State, b: nat): seq<nat> {
    if b in s.log then s.log[b] else []
  }

  /** Whole pages of one block were programmed, ascending, hence each once. */
  ghost predicate LogOk(g: Geometry, s: State)
    requires g.Ok()
  {
    forall b :: b in s.log ==>
        Ascending(s.log[b]) && forall p :: p in s.log[b] ==> PageMod(g, p) == 0 && Block(g, p) == b
  }

  /** Flash is erased from lo up to hi. */
  ghost predicate Clear(flash: seq<Byte>, lo: nat, hi: nat) {
    hi <= |flash| && forall a :: lo <= a < hi ==> flash[a] == ERASED
  }

  ghost predicate Below(pages: seq<nat>, ofs: nat) {
    forall p :: p in pages ==> p < ofs
  }

  /** The buffer stands at a page of the open block and within it. */
  ghost predicate PlaceOk(g: Geometry, ofs: nat, len: nat, cur: nat)
    requires g.Ok()
  {
    PageMod(g, ofs) == 0 && BlockStart(g, cur) <= ofs <= BlockEnd(g, cur) &&
    (ofs == BlockEnd(g, cur) ==> len == 0) && (ofs < BlockEnd(g, cur) ==> ofs + g.page <= BlockEnd(g, cur))
  }

  /** A byte the buffer has not erased is going to erased flash. */
  ghost predicate Programs(flash: seq<Byte>, buf: seq<Byte>, ofs: nat, len: nat) {
    len <= |buf| && ofs + len <= |flash| && forall i :: 0 <= i < len ==> buf[i] == ERASED || flash[ofs + i] == ERASED
  }

  /**
   * The buffer stands for the first page of the open block that was not programmed; the rest of the
   * block is erased.
   */
  ghost predicate BufOk(g: Geometry, s: State)
    requires g.Ok()
  {
    |s.buf| == g.page && s.len <= g.page && |s.flash| < UNSET && Clear(s.buf, s.len, g.page) &&
    if s.ofs == UNSET then s.len == 0
    else
      PlaceOk(g, s.ofs, s.len, s.cur) && Below(Pages(s, s.cur), s.ofs) &&
      Programs(s.flash, s.buf, s.ofs, s.len) && Clear(s.flash, s.ofs + s.len, BlockEnd(g, s.cur))
  }

  /**
   * A byte written is where a reader will look for it: in the buffer over erased flash, or in a
   * page that was programmed.
   */
  ghost predicate ByteOk(g: Geometry, s: State, a: nat)
    requires g.Ok()
  {
    a in s.written ==>
      a < |s.flash| && Shown(s, a) == s.written[a] &&
      (|| (s.ofs <= a < s.ofs + s.len && s.flash[a] == ERASED)
       || (PageDiv(g, a) in Pages(s, Block(g, a)) && !(s.ofs <= a < s.ofs + s.len)))
  }

  ghost predicate WrittenOk(g: Geometry, s: State)
    requires g.Ok()
  {
    forall a :: a in s.written ==> ByteOk(g, s, a)
  }

  /** What the buffer covers without having been given it is erased there. */
  ghost predicate GapsOk(s: State) {
    s.len <= |s.buf| && forall i :: 0 <= i < s.len && s.ofs + i !in s.written ==> s.buf[i] == ERASED
  }

  ghost predicate Ok(g: Geometry, s: State) {
    g.Ok() && LogOk(g, s) && BufOk(g, s) && WrittenOk(g, s) && GapsOk(s)
  }

  // ---------------------------------------------------------------------------------------
  // Steps on states

  /** Programming clears bits; it never sets one. */
  function Programmed(flash: seq<Byte>, at: nat, data: seq<Byte>): (r: seq<Byte>)
    requires at + |data| <= |flash|
    ensures |r| == |flash|
    ensures forall a :: 0 <= a < |flash| ==> r[a] == if at <= a < at + |data| then flash[a] & data[a - at] else flash[a]
  {
    seq(|flash|, (a: nat)
      requires 0 <= a < |flash| => if at <= a < at + |data| then flash[a] & data[a - at] else flash[a])
  }

  ghost function Overlay(written: map<nat, Byte>, at: nat, data: seq<Byte>): (r: map<nat, Byte>)
    ensures forall a :: a in r <==> a in written || at <= a < at + |data|
    ensures forall a :: a in r ==> r[a] == if at <= a < at + |data| then data[a - at] else written[a]
  {
    if data == [] then written
    else Overlay(written, at, data[..|data| - 1])[at + |data| - 1 := data[|data| - 1]]
  }

  ghost function Blank(n: nat): (r: seq<Byte>)
    ensures |r| == n && forall i :: 0 <= i < n ==> r[i] == ERASED
  {
    seq(n, i => ERASED)
  }

  /** The page of the buffer is programmed and the buffer moves to the next one. */
  ghost function Flushed(g: Geometry, s: State): State
    requires g.Ok() && |s.buf| == g.page && s.ofs + g.page <= |s.flash|
  {
    State(Programmed(s.flash, s.ofs, s.buf), Blank(g.page), s.ofs + g.page, 0, s.cur,
          s.log[s.cur := Pages(s, s.cur) + [s.ofs]], s.written)
  }

  // ---------------------------------------------------------------------------------------
  // Pages and blocks

  lemma Times(a: nat, b: nat, c: nat)
    ensures (a + b) * c == a * c + b * c
    ensures a <= b ==> a * c <= b * c
  {
  }

  lemma Quotient(x: nat, d: nat, q: nat)
    requires d > 0 && q * d <= x < (q + 1) * d
    ensures x / d == q
  {
    var k := x / d;
    if k < q {
      Times(k + 1, q, d);
      assert false;
    }
    if q < k {
      Times(q + 1, k, d);
      assert false;
    }
  }

  lemma BlockIs(g: Geometry, a: nat, b: nat)
    requires g.Ok() && BlockStart(g, b) <= a < BlockEnd(g, b)
    ensures Block(g, a) == b
  {
    Quotient(a, g.sector, b);
  }

  lemma InBlock(g: Geometry, a: nat)
    requires g.Ok()
    ensures BlockStart(g, Block(g, a)) <= a < BlockEnd(g, Block(g, a))
  {
    Times(a / g.sector, 1, g.sector);
  }

  lemma PageIs(g: Geometry, p: nat, a: nat)
    requires g.Ok() && PageMod(g, p) == 0 && p <= a < p + g.page
    ensures PageDiv(g, a) == p && PageMod(g, a) == a - p
  {
    var q := p / g.page;
    Times(q, 1, g.page);
    Quotient(a, g.page, q);
  }

  /** A page that starts in a block ends in it. */
  lemma PageInBlock(g: Geometry, p: nat, b: nat)
    requires g.Ok() && PageMod(g, p) == 0 && p < BlockEnd(g, b)
    ensures p + g.page <= BlockEnd(g, b)
  {
    var q, n := p / g.page, g.sector / g.page;
    var m := (b + 1) * n;
    assert m * g.page == BlockEnd(g, b) by {
      Associate(b + 1, n, g.page);
    }
    if m <= q {
      Times(m, q, g.page);
      assert false;
    }
    Times(q + 1, m, g.page);
    Times(q, 1, g.page);
  }

  lemma Associate(a: nat, b: nat, c: nat)
    ensures (a * b) * c == a * (b * c)
  {
  }

  // ---------------------------------------------------------------------------------------
  // Every step keeps the state right

  lemma FlushKeeps(g: Geometry, s: State, t: State)
    requires Ok(g, s) && s.ofs != UNSET && s.ofs < BlockEnd(g, s.cur)
    requires |t.buf| == g.page && t.buf[..s.len] == s.buf[..s.len] && t == s.(buf := t.buf)
    ensures Ok(g, Flushed(g, t))
  {
    hide PageDiv, PageMod, Block, BlockStart, BlockEnd;
    var r := Flushed(g, t);
    BlockIs(g, s.ofs, s.cur);
    LogGrows(g, s, s.cur, [s.ofs], r);
    forall a | a in r.written ensures ByteOk(g, r, a) {
      assert ByteOk(g, s, a);
      FlushByte(g, s, t, a);
    }
    FlushBuf(g, s, t);
  }

  /** Pages programmed after all others of their block keep its log ascending. */
  lemma LogGrows(g: Geometry, s: State, b: nat, more: seq<nat>, r: State)
    requires g.Ok() && LogOk(g, s) && r.log == s.log[b := Pages(s, b) + more] && Ascending(more)
    requires forall p, q :: p in Pages(s, b) && q in more ==> p < q
    requires forall p :: p in more ==> PageMod(g, p) == 0 && Block(g, p) == b
    ensures LogOk(g, r)
  {
    hide PageMod, Block;
    var all := Pages(s, b) + more;
    forall i, j | 0 <= i < j < |all| ensures all[i] < all[j] {
      if i < |Pages(s, b)| <= j {
        assert all[i] in Pages(s, b) && all[j] in more;
      }
    }
  }

  lemma FlushByte(g: Geometry, s: State, t: State, a: nat)
    requires g.Ok() && BufOk(g, s) && ByteOk(g, s, a) && a in s.written && s.ofs != UNSET && s.ofs < BlockEnd(g, s.cur)
    requires |t.buf| == g.page && t.buf[..s.len] == s.buf[..s.len] && t == s.(buf := t.buf)
    ensures ByteOk(g, Flushed(g, t), a)
  {
    hide PageDiv, PageMod, Block, BlockStart, BlockEnd;
    var r := Flushed(g, t);
    if s.ofs <= a < s.ofs + g.page {
      PageIs(g, s.ofs, a);
      BlockIs(g, a, s.cur);
      assert s.buf[a - s.ofs] == s.buf[..s.len][a - s.ofs] == t.buf[a - s.ofs];
      assert PageDiv(g, a) in Pages(r, s.cur);
    }
  }

  lemma FlushBuf(g: Geometry, s: State, t: State)
    requires g.Ok() && BufOk(g, s) && s.ofs != UNSET && s.ofs < BlockEnd(g, s.cur)
    requires |t.buf| == g.page && t == s.(buf := t.buf)
    ensures BufOk(g, Flushed(g, t))
  {
    hide PageMod, Block, BlockStart, BlockEnd;
    NextPage(g, s.ofs, s.cur);
    var r := Flushed(g, t);
    assert Pages(r, r.cur) == Pages(s, s.cur) + [s.ofs];
    assert Clear(r.flash, r.ofs, BlockEnd(g, r.cur));
  }

  lemma NextPage(g: Geometry, p: nat, b: nat)
    requires g.Ok() && PageMod(g, p) == 0
    ensures PageMod(g, p + g.page) == 0
    ensures p + g.page < BlockEnd(g, b) ==> p + g.page + g.page <= BlockEnd(g, b)
  {
    var q := p / g.page;
    Times(q, 1, g.page);
    Times(q + 1, 1, g.page);
    Quotient(p + g.page, g.page, q + 1);
    if p + g.page < BlockEnd(g, b) {
      PageInBlock(g, p + g.page, b);
    }
  }

  /** Bytes go into the buffer after those it has. */
  ghost function Filled(g: Geometry, s: State, data: seq<Byte>): State
    requires |s.buf| == g.page && s.len + |data| <= g.page
  {
    s.(buf := s.buf[..s.len] + data + s.buf[s.len + |data|..], len := s.len + |data|,
       written := Overlay(s.written, s.ofs + s.len, data))
  }

  lemma FillBuf(g: Geometry, s: State, data: seq<Byte>)
    requires g.Ok() && BufOk(g, s) && s.ofs != UNSET && s.ofs < BlockEnd(g, s.cur) && s.len + |data| <= g.page
    ensures BufOk(g, Filled(g, s, data))
  {
    hide PageDiv, PageMod, Block, BlockStart, BlockEnd, Overlay;
    var r := Filled(g, s, data);
    forall i | 0 <= i < r.len ensures r.buf[i] == ERASED || r.flash[r.ofs + i] == ERASED {
      if i < s.len {
        assert r.buf[i] == s.buf[i];
      }
    }
    forall i | r.len <= i < g.page ensures r.buf[i] == ERASED {
      assert r.buf[i] == s.buf[i];
    }
    assert Pages(r, r.cur) == Pages(s, s.cur);
  }

  lemma FillKeeps(g: Geometry, s: State, data: seq<Byte>)
    requires Ok(g, s) && s.ofs != UNSET && s.ofs < BlockEnd(g, s.cur) && s.len + |data| <= g.page
    ensures Ok(g, Filled(g, s, data))
  {
    hide PageDiv, PageMod, Block, BlockStart, BlockEnd, Overlay, ByteOk;
    var r := Filled(g, s, data);
    FillBuf(g, s, data);
    forall a | a in r.written ensures ByteOk(g, r, a) {
      if a in s.written {
        assert ByteOk(g, s, a);
      }
      FillByte(g, s, data, a);
    }
  }

  lemma FillByte(g: Geometry, s: State, data: seq<Byte>, a: nat)
    requires g.Ok() && BufOk(g, s) && s.ofs != UNSET && s.ofs < BlockEnd(g, s.cur) && s.len + |data| <= g.page
    requires a in s.written ==> ByteOk(g, s, a)
    ensures ByteOk(g, Filled(g, s, data), a)
  {
    hide PageDiv, PageMod, Block, BlockStart, BlockEnd, Overlay, Pages;
    var r := Filled(g, s, data);
    FilledAt(g, s, data, a);
    PagesSame(s, r);
  }

  lemma FilledAt(g: Geometry, s: State, data: seq<Byte>, a: nat)
    requires |s.buf| == g.page && s.len + |data| <= g.page
    ensures var r := Filled(g, s, data);
            r.ofs <= a < r.ofs + r.len ==>
            r.buf[a - r.ofs] == if a < s.ofs + s.len then s.buf[a - s.ofs] else data[a - s.ofs - s.len]
  {
    hide Overlay;
  }

  lemma PagesSame(s: State, r: State)
    requires r.log == s.log
    ensures forall b :: Pages(r, b) == Pages(s, b)
  {
  }

  /** The gap to the next multiple of four, or to the end of the page, is left erased in the buffer. */
  ghost function Skipped(s: State, len: nat): State {
    s.(len := len)
  }

  lemma SkipBuf(g: Geometry, s: State, len: nat)
    requires g.Ok() && BufOk(g, s) && s.ofs != UNSET && s.ofs < BlockEnd(g, s.cur) && s.len <= len <= g.page
    ensures BufOk(g, Skipped(s, len))
  {
    hide PageDiv, PageMod, Block, BlockStart, BlockEnd;
    assert Pages(Skipped(s, len), s.cur) == Pages(s, s.cur);
  }

  lemma SkipGaps(g: Geometry, s: State, len: nat)
    requires g.Ok() && BufOk(g, s) && GapsOk(s) && s.len <= len <= g.page
    ensures GapsOk(Skipped(s, len))
  {
    hide PageDiv, PageMod, Block, BlockStart, BlockEnd;
  }

  lemma SkipKeeps(g: Geometry, s: State, len: nat)
    requires Ok(g, s) && s.ofs != UNSET && s.ofs < BlockEnd(g, s.cur) && s.len <= len <= g.page
    ensures Ok(g, Skipped(s, len))
  {
    hide PageDiv, PageMod, Block, BlockStart, BlockEnd, GapsOk;
    var r := Skipped(s, len);
    SkipBuf(g, s, len);
    SkipGaps(g, s, len);
    forall a | a in r.written ensures ByteOk(g, r, a) {
      assert ByteOk(g, s, a);
      if s.ofs + s.len <= a < s.ofs + len {
        PageIs(g, s.ofs, a);
        BlockIs(g, a, s.cur);
        assert false;
      }
    }
  }

  /** The block of `to` can be written from there on: it is erased, and no later page was programmed. */
  ghost predicate Fresh(g: Geometry, s: State, to: nat)
    requires g.Ok()
  {
    BlockEnd(g, Block(g, to)) <= |s.flash| &&
    (forall a :: to <= a < BlockEnd(g, Block(g, to)) ==> s.flash[a] == ERASED) &&
    (forall p :: p in Pages(s, Block(g, to)) ==> p < PageDiv(g, to))
  }

  /** The empty buffer moves to another block. */
  ghost function Moved(g: Geometry, s: State, to: nat): State
    requires g.Ok()
  {
    s.(ofs := PageDiv(g, to), len := PageMod(g, to), cur := Block(g, to))
  }

  lemma MoveBuf(g: Geometry, s: State, to: nat)
    requires g.Ok() && BufOk(g, s) && s.len == 0 && Fresh(g, s, to)
    ensures BufOk(g, Moved(g, s, to)) && PageDiv(g, to) < BlockEnd(g, Block(g, to)) &&
            PageDiv(g, to) + PageMod(g, to) == to
  {
    hide PageDiv, PageMod, Block, BlockStart, BlockEnd;
    var r := Moved(g, s, to);
    PageStart(g, to);
    InBlock(g, to);
    PageInBlock(g, r.ofs, r.cur);
    assert Pages(r, r.cur) == Pages(s, r.cur);
  }

  lemma MoveKeeps(g: Geometry, s: State, to: nat)
    requires Ok(g, s) && s.len == 0 && Fresh(g, s, to)
    ensures Ok(g, Moved(g, s, to)) && PageDiv(g, to) < BlockEnd(g, Block(g, to)) &&
            PageDiv(g, to) + PageMod(g, to) == to
  {
    hide PageDiv, PageMod, Block, BlockStart, BlockEnd;
    var r := Moved(g, s, to);
    MoveBuf(g, s, to);
    forall a | a in r.written ensures ByteOk(g, r, a) {
      assert ByteOk(g, s, a);
      if r.ofs <= a < to {
        PageIs(g, r.ofs, a);
        BlockIs(g, a, r.cur);
        assert false;
      }
    }
  }

  lemma MultipleMod(q: nat, d: nat)
    requires d > 0
    ensures (q * d) % d == 0 && (q * d) / d == q
  {
    Times(q, 1, d);
    Quotient(q * d, d, q);
  }

  lemma PageStart(g: Geometry, to: nat)
    requires g.Ok()
    ensures PageMod(g, PageDiv(g, to)) == 0 && PageDiv(g, to) + PageMod(g, to) == to && PageMod(g, to) < g.page
    ensures BlockStart(g, Block(g, to)) <= PageDiv(g, to)
  {
    PageFloor(g, to);
    BlockFirst(g, to);
  }

  lemma FloorParts(x: nat, d: nat)
    requires d > 0
    ensures x / d * d + x % d == x && x % d < d && (x / d * d) % d == 0
  {
    MultipleMod(x / d, d);
  }

  lemma PageFloor(g: Geometry, to: nat)
    requires g.page > 0
    ensures PageMod(g, PageDiv(g, to)) == 0 && PageDiv(g, to) + PageMod(g, to) == to && PageMod(g, to) < g.page
  {
    FloorParts(to, g.page);
  }

  lemma BlockFirst(g: Geometry, to: nat)
    requires g.Ok()
    ensures BlockStart(g, Block(g, to)) <= PageDiv(g, to)
  {
    hide BlockStart, Block;
    InBlock(g, to);
    BlockPages(g, Block(g, to));
    FloorAbove(to, g.page, Block(g, to) * (g.sector / g.page));
  }

  /** A block starts at a page. */
  lemma BlockPages(g: Geometry, b: nat)
    requires g.Ok()
    ensures BlockStart(g, b) == b * (g.sector / g.page) * g.page
  {
    var n := g.sector / g.page;
    assert g.sector == n * g.page;
    Associate(b, n, g.page);
  }

  lemma FloorAbove(x: nat, d: nat, m: nat)
    requires d > 0 && m * d <= x
    ensures m * d <= x / d * d
  {
    var q := x / d;
    if q < m {
      Times(q + 1, m, d);
      assert false;
    }
    Times(m, q, d);
  }

  /** n whole pages go through the empty buffer one after the other. */
  ghost function ByPages(g: Geometry, s: State, data: seq<Byte>, n: nat): State
    requires g.Ok() && |s.buf| == g.page && s.len == 0 && |data| == n * g.page && s.ofs + |data| <= |s.flash|
    decreases n
  {
    if n == 0 then s
    else
      Times(n - 1, 1, g.page);
      ByPages(g, Flushed(g, Filled(g, s, data[..g.page])), data[g.page..], n - 1)
  }

  lemma PagesKeep(g: Geometry, s: State, data: seq<Byte>, n: nat)
    requires Ok(g, s) && s.ofs != UNSET && s.len == 0 && |data| == n * g.page && s.ofs + |data| <= BlockEnd(g, s.cur)
    ensures Ok(g, ByPages(g, s, data, n))
    decreases n
  {
    hide PageDiv, PageMod, Block, BlockStart, BlockEnd;
    if n > 0 {
      Times(n - 1, 1, g.page);
      var t := Filled(g, s, data[..g.page]);
      FillKeeps(g, s, data[..g.page]);
      FlushKeeps(g, t, t);
      PagesKeep(g, Flushed(g, t), data[g.page..], n - 1);
    }
  }

  lemma OverlayJoin(written: map<nat, Byte>, at: nat, a: seq<Byte>, b: seq<Byte>)
    ensures Overlay(Overlay(written, at, a), at + |a|, b) == Overlay(written, at, a + b)
  {
    hide Overlay;
    var one, two := Overlay(Overlay(written, at, a), at + |a|, b), Overlay(written, at, a + b);
    assert one.Keys == two.Keys;
    assert forall x :: x in one ==> one[x] == two[x];
  }

  /** The map after bytes `data` were written at `at`. */
  ghost predicate Wrote(was: map<nat, Byte>, now: map<nat, Byte>, at: nat, data: seq<Byte>) {
    now == Overlay(was, at, data)
  }

  lemma WroteMore(was: map<nat, Byte>, mid: map<nat, Byte>, now: map<nat, Byte>, at: nat, a: seq<Byte>, b: seq<Byte>)
    requires Wrote(was, mid, at, a) && Wrote(mid, now, at + |a|, b)
    ensures Wrote(was, now, at, a + b)
  {
    OverlayJoin(was, at, a, b);
  }

  lemma ProgramJoin(flash: seq<Byte>, at: nat, a: seq<Byte>, b: seq<Byte>)
    requires at + |a| + |b| <= |flash|
    ensures Programmed(Programmed(flash, at, a), at + |a|, b) == Programmed(flash, at, a + b)
  {
    hide Programmed;
    var one, two := Programmed(flash, at, a + b), Programmed(Programmed(flash, at, a), at + |a|, b);
    forall i | 0 <= i < |flash| ensures one[i] == two[i] {
      if at <= i < at + |a| {
        assert (a + b)[i - at] == a[i - at];
      } else if at + |a| <= i < at + |a| + |b| {
        assert (a + b)[i - at] == b[i - at - |a|];
      }
    }
  }

  /** All of the state but its log: `data` was programmed and written where the empty buffer stood. */
  ghost predicate Put(s: State, r: State, data: seq<Byte>) {
    s.ofs + |data| <= |s.flash| && r.flash == Programmed(s.flash, s.ofs, data) &&
    Wrote(s.written, r.written, s.ofs, data) &&
    r.buf == s.buf && r.ofs == s.ofs + |data| && r.len == s.len == 0 && r.cur == s.cur
  }

  lemma PutNone(s: State)
    requires s.ofs <= |s.flash| && s.len == 0
    ensures Put(s, s, [])
  {
  }

  lemma PutMore(s: State, t: State, r: State, a: seq<Byte>, b: seq<Byte>)
    requires Put(s, t, a) && Put(t, r, b)
    ensures Put(s, r, a + b)
  {
    hide Programmed, Wrote;
    ProgramJoin(s.flash, s.ofs, a, b);
    WroteMore(s.written, t.written, r.written, s.ofs, a, b);
  }

  /** A whole page through the empty buffer. */
  lemma OnePage(g: Geometry, s: State, data: seq<Byte>)
    requires g.Ok() && s.buf == Blank(g.page) && g.page == |data| && s.len == 0 && s.ofs + g.page <= |s.flash|
    ensures Put(s, Flushed(g, Filled(g, s, data)), data)
  {
    FilledPage(g, s, data);
    hide Overlay, Programmed, Blank, Pages, Filled;
  }

  lemma FilledPage(g: Geometry, s: State, data: seq<Byte>)
    requires |s.buf| == g.page == |data| && s.len == 0
    ensures Filled(g, s, data) == s.(buf := data, len := g.page, written := Overlay(s.written, s.ofs, data))
  {
    hide Overlay;
    assert s.buf[..0] + data + s.buf[g.page..] == data;
  }

  /** Writing the pages in one go leaves flash and buffer as if they had gone through the buffer. */
  lemma {:induction false} PagesDirect(g: Geometry, s: State, data: seq<Byte>, n: nat)
    requires g.Ok() && s.buf == Blank(g.page) && s.len == 0 && |data| == n * g.page && s.ofs + |data| <= |s.flash|
    ensures Put(s, ByPages(g, s, data, n), data)
    decreases n
  {
    hide Overlay, Programmed, Flushed, Wrote, Blank;
    if n == 0 {
      assert data == [];
      PutNone(s);
    } else {
      Times(n - 1, 1, g.page);
      var a, b := data[..g.page], data[g.page..];
      assert data == a + b;
      OnePage(g, s, a);
      var t := Flushed(g, Filled(g, s, a));
      PagesDirect(g, t, b, n - 1);
      hide Filled, Put;
      PutMore(s, t, ByPages(g, t, b, n - 1), a, b);
    }
  }

  function Wiped(g: Geometry, flash: seq<Byte>, b: nat): (r: seq<Byte>)
    requires g.Ok()
    ensures |r| == |flash|
    ensures forall a :: 0 <= a < |flash| ==> r[a] == if Block(g, a) == b then ERASED else flash[a]
  {
    seq(|flash|, (a: nat) requires 0 <= a < |flash| => if Block(g, a) == b then ERASED else flash[a])
  }

  /** The block is erased, together with all that was known to be in it. */
  ghost function Erased(g: Geometry, s: State, b: nat): State
    requires g.Ok()
  {
    s.(flash := Wiped(g, s.flash, b), log := s.log - {b}, written := map a | a in s.written && Block(g, a) != b ::
    s.written[a])
  }

  lemma EraseKeeps(g: Geometry, s: State, b: nat)
    requires Ok(g, s) && (s.ofs == UNSET || b != s.cur)
    ensures Ok(g, Erased(g, s, b))
  {
    hide PageDiv, PageMod, Block, BlockStart, BlockEnd, GapsOk;
    var r := Erased(g, s, b);
    EraseBuf(g, s, b);
    EraseGaps(g, s, b);
    hide BufOk, ByteOk;
    forall a | a in r.written ensures ByteOk(g, r, a) {
      EraseByte(g, s, b, a);
    }
  }

  lemma EraseGaps(g: Geometry, s: State, b: nat)
    requires g.Ok() && BufOk(g, s) && GapsOk(s) && (s.ofs == UNSET || b != s.cur)
    ensures GapsOk(Erased(g, s, b))
  {
    hide PageDiv, PageMod, Block, BlockStart, BlockEnd;
    if s.ofs != UNSET {
      forall a: nat | s.ofs <= a < s.ofs + s.len ensures Block(g, a) == s.cur {
        BlockIs(g, a, s.cur);
      }
    }
  }

  lemma EraseByte(g: Geometry, s: State, b: nat, a: nat)
    requires g.Ok() && ByteOk(g, s, a) && a in s.written && Block(g, a) != b
    ensures ByteOk(g, Erased(g, s, b), a)
  {
    hide PageDiv, Block;
    assert Pages(Erased(g, s, b), Block(g, a)) == Pages(s, Block(g, a));
  }

  lemma EraseBuf(g: Geometry, s: State, b: nat)
    requires g.Ok() && BufOk(g, s) && (s.ofs == UNSET || b != s.cur)
    ensures BufOk(g, Erased(g, s, b))
  {
    hide PageDiv, PageMod, Block, BlockStart, BlockEnd;
    var r := Erased(g, s, b);
    if s.ofs != UNSET {
      forall a: nat | s.ofs <= a < BlockEnd(g, s.cur) ensures Block(g, a) == s.cur {
        BlockIs(g, a, s.cur);
      }
      assert Pages(r, r.cur) == Pages(s, s.cur);
    }
  }

  // ---------------------------------------------------------------------------------------
  // The buffer

  ghost function Concat(vecs: seq<seq<Byte>>): seq<Byte> {
    if vecs == [] then [] else Concat(vecs[..|vecs| - 1]) + vecs[|vecs| - 1]
  }

  /** Whether n bytes may be written at `to`: right after the last ones, or in a block that is erased from there on. */
  ghost predicate CanWrite(g: Geometry, s: State, to: nat, n: nat)
    requires g.Ok()
  {
    to + n <= BlockEnd(g, Block(g, to)) <= |s.flash| && to % 4 == 0 &&
    if s.ofs != UNSET && Block(g, to) == s.cur then s.ofs < BlockEnd(g, s.cur) && to == Padded(s.ofs + s.len)
    else Fresh(g, s, to) && (s.ofs != UNSET && Block(g, to) == Block(g, s.ofs) ==> to == Padded(s.ofs + s.len))
  }

  /** The rest of a page that is flushed early: a padding node, if there is room for its header, and zeros. */
  ghost function PadBytes(n: nat, header: seq<Byte>): (r: seq<Byte>)
    requires |header| == HEADER
    ensures |r| == n
  {
    if HEADER < n then header + seq(n - HEADER, i => 0) else seq(n, i => 0)
  }

  lemma PaddedIs(x: nat)
    ensures x <= Padded(x) < x + 4 && Padded(x) % 4 == 0 && (x % 4 == 0 ==> Padded(x) == x)
  {
  }

  lemma PageQuads(g: Geometry, ofs: nat)
    requires g.Ok() && PageMod(g, ofs) == 0
    ensures ofs % 4 == 0
  {
    var q, m := ofs / g.page, g.page / 4;
    assert ofs == q * g.page && g.page == m * 4;
    Associate(q, m, 4);
    MultipleMod(q * m, 4);
  }

  lemma PaddedPage(g: Geometry, ofs: nat, len: nat)
    requires g.Ok() && PageMod(g, ofs) == 0 && len <= g.page
    ensures Padded(ofs + len) == ofs + Padded(len) && len <= Padded(len) <= g.page
    ensures PageMod(g, ofs + Padded(len)) == if Padded(len) == g.page then 0 else Padded(len)
  {
    PageQuads(g, ofs);
    PaddedSum(ofs, len);
    PaddedIs(len);
    hide Padded, PageMod, PageDiv;
    if Padded(len) == g.page {
      NextPage(g, ofs, 0);
    } else {
      PageIs(g, ofs, ofs + Padded(len));
    }
  }

  lemma PaddedSum(x: nat, y: nat)
    requires x % 4 == 0
    ensures Padded(x + y) == x + Padded(y)
  {
  }

  /** Flash differs only in pages that were programmed in between, for the first time; what was programmed stays so. */
  ghost predicate Grew(g: Geometry, s: State, t: State)
    requires g.Ok()
  {
    |s.flash| == |t.flash| && (forall b :: Pages(s, b) <= Pages(t, b)) &&
    forall a :: 0 <= a < |s.flash| && s.flash[a] != t.flash[a] ==>
      PageDiv(g, a) in Pages(t, Block(g, a)) && PageDiv(g, a) !in Pages(s, Block(g, a))
  }

  lemma GrewRefl(g: Geometry, s: State)
    requires g.Ok()
    ensures Grew(g, s, s)
  {
  }

  lemma GrewTrans(g: Geometry, s: State, t: State, u: State)
    requires g.Ok() && Grew(g, s, t) && Grew(g, t, u)
    ensures Grew(g, s, u)
  {
    hide PageDiv, Block;
    forall a | 0 <= a < |s.flash| && s.flash[a] != u.flash[a]
      ensures PageDiv(g, a) in Pages(u, Block(g, a)) && PageDiv(g, a) !in Pages(s, Block(g, a))
    {
      var b := Block(g, a);
      assert Pages(s, b) <= Pages(t, b) <= Pages(u, b);
    }
  }

  lemma FlushGrew(g: Geometry, u: State, s: State, t: State)
    requires Ok(g, s) && s.ofs != UNSET && s.ofs < BlockEnd(g, s.cur) && u.flash == s.flash && u.log == s.log
    requires |t.buf| == g.page && t == s.(buf := t.buf)
    ensures Grew(g, u, Flushed(g, t))
  {
    hide PageDiv, PageMod, Block, BlockStart, BlockEnd;
    var r := Flushed(g, t);
    forall a | 0 <= a < |s.flash| && s.flash[a] != r.flash[a]
      ensures PageDiv(g, a) in Pages(r, Block(g, a)) && PageDiv(g, a) !in Pages(u, Block(g, a))
    {
      PageIs(g, s.ofs, a);
      BlockIs(g, a, s.cur);
      assert Pages(r, s.cur) == Pages(s, s.cur) + [s.ofs];
    }
  }

  lemma {:induction false} PagesGrew(g: Geometry, s: State, data: seq<Byte>, n: nat)
    requires Ok(g, s) && s.ofs != UNSET && s.len == 0 && |data| == n * g.page && s.ofs + |data| <= BlockEnd(g, s.cur)
    ensures Grew(g, s, ByPages(g, s, data, n))
    decreases n
  {
    hide PageDiv, PageMod, Block, BlockStart, BlockEnd, Overlay;
    if n > 0 {
      Times(n - 1, 1, g.page);
      var t := Filled(g, s, data[..g.page]);
      FillKeeps(g, s, data[..g.page]);
      FlushKeeps(g, t, t);
      FlushGrew(g, s, t, t);
      hide Grew;
      PagesGrew(g, Flushed(g, t), data[g.page..], n - 1);
      GrewTrans(g, s, Flushed(g, t), ByPages(g, Flushed(g, t), data[g.page..], n - 1));
    }
  }

  lemma GrewSame(g: Geometry, s: State, t: State)
    requires g.Ok() && s.flash == t.flash && s.log == t.log
    ensures Grew(g, s, t)
  {
  }

  lemma NoBytes(written: map<nat, Byte>, at: nat)
    ensures Overlay(written, at, []) == written
  {
  }

  lemma PageSize(g: Geometry, s: State)
    requires Ok(g, s)
    ensures g.Ok() && |s.buf| == g.page && s.len <= g.page
  {
  }

  lemma FloorPages(x: nat, d: nat)
    requires d > 0
    ensures x / d * d <= x < x / d * d + d
  {
  }

  lemma StandsIn(g: Geometry, s: State)
    requires Ok(g, s) && s.ofs != UNSET
    ensures s.ofs < BlockEnd(g, s.cur) ==> Block(g, s.ofs) == s.cur
    ensures s.ofs == BlockEnd(g, s.cur) ==> s.len == 0
  {
    hide PageDiv, PageMod, Block, BlockStart, BlockEnd;
    if s.ofs < BlockEnd(g, s.cur) {
      BlockIs(g, s.ofs, s.cur);
    }
  }

  lemma SamePlace(g: Geometry, s: State, to: nat)
    requires Ok(g, s) && s.ofs != UNSET && s.len == 0 && to == Padded(s.ofs)
    ensures to == s.ofs && PageDiv(g, to) == s.ofs && PageMod(g, to) == 0
  {
    PageQuads(g, s.ofs);
    PaddedIs(s.ofs);
    PageIs(g, s.ofs, s.ofs);
  }

  /** A flush elsewhere leaves a fresh block fresh. */
  lemma FreshAfter(g: Geometry, s: State, t: State, to: nat)
    requires g.Ok() && Fresh(g, s, to) && Grew(g, s, t) && Pages(t, Block(g, to)) == Pages(s, Block(g, to))
    ensures Fresh(g, t, to)
  {
    hide PageDiv, BlockStart, BlockEnd, Block;
    var b := Block(g, to);
    forall a | to <= a < BlockEnd(g, b) ensures t.flash[a] == ERASED {
      InBlock(g, to);
      InRange(g, b, to, a);
    }
  }

  lemma InRange(g: Geometry, b: nat, to: nat, a: nat)
    requires g.Ok() && BlockStart(g, b) <= to <= a < BlockEnd(g, b)
    ensures Block(g, a) == b
  {
    BlockIs(g, a, b);
  }

  lemma WroteNone(written: map<nat, Byte>, at: nat)
    ensures Wrote(written, written, at, Concat([]))
  {
    NoBytes(written, at);
  }

  lemma {:induction false} ConcatPrefix(vecs: seq<seq<Byte>>, i: nat)
    requires i <= |vecs|
    ensures |Concat(vecs[..i])| <= |Concat(vecs)|
  {
    if i == |vecs| {
      assert vecs[..i] == vecs;
    } else {
      assert vecs[..|vecs| - 1][..i] == vecs[..i];
      ConcatPrefix(vecs[..|vecs| - 1], i);
    }
  }

  lemma StillSet(g: Geometry, was: State, s: State)
    requires Ok(g, s) && Grew(g, was, s) && s.ofs + s.len <= BlockEnd(g, s.cur) <= |was.flash|
    ensures s.ofs != UNSET
  {
  }

  /** The bytes read are those a reader is to see. */
  ghost predicate Sees(s: State, ofs: nat, got: seq<Byte>) {
    ofs + |got| <= |s.flash| && forall a :: ofs <= a < ofs + |got| ==> got[a - ofs] == Shown(s, a)
  }

  /** The bytes read are those last written, where any were. */
  ghost predicate Latest(s: State, ofs: nat, got: seq<Byte>) {
    forall a :: ofs <= a < ofs + |got| && a in s.written ==> got[a - ofs] == s.written[a]
  }

  /** Whoever is shown the right bytes is shown those last written. */
  lemma SeesLatest(g: Geometry, s: State, ofs: nat, got: seq<Byte>)
    requires Ok(g, s) && Sees(s, ofs, got)
    ensures Latest(s, ofs, got)
  {
    forall a | ofs <= a < ofs + |got| && a in s.written ensures got[a - ofs] == s.written[a] {
      assert ByteOk(g, s, a);
    }
  }

  /** No byte of the range that is still to be programmed is other than erased flash. */
  ghost predicate NothingPending(s: State, ofs: nat, len: nat) {
    forall a :: ofs <= a < ofs + len && a in s.written && s.ofs <= a < s.ofs + s.len ==> s.written[a] == ERASED
  }

  /** Flash alone has what was last written exactly where nothing is pending. */
  lemma RawLatest(g: Geometry, s: State, ofs: nat, got: seq<Byte>)
    requires Ok(g, s) && ofs + |got| <= |s.flash| && got == s.flash[ofs..ofs + |got|]
    ensures Latest(s, ofs, got) <==> NothingPending(s, ofs, |got|)
  {
    forall a | ofs <= a < ofs + |got| && a in s.written
      ensures got[a - ofs] == s.written[a] <==> (s.ofs <= a < s.ofs + s.len ==> s.written[a] == ERASED)
    {
      assert ByteOk(g, s, a);
    }
  }

  /**
   * Bytes of the range that were not written read as flash has them, unless the buffer covers them
   * and flash is not erased there.
   */
  ghost predicate RestAsOnFlash(s: State, ofs: nat, got: seq<Byte>) {
    ofs + |got| <= |s.flash| &&
    forall a :: ofs <= a < ofs + |got| && a !in s.written ==>
      (got[a - ofs] == s.flash[a] <==> !(s.ofs <= a < s.ofs + s.len) || s.flash[a] == ERASED)
  }

  lemma SeesRest(g: Geometry, s: State, ofs: nat, got: seq<Byte>)
    requires Ok(g, s) && Sees(s, ofs, got)
    ensures RestAsOnFlash(s, ofs, got)
  {
    forall a | ofs <= a < ofs + |got| && a !in s.written
      ensures got[a - ofs] == s.flash[a] <==> !(s.ofs <= a < s.ofs + s.len) || s.flash[a] == ERASED
    {
      assert got[a - ofs] == Shown(s, a);
      if s.ofs <= a < s.ofs + s.len {
        assert s.ofs + (a - s.ofs) !in s.written;
        assert s.buf[a - s.ofs] == ERASED;
      }
    }
  }

  class WriteBehind {
    const g: Geometry
    var flash: seq<Byte>
    const wbuf: array<Byte>
    var wbufOfs: nat
    var wbufLen: nat
    ghost var cur: nat
    ghost var log: map<nat, seq<nat>>
    ghost var written: map<nat, Byte>

    ghost function St(): State
      reads this, wbuf
    {
      State(flash, wbuf[..], wbufOfs, wbufLen, cur, log, written)
    }

    ghost predicate Valid()
      reads this, wbuf
    {
      Ok(g, St()) && wbufLen < g.page
    }

    /** Programs the page of the buffer; an unfinished one is padded first. */
    method FlushWbuf(pad: Pad, header: seq<Byte>)
      requires Ok(g, St()) && |header| == HEADER
      modifies this, wbuf
      ensures Ok(g, St()) && wbufLen == 0 && written == old(written) && cur == old(cur)
      ensures old(wbufLen) == 0 ==> St() == old(St())
      ensures Grew(g, old(St()), St())
      ensures old(wbufLen) > 0 ==>
                wbufOfs == old(wbufOfs) + g.page && log == old(log)[cur := old(Pages(St(), cur)) + [old(wbufOfs)]] &&
                var at := old(Padded(wbufLen));
                at <= g.page <= |flash| - old(wbufOfs) &&
                flash == Programmed(old(flash), old(wbufOfs),
                                    old(wbuf[..])[..at] + if pad == NoPad then old(wbuf[..])[at..]
                                      else PadBytes(g.page - at, header))
    {
      hide PageDiv, PageMod, Block, BlockStart, BlockEnd, LogOk, WrittenOk, Padded, PadBytes, GapsOk, Programmed, Blank;
      if wbufLen == 0 {
        GrewRefl(g, St());
        return;
      }
      hide Grew;
      PaddedPage(g, wbufOfs, wbufLen);
      ghost var s, len := St(), if pad == NoPad then wbufLen else Padded(wbufLen);
      SkipKeeps(g, s, len);
      if pad != NoPad {
        PadPage(header);
      }
      FlushKeeps(g, Skipped(s, len), St());
      FlushGrew(g, s, Skipped(s, len), St());
      ProgramPage();
      assert s.buf == s.buf[..Padded(s.len)] + s.buf[Padded(s.len)..];
    }

    method ProgramPage()
      requires g.Ok() && wbuf.Length == g.page && wbufOfs + g.page <= |flash|
      modifies this, wbuf
      ensures St() == Flushed(g, old(St()))
    {
      log := log[cur := Pages(St(), cur) + [wbufOfs]];
      flash := Programmed(flash, wbufOfs, wbuf[..]);
      forall i | 0 <= i < g.page {
        wbuf[i] := ERASED;
      }
      wbufOfs := wbufOfs + g.page;
      wbufLen := 0;
      assert wbuf[..] == Blank(g.page);
    }

    method PadPage(header: seq<Byte>)
      requires wbuf.Length == g.page && Padded(wbufLen) <= g.page && |header| == HEADER
      modifies wbuf, this`wbufLen
      ensures wbufLen == Padded(old(wbufLen))
      ensures wbuf[..] == old(wbuf[..])[..wbufLen] + PadBytes(g.page - wbufLen, header)
    {
      wbufLen := Padded(wbufLen);
      forall i | wbufLen <= i < g.page {
        wbuf[i] := 0;
      }
      if wbufLen + HEADER < g.page {
        forall i | wbufLen <= i < wbufLen + HEADER {
          wbuf[i] := header[i - wbufLen];
        }
      }
    }

    /** jffs2_fill_wbuf: takes what fits, but leaves whole pages to the caller when the buffer is empty. */
    method FillWbuf(v: seq<Byte>) returns (n: nat)
      requires Ok(g, St()) && wbuf.Length == g.page
      requires v != [] ==> wbufOfs != UNSET && wbufOfs < BlockEnd(g, cur)
      modifies wbuf, this`wbufLen, this`written
      ensures n <= |v| && wbufLen == old(wbufLen) + n <= g.page && Ok(g, St())
      ensures Wrote(old(written), written, wbufOfs + old(wbufLen), v[..n])
      ensures n < |v| ==> wbufLen == g.page || (wbufLen == 0 && n == 0 && |v| >= g.page)
    {
      hide PageDiv, PageMod, Block, BlockStart, BlockEnd, LogOk, WrittenOk, Overlay, BufOk;
      PageSize(g, St());
      hide Ok;
      ghost var s := St();
      if |v| > 0 && wbufLen == 0 && |v| >= g.page {
        NoBytes(written, wbufOfs + wbufLen);
        assert v[..0] == [];
        return 0;
      }
      n := if |v| > g.page - wbufLen then g.page - wbufLen else |v|;
      if v == [] {
        NoBytes(written, wbufOfs + wbufLen);
        assert v[..0] == [];
        return 0;
      }
      FillKeeps(g, s, v[..n]);
      CopyIn(v[..n]);
      written := Overlay(written, wbufOfs + wbufLen, v[..n]);
      wbufLen := wbufLen + n;
    }

    method CopyIn(data: seq<Byte>)
      requires wbufLen + |data| <= wbuf.Length
      modifies wbuf
      ensures wbuf[..] == old(wbuf[..])[..wbufLen] + data + old(wbuf[..])[wbufLen + |data|..]
    {
      forall i | wbufLen <= i < wbufLen + |data| {
        wbuf[i] := data[i - wbufLen];
      }
    }

    /** Fills the buffer and programs its page once that is complete. */
    method FillAndFlush(v: seq<Byte>) returns (n: nat)
      requires Valid() && wbuf.Length == g.page
      requires v != [] ==> wbufOfs != UNSET && wbufOfs < BlockEnd(g, cur)
      modifies this, wbuf
      ensures n <= |v| && Valid() && cur == old(cur) && wbufOfs + wbufLen == old(wbufOfs + wbufLen) + n
      ensures Wrote(old(written), written, old(wbufOfs + wbufLen), v[..n])
      ensures n < |v| ==> wbufLen == 0
      ensures old(wbufLen) == 0 && |v| < g.page ==> n == |v|
      ensures Grew(g, old(St()), St())
    {
      hide PageDiv, PageMod, Block, BlockStart, BlockEnd, LogOk, WrittenOk, Overlay, BufOk, Wrote, Ok;
      PageSize(g, St());
      ghost var s := St();
      n := FillWbuf(v);
      ghost var t := St();
      GrewSame(g, s, t);
      hide Grew;
      if wbufLen == g.page {
        FlushWbuf(NoPad, seq(HEADER, i => 0));
        GrewTrans(g, s, t, St());
      }
    }

    /** Whole pages are programmed where the empty buffer stands, past it. */
    method WriteDirect(v: seq<Byte>, n: nat)
      requires Valid() && wbuf.Length == g.page && wbufLen == 0 && wbufOfs != UNSET
      requires |v| == n * g.page && wbufOfs + |v| <= BlockEnd(g, cur)
      modifies this`flash, this`wbufOfs, this`log, this`written
      ensures Valid() && wbufOfs == old(wbufOfs) + |v|
      ensures Wrote(old(written), written, old(wbufOfs), v)
      ensures Grew(g, old(St()), St())
    {
      hide PageDiv, PageMod, Block, BlockStart, BlockEnd, LogOk, WrittenOk, Overlay, Grew, Programmed;
      ghost var s := St();
      PagesKeep(g, s, v, n);
      PagesGrew(g, s, v, n);
      assert s.buf == Blank(g.page);
      PagesDirect(g, s, v, n);
      ghost var r := ByPages(g, s, v, n);
      hide ByPages, BufOk;
      flash := Programmed(flash, wbufOfs, v);
      wbufOfs := wbufOfs + |v|;
      log, written := r.log, r.written;
      assert St() == r;
    }

    /** One vector of a write: into the buffer, whole pages past it, the rest into the buffer again. */
    method WriteVec(vec: seq<Byte>)
      requires Valid() && wbuf.Length == g.page && wbufOfs != UNSET
      requires wbufOfs + wbufLen + |vec| <= BlockEnd(g, cur)
      modifies this, wbuf
      ensures Valid() && cur == old(cur) && wbufOfs + wbufLen == old(wbufOfs + wbufLen) + |vec|
      ensures Wrote(old(written), written, old(wbufOfs + wbufLen), vec)
      ensures Grew(g, old(St()), St())
    {
      hide PageDiv, PageMod, Block, BlockStart, BlockEnd, LogOk, WrittenOk, Overlay, Grew, Wrote;
      ghost var s, pos := St(), wbufOfs + wbufLen;
      var n := FillAndFlush(vec);
      ghost var t, head := St(), vec[..n];
      var v := vec[n..];
      assert vec == head + v;
      var m := WritePages(v);
      GrewTrans(g, s, t, St());
      WroteMore(s.written, t.written, written, pos, head, v[..m]);
      head, t := head + v[..m], St();
      v := v[m..];
      assert vec == head + v;
      n := FillAndFlush(v);
      assert v[..n] == v;
      WroteMore(s.written, t.written, written, pos, head, v);
      GrewTrans(g, s, t, St());
    }

    /** What is left of a vector in whole pages, if any. */
    method WritePages(v: seq<Byte>) returns (m: nat)
      requires Valid() && wbuf.Length == g.page && wbufOfs != UNSET
      requires v != [] ==> wbufLen == 0 && wbufOfs + |v| <= BlockEnd(g, cur)
      modifies this`flash, this`wbufOfs, this`log, this`written
      ensures Valid() && m <= |v| < m + g.page && wbufOfs == old(wbufOfs) + m
      ensures wbufOfs + wbufLen == old(wbufOfs + wbufLen) + m
      ensures Wrote(old(written), written, old(wbufOfs + wbufLen), v[..m])
      ensures Grew(g, old(St()), St())
    {
      hide PageDiv, PageMod, Block, BlockStart, BlockEnd, LogOk, WrittenOk, Overlay, Grew, BufOk;
      if |v| >= g.page {
        FloorPages(|v|, g.page);
        m := |v| / g.page * g.page;
        WriteDirect(v[..m], |v| / g.page);
      } else {
        m := 0;
        NoBytes(written, wbufOfs + wbufLen);
        assert v[..0] == [];
        GrewRefl(g, St());
      }
    }

    /** Brings the buffer to the block of `to`; one left in another block is padded and flushed. */
    method Approach(to: nat, header: seq<Byte>, ghost n: nat)
      requires Valid() && wbuf.Length == g.page && |header| == HEADER && CanWrite(g, St(), to, n)
      modifies this, wbuf
      ensures Valid() && cur == Block(g, to) && written == old(written) && Grew(g, old(St()), St())
      ensures wbufOfs != UNSET && wbufOfs < BlockEnd(g, cur) && to == Padded(wbufOfs + wbufLen)
    {
      hide PageDiv, PageMod, Block, BlockStart, BlockEnd, LogOk, WrittenOk, Padded, Overlay, Grew;
      ghost var s := St();
      InBlock(g, to);
      PaddedIs(to);
      GrewRefl(g, s);
      if wbufOfs == UNSET {
        Move(to);
        forall i | 0 <= i < g.page {
          wbuf[i] := ERASED;
        }
        assert wbuf[..] == s.buf;
        BlockIs(g, wbufOfs, cur);
        return;
      }
      StandsIn(g, s);
      if Block(g, to) != Block(g, wbufOfs) {
        if wbufLen > 0 {
          FlushWbuf(PadNoAccount, header);
          FreshAfter(g, s, St(), to);
        }
        ghost var t := St();
        Move(to);
        GrewTrans(g, s, t, St());
      } else if cur != Block(g, to) {
        SamePlace(g, s, to);
        MoveKeeps(g, s, to);
        cur := Block(g, to);
        GrewSame(g, s, St());
      }
    }

    method Move(to: nat)
      requires Valid() && wbuf.Length == g.page && wbufLen == 0 && Fresh(g, St(), to)
      modifies this`wbufOfs, this`wbufLen, this`cur
      ensures Valid() && St() == Moved(g, old(St()), to) && Grew(g, old(St()), St())
      ensures wbufOfs != UNSET && wbufOfs < BlockEnd(g, cur) && wbufOfs + wbufLen == to
    {
      hide PageDiv, PageMod, Block, BlockStart, BlockEnd, LogOk, WrittenOk, Overlay, Grew;
      ghost var s := St();
      MoveKeeps(g, s, to);
      PageStart(g, to);
      wbufOfs, wbufLen, cur := PageDiv(g, to), PageMod(g, to), Block(g, to);
      GrewSame(g, s, St());
    }

    /** Skips to the multiple of four the write is to start at; a page that ends there is programmed as it is. */
    method Align(to: nat, header: seq<Byte>)
      requires Valid() && wbuf.Length == g.page && |header| == HEADER
      requires wbufOfs != UNSET && wbufOfs < BlockEnd(g, cur) && to == Padded(wbufOfs + wbufLen)
      modifies this, wbuf
      ensures Valid() && cur == old(cur) && written == old(written) && Grew(g, old(St()), St())
      ensures wbufOfs + wbufLen == to
    {
      hide PageDiv, PageMod, Block, BlockStart, BlockEnd, LogOk, WrittenOk, Padded, Overlay, Grew;
      PaddedPage(g, wbufOfs, wbufLen);
      ghost var s := St();
      GrewRefl(g, s);
      if wbufLen != PageMod(g, to) {
        SkipKeeps(g, s, Padded(wbufLen));
        wbufLen := PageMod(g, to);
        if wbufLen == 0 {
          wbufLen := g.page;
          GrewSame(g, s, St());
          ghost var t := St();
          FlushWbuf(NoPad, header);
          GrewTrans(g, s, t, St());
        } else {
          GrewSame(g, s, St());
        }
      } else {
        PaddedIs(wbufLen);
      }
    }

    /** jffs2_flash_writev: afterwards the bytes written last are those of the vectors, at `to`. */
    method FlashWritev(vecs: seq<seq<Byte>>, to: nat, header: seq<Byte>) returns (retlen: nat)
      requires Valid() && wbuf.Length == g.page && |header| == HEADER && CanWrite(g, St(), to, |Concat(vecs)|)
      modifies this, wbuf
      ensures Valid() && retlen == |Concat(vecs)|
      ensures Wrote(old(written), written, to, Concat(vecs))
      ensures Grew(g, old(St()), St())
      ensures cur == Block(g, to) && wbufOfs + wbufLen == to + retlen
    {
      hide PageDiv, PageMod, Block, BlockStart, BlockEnd, LogOk, WrittenOk, Padded, Overlay, Grew, Wrote, BufOk;
      ghost var s := St();
      Approach(to, header, |Concat(vecs)|);
      ghost var t := St();
      Align(to, header);
      GrewTrans(g, s, t, St());
      retlen := 0;
      var i := 0;
      WroteNone(written, to);
      while i < |vecs|
        invariant i <= |vecs| && Valid() && retlen == |Concat(vecs[..i])| && cur == Block(g, to)
        invariant wbufOfs + wbufLen == to + retlen && to + |Concat(vecs)| <= BlockEnd(g, cur) <= |s.flash|
        invariant Wrote(s.written, written, to, Concat(vecs[..i])) && Grew(g, s, St())
      {
        t := St();
        assert vecs[..i + 1][..i] == vecs[..i];
        ConcatPrefix(vecs, i + 1);
        StillSet(g, s, t);
        WriteVec(vecs[i]);
        WroteMore(s.written, t.written, written, to, Concat(vecs[..i]), vecs[i]);
        GrewTrans(g, s, t, St());
        retlen := retlen + |vecs[i]|;
        i := i + 1;
      }
      assert vecs[..i] == vecs;
    }

    /**
     * jffs2_flash_read.  What the buffer holds is laid over what flash holds, if the read starts in the
     * block of the buffer.  It then returns what was last written; a read from another block does so
     * exactly if no byte it reaches is still to be programmed.  Bytes never written here come from flash,
     * unless the buffer covers them.
     */
    method FlashRead(ofs: nat, len: nat, buf: array<Byte>)
      requires Valid() && wbuf.Length == g.page && ofs + len <= |flash| && buf.Length == len && buf != wbuf
      modifies buf
      ensures Latest(St(), ofs, buf[..]) <==> Block(g, ofs) == Block(g, wbufOfs) || NothingPending(St(), ofs, len)
      ensures Block(g, ofs) == Block(g, wbufOfs) ==> Sees(St(), ofs, buf[..]) && RestAsOnFlash(St(), ofs, buf[..])
      ensures Block(g, ofs) != Block(g, wbufOfs) ==> buf[..] == flash[ofs..ofs + len]
    {
      hide PageDiv, PageMod, Block, BlockStart, BlockEnd, LogOk, WrittenOk, Padded, Latest, NothingPending,
           RestAsOnFlash;
      forall i | 0 <= i < len {
        buf[i] := flash[ofs + i];
      }
      assert buf[..] == flash[ofs..ofs + len];
      RawLatest(g, St(), ofs, buf[..]);
      if Block(g, ofs) == Block(g, wbufOfs) {
        if wbufLen > 0 {
          CopyBuffered(ofs, len, buf);
        }
        SeesLatest(g, St(), ofs, buf[..]);
        SeesRest(g, St(), ofs, buf[..]);
      }
    }

    method CopyBuffered(ofs: nat, len: nat, buf: array<Byte>)
      requires wbufLen <= g.page == wbuf.Length && ofs + len <= |flash| && buf.Length == len && buf != wbuf
      requires buf[..] == flash[ofs..ofs + len]
      modifies buf
      ensures Sees(St(), ofs, buf[..])
    {
      assert forall i :: 0 <= i < len ==> buf[i] == flash[ofs..ofs + len][i];
      var orbf, owbf, lwbf := 0, 0, 0;
      if ofs >= wbufOfs {
        owbf := ofs - wbufOfs;
        if owbf > wbufLen {
          return;
        }
        lwbf := if wbufLen - owbf > len then len else wbufLen - owbf;
      } else {
        orbf := wbufOfs - ofs;
        if orbf > len {
          return;
        }
        lwbf := if len - orbf > wbufLen then wbufLen else len - orbf;
      }
      if lwbf > 0 {
        forall i | orbf <= i < orbf + lwbf {
          buf[i] := wbuf[i - orbf + owbf];
        }
      }
    }

    /** A block the buffer is not in is erased. */
    method EraseBlock(b: nat)
      requires Valid() && wbuf.Length == g.page && (wbufOfs == UNSET || b != cur)
      modifies this`flash, this`log, this`written
      ensures Valid() && St() == Erased(g, old(St()), b)
    {
      EraseKeeps(g, St(), b);
      flash := Wiped(g, flash, b);
      log := log - {b};
      written := map a | a in written && Block(g, a) != b :: written[a];
    }

    constructor (g: Geometry, flash: seq<Byte>)
      requires g.Ok() && |flash| < UNSET
      ensures Valid() && this.g == g && this.flash == flash && wbufOfs == UNSET && written == map[] && log == map[]
      ensures wbuf.Length == g.page && fresh(wbuf)
    {
      this.g := g;
      this.flash := flash;
      wbuf := new Byte[g.page](i => ERASED);
      wbufOfs, wbufLen := UNSET, 0;
      cur, log, written := 0, map[], map[];
    }
  }

  /** A read that reaches the buffer from the block before it misses what was just written there. */
  method CrossingReadMisses() returns (wrote: Byte, got: Byte)
    ensures wrote == 0 && got == ERASED
  {
    var g := Geometry(4, 8);
    var c := new WriteBehind(g, seq(16, i => ERASED));
    OneVector(0);
    assert Block(g, 8) == 1 && Block(g, 7) == 0;
    assert CanWrite(g, c.St(), 8, 1);
    hide Block, CanWrite, Fresh, Ok, Grew, Latest, NothingPending, RestAsOnFlash, Concat, Wrote, Sees, Overlay;
    ghost var was := c.written;
    var n := c.FlashWritev([[0]], 8, seq(HEADER, i => 0));
    WroteAt(was, c.written, 8, Concat([[0]]));
    BufferedAtEight(c.St());
    var buf := new Byte[2];
    c.FlashRead(7, 2, buf);
    assert buf[..][1] == c.flash[8];
    return 0, buf[1];
  }

  lemma OneVector(b: Byte)
    ensures Concat([[b]]) == [b]
  {
    assert [[b]][..0] == [];
  }

  lemma WroteAt(was: map<nat, Byte>, now: map<nat, Byte>, at: nat, data: seq<Byte>)
    requires Wrote(was, now, at, data)
    ensures forall a: nat :: a in now <==> a in was || at <= a < at + |data|
  {
    hide Overlay;
  }

  /** One byte in the buffer of the second block. */
  lemma BufferedAtEight(s: State)
    requires Ok(Geometry(4, 8), s) && s.ofs + s.len == 9 && s.len < 4 && 8 in s.written
    ensures s.ofs == 8 && s.ofs < |s.flash| && s.flash[8] == ERASED && Block(Geometry(4, 8), s.ofs) == 1
  {
    assert ByteOk(Geometry(4, 8), s, 8);
  }

  /**
   * A node that starts in the middle of a page hides what the same page of flash had before it,
   * here a clean marker, until the flush.
   */
  method CoveredBytesHidden() returns (marker: Byte, got: Byte)
    ensures marker == 0 && got == ERASED
  {
    var g := Geometry(16, 32);
    var c := new WriteBehind(g, seq(32, i => if i < 12 then 0 else ERASED));
    marker := c.flash[0];
    OneVector(0);
    assert Block(g, 12) == 0 && Block(g, 0) == 0;
    assert CanWrite(g, c.St(), 12, 1);
    hide Block, CanWrite, Fresh, Ok, Grew, Latest, NothingPending, Concat, Wrote, Overlay;
    ghost var s := c.St();
    var n := c.FlashWritev([[0]], 12, seq(HEADER, i => 0));
    WroteAt(s.written, c.written, 12, Concat([[0]]));
    CoveredFromZero(c.St());
    var buf := new Byte[12];
    c.FlashRead(0, 12, buf);
    got := buf[0];
    assert buf[..][0] == Shown(c.St(), 0);
  }

  /** The buffer stands at the start of the first block and covers what was not written. */
  lemma CoveredFromZero(s: State)
    requires Ok(Geometry(16, 32), s) && s.ofs + s.len == 13 && s.len < 16 && 0 !in s.written
    ensures s.ofs == 0 && s.len == 13 && |s.buf| == 16 && s.buf[0] == ERASED && Block(Geometry(16, 32), s.ofs) == 0
  {
    assert s.ofs + 0 !in s.written;
  }

  // ---------------------------------------------------------------------------------------
  // Any sequence of writes, flushes, erases and reads

  datatype Op =
    | Write(vecs: seq<seq<Byte>>, to: nat)
    | Flush(pad: Pad)
    | Erase(block: nat)
    | ReadBack(ofs: nat, len: nat)

  /**
   * What an operation demands: writes go on where the last one ended, erases spare the block of the
   * buffer, reads end on flash.
   */
  ghost predicate Allowed(g: Geometry, s: State, op: Op)
    requires g.Ok()
  {
    match op
    case Write(vecs, to) => CanWrite(g, s, to, |Concat(vecs)|)
    case Flush(_) => true
    case Erase(b) => s.ofs == UNSET || b != s.cur
    case ReadBack(ofs, len) => ofs + len <= |s.flash|
  }

  /** What it does, and what a read gets. */
  ghost predicate StepOf(g: Geometry, s: State, op: Op, got: seq<Byte>, t: State)
    requires g.Ok()
  {
    match op
    case Write(vecs, to) => Wrote(s.written, t.written, to, Concat(vecs)) && Grew(g, s, t)
    case Flush(_) => t.written == s.written && t.len == 0 && Grew(g, s, t)
    case Erase(b) => t == Erased(g, s, b)
    case ReadBack(ofs, len) =>
      t == s && |got| == len &&
      (Latest(s, ofs, got) <==> Block(g, ofs) == Block(g, s.ofs) || NothingPending(s, ofs, len))
  }

  method Do(c: WriteBehind, op: Op, header: seq<Byte>) returns (got: seq<Byte>)
    requires c.Valid() && c.wbuf.Length == c.g.page && |header| == HEADER && Allowed(c.g, c.St(), op)
    modifies c, c.wbuf
    ensures c.Valid() && StepOf(c.g, old(c.St()), op, got, c.St())
  {
    hide PageDiv, PageMod, Block, BlockStart, BlockEnd, LogOk, WrittenOk, Overlay, Grew, CanWrite, Latest,
         NothingPending;
    got := [];
    match op {
      case Write(vecs, to) =>
        var n := c.FlashWritev(vecs, to, header);
      case Flush(pad) =>
        c.FlushWbuf(pad, header);
        assert 0 < c.g.page by { PageSize(c.g, c.St()); }
      case Erase(b) =>
        c.EraseBlock(b);
      case ReadBack(ofs, len) =>
        var buf := new Byte[len];
        c.FlashRead(ofs, len, buf);
        got := buf[..];
    }
  }

  /** The byte last written to an address, told from the operations alone; none since its block was erased. */
  ghost function Last(g: Geometry, ops: seq<Op>, a: nat): (r: seq<Byte>)
    requires g.Ok()
    ensures |r| <= 1
  {
    if ops == [] then []
    else
      var op, before := ops[|ops| - 1], Last(g, ops[..|ops| - 1], a);
      match op
      case Write(vecs, to) =>
        var data := Concat(vecs);
        if to <= a < to + |data| then [data[a - to]] else before
      case Flush(_) => before
      case Erase(b) => if Block(g, a) == b then [] else before
      case ReadBack(_, _) => before
  }

  ghost predicate IsRun(g: Geometry, ops: seq<Op>, gots: seq<seq<Byte>>, trace: seq<State>)
    requires g.Ok()
  {
    |gots| == |ops| && |trace| == |ops| + 1 &&
    forall i :: 0 <= i < |ops| ==> StepOf(g, trace[i], ops[i], gots[i], trace[i + 1])
  }

  /** The books say of every address what the operations do. */
  ghost predicate Booked(g: Geometry, s: State, ops: seq<Op>)
    requires g.Ok()
  {
    forall a: nat :: Last(g, ops, a) == if a in s.written then [s.written[a]] else []
  }

  lemma {:induction false} RunBooked(g: Geometry, ops: seq<Op>, gots: seq<seq<Byte>>, trace: seq<State>)
    requires g.Ok() && IsRun(g, ops, gots, trace) && trace[0].written == map[]
    ensures Booked(g, trace[|ops|], ops)
  {
    hide Block, Overlay, Grew, Latest, NothingPending;
    var n := |ops| - 1;
    if n >= 0 {
      RunBooked(g, ops[..n], gots[..n], trace[..n + 1]);
      assert StepOf(g, trace[n], ops[n], gots[n], trace[n + 1]);
    }
  }

  /**
   * Whatever is written, flushed and erased: a read that starts in the block of the buffer, or wants nothing that is
   * still to be programmed, gets at every address the byte the operations before it wrote there last.
   */
  lemma ReadsLast(g: Geometry, ops: seq<Op>, gots: seq<seq<Byte>>, trace: seq<State>, i: nat, a: nat)
    requires g.Ok() && IsRun(g, ops, gots, trace) && trace[0].written == map[] && i < |ops| && ops[i].ReadBack?
    requires ops[i].ofs <= a < ops[i].ofs + ops[i].len && Last(g, ops[..i], a) != []
    requires Block(g, ops[i].ofs) == Block(g, trace[i].ofs) || NothingPending(trace[i], ops[i].ofs, ops[i].len)
    ensures |gots[i]| == ops[i].len && [gots[i][a - ops[i].ofs]] == Last(g, ops[..i], a)
  {
    hide Block, Overlay, Grew, NothingPending;
    RunBooked(g, ops[..i], gots[..i], trace[..i + 1]);
    assert StepOf(g, trace[i], ops[i], gots[i], trace[i + 1]);
    hide Last;
    assert Booked(g, trace[i], ops[..i]);
  }

  /** Between two erases of a block pages are only added to those programmed in it. */
  lemma {:induction false} PagesOnlyAdded(g: Geometry, ops: seq<Op>, gots: seq<seq<Byte>>, trace: seq<State>, b: nat)
    requires g.Ok() && IsRun(g, ops, gots, trace) && forall i :: 0 <= i < |ops| ==> ops[i] != Erase(b)
    ensures Pages(trace[0], b) <= Pages(trace[|ops|], b)
  {
    hide Block, Overlay, Latest, NothingPending;
    var n := |ops| - 1;
    if n >= 0 {
      PagesOnlyAdded(g, ops[..n], gots[..n], trace[..n + 1], b);
      assert StepOf(g, trace[n], ops[n], gots[n], trace[n + 1]);
    }
  }
}
