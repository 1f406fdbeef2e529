/**
 The Rubin arithmetic coder of jffs2/compr_rubin.c.

 The coder keeps a half-open interval [q, q+p) inside [0, 2^16).  Each symbol narrows it;
 whenever it lies entirely in one half, the deciding bit is pushed out and the interval is
 doubled.  `Code` is the bit stream that a symbol sequence stands for.  The compressor is
 proved to write exactly that stream, even after a rolled-back byte, and the decompressor is
 proved to recover the symbols from it.
 */
module Rubin {
  type byte = bv8

  const REG_SIZE := 16
  const UPPER := 0x8000
  const RANGE := 0x1_0000
  const RESERVE := 32

  // ----- Bits inside bytes (most significant bit first) -----

  function Mask(k: nat): byte
    requires k < 8
  {
    if k == 0 then 0x80 else if k == 1 then 0x40 else if k == 2 then 0x20 else if k == 3 then 0x10
    else if k == 4 then 0x08 else if k == 5 then 0x04 else if k == 6 then 0x02 else 0x01
  }

  predicate Bit(b: byte, k: nat)
    requires k < 8
  {
    b & Mask(k) != 0
  }

  function SetBit(b: byte, k: nat, bit: bool): byte
    requires k < 8
  {
    if bit then b | Mask(k) else b & !Mask(k)
  }

  lemma SetBitGet(b: byte, k: nat, bit: bool, j: nat)
    requires k < 8 && j < 8
    ensures Bit(SetBit(b, k, bit), j) == if j == k then bit else Bit(b, j)
  {
  }

  predicate BitAt(s: seq<byte>, i: nat)
    requires i < 8 * |s|
  {
    Bit(s[i / 8], i % 8)
  }

  /** The first `n` bits of a byte string. */
  ghost function BitsOf(s: seq<byte>, n: nat): (bits: seq<bool>)
    requires n <= 8 * |s|
    ensures |bits| == n
  {
    if n == 0 then [] else BitsOf(s, n - 1) + [BitAt(s, n - 1)]
  }

  lemma {:induction false} BitsOfAt(s: seq<byte>, n: nat, i: nat)
    requires i < n <= 8 * |s|
    ensures BitsOf(s, n)[i] == BitAt(s, i)
  {
    if i < n - 1 {
      BitsOfAt(s, n - 1, i);
    }
  }

  lemma BitAtSet(s: seq<byte>, n: nat, bit: bool, s': seq<byte>, i: nat)
    requires n < 8 * |s| && i < 8 * |s|
    requires s' == s[n / 8 := SetBit(s[n / 8], n % 8, bit)]
    ensures BitAt(s', i) == if i == n then bit else BitAt(s, i)
  {
    if i / 8 == n / 8 {
      SetBitGet(s[n / 8], n % 8, bit, i % 8);
    }
  }

  /** Writing bit `n` extends the first `n` bits by it and leaves them alone. */
  lemma BitsOfSet(s: seq<byte>, n: nat, bit: bool, s': seq<byte>)
    requires n < 8 * |s|
    requires s' == s[n / 8 := SetBit(s[n / 8], n % 8, bit)]
    ensures BitsOf(s', n + 1) == BitsOf(s, n) + [bit]
  {
    SetKeepsBefore(s, n, bit, s', n);
    BitAtSet(s, n, bit, s', n);
  }

  lemma {:induction false} SetKeepsBefore(s: seq<byte>, n: nat, bit: bool, s': seq<byte>, m: nat)
    requires m <= n < 8 * |s|
    requires s' == s[n / 8 := SetBit(s[n / 8], n % 8, bit)]
    ensures BitsOf(s', m) == BitsOf(s, m)
    decreases m
  {
    if m > 0 {
      SetKeepsBefore(s, n, bit, s', m - 1);
      BitAtSet(s, n, bit, s', m - 1);
    }
  }

  lemma {:induction false} BitsOfPrefix(s: seq<byte>, n: nat, m: nat)
    requires m <= n <= 8 * |s|
    ensures BitsOf(s, n)[..m] == BitsOf(s, m)
    decreases n - m
  {
    if m < n {
      BitsOfPrefix(s, n, m + 1);
      assert BitsOf(s, n)[..m] == BitsOf(s, n)[..m + 1][..m];
    }
  }

  // ----- The coding interval -----

  datatype Interval = Interval(p: nat, q: nat) {
    predicate Valid() {
      1 <= p && q + p <= RANGE
    }

    /** The interval straddles the middle: no bit is decided. */
    predicate Settled() {
      q < UPPER < p + q
    }

    predicate Contains(v: int) {
      q <= v < q + p
    }
  }

  const Start := Interval(RANGE, 0)

  function Shifted(iv: Interval): (r: Interval)
    ensures iv.Valid() && !iv.Settled() ==> r.Valid() && r.p > iv.p
  {
    Interval(2 * iv.p, 2 * (iv.q % UPPER))
  }

  /** The interval after the renormalisation loop; straddling forces p >= 2, so both symbols get room. */
  function Renorm(iv: Interval): (r: Interval)
    requires iv.Valid()
    ensures r.Valid() && r.Settled() && r.p >= 2
    decreases RANGE - iv.p
  {
    if iv.Settled() then iv else Renorm(Shifted(iv))
  }

  /** The bits the renormalisation loop pushes out. */
  function Emitted(iv: Interval): seq<bool>
    requires iv.Valid()
    decreases RANGE - iv.p
  {
    if iv.Settled() then [] else [iv.q >= UPPER] + Emitted(Shifted(iv))
  }

  /** Width given to symbol 0: proportional to its weight, but both symbols keep a non-empty share. */
  function Split(p: nat, a: nat, b: nat): (i0: nat)
    requires p >= 2 && a + b > 0
    ensures 1 <= i0 < p
  {
    var i := a * p / (a + b);
    if i <= 0 then 1 else if i >= p then p - 1 else i
  }

  function Narrow(iv: Interval, a: nat, b: nat, symbol: bool): (r: Interval)
    requires iv.Valid() && iv.p >= 2 && a + b > 0
    ensures r.Valid()
  {
    var i0 := Split(iv.p, a, b);
    if symbol then Interval(iv.p - i0, iv.q + i0) else Interval(i0, iv.q)
  }

  /** The two symbols share out the interval: a value's side of the split point names its symbol. */
  lemma NarrowSplits(iv: Interval, a: nat, b: nat, symbol: bool, v: nat)
    requires iv.Valid() && iv.p >= 2 && a + b > 0
    ensures Narrow(iv, a, b, symbol).Contains(v)
       <==> iv.Contains(v) && symbol == (v >= iv.q + Split(iv.p, a, b))
  {
  }

  // ----- The code of a symbol sequence -----

  datatype Table = Table(divider: nat, bits: seq<nat>) {
    predicate Valid() {
      divider > 0 && |bits| == 8 && forall i :: 0 <= i < 8 ==> bits[i] <= divider
    }

    function Step(iv: Interval, n: nat, symbol: bool): (r: Interval)
      requires Valid() && iv.Valid()
      ensures r.Valid()
    {
      Narrow(Renorm(iv), divider - bits[n % 8], bits[n % 8], symbol)
    }
  }

  /** The top `n` bits of a 16-bit register, as end_rubin shifts them out. */
  function Drain(q: nat, n: nat): (bits: seq<bool>)
    ensures |bits| == n
    decreases n
  {
    if n == 0 then [] else [q >= UPPER] + Drain(2 * (q % UPPER), n - 1)
  }

  lemma DrainNext(w: seq<bool>, q: nat, n: nat)
    requires n > 0
    ensures w + Drain(q, n) == (w + [q >= UPPER]) + Drain(2 * (q % UPPER), n - 1)
  {
  }

  /** The stream for `syms`, the first of which is symbol number `n` of its message. */
  function Code(t: Table, iv: Interval, n: nat, syms: seq<bool>): (bits: seq<bool>)
    requires t.Valid() && iv.Valid()
    ensures |bits| >= REG_SIZE
    decreases |syms|
  {
    if syms == [] then Drain(iv.q, REG_SIZE)
    else Emitted(iv) + Code(t, t.Step(iv, n, syms[0]), n + 1, syms[1..])
  }

  // ----- Values of bit strings -----

  function Pow2(n: nat): (r: nat)
    ensures r >= 1
  {
    if n == 0 then 1 else 2 * Pow2(n - 1)
  }

  function Value(s: seq<bool>): nat {
    if s == [] then 0 else 2 * Value(s[..|s| - 1]) + (if s[|s| - 1] then 1 else 0)
  }

  lemma {:induction false} ValueHead(s: seq<bool>)
    requires s != []
    ensures Value(s[1..]) < Pow2(|s| - 1)
    ensures Value(s) == (if s[0] then Pow2(|s| - 1) else 0) + Value(s[1..])
  {
    if |s| > 1 {
      ValueHead(s[..|s| - 1]);
      assert s[..|s| - 1][1..] == s[1..][..|s| - 2];
    }
  }

  lemma Pow2Facts()
    ensures Pow2(0) == 1 && Pow2(15) == UPPER && Pow2(16) == RANGE
  {
    assert Pow2(4) == 16;
    assert Pow2(8) == 256;
    assert Pow2(12) == 4096;
  }

  lemma {:induction false} Pow2Split(a: nat, b: nat)
    ensures Pow2(a + b) == Pow2(a) * Pow2(b)
  {
    if a > 0 {
      Pow2Split(a - 1, b);
      assert a - 1 + b == a + b - 1;
    }
  }

  lemma {:induction false} DrainValue(q: nat, n: nat, v: nat)
    requires n <= REG_SIZE && v < Pow2(n) && q == v * Pow2(REG_SIZE - n)
    ensures Value(Drain(q, n)) == v
    decreases n
  {
    if n > 0 {
      var s, m := Drain(q, n), Pow2(REG_SIZE - n);
      var hi := v >= Pow2(n - 1);
      var v' := if hi then v - Pow2(n - 1) else v;
      assert Pow2(n - 1) * m == UPPER by {
        Pow2Split(n - 1, REG_SIZE - n);
        Pow2Facts();
      }
      DrainStep(q, v, v', Pow2(n - 1), m);
      DrainValue(2 * (q % UPPER), n - 1, v');
      ValueHead(s);
      assert s[1..] == Drain(2 * (q % UPPER), n - 1);
    }
  }

  lemma DrainStep(q: nat, v: nat, v': nat, half: nat, m: nat)
    requires half * m == UPPER && q == v * m && v < 2 * half
    requires v' == if v >= half then v - half else v
    ensures (v >= half) == (q >= UPPER)
    ensures 2 * (q % UPPER) == v' * (2 * m)
  {
    if v >= half {
      assert q == UPPER + v' * m;
    }
    assert v' * m < half * m;
  }

  /** The 16-bit register a decoder sees at the head of a stream. */
  function Window(s: seq<bool>): (v: nat)
    requires |s| >= REG_SIZE
  {
    Value(s[..REG_SIZE])
  }

  /** Moving the register on by one bit: drop the top bit, double, add the next bit. */
  lemma WindowShift(s: seq<bool>)
    requires |s| > REG_SIZE
    ensures Window(s) < RANGE && (Window(s) >= UPPER <==> s[0])
    ensures Window(s[1..]) == 2 * (Window(s) % UPPER) + (if s[REG_SIZE] then 1 else 0)
  {
    var w := s[..REG_SIZE];
    ValueHead(w);
    Pow2Facts();
    var w' := s[1..][..REG_SIZE];
    assert w'[..REG_SIZE - 1] == w[1..];
  }

  // ----- Encoder and decoder agree on the interval -----

  /** Pulling the renormalisation back: a register inside the final interval was inside the first. */
  lemma {:induction false} EmitInside(iv: Interval, rest: seq<bool>)
    requires iv.Valid() && |rest| >= REG_SIZE
    requires Renorm(iv).Contains(Window(rest))
    ensures iv.Contains(Window(Emitted(iv) + rest))
    decreases RANGE - iv.p
  {
    if iv.Settled() {
      assert Emitted(iv) + rest == rest;
    } else {
      var tail := Emitted(Shifted(iv)) + rest;
      EmitInside(Shifted(iv), rest);
      var s := [iv.q >= UPPER] + tail;
      assert s == Emitted(iv) + rest && s[1..] == tail;
      WindowShift(s);
      ShiftInside(iv, Window(s), Window(tail));
    }
  }

  lemma ShiftInside(iv: Interval, v: nat, v': nat)
    requires iv.Valid() && !iv.Settled() && v < RANGE
    requires (v >= UPPER) == (iv.q >= UPPER)
    requires v' / 2 == v % UPPER && Shifted(iv).Contains(v')
    ensures iv.Contains(v)
  {
  }

  /**
   The invariant the whole coder rests on: the register read from the head of a message's code
   lies in the interval the encoder held when it began that message.
   */
  lemma {:induction false} CodeInside(t: Table, iv: Interval, n: nat, syms: seq<bool>)
    requires t.Valid() && iv.Valid()
    ensures iv.Contains(Window(Code(t, iv, n, syms)))
    decreases |syms|, 1
  {
    if syms == [] {
      var s := Drain(iv.q, REG_SIZE);
      assert s[..REG_SIZE] == s;
      Pow2Facts();
      DrainValue(iv.q, REG_SIZE, iv.q);
    } else {
      DecodesHead(t, iv, n, syms);
      EmitInside(iv, Code(t, t.Step(iv, n, syms[0]), n + 1, syms[1..]));
    }
  }

  /** Comparing the register with the split point recovers the symbol that was encoded. */
  lemma {:induction false} DecodesHead(t: Table, iv: Interval, n: nat, syms: seq<bool>)
    requires t.Valid() && iv.Valid() && syms != []
    ensures var rest := Code(t, t.Step(iv, n, syms[0]), n + 1, syms[1..]);
            var w := t.bits[n % 8];
            && Code(t, iv, n, syms) == Emitted(iv) + rest
            && Renorm(iv).Contains(Window(rest))
            && syms[0] == (Window(rest) >= Renorm(iv).q + Split(Renorm(iv).p, t.divider - w, w))
    decreases |syms|, 0
  {
    var rest := Code(t, t.Step(iv, n, syms[0]), n + 1, syms[1..]);
    CodeInside(t, t.Step(iv, n, syms[0]), n + 1, syms[1..]);
    NarrowSplits(Renorm(iv), t.divider - t.bits[n % 8], t.bits[n % 8], syms[0], Window(rest));
  }

  /** Codes of equally long messages never clash. */
  lemma {:induction false} CodeInjective(t: Table, iv: Interval, n: nat, a: seq<bool>, b: seq<bool>)
    requires t.Valid() && iv.Valid() && |a| == |b|
    requires Code(t, iv, n, a) == Code(t, iv, n, b)
    ensures a == b
    decreases |a|
  {
    if a != [] {
      hide Split, Renorm, Narrow, Emitted;
      DecodesHead(t, iv, n, a);
      DecodesHead(t, iv, n, b);
      var ra := Code(t, t.Step(iv, n, a[0]), n + 1, a[1..]);
      var rb := Code(t, t.Step(iv, n, b[0]), n + 1, b[1..]);
      assert ra == (Emitted(iv) + ra)[|Emitted(iv)|..] == (Emitted(iv) + rb)[|Emitted(iv)|..] == rb;
      CodeInjective(t, t.Step(iv, n, a[0]), n + 1, a[1..], b[1..]);
      assert a == [a[0]] + a[1..] && b == [b[0]] + b[1..];
    }
  }

  // ----- The code as the encoder builds it, symbol by symbol -----

  function After(t: Table, syms: seq<bool>): (iv: Interval)
    requires t.Valid()
    ensures iv.Valid()
  {
    if syms == [] then Start
    else t.Step(After(t, syms[..|syms| - 1]), |syms| - 1, syms[|syms| - 1])
  }

  function Sent(t: Table, syms: seq<bool>): seq<bool>
    requires t.Valid()
  {
    if syms == [] then [] else Sent(t, syms[..|syms| - 1]) + Emitted(After(t, syms[..|syms| - 1]))
  }

  lemma {:induction false} CodeSplits(t: Table, syms: seq<bool>, rest: seq<bool>)
    requires t.Valid()
    ensures Code(t, Start, 0, syms + rest) == Sent(t, syms) + Code(t, After(t, syms), |syms|, rest)
    decreases |syms|
  {
    if syms == [] {
      assert syms + rest == rest;
    } else {
      var k := |syms| - 1;
      assert syms + rest == syms[..k] + ([syms[k]] + rest);
      CodeSplits(t, syms[..k], [syms[k]] + rest);
      assert ([syms[k]] + rest)[1..] == rest;
      assert Code(t, After(t, syms[..k]), k, [syms[k]] + rest)
          == Emitted(After(t, syms[..k])) + Code(t, After(t, syms), k + 1, rest);
    }
  }

  lemma {:induction false} SentGrows(t: Table, syms: seq<bool>, k: nat)
    requires t.Valid() && k <= |syms|
    ensures |Sent(t, syms[..k])| <= |Sent(t, syms)|
    decreases |syms| - k
  {
    if k < |syms| {
      assert syms[..k + 1][..k] == syms[..k];
      SentGrows(t, syms, k + 1);
    } else {
      assert syms[..k] == syms;
    }
  }

  /** Symbol `i` of a byte, as `byte & 1` yields it after `i` right shifts. */
  predicate SymOf(b: byte, i: nat)
    requires i < 8
  {
    Bit(b, 7 - i)
  }

  ghost function ByteSyms(b: byte): (syms: seq<bool>)
    ensures |syms| == 8
  {
    seq(8, i requires 0 <= i < 8 => SymOf(b, i))
  }

  /** The symbols of a byte string: each byte least significant bit first. */
  ghost function SymsOf(data: seq<byte>): (syms: seq<bool>)
    ensures |syms| == 8 * |data|
  {
    if data == [] then [] else SymsOf(data[..|data| - 1]) + ByteSyms(data[|data| - 1])
  }

  lemma {:induction false} SymsOfHead(data: seq<byte>)
    requires data != []
    ensures SymsOf(data) == ByteSyms(data[0]) + SymsOf(data[1..])
    decreases |data|
  {
    var n := |data| - 1;
    if n > 0 {
      SymsOfHead(data[..n]);
      assert data[..n][1..] == data[1..][..n - 1];
    }
  }

  /** A whole compressed message. */
  ghost function Message(t: Table, data: seq<byte>): seq<bool>
    requires t.Valid()
  {
    Code(t, Start, 0, SymsOf(data))
  }

  lemma BitsDetermineByte(a: byte, b: byte)
    requires forall k :: 0 <= k < 8 ==> Bit(a, k) == Bit(b, k)
    ensures a == b
  {
    assert Bit(a, 0) == Bit(b, 0) && Bit(a, 1) == Bit(b, 1) && Bit(a, 2) == Bit(b, 2) && Bit(a, 3) == Bit(b, 3);
    assert Bit(a, 4) == Bit(b, 4) && Bit(a, 5) == Bit(b, 5) && Bit(a, 6) == Bit(b, 6) && Bit(a, 7) == Bit(b, 7);
  }

  // ----- The bit buffer -----

  /** No byte past the first `buflen` bits has been written. */
  twostate predicate Confined(buf: array<byte>, buflen: nat)
    reads buf
  {
    forall k :: 0 <= k < buf.Length && 8 * k >= buflen ==> buf[k] == old(buf[k])
  }

  class PushPull {
    const buf: array<byte>
    const buflen: nat // in bits
    const reserve: nat
    var ofs: nat
    ghost var written: seq<bool> // the bits in front of ofs

    constructor (buf: array<byte>, buflen: nat, ofs: nat, reserve: nat)
      requires reserve <= buflen <= 8 * buf.Length && ofs <= 8 * buf.Length
      ensures Valid() && this.buf == buf && this.buflen == buflen && this.ofs == ofs && this.reserve == reserve
    {
      this.buf, this.buflen, this.ofs, this.reserve := buf, buflen, ofs, reserve;
      written := BitsOf(buf[..], ofs);
    }

    ghost predicate Valid()
      reads this, buf
    {
      reserve <= buflen <= 8 * buf.Length && ofs <= 8 * buf.Length && written == BitsOf(buf[..], ofs)
    }

    /** The first bit offset a plain (not reserved) push refuses. */
    function Limit(): int {
      buflen - reserve
    }

    method PushBit(bit: bool, useReserved: bool) returns (ok: bool)
      requires Valid()
      modifies this, buf
      ensures Valid() && Confined(buf, buflen)
      ensures ok <==> old(ofs) < if useReserved then buflen else Limit()
      ensures written == if ok then old(written) + [bit] else old(written)
    {
      hide BitsOf, SetBit;
      if ofs >= (if useReserved then buflen else buflen - reserve) {
        return false;
      }
      buf[ofs / 8] := SetBit(buf[ofs / 8], ofs % 8, bit);
      BitsOfSet(old(buf[..]), ofs, bit, buf[..]);
      ofs, written := ofs + 1, written + [bit];
      return true;
    }

    method PullBit() returns (bit: bool)
      requires ofs < 8 * buf.Length
      modifies `ofs
      ensures ofs == old(ofs) + 1 && bit == BitAt(buf[..], old(ofs))
    {
      bit := Bit(buf[ofs / 8], ofs % 8);
      ofs := ofs + 1;
    }

    /** Restoring a saved struct moves the offset back; whatever was pushed since is forgotten. */
    method Rewind(to: nat)
      requires Valid() && to <= ofs
      modifies this
      ensures Valid() && ofs == to && written == old(written)[..to]
    {
      BitsOfPrefix(buf[..], ofs, to);
      ofs, written := to, written[..to];
    }
  }

  // ----- The coder's state and its operations -----

  class RubinState {
    const table: Table
    const pp: PushPull
    var p: nat
    var q: nat
    var recQ: nat
    var bitNumber: nat

    constructor (table: Table, pp: PushPull)
      ensures this.table == table && this.pp == pp && bitNumber == 0 && recQ == 0 && Now() == Start
    {
      this.table, this.pp := table, pp;
      p, q, recQ, bitNumber := RANGE, 0, 0, 0;
    }

    function Now(): Interval
      reads this
    {
      Interval(p, q)
    }

    ghost predicate Valid()
      reads this, pp, pp.buf
    {
      table.Valid() && Now().Valid() && pp.Valid()
    }

    /** The encoder has absorbed exactly `syms`. */
    ghost predicate Absorbed(syms: seq<bool>)
      reads this, pp, pp.buf
    {
      Valid() && Now() == After(table, syms) && pp.written == Sent(table, syms) && pp.ofs <= pp.Limit()
    }

    /** The loop at the head of encode: push decided bits until the interval straddles the middle. */
    method Renormalise() returns (ok: bool)
      requires Valid() && pp.ofs <= pp.Limit()
      modifies this, pp, pp.buf
      ensures Valid() && Confined(pp.buf, pp.buflen) && pp.ofs <= pp.Limit()
      ensures ok <==> old(pp.ofs) + |Emitted(old(Now()))| <= pp.Limit()
      ensures ok ==> Now() == Renorm(old(Now())) && pp.written == old(pp.written) + Emitted(old(Now()))
      ensures old(pp.written) <= pp.written
    {
      hide BitsOf;
      ghost var done: seq<bool> := [];
      while q >= UPPER || p + q <= UPPER
        invariant Valid() && Confined(pp.buf, pp.buflen) && pp.ofs <= pp.Limit()
        invariant Renorm(Now()) == Renorm(old(Now())) && done + Emitted(Now()) == Emitted(old(Now()))
        invariant pp.written == old(pp.written) + done
        decreases RANGE - p
      {
        bitNumber := bitNumber + 1;
        var pushed := pp.PushBit(q >= UPPER, false);
        if !pushed {
          return false;
        }
        done := Extend(done, Now());
        q, p := 2 * (q % UPPER), 2 * p;
      }
      assert done + [] == done;
      return true;
    }

    method Encode(a: nat, b: nat, symbol: bool) returns (ok: bool)
      requires Valid() && pp.ofs <= pp.Limit() && a + b > 0
      modifies this, pp, pp.buf
      ensures Valid() && Confined(pp.buf, pp.buflen) && pp.ofs <= pp.Limit()
      ensures ok <==> old(pp.ofs) + |Emitted(old(Now()))| <= pp.Limit()
      ensures ok ==> Now() == Narrow(Renorm(old(Now())), a, b, symbol)
      ensures ok ==> pp.written == old(pp.written) + Emitted(old(Now()))
      ensures old(pp.written) <= pp.written
    {
      ok := Renormalise();
      if !ok {
        return;
      }
      var i0 := Split(p, a, b);
      if !symbol {
        p := i0;
      } else {
        p, q := p - i0, q + i0;
      }
    }

    /** encode, seen from the message: symbol number `i` of its byte joins the absorbed symbols. */
    method EncodeNext(i: nat, symbol: bool, ghost syms: seq<bool>) returns (ok: bool)
      requires Absorbed(syms) && i == |syms| % 8
      modifies this, pp, pp.buf
      ensures Valid() && Confined(pp.buf, pp.buflen)
      ensures ok <==> |Sent(table, syms + [symbol])| <= pp.Limit()
      ensures ok ==> Absorbed(syms + [symbol])
      ensures old(pp.written) <= pp.written
    {
      assert (syms + [symbol])[..|syms|] == syms;
      assert Sent(table, syms + [symbol]) == Sent(table, syms) + Emitted(After(table, syms));
      ok := Encode(table.divider - table.bits[i], table.bits[i], symbol);
    }

    method EncodeByte(b: byte, ghost syms: seq<bool>) returns (ok: bool)
      requires Absorbed(syms) && |syms| % 8 == 0
      modifies this, pp, pp.buf
      ensures ok <==> |Sent(table, syms + ByteSyms(b))| <= pp.Limit()
      ensures ok ==> Absorbed(syms + ByteSyms(b))
      ensures Valid() && old(pp.written) <= pp.written && Confined(pp.buf, pp.buflen)
    {
      hide BitsOf, Sent, After;
      ghost var all, cur := syms + ByteSyms(b), syms;
      for i := 0 to 8
        invariant cur == all[..|syms| + i] && Absorbed(cur) && Confined(pp.buf, pp.buflen)
        invariant old(pp.written) <= pp.written
      {
        AppendSym(syms, b, i);
        var sent := EncodeNext(i, SymOf(b, i), cur);
        cur := all[..|syms| + i + 1];
        if !sent {
          SentGrows(table, all, |syms| + i + 1);
          return false;
        }
      }
      assert cur == all && pp.ofs == |Sent(table, all)|;
      return true;
    }

    /** Encodes a byte; when a bit does not fit, p, q and the offset go back to what they were. */
    method OutByte(b: byte, ghost syms: seq<bool>) returns (ok: bool)
      requires Absorbed(syms) && |syms| % 8 == 0
      modifies this, pp, pp.buf
      ensures ok <==> |Sent(table, syms + ByteSyms(b))| <= pp.Limit()
      ensures Absorbed(if ok then syms + ByteSyms(b) else syms)
      ensures Confined(pp.buf, pp.buflen)
      ensures !ok ==> bitNumber == old(bitNumber)
    {
      hide BitsOf;
      var p0, q0, ofs0, bitNumber0 := p, q, pp.ofs, bitNumber;
      ok := EncodeByte(b, syms);
      if !ok {
        p, q, bitNumber := p0, q0, bitNumber0;
        pp.Rewind(ofs0);
      }
    }

    /** Flushes the register through the reserved tail of the buffer. */
    method EndRubin()
      requires pp.Valid() && pp.ofs + REG_SIZE <= pp.buflen
      modifies this, pp, pp.buf
      ensures pp.Valid() && Confined(pp.buf, pp.buflen)
      ensures pp.written == old(pp.written) + Drain(old(q), REG_SIZE)
    {
      hide BitsOf, Drain;
      for i := 0 to REG_SIZE
        invariant pp.Valid() && Confined(pp.buf, pp.buflen) && pp.ofs == old(pp.ofs) + i
        invariant pp.written + Drain(q, REG_SIZE - i) == old(pp.written) + Drain(old(q), REG_SIZE)
      {
        DrainNext(pp.written, q, REG_SIZE - i);
        var _ := pp.PushBit(q >= UPPER, true);
        q := 2 * (q % UPPER);
      }
      assert Drain(q, 0) == [];
    }

    // ----- Decoding -----

    /** `s` is the stream whose first 16 bits are in the register and whose rest is yet to be pulled. */
    ghost predicate Reading(s: seq<bool>)
      reads this, pp, pp.buf
    {
      && table.Valid() && Now().Valid() && |s| >= REG_SIZE && pp.ofs >= REG_SIZE
      && StreamAt(pp.buf[..], pp.ofs - REG_SIZE, s) && recQ == Window(s)
    }

    method InitDecode(ghost s: seq<bool>)
      requires table.Valid() && pp.ofs == 0 && Now() == Start
      requires |s| >= REG_SIZE && StreamAt(pp.buf[..], 0, s)
      modifies this, pp
      ensures Reading(s) && Now() == Start
    {
      recQ, bitNumber := 0, 0;
      for i := 0 to REG_SIZE
        invariant pp.ofs == i && recQ == Value(s[..i]) && Now() == Start
      {
        var bit := pp.PullBit();
        assert s[..i + 1][..i] == s[..i];
        recQ := recQ * 2 + (if bit then 1 else 0);
        bitNumber := bitNumber + 1;
      }
    }

    /** Renormalises in two loops: first count the bits that are needed, then pull them. */
    method DoDecode(ghost rest: seq<bool>)
      requires Now().Valid() && |rest| >= REG_SIZE && Reading(Emitted(Now()) + rest)
      modifies this, pp
      ensures Reading(rest) && Now() == Renorm(old(Now()))
    {
      hide BitAt, Renorm, Emitted, Window, StreamAt;
      ghost var s := Emitted(Now()) + rest;
      var bits := CountShifts();
      assert s[bits..] == rest;
      PullBits(bits, s);
    }

    method CountShifts() returns (bits: nat)
      requires Now().Valid()
      modifies `p, `q, `bitNumber
      ensures Now() == Renorm(old(Now())) && bits == |Emitted(old(Now()))| && Now().Valid()
    {
      bits := 0;
      while q >= UPPER || p + q <= UPPER
        invariant Now().Valid() && Renorm(Now()) == Renorm(old(Now()))
        invariant bits + |Emitted(Now())| == |Emitted(old(Now()))|
        decreases RANGE - p
      {
        bits := bits + 1;
        q, p := 2 * (q % UPPER), 2 * p;
      }
      bitNumber := bitNumber + bits;
    }

    method PullBits(n: nat, ghost s: seq<bool>)
      requires Reading(s) && n + REG_SIZE <= |s|
      modifies `recQ, pp
      ensures Reading(s[n..]) && Now() == old(Now())
    {
      hide BitAt, Window;
      var bits := n;
      assert s[0..] == s;
      while bits > 0
        invariant 0 <= bits <= n && pp.ofs == old(pp.ofs) + n - bits
        invariant recQ == Window(s[n - bits..])
      {
        var bit := pp.PullBit();
        StreamAtHead(pp.buf[..], old(pp.ofs) - REG_SIZE, s, n - bits + REG_SIZE);
        WindowShift(s[n - bits..]);
        assert s[n - bits..][1..] == s[n - bits + 1..];
        recQ := 2 * (recQ % UPPER) + (if bit then 1 else 0);
        bits := bits - 1;
      }
      StreamAtDrop(pp.buf[..], old(pp.ofs) - REG_SIZE, s, n);
    }

    method Decode(a: nat, b: nat, ghost rest: seq<bool>) returns (symbol: bool)
      requires Now().Valid() && a + b > 0 && |rest| >= REG_SIZE && Reading(Emitted(Now()) + rest)
      modifies this, pp
      ensures symbol == (Window(rest) >= Renorm(old(Now())).q + Split(Renorm(old(Now())).p, a, b))
      ensures Now() == Narrow(Renorm(old(Now())), a, b, symbol) && Reading(rest)
    {
      hide StreamAt, Split, Window;
      if q >= UPPER || p + q <= UPPER {
        DoDecode(rest);
      } else {
        assert Emitted(Now()) + rest == rest;
      }
      var i0 := Split(p, a, b);
      var threshold := q + i0;
      symbol := recQ >= threshold;
      if recQ >= threshold {
        q, p := q + i0, p - i0;
      } else {
        p := i0;
      }
    }

    /** decode, seen from the message: the head of `syms` comes back and its code is consumed. */
    method DecodeNext(i: nat, ghost syms: seq<bool>, ghost n: nat) returns (symbol: bool)
      requires table.Valid() && Now().Valid() && i == n % 8
      requires syms != [] && Reading(Code(table, Now(), n, syms))
      modifies this, pp
      ensures symbol == syms[0] && table.Valid() && Now().Valid()
      ensures Reading(Code(table, Now(), n + 1, syms[1..]))
    {
      hide StreamAt, Split, Renorm, Narrow, Emitted, Window;
      DecodesHead(table, Now(), n, syms);
      symbol := Decode(table.divider - table.bits[i], table.bits[i],
                       Code(table, table.Step(Now(), n, syms[0]), n + 1, syms[1..]));
    }

    method InByte(ghost b: byte, ghost syms: seq<bool>, ghost n: nat) returns (result: byte)
      requires table.Valid() && Now().Valid() && n % 8 == 0
      requires Reading(Code(table, Now(), n, ByteSyms(b) + syms))
      modifies this, pp
      ensures result == b && table.Valid() && Now().Valid()
      ensures Reading(Code(table, Now(), n + 8, syms))
    {
      hide StreamAt, Window, Code;
      result := 0;
      ghost var all := ByteSyms(b) + syms;
      assert all[0..] == all;
      for i := 0 to 8
        invariant table.Valid() && Now().Valid() && Reading(Code(table, Now(), n + i, all[i..]))
        invariant forall k :: 0 <= k < 8 ==> Bit(result, k) == (k > 7 - i && Bit(b, k))
      {
        assert all[i..][0] == SymOf(b, i) && all[i..][1..] == all[i + 1..];
        AppendSym(seq(n, _ => false), b, i);
        var symbol := DecodeNext(i, all[i..], n + i);
        forall k | 0 <= k < 8
          ensures Bit(SetBit(result, 7 - i, symbol), k) == (k >= 7 - i && Bit(b, k))
        {
          SetBitGet(result, 7 - i, symbol, k);
        }
        result := SetBit(result, 7 - i, symbol);
      }
      assert all[8..] == syms;
      BitsDetermineByte(result, b);
    }
  }

  /** The bits of `data` from bit offset `at` on begin with `s`. */
  ghost predicate StreamAt(data: seq<byte>, at: nat, s: seq<bool>) {
    at + |s| <= 8 * |data| && forall i :: 0 <= i < |s| ==> s[i] == BitAt(data, at + i)
  }

  lemma StreamAtDrop(data: seq<byte>, at: nat, s: seq<bool>, n: nat)
    requires StreamAt(data, at, s) && n <= |s|
    ensures StreamAt(data, at + n, s[n..])
  {
    forall i | 0 <= i < |s| - n
      ensures s[n..][i] == BitAt(data, at + n + i)
    {
      assert s[n + i] == BitAt(data, at + (n + i));
    }
  }

  lemma StreamAtPrefix(data: seq<byte>, n: nat, s: seq<bool>)
    requires n <= |data| && StreamAt(data[..n], 0, s)
    ensures StreamAt(data, 0, s)
  {
  }

  lemma StreamAtHead(data: seq<byte>, at: nat, s: seq<bool>, i: nat)
    requires StreamAt(data, at, s) && i < |s|
    ensures s[i] == BitAt(data, at + i)
  {
  }

  lemma AppendSym(syms: seq<bool>, b: byte, i: nat)
    requires |syms| % 8 == 0 && i < 8
    ensures (|syms| + i) % 8 == i
    ensures (syms + ByteSyms(b))[..|syms| + i] + [SymOf(b, i)] == (syms + ByteSyms(b))[..|syms| + i + 1]
  {
  }

  ghost function Extend(done: seq<bool>, iv: Interval): (r: seq<bool>)
    requires iv.Valid() && !iv.Settled()
    ensures r == done + [iv.q >= UPPER] && r + Emitted(Shifted(iv)) == done + Emitted(iv)
  {
    assert done + [iv.q >= UPPER] + Emitted(Shifted(iv)) == done + Emitted(iv);
    done + [iv.q >= UPPER]
  }

  // ----- Whole messages -----

  /** `buf` begins with the compressed form of `data`. */
  ghost predicate Holds(t: Table, buf: seq<byte>, data: seq<byte>)
    requires t.Valid()
  {
    StreamAt(buf, 0, Message(t, data))
  }

  lemma NothingSent(t: Table)
    requires t.Valid()
    ensures SymsOf([]) == [] && Sent(t, []) == [] && After(t, []) == Start
  {
  }

  lemma MessageEnds(t: Table, data: seq<byte>)
    requires t.Valid()
    ensures Message(t, data) == Sent(t, SymsOf(data)) + Drain(After(t, SymsOf(data)).q, REG_SIZE)
  {
    CodeSplits(t, SymsOf(data), []);
    assert SymsOf(data) + [] == SymsOf(data);
  }

  /**
   Compresses as long a prefix of `data` as fits.  `used` and `outpos` are what *sourcelen and
   *dstlen receive.  A destination below four bytes would make the unsigned buflen - reserve wrap.
   */
  method RubinDoCompress(t: Table, data: seq<byte>, out: array<byte>, dstlen: nat)
    returns (ok: bool, used: nat, outpos: nat)
    requires t.Valid() && RESERVE <= 8 * dstlen <= 8 * out.Length
    modifies out
    ensures used <= |data| && outpos <= dstlen && out[dstlen..] == old(out[dstlen..])
    ensures ok <==> outpos < used
    ensures Holds(t, out[..outpos], data[..used])
    ensures used < |data| ==> |Sent(t, SymsOf(data[..used + 1]))| > 8 * dstlen - RESERVE
  {
    hide BitsOf, BitAt, Sent, After, Drain, Code, StreamAt;
    var pp := new PushPull(out, dstlen * 8, 0, RESERVE);
    var rs := new RubinState(t, pp);
    var pos := 0;
    NothingSent(t);
    while pos < |data|
      invariant pos <= |data| && rs.Absorbed(SymsOf(data[..pos])) && Confined(pp.buf, pp.buflen)
    {
      assert data[..pos + 1][..pos] == data[..pos];
      var sent := rs.OutByte(data[pos], SymsOf(data[..pos]));
      if !sent {
        break;
      }
      pos := pos + 1;
    }
    MessageEnds(t, data[..pos]);
    rs.EndRubin();
    outpos := (pp.ofs + 7) / 8;
    WrittenIsStream(out[..], pp.ofs, outpos);
    used, ok := pos, outpos < pos;
  }

  lemma WrittenIsStream(buf: seq<byte>, n: nat, bytes: nat)
    requires n <= 8 * bytes <= 8 * |buf|
    ensures StreamAt(buf[..bytes], 0, BitsOf(buf, n))
  {
    forall i | 0 <= i < n
      ensures BitsOf(buf, n)[i] == BitAt(buf[..bytes], 0 + i)
    {
      BitsOfAt(buf, n, i);
    }
  }

  /** Decompresses a buffer that holds the compressed form of some `destlen` bytes. */
  method RubinDoDecompress(t: Table, buf: array<byte>, srclen: nat, out: array<byte>, destlen: nat,
                           ghost data: seq<byte>)
    requires t.Valid() && srclen <= buf.Length && buf != out
    requires destlen == |data| <= out.Length && Holds(t, buf[..srclen], data)
    modifies out
    ensures out[..destlen] == data && out[destlen..] == old(out[destlen..])
  {
    hide BitsOf, BitAt, Window, Code;
    StreamAtPrefix(buf[..], srclen, Message(t, data));
    var pp := new PushPull(buf, srclen, 0, 0);
    var rs := new RubinState(t, pp);
    rs.InitDecode(Message(t, data));
    var outpos := 0;
    assert data[0..] == data;
    while outpos < destlen
      invariant outpos <= destlen && out[..outpos] == data[..outpos]
      invariant out[destlen..] == old(out[destlen..])
      invariant rs.Now().Valid() && rs.Reading(Code(t, rs.Now(), 8 * outpos, SymsOf(data[outpos..])))
    {
      ghost var left := data[outpos..];
      SymsOfHead(left);
      assert left[1..] == data[outpos + 1..];
      var b := rs.InByte(left[0], SymsOf(left[1..]), 8 * outpos);
      out[outpos] := b;
      outpos := outpos + 1;
    }
  }

  // ----- The dynamic variant, which puts its bit weights in front of the code -----

  /** The number a byte stands for. */
  function Num(b: byte): (n: nat)
    ensures n < 256
  {
    (if Bit(b, 0) then 128 else 0) + (if Bit(b, 1) then 64 else 0) + (if Bit(b, 2) then 32 else 0)
    + (if Bit(b, 3) then 16 else 0) + (if Bit(b, 4) then 8 else 0) + (if Bit(b, 5) then 4 else 0)
    + (if Bit(b, 6) then 2 else 0) + (if Bit(b, 7) then 1 else 0)
  }

  function FromBits(a: bool, b: bool, c: bool, d: bool, e: bool, f: bool, g: bool, h: bool): (r: byte)
    ensures Bit(r, 0) == a && Bit(r, 1) == b && Bit(r, 2) == c && Bit(r, 3) == d
    ensures Bit(r, 4) == e && Bit(r, 5) == f && Bit(r, 6) == g && Bit(r, 7) == h
  {
    (if a then 0x80 else 0) | (if b then 0x40 else 0) | (if c then 0x20 else 0) | (if d then 0x10 else 0)
    | (if e then 0x08 else 0) | (if f then 0x04 else 0) | (if g then 0x02 else 0) | (if h then 0x01 else 0)
  }

  /** The value of a byte put together from its bits. */
  lemma NumFrom(a: bool, b: bool, c: bool, d: bool, e: bool, f: bool, g: bool, h: bool)
    ensures Num(FromBits(a, b, c, d, e, f, g, h)) ==
            (if a then 128 else 0) + (if b then 64 else 0) + (if c then 32 else 0) + (if d then 16 else 0)
            + (if e then 8 else 0) + (if f then 4 else 0) + (if g then 2 else 0) + (if h then 1 else 0)
  {
    hide Bit, FromBits;
  }

  /** The four bits of a number below 16, the highest first. */
  function Nibble(n: nat): (r: (bool, bool, bool, bool))
    requires n < 16
    ensures n == (if r.0 then 8 else 0) + (if r.1 then 4 else 0) + (if r.2 then 2 else 0) + (if r.3 then 1 else 0)
  {
    (n >= 8, n % 8 >= 4, n % 4 >= 2, n % 2 == 1)
  }

  function ToByte(n: nat): (b: byte)
    requires n < 256
    ensures Num(b) == n
  {
    hide FromBits, Nibble, Num;
    var high, low := Nibble(n / 16), Nibble(n % 16);
    NumFrom(high.0, high.1, high.2, high.3, low.0, low.1, low.2, low.3);
    FromBits(high.0, high.1, high.2, high.3, low.0, low.1, low.2, low.3)
  }

  /** histo[v], an unsigned char counter. */
  function Tally(data: seq<byte>, v: nat): nat {
    if data == [] then 0
    else (Tally(data[..|data| - 1], v) + (if Num(data[|data| - 1]) == v then 1 else 0)) % 256
  }

  /** Occurrences of byte values below `n` that have bit `i` set. */
  function Ones(data: seq<byte>, i: nat, n: nat): nat
    requires i < 8 && n <= 256
  {
    hide ToByte, SymOf, Tally;
    if n == 0 then 0
    else Ones(data, i, n - 1) + (if SymOf(ToByte(n - 1), i) then Tally(data, n - 1) else 0)
  }

  function DynWeight(data: seq<byte>, i: nat): (w: nat)
    requires data != [] && i < 8
    ensures 1 <= w <= 255
  {
    hide Ones;
    var w := Ones(data, i, 256) * 256 / |data|;
    if w == 0 then 1 else if w > 255 then 255 else w
  }

  method Histogram(data: seq<byte>) returns (histo: array<nat>)
    ensures fresh(histo) && histo.Length == 256
    ensures forall v :: 0 <= v < 256 ==> histo[v] == Tally(data, v)
  {
    hide Num;
    histo := new nat[256](_ => 0);
    for k := 0 to |data|
      invariant forall v :: 0 <= v < 256 ==> histo[v] == Tally(data[..k], v)
    {
      assert data[..k + 1][..k] == data[..k];
      var v := Num(data[k]);
      histo[v] := (histo[v] + 1) % 256;
    }
    assert data[..|data|] == data;
  }

  method DynWeights(data: seq<byte>) returns (bits: seq<nat>)
    requires data != []
    ensures |bits| == 8 && forall i :: 0 <= i < 8 ==> bits[i] == DynWeight(data, i)
  {
    hide SymOf, Tally, ToByte, Num;
    var histo := Histogram(data);
    bits := [];
    for i := 0 to 8
      invariant |bits| == i && forall j :: 0 <= j < i ==> bits[j] == DynWeight(data, j)
    {
      var sum := 0;
      for n := 0 to 256
        invariant sum == Ones(data, i, n)
      {
        if SymOf(ToByte(n), i) {
          sum := sum + histo[n];
        }
      }
      var w := sum * 256 / |data|;
      bits := bits + [if w == 0 then 1 else if w > 255 then 255 else w];
    }
  }

  function DynTable(head: seq<byte>): (t: Table)
    requires |head| == 8
    ensures t.Valid()
  {
    Table(256, seq(8, i requires 0 <= i < 8 => Num(head[i])))
  }

  method StoreWeights(bits: seq<nat>, head: array<byte>)
    requires |bits| == 8 && head.Length == 8 && forall i :: 0 <= i < 8 ==> bits[i] <= 255
    modifies head
    ensures DynTable(head[..]) == Table(256, bits)
  {
    hide ToByte, Num;
    for i := 0 to 8
      invariant forall j :: 0 <= j < i ==> Num(head[j]) == bits[j]
    {
      head[i] := ToByte(bits[i]);
    }
    assert DynTable(head[..]).bits == bits;
  }

  /** `head` and `body` are the two parts of cpage_out: the weights, and the code from byte 8 on. */
  method DynRubinCompress(data: seq<byte>, head: array<byte>, body: array<byte>, dstlen: nat)
    returns (ok: bool, used: nat, outlen: nat)
    requires data != [] && head.Length == 8 && head != body && dstlen <= 8 + body.Length
    modifies head, body
    ensures ok ==> 8 <= outlen <= dstlen && outlen < used <= |data|
    ensures ok ==> Holds(DynTable(head[..]), body[..outlen - 8], data[..used])
    ensures dstlen <= 12 ==> !ok
  {
    if dstlen <= 12 {
      return false, 0, 0;
    }
    hide Holds, DynWeight, DynTable;
    var bits := DynWeights(data);
    StoreWeights(bits, head);
    var mysrclen, mydstlen;
    ok, mysrclen, mydstlen := RubinDoCompress(Table(256, bits), data, body, dstlen - 8);
    if !ok {
      return false, 0, 0;
    }
    mydstlen := mydstlen + 8;
    if mysrclen <= mydstlen {
      return false, 0, 0;
    }
    return true, mysrclen, mydstlen;
  }

  method DynRubinDecompress(head: array<byte>, body: array<byte>, srclen: nat, out: array<byte>, destlen: nat,
                            ghost data: seq<byte>)
    requires head.Length == 8 && 8 <= srclen <= 8 + body.Length && body != out && head != out
    requires destlen == |data| <= out.Length && Holds(DynTable(head[..]), body[..srclen - 8], data)
    modifies out
    ensures out[..destlen] == data && out[destlen..] == old(out[destlen..])
  {
    var bits := [];
    for c := 0 to 8
      invariant |bits| == c && forall j :: 0 <= j < c ==> bits[j] == Num(head[j])
    {
      bits := bits + [Num(head[c])];
    }
    assert Table(256, bits) == DynTable(head[..]);
    RubinDoDecompress(Table(256, bits), body, srclen - 8, out, destlen, data);
  }

  /** Whatever dynrubin compresses, it gets back. */
  method DynRubinRoundTrip(data: seq<byte>, dstlen: nat) returns (ok: bool, used: nat, outlen: nat, back: seq<byte>)
    requires data != []
    ensures ok ==> outlen < used <= |data| && outlen <= dstlen && back == data[..used]
  {
    var head := new byte[8](_ => 0);
    var body := new byte[dstlen](_ => 0);
    ok, used, outlen := DynRubinCompress(data, head, body, dstlen);
    back := [];
    if ok {
      var page := new byte[used](_ => 0);
      DynRubinDecompress(head, body, outlen, page, used, data[..used]);
      back := page[..used];
    }
  }
}
