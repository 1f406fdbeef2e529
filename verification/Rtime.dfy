/**
 * The rtime compressor (jffs2/compr_rtime.c).
 *
 * The output is a row of pairs: a byte taken over as it is, and how many bytes after it repeat
 * what followed that byte when it was last seen.  Both sides keep a table of where each byte
 * was last seen, in 16 bits.  A stream of pairs has one meaning, Expanded; the compressor's
 * output means the input it used up, and the decompressor writes out what a stream means.
 */
module Rtime {
  type Byte = b: nat | b < 256

  const WRAP: nat := 0x1_0000

  /** What was put out so far, and where after each byte value it went on last. */
  datatype State = State(out: seq<Byte>, positions: seq<nat>) {
    ghost predicate Ok() {
      |positions| == 256 && forall v :: 0 <= v < 256 ==> positions[v] <= |out|
    }
  }

  /** n bytes are appended, each a copy of the one at `back`, which moves along; they may run into themselves. */
  ghost function Copied(out: seq<Byte>, back: nat, n: nat): (r: seq<Byte>)
    requires back < |out|
    ensures |r| == |out| + n && out <= r
  {
    if n == 0 then out
    else
      var before := Copied(out, back, n - 1);
      before + [before[back + n - 1]]
  }

  ghost function Step(s: State, value: Byte, repeat: Byte): (r: State)
    requires s.Ok()
    ensures r.Ok() && |r.out| == |s.out| + 1 + repeat
  {
    var out := s.out + [value];
    State(Copied(out, s.positions[value], repeat), s.positions[value := |out| % WRAP])
  }

  /** What a stream of pairs stands for. */
  ghost function Expanded(stream: seq<Byte>): (r: State)
    ensures r.Ok()
  {
    if |stream| < 2 then State([], seq(256, i => 0))
    else
      var n := |stream| - 2;
      Step(Expanded(stream[..n]), stream[n], stream[n + 1])
  }

  /** A copy that does not reach its own output is a block of what is there already. */
  lemma {:induction false} CopiedApart(out: seq<Byte>, back: nat, n: nat)
    requires back < |out| && back + n <= |out|
    ensures Copied(out, back, n) == out + out[back..back + n]
  {
    if n > 0 {
      CopiedApart(out, back, n - 1);
    }
  }

  lemma {:induction false} ExpandedPrefix(stream: seq<Byte>, n: nat)
    requires n <= |stream| && n % 2 == 0 && |stream| % 2 == 0
    ensures Expanded(stream[..n]).out <= Expanded(stream).out
    ensures n < |stream| ==> |Expanded(stream[..n]).out| < |Expanded(stream).out|
    decreases |stream|
  {
    if n == |stream| {
      assert stream[..n] == stream;
    } else {
      var m := |stream| - 2;
      ExpandedPrefix(stream[..m], n);
      assert stream[..m][..n] == stream[..n];
    }
  }

  /** Counts the bytes at pos that repeat those at back, at most 255 of them. */
  method Match(data: seq<Byte>, start: nat, from: nat) returns (pos: nat, runlen: Byte)
    requires from < start <= |data|
    ensures start <= pos <= |data| && runlen == pos - start
    ensures Copied(data[..start], from, runlen) == data[..pos]
    ensures pos == |data| || runlen == 255 || data[pos] != data[from + runlen]
  {
    var backpos := from;
    pos, runlen := start, 0;
    while backpos < pos && pos < |data| && data[pos] == data[backpos] && runlen < 255
      invariant backpos == from + runlen && start <= pos <= |data| && runlen == pos - start
      invariant Copied(data[..start], from, runlen) == data[..pos]
      decreases |data| - pos
    {
      assert data[..pos][backpos] == data[pos];
      assert data[..pos + 1] == data[..pos] + [data[pos]];
      backpos, pos, runlen := backpos + 1, pos + 1, runlen + 1;
    }
  }

  lemma ExpandedPair(stream: seq<Byte>, value: Byte, repeat: Byte)
    ensures Expanded(stream + [value, repeat]) == Step(Expanded(stream), value, repeat)
  {
    hide Step;
    var more := stream + [value, repeat];
    assert more[..|more| - 2] == stream;
  }

  /** One pair: a byte, and the run after it. */
  lemma StepMeans(s: State, data: seq<Byte>, pos: nat, value: Byte, runlen: Byte, end: nat)
    requires s.Ok() && pos < end <= |data| && s.out == data[..pos] && value == data[pos]
    requires Copied(data[..pos + 1], s.positions[value], runlen) == data[..end]
    ensures Step(s, value, runlen) == State(data[..end], s.positions[value := (pos + 1) % WRAP])
  {
    hide Copied;
    var out := s.out + [value];
    assert out == data[..pos + 1];
  }

  lemma ExpandedNone()
    ensures Expanded([]) == State([], seq(256, i => 0))
  {
  }

  /** Puts out one pair and moves past the bytes it stands for. */
  method CompressPair(data: seq<Byte>, out: array<Byte>, outpos: nat, at: nat, table: seq<nat>) returns (pos: nat,
                      positions: seq<nat>)
    requires at < |data| && outpos + 2 <= out.Length && State(data[..at], table).Ok()
    modifies out
    ensures at < pos <= |data| &&
            State(data[..pos], positions) == Step(State(data[..at], table), out[outpos], out[outpos + 1])
    ensures out[..outpos] == old(out[..outpos]) && out[outpos + 2..] == old(out[outpos + 2..])
  {
    var value := data[at];
    out[outpos] := value;
    pos := at + 1;
    var backpos := table[value];
    positions := table[value := pos % WRAP];
    var runlen: Byte;
    pos, runlen := Match(data, pos, backpos);
    out[outpos + 1] := runlen;
    StepMeans(State(data[..at], table), data, at, value, runlen, pos);
  }

  method Compress(data: seq<Byte>, out: array<Byte>, dstlen: nat) returns (ok: bool, sourcelen: nat, outlen: nat)
    requires 2 <= dstlen <= out.Length
    modifies out
    ensures outlen % 2 == 0 && outlen <= dstlen && sourcelen <= |data|
    ensures Expanded(out[..outlen]).out == data[..sourcelen]
    ensures sourcelen == |data| || outlen + 2 > dstlen
    ensures ok <==> outlen < sourcelen
    ensures out[dstlen..] == old(out[dstlen..])
  {
    hide Expanded, Step;
    var positions: seq<nat> := seq(256, i => 0);
    var outpos, pos := 0, 0;
    assert out[..0] == [];
    ExpandedNone();
    while pos < |data| && outpos <= dstlen - 2
      invariant outpos % 2 == 0 && outpos <= dstlen && pos <= |data|
      invariant Expanded(out[..outpos]) == State(data[..pos], positions)
      invariant out[dstlen..] == old(out[dstlen..])
      decreases |data| - pos
    {
      ghost var stream, tail := out[..outpos], out[dstlen..];
      pos, positions := CompressPair(data, out, outpos, pos, positions);
      ExpandedPair(stream, out[outpos], out[outpos + 1]);
      assert out[..outpos + 2] == stream + [out[outpos], out[outpos + 1]];
      assert out[dstlen..] == out[outpos + 2..][dstlen - outpos - 2..];
      outpos := outpos + 2;
    }
    return outpos < pos, pos, outpos;
  }

  /** The bytes of a pair's run, one by one where they overlap their source. */
  method Repeat(out: array<Byte>, outpos: nat, from: nat, repeat: nat)
    requires from < outpos && outpos + repeat <= out.Length
    modifies out
    ensures out[..outpos + repeat] == Copied(old(out[..outpos]), from, repeat)
    ensures out[outpos + repeat..] == old(out[outpos + repeat..])
  {
    if from + repeat >= outpos {
      var n := 0;
      while n < repeat
        invariant n <= repeat && out[..outpos + n] == Copied(old(out[..outpos]), from, n)
        invariant out[outpos + repeat..] == old(out[outpos + repeat..])
      {
        out[outpos + n] := out[from + n];
        n := n + 1;
      }
    } else {
      CopiedApart(out[..outpos], from, repeat);
      forall i | outpos <= i < outpos + repeat {
        out[i] := out[from + i - outpos];
      }
    }
  }

  /** Short of the end of what the stream stands for there is another pair. */
  lemma PairLeft(stream: seq<Byte>, pos: nat)
    requires |stream| % 2 == 0 == pos % 2 && pos <= |stream| && |Expanded(stream[..pos]).out| < |Expanded(stream).out|
    ensures pos + 2 <= |stream|
    ensures Expanded(stream[..pos + 2]) == Step(Expanded(stream[..pos]), stream[pos], stream[pos + 1])
    ensures |Expanded(stream[..pos + 2]).out| <= |Expanded(stream).out|
    ensures |Expanded(stream[..pos + 2]).out| == |Expanded(stream).out| ==> pos + 2 == |stream|
  {
    hide Expanded, Step;
    assert stream[..|stream|] == stream;
    assert stream[..pos + 2] == stream[..pos] + [stream[pos], stream[pos + 1]];
    ExpandedPair(stream[..pos], stream[pos], stream[pos + 1]);
    ExpandedPrefix(stream, pos + 2);
  }

  /** Writes out what one pair stands for. */
  method DecompressPair(out: array<Byte>, at: nat, table: seq<nat>, value: Byte, repeat: Byte) returns (outpos: nat,
                        positions: seq<nat>)
    requires at + 1 + repeat <= out.Length && State(out[..at], table).Ok()
    modifies out
    ensures outpos == at + 1 + repeat &&
            State(out[..outpos], positions) == Step(old(State(out[..at], table)), value, repeat)
    ensures out[outpos..] == old(out[outpos..])
  {
    ghost var was, rest := out[..at], out[at + 1 + repeat..];
    out[at] := value;
    outpos := at + 1;
    assert out[..outpos] == was + [value];
    assert out[outpos + repeat..] == rest;
    var backoffs := table[value];
    positions := table[value := outpos % WRAP];
    Repeat(out, outpos, backoffs, repeat);
    outpos := outpos + repeat;
  }

  method Decompress(stream: seq<Byte>, out: array<Byte>, destlen: nat)
    requires |stream| % 2 == 0 && destlen == |Expanded(stream).out| <= out.Length
    modifies out
    ensures out[..destlen] == Expanded(stream).out && out[destlen..] == old(out[destlen..])
  {
    hide Expanded, Step;
    var positions: seq<nat> := seq(256, i => 0);
    var outpos, pos := 0, 0;
    assert stream[..0] == [];
    ExpandedNone();
    ExpandedPrefix(stream, 0);
    while outpos < destlen
      invariant pos % 2 == 0 && pos <= |stream| && outpos <= destlen
      invariant Expanded(stream[..pos]) == State(out[..outpos], positions)
      invariant out[destlen..] == old(out[destlen..])
      invariant outpos == destlen ==> pos == |stream|
      decreases destlen - outpos
    {
      PairLeft(stream, pos);
      outpos, positions := DecompressPair(out, outpos, positions, stream[pos], stream[pos + 1]);
      assert out[destlen..] == out[outpos..][destlen - outpos..];
      pos := pos + 2;
    }
    assert stream[..pos] == stream;
  }

  /** Whatever was compressed comes back, byte for byte, up to where the compressor stopped. */
  method RoundTrip(data: seq<Byte>, dstlen: nat) returns (ok: bool, sourcelen: nat, packed: seq<Byte>,
                   unpacked: seq<Byte>)
    requires 2 <= dstlen
    ensures sourcelen <= |data| && |packed| <= dstlen && unpacked == data[..sourcelen]
    ensures ok <==> |packed| < sourcelen
    ensures sourcelen == |data| || |packed| + 2 > dstlen
  {
    var cpage := new Byte[dstlen];
    var outlen;
    ok, sourcelen, outlen := Compress(data, cpage, dstlen);
    packed := cpage[..outlen];
    var out := new Byte[sourcelen];
    Decompress(packed, out, sourcelen);
    unpacked := out[..];
  }
}
