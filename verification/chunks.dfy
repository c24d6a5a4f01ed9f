// A byte stream taken out in pieces of whatever sizes the consumer asks for.
module Chunks {
  import opened Words

  /** The piece that a request for `size` bytes gets when `pos` bytes are already gone. */
  function Piece<T>(stream: seq<T>, pos: nat, size: nat): (piece: seq<T>)
    requires pos <= |stream|
    ensures |piece| == Min(size, |stream| - pos)
  {
    stream[pos..pos + Min(size, |stream| - pos)]
  }

  /** All pieces, one request after the other. */
  function Drain<T>(stream: seq<T>, pos: nat, sizes: seq<nat>): seq<T>
    requires pos <= |stream|
    decreases |sizes|
  {
    if sizes == [] then []
    else
      var piece := Piece(stream, pos, sizes[0]);
      piece + Drain(stream, pos + |piece|, sizes[1..])
  }

  function Sum(sizes: seq<nat>): nat {
    if sizes == [] then 0 else sizes[0] + Sum(sizes[1..])
  }

  /** However it is cut, what comes out is the stream itself, up to the total asked for. */
  lemma {:induction false} DrainIsPrefix<T>(stream: seq<T>, pos: nat, sizes: seq<nat>)
    requires pos <= |stream|
    ensures Drain(stream, pos, sizes) == Piece(stream, pos, Sum(sizes))
    decreases |sizes|
  {
    if sizes != [] {
      hide Drain;
      var mid := pos + |Piece(stream, pos, sizes[0])|;
      DrainFirst(stream, pos, sizes);
      DrainIsPrefix(stream, mid, sizes[1..]);
      TwoPieces(stream, pos, sizes[0], Sum(sizes[1..]));
    }
  }

  lemma DrainFirst<T>(stream: seq<T>, pos: nat, sizes: seq<nat>)
    requires pos <= |stream| && sizes != []
    ensures
      var piece := Piece(stream, pos, sizes[0]);
      Drain(stream, pos, sizes) == piece + Drain(stream, pos + |piece|, sizes[1..])
  {}

  lemma DrainNothing<T>(stream: seq<T>, pos: nat, sizes: seq<nat>)
    requires pos <= |stream| && sizes == []
    ensures Drain(stream, pos, sizes) == []
  {}

  /** Taking one piece more. */
  lemma OnePieceMore<T>(stream: seq<T>, pos: nat, out: seq<T>, piece: seq<T>, sizes: seq<nat>, k: nat)
    requires pos <= |stream| && k < |sizes| && piece == Piece(stream, pos, sizes[k])
    ensures out + Drain(stream, pos, sizes[k..]) == out + piece + Drain(stream, pos + |piece|, sizes[k + 1..])
  {
    hide Drain, Piece;
    var rest := sizes[k..];
    assert rest[0] == sizes[k] && rest[1..] == sizes[k + 1..];
    DrainFirst(stream, pos, rest);
    Regroup(out, piece, Drain(stream, pos + |piece|, rest[1..]));
  }

  lemma Regroup<T>(a: seq<T>, b: seq<T>, c: seq<T>)
    ensures a + (b + c) == a + b + c
  {}

  lemma PieceOfRest<T>(stream: seq<T>, pos: nat, size: nat)
    requires pos <= |stream|
    ensures Piece(stream[pos..], 0, size) == Piece(stream, pos, size)
  {}

  lemma TwoPieces<T>(stream: seq<T>, pos: nat, a: nat, b: nat)
    requires pos <= |stream|
    ensures
      var first := Piece(stream, pos, a);
      first + Piece(stream, pos + |first|, b) == Piece(stream, pos, a + b)
  {
    var mid := pos + Min(a, |stream| - pos);
    var end := mid + Min(b, |stream| - mid);
    assert stream[pos..mid] + stream[mid..end] == stream[pos..end];
  }

  lemma {:induction false} SumOfPositive(sizes: seq<nat>)
    requires forall k | 0 <= k < |sizes| :: sizes[k] > 0
    ensures Sum(sizes) >= |sizes|
  {
    if sizes != [] {
      SumOfPositive(sizes[1..]);
    }
  }

  /** Positive requests, as many as the stream has bytes, always drain it. */
  lemma DrainsWhole<T>(stream: seq<T>, sizes: seq<nat>)
    requires forall k | 0 <= k < |sizes| :: sizes[k] > 0
    requires |sizes| >= |stream|
    ensures Drain(stream, 0, sizes) == stream
  {
    SumOfPositive(sizes);
    DrainIsPrefix(stream, 0, sizes);
  }
}
