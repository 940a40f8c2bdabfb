/** The circular buffers of the JTAG UART driver: n slots, of which the ones from out up to in hold bytes. One slot
    always stays empty, so that out == in means an empty buffer. */
module Ring {

  type Byte = b: nat | b < 256

  // Advancing an index, never more than once round.
  function Wrap(x: nat, n: nat): nat
    requires x < 2 * n
  {
    if x < n then x else x - n
  }

  // It is the source's x % BUF_LEN.
  lemma WrapIsRemainder(x: nat, n: nat)
    requires x < 2 * n
    ensures Wrap(x, n) == x % n
  {
    var q, r := x / n, x % n;
    assert x == q * n + r;
    assert q >= 2 ==> q * n >= 2 * n;
    assert q == 0 || q == 1;
  }

  ghost predicate Indices(buf: seq<Byte>, o: nat, i: nat) {
    o < |buf| && i < |buf| && 2 <= |buf|
  }

  function Contents(buf: seq<Byte>, o: nat, i: nat): (c: seq<Byte>)
    requires Indices(buf, o, i)
    ensures |c| == if o <= i then i - o else |buf| - o + i
  {
    if o <= i then buf[o..i] else buf[o..] + buf[..i]
  }

  // Room in one piece from in upwards: the writer's three cases.
  function Room(n: nat, i: nat, o: nat): nat
    requires i < n && o < n
  {
    if i < o then o - 1 - i else if o > 0 then n - i else n - 1 - i
  }

  // Bytes in one piece from out upwards: the reader's two cases.
  function Piece(n: nat, i: nat, o: nat): nat
    requires i < n && o < n
  {
    if i >= o then i - o else n - o
  }

  // The room computed never exceeds the room there is, stays inside the array, and is zero only when the ring is full.
  lemma RoomIsFree(buf: seq<Byte>, o: nat, i: nat)
    requires Indices(buf, o, i)
    ensures |Contents(buf, o, i)| + Room(|buf|, i, o) <= |buf| - 1
    ensures i + Room(|buf|, i, o) <= |buf|
    ensures Room(|buf|, i, o) == 0 <==> |Contents(buf, o, i)| == |buf| - 1
    ensures i + Room(|buf|, i, o) == |buf| || |Contents(buf, o, i)| + Room(|buf|, i, o) == |buf| - 1
  {
  }

  lemma PieceIsHeld(buf: seq<Byte>, o: nat, i: nat)
    requires Indices(buf, o, i)
    ensures Piece(|buf|, i, o) <= |Contents(buf, o, i)| && o + Piece(|buf|, i, o) <= |buf|
    ensures Piece(|buf|, i, o) == 0 <==> Contents(buf, o, i) == []
    ensures o + Piece(|buf|, i, o) == |buf| || Piece(|buf|, i, o) == |Contents(buf, o, i)|
  {
  }

  // The consumer takes one byte.
  lemma Pop(buf: seq<Byte>, o: nat, i: nat)
    requires Indices(buf, o, i) && o != i
    ensures Contents(buf, o, i) == [buf[o]] + Contents(buf, Wrap(o + 1, |buf|), i)
  {
    if o <= i {
      assert buf[o..i] == [buf[o]] + buf[o + 1..i];
    } else {
      assert buf[o..] == [buf[o]] + buf[o + 1..];
      assert [buf[o]] + buf[o + 1..] + buf[..i] == [buf[o]] + (buf[o + 1..] + buf[..i]);
      if o + 1 == |buf| { assert [buf[o]] + buf[..i] == [buf[o]] + buf[0..i]; }
    }
  }

  // The producer stores one byte and publishes it.
  lemma Push(buf: seq<Byte>, o: nat, i: nat, b: Byte)
    requires Indices(buf, o, i) && Wrap(i + 1, |buf|) != o
    ensures Contents(buf[i := b], o, Wrap(i + 1, |buf|)) == Contents(buf, o, i) + [b]
  {
  }

  // A store into the k-th free slot is invisible until the index moves.
  lemma StoreFree(buf: seq<Byte>, o: nat, i: nat, k: nat, b: Byte)
    requires Indices(buf, o, i) && i + k < |buf| && |Contents(buf, o, i)| + k < |buf|
    ensures Contents(buf[i + k := b], o, i) == Contents(buf, o, i)
  {
  }

  // Publishing n stored bytes appends them.
  lemma Publish(buf: seq<Byte>, o: nat, i: nat, n: nat)
    requires Indices(buf, o, i) && i + n <= |buf| && |Contents(buf, o, i)| + n < |buf|
    ensures Contents(buf, o, Wrap(i + n, |buf|)) == Contents(buf, o, i) + buf[i..i + n]
  {
    if o <= i {
      assert buf[o..i] + buf[i..i + n] == buf[o..i + n];
      if i + n == |buf| { assert buf[o..] + buf[..0] == buf[o..i + n]; }
    } else {
      assert buf[..i] + buf[i..i + n] == buf[..i + n];
      assert buf[o..] + buf[..i] + buf[i..i + n] == buf[o..] + buf[..i + n];
    }
  }

  // Taking n bytes in one piece off the front.
  lemma Drop(buf: seq<Byte>, o: nat, i: nat, n: nat)
    requires Indices(buf, o, i) && o + n <= |buf| && n <= |Contents(buf, o, i)|
    ensures Contents(buf, o, i) == buf[o..o + n] + Contents(buf, Wrap(o + n, |buf|), i)
  {
  }
}
