/** Byte strings kept in pieces. */
module Scatter {
  import opened Bytes
  import opened Format
  import opened Sequences

  /** The pieces laid end to end. */
  function Flatten(mem: seq<seq<Byte>>): seq<Byte>
  {
    if mem == [] then [] else Flatten(mem[..|mem| - 1]) + mem[|mem| - 1]
  }

  /** The contents of the buffers, one piece each. */
  ghost function Snapshot(bufs: seq<array<Byte>>): (mem: seq<seq<Byte>>)
    reads bufs
    ensures |mem| == |bufs|
    ensures forall i :: 0 <= i < |bufs| ==> mem[i] == bufs[i][..]
  {
    seq(|bufs|, i requires 0 <= i < |bufs| reads bufs => bufs[i][..])
  }

  /** The global position at which buffer i starts. */
  function Start(bufs: seq<array<Byte>>, i: nat): nat
    requires i <= |bufs|
  {
    if i == 0 then 0 else Start(bufs, i - 1) + bufs[i - 1].Length
  }

  /** One more buffer. */
  lemma AddBuffer(bufs: seq<array<Byte>>, buf: array<Byte>)
    requires Distinct(bufs) && buf !in bufs
    ensures Distinct(bufs + [buf]) && Snapshot(bufs + [buf]) == Snapshot(bufs) + [buf[..]]
  {
  }

  lemma {:induction false} StartMonotone(bufs: seq<array<Byte>>, i: nat, k: nat)
    requires i <= k <= |bufs|
    ensures Start(bufs, i) <= Start(bufs, k)
  {
    if i < k {
      StartMonotone(bufs, i, k - 1);
    }
  }

  lemma {:induction false} StartIsLength(bufs: seq<array<Byte>>, i: nat)
    requires i <= |bufs|
    ensures Start(bufs, i) == |Flatten(Snapshot(bufs)[..i])|
  {
    if i > 0 {
      StartIsLength(bufs, i - 1);
      var m := Snapshot(bufs)[..i];
      assert m[..i - 1] == Snapshot(bufs)[..i - 1];
    }
  }

  lemma {:induction false} FlattenConcat(a: seq<seq<Byte>>, b: seq<seq<Byte>>)
    ensures Flatten(a + b) == Flatten(a) + Flatten(b)
  {
    if b == [] {
      assert a + b == a;
    } else {
      var n := |b| - 1;
      FlattenConcat(a, b[..n]);
      assert (a + b)[..|a + b| - 1] == a + b[..n];
    }
  }

  lemma FlattenSnoc(mem: seq<seq<Byte>>, piece: seq<Byte>)
    ensures Flatten(mem + [piece]) == Flatten(mem) + piece
  {
    assert (mem + [piece])[..|mem|] == mem;
  }

  lemma FlattenAround(mem: seq<seq<Byte>>, i: nat)
    requires i < |mem|
    ensures Flatten(mem) == Flatten(mem[..i]) + mem[i] + Flatten(mem[i + 1..])
  {
    FlattenConcat(mem[..i] + [mem[i]], mem[i + 1..]);
    FlattenSnoc(mem[..i], mem[i]);
    assert mem == (mem[..i] + [mem[i]]) + mem[i + 1..];
  }

  /** The filled prefix is all earlier pieces and the start of the current one. */
  lemma PrefixSplits(mem: seq<seq<Byte>>, i: nat, w: nat, out: seq<Byte>)
    requires i < |mem| && w <= |mem[i]|
    requires out <= Flatten(mem) && |out| == |Flatten(mem[..i])| + w
    ensures out == Flatten(mem[..i]) + mem[i][..w]
  {
    FlattenAround(mem, i);
  }

  /** Bytes put at the end of what is filled extend the flattened prefix, whatever lies behind them. */
  lemma PutExtends(mem: seq<seq<Byte>>, i: nat, row: seq<Byte>, w: nat, bytes: seq<Byte>, out: seq<Byte>)
    requires i < |mem| && |row| == |mem[i]| && w + |bytes| <= |row|
    requires row[..w] == mem[i][..w] && row[w..w + |bytes|] == bytes
    requires out <= Flatten(mem) && |out| == |Flatten(mem[..i])| + w
    ensures out + bytes <= Flatten(mem[i := row])
  {
    var after := mem[i := row];
    FlattenAround(mem, i);
    FlattenAround(after, i);
    assert after[..i] == mem[..i] && after[i + 1..] == mem[i + 1..];
    var head := Flatten(mem[..i]);
    PrefixSplits(mem, i, w, out);
    assert out + bytes == head + row[..w + |bytes|];
  }

  /** What lies behind the first n bytes. */
  function Beyond(all: seq<Byte>, n: nat): seq<Byte>
  {
    if n <= |all| then all[n..] else []
  }

  /** A store into one piece that ends at global position n changes nothing from there on. */
  lemma PutKeepsBeyond(mem: seq<seq<Byte>>, i: nat, row: seq<Byte>, end: nat, n: nat)
    requires i < |mem| && |row| == |mem[i]| && end <= |row| && row[end..] == mem[i][end..]
    requires |Flatten(mem[..i])| + end <= n || |Flatten(mem)| < n
    ensures |Flatten(mem[i := row])| == |Flatten(mem)|
    ensures Beyond(Flatten(mem[i := row]), n) == Beyond(Flatten(mem), n)
  {
    var after := mem[i := row];
    FlattenAround(mem, i);
    FlattenAround(after, i);
    assert after[..i] == mem[..i] && after[i + 1..] == mem[i + 1..];
    SameBeyond(Flatten(mem[..i]), mem[i], row, Flatten(mem[i + 1..]), end, n);
  }

  lemma SameBeyond(head: seq<Byte>, was: seq<Byte>, now: seq<Byte>, tail: seq<Byte>, end: nat, n: nat)
    requires |now| == |was| && end <= |now| && now[end..] == was[end..]
    requires |head| + end <= n || |head| + |was| + |tail| < n
    ensures Beyond(head + now + tail, n) == Beyond(head + was + tail, n)
  {
    if n <= |head| + |was| + |tail| {
      assert head + now + tail == (head + now[..end]) + (now[end..] + tail);
      assert head + was + tail == (head + was[..end]) + (was[end..] + tail);
      var k := n - |head| - end;
      assert (head + now + tail)[n..] == (now[end..] + tail)[k..];
      assert (head + was + tail)[n..] == (was[end..] + tail)[k..];
    }
  }

  /** A slice of one piece is a slice of the whole. */
  lemma PieceIsSlice(mem: seq<seq<Byte>>, i: nat, off: nat, n: nat)
    requires i < |mem| && off + n <= |mem[i]|
    ensures var s := |Flatten(mem[..i])| + off;
            s + n <= |Flatten(mem)| && mem[i][off..off + n] == Flatten(mem)[s..s + n]
  {
    FlattenAround(mem, i);
  }

  /** A copy whose source lies in a finished piece appends that piece's bytes. */
  lemma CopyOfEarlierPiece(mem: seq<seq<Byte>>, out: seq<Byte>, i: nat, off: nat, offset: nat, n: nat)
    requires i < |mem| && off + n <= |mem[i]| && out <= Flatten(mem)
    requires |Flatten(mem[..i])| + off + offset == |out| && 1 <= offset && n <= offset
    ensures CopyBytes(out, offset, n) == out + mem[i][off..off + n]
  {
    PieceIsSlice(mem, i, off, n);
    CopyWithoutOverlap(out, offset, n);
    var s := |Flatten(mem[..i])| + off;
    assert out[s..s + n] == Flatten(mem)[s..s + n];
  }

  /** A copy whose source lies in the current piece is a copy inside that piece. */
  lemma CopyOfCurrentPiece(mem: seq<seq<Byte>>, out: seq<Byte>, i: nat, w: nat, offset: nat, n: nat)
    requires i < |mem| && w <= |mem[i]| && out <= Flatten(mem)
    requires |Flatten(mem[..i])| + w == |out| && 1 <= offset <= w
    ensures CopyBytes(out, offset, n) == out + CopyBytes(mem[i][..w], offset, n)[w..]
  {
    PrefixSplits(mem, i, w, out);
    CopyIgnoresHead(Flatten(mem[..i]), mem[i][..w], offset, n);
  }

  /** All pieces but the last have the given size. */
  ghost predicate Uniform(mem: seq<seq<Byte>>, size: nat)
  {
    forall i :: 0 <= i < |mem| - 1 ==> |mem[i]| == size
  }

  lemma {:induction false} UniformLength(mem: seq<seq<Byte>>, size: nat, i: nat)
    requires i <= |mem| && (i == |mem| > 0 ==> |mem[i - 1]| == size) && Uniform(mem, size)
    ensures |Flatten(mem[..i])| == size * i
  {
    if i > 0 {
      UniformLength(mem, size, i - 1);
      FlattenSnoc(mem[..i - 1], mem[i - 1]);
      assert mem[..i] == mem[..i - 1] + [mem[i - 1]];
    }
  }

  /** In pieces of one block, global position s is found at piece s >> 16, offset s & 65535. */
  lemma PositionInPieces(mem: seq<seq<Byte>>, s: nat)
    requires Uniform(mem, BLOCK_SIZE) && mem != [] && |mem[|mem| - 1]| <= BLOCK_SIZE && s < |Flatten(mem)|
    ensures s / BLOCK_SIZE < |mem| && s % BLOCK_SIZE < |mem[s / BLOCK_SIZE]| && mem[s / BLOCK_SIZE][s % BLOCK_SIZE] == Flatten(mem)[s]
  {
    BlockAndOffset(s);
    PositionAt(mem, s, s / BLOCK_SIZE, s % BLOCK_SIZE);
  }

  lemma PositionAt(mem: seq<seq<Byte>>, s: nat, i: nat, k: nat)
    requires Uniform(mem, BLOCK_SIZE) && mem != [] && |mem[|mem| - 1]| <= BLOCK_SIZE && s < |Flatten(mem)|
    requires s == BLOCK_SIZE * i + k && k < BLOCK_SIZE
    ensures i < |mem| && k < |mem[i]| && mem[i][k] == Flatten(mem)[s]
  {
    hide Flatten;
    var last := |mem| - 1;
    UniformLength(mem, BLOCK_SIZE, last);
    FlattenAround(mem, last);
    assert mem[last + 1..] == [];
    FlattenNothing();
    BlockInRange(s, i, k, last, |mem[last]|);
    UniformLength(mem, BLOCK_SIZE, i);
    PieceIsSlice(mem, i, k, 1);
    assert mem[i][k] == mem[i][k..k + 1][0];
  }

  lemma FlattenNothing()
    ensures Flatten([]) == []
  {
  }

  lemma BlockAndOffset(s: nat)
    ensures s == BLOCK_SIZE * (s / BLOCK_SIZE) + s % BLOCK_SIZE && 0 <= s / BLOCK_SIZE && 0 <= s % BLOCK_SIZE < BLOCK_SIZE
  {
    assert s == 65536 * (s / 65536) + s % 65536;
  }

  lemma BlockInRange(s: nat, i: nat, k: nat, last: nat, size: nat)
    requires s == BLOCK_SIZE * i + k && k < BLOCK_SIZE && s < BLOCK_SIZE * last + size && size <= BLOCK_SIZE
    ensures i <= last && (i == last ==> k < size)
  {
    assert s == 65536 * i + k && s < 65536 * last + size && size <= 65536;
  }
}
