/**
 Content-addressed chunks: what the chunk library is taken to provide.

 A file is cut into fixed-size chunks; its row is the ordered addresses of those
 chunks and the file's size, and its root commits to exactly that. The hash is a
 parameter wherever it matters; nothing but injectivity is asked of it.
 */
module Chunks {
  import Sets
  import opened Codec

  const CHUNK: nat := 64 * 1024

  type Address = Bytes

  datatype Row = Row(leaves: seq<Address>, size: nat)

  /** A root names a row; two rows that differ at all have different roots. */
  datatype Root = Root(row: Row)

  /** Where a chunk's bytes lie in the file. */
  function RangeStart(position: nat): nat { position * CHUNK }

  function RangeEnd(row: Row, position: nat): nat {
    if (position + 1) * CHUNK < row.size then (position + 1) * CHUNK else row.size
  }

  predicate WellSized(row: Row) {
    row.size <= U64_MAX && |row.leaves| == (row.size + CHUNK - 1) / CHUNK
  }

  /** Chunks of 64 KiB lie end to end; only the last may be shorter, and it ends
      with the file. */
  lemma ChunksTile(row: Row, i: nat)
    requires WellSized(row) && i < |row.leaves|
    ensures RangeStart(i) == 65536 * i && RangeStart(i) < RangeEnd(row, i) <= row.size
    ensures RangeEnd(row, i) == if i + 1 < |row.leaves| then RangeStart(i + 1) else row.size
  {
  }

  ghost predicate Injective(hash: Bytes -> Address) {
    forall a, b :: hash(a) == hash(b) ==> a == b
  }

  /** The row of a file. */
  ghost predicate Describes(row: Row, file: Bytes, hash: Bytes -> Address) {
    && WellSized(row) && row.size == |file|
    && forall i :: 0 <= i < |row.leaves| ==>
         && RangeStart(i) < RangeEnd(row, i) <= |file|
         && row.leaves[i] == hash(file[RangeStart(i)..RangeEnd(row, i)])
  }

  /** A store: chunks by address, and the rows it has been told of. */
  datatype Store = Store(chunks: map<Address, Bytes>, maps: set<Row>) {
    ghost predicate Sound(hash: Bytes -> Address) {
      forall a :: a in chunks ==> hash(chunks[a]) == a
    }

    /** The positions held of a root; of an unknown root, none. */
    function CoverageOf(root: Root): set<nat> {
      if root.row !in maps then {}
      else set i | 0 <= i < |root.row.leaves| && root.row.leaves[i] in chunks
    }
  }

  ghost function Positions(n: nat): set<nat> {
    if n == 0 then {} else Positions(n - 1) + {n - 1}
  }

  lemma {:induction false} PositionsCount(n: nat)
    ensures |Positions(n)| == n
    ensures forall i: nat :: i in Positions(n) <==> i < n
  {
    if n > 0 {
      PositionsCount(n - 1);
    }
  }

  /** A coverage as large as the row is the whole row. */
  lemma FullCount(held: set<nat>, n: nat)
    requires forall i :: i in held ==> i < n
    ensures |held| == n <==> forall i: nat :: i < n ==> i in held
  {
    PositionsCount(n);
    assert held <= Positions(n);
    if i: nat :| i < n && i !in held {
      assert held <= Positions(n) - {i};
      Sets.SmallerSet(held, Positions(n) - {i});
    } else {
      assert held == Positions(n);
    }
  }
}
