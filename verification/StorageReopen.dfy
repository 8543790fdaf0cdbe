/** Files that are opened again. */
module StorageReopen {
  // Rows (apps/antelope/storage-cfs.c) in a file of the Coffee file system (core/cfs/cfs-coffee.c).
  // Coffee does not store the length of a file: when a file is opened again, it ends behind the last byte that is not
  // zero.  For that reason the last byte of a row is changed by ROW_XOR.

  import opened Division
  import opened Storage

  /** The pages of a file, behind the header: the bytes that were written, and zeros. */
  predicate Area(area: seq<Byte>, data: seq<Byte>) {
    data <= area && forall i | |data| <= i < |area| :: area[i] == 0
  }

  /** The end of the file that is found in the area. */
  predicate EndsAt(area: seq<Byte>, end: nat) {
    end <= |area| && (end > 0 ==> area[end - 1] != 0) && forall i | end <= i < |area| :: area[i] == 0
  }

  /** file_end: backwards from the end of the area to a byte that was modified. */
  method FileEnd(area: array<Byte>) returns (end: nat)
    ensures EndsAt(area[..], end)
  {
    end := area.Length;
    while end > 0 && area[end - 1] == 0
      invariant end <= area.Length
      invariant forall i | end <= i < area.Length :: area[i] == 0
    {
      end := end - 1;
    }
  }

  lemma EndIs(area: seq<Byte>, data: seq<Byte>, end: nat)
    requires Area(area, data) && EndsAt(area, end)
    ensures end <= |data|
    ensures end == |data| <==> data == [] || data[|data| - 1] != 0
  {
  }

  /** The stored form of a row ends in zero exactly if the row ends in ROW_XOR, and so never if it ends in zero. */
  lemma StoredZero(row: Row)
    requires row != []
    ensures Veiled(row)[|row| - 1] == 0 <==> row[|row| - 1] == 0xf6
    ensures forall i | 0 <= i < |row| - 1 :: Veiled(row)[i] == row[i]
  {
    var b := row[|row| - 1];
    assert (b ^ ROW_XOR == 0) <==> b == 0xf6;
  }

  /** A file of whole rows that ends with this one. */
  predicate LastRow(data: seq<Byte>, n: nat, row: Row) {
    n > 0 && |row| == n && |data| == RowCount(data, n) * n && |data| >= n && data[|data| - n..] == Veiled(row)
  }

  /** A relation has the same rows when it is opened again if and only if the last byte of its last row is not ROW_XOR. */
  lemma ReopenedIff(area: seq<Byte>, data: seq<Byte>, n: nat, row: Row, end: nat)
    requires Area(area, data) && EndsAt(area, end) && LastRow(data, n, row)
    ensures end <= |data| && (Rows(area[..end], n) == Rows(data, n) <==> row[n - 1] != 0xf6)
  {
    hide Veiled, Rows, RowCount;
    EndIs(area, data, end);
    StoredZero(row);
    assert data[|data| - n..][n - 1] == data[|data| - 1];
    if end == |data| {
      assert area[..end] == data;
    } else {
      FewerRows(data, area[..end], n);
    }
  }

  lemma FewerRows(data: seq<Byte>, less: seq<Byte>, n: nat)
    requires n > 0 && |data| == RowCount(data, n) * n && |less| < |data|
    ensures |Rows(less, n)| < |Rows(data, n)|
  {
    hide RowCount;
    var k, m := RowCount(data, n), RowCount(less, n);
    assert k > 0;
    NotBelow(|less|, n, k - 1, m);
  }

  /** Every row that PutRow has appended is the last one. */
  lemma AppendedIsLast(data: seq<Byte>, n: nat, row: Row)
    requires n > 0 && |row| == n && |data| == RowCount(data, n) * n
    ensures LastRow(data + Veiled(row), n, row)
  {
    hide Veiled;
    AppendAddsRow(data, n, row);
  }
}
