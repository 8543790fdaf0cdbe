/** Row storage (apps/antelope/storage-cfs.c): fixed-length rows appended to a file.  The last byte of a
  * row is stored XORed with ROW_XOR so that it is never zero by accident. */
module Storage {
  import opened Division

  type Byte = bv8
  type Row = seq<Byte>

  const ROW_XOR: Byte := 0xf6

  datatype Result = OK | FINISHED | GOT_ROW | STORAGE_ERROR | INDEX_ERROR | IMPLEMENTATION_ERROR

  /** The stored form of a row; the same function reads it back. */
  function Veiled(row: Row): (r: Row)
    ensures |r| == |row|
  {
    if row == [] then [] else row[..|row| - 1] + [row[|row| - 1] ^ ROW_XOR]
  }

  lemma VeiledTwice(row: Row)
    ensures Veiled(Veiled(row)) == row
  {
    if row != [] {
      var b := row[|row| - 1];
      assert (b ^ ROW_XOR) ^ ROW_XOR == b;
    }
  }

  /** The number in the bytes of an attribute: big-endian, unsigned. */
  function Decoded(b: seq<Byte>): (x: nat) {
    if b == [] then 0 else Decoded(b[..|b| - 1]) * 256 + b[|b| - 1] as nat
  }

  /** The bytes of stored row i. */
  function Slice(data: seq<Byte>, n: nat, i: nat): (r: Row)
    requires (i + 1) * n <= |data|
    ensures |r| == n
  {
    assert i * n + n == (i + 1) * n;
    data[i * n..i * n + n]
  }

  function RowAt(data: seq<Byte>, n: nat, i: nat): (r: Row)
    requires (i + 1) * n <= |data|
    ensures |r| == n
  {
    Veiled(Slice(data, n, i))
  }

  function RowCount(data: seq<Byte>, n: nat): (k: nat)
    ensures n > 0 ==> k * n <= |data| < (k + 1) * n
    ensures n == 0 ==> k == 0
  {
    if n == 0 then 0 else |data| / n
  }

  lemma InRange(size: nat, n: nat, k: nat, i: nat)
    requires k * n <= size && i < k
    ensures (i + 1) * n <= size
  {
    assert (i + 1) * n <= k * n;
  }

  /** The rows of a file, in order. */
  function Rows(data: seq<Byte>, n: nat): (rows: seq<Row>)
    ensures |rows| == RowCount(data, n)
    ensures forall i | 0 <= i < |rows| :: |rows[i]| == n
  {
    seq(RowCount(data, n), i requires 0 <= i < RowCount(data, n) => (InRange(|data|, n, RowCount(data, n), i); RowAt(data, n, i)))
  }

  lemma SliceOfPrefix(data: seq<Byte>, more: seq<Byte>, n: nat, i: nat)
    requires (i + 1) * n <= |data|
    ensures Slice(data + more, n, i) == Slice(data, n, i)
  {
    assert i * n + n == (i + 1) * n;
  }

  lemma CountAfterAppend(size: nat, n: nat, k: nat)
    requires n > 0 && size == k * n
    ensures (size + n) / n == k + 1 && size + n == (k + 1) * n
  {
    assert (k + 1) * n == k * n + n && (k + 2) * n == k * n + n + n;
    QuotientIs(size + n, n, k + 1);
  }

  lemma LastSlice(data: seq<Byte>, last: Row, n: nat, k: nat)
    requires |last| == n && |data| == k * n && (k + 1) * n <= |data + last|
    ensures Slice(data + last, n, k) == last
  {
    assert (k + 1) * n == k * n + n;
  }

  /** Appending a stored row to a file of whole rows appends that row, byte for byte. */
  lemma AppendAddsRow(data: seq<Byte>, n: nat, row: Row)
    requires n > 0 && |row| == n && |data| == RowCount(data, n) * n
    ensures Rows(data + Veiled(row), n) == Rows(data, n) + [row]
    ensures |data + Veiled(row)| == RowCount(data + Veiled(row), n) * n
  {
    hide Veiled, Slice;
    var k := RowCount(data, n);
    var after := data + Veiled(row);
    CountAfterAppend(|data|, n, k);
    forall i | 0 <= i < k + 1
      ensures Rows(after, n)[i] == (Rows(data, n) + [row])[i]
    {
      InRange(|after|, n, k + 1, i);
      if i < k {
        InRange(|data|, n, k, i);
        SliceOfPrefix(data, Veiled(row), n, i);
      } else {
        LastSlice(data, Veiled(row), n, k);
        VeiledTwice(row);
      }
    }
  }

  class TupleFile {
    var data: seq<Byte>
    const rowLength: nat

    constructor (n: nat)
      ensures data == [] && rowLength == n
    {
      data, rowLength := [], n;
    }

    method GetRowAmount() returns (amount: nat)
      ensures amount == RowCount(data, rowLength)
    {
      amount := if rowLength == 0 then 0 else |data| / rowLength;
    }

    /** Reads row `id` into the buffer. */
    method GetRow(id: nat, row: array<Byte>) returns (result: Result)
      requires row.Length == rowLength
      modifies row
      ensures result == if id < |Rows(data, rowLength)| then OK else FINISHED
      ensures row[..] == if result == OK then Rows(data, rowLength)[id] else old(row[..])
    {
      var nrows := GetRowAmount();
      if id >= nrows {
        return FINISHED;
      }
      InRange(|data|, rowLength, nrows, id);
      assert id * rowLength + rowLength == (id + 1) * rowLength;
      forall i | 0 <= i < rowLength {
        row[i] := data[id * rowLength + i];
      }
      assert row[..] == Slice(data, rowLength, id);
      row[rowLength - 1] := row[rowLength - 1] ^ ROW_XOR;
      assert row[..] == RowAt(data, rowLength, id);
      result := OK;
    }

    /** One cfs_write: it takes some of the bytes, or fails. */
    method Write(bytes: seq<Byte>) returns (r: int)
      requires bytes != []
      modifies this
      ensures r == -1 || 1 <= r <= |bytes|
      ensures data == if r == -1 then old(data) else old(data) + bytes[..r]
    {
      r := *;
      if 1 <= r <= |bytes| {
        data := data + bytes[..r];
      } else {
        r := -1;
      }
    }

    /** Appends the row, in as many writes as it takes; the row buffer itself is unchanged afterwards in
      * either case. */
    method PutRow(row: array<Byte>) returns (result: Result)
      requires row.Length == rowLength > 0
      modifies this, row
      ensures row[..] == old(row[..])
      ensures result == OK || result == STORAGE_ERROR
      ensures result == OK ==> data == old(data) + Veiled(row[..])
      ensures old(data) <= data <= old(data) + Veiled(row[..])
    {
      hide Veiled;
      VeiledTwice(row[..]);
      Veil(row);
      result := WriteAll(row[..]);
      Veil(row);
    }

    /** Inverts the last byte of the row in its buffer. */
    method Veil(row: array<Byte>)
      requires row.Length == rowLength > 0
      modifies row
      ensures row[..] == Veiled(old(row[..]))
    {
      row[rowLength - 1] := row[rowLength - 1] ^ ROW_XOR;
    }

    method WriteAll(bytes: seq<Byte>) returns (result: Result)
      modifies this
      ensures result == OK || result == STORAGE_ERROR
      ensures result == OK ==> data == old(data) + bytes
      ensures old(data) <= data <= old(data) + bytes
    {
      var done := 0;
      while done < |bytes|
        invariant 0 <= done <= |bytes|
        invariant data == old(data) + bytes[..done]
      {
        var r := Write(bytes[done..]);
        if r < 0 {
          return STORAGE_ERROR;
        }
        assert bytes[..done + r] == bytes[..done] + bytes[done..][..r];
        done := done + r;
      }
      assert bytes[..done] == bytes;
      result := OK;
    }
  }
}
