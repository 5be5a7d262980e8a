/** Filling an integer key from a tuple: the key columns are laid out in
    schema order, each at the offset where the previous one ended, after the
    key has been zeroed. Column values come in as a given sequence; reading
    them out of the tuple's storage is not part of this model. */
module IntsKeyLayout {
  import opened Results
  import opened Types
  import opened IntsKey

  datatype LayoutError =
    | UnsupportedColumnType(columnType: TypeId)  // the IndexException of the default case
    | KeyOverflow                                // PL_ASSERT(offset <= key_size_byte)

  /** The integer width a key column of this type is stored with. */
  function ColumnWidth(t: TypeId): Option<Width>
  {
    match t
    case BigInt => Some(W64)
    case Integer => Some(W32)
    case SmallInt => Some(W16)
    case TinyInt => Some(W8)
    case _ => None
  }

  predicate IsIntegral(t: TypeId)
  {
    ColumnWidth(t).Some?
  }

  function KeyWidth(t: TypeId): Width
    requires IsIntegral(t)
  {
    ColumnWidth(t).value
  }

  /** The bytes a column of type t takes in the key (none for a type the
      key cannot store). */
  function WidthBytes(t: TypeId): nat
  {
    if IsIntegral(t) then Size(KeyWidth(t)) else 0
  }

  /** A value as the tuple stores it: an integral column holds a value of
      its own width. */
  predicate Fits(t: TypeId, v: int)
  {
    IsIntegral(t) ==> InSigned(KeyWidth(t), v)
  }

  predicate AllIntegral(schema: seq<TypeId>)
  {
    forall i :: 0 <= i < |schema| ==> IsIntegral(schema[i])
  }

  /** Where column i starts: the sum of the widths of the columns before it. */
  function ColumnOffset(schema: seq<TypeId>, i: nat): nat
    requires i <= |schema|
  {
    if i == 0 then 0 else ColumnOffset(schema, i - 1) + WidthBytes(schema[i - 1])
  }

  lemma {:induction false} ColumnOffsetMonotone(schema: seq<TypeId>, i: nat, j: nat)
    requires i <= j <= |schema|
    ensures ColumnOffset(schema, i) <= ColumnOffset(schema, j)
    decreases j - i
  {
    if i < j {
      ColumnOffsetMonotone(schema, i, j - 1);
    }
  }

  /** SetFromColumn, with the offset it returns being the advanced one, as
      its documentation promises. The source does not bound the write, so
      the column must fit in the key. */
  function SetFromColumn(k: Key, columnType: TypeId, value: int, offset: nat): (r: Result<(Key, nat), LayoutError>)
    requires k.Valid() && Fits(columnType, value)
    requires IsIntegral(columnType) ==> offset + WidthBytes(columnType) <= |k.data|
    ensures r.Ok? <==> IsIntegral(columnType)
    ensures r.Err? ==> r.error == UnsupportedColumnType(columnType)
    ensures r.Ok? ==> r.value.1 == offset + WidthBytes(columnType)
    ensures r.Ok? ==> r.value.0.keySize == k.keySize && r.value.0.Valid()
    ensures r.Ok? ==> GetInteger(r.value.0, KeyWidth(columnType), offset) == value
    ensures r.Ok? ==> r.value.0.data[..offset] == k.data[..offset]
    ensures r.Ok? ==> r.value.0.data[r.value.1..] == k.data[r.value.1..]
  {
    match ColumnWidth(columnType)
    case None => Err(UnsupportedColumnType(columnType))
    case Some(w) =>
      AddGetInteger(k, w, value, offset);
      Ok((AddInteger(k, w, value, offset), offset + Size(w)))
  }

  lemma FieldWithinPrefix(a: Key, b: Key, w: Width, at: nat, prefix: nat)
    requires at + Size(w) <= prefix <= |a.data| && prefix <= |b.data|
    requires a.data[..prefix] == b.data[..prefix]
    ensures Field(a, w, at) == Field(b, w, at)
  {
    var fa, fb := Field(a, w, at), Field(b, w, at);
    forall i | 0 <= i < Size(w)
      ensures fa[i] == fb[i]
    {
      assert fa[i] == a.data[..prefix][at + i];
      assert fb[i] == b.data[..prefix][at + i];
    }
  }

  /** The bytes column type t holding v occupies in the key. */
  function Encoded(t: TypeId, v: int): (s: seq<Byte>)
    requires IsIntegral(t) && Fits(t, v)
    ensures |s| == WidthBytes(t)
  {
    BigEndian(Size(KeyWidth(t)), v + Half(KeyWidth(t)))
  }

  /** Column j of the schema holds values[j], in place. */
  ghost predicate ColumnHolds(key: Key, schema: seq<TypeId>, values: seq<int>, j: nat)
  {
    && j < |schema| && j < |values|
    && IsIntegral(schema[j]) && Fits(schema[j], values[j])
    && ColumnOffset(schema, j) + WidthBytes(schema[j]) <= |key.data|
    && Field(key, KeyWidth(schema[j]), ColumnOffset(schema, j)) == Encoded(schema[j], values[j])
  }

  /** Columns 0..i-1 hold their values in order and the rest of the key is
      still zero. */
  ghost predicate LaidOut(key: Key, schema: seq<TypeId>, values: seq<int>, i: nat)
    requires i <= |schema|
  {
    && ColumnOffset(schema, i) <= |key.data|
    && (forall j :: 0 <= j < i ==> ColumnHolds(key, schema, values, j))
    && AllZero(key.data[ColumnOffset(schema, i)..])
  }

  lemma EarlierColumnsKept(key: Key, next: Key, schema: seq<TypeId>, values: seq<int>, i: nat)
    requires i <= |schema| && ColumnOffset(schema, i) <= |key.data| == |next.data|
    requires next.data[..ColumnOffset(schema, i)] == key.data[..ColumnOffset(schema, i)]
    requires forall j :: 0 <= j < i ==> ColumnHolds(key, schema, values, j)
    ensures forall j :: 0 <= j < i ==> ColumnHolds(next, schema, values, j)
  {
    forall j | 0 <= j < i
      ensures ColumnHolds(next, schema, values, j)
    {
      ColumnKept(key, next, schema, values, i, j);
    }
  }

  /** A column that ends before offset i of the schema survives any change
      beyond that offset. */
  lemma ColumnKept(key: Key, next: Key, schema: seq<TypeId>, values: seq<int>, i: nat, j: nat)
    requires j < i <= |schema| && ColumnOffset(schema, i) <= |key.data| == |next.data|
    requires next.data[..ColumnOffset(schema, i)] == key.data[..ColumnOffset(schema, i)]
    ensures ColumnHolds(key, schema, values, j) ==> ColumnHolds(next, schema, values, j)
  {
    if ColumnHolds(key, schema, values, j) {
      ColumnOffsetMonotone(schema, j + 1, i);
      FieldWithinPrefix(next, key, KeyWidth(schema[j]), ColumnOffset(schema, j), ColumnOffset(schema, i));
    }
  }

  lemma TailStaysZero(key: Key, next: Key, offset: nat, end: nat)
    requires offset <= end <= |key.data| == |next.data|
    requires next.data[end..] == key.data[end..]
    requires AllZero(key.data[offset..])
    ensures AllZero(next.data[end..])
  {
    forall p | end <= p < |key.data|
      ensures key.data[p] == 0
    {
      assert key.data[p] == key.data[offset..][p - offset];
    }
  }

  /** The layout read back through GetInteger. */
  lemma LaidOutReadsBack(key: Key, schema: seq<TypeId>, values: seq<int>)
    requires |schema| == |values|
    requires LaidOut(key, schema, values, |schema|)
    ensures forall j :: 0 <= j < |schema| ==>
      && IsIntegral(schema[j])
      && ColumnOffset(schema, j) + WidthBytes(schema[j]) <= |key.data|
      && GetInteger(key, KeyWidth(schema[j]), ColumnOffset(schema, j)) == values[j]
  {
    forall j | 0 <= j < |schema|
      ensures IsIntegral(schema[j])
      ensures ColumnOffset(schema, j) + WidthBytes(schema[j]) <= |key.data|
      ensures GetInteger(key, KeyWidth(schema[j]), ColumnOffset(schema, j)) == values[j]
    {
      ColumnReadsBack(key, schema, values, j);
    }
  }

  lemma ColumnReadsBack(key: Key, schema: seq<TypeId>, values: seq<int>, j: nat)
    requires ColumnHolds(key, schema, values, j)
    ensures IsIntegral(schema[j])
    ensures ColumnOffset(schema, j) + WidthBytes(schema[j]) <= |key.data|
    ensures GetInteger(key, KeyWidth(schema[j]), ColumnOffset(schema, j)) == values[j]
  {
    var w := KeyWidth(schema[j]);
    var encoded := values[j] + Half(w);
    assert Field(key, w, ColumnOffset(schema, j)) == BigEndian(Size(w), encoded);
    BigEndianRoundTrip(Size(w), encoded);
  }

  /** One step of the column loop: column i is written where column i-1
      ended. */
  function WriteColumn(key: Key, schema: seq<TypeId>, values: seq<int>, i: nat): (next: Key)
    requires key.Valid() && i < |schema| == |values|
    requires LaidOut(key, schema, values, i)
    requires IsIntegral(schema[i]) && Fits(schema[i], values[i])
    requires ColumnOffset(schema, i) + WidthBytes(schema[i]) <= |key.data|
    ensures next.keySize == key.keySize && next.Valid()
    ensures LaidOut(next, schema, values, i + 1)
  {
    WriteColumnLaysOut(key, schema, values, i);
    AddInteger(key, KeyWidth(schema[i]), values[i], ColumnOffset(schema, i))
  }

  /** Writing column i where column i-1 ended extends the layout by one
      column. */
  lemma WriteColumnLaysOut(key: Key, schema: seq<TypeId>, values: seq<int>, i: nat)
    requires key.Valid() && i < |schema| == |values|
    requires LaidOut(key, schema, values, i)
    requires IsIntegral(schema[i]) && Fits(schema[i], values[i])
    requires ColumnOffset(schema, i) + WidthBytes(schema[i]) <= |key.data|
    ensures LaidOut(AddInteger(key, KeyWidth(schema[i]), values[i], ColumnOffset(schema, i)), schema, values, i + 1)
  {
    var next := AddInteger(key, KeyWidth(schema[i]), values[i], ColumnOffset(schema, i));
    WriteKeepsEarlierColumns(key, schema, values, i);
    WriteHoldsColumn(key, schema, values, i);
    WriteKeepsTailZero(key, schema, values, i);
    assert forall j :: 0 <= j < i + 1 ==> ColumnHolds(next, schema, values, j);
  }

  lemma WriteKeepsEarlierColumns(key: Key, schema: seq<TypeId>, values: seq<int>, i: nat)
    requires key.Valid() && i < |schema| == |values|
    requires LaidOut(key, schema, values, i)
    requires IsIntegral(schema[i]) && Fits(schema[i], values[i])
    requires ColumnOffset(schema, i) + WidthBytes(schema[i]) <= |key.data|
    ensures forall j :: 0 <= j < i ==>
      ColumnHolds(AddInteger(key, KeyWidth(schema[i]), values[i], ColumnOffset(schema, i)), schema, values, j)
  {
    var next := AddInteger(key, KeyWidth(schema[i]), values[i], ColumnOffset(schema, i));
    EarlierColumnsKept(key, next, schema, values, i);
  }

  lemma WriteHoldsColumn(key: Key, schema: seq<TypeId>, values: seq<int>, i: nat)
    requires key.Valid() && i < |schema| == |values|
    requires IsIntegral(schema[i]) && Fits(schema[i], values[i])
    requires ColumnOffset(schema, i) + WidthBytes(schema[i]) <= |key.data|
    ensures ColumnHolds(AddInteger(key, KeyWidth(schema[i]), values[i], ColumnOffset(schema, i)), schema, values, i)
  {
  }

  lemma WriteKeepsTailZero(key: Key, schema: seq<TypeId>, values: seq<int>, i: nat)
    requires key.Valid() && i < |schema| == |values|
    requires LaidOut(key, schema, values, i)
    requires IsIntegral(schema[i]) && Fits(schema[i], values[i])
    requires ColumnOffset(schema, i) + WidthBytes(schema[i]) <= |key.data|
    ensures ColumnOffset(schema, i + 1) <= |key.data|
    ensures AllZero(AddInteger(key, KeyWidth(schema[i]), values[i], ColumnOffset(schema, i)).data[ColumnOffset(schema, i + 1)..])
  {
    var w := KeyWidth(schema[i]);
    var at := ColumnOffset(schema, i);
    assert ColumnOffset(schema, i + 1) == at + Size(w);
    TailStaysZero(key, AddInteger(key, w, values[i], at), at, at + Size(w));
  }

  /** On an integral column that fits, SetFromColumn is one layout step:
      it writes the column where WriteColumn does and returns the offset of
      the next column. */
  lemma SetFromColumnWritesColumn(key: Key, schema: seq<TypeId>, values: seq<int>, i: nat)
    requires key.Valid() && i < |schema| == |values|
    requires LaidOut(key, schema, values, i)
    requires IsIntegral(schema[i]) && Fits(schema[i], values[i])
    requires ColumnOffset(schema, i) + WidthBytes(schema[i]) <= |key.data|
    ensures SetFromColumn(key, schema[i], values[i], ColumnOffset(schema, i))
            == Ok((WriteColumn(key, schema, values, i), ColumnOffset(schema, i + 1)))
  {
  }

  /** A column that is not an integer type, or that would end past `len`,
      means the whole schema cannot be laid out in `len` bytes. */
  lemma StopsEarly(schema: seq<TypeId>, i: nat, len: nat)
    requires i < |schema|
    requires !IsIntegral(schema[i]) || ColumnOffset(schema, i) + WidthBytes(schema[i]) > len
    ensures !(AllIntegral(schema) && ColumnOffset(schema, |schema|) <= len)
  {
    if AllIntegral(schema) {
      ColumnOffsetMonotone(schema, i + 1, |schema|);
    }
  }

  /** The column loop of SetFromKey, over a key that has just been zeroed:
      stops at the first column that is not an integer type or that would
      run past the end of the key. */
  method LayOutColumns(zeroed: Key, schema: seq<TypeId>, values: seq<int>) returns (r: Result<Key, LayoutError>)
    requires zeroed.Valid() && AllZero(zeroed.data) && |values| == |schema|
    requires forall i :: 0 <= i < |schema| ==> Fits(schema[i], values[i])
    ensures r.Ok? <==> AllIntegral(schema) && ColumnOffset(schema, |schema|) <= |zeroed.data|
    ensures r.Err? && AllIntegral(schema) ==> r.error == KeyOverflow
    ensures r.Ok? ==> r.value.keySize == zeroed.keySize && r.value.Valid()
    ensures r.Ok? ==> LaidOut(r.value, schema, values, |schema|)
  {
    var key := zeroed;
    var offset := 0;
    var i := 0;
    assert key.data[0..] == key.data;
    while i < |schema|
      invariant 0 <= i <= |schema|
      invariant key.keySize == zeroed.keySize && key.Valid() && |key.data| == |zeroed.data|
      invariant LaidOut(key, schema, values, i)
      invariant offset == ColumnOffset(schema, i)
    {
      if IsIntegral(schema[i]) && offset + WidthBytes(schema[i]) > |key.data| {
        StopsEarly(schema, i, |key.data|);
        return Err(KeyOverflow);
      }
      var step := SetFromColumn(key, schema[i], values[i], offset);
      if step.Err? {
        StopsEarly(schema, i, |key.data|);
        return Err(step.error);
      }
      SetFromColumnWritesColumn(key, schema, values, i);
      key, offset := step.value.0, step.value.1;
      i := i + 1;
    }
    forall j | 0 <= j < |schema|
      ensures IsIntegral(schema[j])
    {
      assert ColumnHolds(key, schema, values, j);
    }
    r := Ok(key);
  }

  /** SetFromKey: zero the key, then write every column of the tuple in
      schema order. Fails on the first column that is not an integer type or
      that would run past the end of the key. */
  method SetFromKey(k: Key, schema: seq<TypeId>, values: seq<int>) returns (r: Result<Key, LayoutError>)
    requires k.Valid() && |values| == |schema|
    requires forall i :: 0 <= i < |schema| ==> Fits(schema[i], values[i])
    ensures r.Ok? <==> AllIntegral(schema) && ColumnOffset(schema, |schema|) <= KeyByteSize(k.keySize)
    ensures r.Err? && AllIntegral(schema) ==> r.error == KeyOverflow
    ensures r.Ok? ==> r.value.keySize == k.keySize && r.value.Valid()
    ensures r.Ok? ==> forall i :: 0 <= i < |schema| ==>
      && ColumnOffset(schema, i) + WidthBytes(schema[i]) <= |r.value.data|
      && GetInteger(r.value, KeyWidth(schema[i]), ColumnOffset(schema, i)) == values[i]
    ensures r.Ok? ==> AllZero(r.value.data[ColumnOffset(schema, |schema|)..])
  {
    var zeroed := ZeroOut(k);
    r := LayOutColumns(zeroed, schema, values);
    if r.Ok? {
      LaidOutReadsBack(r.value, schema, values);
    }
  }

  /** SetFromTuple: like SetFromKey, but key column i takes its value from
      tuple column indices[i]. */
  method SetFromTuple(k: Key, tuple: seq<int>, indices: seq<int>, keySchema: seq<TypeId>)
    returns (r: Result<Key, LayoutError>)
    requires k.Valid() && |indices| == |keySchema|
    requires forall i :: 0 <= i < |indices| ==> 0 <= indices[i] < |tuple|
    requires forall i :: 0 <= i < |indices| ==> Fits(keySchema[i], tuple[indices[i]])
    ensures r.Ok? <==> AllIntegral(keySchema) && ColumnOffset(keySchema, |keySchema|) <= KeyByteSize(k.keySize)
    ensures r.Err? && AllIntegral(keySchema) ==> r.error == KeyOverflow
    ensures r.Ok? ==> r.value.keySize == k.keySize && r.value.Valid()
    ensures r.Ok? ==> forall i :: 0 <= i < |keySchema| ==>
      && ColumnOffset(keySchema, i) + WidthBytes(keySchema[i]) <= |r.value.data|
      && GetInteger(r.value, KeyWidth(keySchema[i]), ColumnOffset(keySchema, i)) == tuple[indices[i]]
    ensures r.Ok? ==> AllZero(r.value.data[ColumnOffset(keySchema, |keySchema|)..])
  {
    var values := seq(|keySchema|, i requires 0 <= i < |keySchema| => tuple[indices[i]]);
    r := SetFromKey(k, keySchema, values);
  }

  // ---------------------------------------------------------------------
  // SetFromColumn as written: it ends in a bare `return;`
  // ---------------------------------------------------------------------

  /** SetFromColumn as the code stands: the key is written, but the offset
      handed back is indeterminate; `indeterminate` stands for it. */
  function SetFromColumnAsWritten(k: Key, columnType: TypeId, value: int, offset: nat, indeterminate: nat)
    : (r: Result<(Key, nat), LayoutError>)
    requires k.Valid() && Fits(columnType, value)
    requires IsIntegral(columnType) ==> offset + WidthBytes(columnType) <= |k.data|
    ensures r.Ok? <==> IsIntegral(columnType)
    ensures r.Ok? ==> r.value.1 == indeterminate
    ensures r.Ok? ==> r.value.0.keySize == k.keySize && r.value.0.Valid()
    ensures r.Ok? ==> GetInteger(r.value.0, KeyWidth(columnType), offset) == value
  {
    match SetFromColumn(k, columnType, value, offset)
    case Err(e) => Err(e)
    case Ok((written, _)) => Ok((written, indeterminate))
  }

  /** The column loop of SetFromKey driven by the as-written SetFromColumn. */
  function LayOutAsWritten(key: Key, schema: seq<TypeId>, values: seq<int>, offset: nat, indeterminate: nat)
    : (r: Result<Key, LayoutError>)
    requires key.Valid() && |values| == |schema|
    requires forall i :: 0 <= i < |schema| ==> Fits(schema[i], values[i])
    ensures r.Ok? ==> r.value.keySize == key.keySize && r.value.Valid()
    ensures !AllIntegral(schema) ==> r.Err?
    ensures r.Err? && AllIntegral(schema) ==> r.error == KeyOverflow
    decreases |schema|
  {
    if |schema| == 0 then Ok(key)
    else if IsIntegral(schema[0]) && offset + WidthBytes(schema[0]) > |key.data| then Err(KeyOverflow)
    else
      match SetFromColumnAsWritten(key, schema[0], values[0], offset, indeterminate)
      case Err(e) => Err(e)
      case Ok((written, next)) =>
        assert written.Valid();
        IntegralTail(schema);
        if next > |written.data| then Err(KeyOverflow)
        else LayOutAsWritten(written, schema[1..], values[1..], next, indeterminate)
  }

  /** An integral head followed by an integral tail is an integral schema. */
  lemma IntegralTail(schema: seq<TypeId>)
    requires |schema| > 0 && IsIntegral(schema[0])
    ensures AllIntegral(schema[1..]) ==> AllIntegral(schema)
  {
    if AllIntegral(schema[1..]) {
      forall i | 0 < i < |schema|
        ensures IsIntegral(schema[i])
      {
        assert schema[i] == schema[1..][i - 1];
      }
    }
  }

  /** SetFromKey driven by the as-written SetFromColumn. */
  function SetFromKeyAsWritten(k: Key, schema: seq<TypeId>, values: seq<int>, indeterminate: nat)
    : (r: Result<Key, LayoutError>)
    requires k.Valid() && |values| == |schema|
    requires forall i :: 0 <= i < |schema| ==> Fits(schema[i], values[i])
    ensures r.Ok? ==> r.value.keySize == k.keySize && r.value.Valid()
    ensures !AllIntegral(schema) ==> r.Err?
    ensures r.Err? && AllIntegral(schema) ==> r.error == KeyOverflow
  {
    LayOutAsWritten(ZeroOut(k), schema, values, 0, indeterminate)
  }

  /** One column of the as-written loop: the column is written at the
      current offset and the loop continues at the indeterminate one. */
  lemma LayOutAsWrittenUnfold(key: Key, schema: seq<TypeId>, values: seq<int>, offset: nat, indeterminate: nat)
    requires key.Valid() && |values| == |schema| > 0
    requires forall i :: 0 <= i < |schema| ==> Fits(schema[i], values[i])
    requires IsIntegral(schema[0]) && offset + WidthBytes(schema[0]) <= |key.data|
    requires indeterminate <= |key.data|
    ensures LayOutAsWritten(key, schema, values, offset, indeterminate)
         == LayOutAsWritten(AddInteger(key, KeyWidth(schema[0]), values[0], offset), schema[1..], values[1..],
                            indeterminate, indeterminate)
  {
  }

  /** The loop asserts the offset each column hands back: an indeterminate
      offset past the end of the key stops it even after the last column. */
  lemma AsWrittenChecksReturnedOffset(k: Key, a: int, indeterminate: nat)
    requires k.Valid() && k.keySize >= 1 && InSigned(W32, a)
    requires indeterminate > KeyByteSize(k.keySize)
    ensures SetFromKeyAsWritten(k, [Integer], [a], indeterminate) == Err(KeyOverflow)
  {
    assert |ZeroOut(k).data| >= 8;
  }

  /** With the indeterminate offset happening to be 0, both INTEGER
      columns are written at offset 0, the second over the first. */
  lemma AsWrittenTwoIntegers(k: Key, a: int, b: int)
    requires k.Valid() && k.keySize >= 1 && InSigned(W32, a) && InSigned(W32, b)
    ensures |ZeroOut(k).data| >= 8
    ensures SetFromKeyAsWritten(k, [Integer, Integer], [a, b], 0)
         == Ok(AddInteger(AddInteger(ZeroOut(k), W32, a, 0), W32, b, 0))
  {
    var z := ZeroOut(k);
    assert |z.data| >= 8;
    LayOutAsWrittenUnfold(z, [Integer, Integer], [a, b], 0, 0);
    var k1 := AddInteger(z, W32, a, 0);
    assert [Integer, Integer][1..] == [Integer] && [a, b][1..] == [b];
    LayOutAsWrittenUnfold(k1, [Integer], [b], 0, 0);
    var k2 := AddInteger(k1, W32, b, 0);
    assert LayOutAsWritten(k2, [], [], 0, 0) == Ok(k2);
  }

  /** With the indeterminate offset happening to be 0, a key built from two
      INTEGER columns holding a and b reads back b in its first column: the
      second column has overwritten the first, so for a != b the round trip
      that SetFromKey promises fails. */
  lemma SetFromKeyAsWrittenOverwrites(k: Key, a: int, b: int)
    requires k.Valid() && k.keySize >= 1 && InSigned(W32, a) && InSigned(W32, b)
    ensures var r := SetFromKeyAsWritten(k, [Integer, Integer], [a, b], 0);
            r.Ok? && GetInteger(r.value, W32, 0) == b
    ensures a != b ==> GetInteger(SetFromKeyAsWritten(k, [Integer, Integer], [a, b], 0).value, W32, 0) != a
  {
    AsWrittenTwoIntegers(k, a, b);
    AddGetInteger(AddInteger(ZeroOut(k), W32, a, 0), W32, b, 0);
  }
}
