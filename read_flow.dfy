/** readFlowFile.read: the checks on the path, then successive `np.fromfile` calls that
    advance one file cursor (tag, width, height, payload), then `np.resize`. */
module ReadFlowFile {
  import opened Words
  import opened Float32
  import opened Paths
  import opened Products
  import opened FloFormat

  /** `np.fromfile(file, dtype, count)` with the file positioned at byte `pos`: reads
      whole 4-byte items until `count` are read (all of them when `count` is negative)
      or the file ends, and leaves the cursor after the last item read. */
  method ReadItems(bytes: seq<Byte>, pos: nat, count: int) returns (items: seq<Word>, next: nat)
    requires pos <= |bytes|
    ensures items == FromFile(bytes, pos, count)
    ensures next == pos + 4 * |items| <= |bytes|
  {
    items, next := [], pos;
    while (count < 0 || |items| < count) && next + 4 <= |bytes|
      invariant next == pos + 4 * |items| <= |bytes|
      invariant count >= 0 ==> |items| <= count
      invariant forall i :: 0 <= i < |items| ==> items[i] == WordAt(bytes, pos + 4 * i)
      decreases |bytes| - next
    {
      items := items + [WordAt(bytes, next)];
      next := next + 4;
    }
    var expected := FromFile(bytes, pos, count);
    assert |items| == |expected|;
  }

  /** The array `read(path)` returns, or the exception it raises. */
  method Read(path: string, entry: Entry) returns (r: Result<Array3, FloError>)
    ensures r == Decode(path, entry)
  {
    if entry.Missing? {
      return Failure(NotFound);
    }
    if entry.NotRegular? {
      return Failure(NotAFile);
    }
    if !HasFloSuffix(path) {
      return Failure(WrongSuffix);
    }
    var bytes := entry.bytes;
    var floNumber, pos := ReadItems(bytes, 0, 1);
    if |floNumber| == 0 {
      // indexing the empty array raises IndexError
      assert |bytes| < 4;
      return Failure(MissingValue);
    }
    assert floNumber[0] == WordAt(bytes, 0) && pos == 4;
    if NotEqual(floNumber[0], TagFloat) {
      return Failure(BadTag(Value(floNumber[0])));
    }
    var w, h;
    w, pos := ReadItems(bytes, pos, 1);
    h, pos := ReadItems(bytes, pos, 1);
    if |w| == 0 || |h| == 0 {
      assert |bytes| < 12;
      return Failure(MissingValue);
    }
    assert |bytes| >= 12 && pos == 12;
    assert w[0] == WordAt(bytes, 4) && h[0] == WordAt(bytes, 8);
    var width, height := AsInt32(w[0]), AsInt32(h[0]);
    var data;
    data, pos := ReadItems(bytes, pos, WrapInt32(Mul(Mul(2, width), height)));
    if height < 0 || width < 0 {
      // np.resize refuses negative dimensions
      return Failure(NegativeShape(height, width));
    }
    return Success(Array3(height, width, 2, Resize(data, Mul(Mul(height, width), 2))));
  }
}
