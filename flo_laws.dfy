/** What the writer's and the reader's file layouts promise, and that they agree. */
module FloLaws {
  import opened Words
  import opened Float32
  import opened Paths
  import opened FloFormat
  import opened Products

  /** The writer fails exactly on a wrong suffix or a band count other than 2, checked
      in that order; the shape-mismatch error can never be raised. */
  lemma EncodeOutcome(flow: Array3, path: string)
    requires flow.Valid()
    ensures Encode(flow, path).Failure? <==> !HasFloSuffix(path) || flow.bands != 2
    ensures !HasFloSuffix(path) ==> Encode(flow, path) == Failure(WrongSuffix)
    ensures HasFloSuffix(path) && flow.bands != 2 ==> Encode(flow, path) == Failure(BandCount(flow.bands))
    ensures Encode(flow, path) != Failure(ShapeMismatch)
    ensures Encode(flow, path).Success? ==> Encode(flow, path).value == FloBytes(flow.cols, flow.rows, flow.data)
  {
  }

  lemma {:induction false} PayloadAt(width: int, height: int, payload: seq<Word>, i: nat)
    requires i < |payload|
    ensures |FloBytes(width, height, payload)| == 12 + 4 * |payload|
    ensures WordAt(FloBytes(width, height, payload), 12 + 4 * i) == payload[i]
  {
    var header := TagBytes + WordBytes(Int32Bits(width)) + WordBytes(Int32Bits(height));
    assert FloBytes(width, height, payload) == header + WordsBytes(payload);
    WordAtConcat(header, WordsBytes(payload), 4 * i);
    WordsBytesAt(payload, i);
  }

  /** A written file is 12 + 4n bytes long and starts with "PIEH", then width and
      height as int32. */
  lemma HeaderAt(width: int, height: int, payload: seq<Word>)
    ensures |FloBytes(width, height, payload)| == 12 + 4 * |payload|
    ensures FloBytes(width, height, payload)[..4] == TagBytes
    ensures WordAt(FloBytes(width, height, payload), 0) == TagWord
    ensures WordAt(FloBytes(width, height, payload), 4) == Int32Bits(width)
    ensures WordAt(FloBytes(width, height, payload), 8) == Int32Bits(height)
  {
    var b := FloBytes(width, height, payload);
    var wb, hb := WordBytes(Int32Bits(width)), WordBytes(Int32Bits(height));
    assert b == TagBytes + (wb + (hb + WordsBytes(payload)));
    TagBytesAreTagFloat();
    WordAtConcat(TagBytes, wb + (hb + WordsBytes(payload)), 0);
    WordAtConcat(wb, hb + WordsBytes(payload), 0);
    WordBytesRoundTrip(Int32Bits(width));
    assert b == (TagBytes + wb) + (hb + WordsBytes(payload));
    WordAtConcat(TagBytes + wb, hb + WordsBytes(payload), 0);
    WordAtConcat(hb, WordsBytes(payload), 0);
    WordBytesRoundTrip(Int32Bits(height));
  }

  /** Position of word [r, 2c + k] of the writer's (rows, 2 * cols) interleaved array. */
  function PayloadIndex(cols: nat, r: nat, c: nat, k: nat): nat
  {
    Mul(r, 2 * cols) + 2 * c + k
  }

  /** With two bands, element [r, c, k] sits at column 2c + k of a row of 2 * cols words. */
  lemma RowMajorIndex(cols: nat, r: nat, c: nat, k: nat)
    ensures Offset(cols, 2, r, c, k) == PayloadIndex(cols, r, c, k)
  {
    MulByTwo(Mul(r, cols) + c);
    MulDouble(r, cols);
  }

  lemma PairSize(flow: Array3)
    requires flow.Valid() && flow.bands == 2
    ensures |flow.data| == 2 * Mul(flow.rows, flow.cols)
  {
    MulByTwo(Mul(flow.rows, flow.cols));
  }

  lemma PayloadElement(flow: Array3, r: nat, c: nat, k: nat)
    requires flow.Valid() && flow.bands == 2
    requires r < flow.rows && c < flow.cols && k < 2
    ensures && |FloBytes(flow.cols, flow.rows, flow.data)| == 12 + 8 * Mul(flow.rows, flow.cols)
      && PayloadIndex(flow.cols, r, c, k) < 2 * Mul(flow.rows, flow.cols)
      && WordAt(FloBytes(flow.cols, flow.rows, flow.data), 12 + 4 * PayloadIndex(flow.cols, r, c, k))
         == flow.At(r, c, k)
  {
    var j := Offset(flow.cols, flow.bands, r, c, k);
    FlatIndexBound(flow.rows, flow.cols, flow.bands, r, c, k);
    PairSize(flow);
    RowMajorIndex(flow.cols, r, c, k);
    PayloadAt(flow.cols, flow.rows, flow.data, j);
  }

  /** A written payload has 2*W*H words; in payload row r, word 2c holds u[r][c] and
      word 2c+1 holds v[r][c]. */
  lemma PayloadLayout(flow: Array3)
    requires flow.Valid() && flow.bands == 2
    ensures |FloBytes(flow.cols, flow.rows, flow.data)| == 12 + 8 * Mul(flow.rows, flow.cols)
    ensures forall r: nat, c: nat, k: nat
      | r < flow.rows && c < flow.cols && k < 2 ::
      && PayloadIndex(flow.cols, r, c, k) < 2 * Mul(flow.rows, flow.cols)
      && WordAt(FloBytes(flow.cols, flow.rows, flow.data), 12 + 4 * PayloadIndex(flow.cols, r, c, k))
         == flow.At(r, c, k)
  {
    PairSize(flow);
    forall r: nat, c: nat, k: nat
      | r < flow.rows && c < flow.cols && k < 2
      ensures && PayloadIndex(flow.cols, r, c, k) < 2 * Mul(flow.rows, flow.cols)
        && WordAt(FloBytes(flow.cols, flow.rows, flow.data), 12 + 4 * PayloadIndex(flow.cols, r, c, k))
           == flow.At(r, c, k)
    {
      PayloadElement(flow, r, c, k);
    }
  }

  /** The reader succeeds exactly on a regular `.flo` file whose first word is the
      "PIEH" bit pattern and whose width and height are present and non-negative; the
      checks come in the order existence, regular file, suffix, tag. */
  lemma DecodeOutcome(path: string, entry: Entry)
    ensures Decode(path, entry).Success? <==>
      && entry.Regular? && HasFloSuffix(path)
      && |entry.bytes| >= 12 && WordAt(entry.bytes, 0) == TagWord
      && AsInt32(WordAt(entry.bytes, 4)) >= 0 && AsInt32(WordAt(entry.bytes, 8)) >= 0
    ensures entry.Missing? ==> Decode(path, entry) == Failure(NotFound)
    ensures entry.NotRegular? ==> Decode(path, entry) == Failure(NotAFile)
    ensures entry.Regular? && !HasFloSuffix(path) ==> Decode(path, entry) == Failure(WrongSuffix)
    ensures entry.Regular? && HasFloSuffix(path) && |entry.bytes| >= 4 && WordAt(entry.bytes, 0) != TagWord
      ==> Decode(path, entry) == Failure(BadTag(Value(WordAt(entry.bytes, 0))))
    ensures entry.Regular? && HasFloSuffix(path) && |entry.bytes| < 4
      ==> Decode(path, entry) == Failure(MissingValue)
    ensures entry.Regular? && HasFloSuffix(path) && 4 <= |entry.bytes| < 12 && WordAt(entry.bytes, 0) == TagWord
      ==> Decode(path, entry) == Failure(MissingValue)
    ensures entry.Regular? && HasFloSuffix(path) && |entry.bytes| >= 12 && WordAt(entry.bytes, 0) == TagWord
      ==> var w, h := AsInt32(WordAt(entry.bytes, 4)), AsInt32(WordAt(entry.bytes, 8));
          (h < 0 || w < 0 ==> Decode(path, entry) == Failure(NegativeShape(h, w)))
  {
    if entry.Regular? && |entry.bytes| >= 4 {
      TagFloatExact(WordAt(entry.bytes, 0));
    }
  }

  /** The shape and flat contents of a successfully decoded file. */
  lemma DecodeSuccess(path: string, bytes: seq<Byte>)
    requires Decode(path, Regular(bytes)).Success?
    ensures |bytes| >= 12
    ensures var w, h := AsInt32(WordAt(bytes, 4)), AsInt32(WordAt(bytes, 8));
      && w >= 0 && h >= 0
      && Decode(path, Regular(bytes))
         == Success(Array3(h, w, 2, Resize(FromFile(bytes, 12, WrapInt32(Mul(Mul(2, w), h))), Mul(Mul(h, w), 2))))
  {
  }

  /** Element [r, c, k] of the (h, w, 2) array `np.resize` makes of `data`. */
  lemma ResizedAt(data: seq<Word>, h: nat, w: nat, r: nat, c: nat, k: nat)
    requires r < h && c < w && k < 2
    ensures var f := Array3(h, w, 2, Resize(data, Mul(Mul(h, w), 2)));
      && f.Valid()
      && f.At(r, c, k) == if |data| == 0 then 0 else data[Offset(w, 2, r, c, k) % |data|]
  {
    FlatIndexBound(h, w, 2, r, c, k);
  }

  /** A decoded field has shape (height, width, 2) from bytes 8-11 and 4-7; element
      [r, c, k] is word (r*w + c)*2 + k, modulo the number of words read, of the payload
      read from byte 12, or 0 when none could be read. */
  lemma DecodeContents(path: string, bytes: seq<Byte>)
    requires Decode(path, Regular(bytes)).Success?
    ensures |bytes| >= 12
    ensures var f := Decode(path, Regular(bytes)).value;
      var w, h := AsInt32(WordAt(bytes, 4)), AsInt32(WordAt(bytes, 8));
      var data := FromFile(bytes, 12, WrapInt32(Mul(Mul(2, w), h)));
      && f.Valid() && f.rows == h && f.cols == w && f.bands == 2
      && forall r: nat, c: nat, k: nat :: r < f.rows && c < f.cols && k < 2 ==>
           f.At(r, c, k) == if |data| == 0 then 0 else data[Offset(w, 2, r, c, k) % |data|]
  {
    DecodeSuccess(path, bytes);
    var f := Decode(path, Regular(bytes)).value;
    var w: int, h: int := f.cols, f.rows;
    var data := FromFile(bytes, 12, WrapInt32(Mul(Mul(2, w), h)));
    forall r: nat, c: nat, k: nat | r < h && c < w && k < 2
      ensures f.At(r, c, k) == if |data| == 0 then 0 else data[Offset(w, 2, r, c, k) % |data|]
    {
      ResizedAt(data, h, w, r, c, k);
    }
  }

  lemma ModSmall(i: nat, n: nat)
    requires i < n
    ensures i % n == i
  {
  }

  /** `np.resize` to the data's own size changes nothing. */
  lemma ResizeExact(data: seq<Word>, n: nat)
    requires |data| == n
    ensures Resize(data, n) == data
  {
    forall i | 0 <= i < n ensures Resize(data, n)[i] == data[i] {
      ModSmall(i, n);
    }
  }

  /** The element count as the reader computes it (2 * w * h) and as it shapes the
      array (h * w * 2). */
  lemma DoubleProduct(h: nat, w: nat)
    ensures Mul(Mul(2, w), h) == 2 * Mul(h, w) && Mul(Mul(h, w), 2) == 2 * Mul(h, w)
  {
    MulByTwo(w);
    MulByTwo(Mul(h, w));
    MulComm(2 * w, h);
    MulDouble(h, w);
  }

  /** When the file holds the whole payload and 2*w*h fits in an int32, the decoded
      array's row-major contents are exactly the 2*w*h words from byte 12 on. */
  lemma DecodeWholePayload(path: string, bytes: seq<Byte>)
    requires Decode(path, Regular(bytes)).Success?
    requires var w, h := AsInt32(WordAt(bytes, 4)), AsInt32(WordAt(bytes, 8));
      2 * Mul(h, w) < TwoTo31 && |bytes| >= 12 + 8 * Mul(h, w)
    ensures var w, h := AsInt32(WordAt(bytes, 4)), AsInt32(WordAt(bytes, 8));
      Decode(path, Regular(bytes)).value.data == FromFile(bytes, 12, 2 * Mul(h, w))
  {
    DecodeSuccess(path, bytes);
    var w, h := AsInt32(WordAt(bytes, 4)), AsInt32(WordAt(bytes, 8));
    DoubleProduct(h, w);
    var data := FromFile(bytes, 12, 2 * Mul(h, w));
    assert |data| == 2 * Mul(h, w);
    ResizeExact(data, Mul(Mul(h, w), 2));
  }

  /** Reading back what the writer wrote gives the original field, provided width,
      height and the element count 2*W*H fit in an int32. */
  lemma RoundTrip(flow: Array3, path: string)
    requires flow.Valid() && flow.bands == 2 && HasFloSuffix(path)
    requires flow.rows < TwoTo31 && flow.cols < TwoTo31 && 2 * Mul(flow.rows, flow.cols) < TwoTo31
    ensures Encode(flow, path).Success?
    ensures Decode(path, Regular(Encode(flow, path).value)) == Success(flow)
  {
    var b := Encode(flow, path).value;
    var w: int, h: int := flow.cols, flow.rows;
    DoubleProduct(h, w);
    PairSize(flow);
    HeaderAt(w, h, flow.data);
    TagFloatExact(TagWord);
    Int32RoundTrip(w);
    Int32RoundTrip(h);
    var data := FromFile(b, 12, WrapInt32(Mul(Mul(2, w), h)));
    assert data == flow.data by {
      forall i | 0 <= i < |data| ensures data[i] == flow.data[i] {
        PayloadAt(w, h, flow.data, i);
      }
    }
    ResizeExact(data, Mul(Mul(h, w), 2));
  }
}
