/** The `.flo` file as readFlowFile.py and writeFlowFile.py produce and consume it:
    what `write` puts in a file and what `read` makes of one, stated as functions on
    byte sequences. */
module FloFormat {
  import opened Words
  import opened Float32
  import opened Paths
  import opened Products

  datatype Result<T, E> = Success(value: T) | Failure(error: E)

  /** The exceptions the two codec functions raise. */
  datatype FloError =
    | NotFound                              // FileNotFoundError: path does not exist
    | NotAFile                              // path exists but is not a regular file
    | WrongSuffix                           // suffix is not ".flo"
    | MissingValue                          // IndexError: tag, width or height absent
    | BadTag(tag: F32)                      // ValueError: tag is not TAG_FLOAT
    | NegativeShape(height: int, width: int) // ValueError from np.resize
    | BandCount(bands: nat)                 // ValueError: third dimension is not 2
    | ShapeMismatch                         // ValueError: u and v shapes differ

  /** What the file system holds at a path. */
  datatype Entry = Missing | NotRegular | Regular(bytes: seq<Byte>)

  /** A numpy array of shape (rows, cols, bands), row-major, holding float32 words:
      element [r, c, k] is data[(r * cols + c) * bands + k]. */
  datatype Array3 = Array3(rows: nat, cols: nat, bands: nat, data: seq<Word>)
  {
    predicate Valid()
    {
      |data| == Mul(Mul(rows, cols), bands)
    }

    /** Element [r, c, k]. */
    function At(r: nat, c: nat, k: nat): Word
      requires Valid() && r < rows && c < cols && k < bands
    {
      FlatIndexBound(rows, cols, bands, r, c, k);
      data[Offset(cols, bands, r, c, k)]
    }
  }

  /** Position of element [r, c, k] in row-major data with `cols` columns and `bands`
      bands: (r * cols + c) * bands + k. */
  function Offset(cols: nat, bands: nat, r: nat, c: nat, k: nat): nat
  {
    Mul(Mul(r, cols) + c, bands) + k
  }

  lemma FlatIndexBound(rows: nat, cols: nat, bands: nat, r: nat, c: nat, k: nat)
    requires r < rows && c < cols && k < bands
    ensures Offset(cols, bands, r, c, k) < Mul(Mul(rows, cols), bands)
  {
    GridIndex(rows, cols, r, c);
    GridIndex(Mul(rows, cols), bands, Mul(r, cols) + c, k);
  }

  /** `TAG_STRING = b"PIEH"`. */
  const TagBytes: seq<Byte> := [0x50, 0x49, 0x45, 0x48]

  lemma TagBytesAreTagFloat()
    ensures WordAt(TagBytes, 0) == TagWord
    ensures Value(WordAt(TagBytes, 0)) == Finite(TagFloat)
  {
    TagWordValue();
  }

  /** Tag, width and height as int32, then the payload words. */
  function FloBytes(width: int, height: int, payload: seq<Word>): seq<Byte>
  {
    TagBytes + WordBytes(Int32Bits(width)) + WordBytes(Int32Bits(height)) + WordsBytes(payload)
  }

  /** The file `write(flow, path)` leaves behind, or the exception it raises first. */
  function Encode(flow: Array3, path: string): (r: Result<seq<Byte>, FloError>)
    requires flow.Valid()
    ensures r.Success? ==> HasFloSuffix(path) && flow.bands == 2
    ensures r.Success? ==> |r.value| == 12 + 4 * |flow.data|
    ensures r.Failure? ==> r.error == WrongSuffix || r.error == BandCount(flow.bands)
  {
    if !HasFloSuffix(path) then Failure(WrongSuffix)
    else if flow.bands != 2 then Failure(BandCount(flow.bands))
    else
      // u = flow[:, :, 0] and v = flow[:, :, 1] both have shape (rows, cols)
      var uShape, vShape := (flow.rows, flow.cols), (flow.rows, flow.cols);
      if uShape != vShape then Failure(ShapeMismatch)
      else Success(FloBytes(flow.cols, flow.rows, flow.data))
  }

  /** `np.fromfile(file, dtype, count)` on a binary file positioned at `pos`: as many
      whole 4-byte items as are requested and available; a negative count reads all. */
  function FromFile(bytes: seq<Byte>, pos: nat, count: int): (ws: seq<Word>)
    requires pos <= |bytes|
    ensures |ws| == if 0 <= count <= (|bytes| - pos) / 4 then count else (|bytes| - pos) / 4
    ensures forall i :: 0 <= i < |ws| ==> ws[i] == WordAt(bytes, pos + 4 * i)
  {
    var available := (|bytes| - pos) / 4;
    var n := if 0 <= count <= available then count else available;
    seq(n, i requires 0 <= i < n => WordAt(bytes, pos + 4 * i))
  }

  /** `np.resize(data, shape)` flattened: zeros when there is no data, otherwise the
      data repeated cyclically up to `n` items. */
  function Resize(data: seq<Word>, n: nat): (r: seq<Word>)
    ensures |r| == n
  {
    if |data| == 0 then seq(n, _ => 0)
    else seq(n, i requires 0 <= i < n => data[i % |data|])
  }

  /** The result of `read(path)`, or the exception it raises first. */
  function Decode(path: string, entry: Entry): (r: Result<Array3, FloError>)
    ensures r.Success? ==> entry.Regular? && HasFloSuffix(path)
    ensures r.Success? ==> r.value.Valid() && r.value.bands == 2
  {
    match entry
    case Missing => Failure(NotFound)
    case NotRegular => Failure(NotAFile)
    case Regular(bytes) =>
      if !HasFloSuffix(path) then Failure(WrongSuffix)
      else if |bytes| < 4 then Failure(MissingValue)
      else if NotEqual(WordAt(bytes, 0), TagFloat) then Failure(BadTag(Value(WordAt(bytes, 0))))
      else if |bytes| < 12 then Failure(MissingValue)
      else
        var w := AsInt32(WordAt(bytes, 4));
        var h := AsInt32(WordAt(bytes, 8));
        // 2 * w[0] * h[0] is evaluated in int32 arithmetic
        var data := FromFile(bytes, 12, WrapInt32(Mul(Mul(2, w), h)));
        if h < 0 || w < 0 then Failure(NegativeShape(h, w))
        else Success(Array3(h, w, 2, Resize(data, Mul(Mul(h, w), 2))))
  }
}
