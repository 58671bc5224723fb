/** writeFlowFile.write: validation, then tag, width and height written to the file in
    turn, then the payload through the (height, 2 * width) buffer `tmp` whose even
    columns receive u and odd columns v. */
module WriteFlowFile {
  import opened Words
  import opened Paths
  import opened Products
  import opened FloFormat
  import opened FloLaws

  /** `tmp[:, np.arange(width) * 2 + k] = flow[:, :, k]`: column 2c + k of every row
      receives band k of column c; the columns of the other parity keep their values. */
  method FillBand(tmp: array2<Word>, flow: Array3, k: nat)
    requires flow.Valid() && flow.bands == 2 && k < 2
    requires tmp.Length0 == flow.rows && tmp.Length1 == 2 * flow.cols
    modifies tmp
    ensures forall i, j | 0 <= i < tmp.Length0 && 0 <= j < tmp.Length1 ::
      tmp[i, j] == if j % 2 == k then flow.At(i, j / 2, k) else old(tmp[i, j])
  {
    var i := 0;
    while i < flow.rows
      invariant 0 <= i <= flow.rows
      invariant forall i', j | 0 <= i' < tmp.Length0 && 0 <= j < tmp.Length1 ::
        tmp[i', j] == if i' < i && j % 2 == k then flow.At(i', j / 2, k) else old(tmp[i', j])
    {
      var c := 0;
      while c < flow.cols
        invariant 0 <= c <= flow.cols
        invariant forall i', j | 0 <= i' < tmp.Length0 && 0 <= j < tmp.Length1 ::
          tmp[i', j] == if (i' < i || (i' == i && j < 2 * c)) && j % 2 == k
                        then flow.At(i', j / 2, k) else old(tmp[i', j])
      {
        tmp[i, 2 * c + k] := flow.At(i, c, k);
        c := c + 1;
      }
      i := i + 1;
    }
  }

  /** `tmp.tofile`: the words of a 2-D array in row-major order. */
  method Flatten(tmp: array2<Word>) returns (payload: seq<Word>)
    ensures |payload| == Mul(tmp.Length0, tmp.Length1)
    ensures forall i, j | 0 <= i < tmp.Length0 && 0 <= j < tmp.Length1 ::
      Mul(i, tmp.Length1) + j < |payload| && payload[Mul(i, tmp.Length1) + j] == tmp[i, j]
  {
    var n := tmp.Length1;
    payload := [];
    var i := 0;
    while i < tmp.Length0
      invariant 0 <= i <= tmp.Length0
      invariant |payload| == Mul(i, n)
      invariant forall i', j | 0 <= i' < i && 0 <= j < n ::
        Mul(i', n) + j < |payload| && payload[Mul(i', n) + j] == tmp[i', j]
    {
      var j := 0;
      while j < n
        invariant 0 <= j <= n
        invariant |payload| == Mul(i, n) + j
        invariant forall i', j' | 0 <= i' <= i && 0 <= j' < n && (i' < i || j' < j) ::
          Mul(i', n) + j' < |payload| && payload[Mul(i', n) + j'] == tmp[i', j']
      {
        payload := payload + [tmp[i, j]];
        j := j + 1;
      }
      MulSucc(i, n);
      i := i + 1;
    }
  }

  /** The file `write(flow, path)` leaves behind, or the exception it raises. */
  method Write(flow: Array3, path: string) returns (r: Result<seq<Byte>, FloError>)
    requires flow.Valid()
    ensures r == Encode(flow, path)
  {
    if !HasFloSuffix(path) {
      return Failure(WrongSuffix);
    }
    var height, width, nBands := flow.rows, flow.cols, flow.bands;
    if nBands != 2 {
      return Failure(BandCount(nBands));
    }
    // u = flow[:, :, 0] and v = flow[:, :, 1] are slices of one array
    var uShape, vShape := (height, width), (height, width);
    if uShape != vShape {
      assert false;
    }
    var file := TagBytes;
    file := file + WordBytes(Int32Bits(width));
    file := file + WordBytes(Int32Bits(height));
    var tmp := new Word[height, 2 * width]((_, _) => 0);
    FillBand(tmp, flow, 0);
    FillBand(tmp, flow, 1);
    var payload := Flatten(tmp);
    PayloadIsData(flow, tmp, payload);
    file := file + WordsBytes(payload);
    return Success(file);
  }

  /** The buffer filled with both bands and written row by row is the flow's own
      row-major data. */
  lemma PayloadIsData(flow: Array3, tmp: array2<Word>, payload: seq<Word>)
    requires flow.Valid() && flow.bands == 2
    requires tmp.Length0 == flow.rows && tmp.Length1 == 2 * flow.cols
    requires forall i, j | 0 <= i < tmp.Length0 && 0 <= j < tmp.Length1 ::
      tmp[i, j] == flow.At(i, j / 2, j % 2)
    requires |payload| == Mul(tmp.Length0, tmp.Length1)
    requires forall i, j | 0 <= i < tmp.Length0 && 0 <= j < tmp.Length1 ::
      Mul(i, tmp.Length1) + j < |payload| && payload[Mul(i, tmp.Length1) + j] == tmp[i, j]
    ensures payload == flow.data
  {
    var w := flow.cols;
    MulDouble(flow.rows, w);
    PairSize(flow);
    forall p | 0 <= p < |payload| ensures payload[p] == flow.data[p] {
      var i, j := GridCell(flow.rows, 2 * w, p);
      assert payload[p] == tmp[i, j] == flow.At(i, j / 2, j % 2);
      RowMajorIndex(w, i, j / 2, j % 2);
      assert 2 * (j / 2) + j % 2 == j;
    }
  }
}
