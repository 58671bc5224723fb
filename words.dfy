/** Little-endian bytes, 32-bit words and int32 casts as numpy's `tofile`/`fromfile`
    use them on a little-endian host. */
module Words {

  type Byte = b: int | 0 <= b < 0x100
  /** A 32-bit machine word: an int32 or a float32 bit pattern. */
  type Word = w: int | 0 <= w < 0x1_0000_0000

  const TwoTo31: int := 0x8000_0000
  const TwoTo32: int := 0x1_0000_0000

  /** The four bytes of `w`, least significant first. */
  function WordBytes(w: Word): (b: seq<Byte>)
    ensures |b| == 4
  {
    var q1 := w / 0x100;
    var q2 := q1 / 0x100;
    [w % 0x100, q1 % 0x100, q2 % 0x100, q2 / 0x100]
  }

  /** The word stored little-endian at byte offset `p`. */
  function WordAt(bytes: seq<Byte>, p: nat): Word
    requires p + 4 <= |bytes|
  {
    bytes[p] as int + 0x100 * bytes[p + 1] as int
      + 0x1_0000 * bytes[p + 2] as int + 0x100_0000 * bytes[p + 3] as int
  }

  /** Reading a word is unaffected by bytes before or after it. */
  lemma WordAtConcat(a: seq<Byte>, b: seq<Byte>, p: nat)
    ensures p + 4 <= |a| ==> WordAt(a + b, p) == WordAt(a, p)
    ensures p + 4 <= |b| ==> WordAt(a + b, |a| + p) == WordAt(b, p)
  {
  }

  lemma WordBytesRoundTrip(w: Word)
    ensures WordAt(WordBytes(w), 0) == w
  {
    var q1 := w / 0x100;
    var q2 := q1 / 0x100;
    assert w == w % 0x100 + 0x100 * q1;
    assert q1 == q1 % 0x100 + 0x100 * q2;
    assert q2 == q2 % 0x100 + 0x100 * (q2 / 0x100);
  }

  /** `np.array(x).astype(np.int32)`: the two's-complement bit pattern of `x` modulo 2^32. */
  function Int32Bits(x: int): (w: Word)
    ensures (x - w) % TwoTo32 == 0
    ensures 0 <= x < TwoTo32 ==> w == x
    ensures -TwoTo31 <= x < TwoTo31 ==> (x < 0 <==> w >= TwoTo31)
  {
    x % TwoTo32
  }

  /** The int32 value whose bit pattern is `w`. */
  function AsInt32(w: Word): (x: int)
    ensures -TwoTo31 <= x < TwoTo31
    ensures Int32Bits(x) == w
  {
    if w < TwoTo31 then w else w - TwoTo32
  }

  /** int32 arithmetic wraps: the int32 congruent to `x` modulo 2^32. */
  function WrapInt32(x: int): (y: int)
    ensures -TwoTo31 <= y < TwoTo31
    ensures (x - y) % TwoTo32 == 0
    ensures -TwoTo31 <= x < TwoTo31 ==> y == x
  {
    var w := Int32Bits(x);
    var k := if w < TwoTo31 then x / TwoTo32 else x / TwoTo32 + 1;
    assert x - AsInt32(w) == TwoTo32 * k;
    AsInt32(w)
  }

  lemma Int32RoundTrip(x: int)
    requires -TwoTo31 <= x < TwoTo31
    ensures AsInt32(Int32Bits(x)) == x
  {
  }

  /** The bytes `tofile` writes for an array of words, in order. */
  function WordsBytes(ws: seq<Word>): (b: seq<Byte>)
    ensures |b| == 4 * |ws|
  {
    if ws == [] then [] else WordBytes(ws[0]) + WordsBytes(ws[1..])
  }

  lemma {:induction false} WordsBytesAt(ws: seq<Word>, i: nat)
    requires i < |ws|
    ensures WordAt(WordsBytes(ws), 4 * i) == ws[i]
  {
    WordBytesRoundTrip(ws[0]);
    if i > 0 {
      WordsBytesAt(ws[1..], i - 1);
      var rest := WordsBytes(ws[1..]);
      assert WordsBytes(ws)[4 * i..4 * i + 4] == rest[4 * (i - 1)..4 * (i - 1) + 4];
    }
  }

  lemma WordsBytesAppend(a: seq<Word>, b: seq<Word>)
    ensures WordsBytes(a + b) == WordsBytes(a) + WordsBytes(b)
  {
    if a != [] {
      assert (a + b)[1..] == a[1..] + b;
      WordsBytesAppend(a[1..], b);
    } else {
      assert a + b == b;
    }
  }
}
