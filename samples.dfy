/** The sample block at the end of a data record, and its conversion into
    the CSV table: a count byte N, N little-endian u16 scale words that become
    the header labels, then rows of N little-endian 32-bit float words, each
    row written with its 0-based index in front. */
module Samples {
  import opened Bytes
  import opened Text
  import opened Stream

  /** `strconv.FormatFloat(float64(v), 'f', -1, 32)` of the float32 whose bits
      are the given word; float numerics are not modelled. */
  type FloatFormat = u32 -> string

  /** What writing the table comes to. */
  datatype Block =
    | Table(records: seq<seq<string>>)  // every record written: the header, then one per row
    | Broken(error: ReadError)          // a read failed part-way
    | Endless(header: seq<string>)      // N = 0 with bytes left: the row loop never ends

  /** `fmt.Sprintf("g2(t, %d)", v)` */
  function Label(v: u16): string
  {
    "g2(t, " + Decimal(v) + ")"
  }

  /** A label is "g2(t, ", the scale's digits and ")", so the scale reads
      back from it and distinct scales have distinct labels. */
  lemma LabelReadsBack(v: u16, w: u16)
    ensures var l := Label(v);
      && |l| >= 8 && l[..6] == "g2(t, " && l[|l| - 1] == ')'
      && AllDigits(l[6..|l| - 1]) && ParseDecimal(l[6..|l| - 1]) == v
    ensures Label(w) == Label(v) ==> w == v
  {
    var d := Decimal(v);
    assert Label(v)[6..|Label(v)| - 1] == d;
    ParseDecimalOfDecimal(v);
    if Label(w) == Label(v) {
      assert Label(w)[6..|Label(w)| - 1] == Decimal(w);
      DecimalInjective(v, w);
    }
  }

  /** The header record: "t", then one label per scale word of `scales`. */
  function Header(scales: seq<byte>, n: nat): (h: seq<string>)
    requires |scales| >= 2 * n
    ensures |h| == n + 1 && h[0] == "t"
  {
    ["t"] + seq(n, j requires 0 <= j < n => Label(U16LE(scales[2 * j..2 * j + 2])))
  }

  /** The record of row `i`, read from the first `4 * n` bytes of `body`. */
  function Row(body: seq<byte>, n: nat, i: nat, fmt: FloatFormat): (r: seq<string>)
    requires |body| >= 4 * n
    ensures |r| == n + 1 && r[0] == Decimal(i)
  {
    [Decimal(i)] + seq(n, j requires 0 <= j < n => fmt(U32LE(body[4 * j..4 * j + 4])))
  }

  /** The records of rows `i`, `i + 1`, ... read from `body` until it is
      exhausted; a row left incomplete fails as its first short word read does. */
  function Rows(body: seq<byte>, n: nat, i: nat, fmt: FloatFormat): Result<seq<seq<string>>>
    requires n > 0
    decreases |body|
  {
    if body == [] then Ok([])
    else if |body| < 4 * n then Err(ShortRead(|body| % 4))
    else
      match Rows(body[4 * n..], n, i + 1, fmt)
      case Ok(rs) => Ok([Row(body, n, i, fmt)] + rs)
      case Err(e) => Err(e)
  }

  /** The table a sample block converts to. */
  function SampleBlock(buf: seq<byte>, fmt: FloatFormat): Block
  {
    if buf == [] then Broken(EOF)
    else
      var n := buf[0] as nat;
      if |buf| < 1 + 2 * n then Broken(ShortRead((|buf| - 1) % 2))
      else
        var header := Header(buf[1..], n);
        var body := buf[1 + 2 * n..];
        if n == 0 then (if body == [] then Table([header]) else Endless(header))
        else Complete([header], Rows(body, n, 0, fmt))
  }

  /** The records written so far, followed by the outcome of the rest. */
  function Complete(records: seq<seq<string>>, rest: Result<seq<seq<string>>>): Block
  {
    match rest
    case Ok(rs) => Table(records + rs)
    case Err(e) => Broken(e)
  }

  /** Rows succeed exactly when the body is a whole number of rows;
      otherwise the error is that of the short read on the incomplete row. */
  lemma {:induction false} RowsOutcome(body: seq<byte>, n: nat, i: nat, fmt: FloatFormat)
    requires n > 0
    ensures Rows(body, n, i, fmt).Ok? <==> |body| % (4 * n) == 0
    ensures Rows(body, n, i, fmt).Err? ==> Rows(body, n, i, fmt).error == ShortRead(|body| % (4 * n) % 4)
    decreases |body|
  {
    var w := 4 * n;
    if body == [] {
      DivModUnique(0, w, 0, 0);
    } else if |body| < w {
      DivModUnique(|body|, w, 0, |body|);
      assert Rows(body, n, i, fmt) == Err(ShortRead(|body| % 4));
    } else {
      var tail := body[w..];
      RowsOutcome(tail, n, i + 1, fmt);
      ShiftMod(|tail|, w);
      assert |body| % w == |tail| % w;
      assert Rows(body, n, i, fmt).Ok? <==> Rows(tail, n, i + 1, fmt).Ok?;
      assert Rows(body, n, i, fmt).Err? ==> Rows(body, n, i, fmt).error == Rows(tail, n, i + 1, fmt).error;
    }
  }

  /** A successful conversion has `|body| / (4 * n)` records, the `k`-th
      being row `i + k` read from the `k`-th group of `4 * n` bytes. */
  lemma RowsRecords(body: seq<byte>, n: nat, i: nat, fmt: FloatFormat)
    requires n > 0 && Rows(body, n, i, fmt).Ok?
    ensures var rs := Rows(body, n, i, fmt).value;
      && |rs| == |body| / (4 * n)
      && forall k :: 0 <= k < |rs| ==>
        4 * n * k + 4 * n <= |body| && rs[k] == Row(body[4 * n * k..], n, i + k, fmt)
  {
    RowsCount(body, n, i, fmt);
    forall k | 0 <= k < |Rows(body, n, i, fmt).value|
      ensures 4 * n * k + 4 * n <= |body| && Rows(body, n, i, fmt).value[k] == Row(body[4 * n * k..], n, i + k, fmt)
    {
      RowsAt(body, n, i, fmt, k);
      OffsetIsProduct(4 * n, k);
    }
  }

  lemma {:induction false} RowsCount(body: seq<byte>, n: nat, i: nat, fmt: FloatFormat)
    requires n > 0 && Rows(body, n, i, fmt).Ok?
    ensures |Rows(body, n, i, fmt).value| == |body| / (4 * n)
    decreases |body|
  {
    var w := 4 * n;
    if body == [] {
      DivModUnique(0, w, 0, 0);
    } else {
      var tail := body[w..];
      RowsCount(tail, n, i + 1, fmt);
      ShiftMod(|tail|, w);
    }
  }

  lemma {:induction false} RowsAt(body: seq<byte>, n: nat, i: nat, fmt: FloatFormat, k: nat)
    requires n > 0 && Rows(body, n, i, fmt).Ok? && k < |Rows(body, n, i, fmt).value|
    ensures Offset(4 * n, k) + 4 * n <= |body|
    ensures Rows(body, n, i, fmt).value[k] == Row(body[Offset(4 * n, k)..], n, i + k, fmt)
    decreases k
  {
    RowsCons(body, n, i, fmt);
    if k > 0 {
      RowsAt(body[4 * n..], n, i + 1, fmt, k - 1);
      RowsShift(body, n, i, fmt, k);
    } else {
      assert Offset(4 * n, 0) == 0 && body[0..] == body;
    }
  }

  /** Row `k` of a body is row `k - 1` of what follows its first row. */
  lemma RowsShift(body: seq<byte>, n: nat, i: nat, fmt: FloatFormat, k: nat)
    requires n > 0 && Rows(body, n, i, fmt).Ok? && 0 < k < |Rows(body, n, i, fmt).value|
    requires |body| >= 4 * n && Rows(body[4 * n..], n, i + 1, fmt).Ok?
    requires Rows(body, n, i, fmt).value == [Row(body, n, i, fmt)] + Rows(body[4 * n..], n, i + 1, fmt).value
    requires Offset(4 * n, k - 1) + 4 * n <= |body[4 * n..]|
    requires Rows(body[4 * n..], n, i + 1, fmt).value[k - 1]
          == Row(body[4 * n..][Offset(4 * n, k - 1)..], n, i + 1 + (k - 1), fmt)
    ensures Offset(4 * n, k) + 4 * n <= |body|
    ensures Rows(body, n, i, fmt).value[k] == Row(body[Offset(4 * n, k)..], n, i + k, fmt)
  {
    var off := Offset(4 * n, k - 1);
    DropDrop(body, 4 * n, off);
    assert Offset(4 * n, k) == 4 * n + off;
  }

  /** `k` groups of `w`, added up one at a time. */
  function Offset(w: nat, k: nat): nat
  {
    if k == 0 then 0 else w + Offset(w, k - 1)
  }

  lemma {:induction false} OffsetIsProduct(w: nat, k: nat)
    ensures Offset(w, k) == w * k
  {
    if k > 0 {
      OffsetIsProduct(w, k - 1);
      MulStep(w, k);
    }
  }

  /** A successful conversion of a non-empty body is its first row and then the rest. */
  lemma RowsCons(body: seq<byte>, n: nat, i: nat, fmt: FloatFormat)
    requires n > 0 && Rows(body, n, i, fmt).Ok? && body != []
    ensures |body| >= 4 * n && Rows(body[4 * n..], n, i + 1, fmt).Ok?
    ensures Rows(body, n, i, fmt).value == [Row(body, n, i, fmt)] + Rows(body[4 * n..], n, i + 1, fmt).value
  {
  }

  lemma DropDrop<T>(s: seq<T>, a: nat, b: nat)
    requires a + b <= |s|
    ensures s[a..][b..] == s[a + b..]
  {
  }

  lemma MulStep(w: nat, k: nat)
    requires k > 0
    ensures w * k == w + w * (k - 1)
  {
  }

  /** Euclidean division has one quotient and one remainder. */
  lemma DivModUnique(a: int, w: int, q: int, r: int)
    requires w > 0 && 0 <= r < w && a == q * w + r
    ensures a / w == q && a % w == r
  {
    var q0, r0 := a / w, a % w;
    assert a == q0 * w + r0;
    if q0 > q {
      assert (q0 - q) * w >= w by { MulAtLeast(q0 - q, w); }
      assert false;
    } else if q0 < q {
      assert (q - q0) * w >= w by { MulAtLeast(q - q0, w); }
      assert false;
    }
  }

  lemma MulAtLeast(k: int, w: int)
    requires k >= 1 && w > 0
    ensures k * w >= w
  {
  }

  lemma ShiftMod(a: nat, w: nat)
    requires w > 0
    ensures (a + w) % w == a % w && (a + w) / w == a / w + 1
  {
    DivModUnique(a + w, w, a / w + 1, a % w);
  }

  /** For N > 0 with every scale word present, the table is written exactly
      when what follows the scales is a whole number of rows: the header of
      "t" and the N labels, then (L - 1 - 2N) / (4N) rows of N + 1 fields
      whose first field is the row index counted from 0. Otherwise the
      conversion fails with the short read of the incomplete row. */
  lemma SampleBlockTable(buf: seq<byte>, fmt: FloatFormat)
    requires buf != [] && buf[0] > 0 && |buf| >= 1 + 2 * buf[0] as nat
    ensures var n, out := buf[0] as nat, SampleBlock(buf, fmt);
      && (out.Table? <==> (|buf| - 1 - 2 * n) % (4 * n) == 0)
      && (out.Table? ==>
        && |out.records| == 1 + (|buf| - 1 - 2 * n) / (4 * n)
        && out.records[0] == Header(buf[1..], n)
        && (forall j :: 0 <= j < n ==> out.records[0][j + 1] == Label(U16LE(buf[1 + 2 * j..3 + 2 * j])))
        && (forall k :: 1 <= k < |out.records| ==> |out.records[k]| == n + 1 && out.records[k][0] == Decimal(k - 1)))
      && (out.Broken? ==> out.error == ShortRead((|buf| - 1 - 2 * n) % (4 * n) % 4))
  {
    var n := buf[0] as nat;
    var body := buf[1 + 2 * n..];
    RowsOutcome(body, n, 0, fmt);
    if Rows(body, n, 0, fmt).Ok? {
      RowsRecords(body, n, 0, fmt);
      var rs := Rows(body, n, 0, fmt).value;
      var out := SampleBlock(buf, fmt);
      assert out.records == [Header(buf[1..], n)] + rs;
      forall k | 1 <= k < |out.records|
        ensures |out.records[k]| == n + 1 && out.records[k][0] == Decimal(k - 1)
      {
        assert out.records[k] == rs[k - 1];
      }
      HeaderLabels(buf, n);
    }
  }

  /** The j-th label of the header is that of the j-th scale word of the block. */
  lemma HeaderLabels(buf: seq<byte>, n: nat)
    requires |buf| >= 1 + 2 * n
    ensures forall j :: 0 <= j < n ==> Header(buf[1..], n)[j + 1] == Label(U16LE(buf[1 + 2 * j..3 + 2 * j]))
  {
    forall j | 0 <= j < n
      ensures Header(buf[1..], n)[j + 1] == Label(U16LE(buf[1 + 2 * j..3 + 2 * j]))
    {
      SliceOfSlice(buf, 1, |buf|, 2 * j, 2 * j + 2);
      assert buf[1..][2 * j..2 * j + 2] == buf[1 + 2 * j..3 + 2 * j];
    }
  }

  /** The three ways a block fails and the one way it never ends: no count
      byte, scale words cut short, an incomplete last row (for N > 0), and
      bytes after the header when N = 0. */
  lemma SampleBlockErrors(buf: seq<byte>, fmt: FloatFormat)
    ensures buf == [] ==> SampleBlock(buf, fmt) == Broken(EOF)
    ensures buf != [] && |buf| < 1 + 2 * buf[0] as nat ==> SampleBlock(buf, fmt) == Broken(ShortRead((|buf| - 1) % 2))
    ensures buf != [] && buf[0] > 0 && |buf| >= 1 + 2 * buf[0] as nat && (|buf| - 1 - 2 * buf[0] as nat) % (4 * buf[0] as nat) != 0
      ==> SampleBlock(buf, fmt).Broken?
    ensures buf != [] && buf[0] == 0 && |buf| > 1 ==> SampleBlock(buf, fmt).Endless?
  {
    if buf != [] && buf[0] > 0 && |buf| >= 1 + 2 * buf[0] as nat {
      SampleBlockTable(buf, fmt);
    }
  }

  // ---------------------------------------------------------------------
  // Writing a block, for the round trip.

  /** `w`-byte little-endian words end to end. */
  function PackWords(ws: seq<nat>, w: nat): (b: seq<byte>)
    ensures |b| == Offset(w, |ws|)
  {
    if ws == [] then [] else ToLE(ws[0], w) + PackWords(ws[1..], w)
  }

  lemma {:induction false} PackWordsAt(ws: seq<nat>, w: nat, k: nat)
    requires k < |ws|
    ensures Offset(w, k) + w <= |PackWords(ws, w)|
    ensures PackWords(ws, w)[Offset(w, k)..Offset(w, k) + w] == ToLE(ws[k], w)
  {
    if k == 0 {
      var b := PackWords(ws, w);
      assert b == ToLE(ws[0], w) + PackWords(ws[1..], w);
      assert Offset(w, 0) == 0;
    } else {
      PackWordsAt(ws[1..], w, k - 1);
      PackWordsShift(ws, w, k);
    }
  }

  /** Word `k` of a packing is word `k - 1` of the packing of the tail. */
  lemma PackWordsShift(ws: seq<nat>, w: nat, k: nat)
    requires 0 < k < |ws|
    requires Offset(w, k - 1) + w <= |PackWords(ws[1..], w)|
    requires PackWords(ws[1..], w)[Offset(w, k - 1)..Offset(w, k - 1) + w] == ToLE(ws[1..][k - 1], w)
    ensures Offset(w, k) + w <= |PackWords(ws, w)|
    ensures PackWords(ws, w)[Offset(w, k)..Offset(w, k) + w] == ToLE(ws[k], w)
  {
    var head, tail := ToLE(ws[0], w), PackWords(ws[1..], w);
    assert PackWords(ws, w) == head + tail;
    var j := Offset(w, k - 1);
    assert Offset(w, k) == w + j;
    assert ws[1..][k - 1] == ws[k];
    SliceAfter(head, tail, j, j + w);
  }

  /** A slice past the first part of a concatenation lies in the second part. */
  lemma SliceAfter<T>(a: seq<T>, b: seq<T>, i: nat, j: nat)
    requires i <= j <= |b|
    ensures (a + b)[|a| + i..|a| + j] == b[i..j]
  {
  }

  /** Rows of words, row after row. */
  function PackRows(rows: seq<seq<u32>>): seq<byte>
  {
    if rows == [] then [] else PackWords(rows[0], 4) + PackRows(rows[1..])
  }

  /** A block of the given scale words and rows of words. */
  function EncodeBlock(scales: seq<u16>, rows: seq<seq<u32>>): seq<byte>
    requires |scales| < 256
  {
    [|scales|] + PackWords(scales, 2) + PackRows(rows)
  }

  /** The header the scale words should give. */
  function Labels(scales: seq<u16>): seq<string>
  {
    ["t"] + seq(|scales|, j requires 0 <= j < |scales| => Label(scales[j]))
  }

  /** The record a row of words should give: its index, then each word rendered. */
  function Record(words: seq<u32>, i: nat, fmt: FloatFormat): seq<string>
  {
    [Decimal(i)] + seq(|words|, j requires 0 <= j < |words| => fmt(words[j]))
  }

  /** The records rows of words should give, numbered from `i`. */
  function Rendered(rows: seq<seq<u32>>, i: nat, fmt: FloatFormat): seq<seq<string>>
  {
    if rows == [] then [] else [Record(rows[0], i, fmt)] + Rendered(rows[1..], i + 1, fmt)
  }

  lemma RowOfPacked(words: seq<u32>, rest: seq<byte>, i: nat, fmt: FloatFormat)
    ensures |PackWords(words, 4) + rest| >= 4 * |words|
    ensures Row(PackWords(words, 4) + rest, |words|, i, fmt) == Record(words, i, fmt)
  {
    OffsetIsProduct(4, |words|);
    forall k | 0 <= k < |words| + 1
      ensures Row(PackWords(words, 4) + rest, |words|, i, fmt)[k] == Record(words, i, fmt)[k]
    {
      if k > 0 {
        RowOfPackedAt(words, rest, i, fmt, k - 1);
      }
    }
  }

  lemma RowOfPackedAt(words: seq<u32>, rest: seq<byte>, i: nat, fmt: FloatFormat, j: nat)
    requires j < |words| && |PackWords(words, 4) + rest| >= 4 * |words|
    ensures Row(PackWords(words, 4) + rest, |words|, i, fmt)[j + 1] == Record(words, i, fmt)[j + 1]
  {
    var body := PackWords(words, 4) + rest;
    PowersOf256();
    RowAt(body, |words|, i, fmt, j);
    PackedValue(words, rest, 4, j);
    assert U32LE(body[4 * j..4 * j + 4]) == words[j];
  }

  lemma HeaderOfPacked(scales: seq<u16>, rest: seq<byte>)
    ensures |PackWords(scales, 2) + rest| >= 2 * |scales|
    ensures Header(PackWords(scales, 2) + rest, |scales|) == Labels(scales)
  {
    OffsetIsProduct(2, |scales|);
    forall k | 0 <= k < |scales| + 1
      ensures Header(PackWords(scales, 2) + rest, |scales|)[k] == Labels(scales)[k]
    {
      if k > 0 {
        HeaderOfPackedAt(scales, rest, k - 1);
      }
    }
  }

  lemma HeaderOfPackedAt(scales: seq<u16>, rest: seq<byte>, j: nat)
    requires j < |scales| && |PackWords(scales, 2) + rest| >= 2 * |scales|
    ensures Header(PackWords(scales, 2) + rest, |scales|)[j + 1] == Labels(scales)[j + 1]
  {
    var body := PackWords(scales, 2) + rest;
    PowersOf256();
    HeaderAt(body, |scales|, j);
    PackedValue(scales, rest, 2, j);
    assert U16LE(body[2 * j..2 * j + 2]) == scales[j];
  }

  /** Field `j + 1` of a row is the rendering of its `j`-th word. */
  lemma RowAt(body: seq<byte>, n: nat, i: nat, fmt: FloatFormat, j: nat)
    requires |body| >= 4 * n && j < n
    ensures Row(body, n, i, fmt)[j + 1] == fmt(U32LE(body[4 * j..4 * j + 4]))
  {
  }

  /** Label `j + 1` of a header is that of its `j`-th scale word. */
  lemma HeaderAt(scales: seq<byte>, n: nat, j: nat)
    requires |scales| >= 2 * n && j < n
    ensures Header(scales, n)[j + 1] == Label(U16LE(scales[2 * j..2 * j + 2]))
  {
  }

  /** The `j`-th `w`-byte word of a packing, whatever follows it, reads back
      as the `j`-th word when that fits in `w` bytes. */
  lemma PackedValue(ws: seq<nat>, rest: seq<byte>, w: nat, j: nat)
    requires j < |ws| && ws[j] < Pow256(w)
    ensures var body := PackWords(ws, w) + rest;
      w * j + w <= |body| && LE(body[w * j..w * j + w]) == ws[j]
  {
    PackedWord(ws, rest, w, j);
    LEOfToLE(ws[j], w);
  }

  /** The `j`-th `w`-byte word of a packing, whatever follows it. */
  lemma PackedWord(ws: seq<nat>, rest: seq<byte>, w: nat, j: nat)
    requires j < |ws|
    ensures var body := PackWords(ws, w) + rest;
      w * j + w <= |body| && body[w * j..w * j + w] == ToLE(ws[j], w)
  {
    var packed := PackWords(ws, w);
    PackWordsAt(ws, w, j);
    OffsetIsProduct(w, j);
    assert (packed + rest)[w * j..w * j + w] == packed[w * j..w * j + w];
  }

  lemma {:induction false} RowsOfPacked(rows: seq<seq<u32>>, n: nat, i: nat, fmt: FloatFormat)
    requires n > 0
    requires forall k :: 0 <= k < |rows| ==> |rows[k]| == n
    ensures Rows(PackRows(rows), n, i, fmt) == Ok(Rendered(rows, i, fmt))
    decreases |rows|
  {
    if rows != [] {
      var packed := PackWords(rows[0], 4);
      var rest := PackRows(rows[1..]);
      var body := packed + rest;
      OffsetIsProduct(4, n);
      assert body[4 * n..] == rest;
      RowsOfPacked(rows[1..], n, i + 1, fmt);
      RowOfPacked(rows[0], rest, i, fmt);
    }
  }

  /** Round trip: a block written from N > 0 scale words and rows of N words
      converts to the header of those scales and one record per row, whose
      fields are the row index and each word rendered. */
  lemma SampleBlockRoundTrip(scales: seq<u16>, rows: seq<seq<u32>>, fmt: FloatFormat)
    requires 0 < |scales| < 256
    requires forall k :: 0 <= k < |rows| ==> |rows[k]| == |scales|
    ensures SampleBlock(EncodeBlock(scales, rows), fmt) == Table([Labels(scales)] + Rendered(rows, 0, fmt))
  {
    var n := |scales|;
    var buf := EncodeBlock(scales, rows);
    var packed := PackWords(scales, 2);
    OffsetIsProduct(2, n);
    assert buf[0] == n;
    assert buf[1..] == packed + PackRows(rows);
    HeaderOfPacked(scales, PackRows(rows));
    assert buf[1 + 2 * n..] == PackRows(rows);
    RowsOfPacked(rows, n, 0, fmt);
  }

  // ---------------------------------------------------------------------
  // The converter as the program runs it.

  /** The header step: `vs[0]` is "t", then one scale word is read per
      remaining slot of `vs` and its label stored there. */
  method ReadHeader(rs: Reader, vs: array<string>) returns (r: Result<()>)
    requires rs.Valid() && vs.Length >= 1
    modifies rs, vs
    ensures rs.Valid()
    ensures var n := vs.Length - 1;
      && (old(rs.Len()) >= 2 * n ==> r.Ok? && rs.pos == old(rs.pos) + 2 * n && vs[..] == Header(old(rs.Rest()), n))
      && (old(rs.Len()) < 2 * n ==> r == Err(ShortRead(old(rs.Len()) % 2)))
  {
    var n := vs.Length - 1;
    ghost var start := rs.pos;
    ghost var scales := rs.Rest();
    vs[0] := "t";
    for j := 0 to n
      invariant rs.Valid() && rs.pos == start + 2 * j && rs.data[start..] == scales
      invariant vs[..j + 1] == Header(scales, j)
    {
      var v := rs.ReadFull(2);
      if v.Err? {
        DivModUnique(|scales|, 2, j, |scales| - 2 * j);
        return Err(v.error);
      }
      SliceOfSlice(rs.data, start, |rs.data|, 2 * j, 2 * j + 2);
      assert v.value == scales[2 * j..2 * j + 2];
      ghost var done := vs[..j + 1];
      vs[j + 1] := Label(U16LE(v.value));
      assert vs[..j + 1] == done;
      HeaderSnoc(scales, j);
      assert vs[..j + 2] == done + [vs[j + 1]];
    }
    assert vs[..] == vs[..n + 1];
    return Ok(());
  }

  /** One more scale word extends the header by its label. */
  lemma HeaderSnoc(scales: seq<byte>, j: nat)
    requires |scales| >= 2 * j + 2
    ensures Header(scales, j + 1) == Header(scales, j) + [Label(U16LE(scales[2 * j..2 * j + 2]))]
  {
    var a, b := Header(scales, j + 1), Header(scales, j) + [Label(U16LE(scales[2 * j..2 * j + 2]))];
    assert |a| == |b|;
    forall k | 0 <= k < |a| ensures a[k] == b[k] {
    }
  }

  /** One pass of the row loop: `vs[0]` becomes the row index and each
      remaining slot of `vs` the rendering of the next float word. */
  method ReadRow(rs: Reader, vs: array<string>, i: nat, fmt: FloatFormat) returns (r: Result<()>)
    requires rs.Valid() && vs.Length >= 1
    modifies rs, vs
    ensures rs.Valid()
    ensures var n := vs.Length - 1;
      && (old(rs.Len()) >= 4 * n ==> r.Ok? && rs.pos == old(rs.pos) + 4 * n && vs[..] == Row(old(rs.Rest()), n, i, fmt))
      && (old(rs.Len()) < 4 * n ==> r == Err(ShortRead(old(rs.Len()) % 4)))
  {
    var n := vs.Length - 1;
    ghost var start := rs.pos;
    ghost var body := rs.Rest();
    vs[0] := Decimal(i);
    for j := 0 to n
      invariant rs.Valid() && rs.pos == start + 4 * j && rs.data[start..] == body
      invariant vs[..j + 1] == Row(body, j, i, fmt)
    {
      var w := rs.ReadFull(4);
      if w.Err? {
        DivModUnique(|body|, 4, j, |body| - 4 * j);
        return Err(w.error);
      }
      SliceOfSlice(rs.data, start, |rs.data|, 4 * j, 4 * j + 4);
      assert w.value == body[4 * j..4 * j + 4];
      ghost var done := vs[..j + 1];
      vs[j + 1] := fmt(U32LE(w.value));
      assert vs[..j + 1] == done;
      RowSnoc(body, j, i, fmt);
      assert vs[..j + 2] == done + [vs[j + 1]];
    }
    assert vs[..] == vs[..n + 1];
    return Ok(());
  }

  /** One more float word extends the row by its rendering. */
  lemma RowSnoc(body: seq<byte>, j: nat, i: nat, fmt: FloatFormat)
    requires |body| >= 4 * j + 4
    ensures Row(body, j + 1, i, fmt) == Row(body, j, i, fmt) + [fmt(U32LE(body[4 * j..4 * j + 4]))]
  {
    var a, b := Row(body, j + 1, i, fmt), Row(body, j, i, fmt) + [fmt(U32LE(body[4 * j..4 * j + 4]))];
    assert |a| == |b|;
    forall k | 0 <= k < |a| ensures a[k] == b[k] {
    }
  }

  /** The conversion as the program runs it: a cursor over the block, one
      string slice `vs` that the header and every row overwrite in place,
      and the records handed to the CSV writer so far. When N = 0 and bytes
      are left the row loop of the program spins forever; here that case is
      reported before the loop. */
  method ConvertSamples(buf: seq<byte>, fmt: FloatFormat) returns (out: Block)
    ensures out == SampleBlock(buf, fmt)
  {
    var rs := new Reader(buf);
    var b := rs.ReadByte();
    if b.Err? {
      return Broken(b.error);
    }
    var n := b.value as nat;
    var vs := new string[n + 1](_ => "");
    assert rs.Rest() == buf[1..];
    var h := ReadHeader(rs, vs);
    if h.Err? {
      return Broken(h.error);
    }
    assert rs.Rest() == buf[1 + 2 * n..];
    var records := [vs[..]];
    if n == 0 {
      if rs.Len() > 0 {
        return Endless(records[0]);
      }
      return Table(records);
    }
    out := WriteRows(rs, vs, records, fmt);
  }

  /** The row loop: while bytes are left, one row is read into `vs` and
      handed to the writer after the records already written. */
  method WriteRows(rs: Reader, vs: array<string>, records: seq<seq<string>>, fmt: FloatFormat) returns (out: Block)
    requires rs.Valid() && vs.Length > 1
    modifies rs, vs
    ensures out == Complete(records, Rows(old(rs.Rest()), vs.Length - 1, 0, fmt))
  {
    var n := vs.Length - 1;
    ghost var goal := Complete(records, Rows(rs.Rest(), n, 0, fmt));
    var written := records;
    var i := 0;
    while rs.Len() > 0
      invariant rs.Valid()
      invariant goal == Complete(written, Rows(rs.Rest(), n, i, fmt))
      decreases rs.Len()
    {
      ghost var body := rs.Rest();
      var r := ReadRow(rs, vs, i, fmt);
      if r.Err? {
        return Broken(r.error);
      }
      assert rs.Rest() == body[4 * n..];
      written := written + [vs[..]];
      i := i + 1;
    }
    assert written + [] == written;
    return Table(written);
  }

  /** `processData`: everything left in the input, converted. */
  method ProcessData(r: Reader, fmt: FloatFormat) returns (out: Block)
    requires r.Valid()
    modifies r
    ensures r.Valid() && r.Len() == 0
    ensures out == SampleBlock(old(r.Rest()), fmt)
  {
    var buf := r.ReadAll();
    out := ConvertSamples(buf, fmt);
  }
}
