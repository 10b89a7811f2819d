/** The XML description written beside each data table: a `<metadata>` root
    whose attributes come from the envelope and the input's name and whose
    child elements are the fields of the metadata record. Values are kept
    as what they render: a tick, a number or a text; `Render` gives the
    characters the encoder writes for each. Escaping and indentation are
    not modelled. */
module Description {
  import opened Bytes
  import opened Text
  import opened Paths
  import opened Clock
  import opened Container

  /** What an attribute or element holds. */
  datatype Value =
    | Tick(tick: u64)     // a `Timestamp`, written in the precise layout
    | Number(n: nat)      // an unsigned field, written in decimal
    | Chars(s: string)    // a string, written as is

  /** A named value: an attribute of the root or a child element. */
  datatype Field = Field(name: string, value: Value)

  /** The `<metadata>` element: its attributes and its child elements, in order. */
  datatype Document = Document(attributes: seq<Field>, elements: seq<Field>)

  /** `Timestamp.String`: the tick in the precise layout. */
  function TickString(t: u64, cal: Calendar): string
  {
    Precise(cal(Duration(t)))
  }

  /** The text the encoder writes for a value. */
  function Render(v: Value, cal: Calendar): string
  {
    match v
    case Tick(t) => TickString(t, cal)
    case Number(n) => Decimal(n)
    case Chars(s) => s
  }

  /** A number is written as digits that read back as it; a tick (for a
      four-digit year) as date, 'T', time of day, fraction and 'Z'. */
  lemma RenderReadsBack(v: Value, cal: Calendar)
    ensures v.Number? ==> AllDigits(Render(v, cal)) && ParseDecimal(Render(v, cal)) == v.n
    ensures v.Tick? && cal(Duration(v.tick)).year < 10000 ==>
      var s, c := Render(v, cal), cal(Duration(v.tick));
      && |s| >= 20 && s[..10] == Date(c) && s[10] == 'T' && s[11..19] == TimeOfDay(c) && s[|s| - 1] == 'Z'
  {
    if v.Number? {
      ParseDecimalOfDecimal(v.n);
    } else if v.Tick? && cal(Duration(v.tick)).year < 10000 {
      PreciseLayout(cal(Duration(v.tick)));
    }
  }

  /** The child element names, in field order; the acquisition time and the
      UPI take the names their own marshallers give them. */
  const ElementNames: seq<string> := [
    "acquisition-time", "originator-seq-no", "auxiliary-time", "originator-id",
    "source-x-size", "source-y-size", "format", "fdrp",
    "roi-x-offset", "roi-x-size", "roi-y-offset", "roi-y-size",
    "scale-x-size", "scale-y-size", "scale-far", "upi"]

  /** The numeric fields of the record in element order: all but the
      acquisition tick, the UPI and the magic byte. */
  function NumericFields(m: Metadata): seq<nat>
  {
    [m.sequence, m.auxiliary, m.source, m.x, m.y, m.format, m.drop,
     m.offsetX, m.sizeX, m.offsetY, m.sizeY, m.scaleX, m.scaleY, m.ratio]
  }

  /** Element `i`'s value: the acquisition tick first, the UPI as its text
      without zero padding last, and the numeric fields in between. */
  function ElementValue(m: Metadata, i: nat): Value
    requires i < 16
  {
    if i == 0 then Tick(m.acquisition)
    else if i == 15 then Chars(UpiText(m.upi))
    else Number(NumericFields(m)[i - 1])
  }

  /** The elements of the metadata record, named by `ElementNames`. */
  function MetadataElements(m: Metadata): seq<Field>
  {
    seq(16, i requires 0 <= i < 16 => Field(ElementNames[i], ElementValue(m, i)))
  }

  /** The description of a data record: the envelope's tick and sequence
      and the input's base name as attributes, then the metadata elements. */
  function Describe(env: Envelope, source: string, m: Metadata): Document
  {
    Document(
      [Field("svs-timestamp", Tick(env.when)),
       Field("svs-sequence", Number(env.sequence)),
       Field("svs-file", Chars(Base(source)))],
      MetadataElements(m))
  }

  /** Two records with the same elements agree on every field except the
      magic byte and the UPI's zero padding. */
  lemma ElementsDetermine(m1: Metadata, m2: Metadata)
    requires MetadataElements(m1) == MetadataElements(m2)
    ensures m1.acquisition == m2.acquisition && NumericFields(m1) == NumericFields(m2)
    ensures TrimZeros(m1.upi) == TrimZeros(m2.upi)
  {
    forall i | 0 <= i < 16 ensures ElementValue(m1, i) == ElementValue(m2, i) {
      assert MetadataElements(m1)[i].value == MetadataElements(m2)[i].value;
    }
    ValuesDetermine(m1, m2);
  }

  /** The same, from the element values alone. */
  lemma ValuesDetermine(m1: Metadata, m2: Metadata)
    requires forall i :: 0 <= i < 16 ==> ElementValue(m1, i) == ElementValue(m2, i)
    ensures m1.acquisition == m2.acquisition && NumericFields(m1) == NumericFields(m2)
    ensures TrimZeros(m1.upi) == TrimZeros(m2.upi)
  {
    var a, b := NumericFields(m1), NumericFields(m2);
    forall i | 0 <= i < 14 ensures a[i] == b[i] {
      assert ElementValue(m1, i + 1) == ElementValue(m2, i + 1);
    }
    assert ElementValue(m1, 0) == ElementValue(m2, 0);
    assert ElementValue(m1, 15) == ElementValue(m2, 15);
    UpiTextInjective(m1.upi, m2.upi);
  }

  /** The UPI text determines the UPI up to its zero padding. */
  lemma UpiTextInjective(u1: UpiBuffer, u2: UpiBuffer)
    requires UpiText(u1) == UpiText(u2)
    ensures TrimZeros(u1) == TrimZeros(u2)
  {
    var t, r1, r2 := UpiText(u1), TrimZeros(u1), TrimZeros(u2);
    forall i | 0 <= i < |r1| ensures r1[i] == r2[i] {
      assert t[i] as int == r1[i] && t[i] as int == r2[i];
    }
  }

  /** The magic byte is read but never described. */
  lemma DescribeIgnoresMagic(env: Envelope, source: string, m: Metadata, b: u8)
    ensures Describe(env, source, m.(magic := b)) == Describe(env, source, m)
  {
    assert NumericFields(m.(magic := b)) == NumericFields(m);
  }

  /** The UPI element of a buffer holding a text between zero bytes is that text. */
  lemma DescribeUpi(m: Metadata, lead: nat, text: seq<byte>)
    requires text == [] || (text[0] != 0 && text[|text| - 1] != 0)
    requires lead + |text| <= 32
    requires m.upi == ZeroBytes(lead) + text + ZeroBytes(32 - lead - |text|)
    ensures var e := MetadataElements(m)[15];
      && e.name == "upi" && e.value.Chars? && |e.value.s| == |text|
      && forall i :: 0 <= i < |text| ==> e.value.s[i] as int == text[i]
  {
    TrimZerosOfPadded(lead, text, 32 - lead - |text|);
  }
}
