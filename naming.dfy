/** How the program names what it writes: the command-line defaults, the
    identifier taken from the input file's name, the shard directory, and
    the `<source>_<identifier>_<stamp>_<sequence>.csv` data file name. */
module Naming {
  import opened Bytes
  import opened Text
  import opened Paths
  import opened Clock
  import opened Container

  /** The default of `-p`, files per shard directory. */
  const DefaultFiles: int := 512
  /** The default of `-w`, concurrent workers. */
  const DefaultWorkers: int := 4

  /** `-p` after the start-up check: a value that is not positive is replaced by the default. */
  function EffectivePer(p: int): (q: int)
    ensures q > 0
    ensures q == p || (p <= 0 && q == DefaultFiles)
  {
    if p <= 0 then DefaultFiles else p
  }

  /** `-w` after the start-up check. */
  function EffectiveWorkers(w: int): (q: int)
    ensures q > 0
    ensures q == w || (w <= 0 && q == DefaultWorkers)
  {
    if w <= 0 then DefaultWorkers else w
  }

  /** The check changes exactly the values that are not positive, and applying
      it again changes nothing. */
  lemma EffectiveSettings(p: int, w: int)
    ensures EffectivePer(p) == p <==> p > 0
    ensures EffectiveWorkers(w) == w <==> w > 0
    ensures EffectivePer(EffectivePer(p)) == EffectivePer(p)
    ensures EffectiveWorkers(EffectiveWorkers(w)) == EffectiveWorkers(w)
  {
  }

  datatype Option<T> = None | Some(value: T)

  /** The identifier of an input file: its base name split on '_', with the
      first piece and the last five dropped and the rest joined with '_'.
      With fewer than six pieces the program's slice expression is out of
      range and the process panics; that is `None`. The identifier exists
      exactly when the base name has at least five underscores, is empty
      when it has exactly five, and never holds a '/'. */
  function Identifier(file: string): (r: Option<string>)
    ensures r.Some? <==> Count(Base(file), '_') >= 5
    ensures Count(Base(file), '_') == 5 ==> r == Some("")
    ensures r.Some? ==> '/' !in r.value
  {
    var b := Base(file);
    var parts := Split(b, '_');
    SplitCount(b, '_');
    if |parts| < 6 then None
    else
      var mid := parts[1..|parts| - 5];
      SplitAvoids(b, '_', '/');
      JoinAvoids(mid, "_", '/');
      Some(Join(mid, "_"))
  }

  /** A file whose base name is `<prefix>_<id_1>_..._<id_k>_<t_1>_..._<t_5>`,
      with no '_' or '/' inside the pieces, has `<id_1>_..._<id_k>` as its
      identifier. The path may be that name alone or the name in any
      directory (`Paths.BaseOfName`, `Paths.BaseOfChild`). */
  lemma IdentifierOfName(file: string, prefix: string, ids: seq<string>, tail: seq<string>)
    requires |tail| == 5
    requires '_' !in prefix && '/' !in prefix
    requires forall i :: 0 <= i < |ids| ==> '_' !in ids[i] && '/' !in ids[i]
    requires forall i :: 0 <= i < |tail| ==> '_' !in tail[i] && '/' !in tail[i]
    requires Base(file) == Join([prefix] + ids + tail, "_")
    ensures Identifier(file) == Some(Join(ids, "_"))
  {
    var pieces := [prefix] + ids + tail;
    forall i | 0 <= i < |pieces| ensures '_' !in pieces[i] {
      if i > 0 && i <= |ids| {
        assert pieces[i] == ids[i - 1];
      } else if i > |ids| {
        assert pieces[i] == tail[i - 1 - |ids|];
      }
    }
    SplitJoin(pieces, '_');
    assert pieces[1..|pieces| - 5] == ids;
  }

  /** `fmt.Sprintf("%06d", subdir)`: the shard directory name. It is at
      least six digits reading as the shard, and exactly six for shards
      below 1000000. */
  function ShardDir(shard: nat): (d: string)
    ensures AllDigits(d) && ParseDecimal(d) == shard && |d| >= 6
    ensures |d| == 6 <==> shard < 1000000
  {
    PadDecimalWidth(shard, 6);
    assert Pow10(6) == 1000000;
    PadDecimal(shard, 6)
  }

  /** The shard a data record goes to: its originator sequence number
      divided by the number of files per directory, rounded down. */
  function Shard(m: Metadata, per: int): (k: nat)
    requires per > 0
    ensures per * k <= m.sequence < per * (k + 1)
  {
    m.sequence / per
  }

  /** Sequence numbers 0 to 511 share shard "000000" by default, and 1025
      lands in "000002". */
  lemma ShardExamples(m: Metadata)
    ensures m.sequence < 512 ==> ShardDir(Shard(m, DefaultFiles)) == "000000"
    ensures m.sequence == 1025 ==> ShardDir(Shard(m, DefaultFiles)) == "000002"
  {
    if m.sequence < 512 {
      assert Shard(m, DefaultFiles) == 0;
      assert Decimal(0) == "0";
    } else if m.sequence == 1025 {
      assert Shard(m, DefaultFiles) == 2;
      assert Decimal(2) == "2";
    }
  }

  /** The compact stamp of the acquisition tick. */
  function Stamp(m: Metadata, cal: Calendar): string
  {
    Compact(cal(Duration(m.acquisition)))
  }

  /** `fmt.Sprintf("%04x_%s_%s_%06d.csv", info.Source, upi, stamp, info.Sequence)` */
  function DataName(m: Metadata, upi: string, cal: Calendar): string
  {
    Hex04(m.source) + "_" + upi + "_" + Stamp(m, cal) + "_" + PadDecimal(m.sequence, 6) + ".csv"
  }

  /** The data file name takes apart into its fields again: four hex
      characters reading as the originator id, the identifier, the 15
      characters of the stamp, and at least six digits reading as the
      originator sequence number (exactly six below 1000000). */
  lemma DataNameLayout(m: Metadata, upi: string, cal: Calendar)
    requires cal(Duration(m.acquisition)).year < 10000
    ensures var s, u := DataName(m, upi, cal), |upi|;
      && |s| >= 32 + u
      && s[..4] == Hex04(m.source) && s[0] == '0' && s[1] == '0'
      && IsHexDigit(s[2]) && IsHexDigit(s[3]) && 16 * HexValue(s[2]) + HexValue(s[3]) == m.source
      && s[4] == '_' && s[5..5 + u] == upi && s[5 + u] == '_'
      && s[6 + u..21 + u] == Stamp(m, cal) && s[21 + u] == '_'
      && AllDigits(s[22 + u..|s| - 4]) && ParseDecimal(s[22 + u..|s| - 4]) == m.sequence
      && (m.sequence < 1000000 ==> |s| == 32 + u)
      && s[|s| - 4..] == ".csv"
  {
    CompactLayout(cal(Duration(m.acquisition)));
    PadDecimalWidth(m.sequence, 6);
    NameFields(Hex04(m.source), upi, Stamp(m, cal), PadDecimal(m.sequence, 6));
  }

  /** Where the pieces of a `<hex>_<upi>_<stamp>_<digits>.csv` name lie. */
  lemma NameFields(hex: string, upi: string, stamp: string, digits: string)
    requires |hex| == 4 && |stamp| == 15
    ensures var s, u := hex + "_" + upi + "_" + stamp + "_" + digits + ".csv", |upi|;
      && |s| == 26 + u + |digits|
      && s[..4] == hex && s[4] == '_' && s[5..5 + u] == upi && s[5 + u] == '_'
      && s[6 + u..21 + u] == stamp && s[21 + u] == '_'
      && s[22 + u..|s| - 4] == digits && s[|s| - 4..] == ".csv"
  {
  }

  /** The data file name is a plain name, with no '/' in it, when the
      identifier has none. */
  lemma NameNoSlash(m: Metadata, upi: string, cal: Calendar)
    requires '/' !in upi
    ensures DataName(m, upi, cal) != [] && '/' !in DataName(m, upi, cal)
  {
    var hex := Hex04(m.source);
    assert '/' !in hex by {
      assert hex[2] == HexDigit(m.source / 16) && hex[3] == HexDigit(m.source % 16);
    }
    CompactDigits(cal(Duration(m.acquisition)));
    DigitsAvoid(PadDecimal(m.sequence, 6), '/');
  }

  /** The compact stamp is made of digits and one '_'. */
  lemma CompactDigits(c: Civil)
    ensures '/' !in Compact(c)
  {
    DigitsAvoid(CompactDate(c), '/');
    DigitsAvoid(PadDecimal(c.hour, 2), '/');
    DigitsAvoid(PadDecimal(c.minute, 2), '/');
    DigitsAvoid(PadDecimal(c.year % 100, 2), '/');
    assert CompactDate(c) == PadDecimal(c.year, 4) + PadDecimal(c.month, 2) + PadDecimal(c.day, 2);
    DigitsAvoid(PadDecimal(c.year, 4), '/');
    DigitsAvoid(PadDecimal(c.month, 2), '/');
    DigitsAvoid(PadDecimal(c.day, 2), '/');
  }
}
