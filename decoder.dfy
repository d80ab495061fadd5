/**
 * `parseRecord`: one tab-delimited DL20 line into a record of sixteen numbers.
 * Fields 0-4 are direct readings, field 5 the heading/pitch/roll block and
 * fields 6 and 7 the top and bottom depth/pressure/temperature blocks.
 */
module Decoder {
  import opened Wrappers
  import opened Text
  import opened Checksum
  import opened Numbers
  import opened Blocks

  /** The decoded record, one number per named field. */
  datatype SensorRecord = SensorRecord(
    recordNumber: Num,
    transducerTop: Num,
    transducerBottom: Num,
    temperatureVoltage: Num,
    button: Num,
    heading: Num,
    pitch: Num,
    roll: Num,
    depthTop: Num,
    pressureTop: Num,
    temperatureTop: Num,
    depthBottom: Num,
    pressureBottom: Num,
    temperatureBottom: Num,
    depthWinch: Num,
    deltaPressure: Num)

  /** `ParseException("too few fields in line %d - %s")`: the field count and the line. */
  datatype ParseError = TooFewFields(count: nat, line: string)

  /** A value of the record dict: the text it is built from, or the number that replaces it. */
  datatype DictValue = Str(text: string) | Float(num: Num)

  /** The number of tab-separated fields a line needs. */
  const MinFields: nat := 8

  /** The decoded record of a line, or the error `parseRecord` raises. */
  function Decode(line: string): Result<SensorRecord, ParseError> {
    var fields := Split(line, '\t');
    if |fields| < MinFields then Failure(TooFewFields(|fields|, line))
    else Success(Assemble(RobustFloat, fields, ParseHpr(fields[5]), ParseDpt(fields[6]), ParseDpt(fields[7])))
  }

  /**
   * The record built from the fields of a line and the parsed blocks of
   * fields 5, 6 and 7, each text read by `convert`.
   */
  function Assemble(convert: string -> Num, fields: seq<string>, hpr: seq<string>, top: seq<string>, bottom: seq<string>): SensorRecord
    requires |fields| >= MinFields && |hpr| >= 3 && |top| == 3 && |bottom| == 3
  {
    var pressureTop, pressureBottom := convert(top[1]), convert(bottom[1]);
    SensorRecord(
      convert(fields[0]), convert(fields[1]), convert(fields[2]),
      convert(fields[3]), convert(fields[4]),
      convert(hpr[0]), convert(hpr[1]), convert(hpr[2]),
      convert(top[0]), pressureTop, convert(top[2]),
      convert(bottom[0]), pressureBottom, convert(bottom[2]),
      NaN, Sub(pressureBottom, pressureTop))
  }

  /** The keys of the record dict. */
  datatype Key =
    | RecordNumber | TransducerTop | TransducerBottom | TemperatureVoltage | Button
    | Heading | Pitch | Roll
    | DepthTop | PressureTop | TemperatureTop
    | DepthBottom | PressureBottom | TemperatureBottom
    | DepthWinch | DeltaPressure

  /** The Python string of each key. */
  function Name(k: Key): string {
    match k
    case RecordNumber => "record_number"
    case TransducerTop => "transducer_top"
    case TransducerBottom => "transducer_bottom"
    case TemperatureVoltage => "temperature_voltage"
    case Button => "button"
    case Heading => "heading"
    case Pitch => "pitch"
    case Roll => "roll"
    case DepthTop => "depth_top"
    case PressureTop => "pressure_top"
    case TemperatureTop => "temperature_top"
    case DepthBottom => "depth_bottom"
    case PressureBottom => "pressure_bottom"
    case TemperatureBottom => "temperature_bottom"
    case DepthWinch => "depth_winch"
    case DeltaPressure => "delta_pressure"
  }

  /** The keys of the dict before conversion: all but the two the source adds afterwards. */
  const TextKeys: set<Key> := {
    RecordNumber, TransducerTop, TransducerBottom, TemperatureVoltage, Button,
    Heading, Pitch, Roll,
    DepthTop, PressureTop, TemperatureTop,
    DepthBottom, PressureBottom, TemperatureBottom}

  /** The sixteen keys of a decoded record. */
  const RecordKeys: set<Key> := TextKeys + {DepthWinch, DeltaPressure}

  /** The value the record holds under key `k`. */
  function Field(r: SensorRecord, k: Key): Num {
    match k
    case RecordNumber => r.recordNumber
    case TransducerTop => r.transducerTop
    case TransducerBottom => r.transducerBottom
    case TemperatureVoltage => r.temperatureVoltage
    case Button => r.button
    case Heading => r.heading
    case Pitch => r.pitch
    case Roll => r.roll
    case DepthTop => r.depthTop
    case PressureTop => r.pressureTop
    case TemperatureTop => r.temperatureTop
    case DepthBottom => r.depthBottom
    case PressureBottom => r.pressureBottom
    case TemperatureBottom => r.temperatureBottom
    case DepthWinch => r.depthWinch
    case DeltaPressure => r.deltaPressure
  }

  /** The record as the dict `parseRecord` returns. */
  function ToMap(r: SensorRecord): (m: map<Key, DictValue>)
    ensures m.Keys == RecordKeys
    ensures forall k :: k in m ==> m[k].Float?
  {
    map k | k in RecordKeys :: Float(Field(r, k))
  }

  /** Reads a record back from its dict. */
  function FromMap(m: map<Key, DictValue>): SensorRecord
    requires RecordKeys <= m.Keys && forall k :: k in m ==> m[k].Float?
  {
    SensorRecord(
      m[RecordNumber].num, m[TransducerTop].num, m[TransducerBottom].num,
      m[TemperatureVoltage].num, m[Button].num,
      m[Heading].num, m[Pitch].num, m[Roll].num,
      m[DepthTop].num, m[PressureTop].num, m[TemperatureTop].num,
      m[DepthBottom].num, m[PressureBottom].num, m[TemperatureBottom].num,
      m[DepthWinch].num, m[DeltaPressure].num)
  }

  /** The dict holds every field of the record: reading it back gives the record. */
  lemma FromToMap(r: SensorRecord)
    ensures FromMap(ToMap(r)) == r
  {
  }

  /** The text the source stores under key `k` before conversion. */
  function TextOf(k: Key, fields: seq<string>, hpr: seq<string>, top: seq<string>, bottom: seq<string>): string
    requires |fields| >= MinFields && |hpr| >= 3 && |top| == 3 && |bottom| == 3
  {
    match k
    case RecordNumber => fields[0]
    case TransducerTop => fields[1]
    case TransducerBottom => fields[2]
    case TemperatureVoltage => fields[3]
    case Button => fields[4]
    case Heading => hpr[0]
    case Pitch => hpr[1]
    case Roll => hpr[2]
    case DepthTop => top[0]
    case PressureTop => top[1]
    case TemperatureTop => top[2]
    case DepthBottom => bottom[0]
    case PressureBottom => bottom[1]
    case TemperatureBottom => bottom[2]
    case DepthWinch => ""
    case DeltaPressure => ""
  }

  /** A decoded record has sixteen keys. */
  lemma SixteenKeys()
    ensures |RecordKeys| == 16
  {
    FourteenKeys();
    assert TextKeys !! {DepthWinch, DeltaPressure};
  }

  /** The dict built from the line has fourteen keys. */
  lemma FourteenKeys()
    ensures |TextKeys| == 14
  {
  }

  /** Different keys have different names, so the dict has sixteen distinct string keys. */
  lemma NamesDiffer(k: Key, k': Key)
    requires k != k'
    ensures Name(k) != Name(k')
  {
  }

  /**
   * `parseRecord(line, offsets)`: splits the line on tabs, reads the three
   * blocks, builds the dict of texts, converts every value in place, then adds
   * the winch-depth placeholder and the pressure difference. The offsets are
   * not applied.
   */
  method ParseRecord(line: string, offsets: map<string, real>) returns (r: Result<map<Key, DictValue>, ParseError>)
    ensures r.Failure? <==> |Split(line, '\t')| < MinFields
    ensures r.Failure? ==> r.error == TooFewFields(|Split(line, '\t')|, line)
    ensures r == match Decode(line)
      case Success(rec) => Success(ToMap(rec))
      case Failure(e) => Failure(e)
  {
    var fields := Split(line, '\t');
    if |fields| < MinFields {
      return Failure(TooFewFields(|fields|, line));
    }
    var record := RecordOfFields(RobustFloat, fields);
    r := Success(record);
  }

  /**
   * The steps of `parseRecord` after the field count is checked: the dict of
   * texts, converted in place by `convert`, with the two computed entries
   * added. `ParseRecord` passes `robust_float` as `convert`.
   */
  method RecordOfFields(convert: string -> Num, fields: seq<string>) returns (record: map<Key, DictValue>)
    requires |fields| >= MinFields
    ensures record == ToMap(Assemble(convert, fields, ParseHpr(fields[5]), ParseDpt(fields[6]), ParseDpt(fields[7])))
  {
    var hpr := ParseHpr(fields[5]);
    var dptTop := ParseDpt(fields[6]);
    var dptBottom := ParseDpt(fields[7]);
    record := TextDict(fields, hpr, dptTop, dptBottom);
    // convert all to numbers
    record := ConvertAll(convert, record);
    ConvertedTexts(convert, fields, hpr, dptTop, dptBottom);
    AssembledDict(convert, fields, hpr, dptTop, dptBottom, record);
    // room for the winch encoder read-out, then the calculated term
    record := record[DepthWinch := Float(NaN)];
    record := record[DeltaPressure := Float(Sub(record[PressureBottom].num, record[PressureTop].num))];
  }

  /** The dict of texts `parseRecord` builds from the fields and the three parsed blocks. */
  function TextDict(fields: seq<string>, hpr: seq<string>, top: seq<string>, bottom: seq<string>): (m: map<Key, DictValue>)
    requires |fields| >= MinFields && |hpr| >= 3 && |top| == 3 && |bottom| == 3
    ensures m.Keys == TextKeys
  {
    map k | k in TextKeys :: Str(TextOf(k, fields, hpr, top, bottom))
  }

  /** Every text of the dict converted: the value under each key is `convert` of the text read for it. */
  lemma ConvertedTexts(convert: string -> Num, fields: seq<string>, hpr: seq<string>, top: seq<string>, bottom: seq<string>)
    requires |fields| >= MinFields && |hpr| >= 3 && |top| == 3 && |bottom| == 3
    ensures Converted(convert, TextDict(fields, hpr, top, bottom)).Keys == TextKeys
    ensures forall k :: k in TextKeys ==>
      Converted(convert, TextDict(fields, hpr, top, bottom))[k] == Float(convert(TextOf(k, fields, hpr, top, bottom)))
  {
  }

  /** Adding the two computed entries leaves the entries read from the line as they were. */
  lemma AddedKeysKeepTexts(c: map<Key, DictValue>, winch: DictValue, delta: DictValue)
    requires TextKeys <= c.Keys
    ensures forall k :: k in TextKeys ==> c[DepthWinch := winch][DeltaPressure := delta][k] == c[k]
  {
    forall k | k in TextKeys
      ensures c[DepthWinch := winch][DeltaPressure := delta][k] == c[k]
    {
      TextKeyIsRead(k);
    }
  }

  /** The dict with every value replaced by its number. */
  function Converted(convert: string -> Num, m: map<Key, DictValue>): (c: map<Key, DictValue>)
    ensures c.Keys == m.Keys
    ensures forall k :: k in c ==> c[k].Float?
  {
    map k | k in m :: Float(ToNumber(convert, m[k]))
  }

  /** `convert` of a dict value: a text is converted, a number is kept (`float` of a float is itself). */
  function ToNumber(convert: string -> Num, v: DictValue): Num {
    match v
    case Str(t) => convert(t)
    case Float(x) => x
  }

  /**
   * `record.update((k, robust_float(v)) for k, v in record.items())`, with
   * `convert` for `robust_float`: every value of the dict is replaced, in
   * place, by its number; each new value depends only on the old value under
   * the same key.
   */
  method ConvertAll(convert: string -> Num, record: map<Key, DictValue>) returns (converted: map<Key, DictValue>)
    ensures converted == Converted(convert, record)
  {
    converted := record;
    var todo := record.Keys;
    while todo != {}
      invariant todo <= converted.Keys == record.Keys
      invariant forall k :: k in converted ==>
        converted[k] == if k in todo then record[k] else Float(ToNumber(convert, record[k]))
      decreases |todo|
    {
      var k :| k in todo;
      converted := converted[k := Float(ToNumber(convert, converted[k]))];
      todo := todo - {k};
    }
    assert forall k :: k in converted ==> converted[k] == Converted(convert, record)[k];
  }

  /** The two keys added after the conversion are not among the keys read from the line. */
  lemma TextKeyIsRead(k: Key)
    requires k in TextKeys
    ensures k != DepthWinch && k != DeltaPressure
  {
  }

  /**
   * A dict holding the converted texts, once the two computed entries are
   * added, is the dict of the assembled record.
   */
  lemma AssembledDict(convert: string -> Num, fields: seq<string>, hpr: seq<string>, top: seq<string>, bottom: seq<string>, c: map<Key, DictValue>)
    requires |fields| >= MinFields && |hpr| >= 3 && |top| == 3 && |bottom| == 3
    requires c.Keys == TextKeys
    requires forall k :: k in TextKeys ==> c[k] == Float(convert(TextOf(k, fields, hpr, top, bottom)))
    ensures PressureBottom in c && PressureTop in c && c[PressureBottom].Float? && c[PressureTop].Float?
    ensures var m := c[DepthWinch := Float(NaN)];
      m[DeltaPressure := Float(Sub(m[PressureBottom].num, m[PressureTop].num))]
        == ToMap(Assemble(convert, fields, hpr, top, bottom))
  {
    assert PressureBottom in TextKeys && PressureTop in TextKeys;
    var m1 := c[DepthWinch := Float(NaN)];
    var delta := Float(Sub(m1[PressureBottom].num, m1[PressureTop].num));
    var m := m1[DeltaPressure := delta];
    AddedKeysKeepTexts(c, Float(NaN), delta);
    AssembledDelta(convert, fields, hpr, top, bottom, c);
    DictOfAssembled(convert, fields, hpr, top, bottom, m);
  }

  /** A dict holding every converted text and the two computed entries is the dict of the assembled record. */
  lemma DictOfAssembled(convert: string -> Num, fields: seq<string>, hpr: seq<string>, top: seq<string>, bottom: seq<string>, m: map<Key, DictValue>)
    requires |fields| >= MinFields && |hpr| >= 3 && |top| == 3 && |bottom| == 3
    requires m.Keys == RecordKeys
    requires forall k :: k in TextKeys ==> m[k] == Float(convert(TextOf(k, fields, hpr, top, bottom)))
    requires m[DepthWinch] == Float(NaN)
    requires m[DeltaPressure] == Float(Field(Assemble(convert, fields, hpr, top, bottom), DeltaPressure))
    ensures m == ToMap(Assemble(convert, fields, hpr, top, bottom))
  {
    AssembledTexts(convert, fields, hpr, top, bottom);
    DictOfRecord(m, Assemble(convert, fields, hpr, top, bottom));
  }

  /** The pressure difference of the assembled record is the one computed from the converted dict. */
  lemma AssembledDelta(convert: string -> Num, fields: seq<string>, hpr: seq<string>, top: seq<string>, bottom: seq<string>, c: map<Key, DictValue>)
    requires |fields| >= MinFields && |hpr| >= 3 && |top| == 3 && |bottom| == 3
    requires c.Keys == TextKeys
    requires forall k :: k in TextKeys ==> c[k] == Float(convert(TextOf(k, fields, hpr, top, bottom)))
    ensures PressureBottom in c && PressureTop in c && c[PressureBottom].Float? && c[PressureTop].Float?
    ensures Field(Assemble(convert, fields, hpr, top, bottom), DeltaPressure)
      == Sub(c[PressureBottom].num, c[PressureTop].num)
  {
    assert PressureBottom in TextKeys && PressureTop in TextKeys;
    assert c[PressureBottom].num == convert(bottom[1]);
    assert c[PressureTop].num == convert(top[1]);
  }

  /** Every field of the assembled record read from the line is its text, converted. */
  lemma AssembledTexts(convert: string -> Num, fields: seq<string>, hpr: seq<string>, top: seq<string>, bottom: seq<string>)
    requires |fields| >= MinFields && |hpr| >= 3 && |top| == 3 && |bottom| == 3
    ensures forall k :: k in TextKeys ==>
      Field(Assemble(convert, fields, hpr, top, bottom), k) == convert(TextOf(k, fields, hpr, top, bottom))
  {
    forall k | k in TextKeys
      ensures Field(Assemble(convert, fields, hpr, top, bottom), k) == convert(TextOf(k, fields, hpr, top, bottom))
    {
      TextKeyIsRead(k);
      AssembledField(convert, k, fields, hpr, top, bottom);
    }
  }

  /** A dict that holds every field of a record under its key is the dict of that record. */
  lemma DictOfRecord(m: map<Key, DictValue>, rec: SensorRecord)
    requires m.Keys == RecordKeys
    requires forall k :: k in TextKeys ==> m[k] == Float(Field(rec, k))
    requires m[DepthWinch] == Float(Field(rec, DepthWinch))
    requires m[DeltaPressure] == Float(Field(rec, DeltaPressure))
    ensures m == ToMap(rec)
  {
    forall k | k in RecordKeys
      ensures m[k] == ToMap(rec)[k]
    {
    }
  }

  /** Each field of the assembled record read from the line is `convert` of its text. */
  lemma AssembledField(convert: string -> Num, k: Key, fields: seq<string>, hpr: seq<string>, top: seq<string>, bottom: seq<string>)
    requires |fields| >= MinFields && |hpr| >= 3 && |top| == 3 && |bottom| == 3
    requires k != DepthWinch && k != DeltaPressure
    ensures Field(Assemble(convert, fields, hpr, top, bottom), k) == convert(TextOf(k, fields, hpr, top, bottom))
  {
  }

  // ---------------------------------------------------------------------
  // Properties of the decoded record
  // ---------------------------------------------------------------------

  /** A line is rejected exactly when it has fewer than seven tabs; the error carries the field count and the line. */
  lemma DecodeFailsIff(line: string)
    ensures Decode(line).Failure? <==> Count(line, '\t') < MinFields - 1
    ensures Decode(line).Failure? ==> Decode(line).error == TooFewFields(Count(line, '\t') + 1, line)
  {
    SplitShape(line, '\t');
  }

  /** The record built from the fields leaves the winch depth NaN and holds bottom minus top pressure. */
  lemma AssembledShape(convert: string -> Num, fields: seq<string>, hpr: seq<string>, top: seq<string>, bottom: seq<string>)
    requires |fields| >= MinFields && |hpr| >= 3 && |top| == 3 && |bottom| == 3
    ensures var rec := Assemble(convert, fields, hpr, top, bottom);
      rec.depthWinch == NaN && rec.deltaPressure == Sub(rec.pressureBottom, rec.pressureTop)
  {
  }

  /**
   * A decoded record: the winch depth is NaN, the pressure difference is the
   * bottom pressure minus the top one, and it is NaN when either pressure is.
   */
  lemma DecodedShape(line: string)
    requires Decode(line).Success?
    ensures var rec := Decode(line).value;
      rec.depthWinch == NaN
      && rec.deltaPressure == Sub(rec.pressureBottom, rec.pressureTop)
      && (rec.pressureBottom.NaN? || rec.pressureTop.NaN? ==> rec.deltaPressure.NaN?)
  {
    var fields := Split(line, '\t');
    AssembledShape(RobustFloat, fields, ParseHpr(fields[5]), ParseDpt(fields[6]), ParseDpt(fields[7]));
  }

  /** Only the first eight fields are read: lines that agree on them decode alike. */
  lemma TrailingFieldsIgnored(a: string, b: string)
    requires |Split(a, '\t')| >= MinFields && |Split(b, '\t')| >= MinFields
    requires Split(a, '\t')[..MinFields] == Split(b, '\t')[..MinFields]
    ensures Decode(a) == Decode(b)
  {
    var fa, fb := Split(a, '\t'), Split(b, '\t');
    assert forall i :: 0 <= i < MinFields ==> fa[i] == fa[..MinFields][i] == fb[i];
    AssembledEqual(RobustFloat, fa, fb);
  }

  /** The assembled record depends on the first eight fields only. */
  lemma AssembledEqual(convert: string -> Num, fa: seq<string>, fb: seq<string>)
    requires |fa| >= MinFields && |fb| >= MinFields
    requires forall i :: 0 <= i < MinFields ==> fa[i] == fb[i]
    ensures Assemble(convert, fa, ParseHpr(fa[5]), ParseDpt(fa[6]), ParseDpt(fa[7]))
      == Assemble(convert, fb, ParseHpr(fb[5]), ParseDpt(fb[6]), ParseDpt(fb[7]))
  {
    assert fa[5] == fb[5] && fa[6] == fb[6] && fa[7] == fb[7];
    assert fa[0] == fb[0] && fa[1] == fb[1] && fa[2] == fb[2] && fa[3] == fb[3] && fa[4] == fb[4];
  }

  /** An unreadable heading/pitch/roll block gives NaN heading, pitch and roll. */
  lemma UnreadableHprIsNaN(line: string)
    requires Decode(line).Success? && !HprReadable(Split(line, '\t')[5])
    ensures var rec := Decode(line).value; rec.heading == NaN && rec.pitch == NaN && rec.roll == NaN
  {
    var fields := Split(line, '\t');
    UnreadableIsSentinel(fields[5]);
    NanTextIsNaN();
    SentinelFields(RobustFloat, fields, ParseHpr(fields[5]), ParseDpt(fields[6]), ParseDpt(fields[7]));
  }

  /** An unreadable top depth/pressure/temperature block gives NaN top readings and a NaN pressure difference. */
  lemma UnreadableTopIsNaN(line: string)
    requires Decode(line).Success? && !DptReadable(Split(line, '\t')[6])
    ensures var rec := Decode(line).value;
      rec.depthTop == NaN && rec.pressureTop == NaN && rec.temperatureTop == NaN && rec.deltaPressure == NaN
  {
    var fields := Split(line, '\t');
    UnreadableIsSentinel(fields[6]);
    NanTextIsNaN();
    SentinelFields(RobustFloat, fields, ParseHpr(fields[5]), ParseDpt(fields[6]), ParseDpt(fields[7]));
  }

  /** An unreadable bottom depth/pressure/temperature block gives NaN bottom readings and a NaN pressure difference. */
  lemma UnreadableBottomIsNaN(line: string)
    requires Decode(line).Success? && !DptReadable(Split(line, '\t')[7])
    ensures var rec := Decode(line).value;
      rec.depthBottom == NaN && rec.pressureBottom == NaN && rec.temperatureBottom == NaN && rec.deltaPressure == NaN
  {
    var fields := Split(line, '\t');
    UnreadableIsSentinel(fields[7]);
    NanTextIsNaN();
    SentinelFields(RobustFloat, fields, ParseHpr(fields[5]), ParseDpt(fields[6]), ParseDpt(fields[7]));
  }

  /** A block that reads as the sentinel contributes three values of `convert("nan")`, and spoils the pressure difference. */
  lemma SentinelFields(convert: string -> Num, fields: seq<string>, hpr: seq<string>, top: seq<string>, bottom: seq<string>)
    requires |fields| >= MinFields && |hpr| >= 3 && |top| == 3 && |bottom| == 3
    requires convert("nan") == NaN
    ensures var rec := Assemble(convert, fields, hpr, top, bottom);
      (hpr == Sentinel ==> rec.heading == NaN && rec.pitch == NaN && rec.roll == NaN)
      && (top == Sentinel ==> rec.depthTop == NaN && rec.pressureTop == NaN && rec.temperatureTop == NaN && rec.deltaPressure == NaN)
      && (bottom == Sentinel ==> rec.depthBottom == NaN && rec.pressureBottom == NaN && rec.temperatureBottom == NaN && rec.deltaPressure == NaN)
  {
  }

  /** A line is decoded from the tab-free fields it was joined from. */
  lemma DecodeJoined(fields: seq<string>)
    requires |fields| >= MinFields && FreeOf(fields, '\t')
    ensures Decode(Join(fields, '\t'))
      == Success(Assemble(RobustFloat, fields, ParseHpr(fields[5]), ParseDpt(fields[6]), ParseDpt(fields[7])))
  {
    SplitJoin(fields, '\t');
  }

  /**
   * A line whose three blocks are well-formed and sealed decodes to the
   * readings carried in them: heading, pitch and roll after the tag, and the
   * depth, pressure and temperature of each depth block.
   */
  lemma {:induction false} DecodeSealedLine(fields: seq<string>, h: seq<string>, t: seq<string>, b: seq<string>, s1: char, s2: char, s3: char)
    requires |fields| >= MinFields && FreeOf(fields, '\t')
    requires |h| >= 4 && FreeOf(h, ',') && XorAll(Join(h, ',')) < 256 && fields[5] == EncodeBlock(h, s1)
    requires |t| >= 7 && FreeOf(t, ',') && XorAll(Join(t, ',')) < 256 && fields[6] == EncodeBlock(t, s2)
    requires |b| >= 7 && FreeOf(b, ',') && XorAll(Join(b, ',')) < 256 && fields[7] == EncodeBlock(b, s3)
    ensures Decode(Join(fields, '\t')).Success?
    ensures var rec := Decode(Join(fields, '\t')).value;
      rec == Assemble(RobustFloat, fields, h[1..], [t[1], t[3], t[5]], [b[1], b[3], b[5]])
  {
    DecodeJoined(fields);
    HprRoundTrip(h, s1);
    DptRoundTrip(t, s2);
    DptRoundTrip(b, s3);
  }

  /** The keys whose values come from block field `i` (5, 6 or 7), the pressure difference included. */
  function BlockKeys(i: nat): set<Key>
    requires 5 <= i <= 7
  {
    if i == 5 then {Heading, Pitch, Roll}
    else if i == 6 then {DepthTop, PressureTop, TemperatureTop, DeltaPressure}
    else {DepthBottom, PressureBottom, TemperatureBottom, DeltaPressure}
  }

  /**
   * Failures stay inside their block: two lines that differ only in block
   * field `i` decode to records that agree on every key outside that block.
   */
  lemma BlockLocality(a: string, b: string, i: nat)
    requires 5 <= i <= 7
    requires |Split(a, '\t')| >= MinFields && |Split(b, '\t')| >= MinFields
    requires forall j :: 0 <= j < MinFields && j != i ==> Split(a, '\t')[j] == Split(b, '\t')[j]
    ensures Decode(a).Success? && Decode(b).Success?
    ensures forall k :: k !in BlockKeys(i) ==> Field(Decode(a).value, k) == Field(Decode(b).value, k)
  {
    var fa, fb := Split(a, '\t'), Split(b, '\t');
    assert i != 5 ==> fa[5] == fb[5];
    assert i != 6 ==> fa[6] == fb[6];
    assert i != 7 ==> fa[7] == fb[7];
    AssembledLocal(RobustFloat, fa, ParseHpr(fa[5]), ParseDpt(fa[6]), ParseDpt(fa[7]),
                   fb, ParseHpr(fb[5]), ParseDpt(fb[6]), ParseDpt(fb[7]), i);
  }

  lemma AssembledLocal(convert: string -> Num, fa: seq<string>, ha: seq<string>, ta: seq<string>, ba: seq<string>,
                       fb: seq<string>, hb: seq<string>, tb: seq<string>, bb: seq<string>, i: nat)
    requires 5 <= i <= 7
    requires |fa| >= MinFields && |ha| >= 3 && |ta| == 3 && |ba| == 3
    requires |fb| >= MinFields && |hb| >= 3 && |tb| == 3 && |bb| == 3
    requires forall j :: 0 <= j < 5 ==> fa[j] == fb[j]
    requires (i != 5 ==> ha == hb) && (i != 6 ==> ta == tb) && (i != 7 ==> ba == bb)
    ensures forall k :: k !in BlockKeys(i) ==>
      Field(Assemble(convert, fa, ha, ta, ba), k) == Field(Assemble(convert, fb, hb, tb, bb), k)
  {
    var ra, rb := Assemble(convert, fa, ha, ta, ba), Assemble(convert, fb, hb, tb, bb);
    forall k | k !in BlockKeys(i)
      ensures Field(ra, k) == Field(rb, k)
    {
      assert fa[0] == fb[0] && fa[1] == fb[1] && fa[2] == fb[2] && fa[3] == fb[3] && fa[4] == fb[4];
    }
  }
}
