/**
 * The two checksummed sub-blocks of a DL20 line: heading/pitch/roll
 * (`ISHPR,h,p,r cc`) and depth/pressure/temperature (`ISDPT,d,M,p,B,t,C cc`).
 * A block that is too short or fails its checksum reads as three "nan" texts.
 */
module Blocks {
  import opened Text
  import opened Checksum
  import opened Numbers

  /** What a block that cannot be read degrades to. */
  const Sentinel: seq<string> := ["nan", "nan", "nan"]

  /** The comma fields of a block, checksum excluded. */
  function Fields(message: string): seq<string> {
    Split(DropLast3(message), ',')
  }

  /** `parse_hpr`: every field after the (unchecked) tag, or the sentinel. */
  function ParseHpr(message: string): (r: seq<string>)
    ensures |r| >= 3
  {
    var values := Fields(message);
    if |values| < 4 || !ChecksumOk(message) then Sentinel else values[1..]
  }

  /** `parse_dpt`: the fields at positions 1, 3 and 5, skipping the unit tags, or the sentinel. */
  function ParseDpt(message: string): (r: seq<string>)
    ensures |r| == 3
  {
    var values := Fields(message);
    if |values| < 7 || !ChecksumOk(message) then Sentinel else [values[1], values[3], values[5]]
  }

  /** A heading/pitch/roll block that is read rather than replaced by the sentinel. */
  predicate HprReadable(message: string) {
    |Fields(message)| >= 4 && ChecksumOk(message)
  }

  /** A depth/pressure/temperature block that is read rather than replaced by the sentinel. */
  predicate DptReadable(message: string) {
    |Fields(message)| >= 7 && ChecksumOk(message)
  }

  /** A block as the sensor sends it: its fields joined by commas, then a separator and the checksum. */
  function EncodeBlock(fields: seq<string>, sep: char): string {
    Seal(Join(fields, ','), sep)
  }

  /** Every sentinel text converts to NaN. */
  lemma SentinelIsNaN()
    ensures forall i :: 0 <= i < |Sentinel| ==> RobustFloat(Sentinel[i]) == NaN
  {
    NanTextIsNaN();
    forall i | 0 <= i < |Sentinel|
      ensures RobustFloat(Sentinel[i]) == NaN
    {
      assert Sentinel[i] == "nan";
    }
  }

  /** Both parsers return comma-free texts. */
  lemma ResultsCommaFree(message: string)
    ensures FreeOf(ParseHpr(message), ',') && FreeOf(ParseDpt(message), ',')
  {
    var values := Fields(message);
    SplitShape(DropLast3(message), ',');
    SelectedCommaFree(values, ChecksumOk(message));
  }

  lemma SelectedCommaFree(values: seq<string>, ok: bool)
    requires FreeOf(values, ',')
    ensures FreeOf(if |values| < 4 || !ok then Sentinel else values[1..], ',')
    ensures FreeOf(if |values| < 7 || !ok then Sentinel else [values[1], values[3], values[5]], ',')
  {
    assert FreeOf(Sentinel, ',');
  }

  /** A sealed block's fields are the ones it was built from. */
  lemma EncodedFields(fields: seq<string>, sep: char)
    requires |fields| >= 1 && FreeOf(fields, ',') && XorAll(Join(fields, ',')) < 256
    ensures Fields(EncodeBlock(fields, sep)) == fields
    ensures ChecksumOk(EncodeBlock(fields, sep))
  {
    SealPasses(Join(fields, ','), sep);
    SplitJoin(fields, ',');
  }

  /** A well-formed heading/pitch/roll block reads as every field after its tag. */
  lemma HprRoundTrip(fields: seq<string>, sep: char)
    requires |fields| >= 4 && FreeOf(fields, ',') && XorAll(Join(fields, ',')) < 256
    ensures HprReadable(EncodeBlock(fields, sep))
    ensures ParseHpr(EncodeBlock(fields, sep)) == fields[1..]
  {
    EncodedFields(fields, sep);
  }

  /** A well-formed depth/pressure/temperature block reads as its depth, pressure and temperature. */
  lemma DptRoundTrip(fields: seq<string>, sep: char)
    requires |fields| >= 7 && FreeOf(fields, ',') && XorAll(Join(fields, ',')) < 256
    ensures DptReadable(EncodeBlock(fields, sep))
    ensures ParseDpt(EncodeBlock(fields, sep)) == [fields[1], fields[3], fields[5]]
  {
    EncodedFields(fields, sep);
  }

  /**
   * Depth blocks, each sealed with its own checksum, whose fields differ only in
   * the tag and the unit fields read the same. Only the checksum reads those
   * fields, and it protects them (`CorruptionDegrades`).
   */
  lemma DptIgnoresTagAndUnits(f: seq<string>, g: seq<string>, sep: char, sep': char)
    requires |f| >= 7 && FreeOf(f, ',') && XorAll(Join(f, ',')) < 256
    requires |g| >= 7 && FreeOf(g, ',') && XorAll(Join(g, ',')) < 256
    requires f[1] == g[1] && f[3] == g[3] && f[5] == g[5]
    ensures ParseDpt(EncodeBlock(f, sep)) == ParseDpt(EncodeBlock(g, sep'))
  {
    DptRoundTrip(f, sep);
    DptRoundTrip(g, sep');
  }

  /**
   * Heading/pitch/roll blocks, each sealed with its own checksum, whose fields
   * differ only in the tag read the same. Only the checksum reads the tag, and
   * it protects it (`CorruptionDegrades`).
   */
  lemma HprIgnoresTag(f: seq<string>, g: seq<string>, sep: char, sep': char)
    requires |f| >= 4 && FreeOf(f, ',') && XorAll(Join(f, ',')) < 256
    requires |g| == |f| && FreeOf(g, ',') && XorAll(Join(g, ',')) < 256
    requires f[1..] == g[1..]
    ensures ParseHpr(EncodeBlock(f, sep)) == ParseHpr(EncodeBlock(g, sep'))
  {
    HprRoundTrip(f, sep);
    HprRoundTrip(g, sep');
  }

  /** A block that is unreadable reads as the sentinel. */
  lemma UnreadableIsSentinel(message: string)
    ensures !HprReadable(message) ==> ParseHpr(message) == Sentinel
    ensures !DptReadable(message) ==> ParseDpt(message) == Sentinel
  {
  }

  /** Corrupting any protected character of a readable block turns it into the sentinel. */
  lemma CorruptionDegrades(message: string, i: nat, ch: char)
    requires ChecksumOk(message) && i < |message| - 3 && ch != message[i]
    ensures ParseHpr(message[i := ch]) == Sentinel
    ensures ParseDpt(message[i := ch]) == Sentinel
  {
    SingleChangeDetected(message, i, ch);
  }

  /**
   * A readable block can spell the sentinel: the NaN triple does not by
   * itself tell a failed block from one that carried "nan" values.
   */
  lemma SentinelIsAmbiguous()
    ensures var m := EncodeBlock(["ISHPR"] + Sentinel, ' '); HprReadable(m) && ParseHpr(m) == Sentinel
  {
    var fields := ["ISHPR"] + Sentinel;
    assert FreeOf(fields, ',');
    assert SevenBit("ISHPR") && SevenBit("nan");
    assert forall i :: 0 <= i < |fields| ==> SevenBit(fields[i]);
    JoinSevenBit(fields, ',');
    SevenBitXor(Join(fields, ','));
    HprRoundTrip(fields, ' ');
  }
}
