/**
 * The JSON-lines transfer text the consumer stages for one batch (src/consumer.py:76-94):
 * one `json.dumps` line per record, in batch order, each ending in a newline, with the
 * `updated_timestamp` field rewritten as a UTC ISO 8601 string.
 */
module Transfer {
  import opened Wrappers
  import opened IsoTime
  import opened JsonString
  import opened JsonObject

  /** The `updated_timestamp` value a deserialized record carries. */
  datatype Timestamp =
    | EpochMillis(ms: int)        // an Avro `timestamp-millis` long
    | Aware(micros: int)          // a timezone-aware `datetime`, as microseconds since the epoch in UTC

  /**
   * A record as the Avro deserializer returns it, fields in schema order. `price` is a Python
   * float; the model carries the text `json.dumps` writes for it (its `repr`).
   */
  datatype Record = Record(productId: string, name: string, category: string, price: string, updated: Timestamp)

  /**
   * The ISO text of a timestamp, or `None` when the conversion raises (outside the datetime range).
   * An aware datetime loses its sub-millisecond digits.
   */
  function IsoText(t: Timestamp): (r: Option<string>)
    ensures r.Some? ==> |r.value| == 24
  {
    match t
    case EpochMillis(ms) => if InDatetimeRange(ms) then Some(FormatUtcMillis(ms)) else None
    case Aware(us) =>
      // isoformat(timespec='milliseconds') drops the sub-millisecond digits
      var ms := us / 1000;
      if InDatetimeRange(ms) then Some(FormatUtcMillis(ms)) else None
  }

  /**
   * A timestamp has ISO text exactly when its instant, truncated to the millisecond, lies in the
   * datetime range, and the text reads back as that instant.
   */
  lemma IsoTextParsesBack(t: Timestamp)
    ensures t.EpochMillis? ==> (IsoText(t).Some? <==> InDatetimeRange(t.ms))
    ensures t.Aware? ==> (IsoText(t).Some? <==> InDatetimeRange(t.micros / 1000))
    ensures IsoText(t).Some? && t.EpochMillis? ==> ParseUtcMillis(IsoText(t).value) == Some(t.ms)
    ensures IsoText(t).Some? && t.Aware? ==> ParseUtcMillis(IsoText(t).value) == Some(t.micros / 1000)
  {
    match t
    case EpochMillis(ms) => if InDatetimeRange(ms) { ParseFormat(ms); }
    case Aware(us) => if InDatetimeRange(us / 1000) { ParseFormat(us / 1000); }
  }

  lemma RecordMembersWritable(r: Record, iso: string)
    requires IsNumberText(r.price)
    ensures Writable(RecordMembers(r, iso))
  {
    var ms := RecordMembers(r, iso);
    forall i | 0 <= i < |ms| ensures IsKey(ms[i].0) && (ms[i].1.Num? ==> IsNumberText(ms[i].1.token)) {
      assert ms[i].1.Num? ==> i == 3;
    }
  }

  /** The items of the dict `json.dumps` writes for a record whose timestamp converted to `iso`. */
  function RecordMembers(r: Record, iso: string): seq<(string, Value)> {
    [("product_id", Str(r.productId)), ("name", Str(r.name)), ("category", Str(r.category)),
     ("price", Num(r.price)), ("updated_timestamp", Str(iso))]
  }

  /** `json.dumps(processed_record)` for one record, or `None` when its timestamp conversion raises. */
  function EncodeRecord(r: Record): (line: Option<string>)
    requires IsNumberText(r.price)
    ensures line.Some? <==> IsoText(r.updated).Some?
    ensures line.Some? ==> AllPrintable(line.value) && |line.value| >= 2 && line.value[0] == '{'
  {
    var iso := IsoText(r.updated);
    if iso.Some? then
      RecordMembersWritable(r, iso.value);
      Some(ObjectText(RecordMembers(r, iso.value)))
    else None
  }

  /**
   * A record's line reads back as its five members in schema order: the three strings and the
   * price text unchanged, and an `updated_timestamp` string that parses back to the record's
   * instant truncated to the millisecond.
   */
  lemma EncodeRecordReadBack(r: Record)
    requires IsNumberText(r.price) && EncodeRecord(r).Some?
    ensures var m := ReadObject(EncodeRecord(r).value);
      m.Some? && |m.value| == 5
      && m.value[0] == ("product_id", Str(r.productId))
      && m.value[1] == ("name", Str(r.name))
      && m.value[2] == ("category", Str(r.category))
      && m.value[3] == ("price", Num(r.price))
      && m.value[4].0 == "updated_timestamp" && m.value[4].1.Str?
      && ParseUtcMillis(m.value[4].1.text) == Some(if r.updated.EpochMillis? then r.updated.ms else r.updated.micros / 1000)
  {
    var iso := IsoText(r.updated).value;
    RecordMembersWritable(r, iso);
    ReadObjectText(RecordMembers(r, iso));
    IsoTextParsesBack(r.updated);
  }

  predicate WellFormed(batch: seq<Record>) {
    forall i :: 0 <= i < |batch| ==> IsNumberText(batch[i].price)
  }

  /** Every record's timestamp converts. */
  predicate Convertible(batch: seq<Record>) {
    forall i :: 0 <= i < |batch| ==> IsoText(batch[i].updated).Some?
  }

  lemma ConvertibleCons(batch: seq<Record>)
    requires batch != []
    ensures Convertible(batch) <==> IsoText(batch[0].updated).Some? && Convertible(batch[1..])
  {
    if IsoText(batch[0].updated).Some? && Convertible(batch[1..]) {
      forall i | 0 < i < |batch| ensures IsoText(batch[i].updated).Some? {
        assert batch[i] == batch[1..][i - 1];
      }
    }
  }

  /**
   * The whole transfer text of a batch: every record's line followed by a newline, in batch order;
   * `None` when any record's conversion raises, which aborts the load attempt.
   */
  function EncodeBatch(batch: seq<Record>): (text: Option<string>)
    requires WellFormed(batch)
    ensures text.Some? <==> Convertible(batch)
  {
    if batch == [] then Some([])
    else
      var head := EncodeRecord(batch[0]);
      var rest := EncodeBatch(batch[1..]);
      ConvertibleCons(batch);
      if head.Some? && rest.Some? then Some(head.value + "\n" + rest.value) else None
  }

  /** Position of the first newline in `s`, or `|s|` when there is none. */
  function NewlineAt(s: string): (i: nat)
    ensures i <= |s| && (i < |s| ==> s[i] == '\n')
    ensures forall k :: 0 <= k < i ==> s[k] != '\n'
  {
    if s == [] || s[0] == '\n' then 0 else 1 + NewlineAt(s[1..])
  }

  /** The lines of a text as a line-by-line reader sees them, without their newlines. */
  function Lines(s: string): seq<string>
    decreases |s|
  {
    if s == [] then []
    else
      var i := NewlineAt(s);
      if i == |s| then [s] else [s[..i]] + Lines(s[i + 1..])
  }

  lemma LinesCons(line: string, rest: string)
    requires forall k :: 0 <= k < |line| ==> line[k] != '\n'
    ensures Lines(line + "\n" + rest) == [line] + Lines(rest)
  {
    var s := line + "\n" + rest;
    NewlineIsFirst(line, rest);
    assert s[..|line|] == line;
    assert s[|line| + 1..] == rest;
  }

  lemma NewlineIsFirst(line: string, rest: string)
    requires forall k :: 0 <= k < |line| ==> line[k] != '\n'
    ensures NewlineAt(line + "\n" + rest) == |line|
  {
    var s := line + "\n" + rest;
    var i := NewlineAt(s);
    assert s[|line|] == '\n';
  }

  lemma NoNewline(line: string)
    requires AllPrintable(line)
    ensures forall k :: 0 <= k < |line| ==> line[k] != '\n'
  {
    forall k | 0 <= k < |line| ensures line[k] != '\n' {
      assert IsPrintable(line[k]);
    }
  }

  lemma EncodeBatchCons(batch: seq<Record>)
    requires batch != [] && WellFormed(batch) && EncodeBatch(batch).Some?
    ensures WellFormed(batch[1..]) && EncodeBatch(batch[1..]).Some? && EncodeRecord(batch[0]).Some?
    ensures EncodeBatch(batch).value == EncodeRecord(batch[0]).value + "\n" + EncodeBatch(batch[1..]).value
  {
    assert WellFormed(batch[1..]) by {
      forall i | 0 <= i < |batch[1..]| ensures IsNumberText(batch[1..][i].price) {
        assert batch[1..][i] == batch[i + 1];
      }
    }
    ConvertibleCons(batch);
  }

  lemma LineAt(batch: seq<Record>, line: string, lines: seq<string>, i: nat)
    requires 0 < i < |batch| && |lines| + 1 == |batch| && WellFormed(batch)
    requires EncodeRecord(batch[1..][i - 1]) == Some(lines[i - 1])
    ensures EncodeRecord(batch[i]) == Some(([line] + lines)[i])
  {
    assert batch[1..][i - 1] == batch[i];
  }

  lemma ShiftLines(batch: seq<Record>, line: string, lines: seq<string>)
    requires batch != [] && |lines| + 1 == |batch| && WellFormed(batch)
    requires EncodeRecord(batch[0]) == Some(line)
    requires forall i :: 0 <= i < |lines| ==> EncodeRecord(batch[1..][i]) == Some(lines[i])
    ensures forall i :: 0 <= i < |batch| ==> EncodeRecord(batch[i]) == Some(([line] + lines)[i])
  {
    forall i | 0 < i < |batch| ensures EncodeRecord(batch[i]) == Some(([line] + lines)[i]) {
      LineAt(batch, line, lines, i);
    }
  }

  /**
   * The transfer text holds exactly one line per batch record, in batch order, and each line
   * is that record's `json.dumps` text.
   */
  lemma {:induction false} OneLinePerRecord(batch: seq<Record>)
    requires WellFormed(batch) && EncodeBatch(batch).Some?
    ensures var lines := Lines(EncodeBatch(batch).value);
      |lines| == |batch| && forall i :: 0 <= i < |batch| ==> EncodeRecord(batch[i]) == Some(lines[i])
  {
    if batch != [] {
      EncodeBatchCons(batch);
      var line := EncodeRecord(batch[0]).value;
      var rest := EncodeBatch(batch[1..]).value;
      NoNewline(line);
      LinesCons(line, rest);
      OneLinePerRecord(batch[1..]);
      ShiftLines(batch, line, Lines(rest));
    }
  }
}
