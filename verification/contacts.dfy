/** The contact-list parser `handleNumbers`: a text blob with one contact per
    line and comma-separated fields becomes one positional record per line.
    A record is the list of its fields; the source stores it as an object with
    keys "0", "1", ..., which enumerate in the same order. */
module Contacts {
  import opened Strings

  /** The placeholder phone number written in place of a missing or short one. */
  const Sentinel: string := "0000000000"

  /** The name written for an empty line. */
  const UndefinedName: string := "undefined"

  /** Shortest phone field kept as it is. */
  const MinPhoneLength: nat := 10

  type Record = seq<string>

  /** A record as the rest of the program expects it: a name field and a phone
      field that is at least `MinPhoneLength` characters long. */
  predicate ValidRecord(rec: Record) {
    |rec| >= 2 && |rec[1]| >= MinPhoneLength
  }

  /** True when the fields of a line survive the parser unchanged. */
  predicate WellFormedFields(fields: seq<string>) {
    |fields| >= 2 && |fields[1]| >= MinPhoneLength
  }

  /** The coercion applied to the fields of one line. */
  function NormalizeFields(fields: seq<string>): (rec: Record)
    requires |fields| >= 1
    ensures ValidRecord(rec)
    ensures |fields| >= 2 ==> |rec| == |fields|
    ensures |fields| >= 2 ==> forall j :: 0 <= j < |fields| && j != 1 ==> rec[j] == fields[j]
  {
    if |fields| >= 2 then
      if |fields[1]| >= MinPhoneLength then fields
      else fields[1 := Sentinel]
    else if |fields[0]| > 0 then fields + [Sentinel]
    else [UndefinedName, Sentinel]
  }

  /** One line of the contact list turned into a record. */
  function ParseLine(line: string): (rec: Record)
    ensures ValidRecord(rec)
  {
    NormalizeFields(Split(line, ','))
  }

  /** The records of the given lines, one per line, in order. */
  function ParseLines(lines: seq<string>): (records: seq<Record>)
    ensures |records| == |lines|
    ensures forall i :: 0 <= i < |lines| ==> records[i] == ParseLine(lines[i])
    decreases |lines|
  {
    if |lines| == 0 then []
    else [ParseLine(lines[0])] + ParseLines(lines[1..])
  }

  /** `handleNumbers(contactList)`. */
  function HandleNumbers(contactList: string): (records: seq<Record>)
    ensures |records| == multiset(contactList)['\n'] + 1
    ensures forall i :: 0 <= i < |records| ==> ValidRecord(records[i])
  {
    SplitCount(contactList, '\n');
    ParseLines(Split(contactList, '\n'))
  }

  /** The i-th record is parsed from the i-th line: nothing is dropped,
      added or reordered. */
  lemma RecordOfLine(contactList: string, i: nat)
    requires i < |Split(contactList, '\n')|
    ensures i < |HandleNumbers(contactList)|
    ensures HandleNumbers(contactList)[i] == ParseLine(Split(contactList, '\n')[i])
  {
  }

  /** A line with a phone field of ten or more characters is kept field for field. */
  lemma ParseLineKeepsWellFormed(line: string)
    requires WellFormedFields(Split(line, ','))
    ensures ParseLine(line) == Split(line, ',')
  {
  }

  /** A short phone field becomes the sentinel; every other field is kept. */
  lemma ParseLineShortPhone(line: string)
    requires |Split(line, ',')| >= 2 && |Split(line, ',')[1]| < MinPhoneLength
    ensures |ParseLine(line)| == |Split(line, ',')|
    ensures ParseLine(line)[1] == Sentinel
    ensures forall j :: 0 <= j < |ParseLine(line)| && j != 1 ==>
      ParseLine(line)[j] == Split(line, ',')[j]
  {
  }

  /** A non-empty line without a comma is a name; the sentinel is appended. */
  lemma ParseLineNameOnly(line: string)
    requires line != "" && ',' !in line
    ensures ParseLine(line) == [line, Sentinel]
  {
    SplitNoSep(line, ',');
  }

  /** An empty line becomes the placeholder record. */
  lemma ParseLineEmpty()
    ensures ParseLine("") == [UndefinedName, Sentinel]
  {
  }

  predicate CommaFree(rec: Record) {
    forall j :: 0 <= j < |rec| ==> ',' !in rec[j]
  }

  /** Joining a record back with commas gives the line exactly when the line
      was well formed; every other line is altered by the parser. */
  lemma {:induction false} ParseLineLossless(line: string)
    ensures Join(ParseLine(line), ',') == line <==> WellFormedFields(Split(line, ','))
  {
    var fields := Split(line, ',');
    var rec := ParseLine(line);
    JoinSplit(line, ',');
    assert CommaFree(rec) by {
      forall j | 0 <= j < |rec| ensures ',' !in rec[j] {
        if |fields| >= 2 && j != 1 {
          assert rec[j] == fields[j];
        } else if |fields| == 1 && |fields[0]| > 0 && j == 0 {
          assert rec[j] == fields[0];
        }
      }
    }
    SplitJoin(rec, ',');
    if Join(rec, ',') == line {
      assert rec == fields;
    }
  }

  /** One line per record: the records joined back. */
  function JoinRecords(records: seq<Record>): seq<string>
  {
    seq(|records|, i requires 0 <= i < |records| => Join(records[i], ','))
  }

  /** A contact list whose every line is well formed is recovered exactly from
      its records. */
  lemma HandleNumbersLossless(contactList: string)
    requires forall i :: 0 <= i < |Split(contactList, '\n')| ==>
      WellFormedFields(Split(Split(contactList, '\n')[i], ','))
    ensures Join(JoinRecords(HandleNumbers(contactList)), '\n') == contactList
  {
    var lines := Split(contactList, '\n');
    var joined := JoinRecords(HandleNumbers(contactList));
    forall i | 0 <= i < |lines| ensures joined[i] == lines[i] {
      ParseLineLossless(lines[i]);
    }
    assert joined == lines;
    JoinSplit(contactList, '\n');
  }
}
