/** Auto-reply triggers. A trigger is stored, and an incoming message is looked
    up, after the same normalisation `s.replace(/['";]/g, '').toLowerCase()`:
    single quotes, double quotes and semicolons are removed and letters are
    lowered. Only ASCII text is modelled, where lowering maps `A`..`Z` to
    `a`..`z` and leaves every other character alone. */
module AutoReply {
  import opened Options
  import opened Strings

  predicate IsAscii(s: string) {
    forall i :: 0 <= i < |s| ==> s[i] as int < 128
  }

  /** The characters the trigger pattern removes. */
  predicate Stripped(c: char) {
    c == '\'' || c == '"' || c == ';'
  }

  predicate IsUpper(c: char) {
    'A' <= c <= 'Z'
  }

  function LowerChar(c: char): (d: char)
    ensures !IsUpper(d)
    ensures IsUpper(c) ==> d as int == c as int + 32
    ensures !IsUpper(c) ==> d == c
  {
    if IsUpper(c) then (c as int + 32) as char else c
  }

  /** The normal form a trigger is stored in and a message is looked up by. */
  function Normalize(s: string): (r: string)
    requires IsAscii(s)
    ensures |r| <= |s|
    ensures IsAscii(r)
    ensures forall i :: 0 <= i < |r| ==> !Stripped(r[i]) && !IsUpper(r[i])
    decreases |s|
  {
    if |s| == 0 then ""
    else if Stripped(s[0]) then Normalize(s[1..])
    else [LowerChar(s[0])] + Normalize(s[1..])
  }

  /** Normalisation works character by character: it distributes over concatenation. */
  lemma {:induction false} NormalizeConcat(a: string, b: string)
    requires IsAscii(a) && IsAscii(b)
    ensures IsAscii(a + b)
    ensures Normalize(a + b) == Normalize(a) + Normalize(b)
    decreases |a|
  {
    if |a| > 0 {
      assert (a + b)[1..] == a[1..] + b;
      NormalizeConcat(a[1..], b);
    } else {
      assert a + b == b;
    }
  }

  /** Normalised text is its own normal form. */
  lemma {:induction false} NormalizeIdempotent(s: string)
    requires IsAscii(s)
    ensures Normalize(Normalize(s)) == Normalize(s)
    decreases |s|
  {
    if |s| > 0 {
      NormalizeIdempotent(s[1..]);
      if !Stripped(s[0]) {
        var r := Normalize(s);
        assert r == [LowerChar(s[0])] + Normalize(s[1..]);
        assert r[1..] == Normalize(s[1..]);
      }
    }
  }

  /** Exactly the quotes and semicolons are dropped: the output is shorter by
      their number. */
  lemma {:induction false} NormalizeLength(s: string)
    requires IsAscii(s)
    ensures |Normalize(s)| == |s| - multiset(s)['\''] - multiset(s)['"'] - multiset(s)[';']
    decreases |s|
  {
    if |s| > 0 {
      NormalizeLength(s[1..]);
      assert s == [s[0]] + s[1..];
      assert multiset(s) == multiset([s[0]]) + multiset(s[1..]);
    }
  }

  /** A row of the `autoreply` table: the id SQLite assigns, the trigger and
      the reply (column `message`). */
  datatype Rule = Rule(id: nat, trigger: string, reply: string)

  /** The `savebot` handler: the trigger is normalised before it is stored.
      `id` is the row id the database assigns to the new row. */
  function SaveBot(table: seq<Rule>, id: nat, trigger: string, reply: string): (table': seq<Rule>)
    requires IsAscii(trigger)
    ensures |table'| == |table| + 1 && table'[..|table|] == table
    ensures table'[|table|] == Rule(id, Normalize(trigger), reply)
    ensures '"' !in table'[|table|].trigger && '\'' !in table'[|table|].trigger
    ensures IsAscii(table'[|table|].trigger)
    ensures table'[|table|].trigger == Normalize(table'[|table|].trigger)
  {
    NormalizeIdempotent(trigger);
    table + [Rule(id, Normalize(trigger), reply)]
  }

  /** What the double-quoted `"key"` on the right of the lookup's
      `WHERE trigger == "key"` denotes. SQLite reads a double-quoted token
      that names a column of the queried table as that column, and falls back
      to a string literal only when it names none. The columns of `autoreply`
      are `id`, `trigger` and `message`; `id` is declared `INTEGER PRIMARY
      KEY`, so it is the rowid, which the names `rowid`, `oid` and `_rowid_`
      also denote. Keys are normalised, hence lower case, so the
      case-insensitive name match is an equality here. */
  datatype Operand = IdColumn | TriggerColumn | MessageColumn | Literal(text: string)

  predicate IsRowidName(key: string) {
    key == "id" || key == "rowid" || key == "oid" || key == "_rowid_"
  }

  predicate IsColumnName(key: string) {
    IsRowidName(key) || key == "trigger" || key == "message"
  }

  function WhereOperand(key: string): (op: Operand)
    ensures op.Literal? <==> !IsColumnName(key)
    ensures op.Literal? ==> op.text == key
    ensures op == IdColumn <==> IsRowidName(key)
    ensures key == "trigger" ==> op == TriggerColumn
    ensures key == "message" ==> op == MessageColumn
  {
    if IsRowidName(key) then IdColumn
    else if key == "trigger" then TriggerColumn
    else if key == "message" then MessageColumn
    else Literal(key)
  }

  /** Whether a row satisfies `trigger == op`. Two TEXT columns compare as
      text. Against the INTEGER column `id`, the trigger takes numeric
      affinity, so a trigger that is a decimal numeral equals the id it
      denotes. A trigger is never NULL: `savebot` fails before the INSERT
      when it is missing. */
  predicate Matches(row: Rule, op: Operand) {
    match op
    case IdColumn => |row.trigger| > 0 && IsDigits(row.trigger) && DigitsValue(row.trigger) == row.id
    case TriggerColumn => true
    case MessageColumn => row.trigger == row.reply
    case Literal(text) => row.trigger == text
  }

  /** Index of the first row, from `from` on, that satisfies `trigger == op`. */
  function FindRow(table: seq<Rule>, op: Operand, from: nat): (r: Option<nat>)
    requires from <= |table|
    ensures r.Some? ==> from <= r.value < |table| && Matches(table[r.value], op)
    ensures r.Some? ==> forall j :: from <= j < r.value ==> !Matches(table[j], op)
    ensures r.None? ==> forall j :: from <= j < |table| ==> !Matches(table[j], op)
    decreases |table| - from
  {
    if from == |table| then None
    else if Matches(table[from], op) then Some(from)
    else FindRow(table, op, from + 1)
  }

  /** The reply of the first row satisfying `trigger == op`, if any (`LIMIT 1`). */
  function Query(table: seq<Rule>, op: Operand): Option<string> {
    match FindRow(table, op, 0)
    case Some(k) => Some(table[k].reply)
    case None => None
  }

  /** The `message` handler as written: the normalised message is spliced
      into the query between double quotes. */
  function Lookup(table: seq<Rule>, message: string): (reply: Option<string>)
    requires IsAscii(message)
    ensures reply.None? <==>
      forall j :: 0 <= j < |table| ==> !Matches(table[j], WhereOperand(Normalize(message)))
    ensures reply.Some? ==>
      exists j :: 0 <= j < |table| && Matches(table[j], WhereOperand(Normalize(message)))
               && (forall i :: 0 <= i < j ==> !Matches(table[i], WhereOperand(Normalize(message))))
               && table[j].reply == reply.value
  {
    Query(table, WhereOperand(Normalize(message)))
  }

  /** The lookup as intended: the normalised message compared as a string
      with every stored trigger, as a bound parameter (`trigger == ?`) would. */
  function LookupByValue(table: seq<Rule>, message: string): (reply: Option<string>)
    requires IsAscii(message)
    ensures reply.None? <==> forall j :: 0 <= j < |table| ==> table[j].trigger != Normalize(message)
    ensures reply.Some? ==>
      exists j :: 0 <= j < |table| && table[j].trigger == Normalize(message)
               && (forall i :: 0 <= i < j ==> table[i].trigger != Normalize(message))
               && table[j].reply == reply.value
  {
    Query(table, Literal(Normalize(message)))
  }

  /** Unless the normalised message is a column name, the query as written
      answers as intended. */
  lemma LookupAgreesOnOrdinaryText(table: seq<Rule>, message: string)
    requires IsAscii(message)
    ensures !IsColumnName(Normalize(message)) ==> Lookup(table, message) == LookupByValue(table, message)
  {
  }

  /** A message normalising to `trigger` gets the first row's reply, whatever
      the triggers are; one normalising to `message` gets the reply of the
      first row whose trigger is its own reply. */
  lemma LookupColumnNames(table: seq<Rule>, message: string)
    requires IsAscii(message)
    ensures Normalize(message) == "trigger" && |table| > 0 ==> Lookup(table, message) == Some(table[0].reply)
    ensures Normalize(message) == "message" ==>
      (Lookup(table, message).Some? <==> exists j :: 0 <= j < |table| && table[j].trigger == table[j].reply)
  {
    if Normalize(message) == "trigger" && |table| > 0 {
      assert Matches(table[0], TriggerColumn);
    }
  }

  /** Text with no quote, semicolon or upper-case letter is its own normal form. */
  lemma {:induction false} NormalizePlain(s: string)
    requires IsAscii(s)
    requires forall i :: 0 <= i < |s| ==> !Stripped(s[i]) && !IsUpper(s[i])
    ensures Normalize(s) == s
    decreases |s|
  {
    if |s| > 0 {
      NormalizePlain(s[1..]);
      assert s == [s[0]] + s[1..];
    }
  }

  /** A capitalised word normalises to its lower-case form. */
  lemma NormalizeCapitalised(c: char, rest: string)
    requires IsUpper(c) && IsAscii(rest)
    requires forall i :: 0 <= i < |rest| ==> !Stripped(rest[i]) && !IsUpper(rest[i])
    ensures Normalize([c] + rest) == [LowerChar(c)] + rest
  {
    assert !Stripped(c) && [c][1..] == [];
    assert Normalize([c]) == [LowerChar(c)];
    NormalizeConcat([c], rest);
    NormalizePlain(rest);
  }

  lemma NormalizeTriggerWord()
    ensures Normalize("Trigger") == "trigger"
  {
    NormalizeCapitalised('T', "rigger");
    assert ['T'] + "rigger" == "Trigger";
    assert [LowerChar('T')] + "rigger" == "trigger";
  }

  lemma NormalizeIdWord()
    ensures Normalize("I'd") == "id"
  {
    assert Normalize("I'd") == [LowerChar('I')] + Normalize("'d");
  }

  /** The input that shows the as-written lookup misfire: with the single rule
      `hi` -> `hello`, the message `Trigger` is answered with `hello`, which
      the intended lookup does not do. */
  lemma TriggerMessageMisfires()
    ensures Lookup([Rule(1, "hi", "hello")], "Trigger") == Some("hello")
    ensures LookupByValue([Rule(1, "hi", "hello")], "Trigger") == None
  {
    NormalizeTriggerWord();
    var table := [Rule(1, "hi", "hello")];
    assert Matches(table[0], TriggerColumn);
    assert table[0].trigger != "trigger";
  }

  /** The message `I'd` normalises to `id` and is answered by a rule whose
      trigger is its own row id; the intended lookup does not answer it. */
  lemma IdMessageMisfires()
    ensures Lookup([Rule(1, "1", "one")], "I'd") == Some("one")
    ensures LookupByValue([Rule(1, "1", "one")], "I'd") == None
  {
    NormalizeIdWord();
    var table := [Rule(1, "1", "one")];
    assert Matches(table[0], IdColumn) by {
      assert "1"[..0] == "";
      assert DigitsValue("1") == DigitsValue("") * 10 + DigitValue('1');
    }
    assert table[0].trigger != "id";
  }

  /** The message `rowid` names the same column as `id`. */
  lemma RowidMessageMisfires()
    ensures Lookup([Rule(1, "1", "one")], "rowid") == Some("one")
    ensures LookupByValue([Rule(1, "1", "one")], "rowid") == None
  {
    NormalizePlain("rowid");
    var table := [Rule(1, "1", "one")];
    assert Matches(table[0], IdColumn) by {
      assert "1"[..0] == "";
      assert DigitsValue("1") == DigitsValue("") * 10 + DigitValue('1');
    }
    assert table[0].trigger != "rowid";
  }

  /** A rule saved under the trigger `message` cannot be reached by typing
      `message`: the query compares each row's trigger with its own reply, so
      the saved row is missed, while comparing by value finds it. */
  lemma SavedColumnNameUnreachable()
    ensures Lookup(SaveBot([], 1, "message", "hi"), "message") == None
    ensures LookupByValue(SaveBot([], 1, "message", "hi"), "message") == Some("hi")
  {
    NormalizePlain("message");
    var table := SaveBot([], 1, "message", "hi");
    assert table == [Rule(1, "message", "hi")];
    assert WhereOperand("message") == MessageColumn;
    assert !Matches(table[0], MessageColumn);
    assert Matches(table[0], Literal("message"));
  }

  /** Likewise for the trigger `id` saved on a row whose id is not the text
      `id`: the query compares the trigger with the row id. */
  lemma SavedRowidNameUnreachable()
    ensures Lookup(SaveBot([], 5, "id", "hi"), "id") == None
    ensures LookupByValue(SaveBot([], 5, "id", "hi"), "id") == Some("hi")
  {
    NormalizePlain("id");
    var table := SaveBot([], 5, "id", "hi");
    assert table == [Rule(5, "id", "hi")];
    assert WhereOperand("id") == IdColumn;
    assert !Matches(table[0], IdColumn) by { assert !IsDigit("id"[0]); }
    assert Matches(table[0], Literal("id"));
  }

  /** Saving then looking up, with the intended comparison: a message whose
      normal form is the saved trigger's finds a reply, the saved one unless an
      earlier rule has the same trigger; any other message is answered as
      before the save. */
  lemma SaveThenLookup(table: seq<Rule>, id: nat, trigger: string, reply: string, message: string)
    requires IsAscii(trigger) && IsAscii(message)
    ensures Normalize(message) == Normalize(trigger) ==> LookupByValue(SaveBot(table, id, trigger, reply), message).Some?
    ensures Normalize(message) == Normalize(trigger) && LookupByValue(table, message).None? ==>
      LookupByValue(SaveBot(table, id, trigger, reply), message) == Some(reply)
    ensures Normalize(message) != Normalize(trigger) ==>
      LookupByValue(SaveBot(table, id, trigger, reply), message) == LookupByValue(table, message)
    ensures LookupByValue(table, message).Some? ==>
      LookupByValue(SaveBot(table, id, trigger, reply), message) == LookupByValue(table, message)
  {
    FindAfterAppend(table, Rule(id, Normalize(trigger), reply), Literal(Normalize(message)), 0);
  }

  lemma {:induction false} FindAfterAppend(table: seq<Rule>, rule: Rule, op: Operand, from: nat)
    requires from <= |table|
    ensures FindRow(table + [rule], op, from) ==
      (match FindRow(table, op, from)
       case Some(k) => Some(k)
       case None => if Matches(rule, op) then Some(|table|) else None)
    decreases |table| - from
  {
    var t' := table + [rule];
    if from < |table| {
      assert t'[from] == table[from];
      FindAfterAppend(table, rule, op, from + 1);
    } else {
      assert t'[from] == rule;
      assert from + 1 == |t'|;
    }
  }

  /** A quote or semicolon anywhere in a message does not change what it matches. */
  lemma StrippedCharIgnored(a: string, c: char, b: string)
    requires IsAscii(a) && IsAscii(b) && Stripped(c)
    ensures IsAscii(a + [c] + b) && IsAscii(a + b)
    ensures Normalize(a + [c] + b) == Normalize(a + b)
  {
    NormalizeConcat(a, [c]);
    NormalizeConcat(a + [c], b);
    NormalizeConcat(a, b);
    assert Normalize([c]) == Normalize([c][1..]);
  }

  /** An upper-case letter matches like its lower-case form. */
  lemma CaseIgnored(a: string, c: char, b: string)
    requires IsAscii(a) && IsAscii(b) && IsUpper(c)
    ensures IsAscii(a + [c] + b) && IsAscii(a + [LowerChar(c)] + b)
    ensures Normalize(a + [c] + b) == Normalize(a + [LowerChar(c)] + b)
  {
    NormalizeConcat(a, [c]);
    NormalizeConcat(a + [c], b);
    NormalizeConcat(a, [LowerChar(c)]);
    NormalizeConcat(a + [LowerChar(c)], b);
    assert Normalize([c]) == [LowerChar(c)] + Normalize([c][1..]);
    assert Normalize([LowerChar(c)]) == [LowerChar(LowerChar(c))] + Normalize([LowerChar(c)][1..]);
  }
}
