/** The placeholder substitution inside `sendProcess`: a key/value table is
    built from a contact record, the keys are joined with `|` into one regular
    expression, and a global replace swaps every match for its value.

    JavaScript's alternation tries the alternatives in order at each position
    and takes the first that matches, so the replace is modelled as a
    left-to-right scan that, at each position, substitutes the first key in
    table order that is a prefix of the remaining text, and otherwise copies
    one character. The substituted value is never scanned again. */
module Template {
  import opened Options
  import opened Strings

  /** Ordered key/value pairs, in the insertion order of the source's object. */
  type Table = seq<(string, string)>

  /** Every key is non-empty, so each substitution consumes template text. */
  predicate NonEmptyKeys(table: Table) {
    forall k :: 0 <= k < |table| ==> |table[k].0| > 0
  }

  predicate DistinctKeys(table: Table) {
    forall i, j :: 0 <= i < j < |table| ==> table[i].0 != table[j].0
  }

  /** No key is a prefix of a different key. */
  predicate PrefixFree(table: Table) {
    forall i, j :: 0 <= i < |table| && 0 <= j < |table| && i != j ==> !(table[i].0 <= table[j].0)
  }

  /** Some value of the table contains c. */
  predicate InSomeValue(table: Table, c: char) {
    exists k :: 0 <= k < |table| && c in table[k].1
  }

  /** Index of the first key, from position `from` on, that is a prefix of `text`. */
  function FirstMatchFrom(table: Table, text: string, from: nat): (r: Option<nat>)
    requires from <= |table|
    ensures r.Some? ==> from <= r.value < |table| && table[r.value].0 <= text
    ensures r.Some? ==> forall j :: from <= j < r.value ==> !(table[j].0 <= text)
    ensures r.None? ==> forall j :: from <= j < |table| ==> !(table[j].0 <= text)
    decreases |table| - from
  {
    if from == |table| then None
    else if table[from].0 <= text then Some(from)
    else FirstMatchFrom(table, text, from + 1)
  }

  /** The alternative a JavaScript alternation of the keys matches at the
      start of `text`: the first key in table order that is a prefix of it. */
  function FirstMatch(table: Table, text: string): Option<nat> {
    FirstMatchFrom(table, text, 0)
  }

  /** `template.replace(new RegExp(keys.join('|'), "g"), m => table[m])`. */
  function Render(template: string, table: Table): string
    requires NonEmptyKeys(table)
    decreases |template|
  {
    if |template| == 0 then ""
    else
      match FirstMatch(table, template)
      case Some(k) => table[k].1 + Render(template[|table[k].0|..], table)
      case None => [template[0]] + Render(template[1..], table)
  }

  /** Rendering is a single pass: every character of the output is a template
      character or comes from a value of the table. */
  lemma {:induction false} RenderDrawsOnTemplateAndValues(template: string, table: Table)
    requires NonEmptyKeys(table)
    ensures forall c :: c in Render(template, table) ==> c in template || InSomeValue(table, c)
    decreases |template|
  {
    if |template| > 0 {
      match FirstMatch(table, template)
      case Some(k) =>
        RenderDrawsOnTemplateAndValues(template[|table[k].0|..], table);
        assert forall c :: c in template[|table[k].0|..] ==> c in template;
      case None =>
        RenderDrawsOnTemplateAndValues(template[1..], table);
        assert forall c :: c in template[1..] ==> c in template;
    }
  }

  /** Index of a longest key among the first `n` that is a prefix of `text`
      (the earliest such key on a tie). */
  function LongestMatchIn(table: Table, text: string, n: nat): (r: Option<nat>)
    requires n <= |table|
    ensures r.Some? ==> r.value < n && table[r.value].0 <= text
    ensures r.Some? ==> forall j :: 0 <= j < n && table[j].0 <= text ==> |table[j].0| <= |table[r.value].0|
    ensures r.None? ==> forall j :: 0 <= j < n ==> !(table[j].0 <= text)
    decreases n
  {
    if n == 0 then None
    else
      var r := LongestMatchIn(table, text, n - 1);
      if table[n - 1].0 <= text && (r.None? || |table[n - 1].0| > |table[r.value].0|) then Some(n - 1)
      else r
  }

  function LongestMatch(table: Table, text: string): Option<nat> {
    LongestMatchIn(table, text, |table|)
  }

  /** The renderer with longest-match alternation, under which every key
      stands for its own value. */
  function RenderLongest(template: string, table: Table): string
    requires NonEmptyKeys(table)
    decreases |template|
  {
    if |template| == 0 then ""
    else
      match LongestMatch(table, template)
      case Some(k) => table[k].1 + RenderLongest(template[|table[k].0|..], table)
      case None => [template[0]] + RenderLongest(template[1..], table)
  }

  /** Some key starts at position i of text. */
  predicate KeyAt(table: Table, text: string, i: nat)
    requires i <= |text|
  {
    exists k :: 0 <= k < |table| && table[k].0 <= text[i..]
  }

  /** No key occurs anywhere in text. */
  predicate NoKeyIn(table: Table, text: string) {
    forall i :: 0 <= i <= |text| ==> !KeyAt(table, text, i)
  }

  lemma NoKeyInTail(table: Table, text: string)
    requires |text| > 0 && NoKeyIn(table, text)
    ensures NoKeyIn(table, text[1..])
  {
    forall i | 0 <= i <= |text[1..]| ensures !KeyAt(table, text[1..], i) {
      assert text[1..][i..] == text[i + 1..];
      assert !KeyAt(table, text, i + 1);
    }
  }

  /** A template in which no key occurs is returned unchanged. */
  lemma {:induction false} RenderNoKeys(template: string, table: Table)
    requires NonEmptyKeys(table) && NoKeyIn(table, template)
    ensures Render(template, table) == template
    decreases |template|
  {
    if |template| > 0 {
      assert template[0..] == template;
      assert !KeyAt(table, template, 0);
      NoKeyInTail(table, template);
      RenderNoKeys(template[1..], table);
      assert template == [template[0]] + template[1..];
    }
  }

  /** The same holds with longest-match substitution. */
  lemma {:induction false} RenderLongestNoKeys(template: string, table: Table)
    requires NonEmptyKeys(table) && NoKeyIn(table, template)
    ensures RenderLongest(template, table) == template
    decreases |template|
  {
    if |template| > 0 {
      assert template[0..] == template;
      assert !KeyAt(table, template, 0);
      NoKeyInTail(table, template);
      RenderLongestNoKeys(template[1..], table);
      assert template == [template[0]] + template[1..];
    }
  }

  /** Keys all begin with `c`, so text without `c` contains no key. */
  lemma NoKeyWithoutLead(table: Table, text: string, c: char)
    requires NonEmptyKeys(table)
    requires forall k :: 0 <= k < |table| ==> table[k].0[0] == c
    ensures c !in text ==> NoKeyIn(table, text)
  {
    if c !in text {
      forall i, k | 0 <= i <= |text| && 0 <= k < |table| ensures !(table[k].0 <= text[i..]) {
        if i < |text| {
          assert text[i..][0] == text[i];
        }
      }
    }
  }

  /** Rendering a template without keys twice gives what rendering it once does. */
  lemma RenderIdempotentWithoutKeys(template: string, table: Table)
    requires NonEmptyKeys(table) && NoKeyIn(table, template)
    ensures Render(Render(template, table), table) == Render(template, table)
  {
    RenderNoKeys(template, table);
  }

  /** A character that starts no key is copied through. */
  lemma RenderLiteralChar(c: char, rest: string, table: Table)
    requires NonEmptyKeys(table)
    requires forall k :: 0 <= k < |table| ==> table[k].0[0] != c
    ensures Render([c] + rest, table) == [c] + Render(rest, table)
  {
    var t := [c] + rest;
    forall k | 0 <= k < |table| ensures !(table[k].0 <= t) {
      assert table[k].0[0] != t[0];
    }
    assert t[1..] == rest;
  }

  /** Text without a key start is copied through literally. */
  lemma {:induction false} RenderLiteral(lit: string, rest: string, table: Table)
    requires NonEmptyKeys(table)
    requires forall k :: 0 <= k < |table| ==> table[k].0[0] !in lit
    ensures Render(lit + rest, table) == lit + Render(rest, table)
    decreases |lit|
  {
    if |lit| > 0 {
      RenderLiteralChar(lit[0], lit[1..] + rest, table);
      RenderLiteral(lit[1..], rest, table);
      assert lit + rest == [lit[0]] + (lit[1..] + rest);
      assert lit == [lit[0]] + lit[1..];
    } else {
      assert lit + rest == rest;
    }
  }

  /** The first matching key is replaced by its value; the value is not
      scanned again and the scan resumes after the key. */
  lemma RenderKey(key: string, rest: string, table: Table, k: nat)
    requires NonEmptyKeys(table)
    requires k < |table| && table[k].0 == key
    requires forall j :: 0 <= j < k ==> !(table[j].0 <= key + rest)
    ensures Render(key + rest, table) == table[k].1 + Render(rest, table)
  {
    var t := key + rest;
    assert key <= t;
    assert FirstMatch(table, t) == Some(k);
    assert t[|key|..] == rest;
  }

  /** Under longest-match, a lone key renders as its own value when keys are distinct. */
  lemma RenderLongestKey(table: Table, k: nat)
    requires NonEmptyKeys(table) && DistinctKeys(table)
    requires k < |table|
    ensures RenderLongest(table[k].0, table) == table[k].1
  {
    var key := table[k].0;
    assert key <= key;
    var m := LongestMatch(table, key);
    assert m.Some?;
    assert table[m.value].0 == key;
    assert m.value == k;
    assert key[|key|..] == "";
  }

  /** Two prefixes of one text: the shorter is a prefix of the longer. */
  lemma PrefixesNest(a: string, b: string, text: string)
    requires a <= text && b <= text && |a| <= |b|
    ensures a <= b
  {
    assert a == text[..|a|] == b[..|a|];
  }

  /** With prefix-free keys, first-match and longest-match pick the same key. */
  lemma MatchesAgree(table: Table, text: string)
    requires PrefixFree(table)
    ensures FirstMatch(table, text) == LongestMatch(table, text)
  {
    var f := FirstMatch(table, text);
    var l := LongestMatch(table, text);
    if f.Some? {
      assert l.Some?;
      if f.value != l.value {
        var a := table[f.value].0;
        var b := table[l.value].0;
        if |a| <= |b| {
          PrefixesNest(a, b, text);
        } else {
          PrefixesNest(b, a, text);
        }
      }
    }
  }

  /** With prefix-free keys, the source's alternation and longest-match render alike. */
  lemma {:induction false} RenderAgreesWhenPrefixFree(template: string, table: Table)
    requires NonEmptyKeys(table) && PrefixFree(table)
    ensures Render(template, table) == RenderLongest(template, table)
    decreases |template|
  {
    if |template| > 0 {
      MatchesAgree(table, template);
      match FirstMatch(table, template)
      case Some(k) =>
        RenderAgreesWhenPrefixFree(template[|table[k].0|..], table);
      case None =>
        RenderAgreesWhenPrefixFree(template[1..], table);
    }
  }

  // ---------------------------------------------------------------------------
  // The table built from one contact record

  /** `name.split(" ")[0]`: the name up to its first space. */
  function FirstName(name: string): (first: string)
    ensures first <= name && ' ' !in first
    ensures |first| == |name| || name[|first|] == ' '
  {
    Split(name, ' ')[0]
  }

  /** The value of `&whatsapp`: field 1, or the text JavaScript prints for the
      missing field of a one-field record. */
  function Whatsapp(rec: seq<string>): (phone: string)
    requires |rec| >= 1
  {
    if |rec| >= 2 then rec[1] else "undefined"
  }

  /** The key of the k-th extra field, `&var1`, `&var2`, ... */
  function VarKey(k: nat): (key: string)
    ensures |key| >= 5 && key[..4] == "&var"
    ensures k < 10 ==> |key| == 5
    ensures IsCanonical(key[4..]) && DigitsValue(key[4..]) == k
  {
    DecimalValue(k);
    assert ("&var" + Decimal(k))[4..] == Decimal(k);
    "&var" + Decimal(k)
  }

  const FullNameKey: string := "&fullname"
  const FirstNameKey: string := "&firstname"
  const WhatsappKey: string := "&whatsapp"

  /** The number of extra fields, each of which gets a `&var` key. */
  function VarCount(rec: seq<string>): nat {
    if |rec| >= 2 then |rec| - 2 else 0
  }

  /** The substitution table `sendProcess` builds from a record: the three
      named keys, then `&var1` .. `&var(n-2)` for fields 2 .. n-1. */
  function RecordTable(rec: seq<string>): (table: Table)
    requires |rec| >= 1
    ensures |table| == 3 + VarCount(rec)
    ensures table[0] == (FullNameKey, rec[0])
    ensures table[1] == (FirstNameKey, FirstName(rec[0]))
    ensures table[2] == (WhatsappKey, Whatsapp(rec))
    ensures |rec| >= 2 ==> table[2] == (WhatsappKey, rec[1])
    ensures |rec| == 1 ==> table[2] == (WhatsappKey, "undefined")
    ensures forall k :: 1 <= k <= VarCount(rec) ==> table[k + 2] == (VarKey(k), rec[k + 1])
    ensures NonEmptyKeys(table)
    ensures forall k :: 0 <= k < |table| ==> table[k].0[0] == '&'
  {
    [(FullNameKey, rec[0]), (FirstNameKey, FirstName(rec[0])), (WhatsappKey, Whatsapp(rec))]
    + seq(VarCount(rec), i requires 0 <= i < VarCount(rec) => (VarKey(i + 1), rec[i + 2]))
  }

  /** Every key of a record's table begins with `&`, so first-match
      substitution leaves a template without `&` as it is. */
  lemma RenderWithoutAmp(template: string, rec: seq<string>)
    requires |rec| >= 1
    ensures '&' !in template ==> Render(template, RecordTable(rec)) == template
  {
    NoKeyWithoutLead(RecordTable(rec), template, '&');
    if '&' !in template {
      RenderNoKeys(template, RecordTable(rec));
    }
  }

  /** The same for longest-match substitution. */
  lemma RenderLongestWithoutAmp(template: string, rec: seq<string>)
    requires |rec| >= 1
    ensures '&' !in template ==> RenderLongest(template, RecordTable(rec)) == template
  {
    NoKeyWithoutLead(RecordTable(rec), template, '&');
    if '&' !in template {
      RenderLongestNoKeys(template, RecordTable(rec));
    }
  }

  /** The message the source sends to a record, alternation and all. A
      template without `&` is sent as it is. */
  function RenderAsWritten(template: string, rec: seq<string>): (message: string)
    requires |rec| >= 1
    ensures '&' !in template ==> message == template
  {
    RenderWithoutAmp(template, rec);
    Render(template, RecordTable(rec))
  }

  /** The message as intended: every key stands for its own field. A template
      without `&` is sent as it is. */
  function RenderMessage(template: string, rec: seq<string>): (message: string)
    requires |rec| >= 1
    ensures '&' !in template ==> message == template
  {
    RenderLongestWithoutAmp(template, rec);
    RenderLongest(template, RecordTable(rec))
  }

  lemma NamedKeyNotVarPrefix(table: Table, j: nat, key: string)
    requires j < 3 && j < |table|
    requires table[j].0 in {FullNameKey, FirstNameKey, WhatsappKey}
    requires |key| >= 2 && key[1] == 'v'
    ensures !(table[j].0 <= key)
  {
    assert table[j].0[1] != 'v';
  }

  /** Keys of one-digit variables are prefixes of one another only when equal. */
  lemma SingleDigitVarKeysPrefixFree(a: nat, b: nat)
    requires a < 10 && b < 10
    ensures VarKey(a) <= VarKey(b) ==> a == b
  {
    if VarKey(a) <= VarKey(b) {
      assert VarKey(a)[4] == VarKey(b)[4];
      assert Decimal(a) == [DigitChar(a)] && Decimal(b) == [DigitChar(b)];
      assert VarKey(a)[4] == DigitChar(a) && VarKey(b)[4] == DigitChar(b);
    }
  }

  predicate IsNamedKey(key: string) {
    key == FullNameKey || key == FirstNameKey || key == WhatsappKey
  }

  /** The three named keys are not prefixes of one another. */
  lemma NamedKeysPrefixFree(a: string, b: string)
    requires IsNamedKey(a) && IsNamedKey(b) && a != b
    ensures !(a <= b)
  {
    assert a[1] != b[1] || a[2] != b[2];
  }

  /** A named key and a `&var` key are never prefixes of each other. */
  lemma NamedAndVarKeysPrefixFree(named: string, k: nat)
    requires IsNamedKey(named)
    ensures !(named <= VarKey(k)) && !(VarKey(k) <= named)
  {
    assert named[1] != VarKey(k)[1];
  }

  /** Which kind of key sits at each position of a record's table. */
  lemma RecordTableKey(rec: seq<string>, i: nat)
    requires |rec| >= 1 && i < |RecordTable(rec)|
    ensures i < 3 ==> IsNamedKey(RecordTable(rec)[i].0)
    ensures i >= 3 ==> RecordTable(rec)[i].0 == VarKey(i - 2)
  {
  }

  /** Different variables have different keys. */
  lemma VarKeysDistinct(a: nat, b: nat)
    requires a != b
    ensures VarKey(a) != VarKey(b)
  {
  }

  /** Two entries of a record's table have different keys. */
  lemma RecordTableKeysDiffer(rec: seq<string>, i: nat, j: nat)
    requires |rec| >= 1 && i < j < |RecordTable(rec)|
    ensures RecordTable(rec)[i].0 != RecordTable(rec)[j].0
  {
    RecordTableKey(rec, i);
    RecordTableKey(rec, j);
    var a, b := RecordTable(rec)[i].0, RecordTable(rec)[j].0;
    if i >= 3 {
      VarKeysDistinct(i - 2, j - 2);
    } else if j >= 3 {
      NamedAndVarKeysPrefixFree(a, j - 2);
    } else {
      NamedKeysPrefixFree(a, b);
    }
  }

  /** The keys of a record's table are pairwise different. */
  lemma RecordTableDistinct(rec: seq<string>)
    requires |rec| >= 1
    ensures DistinctKeys(RecordTable(rec))
  {
    forall i, j | 0 <= i < j < |RecordTable(rec)|
      ensures RecordTable(rec)[i].0 != RecordTable(rec)[j].0
    {
      RecordTableKeysDiffer(rec, i, j);
    }
  }

  /** With at most nine extra fields no key is a prefix of another. */
  lemma RecordTablePrefixFree(rec: seq<string>)
    requires 1 <= |rec| <= 11
    ensures PrefixFree(RecordTable(rec))
  {
    var table := RecordTable(rec);
    forall i, j | 0 <= i < |table| && 0 <= j < |table| && i != j
      ensures !(table[i].0 <= table[j].0)
    {
      RecordTableKey(rec, i);
      RecordTableKey(rec, j);
      var a, b := table[i].0, table[j].0;
      if i >= 3 && j >= 3 {
        SingleDigitVarKeysPrefixFree(i - 2, j - 2);
      } else if i >= 3 {
        NamedAndVarKeysPrefixFree(b, i - 2);
      } else if j >= 3 {
        NamedAndVarKeysPrefixFree(a, j - 2);
      } else {
        NamedKeysPrefixFree(a, b);
      }
    }
  }

  /** The earlier keys of a record's table are not prefixes of `&var{k}` for k < 10. */
  lemma NoEarlierKeyPrefixesVar(rec: seq<string>, k: nat)
    requires |rec| >= 1 && 1 <= k <= VarCount(rec) && k < 10
    ensures forall j :: 0 <= j < k + 2 ==> !(RecordTable(rec)[j].0 <= VarKey(k) + "")
  {
    var table := RecordTable(rec);
    assert VarKey(k) + "" == VarKey(k);
    forall j | 0 <= j < k + 2 ensures !(table[j].0 <= VarKey(k)) {
      if j < 3 {
        NamedKeyNotVarPrefix(table, j, VarKey(k));
      } else {
        assert table[j].0 == VarKey(j - 2);
        SingleDigitVarKeysPrefixFree(j - 2, k);
      }
    }
  }

  /** As written, the named keys render as their fields. */
  lemma AsWrittenNamedKeys(rec: seq<string>)
    requires |rec| >= 1
    ensures RenderAsWritten(FullNameKey, rec) == rec[0]
    ensures RenderAsWritten(FirstNameKey, rec) == FirstName(rec[0])
    ensures RenderAsWritten(WhatsappKey, rec) == Whatsapp(rec)
  {
    var table := RecordTable(rec);
    assert FullNameKey + "" == FullNameKey;
    assert FirstNameKey + "" == FirstNameKey;
    assert WhatsappKey + "" == WhatsappKey;
    RenderKey(FullNameKey, "", table, 0);
    assert !(table[0].0 <= FirstNameKey + "") by { assert table[0].0[2] != FirstNameKey[2]; }
    RenderKey(FirstNameKey, "", table, 1);
    assert !(table[0].0 <= WhatsappKey + "") by { assert table[0].0[1] != WhatsappKey[1]; }
    assert !(table[1].0 <= WhatsappKey + "") by { assert table[1].0[1] != WhatsappKey[1]; }
    RenderKey(WhatsappKey, "", table, 2);
  }

  /** As written, `&var{k}` renders as field k+1 when k has one digit. */
  lemma AsWrittenSingleDigitVar(rec: seq<string>, k: nat)
    requires |rec| >= 1 && 1 <= k <= VarCount(rec) && k < 10
    ensures RenderAsWritten(VarKey(k), rec) == rec[k + 1]
  {
    NoEarlierKeyPrefixesVar(rec, k);
    RenderKey(VarKey(k), "", RecordTable(rec), k + 2);
    assert VarKey(k) + "" == VarKey(k);
  }

  /** As written, `&var10` is read as `&var1` followed by "0" whenever the
      record has a tenth extra field: the output is field 2 and a zero instead
      of field 11. */
  lemma AsWrittenVar10IsVar1(rec: seq<string>)
    requires |rec| >= 12
    ensures VarKey(10) == "&var10" && VarKey(10) == VarKey(1) + "0"
    ensures RenderAsWritten(VarKey(10), rec) == rec[2] + "0"
  {
    assert Decimal(10) == Decimal(1) + "0";
    Var1FirstKeyOfVar10(rec);
    RenderKeyThenChar(RecordTable(rec), 3, '0');
  }

  /** In a record's table, `&var1` is the first key that is a prefix of `&var10`. */
  lemma Var1FirstKeyOfVar10(rec: seq<string>)
    requires |rec| >= 3
    ensures FirstKeyOf(RecordTable(rec), RecordTable(rec)[3].0 + "0", 3)
    ensures RecordTable(rec)[3] == (VarKey(1), rec[2])
  {
    var table := RecordTable(rec);
    forall j | 0 <= j < 3 ensures !(table[j].0 <= table[3].0 + "0") {
      RecordTableKey(rec, j);
      NamedAndVarKeysPrefixFree(table[j].0, 10);
      assert table[3].0 + "0" == VarKey(10) by {
        assert Decimal(10) == Decimal(1) + "0";
      }
    }
  }

  /** A key followed by a character that starts no key renders as its value
      followed by that character. */
  lemma RenderKeyThenChar(table: Table, k: nat, c: char)
    requires NonEmptyKeys(table) && k < |table| && FirstKeyOf(table, table[k].0 + [c], k)
    requires forall j :: 0 <= j < |table| ==> table[j].0[0] != c
    ensures Render(table[k].0 + [c], table) == table[k].1 + [c]
  {
    RenderKey(table[k].0, [c], table, k);
    RenderLiteralChar(c, "", table);
    assert [c] + "" == [c];
  }

  /** As intended, every named key renders as its field. */
  lemma MessageNamedKeys(rec: seq<string>)
    requires |rec| >= 1
    ensures RenderMessage(FullNameKey, rec) == rec[0]
    ensures RenderMessage(FirstNameKey, rec) == FirstName(rec[0])
    ensures RenderMessage(WhatsappKey, rec) == Whatsapp(rec)
  {
    RecordTableDistinct(rec);
    RenderLongestKey(RecordTable(rec), 0);
    RenderLongestKey(RecordTable(rec), 1);
    RenderLongestKey(RecordTable(rec), 2);
  }

  /** As intended, `&var{k}` renders as field k+1 for every extra field. */
  lemma MessageVarKey(rec: seq<string>, k: nat)
    requires |rec| >= 1 && 1 <= k <= VarCount(rec)
    ensures RenderMessage(VarKey(k), rec) == rec[k + 1]
  {
    RecordTableDistinct(rec);
    RenderLongestKey(RecordTable(rec), k + 2);
  }

  /** For records with at most nine extra fields the source's renderer already
      produces the intended message, for every template. */
  lemma AsWrittenIsIntendedForShortRecords(template: string, rec: seq<string>)
    requires 1 <= |rec| <= 11
    ensures RenderAsWritten(template, rec) == RenderMessage(template, rec)
  {
    RecordTablePrefixFree(rec);
    RenderAgreesWhenPrefixFree(template, RecordTable(rec));
  }

  /** Key k is the first key in table order that is a prefix of text. */
  predicate FirstKeyOf(table: Table, text: string, k: nat) {
    k < |table| && table[k].0 <= text && forall j :: 0 <= j < k ==> !(table[j].0 <= text)
  }

  /** No key starts with a character of lit. */
  predicate LiteralText(table: Table, lit: string) {
    forall k :: 0 <= k < |table| ==> |table[k].0| > 0 && table[k].0[0] !in lit
  }

  lemma RenderLoneKey(table: Table, k: nat)
    requires NonEmptyKeys(table) && k < |table| && FirstKeyOf(table, table[k].0, k)
    ensures Render(table[k].0, table) == table[k].1
  {
    assert table[k].0 + "" == table[k].0;
    RenderKey(table[k].0, "", table, k);
  }

  /** A key followed by literal text and a lone key renders key by key. */
  lemma RenderKeyLitKey(table: Table, i1: nat, lit: string, i2: nat)
    requires NonEmptyKeys(table) && LiteralText(table, lit)
    requires i1 < |table| && i2 < |table| && FirstKeyOf(table, table[i1].0 + (lit + table[i2].0), i1)
    requires FirstKeyOf(table, table[i2].0, i2)
    ensures Render(table[i1].0 + (lit + table[i2].0), table) == table[i1].1 + (lit + table[i2].1)
  {
    RenderLoneKey(table, i2);
    RenderLiteral(lit, table[i2].0, table);
    RenderKey(table[i1].0, lit + table[i2].0, table, i1);
  }

  /** A template of two keys, each preceded by literal text, renders key by key. */
  lemma RenderTwoKeys(table: Table, hi: string, i1: nat, lit: string, i2: nat)
    requires NonEmptyKeys(table) && LiteralText(table, hi) && LiteralText(table, lit)
    requires i1 < |table| && i2 < |table| && FirstKeyOf(table, table[i1].0 + (lit + table[i2].0), i1)
    requires FirstKeyOf(table, table[i2].0, i2)
    ensures Render(hi + (table[i1].0 + (lit + table[i2].0)), table) == hi + (table[i1].1 + (lit + table[i2].1))
  {
    RenderKeyLitKey(table, i1, lit, i2);
    RenderLiteral(hi, table[i1].0 + (lit + table[i2].0), table);
  }

  /** A greeting that uses the first name and the first extra field: with the
      template `Hi &firstname, your code is &var1` and the record
      `["Jane Doe", "6280000000001", "ABC123"]` it reads `Hi Jane, your code is ABC123`. */
  lemma ExampleGreeting(first: string, last: string, phone: string, code: string)
    requires ' ' !in first
    ensures RenderAsWritten("Hi " + FirstNameKey + ", your code is " + VarKey(1), [first + " " + last, phone, code])
         == "Hi " + first + ", your code is " + code
  {
    var rec := [first + " " + last, phone, code];
    var table := RecordTable(rec);
    var lit := ", your code is ";
    assert FirstName(rec[0]) == first by {
      assert rec[0] == first + [' '] + last;
      SplitCons(first, ' ', last);
    }
    forall j | 0 <= j < 3 ensures !(table[j].0 <= VarKey(1) + "") {
      NamedAndVarKeysPrefixFree(table[j].0, 1);
    }
    assert !(table[0].0 <= FirstNameKey + (lit + VarKey(1))) by {
      assert table[0].0[2] != (FirstNameKey + (lit + VarKey(1)))[2];
    }
    RenderTwoKeys(table, "Hi ", 1, lit, 3);
    assert "Hi " + FirstNameKey + lit + VarKey(1) == "Hi " + (FirstNameKey + (lit + VarKey(1)));
    assert "Hi " + first + lit + code == "Hi " + (first + (lit + code));
  }
}
