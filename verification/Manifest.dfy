/**
 * The passenger manifest (`src/reserved/manifest.ts`): a flat list of tag entries, read as records that
 * each begin with a `SEAT_ID`. The reference definition cuts the list into groups and reads each
 * group by itself; the source does it in one pass with a record under construction.
 */
module Manifest {
  import opened Basics

  /** An entry's descriptor code; a missing one is the other code "". */
  datatype Code = SEAT_ID | NAME | AGE | GENDER | OTHER(text: string)

  datatype Entry = Entry(code: Code, value: Option<string>)

  datatype Record = Record(seatId: SeatId, name: string, age: Option<int>, gender: Option<string>)

  datatype Result = Parsed(records: seq<Record>) | FieldNotAccepted(codes: seq<string>) | Incomplete

  predicate IsGender(s: string) {
    s == "male" || s == "female" || s == "other"
  }

  /**
   * Number conversion both ways: `read` is `Number` where that gives an integer, `print` is `String`.
   * The laws of the manifest need only that `read` undoes `print` on ages.
   */
  datatype Numerals = Numerals(read: string -> Option<int>, print_: int -> string) {
    ghost predicate Lawful() {
      forall age | 0 <= age <= 130 :: read(print_(age)) == Some(age)
    }

    function AgeOf(value: Option<string>): (r: Option<int>)
      ensures r.Some? ==> 0 <= r.value <= 130
    {
      if value.None? then None
      else
        var age := read(value.value);
        if age.Some? && 0 <= age.value <= 130 then age else None
    }
  }

  /** `String(n)` in decimal. */
  function Decimal(n: nat): string {
    if n < 10 then [('0' as int + n) as char] else Decimal(n / 10) + [('0' as int + n % 10) as char]
  }

  predicate IsDigit(c: char) {
    '0' <= c <= '9'
  }

  /** ECMAScript's white space and line terminators. */
  predicate IsSpace(c: char) {
    '\t' <= c <= '\r' || c == ' ' || c == '\U{00A0}' || c == '\U{1680}' || '\U{2000}' <= c <= '\U{200A}'
    || c == '\U{2028}' || c == '\U{2029}' || c == '\U{202F}' || c == '\U{205F}' || c == '\U{3000}' || c == '\U{FEFF}'
  }

  predicate Blank(s: string) {
    forall i | 0 <= i < |s| :: IsSpace(s[i])
  }

  function Trim(s: string): (t: string)
    ensures Blank(s) <==> t == ""
    ensures forall c | c in t :: c in s
    ensures (forall i | 0 <= i < |s| :: !IsSpace(s[i])) ==> t == s
  {
    if s == "" then ""
    else if IsSpace(s[0]) then
      assert Blank(s) <==> Blank(s[1..]) by {
        assert forall i | 1 <= i < |s| :: s[i] == s[1..][i - 1];
      }
      Trim(s[1..])
    else if IsSpace(s[|s| - 1]) then Trim(s[..|s| - 1])
    else s
  }

  /** A run of one or more digits. */
  function Unsigned(s: string): (r: Option<int>)
    ensures r.Some? ==> s != "" && IsDigit(s[0])
  {
    if s == "" || !IsDigit(s[|s| - 1]) then None
    else
      var low := s[|s| - 1] as int - '0' as int;
      if |s| == 1 then Some(low)
      else
        var high := Unsigned(s[..|s| - 1]);
        if high.None? then None else Some(10 * high.value + low)
  }

  /** `Number(s)` on signed decimal integers, surrounded by any white space; nothing at all is zero. */
  function FromDecimal(s: string): (r: Option<int>) {
    var t := Trim(s);
    if t == "" then Some(0)
    else if t[0] == '+' then Unsigned(t[1..])
    else if t[0] == '-' then
      var n := Unsigned(t[1..]);
      if n.None? then None else Some(-n.value)
    else Unsigned(t)
  }

  lemma {:induction false} DecimalIsDigits(n: nat)
    ensures Decimal(n) != "" && forall i | 0 <= i < |Decimal(n)| :: IsDigit(Decimal(n)[i])
  {
    if n >= 10 {
      DecimalIsDigits(n / 10);
    }
  }

  lemma {:induction false} DecimalReadsBack(n: nat)
    ensures Unsigned(Decimal(n)) == Some(n)
  {
    if n >= 10 {
      DecimalReadsBack(n / 10);
      DecimalIsDigits(n / 10);
      assert Decimal(n)[..|Decimal(n)| - 1] == Decimal(n / 10);
    }
  }

  /* ---- what reads as a number ---- */

  predicate AllDigits(s: string) {
    s != "" && forall i | 0 <= i < |s| :: IsDigit(s[i])
  }

  lemma {:induction false} UnsignedExactly(s: string)
    ensures Unsigned(s).Some? <==> AllDigits(s)
  {
    if |s| > 1 {
      UnsignedExactly(s[..|s| - 1]);
      assert forall i | 0 <= i < |s| - 1 :: s[..|s| - 1][i] == s[i];
    }
  }

  predicate Bare(s: string) {
    s != "" && !IsSpace(s[0]) && !IsSpace(s[|s| - 1])
  }

  lemma {:induction false} TrimAfter(t: string, after: string)
    requires Bare(t) && Blank(after)
    ensures Trim(t + after) == t
    decreases |after|
  {
    if after == "" {
      assert t + after == t;
    } else {
      var rest := after[..|after| - 1];
      TrimAfter(t, rest);
      assert (t + after)[..|t + after| - 1] == t + rest;
    }
  }

  /** White space around a number does not count, wherever it stands and however much there is. */
  lemma {:induction false} TrimAround(before: string, t: string, after: string)
    requires Blank(before) && Bare(t) && Blank(after)
    ensures Trim(before + t + after) == t
    decreases |before|
  {
    if before == "" {
      assert before + t + after == t + after;
      TrimAfter(t, after);
    } else {
      assert (before + t + after)[1..] == before[1..] + t + after;
      TrimAround(before[1..], t, after);
    }
  }

  /** A sign or none, then the digits of `n`, in any white space, is `n` or its negative. */
  lemma SignedReads(before: string, n: nat, after: string)
    requires Blank(before) && Blank(after)
    ensures FromDecimal(before + Decimal(n) + after) == Some(n)
    ensures FromDecimal(before + ("+" + Decimal(n)) + after) == Some(n)
    ensures var r := FromDecimal(before + ("-" + Decimal(n)) + after); r.Some? && r.value + n == 0
  {
    DecimalReadsBack(n);
    DecimalIsDigits(n);
    SignReads(before, Decimal(n), after, '+');
    SignReads(before, Decimal(n), after, '-');
    TrimAround(before, Decimal(n), after);
  }

  lemma SignReads(before: string, digits: string, after: string, sign: char)
    requires Blank(before) && Blank(after) && AllDigits(digits) && (sign == '+' || sign == '-')
    ensures var t := Trim(before + ([sign] + digits) + after); t == [sign] + digits && t != "" && t[0] == sign && t[1..] == digits
  {
    var t := [sign] + digits;
    assert t[|t| - 1] == digits[|digits| - 1];
    TrimAround(before, t, after);
  }

  /** And nothing else reads but the blank texts and digits with at most one sign. */
  lemma ReadsExactly(s: string)
    ensures FromDecimal(s).Some? <==>
      var t := Trim(s); Blank(s) || AllDigits(t) || (t != "" && (t[0] == '+' || t[0] == '-') && AllDigits(t[1..]))
  {
    var t := Trim(s);
    UnsignedExactly(t);
    if t != "" {
      UnsignedExactly(t[1..]);
    }
  }

  /** The code points that count as white space. */
  const SPACES: set<int> := {
    9, 10, 11, 12, 13, 32, 160, 5760, 8192, 8193, 8194, 8195, 8196, 8197, 8198, 8199, 8200, 8201, 8202,
    8232, 8233, 8239, 8287, 12288, 65279}

  lemma SpaceCodes(c: char)
    ensures IsSpace(c) <==> c as int in SPACES
  {
  }

  function DecimalNumerals(): Numerals {
    Numerals(s => FromDecimal(s), n => if n < 0 then "" else Decimal(n))
  }

  /** Decimal conversion is lawful. */
  lemma DecimalIsLawful()
    ensures DecimalNumerals().Lawful()
  {
    forall age | 0 <= age <= 130
      ensures DecimalNumerals().read(DecimalNumerals().print_(age)) == Some(age)
    {
      DecimalReadsBack(age);
      DecimalIsDigits(age);
      assert forall i | 0 <= i < |Decimal(age)| :: !IsSpace(Decimal(age)[i]);
    }
  }

  /** A number was written: the value has a digit in it. */
  predicate HasDigit(s: string) {
    exists i | 0 <= i < |s| :: IsDigit(s[i])
  }

  lemma UnsignedHasDigit(s: string)
    ensures Unsigned(s).Some? ==> HasDigit(s)
  {
  }

  lemma TrimKeepsDigits(s: string)
    ensures HasDigit(Trim(s)) ==> HasDigit(s)
  {
    var t := Trim(s);
    if i :| 0 <= i < |t| && IsDigit(t[i]) {
      assert t[i] in s;
    }
  }

  lemma ReadingNeedsADigit(s: string)
    ensures FromDecimal(s).Some? ==> Blank(s) || HasDigit(s)
    ensures Blank(s) ==> FromDecimal(s) == Some(0) && !HasDigit(s)
  {
    var t := Trim(s);
    UnsignedHasDigit(t);
    TrimKeepsDigits(s);
    if t != "" {
      UnsignedHasDigit(t[1..]);
      assert HasDigit(t[1..]) ==> HasDigit(t) by {
        assert forall i | 0 <= i < |t| - 1 :: t[1..][i] == t[i + 1];
      }
    }
  }

  /**
   * The age is documented never to be defaulted. Of the values in which no number is written, exactly
   * the blank ones are accepted, each as the age zero.
   */
  lemma DefaultedExactlyWhenBlank(value: string)
    requires !HasDigit(value)
    ensures DecimalNumerals().AgeOf(Some(value)).Some? <==> Blank(value)
    ensures Blank(value) ==> DecimalNumerals().AgeOf(Some(value)) == Some(0)
  {
    ReadingNeedsADigit(value);
  }

  /* ---- the reference definition ---- */

  predicate NonEmpty(value: Option<string>) {
    value.Some? && value.value != ""
  }

  /** An entry whose own value is acceptable. */
  predicate EntryOk(n: Numerals, e: Entry) {
    && (e.code == SEAT_ID || e.code == NAME ==> NonEmpty(e.value))
    && (e.code == AGE ==> n.AgeOf(e.value).Some?)
    && (e.code == GENDER ==> e.value.Some? && IsGender(e.value.value))
  }

  /** One more entry opens a group or joins the last one. */
  function AddEntry(groups: seq<seq<Entry>>, e: Entry): (r: seq<seq<Entry>>)
    ensures |groups| <= |r| && r != []
    ensures forall i | 0 <= i < |groups| - 1 :: r[i] == groups[i]
    ensures e.code == SEAT_ID || groups == [] ==>
              |r| == |groups| + 1 && r[|groups|] == [e] && forall i | 0 <= i < |groups| :: r[i] == groups[i]
    ensures e.code != SEAT_ID && groups != [] ==> |r| == |groups| && r[|groups| - 1] == groups[|groups| - 1] + [e]
  {
    if e.code == SEAT_ID || groups == [] then groups + [[e]]
    else groups[..|groups| - 1] + [groups[|groups| - 1] + [e]]
  }

  /** The list cut before every `SEAT_ID`. */
  function Groups(entries: seq<Entry>): (r: seq<seq<Entry>>)
    ensures r == [] <==> entries == []
  {
    if entries == [] then [] else AddEntry(Groups(entries[..|entries| - 1]), entries[|entries| - 1])
  }

  /** The value of the last entry with a code. */
  function Last(group: seq<Entry>, code: Code): Option<string> {
    if group == [] then None
    else if group[|group| - 1].code == code then group[|group| - 1].value
    else Last(group[..|group| - 1], code)
  }

  /** The seat a group begins with. */
  function Head(group: seq<Entry>): string {
    if group == [] then "" else group[0].value.GetOr("")
  }

  /** The record a group stands for; the source keeps the last of repeated fields. */
  function RecordOf(n: Numerals, group: seq<Entry>): Record {
    Record(Head(group), Last(group, NAME).GetOr(""), n.AgeOf(Last(group, AGE)), Last(group, GENDER))
  }

  predicate Complete(group: seq<Entry>) {
    Last(group, NAME).Some?
  }

  function RecordsOf(n: Numerals, groups: seq<seq<Entry>>): (r: seq<Record>)
    ensures |r| == |groups| && forall i | 0 <= i < |r| :: r[i] == RecordOf(n, groups[i])
  {
    seq(|groups|, i requires 0 <= i < |groups| => RecordOf(n, groups[i]))
  }

  predicate DistinctSeats(records: seq<Record>) {
    forall i, j | 0 <= i < j < |records| :: records[i].seatId != records[j].seatId
  }

  function OtherCodes(entries: seq<Entry>): (r: seq<string>)
    ensures forall c :: c in r <==> exists i | 0 <= i < |entries| :: entries[i].code == OTHER(c)
    ensures r == [] <==> forall i | 0 <= i < |entries| :: !entries[i].code.OTHER?
  {
    if entries == [] then []
    else
      var k := |entries| - 1;
      var rest, code := OtherCodes(entries[..k]), entries[k].code;
      assert forall i | 0 <= i < k :: entries[..k][i] == entries[i];
      if code.OTHER? then rest + [code.text] else rest
  }

  /** The codes that are not accepted, in ascending order, each once. */
  function Unexpected(entries: seq<Entry>): (r: seq<string>)
    ensures Ascending(r) && forall c :: c in r <==> exists i | 0 <= i < |entries| :: entries[i].code == OTHER(c)
    ensures r == [] <==> forall i | 0 <= i < |entries| :: !entries[i].code.OTHER?
  {
    HasMember(OtherCodes(entries));
    HasMember(SortedDistinct(OtherCodes(entries)));
    SortedDistinct(OtherCodes(entries))
  }

  /** Every entry reads, the first begins a record, and every record has a name. */
  ghost predicate Readable(n: Numerals, entries: seq<Entry>) {
    && (forall i | 0 <= i < |entries| :: EntryOk(n, entries[i]))
    && (entries != [] ==> entries[0].code == SEAT_ID)
    && (forall g | g in Groups(entries) :: Complete(g))
  }

  ghost function Parse(n: Numerals, entries: seq<Entry>): Result {
    if Unexpected(entries) != [] then FieldNotAccepted(Unexpected(entries))
    else if Readable(n, entries) && DistinctSeats(RecordsOf(n, Groups(entries))) then Parsed(RecordsOf(n, Groups(entries)))
    else Incomplete
  }

  /* ---- the one-pass parser ---- */

  /** The record under construction. */
  datatype Draft = Draft(seatId: SeatId, name: Option<string>, age: Option<int>, gender: Option<string>)

  function DraftOf(n: Numerals, group: seq<Entry>): Draft {
    Draft(Head(group), Last(group, NAME), n.AgeOf(Last(group, AGE)), Last(group, GENDER))
  }

  lemma GroupsStep(entries: seq<Entry>, i: nat)
    requires i < |entries|
    ensures Groups(entries[..i + 1]) == AddEntry(Groups(entries[..i]), entries[i])
  {
    assert entries[..i + 1][..i] == entries[..i];
  }

  lemma LastStep(group: seq<Entry>, e: Entry, code: Code)
    ensures Last(group + [e], code) == if e.code == code then e.value else Last(group, code)
  {
    assert (group + [e])[..|group|] == group;
  }

  lemma DraftStep(n: Numerals, group: seq<Entry>, e: Entry)
    requires group != []
    ensures var was, d := DraftOf(n, group), DraftOf(n, group + [e]);
            && d.seatId == was.seatId
            && d.name == (if e.code == NAME then e.value else was.name)
            && d.age == (if e.code == AGE then n.AgeOf(e.value) else was.age)
            && d.gender == (if e.code == GENDER then e.value else was.gender)
  {
    LastStep(group, e, NAME);
    LastStep(group, e, AGE);
    LastStep(group, e, GENDER);
  }

  lemma DraftStart(n: Numerals, e: Entry)
    requires e.code == SEAT_ID && NonEmpty(e.value)
    ensures DraftOf(n, [e]) == Draft(e.value.value, None, None, None)
  {
    LastStep([], e, NAME);
    LastStep([], e, AGE);
    LastStep([], e, GENDER);
    assert [] + [e] == [e];
  }

  lemma GroupsSnoc(entries: seq<Entry>, e: Entry)
    ensures Groups(entries + [e]) == AddEntry(Groups(entries), e)
  {
    assert (entries + [e])[..|entries|] == entries;
  }

  /** Groups that a later `SEAT_ID` has closed stay as they are. */
  lemma {:induction false} ClosedGroupsStay(entries: seq<Entry>, more: seq<Entry>, k: nat)
    requires k + 1 < |Groups(entries)|
    ensures k + 1 < |Groups(entries + more)| && Groups(entries + more)[k] == Groups(entries)[k]
    decreases |more|
  {
    if more == [] {
      assert entries + more == entries;
    } else {
      var n := |more| - 1;
      ClosedGroupsStay(entries, more[..n], k);
      assert entries + more == (entries + more[..n]) + [more[n]];
      GroupsSnoc(entries + more[..n], more[n]);
      OpenGroupOnlyGrows(Groups(entries + more[..n]), more[n], k);
    }
  }

  lemma OpenGroupOnlyGrows(groups: seq<seq<Entry>>, e: Entry, k: nat)
    requires k + 1 < |groups|
    ensures |groups| <= |AddEntry(groups, e)| && AddEntry(groups, e)[k] == groups[k]
  {
  }

  lemma SeatOpensGroup(groups: seq<seq<Entry>>, e: Entry, k: nat)
    requires e.code == SEAT_ID && k < |groups|
    ensures |groups| < |AddEntry(groups, e)| && AddEntry(groups, e)[k] == groups[k]
  {
  }

  /** All groups but the last are closed, and the last is under construction. */
  ghost predicate Building(n: Numerals, groups: seq<seq<Entry>>, current: Option<Draft>, records: seq<Record>) {
    if groups == [] then current == None && records == []
    else
      && current == Some(DraftOf(n, groups[|groups| - 1]))
      && |records| == |groups| - 1
      && forall k | 0 <= k < |records| :: Complete(groups[k]) && records[k] == RecordOf(n, groups[k])
  }

  /** What the loop has established before entry `i`. */
  ghost predicate Underway(n: Numerals, entries: seq<Entry>, i: nat, current: Option<Draft>, records: seq<Record>)
    requires i <= |entries|
  {
    && (forall k | 0 <= k < i :: EntryOk(n, entries[k]))
    && (i > 0 ==> entries[0].code == SEAT_ID)
    && Building(n, Groups(entries[..i]), current, records)
  }

  /** `flush`: the record under construction, closed. */
  function Close(d: Draft): Record
    requires d.name.Some?
  {
    Record(d.seatId, d.name.value, d.age, d.gender)
  }

  function Flushed(current: Option<Draft>, records: seq<Record>): (r: seq<Record>)
    requires current.Some? ==> current.value.name.Some?
  {
    if current.None? then records else records + [Close(current.value)]
  }

  lemma FlushBuilding(n: Numerals, groups: seq<seq<Entry>>, current: Option<Draft>, records: seq<Record>)
    requires Building(n, groups, current, records) && (current.Some? ==> current.value.name.Some?)
    ensures Flushed(current, records) == RecordsOf(n, groups)
    ensures forall k | 0 <= k < |groups| :: Complete(groups[k])
  {
    if groups != [] {
      var last := groups[|groups| - 1];
      assert Complete(last) && Close(current.value) == RecordOf(n, last);
    }
  }

  lemma UnnamedBuilding(n: Numerals, groups: seq<seq<Entry>>, current: Option<Draft>, records: seq<Record>)
    requires Building(n, groups, current, records) && current.Some? && current.value.name.None?
    ensures groups != [] && !Complete(groups[|groups| - 1])
  {
  }

  lemma SeatBuilding(n: Numerals, groups: seq<seq<Entry>>, current: Option<Draft>, records: seq<Record>, e: Entry)
    requires Building(n, groups, current, records) && (current.Some? ==> current.value.name.Some?)
    requires e.code == SEAT_ID && NonEmpty(e.value)
    ensures Building(n, AddEntry(groups, e), Some(Draft(e.value.value, None, None, None)), Flushed(current, records))
  {
    FlushBuilding(n, groups, current, records);
    DraftStart(n, e);
  }

  lemma FieldBuilding(n: Numerals, groups: seq<seq<Entry>>, current: Option<Draft>, records: seq<Record>, e: Entry, next: Draft)
    requires Building(n, groups, current, records) && groups != [] && groups[|groups| - 1] != [] && e.code != SEAT_ID
    requires next == Updated(n, current.value, e)
    ensures Building(n, AddEntry(groups, e), Some(next), records)
  {
    DraftStep(n, groups[|groups| - 1], e);
  }

  /** A draft with one more field. */
  function Updated(n: Numerals, d: Draft, e: Entry): Draft {
    d.(name := if e.code == NAME then e.value else d.name,
       age := if e.code == AGE then n.AgeOf(e.value) else d.age,
       gender := if e.code == GENDER then e.value else d.gender)
  }

  /** Nothing is left to read. */
  lemma Finish(n: Numerals, entries: seq<Entry>, current: Option<Draft>, records: seq<Record>)
    requires Underway(n, entries, |entries|, current, records) && Unexpected(entries) == []
    ensures Parse(n, entries)
         == if (current.Some? && current.value.name.None?) || !DistinctSeats(Flushed(current, records)) then Incomplete
            else Parsed(Flushed(current, records))
  {
    assert entries[..|entries|] == entries;
    var groups := Groups(entries);
    if current.Some? && current.value.name.None? {
      UnnamedBuilding(n, groups, current, records);
      assert groups[|groups| - 1] in groups;
    } else {
      FlushBuilding(n, groups, current, records);
    }
  }

  lemma BadEntry(n: Numerals, entries: seq<Entry>, i: nat)
    requires i < |entries| && Unexpected(entries) == []
    requires !EntryOk(n, entries[i]) || entries[0].code != SEAT_ID
    ensures Parse(n, entries) == Incomplete
  {
  }

  /** A seat with no name, closed by the next seat. */
  lemma UnnamedSeat(n: Numerals, entries: seq<Entry>, i: nat, current: Option<Draft>, records: seq<Record>)
    requires i < |entries| && entries[i].code == SEAT_ID && Unexpected(entries) == []
    requires Underway(n, entries, i, current, records) && current.Some? && current.value.name.None?
    ensures Parse(n, entries) == Incomplete
  {
    var groups := Groups(entries[..i]);
    UnnamedBuilding(n, groups, current, records);
    GroupsStep(entries, i);
    SeatOpensGroup(groups, entries[i], |groups| - 1);
    ClosedGroupsStay(entries[..i + 1], entries[i + 1..], |groups| - 1);
    assert entries[..i + 1] + entries[i + 1..] == entries;
    assert Groups(entries)[|groups| - 1] in Groups(entries);
  }

  lemma SeatStep(n: Numerals, entries: seq<Entry>, i: nat, current: Option<Draft>, records: seq<Record>)
    requires i < |entries| && entries[i].code == SEAT_ID && EntryOk(n, entries[i])
    requires Underway(n, entries, i, current, records) && (current.Some? ==> current.value.name.Some?)
    ensures Underway(n, entries, i + 1, Some(Draft(entries[i].value.value, None, None, None)), Flushed(current, records))
  {
    GroupsStep(entries, i);
    SeatBuilding(n, Groups(entries[..i]), current, records, entries[i]);
  }

  lemma FieldStep(n: Numerals, entries: seq<Entry>, i: nat, current: Option<Draft>, records: seq<Record>, next: Draft)
    requires i < |entries| && entries[i].code != SEAT_ID && EntryOk(n, entries[i])
    requires Underway(n, entries, i, current, records) && current.Some? && next == Updated(n, current.value, entries[i])
    ensures Underway(n, entries, i + 1, Some(next), records)
  {
    GroupsStep(entries, i);
    LastGroupNonEmpty(entries[..i]);
    FieldBuilding(n, Groups(entries[..i]), current, records, entries[i], next);
  }

  /** An entry before any seat. */
  lemma NoSeatYet(n: Numerals, entries: seq<Entry>, i: nat, records: seq<Record>)
    requires i <= |entries| && Underway(n, entries, i, None, records)
    ensures i == 0
  {
  }

  lemma {:induction false} LastGroupNonEmpty(entries: seq<Entry>)
    requires entries != []
    ensures var groups := Groups(entries); groups[|groups| - 1] != []
  {
  }

  /** `parseManifest`. An exception leaves the loop at once; its code is all that is modelled of it. */
  method ParseManifest(n: Numerals, entries: seq<Entry>) returns (result: Result)
    ensures result == Parse(n, entries)
  {
    var unexpected := Unexpected(entries);
    if |unexpected| > 0 {
      return FieldNotAccepted(unexpected);
    }
    var records: seq<Record> := [];
    var current: Option<Draft> := None;
    assert forall i | 0 <= i < |entries| :: !entries[i].code.OTHER?;
    for i := 0 to |entries|
      invariant Underway(n, entries, i, current, records)
    {
      var e := entries[i];
      if e.code == SEAT_ID {
        if current.Some? && current.value.name.None? {
          UnnamedSeat(n, entries, i, current, records);
          return Incomplete;
        }
        if !NonEmpty(e.value) {
          BadEntry(n, entries, i);
          return Incomplete;
        }
        SeatStep(n, entries, i, current, records);
        records := Flushed(current, records);
        current := Some(Draft(e.value.value, None, None, None));
      } else if current.None? {
        NoSeatYet(n, entries, i, records);
        BadEntry(n, entries, i);
        return Incomplete;
      } else {
        var next := current.value;
        if e.code == NAME {
          if !NonEmpty(e.value) {
            BadEntry(n, entries, i);
            return Incomplete;
          }
          next := next.(name := e.value);
        } else if e.code == AGE {
          var age := n.AgeOf(e.value);
          if age.None? {
            BadEntry(n, entries, i);
            return Incomplete;
          }
          next := next.(age := age);
        } else {
          if e.value.None? || !IsGender(e.value.value) {
            BadEntry(n, entries, i);
            return Incomplete;
          }
          next := next.(gender := e.value);
        }
        FieldStep(n, entries, i, current, records, next);
        current := Some(next);
      }
    }
    Finish(n, entries, current, records);
    if current.Some? && current.value.name.None? {
      return Incomplete;
    }
    records := Flushed(current, records);
    return if DistinctSeats(records) then Parsed(records) else Incomplete;
  }

  /* ---- the printer ---- */

  /** One record of `manifestTagFrom`. */
  function PrintRecord(n: Numerals, r: Record): (entries: seq<Entry>) {
    [Entry(SEAT_ID, Some(r.seatId))] + Fields(n, r)
  }

  function Fields(n: Numerals, r: Record): seq<Entry> {
    [Entry(NAME, Some(r.name))]
    + (if r.age.None? then [] else [Entry(AGE, Some(n.print_(r.age.value)))])
    + (if r.gender.None? then [] else [Entry(GENDER, Some(r.gender.value))])
  }

  /** `manifestTagFrom`. */
  function Print(n: Numerals, records: seq<Record>): seq<Entry> {
    if records == [] then []
    else Print(n, records[..|records| - 1]) + PrintRecord(n, records[|records| - 1])
  }

  /** What the type of a record does not say. */
  predicate RecordOk(r: Record) {
    && r.seatId != "" && r.name != ""
    && (r.age.Some? ==> 0 <= r.age.value <= 130)
    && (r.gender.Some? ==> IsGender(r.gender.value))
  }

  predicate WellFormed(records: seq<Record>) {
    DistinctSeats(records) && forall i | 0 <= i < |records| :: RecordOk(records[i])
  }

  /** A record's fields join the group its seat opened. */
  lemma {:induction false} GroupsAppend(entries: seq<Entry>, group: seq<Entry>)
    requires group != [] && group[0].code == SEAT_ID && forall i | 1 <= i < |group| :: group[i].code != SEAT_ID
    ensures Groups(entries + group) == Groups(entries) + [group]
    decreases |group|
  {
    var n := |group| - 1;
    var before, e := entries + group[..n], group[n];
    assert entries + group == before + [e] && group == group[..n] + [e];
    GroupsSnoc(before, e);
    if n == 0 {
      assert before == entries && group == [e];
    } else {
      GroupsAppend(entries, group[..n]);
      assert AddEntry(Groups(entries) + [group[..n]], e) == Groups(entries) + [group];
    }
  }

  lemma PrintedFields(n: Numerals, r: Record)
    requires n.Lawful() && RecordOk(r)
    ensures forall i | 0 <= i < |PrintRecord(n, r)| :: EntryOk(n, PrintRecord(n, r)[i]) && !PrintRecord(n, r)[i].code.OTHER?
    ensures forall i | 1 <= i < |PrintRecord(n, r)| :: PrintRecord(n, r)[i].code != SEAT_ID
  {
  }

  /** A printed record reads back, field by field. */
  lemma RecordReadsBack(n: Numerals, r: Record)
    requires n.Lawful() && RecordOk(r)
    ensures RecordOf(n, PrintRecord(n, r)) == r && Complete(PrintRecord(n, r))
  {
    var seat, name := Entry(SEAT_ID, Some(r.seatId)), Entry(NAME, Some(r.name));
    var group := [seat];
    DraftStart(n, seat);
    DraftStep(n, group, name);
    group := group + [name];
    if r.age.Some? {
      DraftStep(n, group, Entry(AGE, Some(n.print_(r.age.value))));
      group := group + [Entry(AGE, Some(n.print_(r.age.value)))];
    }
    if r.gender.Some? {
      DraftStep(n, group, Entry(GENDER, Some(r.gender.value)));
      group := group + [Entry(GENDER, Some(r.gender.value))];
    }
    assert group == PrintRecord(n, r);
  }

  lemma {:induction false} PrintedGroups(n: Numerals, records: seq<Record>)
    requires n.Lawful() && forall i | 0 <= i < |records| :: RecordOk(records[i])
    ensures |Groups(Print(n, records))| == |records|
    ensures forall i | 0 <= i < |records| :: Groups(Print(n, records))[i] == PrintRecord(n, records[i])
  {
    if records != [] {
      var k := |records| - 1;
      PrintedGroups(n, records[..k]);
      PrintedFields(n, records[k]);
      GroupsAppend(Print(n, records[..k]), PrintRecord(n, records[k]));
    }
  }

  lemma {:induction false} PrintedEntries(n: Numerals, records: seq<Record>)
    requires n.Lawful() && forall i | 0 <= i < |records| :: RecordOk(records[i])
    ensures var entries := Print(n, records);
            && (forall i | 0 <= i < |entries| :: EntryOk(n, entries[i]) && !entries[i].code.OTHER?)
            && (entries != [] ==> entries[0].code == SEAT_ID)
  {
    if records != [] {
      PrintedEntries(n, records[..|records| - 1]);
      PrintedFields(n, records[|records| - 1]);
    }
  }

  /* ---- what the groups are ---- */

  function Flatten(groups: seq<seq<Entry>>): seq<Entry> {
    if groups == [] then [] else Flatten(groups[..|groups| - 1]) + groups[|groups| - 1]
  }

  lemma FlattenAdd(groups: seq<seq<Entry>>, e: Entry)
    ensures Flatten(AddEntry(groups, e)) == Flatten(groups) + [e]
  {
    var r := AddEntry(groups, e);
    if e.code == SEAT_ID || groups == [] {
      assert r[..|r| - 1] == groups;
    } else {
      var n := |groups| - 1;
      assert r[..n] == groups[..n];
      assert Flatten(groups[..n]) + (groups[n] + [e]) == Flatten(groups[..n]) + groups[n] + [e];
    }
  }

  /** Only the first entry of a group can be a seat. */
  predicate OneSeat(group: seq<Entry>) {
    group != [] && forall i | 1 <= i < |group| :: group[i].code != SEAT_ID
  }

  /** The groups are the list cut before every seat and nowhere else: together they are the list again. */
  lemma {:induction false} GroupsPartition(entries: seq<Entry>)
    ensures Flatten(Groups(entries)) == entries
    ensures forall g | 0 <= g < |Groups(entries)| :: OneSeat(Groups(entries)[g]) && (g > 0 ==> Groups(entries)[g][0].code == SEAT_ID)
  {
    if entries != [] {
      var k := |entries| - 1;
      var before, e := Groups(entries[..k]), entries[k];
      GroupsPartition(entries[..k]);
      FlattenAdd(before, e);
      forall g | 0 <= g < |AddEntry(before, e)| ensures OneSeat(AddEntry(before, e)[g]) && (g > 0 ==> AddEntry(before, e)[g][0].code == SEAT_ID) {
        AddEntryPartition(before, e, g);
      }
    }
  }

  lemma AddEntryPartition(groups: seq<seq<Entry>>, e: Entry, g: nat)
    requires g < |AddEntry(groups, e)|
    requires forall h | 0 <= h < |groups| :: OneSeat(groups[h]) && (h > 0 ==> groups[h][0].code == SEAT_ID)
    ensures OneSeat(AddEntry(groups, e)[g]) && (g > 0 ==> AddEntry(groups, e)[g][0].code == SEAT_ID)
  {
  }

  /** Of a repeated field the last entry counts. */
  lemma {:induction false} LastIsTheLast(group: seq<Entry>, code: Code, i: nat)
    requires i < |group| && group[i].code == code && forall j | i < j < |group| :: group[j].code != code
    ensures Last(group, code) == group[i].value
  {
    if i < |group| - 1 {
      LastIsTheLast(group[..|group| - 1], code, i);
    }
  }

  lemma {:induction false} LastOfNone(group: seq<Entry>, code: Code)
    requires forall j | 0 <= j < |group| :: group[j].code != code
    ensures Last(group, code).None?
  {
    if group != [] {
      LastOfNone(group[..|group| - 1], code);
    }
  }

  /* ---- the laws ---- */

  lemma PrintedRecords(n: Numerals, groups: seq<seq<Entry>>, records: seq<Record>)
    requires n.Lawful() && |groups| == |records|
    requires forall i | 0 <= i < |records| :: RecordOk(records[i]) && groups[i] == PrintRecord(n, records[i])
    ensures RecordsOf(n, groups) == records && forall g | g in groups :: Complete(g)
  {
    forall i | 0 <= i < |records|
      ensures RecordOf(n, groups[i]) == records[i] && Complete(groups[i])
    {
      RecordReadsBack(n, records[i]);
    }
  }

  /** Parsing what was printed returns the records. */
  lemma PrintThenParse(n: Numerals, records: seq<Record>)
    requires n.Lawful() && WellFormed(records)
    ensures Parse(n, Print(n, records)) == Parsed(records)
  {
    var entries := Print(n, records);
    PrintedGroups(n, records);
    PrintedEntries(n, records);
    PrintedRecords(n, Groups(entries), records);
    assert Readable(n, entries);
  }

  lemma {:induction false} LastIsOk(n: Numerals, group: seq<Entry>)
    requires forall i | 0 <= i < |group| :: EntryOk(n, group[i])
    ensures Last(group, NAME).Some? ==> Last(group, NAME).value != ""
    ensures Last(group, GENDER).Some? ==> IsGender(Last(group, GENDER).value)
  {
    if group != [] {
      LastIsOk(n, group[..|group| - 1]);
    }
  }

  /** A group of good entries that begins with a seat. */
  predicate GroupOk(n: Numerals, group: seq<Entry>) {
    group != [] && group[0].code == SEAT_ID && forall i | 0 <= i < |group| :: EntryOk(n, group[i])
  }

  lemma AddEntryKeepsOk(n: Numerals, groups: seq<seq<Entry>>, e: Entry, g: nat)
    requires (forall k | 0 <= k < |groups| :: GroupOk(n, groups[k])) && EntryOk(n, e) && (groups == [] ==> e.code == SEAT_ID)
    requires g < |AddEntry(groups, e)|
    ensures GroupOk(n, AddEntry(groups, e)[g])
  {
  }

  /** Every group is made of entries of the list, and begins with a seat. */
  lemma {:induction false} GroupsOk(n: Numerals, entries: seq<Entry>)
    requires (forall i | 0 <= i < |entries| :: EntryOk(n, entries[i])) && (entries != [] ==> entries[0].code == SEAT_ID)
    ensures forall g | 0 <= g < |Groups(entries)| :: GroupOk(n, Groups(entries)[g])
    decreases |entries|
  {
    if entries != [] {
      var k := |entries| - 1;
      GroupsOk(n, entries[..k]);
      forall g | 0 <= g < |Groups(entries)| ensures GroupOk(n, Groups(entries)[g]) {
        AddEntryKeepsOk(n, Groups(entries[..k]), entries[k], g);
      }
    }
  }

  /** Whatever is accepted is well formed: distinct seats, non-empty names, sensible ages. */
  lemma AcceptedIsWellFormed(n: Numerals, entries: seq<Entry>)
    requires Parse(n, entries).Parsed?
    ensures WellFormed(Parse(n, entries).records)
  {
    var groups := Groups(entries);
    GroupsOk(n, entries);
    forall i | 0 <= i < |groups|
      ensures RecordOk(RecordOf(n, groups[i]))
    {
      LastIsOk(n, groups[i]);
      assert groups[i] in groups;
    }
  }

  /** Parse, print, parse gives the first parse's records. */
  lemma ParsePrintParse(n: Numerals, entries: seq<Entry>)
    requires n.Lawful() && Parse(n, entries).Parsed?
    ensures Parse(n, Print(n, Parse(n, entries).records)) == Parse(n, entries)
  {
    AcceptedIsWellFormed(n, entries);
    PrintThenParse(n, Parse(n, entries).records);
  }

  /** The well-formed lists are exactly the accepted ones. */
  lemma WellFormedExactlyAccepted(n: Numerals, records: seq<Record>)
    requires n.Lawful()
    ensures WellFormed(records) <==> exists entries :: Parse(n, entries) == Parsed(records)
  {
    if WellFormed(records) {
      PrintThenParse(n, records);
    }
    forall entries | Parse(n, entries) == Parsed(records)
      ensures WellFormed(records)
    {
      AcceptedIsWellFormed(n, entries);
    }
  }

  /* ---- a manifest and a hold ---- */

  datatype Match = Matches | NotHeld(extra: seq<SeatId>) | Unnamed(missing: seq<SeatId>)

  function Seats(records: seq<Record>): (r: seq<SeatId>)
    ensures |r| == |records| && forall i | 0 <= i < |r| :: r[i] == records[i].seatId
  {
    seq(|records|, i requires 0 <= i < |records| => records[i].seatId)
  }

  function Without(seats: seq<SeatId>, others: seq<SeatId>): (r: seq<SeatId>)
    ensures forall s :: s in r <==> s in seats && s !in others
  {
    if seats == [] then []
    else if seats[0] in others then Without(seats[1..], others)
    else [seats[0]] + Without(seats[1..], others)
  }

  /** `assertManifestMatchesHold`: a seat that is not held is reported before one that is not named. */
  function MatchHold(records: seq<Record>, held: seq<SeatId>): (m: Match) {
    var extra := SortedDistinct(Without(Seats(records), held));
    var missing := Without(held, Seats(records));
    if extra != [] then NotHeld(extra)
    else if missing != [] then Unnamed(missing)
    else Matches
  }

  /** Each refusal lists exactly the seats it is about. */
  lemma MatchLists(records: seq<Record>, held: seq<SeatId>)
    ensures MatchHold(records, held).NotHeld? ==>
      Ascending(MatchHold(records, held).extra) && Elements(MatchHold(records, held).extra) == Elements(Seats(records)) - Elements(held)
    ensures MatchHold(records, held).Unnamed? ==>
      Elements(MatchHold(records, held).missing) == Elements(held) - Elements(Seats(records))
  {
  }

  /**
   * A manifest passes exactly when it names the held seats; an accepted one then has as many records
   * as there are held seats, which is what the store's row count is compared with.
   */
  lemma MatchesExactlyTheHold(n: Numerals, entries: seq<Entry>, held: seq<SeatId>)
    requires Parse(n, entries).Parsed? && Distinct(held)
    ensures var records := Parse(n, entries).records;
            && (MatchHold(records, held).Matches? <==> Elements(Seats(records)) == Elements(held))
            && (MatchHold(records, held).NotHeld? <==> !(Elements(Seats(records)) <= Elements(held)))
            && (MatchHold(records, held).Matches? ==> |records| == |held|)
  {
    var records := Parse(n, entries).records;
    var extra, missing := SortedDistinct(Without(Seats(records), held)), Without(held, Seats(records));
    HasMember(extra);
    HasMember(missing);
    assert extra == [] <==> Elements(Seats(records)) <= Elements(held) by {
      assert forall s :: s in extra <==> s in Elements(Seats(records)) && s !in Elements(held);
    }
    assert missing == [] <==> Elements(held) <= Elements(Seats(records)) by {
      assert forall s :: s in missing <==> s in Elements(held) && s !in Elements(Seats(records));
    }
    AcceptedIsWellFormed(n, entries);
    DistinctSize(Seats(records));
    DistinctSize(held);
  }

  /** One seat, one name and one more entry. */
  function RecordWith(seat: string, name: string, e: Entry): seq<Entry> {
    [Entry(SEAT_ID, Some(seat)), Entry(NAME, Some(name)), e]
  }

  function AgeEntries(seat: string, name: string, value: Option<string>): seq<Entry> {
    RecordWith(seat, name, Entry(AGE, value))
  }

  /** Every field but age and gender has been read. */
  predicate IsField(e: Entry) {
    e.code.AGE? || e.code.GENDER?
  }

  function FieldRecord(n: Numerals, seat: string, name: string, e: Entry): Record {
    Record(seat, name, if e.code.AGE? then n.AgeOf(e.value) else None, if e.code.GENDER? then e.value else None)
  }

  lemma FieldGroup(n: Numerals, seat: string, name: string, e: Entry)
    requires seat != "" && IsField(e)
    ensures Complete(RecordWith(seat, name, e)) && RecordOf(n, RecordWith(seat, name, e)) == FieldRecord(n, seat, name, e)
  {
    var a, b := Entry(SEAT_ID, Some(seat)), Entry(NAME, Some(name));
    DraftStart(n, a);
    DraftStep(n, [a], b);
    DraftStep(n, [a, b], e);
    assert [a] + [b] == [a, b] && [a, b] + [e] == RecordWith(seat, name, e);
  }

  lemma FieldGroups(seat: string, name: string, e: Entry)
    requires IsField(e)
    ensures Groups(RecordWith(seat, name, e)) == [RecordWith(seat, name, e)]
  {
    var entries := RecordWith(seat, name, e);
    GroupsAppend([], entries);
    assert [] + entries == entries && Groups([]) == [];
  }

  lemma OneGroupReads(n: Numerals, entries: seq<Entry>, groups: seq<seq<Entry>>)
    requires GroupOk(n, entries) && Groups(entries) == groups && |groups| == 1 && Complete(groups[0])
    ensures Readable(n, entries)
  {
  }

  lemma OneRecord(n: Numerals, groups: seq<seq<Entry>>)
    requires |groups| == 1
    ensures RecordsOf(n, groups) == [RecordOf(n, groups[0])] && DistinctSeats(RecordsOf(n, groups))
  {
  }

  lemma OneGroupParses(n: Numerals, entries: seq<Entry>, groups: seq<seq<Entry>>)
    requires Unexpected(entries) == [] && GroupOk(n, entries) && Groups(entries) == groups && |groups| == 1 && Complete(groups[0])
    ensures Parse(n, entries) == Parsed([RecordOf(n, groups[0])])
  {
    OneGroupReads(n, entries, groups);
    OneRecord(n, groups);
  }

  lemma FieldEntriesOk(n: Numerals, seat: string, name: string, e: Entry)
    requires seat != "" && name != "" && IsField(e)
    ensures Unexpected(RecordWith(seat, name, e)) == []
    ensures EntryOk(n, e) ==> GroupOk(n, RecordWith(seat, name, e))
  {
  }

  lemma FieldEntryExactly(n: Numerals, seat: string, name: string, e: Entry)
    requires seat != "" && name != "" && IsField(e)
    ensures Parse(n, RecordWith(seat, name, e)) == if EntryOk(n, e) then Parsed([FieldRecord(n, seat, name, e)]) else Incomplete
  {
    var entries := RecordWith(seat, name, e);
    FieldEntriesOk(n, seat, name, e);
    if EntryOk(n, e) {
      FieldGroup(n, seat, name, e);
      FieldGroups(seat, name, e);
      OneGroupParses(n, entries, [entries]);
    } else {
      BadEntry(n, entries, 2);
    }
  }

  /** Accepted exactly when the value reads as an age, with that age. */
  lemma AgeEntryExactly(n: Numerals, seat: string, name: string, value: Option<string>)
    requires seat != "" && name != ""
    ensures Parse(n, AgeEntries(seat, name, value))
         == if n.AgeOf(value).None? then Incomplete else Parsed([Record(seat, name, n.AgeOf(value), None)])
  {
    FieldEntryExactly(n, seat, name, Entry(AGE, value));
  }

  /** Accepted exactly when the value is one of the three words, letter for letter. */
  lemma GenderEntryExactly(n: Numerals, seat: string, name: string, value: Option<string>)
    requires seat != "" && name != ""
    ensures Parse(n, RecordWith(seat, name, Entry(GENDER, value)))
         == if value == Some("male") || value == Some("female") || value == Some("other")
            then Parsed([Record(seat, name, None, value)]) else Incomplete
  {
    FieldEntryExactly(n, seat, name, Entry(GENDER, value));
  }

  /** So an `AGE` in which no number is written becomes the age zero if it is blank, and is refused otherwise. */
  lemma AgeDefaultedExactlyWhenBlank(seat: string, name: string, value: string)
    requires seat != "" && name != "" && !HasDigit(value)
    ensures Parse(DecimalNumerals(), AgeEntries(seat, name, Some(value)))
         == if Blank(value) then Parsed([Record(seat, name, Some(0), None)]) else Incomplete
  {
    AgeEntryExactly(DecimalNumerals(), seat, name, Some(value));
    DefaultedExactlyWhenBlank(value);
  }
}
