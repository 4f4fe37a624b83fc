/** The cleaning rules of the `DataCleaning` class: three normalisers of single
    values (phone numbers, staff numbers, card expiry dates) and three cleaners
    that take one raw table each (users, card details, stores) and return the
    cleaned table.  The cleaners apply the table operations of module Frames in
    the order the source applies them. */
module DataCleaning {
  import opened Wrappers
  import opened Calendar
  import opened Strings
  import opened Frames

  // ===========================================================================
  // Phone numbers

  /** A character `\b` treats as part of a word (ASCII only). */
  predicate IsWordChar(c: char) {
    IsDigit(c) || 'a' <= c <= 'z' || 'A' <= c <= 'Z' || c == '_'
  }

  function LeadingZeroCount(s: string): (k: nat)
    ensures k <= |s|
    ensures forall i :: 0 <= i < k ==> s[i] == '0'
    ensures k < |s| ==> s[k] != '0'
  {
    if s == [] || s[0] != '0' then 0 else 1 + LeadingZeroCount(s[1..])
  }

  /** `re.match(r"^(0+)?1(\d{10})\b", s)`, giving group 2 when it matches.  The
      optional group takes every leading zero; giving zeros back cannot help,
      since the character after the group has to be '1'. */
  function UsPrefixMatch(s: string): (g: Option<string>)
    ensures g.Some? ==> |g.value| == 10 && AllDigits(g.value)
  {
    var k := LeadingZeroCount(s);
    if k + 11 <= |s| && s[k] == '1' && AllDigits(s[k + 1..k + 11]) &&
       (k + 11 == |s| || !IsWordChar(s[k + 11]))
    then Some(s[k + 1..k + 11])
    else None
  }

  /** A digit string made of zero or more '0', a '1', and exactly ten more digits. */
  predicate HasUsPrefix(d: string) {
    |d| >= 11 && AllDigits(d) && d[|d| - 11] == '1' &&
    forall i :: 0 <= i < |d| - 11 ==> d[i] == '0'
  }

  /** On a digit string the US pattern matches exactly the strings with a US
      prefix, because the `\b` after ten digits can only hold at the end. */
  lemma UsPrefixMatchOnDigits(d: string)
    requires AllDigits(d)
    ensures UsPrefixMatch(d).Some? <==> HasUsPrefix(d)
    ensures UsPrefixMatch(d).Some? ==> UsPrefixMatch(d).value == d[|d| - 10..]
  {
    var k := LeadingZeroCount(d);
    if HasUsPrefix(d) {
      assert k == |d| - 11;
      assert AllDigits(d[k + 1..k + 11]);
    }
    if UsPrefixMatch(d).Some? {
      assert k + 11 == |d|;
    }
  }

  /** `standardise_phone_number`: the digits of the number, with a US prefix
      "0...01" removed when exactly ten digits follow it. */
  function StandardisePhoneNumber(phone: string): (r: string)
    ensures var d := DigitsOf(phone);
      r == if HasUsPrefix(d) then d[|d| - 10..] else d
  {
    var cleaned := Concat(DigitRuns(phone));
    ConcatDigitRuns(phone);
    UsPrefixMatchOnDigits(cleaned);
    match UsPrefixMatch(cleaned)
    case Some(group) => group
    case None => cleaned
  }

  /** A standardised number is all digits and carries no US prefix any more. */
  lemma PhoneNumberIsNormal(phone: string)
    ensures AllDigits(StandardisePhoneNumber(phone))
    ensures !HasUsPrefix(StandardisePhoneNumber(phone))
  {
    var d := DigitsOf(phone);
    if HasUsPrefix(d) {
      var tail := d[|d| - 10..];
      assert AllDigits(tail) by {
        forall i | 0 <= i < |tail| ensures IsDigit(tail[i]) {
          assert tail[i] == d[|d| - 10 + i];
        }
      }
    }
  }

  /** Standardising a standardised number changes nothing. */
  lemma PhoneNumberIdempotent(phone: string)
    ensures StandardisePhoneNumber(StandardisePhoneNumber(phone)) == StandardisePhoneNumber(phone)
  {
    var r := StandardisePhoneNumber(phone);
    PhoneNumberIsNormal(phone);
    DigitsOfAllDigits(r);
  }

  // The digit strings of the two example numbers, taken piece by piece: one
  // literal per lemma keeps each proof within the solver's budget.
  lemma UsExampleHead(s: string) requires s == "001-555" ensures DigitsOf(s) == "001555" {
    assert DigitsOf("001-555") == "001555";
  }

  lemma UsExampleTail(s: string) requires s == "-234-9876" ensures DigitsOf(s) == "2349876" {
    assert DigitsOf("-234-9876") == "2349876";
  }

  lemma UkExampleHead(s: string) requires s == "+44 07777" ensures DigitsOf(s) == "4407777" {
    assert DigitsOf("+44 07777") == "4407777";
  }

  lemma UkExampleTail(s: string) requires s == " 123456" ensures DigitsOf(s) == "123456" {
    assert DigitsOf(" 123456") == "123456";
  }

  lemma UsExampleDigits(phone: string)
    requires phone == "001-555-234-9876"
    ensures DigitsOf(phone) == "0015552349876"
  {
    UsExampleHead(phone[..7]);
    UsExampleTail(phone[7..]);
    DigitsOfParts(phone, 7, "001555", "2349876");
  }

  lemma UkExampleDigits(phone: string)
    requires phone == "+44 07777 123456"
    ensures DigitsOf(phone) == "4407777123456"
  {
    UkExampleHead(phone[..9]);
    UkExampleTail(phone[9..]);
    DigitsOfParts(phone, 9, "4407777", "123456");
  }

  /** A US number written with an international "00" and a trunk "1" keeps its
      last ten digits. */
  lemma PhoneNumberUsExample(phone: string)
    requires phone == "001-555-234-9876"
    ensures StandardisePhoneNumber(phone) == "5552349876"
  {
    UsExampleDigits(phone);
    var digits := "0015552349876";
    assert HasUsPrefix(digits);
    assert digits[|digits| - 10..] == "5552349876";
  }

  /** A UK number only loses its punctuation. */
  lemma PhoneNumberUkExample(phone: string)
    requires phone == "+44 07777 123456"
    ensures StandardisePhoneNumber(phone) == "4407777123456"
  {
    UkExampleDigits(phone);
    var digits := "4407777123456";
    assert digits[|digits| - 11] == '0';
  }

  // ===========================================================================
  // Staff numbers

  /** `staff_numbers_regex`: the joined `\d+` matches, i.e. the digits of the field. */
  function StaffNumbersRegex(staff: string): (r: string)
    ensures r == DigitsOf(staff)
  {
    ConcatDigitRuns(staff);
    Concat(DigitRuns(staff))
  }

  /** The cleaned field is digits only, no longer than the input, unchanged when
      the input was already digits, and cleaning it again changes nothing. */
  lemma StaffNumbersProperties(staff: string)
    ensures AllDigits(StaffNumbersRegex(staff))
    ensures |StaffNumbersRegex(staff)| <= |staff|
    ensures AllDigits(staff) ==> StaffNumbersRegex(staff) == staff
    ensures StaffNumbersRegex(StaffNumbersRegex(staff)) == StaffNumbersRegex(staff)
  {
    DigitsOfIdempotent(staff);
    if AllDigits(staff) {
      DigitsOfAllDigits(staff);
    }
  }

  lemma StaffNumbersExample()
    ensures StaffNumbersRegex("1a2b3") == "123"
  {
    assert "1a2b3"[1..] == "a2b3";
    assert "a2b3"[1..] == "2b3";
    assert "2b3"[1..] == "b3";
    assert "b3"[1..] == "3";
    assert "3"[1..] == "";
  }

  // ===========================================================================
  // Card expiry dates

  /** What `month, expiry_year = expiry_date.split('/')` and the timestamp text
      built from the two pieces need: exactly two pieces, a two-digit month
      01..12 and a two-digit year. */
  predicate ExpiryFieldsOk(expiry: string) {
    var parts := SplitOn(expiry, '/');
    |parts| == 2 &&
    |parts[0]| == 2 && AllDigits(parts[0]) && 1 <= DecimalValue(parts[0]) <= 12 &&
    |parts[1]| == 2 && AllDigits(parts[1])
  }

  /** "MM/YY" read character by character. */
  predicate IsMonthYear(s: string) {
    |s| == 5 && IsDigit(s[0]) && IsDigit(s[1]) && s[2] == '/' &&
    IsDigit(s[3]) && IsDigit(s[4]) &&
    1 <= 10 * DigitValue(s[0]) + DigitValue(s[1]) <= 12
  }

  /** The split-based requirement is exactly the five-character "MM/YY" shape. */
  lemma {:induction false} ExpiryFieldsShape(s: string)
    ensures ExpiryFieldsOk(s) <==> IsMonthYear(s)
    ensures IsMonthYear(s) ==> SplitOn(s, '/') == [s[..2], s[3..]]
  {
    if IsMonthYear(s) {
      assert s == s[..2] + ['/'] + s[3..];
      assert '/' !in s[..2] && '/' !in s[3..];
      SplitAtOnlySep(s[..2], s[3..], '/');
      TwoDigitValue(s[..2]);
    }
    if ExpiryFieldsOk(s) {
      var parts := SplitOn(s, '/');
      JoinSplit(s, '/');
      assert parts[1..] == [parts[1]];
      assert s == parts[0] + ['/'] + parts[1];
      TwoDigitValue(parts[0]);
    }
  }

  /** `convert_expiry_date`: "MM/YY" becomes the last day of month MM of 20YY,
      computed as the source does: the first of the month, plus one month,
      minus one day. */
  function ConvertExpiryDate(expiry: string): (d: Date)
    requires ExpiryFieldsOk(expiry)
    ensures IsMonthYear(expiry)
    ensures ValidDate(d)
    ensures d == LastDayOfMonth(2000 + 10 * DigitValue(expiry[3]) + DigitValue(expiry[4]),
                                10 * DigitValue(expiry[0]) + DigitValue(expiry[1]))
  {
    ExpiryFieldsShape(expiry);
    var parts := SplitOn(expiry, '/');
    TwoDigitValue(parts[0]);
    TwentyPrefixValue(parts[1]);
    var month := DecimalValue(parts[0]);
    var year := DecimalValue("20" + parts[1]);
    MonthOffsetGivesLastDay(year, month);
    SubtractOneDay(AddOneMonth(Date(year, month, 1)))
  }

  lemma ExpiryDateExamples()
    ensures ExpiryFieldsOk("09/23") && ConvertExpiryDate("09/23") == Date(2023, 9, 30)
    ensures ExpiryFieldsOk("02/24") && ConvertExpiryDate("02/24") == Date(2024, 2, 29)
  {
    assert IsMonthYear("09/23");
    ExpiryFieldsShape("09/23");
    assert IsMonthYear("02/24");
    ExpiryFieldsShape("02/24");
  }

  /** An expiry cell the conversion accepts. */
  predicate ExpiryConvertible(c: Cell) {
    c.Text? && ExpiryFieldsOk(c.text)
  }

  /** A "123/456"-style value passes the `\d{2}/\d{2}` substring filter but is
      not a month and year the conversion accepts. */
  lemma SubstringFilterAdmitsInconvertible()
    ensures ContainsExpiryPattern("123/456")
    ensures !ExpiryConvertible(Text("123/456"))
  {
    assert ExpiryPatternAt("123/456", 1);
    ExpiryFieldsShape("123/456");
  }

  // ===========================================================================
  // Country reconciliation for users

  const DE: Cell := Text("DE")
  const GB: Cell := Text("GB")
  const US: Cell := Text("US")
  const Germany: Cell := Text("Germany")
  const UnitedKingdom: Cell := Text("United Kingdom")
  const UnitedStates: Cell := Text("United States")

  /** The codes both the user and the store cleaner keep. */
  const KnownCodes: seq<Cell> := [US, GB, DE]

  /** The six masked assignments, in source order. */
  function ReconcileCountry(r: Row): Row {
    var r1 := SetWhere(r, Equals("country_code", DE), "country", Germany);
    var r2 := SetWhere(r1, Equals("country", Germany), "country_code", DE);
    var r3 := SetWhere(r2, Equals("country_code", GB), "country", UnitedKingdom);
    var r4 := SetWhere(r3, Equals("country", UnitedKingdom), "country_code", GB);
    var r5 := SetWhere(r4, Equals("country_code", US), "country", UnitedStates);
    SetWhere(r5, Equals("country", UnitedStates), "country_code", US)
  }

  /** The (code, country) pair the passes produce, stated by priority: a German
      code or name makes the row German; failing that, a British code or name
      makes it British; failing that, an American code or name makes it
      American; any other pair is left as it is. */
  function ReconciledPair(code: Cell, country: Cell): (Cell, Cell) {
    if code == DE || country == Germany then (DE, Germany)
    else if code == GB || country == UnitedKingdom then (GB, UnitedKingdom)
    else if code == US || country == UnitedStates then (US, UnitedStates)
    else (code, country)
  }

  /** The passes change only country and country_code, and they leave exactly
      the pair the priority rule gives. */
  lemma ReconcileCountryPairs(r: Row)
    requires "country" in r && "country_code" in r
    ensures ReconcileCountry(r).Keys == r.Keys
    ensures (Get(ReconcileCountry(r), "country_code"), Get(ReconcileCountry(r), "country")) ==
            ReconciledPair(Get(r, "country_code"), Get(r, "country"))
    ensures forall k :: k in r && k != "country" && k != "country_code" ==> ReconcileCountry(r)[k] == r[k]
  {
  }

  /** The row's code and country agree with the fixed three-entry mapping. */
  predicate ConsistentCountry(r: Row) {
    var pair := (Get(r, "country_code"), Get(r, "country"));
    pair == (DE, Germany) || pair == (GB, UnitedKingdom) || pair == (US, UnitedStates)
  }

  /** After the passes, the code filter keeps a row exactly when its pair is
      consistent, and that happens exactly when the original code or the
      original country was one of the three. */
  lemma ReconciledRowKept(r: Row)
    requires "country" in r && "country_code" in r
    ensures Holds(IsIn("country_code", KnownCodes), ReconcileCountry(r)) <==> ConsistentCountry(ReconcileCountry(r))
    ensures Holds(IsIn("country_code", KnownCodes), ReconcileCountry(r)) <==>
      (Get(r, "country_code") in KnownCodes || Get(r, "country") in [Germany, UnitedKingdom, UnitedStates])
  {
    ReconcileCountryPairs(r);
  }

  /** A British code with a German country name ends German: the German passes
      run first. */
  lemma ReconcileGermanyWins(r: Row)
    requires Get(r, "country_code") == GB && Get(r, "country") == Germany
    ensures Get(ReconcileCountry(r), "country_code") == DE
    ensures Get(ReconcileCountry(r), "country") == Germany
  {
    ReconcileCountryPairs(r);
  }

  // ===========================================================================
  // Null and duplicate removal (users and cards)

  /** `dropna().drop_duplicates()`: no missing cell, no two equal rows, every
      complete row of the input kept once, at its first occurrence, in order. */
  lemma {:induction false} NullAndDuplicateRemoval(s: seq<Row>)
    ensures var d := Unique(Filter(s, NoMissing));
      (forall k :: 0 <= k < |d| ==> Holds(NoMissing, d[k])) &&
      Distinct(d) &&
      (forall x :: x in d <==> x in s && Holds(NoMissing, x)) &&
      IsSubsequence(d, s)
    ensures var complete := Filter(s, NoMissing); var d := Unique(complete);
      forall k1, k2 :: 0 <= k1 < k2 < |d| ==>
        d[k1] in complete && d[k2] in complete &&
        FirstIndex(complete, d[k1]) < FirstIndex(complete, d[k2])
  {
    var complete := Filter(s, NoMissing);
    var d := Unique(complete);
    FilterMembers(s, NoMissing);
    assert forall k :: 0 <= k < |d| ==> d[k] in d;
    FilterSubsequence(s, NoMissing);
    UniqueSubsequence(complete);
    SubsequenceTransitive(d, complete, s);
    UniqueFirstOccurrenceOrder(complete);
  }

  /** `drop_duplicates` runs while the `index` column is still present, so when
      the index values are all different it removes nothing. */
  lemma DistinctIndexKeepsAll(s: seq<Row>)
    requires forall i, j :: 0 <= i < j < |s| ==> Get(s[i], "index") != Get(s[j], "index")
    ensures Unique(s) == s
  {
    UniqueOfDistinct(s);
  }

  // ===========================================================================
  // clean_user_data

  const UserColumns: seq<string> := ["index", "country", "country_code", "phone_number", "date_of_birth", "join_date"]

  /** The phone-number column's `.apply(standardise_phone_number)`. */
  function PhoneCell(c: Cell): Cell {
    if c.Text? then Text(StandardisePhoneNumber(c.text)) else c
  }

  /** Every user row with `index` dropped and the six country passes applied. */
  function ReconciledUsers(s: seq<Row>): seq<Row> {
    seq(|s|, i requires 0 <= i < |s| => ReconcileCountry(s[i] - {"index"}))
  }

  /** The index drop followed by the passes, row by row, gives ReconciledUsers. */
  lemma ReconciledUsersSteps(s: seq<Row>, dropped: seq<Row>, passed: seq<Row>)
    requires |dropped| == |s| && forall i :: 0 <= i < |s| ==> dropped[i] == s[i] - {"index"}
    requires |passed| == |s| && forall i :: 0 <= i < |s| ==> passed[i] == ReconcileCountry(dropped[i])
    ensures passed == ReconciledUsers(s)
  {
  }

  /** After the index drop and the passes, each user row has lost only
      `index`, carries the pair the priority rule gives, and keeps every other
      cell. */
  lemma ReconciledUsersFacts(s: seq<Row>)
    requires forall i :: 0 <= i < |s| ==> "country" in s[i] && "country_code" in s[i]
    ensures |ReconciledUsers(s)| == |s|
    ensures forall i :: 0 <= i < |s| ==> ReconciledUsers(s)[i].Keys == s[i].Keys - {"index"}
    ensures forall i :: 0 <= i < |s| ==>
      (Get(ReconciledUsers(s)[i], "country_code"), Get(ReconciledUsers(s)[i], "country")) ==
        ReconciledPair(Get(s[i], "country_code"), Get(s[i], "country"))
    ensures forall i, k :: 0 <= i < |s| && k in s[i] && k != "index" && k != "country" && k != "country_code" ==>
      ReconciledUsers(s)[i][k] == s[i][k]
  {
    forall i | 0 <= i < |s|
      ensures ReconciledUsers(s)[i].Keys == s[i].Keys - {"index"}
      ensures (Get(ReconciledUsers(s)[i], "country_code"), Get(ReconciledUsers(s)[i], "country")) ==
        ReconciledPair(Get(s[i], "country_code"), Get(s[i], "country"))
      ensures forall k :: k in s[i] && k != "index" && k != "country" && k != "country_code" ==>
        ReconciledUsers(s)[i][k] == s[i][k]
    {
      var y := s[i] - {"index"};
      assert Get(y, "country_code") == Get(s[i], "country_code") && Get(y, "country") == Get(s[i], "country");
      ReconcileCountryPairs(y);
    }
  }

  /** The last three column overwrites of a kept user row. */
  function FinishUser(r: Row, toDate: Cell -> Cell): Row {
    var r1 := r["phone_number" := PhoneCell(Get(r, "phone_number"))];
    var r2 := r1["date_of_birth" := toDate(Get(r1, "date_of_birth"))];
    r2["join_date" := toDate(Get(r2, "join_date"))]
  }

  /** A cleaned user row: a consistent country pair and an all-digit phone number. */
  predicate CleanUserRow(r: Row) {
    ConsistentCountry(r) && Get(r, "phone_number").Text? && AllDigits(Get(r, "phone_number").text)
  }

  /** A user row that the code filter keeps after the passes ends clean, with
      its phone number standardised. */
  lemma KeptUserRow(y: Row, toDate: Cell -> Cell)
    requires "country" in y && "country_code" in y && "phone_number" in y
    requires Get(y, "phone_number").Text?
    requires Holds(IsIn("country_code", KnownCodes), ReconcileCountry(y))
    ensures CleanUserRow(FinishUser(ReconcileCountry(y), toDate))
    ensures Get(FinishUser(ReconcileCountry(y), toDate), "phone_number") ==
            Text(StandardisePhoneNumber(Get(y, "phone_number").text))
  {
    ReconcileCountryPairs(y);
    ReconciledRowKept(y);
    PhoneNumberIsNormal(Get(y, "phone_number").text);
  }

  /** Every row a user table keeps after `dropna`, the passes and the code
      filter ends clean. */
  lemma {:induction false} KeptUsersFacts(s: seq<Row>, cols: set<string>, toDate: Cell -> Cell)
    requires "country" in cols && "country_code" in cols && "phone_number" in cols && "index" !in cols
    requires forall j :: 0 <= j < |s| ==> s[j].Keys == cols + {"index"}
    requires forall j :: 0 <= j < |s| ==> Get(s[j], "phone_number").Text?
    ensures var kept := Filter(ReconciledUsers(s), IsIn("country_code", KnownCodes));
      forall k :: 0 <= k < |kept| ==> CleanUserRow(FinishUser(kept[k], toDate))
  {
    var rec := ReconciledUsers(s);
    forall j | 0 <= j < |rec| && Holds(IsIn("country_code", KnownCodes), rec[j])
      ensures CleanUserRow(FinishUser(rec[j], toDate))
    {
      var y := s[j] - {"index"};
      assert Get(y, "phone_number") == Get(s[j], "phone_number");
      KeptUserRow(y, toDate);
    }
    FilterAll(rec, IsIn("country_code", KnownCodes), r => CleanUserRow(FinishUser(r, toDate)));
  }

  lemma CompleteUserRow(users: Frame, x: Row)
    requires WellFormed(users) && "phone_number" in users.columns
    requires forall i :: 0 <= i < |users.rows| ==>
      Get(users.rows[i], "phone_number").Null? || Get(users.rows[i], "phone_number").Text?
    requires x in users.rows && Holds(NoMissing, x)
    ensures x.Keys == ColumnSet(users.columns) && Get(x, "phone_number").Text?
  {
    var i :| 0 <= i < |users.rows| && users.rows[i] == x;
    assert "phone_number" in x;
  }

  /** The rows `dropna().drop_duplicates()` leaves carry the full header and a
      phone number that is text. */
  lemma CompleteUserRows(users: Frame)
    requires WellFormed(users) && "phone_number" in users.columns
    requires forall i :: 0 <= i < |users.rows| ==>
      Get(users.rows[i], "phone_number").Null? || Get(users.rows[i], "phone_number").Text?
    ensures forall j :: 0 <= j < |Unique(Filter(users.rows, NoMissing))| ==>
      Unique(Filter(users.rows, NoMissing))[j].Keys == ColumnSet(users.columns) &&
      Get(Unique(Filter(users.rows, NoMissing))[j], "phone_number").Text?
  {
    var complete := Filter(users.rows, NoMissing);
    var base := Unique(complete);
    FilterMembers(users.rows, NoMissing);
    forall j | 0 <= j < |base|
      ensures base[j].Keys == ColumnSet(users.columns) && Get(base[j], "phone_number").Text?
    {
      assert base[j] in complete;
      CompleteUserRow(users, base[j]);
    }
  }

  /** Every row the user cleaner returns is clean. */
  lemma CleanedUsersClean(users: Frame, toDate: Cell -> Cell)
    requires WellFormed(users)
    requires forall c :: c in UserColumns ==> c in users.columns
    requires forall i :: 0 <= i < |users.rows| ==>
      Get(users.rows[i], "phone_number").Null? || Get(users.rows[i], "phone_number").Text?
    ensures var kept := Filter(ReconciledUsers(Unique(Filter(users.rows, NoMissing))),
                               IsIn("country_code", KnownCodes));
      forall k :: 0 <= k < |kept| ==> CleanUserRow(FinishUser(kept[k], toDate))
  {
    assert "index" in UserColumns && "country" in UserColumns && "country_code" in UserColumns;
    assert "phone_number" in UserColumns;
    var cols := ColumnSet(users.columns);
    assert "index" in cols && "phone_number" in cols;
    assert cols == (cols - {"index"}) + {"index"};
    var base := Unique(Filter(users.rows, NoMissing));
    CompleteUserRows(users);
    KeptUsersFacts(base, cols - {"index"}, toDate);
  }

  /** The six `.loc` passes over the country columns, in source order. */
  method ReconcileCountryColumns(f: Frame) returns (g: Frame)
    requires "country" in f.columns && "country_code" in f.columns
    ensures g.columns == f.columns
    ensures |g.rows| == |f.rows|
    ensures forall i :: 0 <= i < |f.rows| ==> g.rows[i] == ReconcileCountry(f.rows[i])
    ensures WellFormed(f) ==> WellFormed(g)
  {
    var p1 := LocSet(f, Equals("country_code", DE), "country", Germany);
    var p2 := LocSet(p1, Equals("country", Germany), "country_code", DE);
    var p3 := LocSet(p2, Equals("country_code", GB), "country", UnitedKingdom);
    var p4 := LocSet(p3, Equals("country", UnitedKingdom), "country_code", GB);
    var p5 := LocSet(p4, Equals("country_code", US), "country", UnitedStates);
    g := LocSet(p5, Equals("country", UnitedStates), "country_code", US);
  }

  /** The phone-number apply and the two date conversions of `clean_user_data`. */
  method FinishUserColumns(f: Frame, toDate: Cell -> Cell) returns (g: Frame)
    requires "phone_number" in f.columns && "date_of_birth" in f.columns && "join_date" in f.columns
    ensures g.columns == f.columns
    ensures |g.rows| == |f.rows|
    ensures forall i :: 0 <= i < |f.rows| ==> g.rows[i] == FinishUser(f.rows[i], toDate)
    ensures WellFormed(f) ==> WellFormed(g)
  {
    var phones := ApplyColumn(f, "phone_number", PhoneCell);
    var births := ApplyColumn(phones, "date_of_birth", toDate);
    g := ApplyColumn(births, "join_date", toDate);
  }

  /** `clean_user_data`.  `toDate` stands for
      `pd.to_datetime(..., errors='coerce').dt.date`. */
  method CleanUserData(users: Frame, toDate: Cell -> Cell) returns (cleaned: Frame)
    requires WellFormed(users)
    requires forall c :: c in UserColumns ==> c in users.columns
    requires forall i :: 0 <= i < |users.rows| ==>
      Get(users.rows[i], "phone_number").Null? || Get(users.rows[i], "phone_number").Text?
    ensures WellFormed(cleaned)
    ensures cleaned.columns == RemoveColumn(users.columns, "index")
    ensures var kept := Filter(ReconciledUsers(Unique(Filter(users.rows, NoMissing))),
                               IsIn("country_code", KnownCodes));
      |cleaned.rows| == |kept| &&
      forall i :: 0 <= i < |kept| ==> cleaned.rows[i] == FinishUser(kept[i], toDate)
    ensures forall i :: 0 <= i < |cleaned.rows| ==> CleanUserRow(cleaned.rows[i])
  {
    assert "index" in UserColumns && "country" in UserColumns && "country_code" in UserColumns;
    assert "phone_number" in UserColumns && "date_of_birth" in UserColumns && "join_date" in UserColumns;
    var complete := Where(users, NoMissing);
    var unique := DropDuplicates(complete);
    var noIndex := DropColumn(unique, "index");
    // astype('category') on country and country_code changes no value.
    var reconciled := ReconcileCountryColumns(noIndex);
    var known := Where(reconciled, IsIn("country_code", KnownCodes));
    cleaned := FinishUserColumns(known, toDate);

    ReconciledUsersSteps(unique.rows, noIndex.rows, reconciled.rows);
    CleanedUsersClean(users, toDate);
  }

  // ===========================================================================
  // clean_card_data

  /** `convert_expiry_date` as the cell function the expiry column's `.apply`
      runs: None where it raises. */
  function ExpiryCell(c: Cell): Option<Cell> {
    if ExpiryConvertible(c) then Some(Day(ConvertExpiryDate(c.text))) else None
  }

  /** A card row with its expiry text replaced by the converted date. */
  function ExpiryRow(r: Row): (out: Row)
    requires ExpiryConvertible(Get(r, "expiry_date"))
    ensures out.Keys == r.Keys + {"expiry_date"}
  {
    r["expiry_date" := Day(ConvertExpiryDate(Get(r, "expiry_date").text))]
  }

  /** A kept card row after both column conversions. */
  function FinishCard(r: Row, toDate: Cell -> Cell): Row
    requires ExpiryConvertible(Get(r, "expiry_date"))
  {
    var r1 := ExpiryRow(r);
    r1["date_payment_confirmed" := toDate(Get(r1, "date_payment_confirmed"))]
  }

  /** A finished card row's expiry cell is the last day of a month. */
  lemma FinishCardExpiry(r: Row, toDate: Cell -> Cell)
    requires ExpiryConvertible(Get(r, "expiry_date"))
    ensures Get(FinishCard(r, toDate), "expiry_date") == Day(ConvertExpiryDate(Get(r, "expiry_date").text))
    ensures ValidDate(Get(FinishCard(r, toDate), "expiry_date").date)
    ensures Get(FinishCard(r, toDate), "expiry_date").date.day ==
      DaysInMonth(Get(FinishCard(r, toDate), "expiry_date").date.year, Get(FinishCard(r, toDate), "expiry_date").date.month)
  {
    var d := ConvertExpiryDate(Get(r, "expiry_date").text);
    assert d == LastDayOfMonth(d.year, d.month);
  }

  /** The two column conversions of `clean_card_data`, on rows that already
      passed the pattern filter. */
  method ConvertCardColumns(f: Frame, toDate: Cell -> Cell) returns (res: Result<Frame, Cell>)
    requires WellFormed(f)
    requires "expiry_date" in f.columns && "date_payment_confirmed" in f.columns
    requires forall i :: 0 <= i < |f.rows| ==> Holds(ContainsExpiry("expiry_date"), f.rows[i])
    ensures res.Failure? <==> exists i :: 0 <= i < |f.rows| && !ExpiryConvertible(Get(f.rows[i], "expiry_date"))
    ensures res.Failure? ==>
      exists i :: 0 <= i < |f.rows| &&
        res.error == Get(f.rows[i], "expiry_date") && res.error.Text? &&
        ContainsExpiryPattern(res.error.text) && !ExpiryFieldsOk(res.error.text) &&
        forall j :: 0 <= j < i ==> ExpiryConvertible(Get(f.rows[j], "expiry_date"))
    ensures res.Success? ==>
      WellFormed(res.value) && res.value.columns == f.columns && |res.value.rows| == |f.rows| &&
      forall i :: 0 <= i < |f.rows| ==> res.value.rows[i] == FinishCard(f.rows[i], toDate)
    ensures res.Success? ==> forall i :: 0 <= i < |res.value.rows| ==>
      Get(res.value.rows[i], "expiry_date").Day? && ValidDate(Get(res.value.rows[i], "expiry_date").date) &&
      Get(res.value.rows[i], "expiry_date").date.day ==
        DaysInMonth(Get(res.value.rows[i], "expiry_date").date.year, Get(res.value.rows[i], "expiry_date").date.month)
  {
    var converted := TryApplyColumn(f, "expiry_date", ExpiryCell);
    match converted
    case Failure(bad) =>
      res := Failure(bad);
      var i :| 0 <= i < |f.rows| && bad == Get(f.rows[i], "expiry_date") && ExpiryCell(bad).None? &&
        forall j :: 0 <= j < i ==> ExpiryCell(Get(f.rows[j], "expiry_date")).Some?;
      assert Holds(ContainsExpiry("expiry_date"), f.rows[i]);
    case Success(withExpiry) =>
      var confirmed := ApplyColumn(withExpiry, "date_payment_confirmed", toDate);
      res := Success(confirmed);
      forall i | 0 <= i < |confirmed.rows|
        ensures confirmed.rows[i] == FinishCard(f.rows[i], toDate)
      {
      }
      forall i | 0 <= i < |confirmed.rows|
        ensures Get(confirmed.rows[i], "expiry_date").Day?
        ensures ValidDate(Get(confirmed.rows[i], "expiry_date").date)
        ensures Get(confirmed.rows[i], "expiry_date").date.day ==
          DaysInMonth(Get(confirmed.rows[i], "expiry_date").date.year, Get(confirmed.rows[i], "expiry_date").date.month)
      {
        FinishCardExpiry(f.rows[i], toDate);
      }
  }

  /** The card rows that reach the expiry conversion: complete, deduplicated
      and passing the `\d{2}/\d{2}` substring filter, in order. */
  function CardCandidates(cards: Frame): seq<Row> {
    Filter(Unique(Filter(cards.rows, NoMissing)), ContainsExpiry("expiry_date"))
  }

  /** `clean_card_data`.  `toDate` stands for
      `pd.to_datetime(..., format='%Y-%m-%d', errors='coerce').dt.date`.  The
      expiry `.apply` runs row by row, and a kept expiry value that is not
      "MM/YY" with a month 01..12 raises, so the clean fails with the first
      such value. */
  method CleanCardData(cards: Frame, toDate: Cell -> Cell) returns (res: Result<Frame, Cell>)
    requires WellFormed(cards)
    requires "expiry_date" in cards.columns && "date_payment_confirmed" in cards.columns
    requires forall i :: 0 <= i < |cards.rows| ==>
      Get(cards.rows[i], "expiry_date").Null? || Get(cards.rows[i], "expiry_date").Text?
    ensures res.Failure? <==>
      exists i :: 0 <= i < |CardCandidates(cards)| &&
        !ExpiryConvertible(Get(CardCandidates(cards)[i], "expiry_date"))
    ensures res.Failure? ==>
      exists i :: 0 <= i < |CardCandidates(cards)| &&
        res.error == Get(CardCandidates(cards)[i], "expiry_date") &&
        res.error.Text? && ContainsExpiryPattern(res.error.text) && !ExpiryFieldsOk(res.error.text) &&
        forall j :: 0 <= j < i ==>
          ExpiryConvertible(Get(CardCandidates(cards)[j], "expiry_date"))
    ensures res.Success? ==>
      WellFormed(res.value) && res.value.columns == cards.columns &&
      |res.value.rows| == |CardCandidates(cards)| &&
      forall i :: 0 <= i < |res.value.rows| ==>
        res.value.rows[i] == FinishCard(CardCandidates(cards)[i], toDate)
    ensures res.Success? ==> forall i :: 0 <= i < |res.value.rows| ==>
      Get(res.value.rows[i], "expiry_date").Day? && ValidDate(Get(res.value.rows[i], "expiry_date").date) &&
      Get(res.value.rows[i], "expiry_date").date.day ==
        DaysInMonth(Get(res.value.rows[i], "expiry_date").date.year, Get(res.value.rows[i], "expiry_date").date.month)
  {
    var complete := Where(cards, NoMissing);
    var unique := DropDuplicates(complete);
    var matching := Where(unique, ContainsExpiry("expiry_date"));
    assert matching.rows == CardCandidates(cards);
    FilterAll(unique.rows, ContainsExpiry("expiry_date"), r => Holds(ContainsExpiry("expiry_date"), r));
    res := ConvertCardColumns(matching, toDate);
  }

  // ===========================================================================
  // clean_store_data

  /** The columns the store cleaner reads or selects from the raw table. */
  const StoreColumns: seq<string> :=
    ["lat", "index", "store_code", "store_type", "address", "locality", "longitude",
     "latitude", "country_code", "staff_numbers", "opening_date"]

  /** `new_column_order`. */
  const StoreColumnOrder: seq<string> :=
    ["store_code", "store_type", "address", "locality", "longitude", "latitude",
     "country_code", "continent", "staff_numbers", "opening_date"]

  const Int32Max: int := 0x7FFF_FFFF

  /** The staff column's `.apply(staff_numbers_regex)`. */
  function StaffCell(c: Cell): Cell {
    if c.Text? then Text(StaffNumbersRegex(c.text)) else c
  }

  /** Staff text whose digits `astype('int32')` turns into a number. */
  predicate StaffCastable(c: Cell) {
    c.Text? && DigitsOf(c.text) != [] && DecimalValue(DigitsOf(c.text)) <= Int32Max
  }

  /** `astype('int32')` on a cleaned staff cell. */
  function Int32Cell(c: Cell): Cell {
    if c.Text? && c.text != [] && AllDigits(c.text) && DecimalValue(c.text) <= Int32Max
    then Int(DecimalValue(c.text))
    else c
  }

  function DropLatAndIndex(r: Row): Row {
    (r - {"lat"}) - {"index"}
  }

  /** The two continent assignments of `clean_store_data` on one row. */
  function SetContinents(r: Row): Row {
    var r1 := SetWhere(r, Either(Equals("country_code", DE), Equals("country_code", GB)), "continent", Text("Europe"));
    SetWhere(r1, Equals("country_code", US), "continent", Text("America"))
  }

  /** The numeric, integer and date conversions of `clean_store_data` on one row. */
  function ConvertStoreCells(r: Row, toNumber: Cell -> Cell, toDate: Cell -> Cell): Row {
    var r1 := r["longitude" := toNumber(Get(r, "longitude"))];
    var r2 := r1["latitude" := toNumber(Get(r1, "latitude"))];
    var r3 := r2["staff_numbers" := Int32Cell(Get(r2, "staff_numbers"))];
    r3["opening_date" := toDate(Get(r3, "opening_date"))]
  }

  /** The cell-wise steps of `clean_store_data` on one row, from the staff
      apply to the opening-date conversion, in source order. */
  function StoreCells(r: Row, toNumber: Cell -> Cell, toDate: Cell -> Cell): Row {
    ConvertStoreCells(SetContinents(r["staff_numbers" := StaffCell(Get(r, "staff_numbers"))]), toNumber, toDate)
  }

  /** The column selection and the rename at the end of `clean_store_data`. */
  function StoreOutputRow(r: Row): Row {
    Renamed(Project(r, ColumnSet(StoreColumnOrder)), "locality", "location")
  }

  /** A raw store row that passes the country filter, after every later step. */
  function StoreRow(r: Row, toNumber: Cell -> Cell, toDate: Cell -> Cell): Row {
    StoreOutputRow(StoreCells(DropLatAndIndex(r), toNumber, toDate))
  }

  /** The continent assignments add the continent column and change nothing
      else; a row with one of the three codes gets the continent of its code. */
  lemma SetContinentsFacts(r: Row)
    ensures SetContinents(r).Keys == r.Keys + {"continent"}
    ensures Get(r, "country_code") in KnownCodes ==>
      Get(SetContinents(r), "continent") ==
        if Get(r, "country_code") == US then Text("America") else Text("Europe")
    ensures forall c :: c != "continent" ==> Get(SetContinents(r), c) == Get(r, c)
  {
    var europe := Either(Equals("country_code", DE), Equals("country_code", GB));
    var r1 := SetWhere(r, europe, "continent", Text("Europe"));
    assert "continent" in r1;
    if Get(r, "country_code") in [DE, GB] {
      assert Holds(europe, r);
      assert !Holds(Equals("country_code", US), r1);
    }
  }

  /** The conversions touch longitude, latitude, staff_numbers and opening_date only. */
  lemma ConvertStoreCellsFacts(r: Row, toNumber: Cell -> Cell, toDate: Cell -> Cell)
    requires "longitude" in r && "latitude" in r && "opening_date" in r && "staff_numbers" in r
    ensures ConvertStoreCells(r, toNumber, toDate).Keys == r.Keys
    ensures Get(ConvertStoreCells(r, toNumber, toDate), "staff_numbers") == Int32Cell(Get(r, "staff_numbers"))
    ensures forall c :: c != "longitude" && c != "latitude" && c != "staff_numbers" && c != "opening_date" ==>
      Get(ConvertStoreCells(r, toNumber, toDate), c) == Get(r, c)
  {
  }

  /** The cell-wise steps add the continent column, give it the continent of
      the row's code and turn the staff text into the integer of its digits. */
  lemma StoreCellsFacts(r: Row, toNumber: Cell -> Cell, toDate: Cell -> Cell)
    requires Get(r, "country_code") in KnownCodes
    requires StaffCastable(Get(r, "staff_numbers"))
    requires "longitude" in r && "latitude" in r && "opening_date" in r
    ensures StoreCells(r, toNumber, toDate).Keys == r.Keys + {"continent"}
    ensures StoreRowClean(StoreCells(r, toNumber, toDate))
    ensures Get(StoreCells(r, toNumber, toDate), "staff_numbers") == Int(DecimalValue(DigitsOf(Get(r, "staff_numbers").text)))
  {
    var staff := Get(r, "staff_numbers").text;
    var r1 := r["staff_numbers" := StaffCell(Get(r, "staff_numbers"))];
    assert Get(r1, "staff_numbers") == Text(DigitsOf(staff));
    SetContinentsFacts(r1);
    var r2 := SetContinents(r1);
    ConvertStoreCellsFacts(r2, toNumber, toDate);
    assert Int32Cell(Text(DigitsOf(staff))) == Int(DecimalValue(DigitsOf(staff)));
  }

  /** The cell-wise steps leave every other column alone. */
  lemma StoreCellsKeeps(r: Row, c: string, toNumber: Cell -> Cell, toDate: Cell -> Cell)
    requires "longitude" in r && "latitude" in r && "opening_date" in r
    requires c != "staff_numbers" && c != "continent" && c != "longitude" && c != "latitude" && c != "opening_date"
    ensures Get(StoreCells(r, toNumber, toDate), c) == Get(r, c)
    ensures c in StoreCells(r, toNumber, toDate) <==> c in r
  {
    var r1 := r["staff_numbers" := StaffCell(Get(r, "staff_numbers"))];
    SetContinentsFacts(r1);
    ConvertStoreCellsFacts(SetContinents(r1), toNumber, toDate);
  }

  /** Every column the store cleaner reads is present.  StoreColumns written out
      as a conjunction, which keeps the row proofs within the solver's budget. */
  predicate HasStoreColumns(r: Row) {
    "lat" in r && "index" in r &&
    "store_code" in r && "store_type" in r && "address" in r && "locality" in r &&
    "longitude" in r && "latitude" in r && "country_code" in r &&
    "staff_numbers" in r && "opening_date" in r
  }

  /** Every column of `new_column_order` is present.  StoreColumnOrder written
      out as a conjunction, for the same reason as HasStoreColumns. */
  predicate HasOrderedColumns(r: Row) {
    "store_code" in r && "store_type" in r && "address" in r && "locality" in r &&
    "longitude" in r && "latitude" in r && "country_code" in r && "continent" in r &&
    "staff_numbers" in r && "opening_date" in r
  }

  /** Selecting `new_column_order` and renaming locality to location gives
      exactly the output header, with locality's cell under location. */
  lemma StoreOutputRowFacts(r: Row)
    requires HasOrderedColumns(r)
    ensures StoreOutputRow(r).Keys == ColumnSet(StoreOutputColumns)
    ensures Get(StoreOutputRow(r), "location") == Get(r, "locality")
  {
    var p := Project(r, ColumnSet(StoreColumnOrder));
    assert p.Keys == ColumnSet(StoreColumnOrder);
    assert "locality" in p;
    assert ColumnSet(StoreOutputColumns) == ColumnSet(StoreColumnOrder) - {"locality"} + {"location"};
  }

  /** Every other selected column keeps its cell. */
  lemma StoreOutputKeeps(r: Row, c: string)
    requires c in StoreColumnOrder && c != "locality"
    ensures Get(StoreOutputRow(r), c) == Get(r, c)
  {
    assert c in ColumnSet(StoreColumnOrder);
    assert c != "location";
  }

  /** Locality's cell ends under location. */
  lemma StoreOutputLocation(r: Row)
    requires "locality" in r
    ensures Get(StoreOutputRow(r), "location") == Get(r, "locality")
  {
    assert "locality" in ColumnSet(StoreColumnOrder);
  }

  /** The steps after the two column drops, on a row with one of the three
      codes: the output header, the continent of the code and the staff
      integer. */
  lemma StoreOutputDerived(d: Row, toNumber: Cell -> Cell, toDate: Cell -> Cell)
    requires "longitude" in d && "latitude" in d && "opening_date" in d && "staff_numbers" in d
    requires "store_code" in d && "store_type" in d && "address" in d && "locality" in d && "country_code" in d
    requires Get(d, "country_code") in KnownCodes
    requires StaffCastable(Get(d, "staff_numbers"))
    ensures StoreOutputRow(StoreCells(d, toNumber, toDate)).Keys == ColumnSet(StoreOutputColumns)
    ensures StoreRowClean(StoreOutputRow(StoreCells(d, toNumber, toDate)))
    ensures Get(StoreOutputRow(StoreCells(d, toNumber, toDate)), "staff_numbers") ==
            Int(DecimalValue(DigitsOf(Get(d, "staff_numbers").text)))
  {
    StoreCellsFacts(d, toNumber, toDate);
    var x := StoreCells(d, toNumber, toDate);
    StoreOutputRowFacts(x);
    StoreOutputKeeps(x, "country_code");
    StoreOutputKeeps(x, "continent");
    StoreOutputKeeps(x, "staff_numbers");
  }

  /** The identifying cells of a store come through unchanged, locality as location. */
  lemma StoreOutputCarried(d: Row, toNumber: Cell -> Cell, toDate: Cell -> Cell)
    requires "longitude" in d && "latitude" in d && "opening_date" in d
    requires "store_code" in d && "store_type" in d && "address" in d && "locality" in d && "country_code" in d
    ensures Get(StoreOutputRow(StoreCells(d, toNumber, toDate)), "location") == Get(d, "locality")
    ensures Get(StoreOutputRow(StoreCells(d, toNumber, toDate)), "store_code") == Get(d, "store_code")
    ensures Get(StoreOutputRow(StoreCells(d, toNumber, toDate)), "store_type") == Get(d, "store_type")
    ensures Get(StoreOutputRow(StoreCells(d, toNumber, toDate)), "address") == Get(d, "address")
    ensures Get(StoreOutputRow(StoreCells(d, toNumber, toDate)), "country_code") == Get(d, "country_code")
  {
    var x := StoreCells(d, toNumber, toDate);
    StoreCellsKeeps(d, "locality", toNumber, toDate);
    StoreCellsKeeps(d, "store_code", toNumber, toDate);
    StoreCellsKeeps(d, "store_type", toNumber, toDate);
    StoreCellsKeeps(d, "address", toNumber, toDate);
    StoreCellsKeeps(d, "country_code", toNumber, toDate);
    StoreOutputLocation(x);
    StoreOutputKeeps(x, "store_code");
    StoreOutputKeeps(x, "store_type");
    StoreOutputKeeps(x, "address");
    StoreOutputKeeps(x, "country_code");
  }

  /** Dropping lat and index does not change the country filter's verdict. */
  lemma DropKeepsCountryTest(r: Row)
    ensures Holds(IsIn("country_code", KnownCodes), DropLatAndIndex(r)) <==>
            Holds(IsIn("country_code", KnownCodes), r)
  {
    DropLatAndIndexFacts(r);
  }

  /** Dropping lat and index keeps every other column and cell. */
  lemma DropLatAndIndexFacts(r: Row)
    ensures DropLatAndIndex(r).Keys == r.Keys - {"lat", "index"}
    ensures forall c :: c != "lat" && c != "index" ==> Get(DropLatAndIndex(r), c) == Get(r, c)
  {
  }

  /** A kept store row keeps its code, gets the continent of that code, the
      integer value of its staff digits, and exactly the output columns. */
  lemma StoreRowFacts(r: Row, toNumber: Cell -> Cell, toDate: Cell -> Cell)
    requires HasStoreColumns(r)
    requires Holds(IsIn("country_code", KnownCodes), r)
    requires StaffCastable(Get(r, "staff_numbers"))
    ensures StoreRow(r, toNumber, toDate).Keys == ColumnSet(StoreOutputColumns)
    ensures StoreRowClean(StoreRow(r, toNumber, toDate))
    ensures Get(StoreRow(r, toNumber, toDate), "country_code") == Get(r, "country_code")
    ensures Get(StoreRow(r, toNumber, toDate), "staff_numbers") == Int(DecimalValue(DigitsOf(Get(r, "staff_numbers").text)))
    ensures Get(StoreRow(r, toNumber, toDate), "location") == Get(r, "locality")
    ensures Get(StoreRow(r, toNumber, toDate), "store_code") == Get(r, "store_code")
    ensures Get(StoreRow(r, toNumber, toDate), "store_type") == Get(r, "store_type")
    ensures Get(StoreRow(r, toNumber, toDate), "address") == Get(r, "address")
  {
    DropLatAndIndexFacts(r);
    var d := DropLatAndIndex(r);
    StoreOutputDerived(d, toNumber, toDate);
    StoreOutputCarried(d, toNumber, toDate);
  }

  /** A cleaned store row: one of the three codes, and the continent of that code. */
  predicate StoreRowClean(r: Row) {
    Get(r, "country_code") in KnownCodes &&
    (Get(r, "continent") == Text("Europe") <==> Get(r, "country_code") in [DE, GB]) &&
    (Get(r, "continent") == Text("America") <==> Get(r, "country_code") == US)
  }

  /** The output header: `new_column_order` with locality renamed to location. */
  const StoreOutputColumns: seq<string> :=
    ["store_code", "store_type", "address", "location", "longitude", "latitude",
     "country_code", "continent", "staff_numbers", "opening_date"]

  /** A header holding every column of StoreColumns, one by one.  This and
      OrderedColumnsPresent convert between the list form and the conjunction
      form, which keeps the header proofs within the solver's budget. */
  lemma StoreHeader(cols: seq<string>)
    requires forall c :: c in StoreColumns ==> c in cols
    ensures "lat" in cols && "index" in cols && "store_code" in cols && "store_type" in cols
    ensures "address" in cols && "locality" in cols && "longitude" in cols && "latitude" in cols
    ensures "country_code" in cols && "staff_numbers" in cols && "opening_date" in cols
  {
    assert "lat" in StoreColumns && "index" in StoreColumns && "store_code" in StoreColumns;
    assert "store_type" in StoreColumns && "address" in StoreColumns && "locality" in StoreColumns;
    assert "longitude" in StoreColumns && "latitude" in StoreColumns && "country_code" in StoreColumns;
    assert "staff_numbers" in StoreColumns && "opening_date" in StoreColumns;
  }

  /** The conjunction form of StoreColumnOrder gives back the list form. */
  lemma OrderedColumnsPresent(cols: seq<string>)
    requires "store_code" in cols && "store_type" in cols && "address" in cols && "locality" in cols
    requires "longitude" in cols && "latitude" in cols && "country_code" in cols && "continent" in cols
    requires "staff_numbers" in cols && "opening_date" in cols
    ensures forall c :: c in StoreColumnOrder ==> c in cols
  {
  }

  /** The header at each step of `clean_store_data` has the columns the next
      step reads. */
  lemma StoreHeaderThroughSteps(cols: seq<string>)
    requires forall c :: c in StoreColumns ==> c in cols
    ensures "lat" in cols && "index" in RemoveColumn(cols, "lat")
    ensures "staff_numbers" in RemoveColumn(RemoveColumn(cols, "lat"), "index")
    ensures "longitude" in RemoveColumn(RemoveColumn(cols, "lat"), "index")
    ensures "latitude" in RemoveColumn(RemoveColumn(cols, "lat"), "index")
    ensures "opening_date" in RemoveColumn(RemoveColumn(cols, "lat"), "index")
    ensures forall c :: c in StoreColumnOrder ==>
      c in (if "continent" in RemoveColumn(RemoveColumn(cols, "lat"), "index")
            then RemoveColumn(RemoveColumn(cols, "lat"), "index")
            else RemoveColumn(RemoveColumn(cols, "lat"), "index") + ["continent"])
  {
    StoreHeader(cols);
    var c2 := RemoveColumn(RemoveColumn(cols, "lat"), "index");
    var c3 := if "continent" in c2 then c2 else c2 + ["continent"];
    assert "continent" in c3;
    OrderedColumnsPresent(c3);
  }

  /** `new_column_order` names each column once, and renaming its locality
      gives the output header. */
  lemma StoreColumnOrderFacts()
    ensures Distinct(StoreColumnOrder)
    ensures "location" !in StoreColumnOrder
    ensures RenameIn(StoreColumnOrder, "locality", "location") == StoreOutputColumns
  {
    assert RenameIn(StoreColumnOrder, "locality", "location")[3] == "location";
  }

  /** The rows that pass the country filter carry every column the cleaner
      reads and a staff text `astype('int32')` accepts. */
  lemma KeptStoreRows(stores: Frame)
    requires WellFormed(stores)
    requires forall c :: c in StoreColumns ==> c in stores.columns
    requires forall i :: 0 <= i < |stores.rows| && Holds(IsIn("country_code", KnownCodes), stores.rows[i]) ==>
      StaffCastable(Get(stores.rows[i], "staff_numbers"))
    ensures forall k :: 0 <= k < |Filter(stores.rows, IsIn("country_code", KnownCodes))| ==>
      HasStoreColumns(Filter(stores.rows, IsIn("country_code", KnownCodes))[k]) &&
      StaffCastable(Get(Filter(stores.rows, IsIn("country_code", KnownCodes))[k], "staff_numbers"))
  {
    var kept := Filter(stores.rows, IsIn("country_code", KnownCodes));
    FilterMembers(stores.rows, IsIn("country_code", KnownCodes));
    var cols := ColumnSet(stores.columns);
    StoreHeader(stores.columns);
    forall k | 0 <= k < |kept|
      ensures HasStoreColumns(kept[k]) && StaffCastable(Get(kept[k], "staff_numbers"))
    {
      assert kept[k] in kept;
      var i :| 0 <= i < |stores.rows| && stores.rows[i] == kept[k];
      assert kept[k].Keys == cols;
    }
  }

  /** Every row the store cleaner returns has one of the three codes and the
      continent of that code. */
  lemma CleanedStoresClean(stores: Frame, toNumber: Cell -> Cell, toDate: Cell -> Cell)
    requires WellFormed(stores)
    requires forall c :: c in StoreColumns ==> c in stores.columns
    requires forall i :: 0 <= i < |stores.rows| && Holds(IsIn("country_code", KnownCodes), stores.rows[i]) ==>
      StaffCastable(Get(stores.rows[i], "staff_numbers"))
    ensures forall k :: 0 <= k < |Filter(stores.rows, IsIn("country_code", KnownCodes))| ==>
      StoreRowClean(StoreRow(Filter(stores.rows, IsIn("country_code", KnownCodes))[k], toNumber, toDate))
  {
    var kept := Filter(stores.rows, IsIn("country_code", KnownCodes));
    KeptStoreRows(stores);
    forall k | 0 <= k < |kept|
      ensures StoreRowClean(StoreRow(kept[k], toNumber, toDate))
    {
      StoreRowFacts(kept[k], toNumber, toDate);
    }
  }

  /** From the staff apply to the opening-date conversion of `clean_store_data`. */
  method ConvertStoreColumns(f: Frame, toNumber: Cell -> Cell, toDate: Cell -> Cell) returns (g: Frame)
    requires "staff_numbers" in f.columns && "longitude" in f.columns
    requires "latitude" in f.columns && "opening_date" in f.columns
    ensures g.columns == if "continent" in f.columns then f.columns else f.columns + ["continent"]
    ensures |g.rows| == |f.rows|
    ensures forall i :: 0 <= i < |f.rows| ==> g.rows[i] == StoreCells(f.rows[i], toNumber, toDate)
    ensures WellFormed(f) ==> WellFormed(g)
  {
    var staff := ApplyColumn(f, "staff_numbers", StaffCell);
    var europe := LocSet(staff, Either(Equals("country_code", DE), Equals("country_code", GB)), "continent", Text("Europe"));
    var america := LocSet(europe, Equals("country_code", US), "continent", Text("America"));
    var lon := ApplyColumn(america, "longitude", toNumber);
    var lat := ApplyColumn(lon, "latitude", toNumber);
    // astype(float) on longitude and latitude changes no value.
    var staffInt := ApplyColumn(lat, "staff_numbers", Int32Cell);
    // astype('category') on store_type and country_code changes no value.
    g := ApplyColumn(staffInt, "opening_date", toDate);
  }

  /** `df[new_column_order]` followed by the rename of locality to location. */
  method SelectStoreColumns(f: Frame) returns (g: Frame)
    requires forall c :: c in StoreColumnOrder ==> c in f.columns
    ensures g.columns == StoreOutputColumns
    ensures |g.rows| == |f.rows|
    ensures forall i :: 0 <= i < |f.rows| ==> g.rows[i] == StoreOutputRow(f.rows[i])
    ensures WellFormed(f) ==> WellFormed(g)
  {
    StoreColumnOrderFacts();
    var ordered := Reindex(f, StoreColumnOrder);
    g := RenameColumn(ordered, "locality", "location");
  }

  /** `clean_store_data`.  `toNumber` stands for `pd.to_numeric(..., errors='coerce')`
      and `toDate` for `pd.to_datetime(..., errors='coerce').dt.date`. */
  method CleanStoreData(stores: Frame, toNumber: Cell -> Cell, toDate: Cell -> Cell) returns (cleaned: Frame)
    requires WellFormed(stores)
    requires forall c :: c in StoreColumns ==> c in stores.columns
    requires forall i :: 0 <= i < |stores.rows| && Holds(IsIn("country_code", KnownCodes), stores.rows[i]) ==>
      StaffCastable(Get(stores.rows[i], "staff_numbers"))
    ensures WellFormed(cleaned)
    ensures cleaned.columns == StoreOutputColumns
    ensures |cleaned.rows| == |Filter(stores.rows, IsIn("country_code", KnownCodes))|
    ensures forall k :: 0 <= k < |cleaned.rows| ==>
      cleaned.rows[k] == StoreRow(Filter(stores.rows, IsIn("country_code", KnownCodes))[k], toNumber, toDate)
    ensures forall k :: 0 <= k < |cleaned.rows| ==> StoreRowClean(cleaned.rows[k])
  {
    StoreHeaderThroughSteps(stores.columns);
    var working := stores;  // .copy()
    var noLat := DropColumn(working, "lat");
    var noIndex := DropColumn(noLat, "index");
    var known := Where(noIndex, IsIn("country_code", KnownCodes));
    var converted := ConvertStoreColumns(known, toNumber, toDate);
    cleaned := SelectStoreColumns(converted);

    ghost var kept := Filter(stores.rows, IsIn("country_code", KnownCodes));
    forall i | 0 <= i < |stores.rows|
      ensures noIndex.rows[i] == DropLatAndIndex(stores.rows[i])
      ensures Holds(IsIn("country_code", KnownCodes), noIndex.rows[i]) <==>
              Holds(IsIn("country_code", KnownCodes), stores.rows[i])
    {
      DropKeepsCountryTest(stores.rows[i]);
    }
    FilterPointwise(stores.rows, noIndex.rows, IsIn("country_code", KnownCodes), DropLatAndIndex);
    CleanedStoresClean(stores, toNumber, toDate);
  }
}
