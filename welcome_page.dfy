/**
 * The floor-plan page's own logic: the elapsed-time label of an open
 * session, the pax field's parsing, which status buttons a table offers,
 * the request body a button sends, the quick-stat counts, and the colour
 * classes of tables and status badges. The clock is a parameter: the page
 * passes the milliseconds elapsed since the session started.
 */
module WelcomePage {
  import opened Wrappers
  import opened Ordering
  import opened Models
  import opened TableStatus

  // ---------------------------------------------------------------- decimal text

  predicate IsDigit(c: char) { '0' <= c <= '9' }

  function DigitChar(d: nat): char
    requires d < 10
  {
    ('0' as int + d) as char
  }

  function DigitValue(c: char): nat
    requires IsDigit(c)
  {
    (c as int - '0' as int) as nat
  }

  /**
   * A number's decimal text, as a template literal shows a non-negative
   * integer: digits only, and no leading zero except in "0" itself.
   */
  function NatText(n: nat): (s: string)
    ensures |s| > 0 && forall i :: 0 <= i < |s| ==> IsDigit(s[i])
    ensures s[0] == '0' <==> n == 0
    ensures n == 0 ==> s == "0"
    ensures |s| == 1 || s[0] != '0'
  {
    if n < 10 then [DigitChar(n)] else NatText(n / 10) + [DigitChar(n % 10)]
  }

  /** A template literal's text of any integer: a minus sign before negative numbers. */
  function IntText(i: int): string {
    if i < 0 then "-" + NatText(-i) else NatText(i)
  }

  function DigitsValue(s: string): nat
    requires forall i :: 0 <= i < |s| ==> IsDigit(s[i])
  {
    if s == [] then 0 else DigitsValue(s[..|s| - 1]) * 10 + DigitValue(s[|s| - 1])
  }

  /** A non-empty run of digits read as a number; anything else is not a number. */
  function ParseNat(s: string): Option<nat> {
    if |s| > 0 && forall i :: 0 <= i < |s| ==> IsDigit(s[i]) then Some(DigitsValue(s)) else None
  }

  lemma {:induction false} NatTextRoundTrip(n: nat)
    ensures ParseNat(NatText(n)) == Some(n)
  {
    if n >= 10 {
      NatTextRoundTrip(n / 10);
      var s := NatText(n);
      assert s[..|s| - 1] == NatText(n / 10);
      assert DigitValue(DigitChar(n % 10)) == n % 10;
    } else {
      var t := NatText(n);
      assert t == [DigitChar(n)] && t[..0] == [];
      assert DigitsValue(t) == DigitValue(DigitChar(n));
    }
  }

  // ---------------------------------------------------------------- session duration

  const MillisPerMinute: nat := 60000

  /** The quotient rounded toward zero, which JavaScript's `%` pairs with. */
  function TruncatedQuotient(a: int, b: int): int
    requires b > 0
  {
    if a >= 0 then a / b else -((-a) / b)
  }

  /**
   * JavaScript's `%`: the remainder takes the sign of the dividend, and the
   * dividend is the truncated quotient times `b` plus the remainder.
   */
  function JsRemainder(a: int, b: int): (r: int)
    requires b > 0
    ensures a >= 0 ==> 0 <= r < b
    ensures a < 0 ==> -b < r <= 0
    ensures a == TruncatedQuotient(a, b) * b + r
  {
    if a >= 0 then a % b
    else
      var q := (-a) / b;
      assert -a == q * b + (-a) % b;
      assert -(q * b) == (-q) * b;
      -((-a) % b)
  }

  datatype Duration = Duration(hours: int, minutes: int)

  /** `calculateDuration`'s arithmetic: whole minutes elapsed, then `Math.floor(m / 60)` and `m % 60`. */
  function DurationOf(elapsedMillis: int): Duration {
    var diffMinutes := elapsedMillis / MillisPerMinute;
    Duration(diffMinutes / 60, JsRemainder(diffMinutes, 60))
  }

  /**
   * `calculateDuration`'s text: "{h}h {m}m" when there is at least an hour,
   * "{m}m" otherwise. The hour part appears exactly when a whole hour has
   * elapsed, never when the clock is behind the session start.
   */
  function DurationText(elapsedMillis: int): (r: string)
    ensures |r| > 0 && r[|r| - 1] == 'm'
    ensures elapsedMillis >= 0 ==> ('h' in r <==> elapsedMillis / MillisPerMinute >= 60)
    ensures elapsedMillis < 0 ==> 'h' !in r
  {
    var d := DurationOf(elapsedMillis);
    if d.hours > 0 then
      IntText(d.hours) + "h " + IntText(d.minutes) + "m"
    else
      NoHourInText(d.minutes);
      IntText(d.minutes) + "m"
  }

  /** A number's text holds digits and maybe a minus sign, so never an hour mark. */
  lemma NoHourInText(i: int)
    ensures 'h' !in IntText(i) + "m"
  {
    var t := IntText(i) + "m";
    forall j | 0 <= j < |t|
      ensures t[j] != 'h'
    {
      if i >= 0 {
        if j < |NatText(i)| { assert t[j] == NatText(i)[j]; }
      } else if 0 < j < |t| - 1 {
        assert t[j] == NatText(-i)[j - 1];
      }
    }
  }

  /**
   * The label's exact form, from the elapsed whole minutes alone: under an
   * hour it is "{minutes}m", from an hour on it is "{hours}h {minutes}m" with
   * the minutes below 60.
   */
  lemma DurationLabelForm(elapsedMillis: int)
    requires elapsedMillis >= 0
    ensures var total := elapsedMillis / MillisPerMinute;
      && (total < 60 ==> DurationText(elapsedMillis) == NatText(total) + "m")
      && (total >= 60 ==> DurationText(elapsedMillis) == NatText(total / 60) + "h " + NatText(total % 60) + "m")
  {
    DurationSplitsMinutes(elapsedMillis);
  }

  /** For a non-negative elapsed time the split is exact: hours * 60 + minutes is the elapsed minutes. */
  lemma DurationSplitsMinutes(elapsedMillis: int)
    requires elapsedMillis >= 0
    ensures var d := DurationOf(elapsedMillis);
      && d.hours >= 0 && 0 <= d.minutes < 60
      && d.hours * 60 + d.minutes == elapsedMillis / MillisPerMinute
  {
  }

  /** A clock behind the session start shows only a non-positive minute count. */
  lemma NegativeElapsedShowsMinutesOnly(elapsedMillis: int)
    requires elapsedMillis < 0
    ensures var d := DurationOf(elapsedMillis);
      d.hours < 0 && -60 < d.minutes <= 0 && DurationText(elapsedMillis) == IntText(d.minutes) + "m"
  {
  }

  /** The first position of `c` in `s`, if any. */
  function FindChar(s: string, c: char): (r: Option<nat>)
    ensures r.Some? ==> r.value < |s| && s[r.value] == c && forall j :: 0 <= j < r.value ==> s[j] != c
    ensures r.None? ==> forall j :: 0 <= j < |s| ==> s[j] != c
  {
    if s == [] then None
    else if s[0] == c then Some(0)
    else match FindChar(s[1..], c)
      case Some(i) => Some(i + 1)
      case None => None
  }

  /**
   * Reads a duration label back as whole minutes. Only the label's own forms
   * are read: "{m}m" under an hour, "{h}h {m}m" with at least one hour and
   * the minutes below 60.
   */
  function ParseDuration(s: string): Option<int> {
    if |s| == 0 || s[|s| - 1] != 'm' then None
    else
      var body := s[..|s| - 1];
      match FindChar(body, 'h')
      case None => (match ParseNat(body) case Some(m) => if m < 60 then Some(m as int) else None case None => None)
      case Some(i) =>
        if i + 1 < |body| && body[i + 1] == ' ' then
          match (ParseNat(body[..i]), ParseNat(body[i + 2..]))
          case (Some(h), Some(m)) => if h > 0 && m < 60 then Some(h * 60 + m) else None
          case _ => None
        else None
  }

  lemma MinutesLabelParses(m: nat)
    requires m < 60
    ensures ParseDuration(NatText(m) + "m") == Some(m)
  {
    var t := NatText(m);
    NatTextRoundTrip(m);
    var s := t + "m";
    assert s[..|s| - 1] == t;
  }

  lemma {:induction false} FindCharAfterDigits(digits: string, rest: string)
    requires forall i :: 0 <= i < |digits| ==> IsDigit(digits[i])
    requires |rest| > 0 && rest[0] == 'h'
    ensures FindChar(digits + rest, 'h') == Some(|digits|)
  {
    if digits != [] {
      assert (digits + rest)[1..] == digits[1..] + rest;
      FindCharAfterDigits(digits[1..], rest);
    }
  }

  lemma HoursLabelParses(h: nat, m: nat)
    requires h > 0 && m < 60
    ensures ParseDuration(NatText(h) + "h " + NatText(m) + "m") == Some(h * 60 + m)
  {
    var ht, mt := NatText(h), NatText(m);
    var s := ht + "h " + mt + "m";
    var body := ht + ("h " + mt);
    assert s[..|s| - 1] == body;
    FindCharAfterDigits(ht, "h " + mt);
    HoursBodySplits(ht, mt);
    NatTextRoundTrip(h);
    NatTextRoundTrip(m);
  }

  lemma HoursBodySplits(ht: string, mt: string)
    ensures var body := ht + ("h " + mt);
      |ht| + 1 < |body| && body[|ht| + 1] == ' ' && body[..|ht|] == ht && body[|ht| + 2..] == mt
  {
  }

  /**
   * The label loses nothing: for a non-negative elapsed time it reads back as
   * the elapsed minutes, and since only the label's own forms are read, it
   * has the hour form exactly when a whole hour has elapsed.
   */
  lemma DurationTextRoundTrip(elapsedMillis: int)
    requires elapsedMillis >= 0
    ensures ParseDuration(DurationText(elapsedMillis)) == Some(elapsedMillis / MillisPerMinute)
  {
    var d := DurationOf(elapsedMillis);
    DurationSplitsMinutes(elapsedMillis);
    var h, m := d.hours as nat, d.minutes as nat;
    if h > 0 {
      assert DurationText(elapsedMillis) == NatText(h) + "h " + NatText(m) + "m";
      HoursLabelParses(h, m);
    } else {
      assert DurationText(elapsedMillis) == NatText(m) + "m";
      MinutesLabelParses(m);
    }
  }

  // ---------------------------------------------------------------- pax field

  /** `parseInt` on a number field's value: an optional sign, then the leading digits; no digits is NaN. */
  function ParseInt(s: string): Option<int> {
    var sign := if |s| > 0 && (s[0] == '-' || s[0] == '+') then 1 else 0;
    var digits := LeadingDigits(s[sign..]);
    if |digits| == 0 then None
    else if sign == 1 && s[0] == '-' then Some(-(DigitsValue(digits) as int))
    else Some(DigitsValue(digits) as int)
  }

  function LeadingDigits(s: string): (r: string)
    ensures r <= s && forall i :: 0 <= i < |r| ==> IsDigit(r[i])
    ensures |r| < |s| ==> !IsDigit(s[|r|])
  {
    if s == [] || !IsDigit(s[0]) then [] else [s[0]] + LeadingDigits(s[1..])
  }

  /** `parseInt(value) || 1`: NaN and 0 both become 1. */
  function PaxFromField(value: string): int {
    match ParseInt(value)
    case None => 1
    case Some(n) => if n == 0 then 1 else n
  }

  /**
   * The pax field never yields 0, yields 1 for text that is not a number, and
   * reads any integer's own text back as that integer unless it is 0.
   */
  lemma PaxFieldParsing(value: string, n: int)
    ensures PaxFromField(value) != 0
    ensures ParseInt(value).None? ==> PaxFromField(value) == 1
    ensures PaxFromField(IntText(n)) == if n == 0 then 1 else n
  {
    var t := NatText(if n < 0 then -n else n);
    NatTextRoundTrip(if n < 0 then -n else n);
    assert LeadingDigits(t) == t by { LeadingDigitsOfDigits(t); }
    if n < 0 {
      assert IntText(n) == "-" + t && IntText(n)[1..] == t;
    } else {
      assert IntText(n) == t;
      if |t| > 0 { assert IsDigit(t[0]); }
    }
  }

  lemma LeadingDigitsOfDigits(s: string)
    requires forall i :: 0 <= i < |s| ==> IsDigit(s[i])
    ensures LeadingDigits(s) == s
  {
  }

  // ---------------------------------------------------------------- status buttons

  datatype Action = SetAvailable | SeatCustomers | MarkReserved | SetCleaning | MarkBilled

  /** The status each button asks for. */
  function Target(a: Action): Status {
    match a
    case SetAvailable => Available
    case SeatCustomers => Occupied
    case MarkReserved => Reserved
    case SetCleaning => Cleaning
    case MarkBilled => Billed
  }

  /** The buttons the table dialog shows for a table in `current` status. */
  function OfferedActions(current: Status): set<Action> {
    (if current != Available then {SetAvailable} else {})
    + (if current != Occupied then {SeatCustomers} else {})
    + (if current != Reserved then {MarkReserved} else {})
    + (if current != Cleaning then {SetCleaning} else {})
    + (if current == Occupied then {MarkBilled} else {})
  }

  /**
   * A button is offered exactly when it would change the status, except
   * that billing is offered only to an occupied table.
   */
  lemma OfferedActionsChangeStatus(current: Status, a: Action)
    ensures a in OfferedActions(current) <==> Target(a) != current && (a == MarkBilled ==> current == Occupied)
  {
  }

  /** The seat button is disabled for a free table only when no name is given and pax is below 1. */
  predicate SeatDisabled(current: Status, customerName: string, pax: int) {
    current == Available && customerName == "" && pax < 1
  }

  /** The request body a status button sends: the name and pax go along only when seating. */
  function Payload(newStatus: string, customerName: string, pax: int): (req: StatusRequest)
    ensures req.status == Some(newStatus)
    ensures req.customerName.Some? <==> newStatus == "occupied"
    ensures req.pax.Some? <==> newStatus == "occupied"
    ensures newStatus == "occupied" ==> req.customerName == Some(customerName) && req.pax == Some(pax)
  {
    if newStatus == "occupied" then StatusRequest(Some(newStatus), Some(customerName), Some(pax))
    else StatusRequest(Some(newStatus), None, None)
  }

  /** `handleStatusChange`: starts from the status alone and adds the seating fields when seating. */
  method HandleStatusChange(newStatus: string, customerName: string, pax: int) returns (data: StatusRequest)
    ensures data == Payload(newStatus, customerName, pax)
  {
    data := StatusRequest(Some(newStatus), None, None);
    if newStatus == "occupied" {
      data := data.(customerName := Some(customerName));
      data := data.(pax := Some(pax));
    }
  }

  /**
   * What the server makes of a button's request: any status but Occupied is
   * always accepted; seating is refused exactly for a pax below 1 or a name
   * longer than 255 characters.
   */
  lemma PayloadValidation(target: Status, customerName: string, pax: int)
    ensures var req := Payload(StatusName(target), customerName, pax);
      && (target != Occupied ==> req.customerName.None? && req.pax.None? && StatusErrors(req) == {})
      && (target == Occupied ==>
            StatusErrors(req) ==
              (if pax < 1 then {PaxInput} else {}) + (if |customerName| > MaxCustomerNameLength then {CustomerNameInput} else {}))
  {
  }

  /**
   * The pax field can still reach the server below 1: typing "-2" with a
   * name filled in leaves the seat button enabled, and the request is refused.
   */
  lemma NegativePaxIsSentAndRefused()
    ensures var pax := PaxFromField("-2");
      && pax == -2
      && !SeatDisabled(Available, "Ann", pax)
      && StatusErrors(Payload("occupied", "Ann", pax)) == {PaxInput}
  {
    assert LeadingDigits("2") == "2";
    assert DigitsValue("2") == 2 by { assert "2"[..0] == []; }
  }

  // ---------------------------------------------------------------- quick stats

  datatype QuickStats = QuickStats(available: nat, occupied: nat, reserved: nat, cleaning: nat)

  function CountStatus(tables: seq<Table>, s: Status): nat {
    |Filter(tables, (t: Table) => t.status == s)|
  }

  /** The sidebar counts; billed tables have no counter. */
  function Stats(tables: seq<Table>): QuickStats {
    QuickStats(CountStatus(tables, Available), CountStatus(tables, Occupied),
               CountStatus(tables, Reserved), CountStatus(tables, Cleaning))
  }

  /** The four counters and the uncounted billed tables together account for every table exactly once. */
  lemma {:induction false} StatsAccountForEveryTable(tables: seq<Table>)
    ensures var st := Stats(tables);
      st.available + st.occupied + st.reserved + st.cleaning + CountStatus(tables, Billed) == |tables|
  {
    if tables != [] {
      StatsAccountForEveryTable(tables[1..]);
    }
  }

  // ---------------------------------------------------------------- colours

  /** The colour family both `getTableColor` and `getStatusBadgeColor` pick for a status. */
  datatype Hue = Green | Red | Yellow | Blue | Orange | Gray

  function HueName(h: Hue): string {
    match h
    case Green => "green"
    case Red => "red"
    case Yellow => "yellow"
    case Blue => "blue"
    case Orange => "orange"
    case Gray => "gray"
  }

  /** The switch shared by both colour helpers: one hue per status, gray for anything else. */
  function StatusHue(status: string): Hue {
    if status == "available" then Green
    else if status == "occupied" then Red
    else if status == "reserved" then Yellow
    else if status == "cleaning" then Blue
    else if status == "billed" then Orange
    else Gray
  }

  /** `getTableColor`: a solid tile with a darker hover and border. */
  function TableColor(status: string): string {
    TableClasses(StatusHue(status))
  }

  function TableClasses(h: Hue): string {
    var n := HueName(h);
    "bg-" + n + ("-500 hover:bg-" + n + "-600 border-" + n + "-600")
  }

  /** `getStatusBadgeColor`: a pale badge with dark text. */
  function StatusBadgeColor(status: string): string {
    BadgeClasses(StatusHue(status))
  }

  function BadgeClasses(h: Hue): string {
    var n := HueName(h);
    "bg-" + n + ("-100 text-" + n + "-800 border-" + n + "-300")
  }

  /** Different hues give different class strings: letters 3 and 5 spell out the hue. */
  lemma ClassesDetermineHue(a: Hue, b: Hue)
    ensures TableClasses(a) == TableClasses(b) ==> a == b
    ensures BadgeClasses(a) == BadgeClasses(b) ==> a == b
  {
    ClassesSpellHue(a);
    ClassesSpellHue(b);
  }

  lemma ClassesSpellHue(h: Hue)
    ensures |TableClasses(h)| > 5 && TableClasses(h)[3] == HueName(h)[0] && TableClasses(h)[5] == HueName(h)[2]
    ensures |BadgeClasses(h)| > 5 && BadgeClasses(h)[3] == HueName(h)[0] && BadgeClasses(h)[5] == HueName(h)[2]
  {
  }

  /**
   * Every string that is not one of the five statuses is gray, none of the
   * five is, and different statuses get different hues: the colour tells the
   * status apart.
   */
  lemma ColoursIdentifyStatus(status: string, a: Status, b: Status)
    ensures ParseStatus(status).None? <==> StatusHue(status) == Gray
    ensures TableColor(StatusName(a)) == TableColor(StatusName(b)) ==> a == b
    ensures StatusBadgeColor(StatusName(a)) == StatusBadgeColor(StatusName(b)) ==> a == b
  {
    ClassesDetermineHue(StatusHue(StatusName(a)), StatusHue(StatusName(b)));
  }
}
